/** Numbers as text: the digit loop and in-place reversal shared by debug_ds and debug_xs
    (src/sys/debug.c) and vsnprintf_ds and vsnprintf_xs (usr/lib/posix/vsnprintf.c), and
    atoi (src/sys/atoi.c). */
module Numerals {
  import opened Bits
  import opened CStrings

  /** Digit sets by value. */
  const DECIMAL := "0123456789"
  const LOWER_HEX := "0123456789abcdef"
  const UPPER_HEX := "0123456789ABCDEF"

  predicate IsSet(set0: string) { |set0| == 10 || |set0| == 16 }

  /** Most significant digit first, none for zero. */
  function Digits(v: nat, set0: string): string
    requires IsSet(set0)
  {
    if v == 0 then "" else Digits(v / |set0|, set0) + [set0[v % |set0|]]
  }

  function Numeral(v: nat, set0: string): string
    requires IsSet(set0)
  {
    if v == 0 then [set0[0]] else Digits(v, set0)
  }

  function Decimal(v: nat): string { Numeral(v, DECIMAL) }

  function Reverse(s: string): string { if s == "" then "" else Reverse(s[1..]) + [s[0]] }

  lemma {:induction false} ReverseAt(s: string, k: nat)
    requires k < |s|
    ensures |Reverse(s)| == |s| && Reverse(s)[k] == s[|s| - 1 - k]
  {
    if |s| <= 1 {
    } else {
      ReverseAt(s[1..], if k < |s| - 1 then k else 0);
    }
  }

  lemma ReverseLength(s: string)
    ensures |Reverse(s)| == |s|
  {
    if s != "" { ReverseAt(s, 0); }
  }

  predicate Bytes(s: string) { forall i :: 0 <= i < |s| ==> (s[i] as int) < 256 }

  lemma ByteSwap(a: int, b: int)
    requires 0 <= a < 256 && 0 <= b < 256
    ensures var x := Xor(a, b, 8); 0 <= x < 256 && Xor(b, x, 8) == a && Xor(x, a, 8) == b
  {
    hide Xor;
    assert Pow2(8) == 256;
    XorSwap(a, b, 8);
  }

  function XorChar(a: char, b: char): char
    requires 0 <= Xor(a as int, b as int, 8) < 256
  {
    Xor(a as int, b as int, 8) as char
  }

  /** Three assignments with ^=. */
  method SwapByXor(res: array<char>, i: nat, j: nat)
    requires i < res.Length && j < res.Length && i != j && (res[i] as int) < 256 && (res[j] as int) < 256
    modifies res
    ensures res[i] == old(res[j]) && res[j] == old(res[i])
    ensures forall k :: 0 <= k < res.Length && k != i && k != j ==> res[k] == old(res[k])
  {
    hide Xor, Pow2;
    ByteSwap(res[i] as int, res[j] as int);
    res[i] := XorChar(res[i], res[j]);
    res[j] := XorChar(res[j], res[i]);
    res[i] := XorChar(res[i], res[j]);
  }

  /** Lines 104-108 of debug.c: the first c characters from at reversed by exclusive or. */
  method ReverseInPlace(res: array<char>, at: nat, c: nat)
    requires at + c <= res.Length && Bytes(res[at..at + c])
    modifies res
    ensures res[..] == old(res[..at]) + Reverse(old(res[at..at + c])) + old(res[at + c..])
  {
    hide Reverse;
    var i, j := 0, c - 1;
    ghost var was := res[at..at + c];
    while i < j
      invariant 0 <= i <= j + 2 && i + j == c - 1
      invariant forall k :: 0 <= k < at || at + c <= k < res.Length ==> res[k] == old(res[k])
      invariant forall x :: at <= x < at + c ==> res[x] == if at + i <= x <= at + j then was[x - at] else was[c - 1 - (x - at)]
    {
      assert (was[i] as int) < 256 && (was[j] as int) < 256;
      SwapByXor(res, at + i, at + j);
      i, j := i + 1, j - 1;
    }
    ReverseLength(was);
    forall x | at <= x < at + c
      ensures res[x] == Reverse(was)[x - at]
    {
      ReverseAt(was, x - at);
    }
  }

  lemma ReverseSnoc(s: string, c: char)
    ensures Reverse(s + [c]) == [c] + Reverse(s)
  {
    var t := s + [c];
    ReverseLength(s);
    ReverseLength(t);
    forall k | 0 <= k < |t|
      ensures Reverse(t)[k] == ([c] + Reverse(s))[k]
    {
      ReverseAt(t, k);
      if k > 0 { ReverseAt(s, k - 1); }
    }
  }

  /** The buffer with text and a NUL written at at. */
  function Written(was: string, at: nat, text: string): string
    requires at + |text| < |was|
  {
    was[..at] + text + [NUL] + was[at + |text| + 1..]
  }

  lemma DigitStep(v: nat, digits: string)
    requires IsSet(digits)
    ensures v == 0 ==> Digits(v, digits) == ""
    ensures v > 0 ==> v / |digits| < v && Digits(v, digits) == Digits(v / |digits|, digits) + [digits[v % |digits|]]
  {
  }

  /** Only what is around the text shows in the result. */
  lemma WrittenSame(was: string, now: string, at: nat, text: string)
    requires |was| == |now| && at + |text| < |was|
    requires forall k :: 0 <= k < |was| && (k < at || k > at + |text|) ==> now[k] == was[k]
    ensures Written(was, at, text) == Written(now, at, text)
  {
    assert now[..at] == was[..at] && now[at + |text| + 1..] == was[at + |text| + 1..];
  }

  /** The digit loop: least significant first. */
  method PutDigits(v0: nat, res: array<char>, at: nat, digits: string) returns (c: nat)
    requires IsSet(digits) && Bytes(digits) && at + |Digits(v0, digits)| <= res.Length
    modifies res
    ensures c == |Digits(v0, digits)| && Reverse(res[at..at + c]) == Digits(v0, digits) && Bytes(res[at..at + c])
    ensures forall k :: 0 <= k < at || at + c <= k < res.Length ==> res[k] == old(res[k])
  {
    hide Digits, Reverse;
    var v: nat := v0;
    c := 0;
    DigitStep(v, digits);
    assert Reverse(res[at..at]) == "" by { ReverseLength(res[at..at]); }
    while v != 0
      invariant c + |Digits(v, digits)| == |Digits(v0, digits)|
      invariant Digits(v0, digits) == Digits(v, digits) + Reverse(res[at..at + c])
      invariant Bytes(res[at..at + c]) && (v == 0 ==> Digits(v, digits) == "")
      invariant forall k :: 0 <= k < at || at + c <= k < res.Length ==> res[k] == old(res[k])
      decreases v
    {
      ghost var done := res[at..at + c];
      DigitStep(v, digits);
      DigitStep(v / |digits|, digits);
      res[at + c] := digits[v % |digits|];
      assert res[at..at + c + 1] == done + [digits[v % |digits|]];
      ReverseSnoc(done, digits[v % |digits|]);
      c := c + 1;
      v := v / |digits|;
    }
  }

  lemma WrittenIs(was: string, at: nat, text: string)
    requires at + |text| < |was|
    ensures Written(was, at, text) == was[..at] + text + ([NUL] + was[at + |text| + 1..])
  {
  }

  /** The closing NUL, and the reversal. */
  method Finish(res: array<char>, at: nat, c: nat)
    requires at + c < res.Length && Bytes(res[at..at + c])
    modifies res
    ensures |Reverse(old(res[at..at + c]))| == c && res[..] == Written(old(res[..]), at, Reverse(old(res[at..at + c])))
  {
    hide Reverse, Written;
    ReverseLength(res[at..at + c]);
    ghost var was, part, rest := res[..], res[at..at + c], res[at + c + 1..];
    res[at + c] := NUL;
    assert res[at..at + c] == part && res[..at] == was[..at] && rest == was[at + c + 1..];
    assert res[at + c..] == [NUL] + rest;
    ReverseInPlace(res, at, c);
    WrittenIs(was, at, Reverse(part));
  }

  /** debug_xs and vsnprintf_xs: any set of digits, unsigned. */
  method Unsigned(v: nat, res: array<char>, at: nat, digits: string) returns (c: nat)
    requires IsSet(digits) && Bytes(digits) && at + |Numeral(v, digits)| < res.Length
    modifies res
    ensures c == |Numeral(v, digits)| && res[..] == Written(old(res[..]), at, Numeral(v, digits))
  {
    if v == 0 {
      res[at] := digits[0];
      res[at + 1] := NUL;
      return 1;
    }
    c := PutDigits(v, res, at, digits);
    Finish(res, at, c);
  }

  const TWO32 := 0x1_0000_0000
  const TWO63 := 0x8000_0000_0000_0000
  const TWO64 := 0x1_0000_0000_0000_0000

  /** (int32_t) x. */
  function Int32(x: int): (y: int)
    ensures -0x8000_0000 <= y < 0x8000_0000 && (y - x) % 0x1_0000_0000 == 0
  {
    if x % TWO32 < 0x8000_0000 then x % TWO32 else x % TWO32 - TWO32
  }

  /** The sign and magnitude printed: sz says that all 64 bits count for the sign, s that
      there is one. */
  function Parts(x: int, s: bool, sz: bool): (bool, int) {
    var signed := if sz then x else Int32(x);
    if s && signed < 0 then (true, -signed) else (false, x % TWO64)
  }

  function SignedText(x: int, s: bool, sz: bool): string
    requires -TWO63 < x < TWO63
  {
    var (neg, v) := Parts(x, s, sz);
    if x == 0 then "0" else if neg then "-" + Digits(v, DECIMAL) else Digits(v, DECIMAL)
  }

  method PutSign(res: array<char>, at: nat, c: nat)
    requires at + c < res.Length && Bytes(res[at..at + c])
    modifies res
    ensures Reverse(res[at..at + c + 1]) == "-" + old(Reverse(res[at..at + c])) && Bytes(res[at..at + c + 1])
    ensures forall k :: 0 <= k < res.Length && k != at + c ==> res[k] == old(res[k])
  {
    ReverseSnoc(res[at..at + c], '-');
    res[at + c] := '-';
    assert res[at..at + c + 1] == old(res[at..at + c]) + ['-'];
  }

  /** debug_ds and vsnprintf_ds. */
  method Signed(x: int, res: array<char>, at: nat, s: bool, sz: bool) returns (c: nat)
    requires -TWO63 < x < TWO63 && (s && !sz ==> Int32(x) != -0x8000_0000) && at + |SignedText(x, s, sz)| < res.Length
    modifies res
    ensures c == |SignedText(x, s, sz)| && res[..] == Written(old(res[..]), at, SignedText(x, s, sz))
  {
    if x == 0 {
      res[at] := '0';
      res[at + 1] := NUL;
      return 1;
    }
    hide Digits, Reverse, Written;
    var (neg, v) := Parts(x, s, sz);
    c := PutDigits(v, res, at, DECIMAL);
    if neg {
      PutSign(res, at, c);
      c := c + 1;
    }
    WrittenSame(old(res[..]), res[..], at, SignedText(x, s, sz));
    Finish(res, at, c);
  }

  // ---- reading back

  predicate IsDigit(c: char) { '0' <= c <= '9' }

  /** The number that the digits at the front of s stand for, after r. */
  function Fold(s: string, r: nat): nat {
    if s == "" || !IsDigit(s[0]) then r else Fold(s[1..], r * 10 + (s[0] as int - '0' as int))
  }

  /** atoi's result: an int of 32 bits, which wraps. */
  function ReadInt(s: string): int { Int32(Fold(s, 0)) }

  function Turns(x: int): int { (x - Int32(x)) / TWO32 }

  lemma WrapsBy(x: int)
    ensures x == Int32(x) + TWO32 * Turns(x)
  {
  }

  lemma WrapsTo(x: int, y: int, turns: int)
    requires x == y + TWO32 * turns
    ensures Int32(x) == Int32(y)
  {
    assert x % TWO32 == y % TWO32;
  }

  lemma WrapsAlike(k: int, d: int)
    ensures Int32(Int32(Int32(k) * 10) + d) == Int32(k * 10 + d)
  {
    hide Int32, Turns;
    WrapsBy(k);
    WrapsBy(Int32(k) * 10);
    WrapsTo(k * 10 + d, Int32(Int32(k) * 10) + d, 10 * Turns(k) + Turns(Int32(k) * 10));
  }

  lemma ZeroFits()
    ensures Int32(0) == 0
  {
  }

  /** atoi of the string from p on. */
  method Atoi(s: string, p: nat) returns (r: int)
    requires p <= |s|
    ensures r == ReadInt(s[p..])
  {
    hide Int32;
    var i := p;
    ghost var k: nat := 0;
    ZeroFits();
    r := 0;
    while CharAt(s, i) != NUL
      invariant p <= i <= |s| && Fold(s[i..], k) == Fold(s[p..], 0) && r == Int32(k)
      decreases |s| - i
    {
      if IsDigit(s[i]) {
        assert s[i..][1..] == s[i + 1..];
        ghost var d: nat := s[i] as int - '0' as int;
        WrapsAlike(k, d);
        r := Int32(r * 10);
        r := Int32(r + (s[i] as int - '0' as int));
        k := k * 10 + d;
        i := i + 1;
      } else {
        break;
      }
    }
  }

  lemma DecimalDigit(d: nat)
    requires d < 10
    ensures IsDigit(DECIMAL[d]) && DECIMAL[d] as int == '0' as int + d
  {
  }

  lemma {:induction false} FoldDigits(v: nat, tail: string)
    ensures Fold(Digits(v, DECIMAL) + tail, 0) == Fold(tail, v)
  {
    if v == 0 {
      assert Digits(0, DECIMAL) + tail == tail;
    } else {
      var d := DECIMAL[v % 10];
      DecimalDigit(v % 10);
      assert Digits(v, DECIMAL) + tail == Digits(v / 10, DECIMAL) + ([d] + tail);
      FoldDigits(v / 10, [d] + tail);
      assert ([d] + tail)[1..] == tail;
    }
  }

  lemma FoldOfDecimal(v: nat, tail: string)
    requires tail == "" || !IsDigit(tail[0])
    ensures Fold(Decimal(v) + tail, 0) == v
  {
    if v == 0 {
      DecimalDigit(0);
      assert (Decimal(0) + tail)[1..] == tail;
    } else {
      FoldDigits(v, tail);
    }
  }

  /** A printed number reads back exactly when it is below 2 to the 31, whatever follows it
      that is not a digit. */
  lemma AtoiOfDecimal(v: nat, tail: string)
    requires tail == "" || !IsDigit(tail[0])
    ensures ReadInt(Decimal(v) + tail) == v <==> v < 0x8000_0000
  {
    hide Fold, Decimal;
    FoldOfDecimal(v, tail);
  }

  lemma SignOfText(x: int)
    requires -TWO63 < x < TWO63
    ensures x >= 0 ==> SignedText(x, true, true) == Decimal(x)
    ensures x < 0 ==> |SignedText(x, true, true)| > 0 && SignedText(x, true, true)[0] == '-'
  {
    hide Digits;
  }

  lemma NoDigits(s: string)
    requires s != "" && !IsDigit(s[0])
    ensures Fold(s, 0) == 0
  {
  }

  /** atoi takes back what debug_ds writes exactly for the numbers from 0 up to 2 to the 31:
      there is no sign in its syntax, and its result has 32 bits. */
  lemma AtoiOfSigned(x: int)
    requires -TWO63 < x < TWO63
    ensures ReadInt(SignedText(x, true, true)) == x <==> 0 <= x < 0x8000_0000
  {
    hide SignedText, Decimal, Fold;
    SignOfText(x);
    if x >= 0 {
      FoldOfDecimal(x, "");
      assert Decimal(x) + "" == Decimal(x);
    } else {
      NoDigits(SignedText(x, true, true));
    }
  }

  /** Digits that differ keep numbers apart. */
  lemma {:induction false} DigitsInjective(u: nat, v: nat, digits: string)
    requires IsSet(digits) && forall i, j :: 0 <= i < j < |digits| ==> digits[i] != digits[j]
    requires Digits(u, digits) == Digits(v, digits)
    ensures u == v
  {
    if u == 0 || v == 0 {
    } else {
      var s, t, b := Digits(u, digits), Digits(v, digits), |digits|;
      assert s[..|s| - 1] == Digits(u / b, digits) && t[..|t| - 1] == Digits(v / b, digits);
      assert s[|s| - 1] == digits[u % b] && t[|t| - 1] == digits[v % b];
      DigitsInjective(u / b, v / b, digits);
      assert u == b * (u / b) + u % b && v == b * (v / b) + v % b;
    }
  }

  function Pow(b: nat, n: nat): nat { if n == 0 then 1 else b * Pow(b, n - 1) }

  /** A number below b to the n has n digits at most. */
  lemma {:induction false} DigitsFit(v: nat, digits: string, n: nat)
    requires IsSet(digits) && v < Pow(|digits|, n)
    ensures |Digits(v, digits)| <= n
    decreases n
  {
    if v == 0 {
    } else {
      assert v / |digits| < Pow(|digits|, n - 1);
      DigitsFit(v / |digits|, digits, n - 1);
    }
  }

  lemma Scale(b: nat, x: int, y: int)
    requires x <= y
    ensures b * x <= b * y
  {
  }

  lemma Quotient(v: nat, d: nat, q: int, r: int)
    requires d > 0 && 0 <= r < d && v == d * q + r
    ensures v / d == q
  {
    assert v == d * (v / d) + v % d;
    if v / d < q {
      Scale(d, v / d + 1, q);
    } else if v / d > q {
      Scale(d, q + 1, v / d);
    }
  }

  lemma DivideTwice(v: nat, b: nat, p: nat)
    requires b > 0 && p > 0
    ensures b * p > 0 && v / b / p == v / (b * p)
  {
    var q := v / b / p;
    assert v / b == q * p + v / b % p && v == b * (v / b) + v % b;
    var r := b * (v / b % p) + v % b;
    assert v == b * p * q + r;
    Scale(b, v / b % p + 1, p);
    assert 0 <= r < b * p;
    Quotient(v, b * p, q, r);
  }

  lemma PowDivides(v: nat, b: nat, n: nat)
    requires b > 0 && Pow(b, n) > 0
    ensures Pow(b, n + 1) > 0 && v / b / Pow(b, n) == v / Pow(b, n + 1)
  {
    var p := Pow(b, n);
    assert Pow(b, n + 1) == b * p;
    DivideTwice(v, b, p);
  }

  /** Digit k of v is digit k - 1 of v / b. */
  lemma DigitMoved(v: nat, b: nat, c: char, digits: string, k: nat)
    requires b == |digits| > 0 && k > 0 && Pow(b, k - 1) > 0 && c == digits[v / b / Pow(b, k - 1) % b]
    ensures Pow(b, k) > 0 && c == digits[v / Pow(b, k) % b]
  {
    PowDivides(v, b, k - 1);
  }

  lemma DigitAdded(v: nat, b: nat, front: string, s: string, digits: string)
    requires IsSet(digits) && b == |digits| && s == front + [digits[v % b]]
    requires forall k :: 0 <= k < |front| ==> Pow(b, k) > 0 && front[|front| - 1 - k] == digits[v / b / Pow(b, k) % b]
    ensures forall k :: 0 <= k < |s| ==> Pow(b, k) > 0 && s[|s| - 1 - k] == digits[v / Pow(b, k) % b]
  {
    assert Pow(b, 0) == 1;
    hide Pow;
    forall k | 0 <= k < |s|
      ensures Pow(b, k) > 0 && s[|s| - 1 - k] == digits[v / Pow(b, k) % b]
    {
      if k > 0 {
        assert Pow(b, k - 1) > 0 && front[|front| - 1 - (k - 1)] == digits[v / b / Pow(b, k - 1) % b];
        DigitMoved(v, b, front[|front| - k], digits, k);
      }
    }
  }

  /** Cutting the last digit off. */
  lemma PowScales(v: nat, b: nat, n: nat)
    requires b > 0
    ensures v / b < Pow(b, n) <==> v < Pow(b, n + 1)
  {
    var p := Pow(b, n);
    assert v == b * (v / b) + v % b && Pow(b, n + 1) == b * p;
    if v / b < p {
      Scale(b, v / b + 1, p);
    } else {
      Scale(b, p, v / b);
    }
  }

  lemma {:induction false} DigitsAre(v: nat, digits: string)
    requires IsSet(digits)
    ensures var s, b := Digits(v, digits), |digits|;
      && v < Pow(b, |s|) && (v > 0 ==> |s| > 0 && Pow(b, |s| - 1) <= v)
      && forall k :: 0 <= k < |s| ==> Pow(b, k) > 0 && s[|s| - 1 - k] == digits[v / Pow(b, k) % b]
  {
    if v == 0 {
    } else {
      DigitsAre(v / |digits|, digits);
      DigitStep(v, digits);
      DigitStep(0, digits);
      hide Digits;
      var b, front := |digits|, Digits(v / |digits|, digits);
      DigitAdded(v, b, front, Digits(v, digits), digits);
      PowScales(v, b, |front|);
      if v / b > 0 {
        PowScales(v, b, |front| - 1);
      }
    }
  }

  /** What a numeral is: its k-th digit from the right is the one worth v / b^k mod b in the
      set, and there are no more of them than the number needs. */
  lemma NumeralIs(v: nat, digits: string)
    requires IsSet(digits)
    ensures var s, b := Numeral(v, digits), |digits|;
      && |s| > 0 && v < Pow(b, |s|) && (|s| > 1 ==> Pow(b, |s| - 1) <= v)
      && forall k :: 0 <= k < |s| ==> Pow(b, k) > 0 && s[|s| - 1 - k] == digits[v / Pow(b, k) % b]
  {
    if v == 0 {
      assert Pow(|digits|, 1) == |digits| * Pow(|digits|, 0);
    } else {
      DigitsAre(v, digits);
    }
  }
}
