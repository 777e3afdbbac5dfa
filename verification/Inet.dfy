/** Dotted addresses, src/net/inet.c: octet 0 in the low byte. */
module Inet {
  import opened CStrings
  import opened Numerals

  datatype Outcome = Returned(value: int) | Panicked

  /** The text of octets i to 3 of an address, the others shifted out. */
  function Dotted(a: nat, i: nat): string
    requires i <= 3
    decreases 3 - i
  {
    Decimal(a % 256) + if i == 3 then "" else "." + Dotted(a / 256, i + 1)
  }

  /** inet_aton's result for octets i to 3, or no result where a dot is missing. */
  function Parsed(s: string, i: nat): (bool, nat)
    requires i <= 3
    decreases 3 - i
  {
    var octet, d := ReadInt(s) % 256, IndexOf(s, '.');
    if i == 3 then (true, octet)
    else if d >= |s| then (false, 0)
    else var (ok, rest) := Parsed(s[d + 1..], i + 1); (ok, octet + 256 * rest)
  }

  function Pow256(n: nat): nat { if n == 0 then 1 else 256 * Pow256(n - 1) }

  predicate Digit(s: string) { forall k :: 0 <= k < |s| ==> IsDigit(s[k]) }

  lemma {:induction false} DigitsOnly(v: nat)
    ensures Digit(Digits(v, DECIMAL)) && Digit(Decimal(v))
  {
    if v > 0 {
      DigitsOnly(v / 10);
      DecimalDigit(v % 10);
    } else {
      DecimalDigit(0);
    }
  }

  lemma Shifted(a: nat, n: nat)
    requires a < Pow256(n + 1)
    ensures a / 256 < Pow256(n) && a == a % 256 + 256 * (a / 256)
  {
  }

  lemma PowerZero()
    ensures Pow256(0) == 1
  {
  }

  lemma OctetFirst(v: nat, rest: string)
    requires v < 256
    ensures var s := Decimal(v) + ("." + rest);
      && ReadInt(s) == v && IndexOf(s, '.') == |Decimal(v)| < |s| && s[|Decimal(v)| + 1..] == rest
  {
    hide ReadInt, IndexOf, Decimal;
    AtoiOfDecimal(v, "." + rest);
    DigitsOnly(v);
    IndexBehind(Decimal(v), "." + rest, '.');
  }

  /** inet_aton takes back what inet_ntoa writes, for every address. */
  lemma {:induction false} ParsedDotted(a: nat, i: nat)
    requires i <= 3 && a < Pow256(4 - i)
    ensures Parsed(Dotted(a, i), i) == (true, a)
    decreases 3 - i
  {
    hide ReadInt, IndexOf, Decimal, Pow256;
    if i == 3 {
      Shifted(a, 0);
      PowerZero();
      AtoiOfDecimal(a % 256, "");
      assert Decimal(a % 256) + "" == Decimal(a % 256);
    } else {
      OctetFirst(a % 256, Dotted(a / 256, i + 1));
      Shifted(a, 3 - i);
      ParsedDotted(a / 256, i + 1);
    }
  }

  lemma DottedStep(a: nat, i: nat)
    requires i <= 3
    ensures i == 3 ==> Dotted(a, i) == Decimal(a % 256) + ""
    ensures i < 3 ==> Dotted(a, i) == Decimal(a % 256) + ("." + Dotted(a / 256, i + 1))
  {
  }

  lemma LastOctet(v: nat)
    requires v < 256
    ensures Dotted(v, 3) == Decimal(v)
  {
    hide Decimal;
    assert Decimal(v) + "" == Decimal(v);
  }

  lemma FirstOctet(v: nat, rest: nat, i: nat)
    requires v < 256 && i < 3
    ensures Dotted(v + 256 * rest, i) == Decimal(v) + ("." + Dotted(rest, i + 1))
  {
    hide Decimal;
    assert (v + 256 * rest) % 256 == v && (v + 256 * rest) / 256 == rest;
  }

  /** The text of an address: its four octets in decimal, the low one first. */
  lemma DottedIs(a: nat, b: nat, c: nat, d: nat)
    requires a < 256 && b < 256 && c < 256 && d < 256
    ensures Dotted(a + 256 * b + 0x1_0000 * c + 0x100_0000 * d, 0) ==
      Decimal(a) + ("." + (Decimal(b) + ("." + (Decimal(c) + ("." + Decimal(d))))))
  {
    hide Decimal, Dotted;
    LastOctet(d);
    FirstOctet(c, d, 2);
    FirstOctet(b, c + 256 * d, 1);
    FirstOctet(a, b + 256 * (c + 256 * d), 0);
  }

  lemma Pow3()
    ensures Pow(|DECIMAL|, 3) == 1000
  {
    assert Pow(10, 1) == 10 && Pow(10, 2) == 100;
  }

  lemma OctetText(v: nat)
    requires v < 256
    ensures SignedText(v, false, false) == Decimal(v) && |Decimal(v)| <= 3 && NoNul(Decimal(v))
  {
    assert SignedText(v, false, false) == Decimal(v) by { hide Digits; }
    hide Digits, Pow, SignedText;
    Pow3();
    DigitsFit(v, DECIMAL, 3);
    DigitsOnly(v);
  }

  /** The address whose low octets are r and whose octets from i on are those of rest. */
  function Combine(r: nat, i: nat, rest: nat): nat { r + rest * Pow256(i) }

  lemma CombineStep(r: nat, i: nat, octet: nat, rest: nat)
    ensures Combine(r, i, octet + 256 * rest) == Combine(r + octet * Pow256(i), i + 1, rest)
    ensures Combine(r, i, octet) == r + octet * Pow256(i) && Combine(0, 0, rest) == rest
  {
    var p := Pow256(i);
    assert (octet + 256 * rest) * p == octet * p + rest * (256 * p);
  }

  lemma ParsedStep(s: string, i: nat)
    requires i <= 3
    ensures var octet, d := ReadInt(s) % 256, IndexOf(s, '.');
      && (i == 3 ==> Parsed(s, i) == (true, octet))
      && (i < 3 && d >= |s| ==> Parsed(s, i) == (false, 0))
      && (i < 3 && d < |s| ==> Parsed(s, i) == (Parsed(s[d + 1..], i + 1).0, if Parsed(s[d + 1..], i + 1).0 then octet + 256 * Parsed(s[d + 1..], i + 1).1 else Parsed(s, i).1))
  {
  }

  /** inet_aton. */
  method Aton(s: string) returns (res: Outcome)
    requires NoNul(s)
    ensures res == if Parsed(s, 0).0 then Returned(Parsed(s, 0).1) else Panicked
  {
    hide ReadInt, IndexOf, Parsed, Combine, Pow256;
    var r: nat, p: nat := 0, 0;
    CombineStep(0, 0, 0, Parsed(s, 0).1);
    assert s[0..] == s;
    for i := 0 to 4
      invariant p <= |s|
      invariant i < 4 ==> Parsed(s, 0).0 == Parsed(s[p..], i).0
      invariant i < 4 && Parsed(s, 0).0 ==> Parsed(s, 0).1 == Combine(r, i, Parsed(s[p..], i).1)
      invariant i == 4 ==> Parsed(s, 0) == (true, r)
    {
      ParsedStep(s[p..], i);
      var n := Atoi(s, p);
      var octet := n % 256;
      if i != 3 {
        var d := Strchr(s, p, '.');
        if d == |s| {
          return Panicked;
        }
        assert s[p..][d - p + 1..] == s[d + 1..];
        p := d + 1;
      }
      CombineStep(r, i, octet, if i < 3 then Parsed(s[p..], i + 1).1 else 0);
      r := r + octet * Pow256(i);
    }
    res := Returned(r);
  }

  lemma EndsAt(s: string, text: string, l: nat)
    requires NoNul(text) && |text| < |s| && s[..|text|] == text && s[|text|] == NUL
    requires l < |s| && s[l] == NUL && forall k :: 0 <= k < l ==> s[k] != NUL
    ensures l == |text|
  {
    assert forall k :: 0 <= k < |text| ==> s[k] == text[k] != NUL;
  }

  /** One turn of inet_ntoa's loop. */
  method PutOctet(out: array<char>, l: nat, v: nat, last: bool) returns (l': nat)
    requires v < 256 && l + (if last then 3 else 4) < out.Length && NoNul(out[..l])
    modifies out
    ensures l' <= l + (if last then 3 else 4) && out[..l'] == old(out[..l]) + Decimal(v) + (if last then "" else ".")
    ensures NoNul(out[..l']) && out[l'] == NUL
  {
    ghost var done, text := out[..l], Decimal(v);
    OctetText(v);
    hide SignedText, Decimal;
    var c := Signed(v, out, l, false, false);
    assert out[..l + c] == done + text && out[l + c] == NUL;
    l' := Strlen(out);
    EndsAt(out[..], done + text, l');
    if !last {
      out[l'] := '.';
      l' := l' + 1;
      out[l'] := NUL;
      assert out[..l'] == done + text + ".";
    }
  }

  /** inet_ntoa. */
  method Ntoa(out: array<char>, a: nat)
    requires out.Length >= 16 && a < Pow256(4)
    modifies out
    ensures |Dotted(a, 0)| < out.Length && out[..|Dotted(a, 0)|] == Dotted(a, 0) && out[|Dotted(a, 0)|] == NUL
    ensures Parsed(Dotted(a, 0), 0) == (true, a)
  {
    hide Parsed, Decimal, Pow256, Dotted;
    ParsedDotted(a, 0);
    var l: nat, shifted: nat := 0, a;
    for i := 0 to 4
      invariant l <= (if i == 4 then 15 else 4 * i) && NoNul(out[..l])
      invariant i < 4 ==> Dotted(a, 0) == out[..l] + Dotted(shifted, i)
      invariant i == 4 ==> Dotted(a, 0) == out[..l] && out[l] == NUL
    {
      DottedStep(shifted, i);
      l := PutOctet(out, l, shifted % 256, i == 3);
      shifted := shifted / 256;
    }
  }
}
