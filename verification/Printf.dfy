/** Formatted output, usr/lib/posix/vsnprintf.c. */
module Printf {
  import opened CStrings
  import opened Numerals

  /** A variable argument: a number in 32 bits, or a string, null as None. */
  datatype Arg = Num(v: int) | Str(s: string) | Null

  /** What follows a percent sign: pad character, width (negative to the left), conversion
      character, and the format behind it. */
  datatype Directive = Directive(padc: char, padn: int, conv: char, rest: string)

  function First(f: string): char { if f == "" then NUL else f[0] }
  function Tail(f: string): string { if f == "" then "" else f[1..] }

  function DigitValue(c: char): nat
    requires IsDigit(c)
  {
    (c as int) - ('0' as int)
  }

  function Width(f: string, n: nat): (nat, string)
    decreases |f|
  {
    if IsDigit(First(f)) then Width(Tail(f), 10 * n + DigitValue(First(f))) else (n, f)
  }

  function Parse(f: string): Directive {
    var zero := First(f) == '0';
    var f1 := if zero then Tail(f) else f;
    var left := First(f1) == '-';
    var f2 := if left then Tail(f1) else f1;
    var (n, f3) := Width(f2, 0);
    var padn: int := if left then -(n as int) else n;
    Directive(if zero then '0' else ' ', padn, First(f3), Tail(f3))
  }

  function Repeat(c: char, n: int): string
    decreases n
  {
    if n <= 0 then "" else [c] + Repeat(c, n - 1)
  }

  /** A field: padded on the left to a positive width, on the right to a negative one. */
  function Field(d: Directive, text: string): string {
    if d.padn >= 0 then Repeat(d.padc, d.padn - |text|) + text else text + Repeat(d.padc, -d.padn - |text|)
  }

  predicate TakesArg(conv: char) { conv in "spiduxXc" }

  predicate Fits(conv: char, arg: Arg) {
    if conv == 's' then !arg.Num?
    else arg.Num? && if conv in "id" then -0x8000_0000 <= arg.v < 0x8000_0000
                     else if conv == 'c' then 0 <= arg.v < 256 else 0 <= arg.v < 0x1_0000_0000
  }

  /** The text of a conversion. Any other character prints as itself behind the percent
      sign, so that a doubled percent sign prints twice. */
  function Converted(d: Directive, arg: Arg): string
    requires TakesArg(d.conv) ==> Fits(d.conv, arg)
  {
    if d.conv == 's' then Field(d, if arg.Null? then "(null)" else arg.s)
    else if d.conv == 'p' then "0x" + Field(d.(padc := '0', padn := 8), Numeral(arg.v, LOWER_HEX))
    else if d.conv in "id" then Field(d, SignedText(arg.v, true, true))
    else if d.conv == 'u' then Field(d, SignedText(arg.v, false, true))
    else if d.conv == 'x' then Field(d, Numeral(arg.v, LOWER_HEX))
    else if d.conv == 'X' then Field(d, Numeral(arg.v, UPPER_HEX))
    else if d.conv == 'c' then [arg.v as char]
    else ['%', d.conv]
  }

  lemma {:induction false} WidthShrinks(f: string, n: nat)
    ensures |Width(f, n).1| <= |f|
    decreases |f|
  {
    if !IsDigit(First(f)) {
    } else {
      WidthShrinks(Tail(f), 10 * n + DigitValue(First(f)));
    }
  }

  lemma ParseShrinks(f: string)
    ensures |Parse(f).rest| <= |f|
  {
    var f1 := if First(f) == '0' then Tail(f) else f;
    var f2 := if First(f1) == '-' then Tail(f1) else f1;
    WidthShrinks(f2, 0);
  }

  /** The format and arguments vsnprintf is made for: directives are complete, %l is not
      used, and each argument is there and of its kind. */
  predicate WellFormed(f: string, args: seq<Arg>)
    decreases |f|
  {
    f != "" ==>
      if f[0] != '%' then WellFormed(f[1..], args)
      else
        var d := Parse(f[1..]);
        ParseShrinks(f[1..]);
        && d.conv != NUL && d.conv != 'l'
        && (TakesArg(d.conv) ==> args != [] && Fits(d.conv, args[0]) && (args[0].Str? ==> NoNul(args[0].s)))
        && WellFormed(d.rest, if TakesArg(d.conv) then args[1..] else args)
  }

  /** What a format means. */
  function Render(f: string, args: seq<Arg>): string
    requires WellFormed(f, args)
    decreases |f|
  {
    if f == "" then ""
    else if f[0] != '%' then [f[0]] + Render(f[1..], args)
    else
      var d := Parse(f[1..]);
      ParseShrinks(f[1..]);
      if TakesArg(d.conv) then Converted(d, args[0]) + Render(d.rest, args[1..])
      else Converted(d, Null) + Render(d.rest, args)
  }

  // ---- the meaning, on its own

  lemma {:induction false} RepeatLength(c: char, n: int)
    ensures |Repeat(c, n)| == if n <= 0 then 0 else n
    ensures forall k :: 0 <= k < |Repeat(c, n)| ==> Repeat(c, n)[k] == c
    decreases n
  {
    if n <= 0 {
    } else {
      RepeatLength(c, n - 1);
    }
  }

  /** A field is as wide as asked or as its text, whichever is more; the text is at the end
      that the sign of the width says, and padding fills the rest. */
  lemma FieldIs(d: Directive, text: string)
    ensures var w, f := if d.padn >= 0 then d.padn else -d.padn, Field(d, text);
      && |f| == (if w > |text| then w else |text|)
      && (if d.padn >= 0 then f[|f| - |text|..] == text else f[..|text|] == text)
      && forall k :: (if d.padn >= 0 then 0 <= k < |f| - |text| else |text| <= k < |f|) ==> f[k] == d.padc
  {
    RepeatLength(d.padc, d.padn - |text|);
    RepeatLength(d.padc, -d.padn - |text|);
  }

  /** Text without a percent sign renders as itself. */
  lemma {:induction false} PlainText(f: string, args: seq<Arg>)
    requires '%' !in f
    ensures WellFormed(f, args) && Render(f, args) == f
  {
    if f == "" {
    } else {
      PlainText(f[1..], args);
    }
  }

  lemma ConvertedAlike(d: Directive, d': Directive, arg: Arg)
    requires d' == d.(rest := d'.rest) && (TakesArg(d.conv) ==> Fits(d.conv, arg))
    ensures Converted(d, arg) == Converted(d', arg)
  {
    hide Repeat, Numeral, SignedText;
  }

  lemma TailAppend(f: string, g: string)
    ensures f != "" ==> First(f + g) == First(f) && Tail(f + g) == Tail(f) + g
  {
  }

  lemma {:induction false} WidthAppend(f: string, g: string, n: nat)
    requires First(Width(f, n).1) != NUL
    ensures f != "" && Width(f + g, n) == (Width(f, n).0, Width(f, n).1 + g)
    decreases |f|
  {
    if !IsDigit(First(f)) {
    } else {
      var m := 10 * n + DigitValue(First(f));
      assert Tail(f + g) == Tail(f) + g;
      WidthAppend(Tail(f), g, m);
    }
  }

  lemma ParseAppend(f: string, g: string)
    requires Parse(f).conv != NUL
    ensures Parse(f + g) == Parse(f).(rest := Parse(f).rest + g)
  {
    hide Width;
    var f1 := if First(f) == '0' then Tail(f) else f;
    var f2 := if First(f1) == '-' then Tail(f1) else f1;
    WidthShrinks(f2, 0);
    WidthAppend(f2, g, 0);
    TailAppend(f, g);
    TailAppend(f1, g);
    TailAppend(Width(f2, 0).1, g);
  }

  lemma DirectiveInPieces(f: string, g: string, args: seq<Arg>, more: seq<Arg>)
    requires f != "" && f[0] == '%' && WellFormed(f, args) && WellFormed(g, more)
    requires var d := Parse(f[1..]);
      var rest := if TakesArg(d.conv) then args[1..] else args;
      && WellFormed(d.rest, rest) && WellFormed(d.rest + g, rest + more)
      && Render(d.rest + g, rest + more) == Render(d.rest, rest) + Render(g, more)
    ensures WellFormed(f + g, args + more) && Render(f + g, args + more) == Render(f, args) + Render(g, more)
  {
    hide Parse, Converted, NoNul, Fits;
    var d := Parse(f[1..]);
    assert (f + g)[1..] == f[1..] + g && (f + g)[0] == '%';
    ParseAppend(f[1..], g);
    var d' := Parse((f + g)[1..]);
    if TakesArg(d.conv) {
      assert (args + more)[1..] == args[1..] + more && (args + more)[0] == args[0];
      ConvertedAlike(d, d', args[0]);
    } else {
      ConvertedAlike(d, d', Null);
    }
  }

  /** Arguments used. */
  function Taken(f: string, args: seq<Arg>): nat
    requires WellFormed(f, args)
    decreases |f|
  {
    if f == "" then 0
    else if f[0] != '%' then Taken(f[1..], args)
    else
      var d := Parse(f[1..]);
      ParseShrinks(f[1..]);
      if TakesArg(d.conv) then 1 + Taken(d.rest, args[1..]) else Taken(d.rest, args)
  }

  /** Rendering is done piece by piece: a format that ends between directives can be
      rendered apart from what comes behind it. */
  lemma {:induction false} RenderInPieces(f: string, g: string, args: seq<Arg>, more: seq<Arg>)
    requires WellFormed(f, args) && WellFormed(g, more) && Taken(f, args) == |args|
    ensures WellFormed(f + g, args + more) && Render(f + g, args + more) == Render(f, args) + Render(g, more)
    decreases |f|
  {
    if f == "" {
      assert f + g == g && args + more == more;
    } else if f[0] != '%' {
      assert (f + g)[1..] == f[1..] + g;
      RenderInPieces(f[1..], g, args, more);
    } else {
      var d := Parse(f[1..]);
      ParseShrinks(f[1..]);
      RenderInPieces(d.rest, g, if TakesArg(d.conv) then args[1..] else args, more);
      DirectiveInPieces(f, g, args, more);
    }
  }

  // ---- one directive

  /** A directive with its flags, width and conversion character. */
  function Spelling(zero: bool, left: bool, w: nat, conv: char): string {
    "%" + ((if zero then "0" else "") + ((if left then "-" else "") + ((if w == 0 then "" else Decimal(w)) + [conv])))
  }

  /** out is text in a field at least w wide, at its left end or its right one, c elsewhere. */
  ghost predicate Fielded(out: string, text: string, left: bool, w: nat, c: char) {
    && |out| == (if w > |text| then w else |text|)
    && (if left then out[..|text|] == text && forall k :: |text| <= k < |out| ==> out[k] == c
        else out[|out| - |text|..] == text && forall k :: 0 <= k < |out| - |text| ==> out[k] == c)
  }

  lemma {:induction false} WidthDigits(v: nat, tail: string)
    ensures Width(Digits(v, DECIMAL) + tail, 0) == Width(tail, v)
  {
    if v == 0 {
      assert Digits(0, DECIMAL) + tail == tail;
    } else {
      var d := DECIMAL[v % 10];
      DecimalDigit(v % 10);
      assert Digits(v, DECIMAL) + tail == Digits(v / 10, DECIMAL) + ([d] + tail);
      WidthDigits(v / 10, [d] + tail);
      assert Tail([d] + tail) == tail && First([d] + tail) == d;
      assert v == 10 * (v / 10) + v % 10;
    }
  }

  /** A numeral of a number above 0 does not begin with a zero. */
  lemma {:induction false} FirstDigit(v: nat)
    requires v > 0
    ensures |Digits(v, DECIMAL)| > 0 && '1' <= Digits(v, DECIMAL)[0] <= '9'
  {
    if v < 10 {
      assert Digits(v / 10, DECIMAL) == "";
      DecimalDigit(v);
    } else {
      FirstDigit(v / 10);
    }
  }

  lemma ParseWidth(w: nat, conv: char)
    requires !IsDigit(conv) && conv != '-'
    ensures var f := (if w == 0 then "" else Decimal(w)) + [conv];
      Width(f, 0) == (w, [conv]) && First(f) != '0' && First(f) != '-' && f != ""
  {
    hide Digits;
    if w == 0 {
      assert "" + [conv] == [conv];
    } else {
      FirstDigit(w);
      WidthDigits(w, [conv]);
    }
  }

  /** The flags in front of a width. */
  lemma ParseFlags(zero: bool, left: bool, f3: string)
    requires f3 != "" && f3[0] != '0' && f3[0] != '-'
    ensures var f2 := (if left then "-" else "") + f3;
      var f1 := (if zero then "0" else "") + f2;
      && (First(f1) == '0' <==> zero) && (if zero then Tail(f1) else f1) == f2
      && (First(f2) == '-' <==> left) && (if left then Tail(f2) else f2) == f3
  {
  }

  lemma Behind(c: char, f: string)
    ensures ([c] + f)[1..] == f && ([c] + f)[0] == c
  {
  }

  lemma ConvOnly(conv: char)
    ensures First([conv]) == conv && Tail([conv]) == ""
  {
  }

  lemma ParseSpelling(zero: bool, left: bool, w: nat, conv: char)
    requires !IsDigit(conv) && conv != '-'
    ensures var f := Spelling(zero, left, w, conv);
      && f != "" && f[0] == '%'
      && Parse(f[1..]) == Directive(if zero then '0' else ' ', if left then -(w as int) else w, conv, "")
  {
    var f3 := (if w == 0 then "" else Decimal(w)) + [conv];
    ParseWidth(w, conv);
    ParseFlags(zero, left, f3);
    hide Width, Decimal, First, Tail;
    var f1 := (if zero then "0" else "") + ((if left then "-" else "") + f3);
    Behind('%', f1);
    assert First([conv]) == conv && Tail([conv]) == "" by { ConvOnly(conv); }
  }

  /** One turn of the loop, on the format left and the arguments left. */
  lemma RenderStep(f: string, args: seq<Arg>)
    requires f != "" && WellFormed(f, args)
    ensures f[0] != '%' ==> WellFormed(f[1..], args) && Render(f, args) == [f[0]] + Render(f[1..], args)
    ensures f[0] == '%' ==> var d := Parse(f[1..]);
      var d' := d.(rest := "");
      && d.conv != NUL && (TakesArg(d.conv) ==> args != [] && Fits(d.conv, args[0]) && (args[0].Str? ==> NoNul(args[0].s)))
      && WellFormed(d.rest, if TakesArg(d.conv) then args[1..] else args)
      && Render(f, args) == Converted(d', if TakesArg(d.conv) then args[0] else Null) + Render(d.rest, if TakesArg(d.conv) then args[1..] else args)
  {
    hide Parse, Converted, NoNul;
    if f[0] == '%' {
      var d := Parse(f[1..]);
      ConvertedAlike(d, d.(rest := ""), if TakesArg(d.conv) then args[0] else Null);
    }
  }

  /** The format of one directive: its conversion, of the argument if it takes one. */
  lemma RenderSpelling(zero: bool, left: bool, w: nat, conv: char, args: seq<Arg>)
    requires !IsDigit(conv) && conv != '-' && conv != NUL && conv != 'l'
    requires if TakesArg(conv) then |args| == 1 && Fits(conv, args[0]) && (args[0].Str? ==> NoNul(args[0].s)) else args == []
    ensures var f := Spelling(zero, left, w, conv);
      var d := Directive(if zero then '0' else ' ', if left then -(w as int) else w, conv, "");
      WellFormed(f, args) && Render(f, args) == Converted(d, if TakesArg(conv) then args[0] else Null)
  {
    ParseSpelling(zero, left, w, conv);
    hide Parse, Converted, Spelling, NoNul, Fits;
    var f := Spelling(zero, left, w, conv);
    var rest := if TakesArg(conv) then args[1..] else args;
    assert WellFormed("", rest) && Render("", rest) == "";
    assert WellFormed(f, args);
    RenderStep(f, args);
  }

  lemma FieldOf(d: Directive, text: string)
    ensures Fielded(Field(d, text), text, d.padn < 0, if d.padn < 0 then -d.padn else d.padn, d.padc)
  {
    FieldIs(d, text);
    hide Field;
    if d.padn == 0 {
      assert Field(d, text)[..|text|] == Field(d, text)[|Field(d, text)| - |text|..];
    }
  }

  lemma SignedSpelt(x: int, s: bool)
    requires -TWO63 < x < TWO63 && (s || x >= 0)
    ensures SignedText(x, s, true) == (if x < 0 then "-" else "") + Numeral(if x < 0 then -x else x, DECIMAL)
  {
    hide Digits;
    assert x >= 0 ==> "" + Numeral(x, DECIMAL) == Numeral(x, DECIMAL);
  }

  /** Texts and numbers: the field is as wide as asked at least, the text at its left end with
      a minus sign and at its right one without, filled up with zeros or spaces. Padding comes
      before a sign. */
  lemma TextAndNumbers(zero: bool, left: bool, w: nat, conv: char, arg: Arg)
    requires conv in "sdiuxX"
    requires if conv == 's' then !arg.Num? && (arg.Str? ==> NoNul(arg.s))
      else arg.Num? && if conv == 'd' || conv == 'i' then -0x8000_0000 <= arg.v < 0x8000_0000 else 0 <= arg.v < 0x1_0000_0000
    ensures var f := Spelling(zero, left, w, conv);
      var text := if conv == 's' then (if arg.Str? then arg.s else "(null)")
                  else if conv == 'x' then Numeral(arg.v, "0123456789abcdef")
                  else if conv == 'X' then Numeral(arg.v, "0123456789ABCDEF")
                  else (if arg.v < 0 then "-" else "") + Numeral(if arg.v < 0 then -arg.v else arg.v, "0123456789");
      WellFormed(f, [arg]) && Fielded(Render(f, [arg]), text, left && w > 0, w, if zero then '0' else ' ')
  {
    hide Digits, Fielded, Render, WellFormed, Spelling, Field, NoNul;
    RenderSpelling(zero, left, w, conv, [arg]);
    var d := Directive(if zero then '0' else ' ', if left then -(w as int) else w, conv, "");
    if conv == 's' {
      FieldOf(d, if arg.Null? then "(null)" else arg.s);
    } else if conv == 'x' {
      FieldOf(d, Numeral(arg.v, LOWER_HEX));
    } else if conv == 'X' {
      FieldOf(d, Numeral(arg.v, UPPER_HEX));
    } else {
      SignedSpelt(arg.v, conv != 'u');
      FieldOf(d, SignedText(arg.v, conv != 'u', true));
    }
  }

  /** The other conversions know no width: a character is itself, a pointer has eight digits,
      and what is no conversion prints behind its percent sign. */
  lemma CharacterPointerOther(zero: bool, left: bool, w: nat, arg: Arg, other: char)
    requires arg.Num? && 0 <= arg.v < 0x1_0000_0000
    requires !IsDigit(other) && other !in "spiduxXc-l" && other != NUL
    ensures arg.v < 256 ==> var f := Spelling(zero, left, w, 'c'); WellFormed(f, [arg]) && Render(f, [arg]) == [arg.v as char]
    ensures var f := Spelling(zero, left, w, 'p');
      && WellFormed(f, [arg])
      && var out := Render(f, [arg]);
      |out| >= 2 && out[..2] == "0x" && Fielded(out[2..], Numeral(arg.v, "0123456789abcdef"), false, 8, '0')
    ensures var f := Spelling(zero, left, w, other); WellFormed(f, []) && Render(f, []) == ['%', other]
  {
    hide Digits, Fielded, Render, WellFormed, Spelling, Field, NoNul;
    if arg.v < 256 {
      RenderSpelling(zero, left, w, 'c', [arg]);
    }
    RenderSpelling(zero, left, w, 'p', [arg]);
    var text := Numeral(arg.v, LOWER_HEX);
    var d := Directive('0', 8, 'p', "");
    FieldOf(d, text);
    assert ("0x" + Field(d, text))[2..] == Field(d, text);
    RenderSpelling(zero, left, w, other, []);
  }

  // ---- the code

  /** The buffer with text at at. */
  function Put(was: string, at: nat, text: string): string
    requires at + |text| <= |was|
  {
    was[..at] + text + was[at + |text|..]
  }

  lemma PutTwice(was: string, at: nat, a: string, b: string)
    requires at + |a| + |b| <= |was|
    ensures Put(Put(was, at, a), at + |a|, b) == Put(was, at, a + b) && |Put(was, at, a)| == |was|
  {
  }

  /** memset of n characters. */
  method Memset(buf: array<char>, at: nat, c: char, n: nat)
    requires at + n <= buf.Length
    modifies buf
    ensures |Repeat(c, n)| == n && buf[..] == Put(old(buf[..]), at, Repeat(c, n))
  {
    RepeatLength(c, n);
    var k := 0;
    while k < n
      invariant 0 <= k <= n
      invariant forall x :: 0 <= x < buf.Length ==> buf[x] == if at <= x < at + k then c else old(buf[x])
    {
      buf[at + k] := c;
      k := k + 1;
    }
  }

  /** strncpy: l characters, or the string and one NUL when it is shorter. */
  method Strncpy(buf: array<char>, at: nat, s: string, l: nat)
    requires at + l <= buf.Length && NoNul(s)
    modifies buf
    ensures buf[..] == Put(old(buf[..]), at, if l <= |s| then s[..l] else s + [NUL])
  {
    var k := 0;
    while CharAt(s, k) != NUL && k < l
      invariant 0 <= k <= l && k <= |s|
      invariant forall x :: 0 <= x < buf.Length ==> buf[x] == if at <= x < at + k then s[x - at] else old(buf[x])
      decreases l - k
    {
      buf[at + k] := s[k];
      k := k + 1;
    }
    if k != l {
      buf[at + k] := NUL;
    }
  }

  lemma Whole(s: string)
    ensures s[..|s|] == s
  {
  }

  /** The padding part of __puts; none for n below 1. */
  method PutPadding(buf: array<char>, p: nat, padc: char, n: int) returns (p': nat)
    requires p + |Repeat(padc, n)| <= buf.Length
    modifies buf
    ensures p' == p + |Repeat(padc, n)| && buf[..] == Put(old(buf[..]), p, Repeat(padc, n))
  {
    RepeatLength(padc, n);
    p' := p;
    if n > 0 {
      Memset(buf, p, padc, n);
      p' := p + n;
    }
  }

  /** __puts, where there is room. */
  method PutField(buf: array<char>, p: nat, d: Directive, s: string) returns (p': nat)
    requires NoNul(s) && p + |Field(d, s)| <= buf.Length
    modifies buf
    ensures p' == p + |Field(d, s)| && buf[..] == Put(old(buf[..]), p, Field(d, s))
  {
    hide Put, NoNul, Repeat;
    if d.padn >= 0 {
      p' := PutPadding(buf, p, d.padc, d.padn - |s|);
      PutTwice(old(buf[..]), p, Repeat(d.padc, d.padn - |s|), s);
      Whole(s);
      Strncpy(buf, p', s, |s|);
      p' := p' + |s|;
    } else {
      var padn := -d.padn;
      Whole(s);
      PutTwice(old(buf[..]), p, s, Repeat(d.padc, padn - |s|));
      Strncpy(buf, p, s, |s|);
      p' := PutPadding(buf, p + |s|, d.padc, padn - |s|);
    }
  }

  /** The texts of numbers are short and hold no NUL. */
  predicate ShortText(s: string) { |s| < 63 && NoNul(s) }

  lemma {:induction false} DigitsNoNul(v: nat, digits: string)
    requires IsSet(digits) && NoNul(digits)
    ensures NoNul(Digits(v, digits)) && NoNul(Numeral(v, digits))
  {
    if v == 0 {
    } else {
      DigitsNoNul(v / |digits|, digits);
    }
  }

  function Pow2Of(n: nat): nat { if n == 0 then 1 else 2 * Pow2Of(n - 1) }

  lemma {:induction false} DigitsShort(v: nat, digits: string, n: nat)
    requires IsSet(digits) && v < Pow2Of(n)
    ensures |Digits(v, digits)| <= n
    decreases n
  {
    if v == 0 {
    } else {
      DigitsShort(v / |digits|, digits, n - 1);
    }
  }

  lemma Power33()
    ensures Pow2Of(33) == 0x2_0000_0000
  {
    assert Pow2Of(8) == 256;
    assert Pow2Of(16) == 65536;
    assert Pow2Of(24) == 0x100_0000;
    assert Pow2Of(32) == 0x1_0000_0000;
  }

  lemma Short32(v: nat, digits: string)
    requires IsSet(digits) && NoNul(digits) && v <= 0x1_0000_0000
    ensures |Digits(v, digits)| <= 33 && ShortText(Digits(v, digits)) && ShortText(Numeral(v, digits)) && |Numeral(v, digits)| >= 1
  {
    hide Digits;
    Power33();
    DigitsShort(v, digits, 33);
    DigitsNoNul(v, digits);
    DigitStep(v, digits);
  }

  lemma ShortSigned(x: int, s: bool)
    requires -0x1_0000_0000 < x < 0x1_0000_0000
    ensures ShortText(SignedText(x, s, true)) || (!s && x < 0)
  {
    hide Digits;
    if x >= 0 || s {
      Short32(if x < 0 then -x else x, DECIMAL);
    }
  }

  method PutSigned(buf: array<char>, cbuf: array<char>, p: nat, d: Directive, x: int, s: bool) returns (p': nat)
    requires -0x1_0000_0000 < x < 0x1_0000_0000 && (s || x >= 0) && cbuf.Length == 64 && cbuf != buf
    requires p + |Field(d, SignedText(x, s, true))| <= buf.Length
    modifies buf, cbuf
    ensures p' == p + |Field(d, SignedText(x, s, true))| && buf[..] == Put(old(buf[..]), p, Field(d, SignedText(x, s, true)))
  {
    hide Digits, Field, SignedText, Put;
    ShortSigned(x, s);
    var clen := Signed(x, cbuf, 0, s, true);
    assert cbuf[..clen] == SignedText(x, s, true);
    p' := PutField(buf, p, d, cbuf[..clen]);
  }

  method PutHex(buf: array<char>, cbuf: array<char>, p: nat, d: Directive, v: nat, digits: string) returns (p': nat)
    requires IsSet(digits) && Bytes(digits) && NoNul(digits) && v < 0x1_0000_0000 && cbuf.Length == 64 && cbuf != buf
    requires p + |Field(d, Numeral(v, digits))| <= buf.Length
    modifies buf, cbuf
    ensures p' == p + |Field(d, Numeral(v, digits))| && buf[..] == Put(old(buf[..]), p, Field(d, Numeral(v, digits)))
  {
    hide Digits, Field, Numeral, Put;
    Short32(v, digits);
    var clen := Unsigned(v, cbuf, 0, digits);
    assert cbuf[..clen] == Numeral(v, digits);
    p' := PutField(buf, p, d, cbuf[..clen]);
  }

  lemma PutOne(was: string, p: nat, c: char)
    requires p < |was|
    ensures Put(was, p, [c]) == was[p := c]
  {
    var text := [c];
    assert |text| == 1 && text[0] == c;
    var now := Put(was, p, text);
    assert |now| == |was|;
    assert now[p] == text[0];
  }

  /** __putc, where there is room. */
  method PutChar(buf: array<char>, p: nat, c: char) returns (p': nat)
    requires p < buf.Length
    modifies buf
    ensures p' == p + 1 && buf[..] == Put(old(buf[..]), p, [c])
  {
    PutOne(buf[..], p, c);
    buf[p] := c;
    assert buf[..] == old(buf[..])[p := c];
    p' := p + 1;
  }

  lemma SetsAreText()
    ensures Bytes(LOWER_HEX) && Bytes(UPPER_HEX) && NoNul(LOWER_HEX) && NoNul(UPPER_HEX)
  {
  }

  lemma PlainNull()
    ensures NoNul("(null)")
  {
  }

  /** The conversions, lines 185-240. */
  method PutConverted(buf: array<char>, cbuf: array<char>, p: nat, d: Directive, arg: Arg) returns (p': nat)
    requires cbuf.Length == 64 && cbuf != buf && (TakesArg(d.conv) ==> Fits(d.conv, arg)) && (arg.Str? ==> NoNul(arg.s))
    requires p + |Converted(d, arg)| <= buf.Length
    modifies buf, cbuf
    ensures p' == p + |Converted(d, arg)| && buf[..] == Put(old(buf[..]), p, Converted(d, arg))
  {
    hide Digits, Field, Numeral, SignedText, Put, NoNul, Bytes;
    SetsAreText();
    ghost var was := buf[..];
    if d.conv == 's' {
      if arg.Null? {
        PlainNull();
        p' := PutField(buf, p, d, "(null)");
      } else {
        p' := PutField(buf, p, d, arg.s);
      }
    } else if d.conv == 'p' {
      var d' := d.(padc := '0', padn := 8);
      ghost var text := Field(d', Numeral(arg.v, LOWER_HEX));
      assert ['0'] + ['x'] == "0x";
      PutTwice(was, p, ['0'], ['x']);
      PutTwice(was, p, "0x", text);
      p' := PutChar(buf, p, '0');
      p' := PutChar(buf, p', 'x');
      p' := PutHex(buf, cbuf, p', d', arg.v, LOWER_HEX);
    } else if d.conv == 'i' || d.conv == 'd' {
      p' := PutSigned(buf, cbuf, p, d, arg.v, true);
    } else if d.conv == 'u' {
      p' := PutSigned(buf, cbuf, p, d, arg.v, false);
    } else if d.conv == 'x' {
      p' := PutHex(buf, cbuf, p, d, arg.v, LOWER_HEX);
    } else if d.conv == 'X' {
      p' := PutHex(buf, cbuf, p, d, arg.v, UPPER_HEX);
    } else if d.conv == 'c' {
      p' := PutChar(buf, p, arg.v as char);
    } else {
      assert ['%'] + [d.conv] == ['%', d.conv];
      PutTwice(was, p, ['%'], [d.conv]);
      p' := PutChar(buf, p, '%');
      p' := PutChar(buf, p', d.conv);
    }
  }

  /** Lines 177-181. */
  method ReadWidth(fmt: string, i: nat) returns (padn: nat, next: nat)
    requires i <= |fmt|
    ensures i <= next <= |fmt| && Width(fmt[i..], 0) == (padn, fmt[next..])
  {
    padn, next := 0, i;
    while IsDigit(CharAt(fmt, next))
      invariant i <= next <= |fmt| && Width(fmt[next..], padn) == Width(fmt[i..], 0)
      decreases |fmt| - next
    {
      assert Tail(fmt[next..]) == fmt[next + 1..];
      padn := padn * 10;
      padn := padn + DigitValue(CharAt(fmt, next));
      next := next + 1;
    }
  }

  /** Lines 163-183: the directive at fmt[i], read character by character; next is where its
      conversion character is. */
  method ReadDirective(fmt: string, i: nat) returns (padc: char, padn: int, next: nat)
    requires i <= |fmt|
    ensures i <= next <= |fmt| && Parse(fmt[i..]) == Directive(padc, padn, CharAt(fmt, next), Tail(fmt[next..]))
  {
    hide Width;
    padn, padc, next := 0, ' ', i;
    var pads := 1;
    if CharAt(fmt, next) == '0' {
      padc := '0';
      next := next + 1;
      assert Tail(fmt[i..]) == fmt[next..];
    }
    if CharAt(fmt, next) == '-' {
      pads := -1;
      assert Tail(fmt[next..]) == fmt[next + 1..];
      next := next + 1;
    }
    padn, next := ReadWidth(fmt, next);
    padn := padn * pads;
  }

  /** One turn of the loop at line 160. */
  method PutNext(buf: array<char>, cbuf: array<char>, p: nat, fmt: string, i: nat, args: seq<Arg>, a: nat)
    returns (p': nat, i': nat, a': nat, ghost piece: string)
    requires i < |fmt| && a <= |args| && WellFormed(fmt[i..], args[a..]) && cbuf.Length == 64 && cbuf != buf
    requires p + |Render(fmt[i..], args[a..])| <= buf.Length
    modifies buf, cbuf
    ensures i < i' <= |fmt| && a' <= |args| && WellFormed(fmt[i'..], args[a'..])
    ensures Render(fmt[i..], args[a..]) == piece + Render(fmt[i'..], args[a'..])
    ensures p' == p + |piece| && buf[..] == Put(old(buf[..]), p, piece)
  {
    hide Put, Converted, Parse, Digits, WellFormed, Render, NoNul;
    RenderStep(fmt[i..], args[a..]);
    if fmt[i] == '%' {
      var padc, padn, next := ReadDirective(fmt, i + 1);
      assert fmt[i..][1..] == fmt[i + 1..];
      var d := Directive(padc, padn, CharAt(fmt, next), "");
      assert Tail(fmt[next..]) == fmt[next + 1..];
      var arg := if TakesArg(d.conv) then args[a] else Null;
      piece := Converted(d, arg);
      p' := PutConverted(buf, cbuf, p, d, arg);
      a' := if TakesArg(d.conv) then a + 1 else a;
      i' := next + 1;
    } else {
      piece := [fmt[i]];
      p' := PutChar(buf, p, fmt[i]);
      i', a' := i + 1, a;
    }
  }

  lemma RenderEnd(f: string, i: nat, args: seq<Arg>)
    requires NoNul(f) && i <= |f| && CharAt(f, i) == NUL
    ensures i == |f| && WellFormed(f[i..], args) && Render(f[i..], args) == ""
  {
  }

  lemma PutEnd(was: string, now: string, text: string)
    requires |text| < |was| && now == Put(was, 0, text)
    ensures |now| == |was| && now[|text| := NUL] == Written(was, 0, text)
  {
  }

  lemma PutNothing(was: string)
    ensures Put(was, 0, "") == was
  {
  }

  /** vsnprintf, when what the format means fits the buffer: exactly that is written, and a
      NUL behind it. */
  method Vsnprintf(buf: array<char>, len: nat, fmt: string, args: seq<Arg>) returns (n: nat)
    requires NoNul(fmt) && WellFormed(fmt, args) && len <= buf.Length && |Render(fmt, args)| + 1 <= len
    modifies buf
    ensures n == |Render(fmt, args)| && buf[..] == Written(old(buf[..]), 0, Render(fmt, args))
  {
    hide Put, Converted, Parse, Digits, WellFormed, Render, NoNul;
    var cbuf := new char[64];
    var p: nat, i: nat, a: nat := 0, 0, 0;
    ghost var was, done := buf[..], "";
    PutNothing(was);
    while CharAt(fmt, i) != NUL
      invariant i <= |fmt| && a <= |args| && p == |done|
      invariant WellFormed(fmt[i..], args[a..]) && Render(fmt, args) == done + Render(fmt[i..], args[a..])
      invariant buf[..] == Put(was, 0, done)
      decreases |fmt| - i
    {
      ghost var piece;
      p, i, a, piece := PutNext(buf, cbuf, p, fmt, i, args, a);
      PutTwice(was, 0, done, piece);
      done := done + piece;
    }
    RenderEnd(fmt, i, args[a..]);
    assert done + "" == done;
    PutEnd(was, buf[..], done);
    buf[p] := NUL;
    n := p;
  }
}
