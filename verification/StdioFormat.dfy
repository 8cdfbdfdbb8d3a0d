/**
What formatted output means: the text of a format is put together from its literal characters and its
directives, and a number's text reads back as the number, has the length asked for and the padding and
sign where the flags put them.
*/
module StdioFormat {
  import opened Wrappers
  import opened Bits
  import opened Stdio

  // ----- a format after another -----

  lemma {:induction false} WidthAfter(a: string, b: string, i: nat, w: nat)
    requires i <= |b|
    ensures WidthEnd(a + b, |a| + i) == |a| + WidthEnd(b, i) && Width(a + b, |a| + i, w) == Width(b, i, w)
    decreases |b| - i
  {
    if i < |b| && IsDigit(b[i]) { WidthAfter(a, b, i + 1, w * 10 + (b[i] as nat - '0' as nat)); }
  }

  lemma AtAfter(a: string, b: string, i: nat)
    ensures At(a + b, |a| + i) == At(b, i)
  {
  }

  function Moved(p: Piece, n: nat): Piece { p.(next := n + p.next) }

  lemma ConversionAfter(a: string, b: string, i: nat, k: nat, args: Args, zeroPad: bool, width: nat)
    ensures Conversion(a + b, |a| + i, k, args, zeroPad, width) == Moved(Conversion(b, i, k, args, zeroPad, width), |a|)
  {
    hide At, IntText;
    AtAfter(a, b, i);
    AtAfter(a, b, i + 1);
    AtAfter(a, b, i + 2);
    assert |a| + (i + 1) == |a| + i + 1 && |a| + (i + 2) == |a| + i + 2;
  }

  lemma DirectiveAfter(a: string, b: string, i: nat, k: nat, args: Args)
    requires i < |b|
    ensures Directive(a + b, |a| + i, k, args) == Moved(Directive(b, i, k, args), |a|)
  {
    hide At, WidthEnd, Width, Conversion;
    AtAfter(a, b, i + 1);
    InFormat(b, i + 1);
    var j := if At(b, i + 1) == '0' then i + 2 else i + 1;
    if At(b, i + 1) != '\0' {
      WidthAfter(a, b, j, 0);
      var e := WidthEnd(b, j);
      AtAfter(a, b, e);
      ConversionAfter(a, b, e, k, args, At(b, i + 1) == '0', Width(b, j, 0));
    }
  }

  lemma InFormat(b: string, i: nat)
    ensures At(b, i) != '\0' ==> i < |b|
  {
  }

  /** The text of the second part does not depend on the first one. */
  lemma {:induction false} TextAfter(a: string, b: string, i: nat, k: nat, args: Args)
    ensures Text(a + b, |a| + i, k, args) == Text(b, i, k, args)
    decreases |b| - i
  {
    hide Directive;
    if i < |b| {
      DirectiveAfter(a, b, i, k, args);
      var p := Directive(b, i, k, args);
      TextAfter(a, b, p.next, k + p.used, args);
    }
  }

  /** A directive that is the whole first part. */
  lemma TextOfPart(a: string, b: string, k: nat, args: Args, text: string, used: nat)
    requires a != "" && Directive(a + b, 0, k, args) == Piece(text, |a|, used)
    ensures Text(a + b, 0, k, args) == text + Text(b, 0, k + used, args)
  {
    hide Directive;
    TextUnfolds(a + b, 0, k, args, "");
    TextAfter(a, b, 0, k + used, args);
    assert "" + text == text && "" + Text(a + b, 0, k, args) == Text(a + b, 0, k, args);
  }

  /** Characters other than % print themselves. */
  lemma {:induction false} Literal(a: string, b: string, k: nat, args: Args)
    requires '%' !in a
    ensures Text(a + b, 0, k, args) == a + Text(b, 0, k, args)
    decreases |a|
  {
    hide Text;
    if a == "" {
      assert a + b == b && a + Text(b, 0, k, args) == Text(b, 0, k, args);
    } else {
      var c, rest := [a[0]], a[1..];
      assert a + b == c + (rest + b);
      assert Directive(c + (rest + b), 0, k, args) == Piece(c, 1, 0);
      TextOfPart(c, rest + b, k, args, c, 0);
      Literal(rest, b, k, args);
      assert c + rest == a;
      assert c + (rest + Text(b, 0, k, args)) == c + rest + Text(b, 0, k, args);
    }
  }

  lemma Percent(b: string, k: nat, args: Args)
    ensures Text("%%" + b, 0, k, args) == "%" + Text(b, 0, k, args)
  {
    TextOfPart("%%", b, k, args, "%", 0);
  }

  /** An unknown conversion prints itself. */
  lemma Unknown(c: char, b: string, k: nat, args: Args)
    requires !IsDigit(c) && c !in ['%', 's', 'l', 'd', 'u', 'x', 'X', '\0']
    ensures Text(['%', c] + b, 0, k, args) == ['%', c] + Text(b, 0, k, args)
  {
    TextOfPart(['%', c], b, k, args, ['%', c], 0);
  }

  // ----- directives with flag and width -----

  /** The flag and the width; no width is 0. */
  function Prefix(zeroPad: bool, width: nat): string {
    "%" + (if zeroPad then "0" else "") + (if width == 0 then "" else NumText(width, 10, false))
  }

  lemma {:induction false} LeadingDigit(v: nat)
    requires v > 0
    ensures '0' < NumText(v, 10, false)[0] <= '9'
  {
    if v >= 10 { LeadingDigit(v / 10); }
  }

  /** The digits d at position i of a format, followed by another character. */
  lemma {:induction false} ParsedWidth(fmt: string, i: nat, d: string, rest: string, w: nat)
    requires i <= |fmt| && fmt[i..] == d + rest && AllDigits(d) && (rest == "" || !IsDigit(rest[0]))
    ensures WidthEnd(fmt, i) == i + |d| && Width(fmt, i, w) == DigitsValue(d, w)
    decreases |d|
  {
    assert |fmt| - i == |d| + |rest|;
    if d != "" {
      assert At(fmt, i) == fmt[i..][0] == d[0];
      assert fmt[i + 1..] == fmt[i..][1..] == d[1..] + rest;
      ParsedWidth(fmt, i + 1, d[1..], rest, w * 10 + (d[0] as nat - '0' as nat));
    } else if rest != "" {
      assert At(fmt, i) == fmt[i..][0] == rest[0];
    }
  }

  /** What the directive reads before its conversion character. */
  lemma ParsedPrefix(zeroPad: bool, width: nat, rest: string)
    requires rest != "" && !IsDigit(rest[0]) && rest[0] != '%' && rest[0] != '\0'
    ensures var p := Prefix(zeroPad, width); var fmt := p + rest; var j := if zeroPad then 2 else 1;
      && fmt[0] == '%' && At(fmt, 1) != '\0' && At(fmt, 1) != '%' && (At(fmt, 1) == '0' <==> zeroPad)
      && j <= |fmt| && WidthEnd(fmt, j) == |p| && Width(fmt, j, 0) == width
  {
    hide NumText, WidthEnd, Width, DigitsValue;
    var p, j := Prefix(zeroPad, width), if zeroPad then 2 else 1;
    var fmt, d := p + rest, if width == 0 then "" else NumText(width, 10, false);
    NoDigits();
    if width > 0 {
      NumTextValue(width);
      LeadingDigit(width);
    }
    assert fmt[j..] == d + rest;
    ParsedWidth(fmt, j, d, rest, 0);
    assert !zeroPad ==> At(fmt, 1) == fmt[j..][0] == if width == 0 then rest[0] else d[0];
  }

  lemma NoDigits()
    ensures AllDigits("") && DigitsValue("", 0) == 0
  {
  }

  /** %s prints its argument, "(null)" for NULL; flag and width are ignored. */
  lemma StringArgument(zeroPad: bool, width: nat, b: string, k: nat, args: Args)
    ensures Text(Prefix(zeroPad, width) + "s" + b, 0, k, args) ==
      (if args.str(k).Some? then args.str(k).value else "(null)") + Text(b, 0, k + 1, args)
  {
    hide Prefix, WidthEnd, Width, Conversion;
    var p := Prefix(zeroPad, width);
    var a := p + "s";
    assert a + b == p + ("s" + b);
    ParsedPrefix(zeroPad, width, "s" + b);
    assert At(a + b, |p|) == 's';
    TextOfPart(a, b, k, args, StrText(args.str(k)), 1);
  }

  // ----- numbers -----

  function Modifier(length: nat): string { if length == 0 then "" else if length == 1 then "l" else "ll" }

  /** A number directive: flag, width, length modifier and conversion. */
  function NumberFormat(zeroPad: bool, width: nat, length: nat, f: char): string {
    Prefix(zeroPad, width) + (Modifier(length) + [f])
  }

  predicate NumberConversion(f: char) { f == 'd' || f == 'u' || f == 'x' || f == 'X' }

  /** The argument that such a directive prints. */
  function Argument(args: Args, k: nat, length: nat, f: char): int {
    if f == 'd' then args.signed(k, length) else args.unsigned(k, length)
  }

  lemma NumberText(zeroPad: bool, width: nat, length: nat, f: char, b: string, k: nat, args: Args)
    requires NumberConversion(f) && length <= 2
    ensures var v := Argument(args, k, length, f);
      Text(NumberFormat(zeroPad, width, length, f) + b, 0, k, args) ==
        IntText(v < 0, Abs(v), zeroPad, width, f) + Text(b, 0, k + 1, args)
  {
    hide Prefix, WidthEnd, Width, IntText;
    var p, m := Prefix(zeroPad, width), Modifier(length);
    var a, v := NumberFormat(zeroPad, width, length, f), Argument(args, k, length, f);
    var rest := m + [f] + b;
    assert a + b == p + rest && |a| == |p| + length + 1;
    ParsedPrefix(zeroPad, width, rest);
    assert At(a + b, |p|) == rest[0] && At(a + b, |p| + 1) == At(rest, 1) && At(a + b, |p| + length) == f;
    TextOfPart(a, b, k, args, IntText(v < 0, Abs(v), zeroPad, width, f), 1);
  }

  // ----- reading a number -----

  /** The value of a digit; the letters of base 16 are of one case. */
  function DigitOf(c: char, base: nat, upper: bool): Option<nat> {
    if '0' <= c <= '9' then Some(c as nat - '0' as nat)
    else if base == 16 && upper && 'A' <= c <= 'F' then Some(c as nat - 'A' as nat + 10)
    else if base == 16 && !upper && 'a' <= c <= 'f' then Some(c as nat - 'a' as nat + 10)
    else None
  }

  /** The number that s is after x, if s is digits only. */
  function DigitsOf(s: string, base: nat, upper: bool, x: nat): Option<nat>
    decreases |s|
  {
    if s == "" then Some(x)
    else
      var d := DigitOf(s[0], base, upper);
      if d.None? then None else DigitsOf(s[1..], base, upper, x * base + d.value)
  }

  function SkipSpaces(s: string): string
    decreases |s|
  {
    if s != "" && s[0] == ' ' then SkipSpaces(s[1..]) else s
  }

  function Negative(n: int): Option<int> { Some(-n) }

  function Abs(v: int): nat { if v < 0 then -v else v }

  /** A number: spaces, a sign if it is negative, and digits up to the end. */
  function ReadNumber(s: string, base: nat, upper: bool): Option<int> {
    var t := SkipSpaces(s);
    if t != "" && t[0] == '-' then
      var n := DigitsOf(t[1..], base, upper, 0);
      if n.None? || |t| == 1 then None else Negative(n.value)
    else
      var n := DigitsOf(t, base, upper, 0);
      if n.None? || t == "" then None else Some(n.value)
  }

  function Power(base: nat, n: nat): nat { if n == 0 then 1 else base * Power(base, n - 1) }

  /** n is the number of digits of v. */
  predicate HasDigits(v: nat, base: nat, n: nat) { n > 0 && (n > 1 ==> Power(base, n - 1) <= v) && v < Power(base, n) }

  lemma DigitCharValue(d: nat, base: nat, upper: bool)
    requires d < base && (base == 10 || base == 16)
    ensures DigitOf(DigitChar(d, upper), base, upper) == Some(d)
    ensures DigitChar(d, upper) != ' ' && DigitChar(d, upper) != '-' && (DigitChar(d, upper) == '0' <==> d == 0)
  {
  }

  lemma {:induction false} DigitsOfLast(s: string, c: char, base: nat, upper: bool, x: nat)
    ensures DigitsOf(s + [c], base, upper, x) ==
      var n, d := DigitsOf(s, base, upper, x), DigitOf(c, base, upper);
      if n.None? || d.None? then None else Some(n.value * base + d.value)
    decreases |s|
  {
    hide DigitOf;
    if s == "" {
      assert (s + [c])[1..] == "";
    } else {
      assert (s + [c])[1..] == s[1..] + [c];
      var d := DigitOf(s[0], base, upper);
      if d.Some? { DigitsOfLast(s[1..], c, base, upper, x * base + d.value); }
    }
  }

  /** The digits of v: they read back, are as many as v needs, and do not start with 0. */
  lemma {:induction false} NumTextReads(v: nat, base: nat, upper: bool)
    requires base == 10 || base == 16
    ensures var s := NumText(v, base, upper);
      && DigitsOf(s, base, upper, 0) == Some(v) && HasDigits(v, base, |s|)
      && s[0] != ' ' && s[0] != '-' && (s[0] == '0' <==> v == 0) && ' ' !in s && '-' !in s
    decreases v
  {
    if v < base {
      DigitCharValue(v, base, upper);
      DigitsOfLast("", DigitChar(v, upper), base, upper, 0);
      assert "" + [DigitChar(v, upper)] == [DigitChar(v, upper)];
      assert Power(base, 1) == base * Power(base, 0);
    } else {
      hide DigitsOf, DigitChar, DigitOf;
      Quotient(v, base);
      NumTextReads(v / base, base, upper);
      DigitCharValue(v % base, base, upper);
      var s := NumText(v / base, base, upper);
      DigitsOfLast(s, DigitChar(v % base, upper), base, upper, 0);
      PowerStep(v, base, |s|);
    }
  }

  lemma Quotient(v: nat, base: nat)
    requires v >= base && (base == 10 || base == 16)
    ensures 0 < v / base < v && v / base * base + v % base == v
  {
  }

  lemma PowerStep(v: nat, base: nat, n: nat)
    requires v >= base && (base == 10 || base == 16) && HasDigits(v / base, base, n)
    ensures HasDigits(v, base, n + 1)
  {
    assert Power(base, n + 1) == base * Power(base, n);
    if n > 1 {
      assert Power(base, n) == base * Power(base, n - 1);
    } else {
      assert Power(base, 1) == base * Power(base, 0);
    }
  }

  // ----- what a number directive prints -----

  function Larger(a: nat, b: nat): nat { if a < b then b else a }

  /** t is the number v in the given base: it reads back as v; it is as long as the width asks, or as the
      digits and the sign need; with the 0 flag and a width there are no spaces, so that the sign comes
      first; without the flag there are no zeros in front. */
  ghost predicate IsNumber(t: string, v: int, base: nat, upper: bool, zeroPad: bool, width: nat) {
    && ReadNumber(t, base, upper) == Some(v)
    && (exists n: nat :: HasDigits(Abs(v), base, n) && |t| == Larger(width, if v < 0 then n + 1 else n))
    && (zeroPad && width > 0 ==> ' ' !in t && (v < 0 <==> t[0] == '-'))
    && (!zeroPad ==> var s := SkipSpaces(t); s != "" && (s[0] == '0' ==> v == 0) && (v < 0 ==> |s| > 1 && s[1] != '0'))
  }

  lemma {:induction false} SkipRepeat(n: int, s: string)
    requires s != "" && s[0] != ' '
    ensures SkipSpaces(Repeat(' ', n) + s) == s
    decreases n
  {
    if n <= 0 {
      assert "" + s == s;
    } else {
      SpacesFirst(n);
      assert (Repeat(' ', n) + s)[0] == ' ' && (Repeat(' ', n) + s)[1..] == Repeat(' ', n - 1) + s;
      SkipRepeat(n - 1, s);
    }
  }

  lemma {:induction false} SpacesFirst(n: int)
    requires n > 0
    ensures Repeat(' ', n) == [' '] + Repeat(' ', n - 1)
    decreases n
  {
    if n > 1 { SpacesFirst(n - 1); }
  }

  lemma {:induction false} RepeatHolds(c: char, n: int)
    ensures forall i :: 0 <= i < |Repeat(c, n)| ==> Repeat(c, n)[i] == c
    decreases n
  {
    if n > 0 { RepeatHolds(c, n - 1); }
  }

  lemma {:induction false} ZerosInFront(n: int, s: string, base: nat, upper: bool)
    ensures DigitsOf(Repeat('0', n) + s, base, upper, 0) == DigitsOf(s, base, upper, 0)
    decreases n
  {
    if n <= 0 {
      assert "" + s == s;
    } else {
      assert Repeat('0', n) + s == Repeat('0', n - 1) + (['0'] + s);
      ZerosInFront(n - 1, ['0'] + s, base, upper);
      assert (['0'] + s)[1..] == s;
    }
  }

  function BaseOf(f: char): nat { if f == 'x' || f == 'X' then 16 else 10 }

  /** Spaces, the sign and the digits. */
  lemma SpacedNumber(v: int, base: nat, upper: bool, width: nat)
    requires base == 10 || base == 16
    ensures var d, neg := NumText(Abs(v), base, upper), v < 0;
      IsNumber(if neg then Repeat(' ', width - 1 - |d|) + "-" + d else Repeat(' ', width - |d|) + d,
               v, base, upper, false, width)
  {
    hide NumText, DigitsOf, Repeat, SkipSpaces, HasDigits;
    var d := NumText(Abs(v), base, upper);
    NumTextReads(Abs(v), base, upper);
    if v < 0 {
      var s := "-" + d;
      SkipRepeat(width - 1 - |d|, s);
      assert Repeat(' ', width - 1 - |d|) + "-" + d == Repeat(' ', width - 1 - |d|) + s && s[1..] == d;
    } else {
      SkipRepeat(width - |d|, d);
    }
  }

  /** The sign, zeros and the digits. */
  lemma ZeroPaddedNumber(v: int, base: nat, upper: bool, width: nat)
    requires base == 10 || base == 16
    ensures var d, neg := NumText(Abs(v), base, upper), v < 0;
      IsNumber(if neg then "-" + Repeat('0', width - 1 - |d|) + d else Repeat('0', width - |d|) + d,
               v, base, upper, true, width)
  {
    hide NumText, DigitsOf, Repeat, SkipSpaces, HasDigits;
    var d := NumText(Abs(v), base, upper);
    NumTextReads(Abs(v), base, upper);
    var z := Repeat('0', if v < 0 then width - 1 - |d| else width - |d|);
    RepeatHolds('0', if v < 0 then width - 1 - |d| else width - |d|);
    ZerosInFront(if v < 0 then width - 1 - |d| else width - |d|, d, base, upper);
    var t := if v < 0 then "-" + z + d else z + d;
    assert t[0] != ' ' && (v >= 0 ==> t[0] != '-');
    NoSpacesToSkip(t);
    assert v < 0 ==> t[1..] == z + d;
  }

  lemma NoSpacesToSkip(s: string)
    requires s != "" && s[0] != ' '
    ensures SkipSpaces(s) == s
  {
  }

  /** The text of a number directive, whatever comes after it. */
  lemma PrintedNumber(zeroPad: bool, width: nat, length: nat, f: char, b: string, k: nat, args: Args)
    returns (t: string)
    requires NumberConversion(f) && length <= 2
    ensures Text(NumberFormat(zeroPad, width, length, f) + b, 0, k, args) == t + Text(b, 0, k + 1, args)
    ensures IsNumber(t, Argument(args, k, length, f), BaseOf(f), f == 'X', zeroPad, width)
  {
    hide IsNumber, NumText, Text, NumberFormat, Repeat;
    var v := Argument(args, k, length, f);
    t := IntText(v < 0, Abs(v), zeroPad, width, f);
    NumberText(zeroPad, width, length, f, b, k, args);
    if zeroPad && !(v < 0 && width == 0) {
      ZeroPaddedNumber(v, BaseOf(f), f == 'X', width);
    } else {
      SpacedNumber(v, BaseOf(f), f == 'X', width);
      if zeroPad { UnpaddedNumber(t, v, BaseOf(f), f == 'X'); }
    }
  }

  /** Without a width the flag asks for nothing. */
  lemma UnpaddedNumber(t: string, v: int, base: nat, upper: bool)
    requires IsNumber(t, v, base, upper, false, 0)
    ensures IsNumber(t, v, base, upper, true, 0)
  {
    hide ReadNumber, HasDigits, SkipSpaces;
  }

  // ----- reading with atoi -----

  lemma {:induction false} DigitsStop(s: string, more: string, x: nat)
    ensures DigitsValue(s + ['\0'] + more, x) == DigitsValue(s, x)
    decreases |s|
  {
    var t := s + ['\0'] + more;
    if s != "" && IsDigit(s[0]) {
      assert t[0] == s[0] && t[1..] == s[1..] + ['\0'] + more;
      DigitsStop(s[1..], more, x * 10 + (s[0] as nat - '0' as nat));
    }
  }

  lemma {:induction false} AtoiStops(s: string, more: string)
    ensures AtoiValue(s + ['\0'] + more) == AtoiValue(s)
    decreases |s|
  {
    var t := s + ['\0'] + more;
    if s != "" && s[0] == ' ' {
      assert t[0] == s[0] && t[1..] == s[1..] + ['\0'] + more;
      AtoiStops(s[1..], more);
    } else {
      DigitsStop(s, more, 0);
    }
  }

  /** atoi of what vsnprintf stored for "%d", at any width and padding, is the number printed, if it is
      not negative and the buffer has room for it. */
  lemma PrintedReadsBack(zeroPad: bool, width: nat, args: Args, buffer: string, n: nat)
    requires args.signed(0, 0) >= 0 && |Text(NumberFormat(zeroPad, width, 0, 'd'), 0, 0, args)| < n <= |buffer|
    ensures AtoiValue(Stored(Text(NumberFormat(zeroPad, width, 0, 'd'), 0, 0, args), buffer, n)) == args.signed(0, 0)
  {
    hide IntText, Text, NumberFormat, AtoiValue;
    var fmt := NumberFormat(zeroPad, width, 0, 'd');
    var t := Text(fmt, 0, 0, args);
    assert fmt + "" == fmt;
    NumberText(zeroPad, width, 0, 'd', "", 0, args);
    TextEnds("", 0, 1, args);
    AtoiReadsBack(args.signed(0, 0), zeroPad, width);
    assert t[..|t|] == t;
    AtoiStops(t, buffer[|t| + 1..]);
  }
}
