/**
klib's formatted output.  Characters past the buffer's capacity are counted and not stored; the
result is shown to be the first characters of one text that does not depend on the capacity.
*/
module Stdio {
  import opened Wrappers
  import opened Bits

  // ----- numbers -----

  function DigitChar(d: nat, upper: bool): char
    requires d < 16
  {
    if d < 10 then (d + '0' as nat) as char else (d - 10 + (if upper then 'A' else 'a') as nat) as char
  }

  function NumText(v: nat, base: nat, upper: bool): (s: string)
    requires 2 <= base <= 16
    ensures s != ""
  {
    if v < base then [DigitChar(v, upper)] else NumText(v / base, base, upper) + [DigitChar(v % base, upper)]
  }

  function Repeat(c: char, n: int): (s: string)
    ensures |s| == if n < 0 then 0 else n
    decreases n
  {
    if n <= 0 then "" else Repeat(c, n - 1) + [c]
  }

  /** A padded number; with zeros the sign comes before the padding. */
  function IntText(negative: bool, v: nat, zeroPad: bool, width: nat, f: char): string {
    var d := NumText(v, if f == 'x' || f == 'X' then 16 else 10, f == 'X');
    if negative then
      if zeroPad && width > 0 then "-" + Repeat('0', width - 1 - |d|) + d else Repeat(' ', width - 1 - |d|) + "-" + d
    else Repeat(if zeroPad then '0' else ' ', width - |d|) + d
  }

  // ----- formats -----

  /** The arguments as va_arg reads them: the k-th one as a signed or unsigned integer of the given
      length (0 int, 1 long, 2 long long) or as a string, None being NULL. */
  datatype Args = Args(signed: (nat, nat) -> Long, unsigned: (nat, nat) -> DWord, str: nat -> Option<string>)

  type Long = x: int | -0x8000_0000_0000_0000 <= x < 0x8000_0000_0000_0000

  predicate CString(s: string) { forall i :: 0 <= i < |s| ==> s[i] != '\0' }

  function At(fmt: string, i: nat): char { if i < |fmt| then fmt[i] else '\0' }

  predicate IsDigit(c: char) { '0' <= c <= '9' }

  /** The end of the digits from i on, and the number they make. */
  function WidthEnd(fmt: string, i: nat): (e: nat)
    requires i <= |fmt|
    ensures i <= e <= |fmt|
    decreases |fmt| - i
  {
    if IsDigit(At(fmt, i)) && i < |fmt| then WidthEnd(fmt, i + 1) else i
  }

  function Width(fmt: string, i: nat, w: nat): nat
    requires i <= |fmt|
    decreases |fmt| - i
  {
    if IsDigit(At(fmt, i)) && i < |fmt| then Width(fmt, i + 1, w * 10 + (At(fmt, i) as nat - '0' as nat)) else w
  }

  function StrText(s: Option<string>): string { if s.Some? then s.value else "(null)" }

  /** One character or directive: the text it gives, where the format goes on, and the arguments used. */
  datatype Piece = Piece(text: string, next: nat, used: nat)

  function Length(fmt: string, i: nat): nat {
    if At(fmt, i) != 'l' then 0 else if At(fmt, i + 1) == 'l' then 2 else 1
  }

  function Conversion(fmt: string, i: nat, k: nat, args: Args, zeroPad: bool, width: nat): (p: Piece)
    ensures p.next >= i
  {
    var n := Length(fmt, i);
    var f := At(fmt, i + n);
    if f == 'd' then
      var v: int := args.signed(k, n);
      Piece(IntText(v < 0, if v < 0 then -v else v, zeroPad, width, f), i + n + 1, 1)
    else if f == 'u' || f == 'x' || f == 'X' then
      Piece(IntText(false, args.unsigned(k, n), zeroPad, width, f), i + n + 1, 1)
    else Piece(['%', f], if f == '\0' then i + n else i + n + 1, 0)
  }

  function Directive(fmt: string, i: nat, k: nat, args: Args): (p: Piece)
    requires i < |fmt|
    ensures p.next > i
  {
    if fmt[i] != '%' then Piece([fmt[i]], i + 1, 0)
    else if At(fmt, i + 1) == '\0' then Piece("", |fmt|, 0)
    else if At(fmt, i + 1) == '%' then Piece("%", i + 2, 0)
    else
      var zeroPad := At(fmt, i + 1) == '0';
      var j := if zeroPad then i + 2 else i + 1;
      var e := WidthEnd(fmt, j);
      if At(fmt, e) == '\0' then Piece("", |fmt|, 0)
      else if At(fmt, e) == 's' then Piece(StrText(args.str(k)), e + 1, 1)
      else Conversion(fmt, e, k, args, zeroPad, Width(fmt, j, 0))
  }

  /** The whole text from position i on. */
  function Text(fmt: string, i: nat, k: nat, args: Args): string
    decreases |fmt| - i
  {
    if i >= |fmt| then ""
    else
      var p := Directive(fmt, i, k, args);
      p.text + Text(fmt, p.next, k + p.used, args)
  }

  // ----- writing -----

  /** The output buffer and the counters that WRITE_CHAR works on. */
  class Writer {
    const out: array<char>
    const cap: nat
    var pos: nat
    var needed: nat
    /** Everything that was to be written. */
    ghost var text: string
    ghost const start: seq<char>

    ghost predicate Valid()
      reads this, out
    {
      && needed == |text| && pos == (if |text| < cap then |text| else cap) && cap <= out.Length
      && |start| == out.Length && out[..] == text[..pos] + start[pos..]
    }

    constructor (out: array<char>, cap: nat)
      requires cap <= out.Length
      ensures this.out == out && this.cap == cap && start == out[..] && Valid() && text == "" && pos == 0
    {
      this.out, this.cap, pos, needed, text := out, cap, 0, 0, "";
      start := out[..];
    }

    /** WRITE_CHAR */
    method Write(c: char)
      requires Valid()
      modifies this, out
      ensures Valid() && text == old(text) + [c]
    {
      if pos < cap {
        out[pos] := c;
        pos := pos + 1;
      }
      needed := needed + 1;
      text := text + [c];
    }

    method WriteAll(s: string)
      requires Valid()
      modifies this, out
      ensures Valid() && text == old(text) + s
    {
      for i := 0 to |s|
        invariant Valid() && text == old(text) + s[..i]
      {
        Write(s[i]);
        assert s[..i + 1] == s[..i] + [s[i]];
      }
      assert s[..|s|] == s;
    }

    method WritePadding(c: char, width: int)
      requires Valid()
      modifies this, out
      ensures Valid() && text == old(text) + Repeat(c, width)
    {
      var pad, n := width, 0;
      while pad > 0
        invariant Valid() && n + pad == width && n >= 0 && (pad >= 0 || n == 0) && text == old(text) + Repeat(c, n)
        decreases pad
      {
        Write(c);
        n, pad := n + 1, pad - 1;
      }
    }
  }

  // ----- print_integer -----

  function Reverse(s: string): string { if s == "" then "" else [s[|s| - 1]] + Reverse(s[..|s| - 1]) }

  lemma ReverseMore(s: string, c: char)
    ensures Reverse(s + [c]) == [c] + Reverse(s)
  {
    assert (s + [c])[..|s|] == s;
  }

  lemma ReverseNone()
    ensures Reverse("") == ""
  {
  }

  /** The digits, last one first.  A 64-bit number never fills the buffer. */
  method HexDigits(v: DWord, upper: bool) returns (buf: string)
    requires v > 0
    ensures Reverse(buf) == NumText(v, 16, upper)
  {
    hide Up, NumText, Reverse, DigitChar;
    var rest: nat := v;
    buf := "";
    ReverseNone();
    Up64(1);
    while rest > 0 && |buf| < 128
      invariant |buf| <= 64 && rest < Pow2(64 - |buf|)
      invariant rest > 0 ==> NumText(v, 16, upper) == NumText(rest, 16, upper) + Reverse(buf)
      invariant rest == 0 ==> NumText(v, 16, upper) == Reverse(buf)
      decreases rest
    {
      HalfBound(rest, 16, 64 - |buf|);
      NumTextSplit(rest, 16, upper);
      ReverseMore(buf, DigitChar(rest % 16, upper));
      buf := buf + [DigitChar(rest % 16, upper)];
      rest := rest / 16;
    }
  }

  method DecimalDigits(v: DWord) returns (buf: string)
    requires v > 0
    ensures Reverse(buf) == NumText(v, 10, false)
  {
    hide Up, NumText, Reverse, DigitChar;
    var rest: nat := v;
    buf := "";
    ReverseNone();
    Up64(1);
    while rest > 0 && |buf| < 128
      invariant |buf| <= 64 && rest < Pow2(64 - |buf|)
      invariant rest > 0 ==> NumText(v, 10, false) == NumText(rest, 10, false) + Reverse(buf)
      invariant rest == 0 ==> NumText(v, 10, false) == Reverse(buf)
      decreases rest
    {
      HalfBound(rest, 10, 64 - |buf|);
      NumTextSplit(rest, 10, false);
      ReverseMore(buf, DigitChar(rest % 10, false));
      buf := buf + [DigitChar(rest % 10, false)];
      rest := rest / 10;
    }
  }

  method MakeDigits(v: DWord, f: char) returns (buf: string)
    requires f == 'd' || f == 'u' || f == 'x' || f == 'X'
    ensures Reverse(buf) == NumText(v, if f == 'x' || f == 'X' then 16 else 10, f == 'X')
  {
    if v == 0 {
      ReverseMore("", '0');
      buf := "" + ['0'];
    } else if f == 'x' || f == 'X' {
      buf := HexDigits(v, f == 'X');
    } else {
      buf := DecimalDigits(v);
    }
  }

  lemma HalfBound(x: nat, base: nat, k: nat)
    requires 0 < x < Pow2(k) && (base == 10 || base == 16)
    ensures k > 0 && x / base < Pow2(k - 1)
  {
  }

  lemma NumTextSplit(v: nat, base: nat, upper: bool)
    requires (base == 10 || base == 16) && v > 0
    ensures NumText(v, base, upper) ==
      (if v / base > 0 then NumText(v / base, base, upper) else "") + [DigitChar(v % base, upper)]
  {
  }

  method WriteReversed(w: Writer, buf: string)
    requires w.Valid()
    modifies w, w.out
    ensures w.Valid() && w.text == old(w.text) + Reverse(buf)
  {
    var bi := |buf|;
    assert buf[..bi] == buf;
    while bi > 0
      invariant bi <= |buf| && w.Valid() && w.text + Reverse(buf[..bi]) == old(w.text) + Reverse(buf)
    {
      assert buf[..bi][..bi - 1] == buf[..bi - 1];
      ghost var before := w.text;
      bi := bi - 1;
      w.Write(buf[bi]);
      assert before + Reverse(buf[..bi + 1]) == before + [buf[bi]] + Reverse(buf[..bi]);
    }
  }

  method PrintNegative(w: Writer, buf: string, zeroPad: bool, width: nat)
    requires w.Valid()
    modifies w, w.out
    ensures w.Valid() && w.text == old(w.text) +
      if zeroPad && width > 0 then "-" + Repeat('0', width - 1 - |buf|) + Reverse(buf)
      else Repeat(' ', width - 1 - |buf|) + "-" + Reverse(buf)
  {
    hide Reverse, Repeat;
    ghost var before, d := w.text, Reverse(buf);
    if zeroPad && width > 0 {
      w.Write('-');
      w.WritePadding('0', width - 1 - |buf|);
      WriteReversed(w, buf);
      Associate(before, "-", Repeat('0', width - 1 - |buf|), d);
    } else {
      w.WritePadding(' ', width - 1 - |buf|);
      w.Write('-');
      WriteReversed(w, buf);
      Associate(before, Repeat(' ', width - 1 - |buf|), "-", d);
    }
  }

  lemma Associate(a: string, b: string, c: string, d: string)
    ensures a + b + c + d == a + (b + c + d)
  {
  }

  method PrintInteger(w: Writer, negative: bool, v: DWord, zeroPad: bool, width: nat, f: char)
    requires w.Valid() && (f == 'd' || f == 'u' || f == 'x' || f == 'X')
    modifies w, w.out
    ensures w.Valid() && w.text == old(w.text) + IntText(negative, v, zeroPad, width, f)
  {
    hide Reverse, NumText, Repeat;
    var buf := MakeDigits(v, f);
    ReverseLength(buf);
    if negative {
      PrintNegative(w, buf, zeroPad, width);
    } else {
      ghost var before, pad := w.text, Repeat(if zeroPad then '0' else ' ', width - |buf|);
      w.WritePadding(if zeroPad then '0' else ' ', width - |buf|);
      WriteReversed(w, buf);
      assert before + pad + Reverse(buf) == before + (pad + Reverse(buf));
    }
  }

  lemma {:induction false} ReverseLength(s: string)
    ensures |Reverse(s)| == |s|
    decreases |s|
  {
    if s != "" { ReverseLength(s[..|s| - 1]); }
  }

  // ----- vsnprintf -----

  /** The while loop over the digits of a width. */
  method ParseWidth(fmt: string, i: nat) returns (width: nat, e: nat)
    requires i <= |fmt|
    ensures e == WidthEnd(fmt, i) && width == Width(fmt, i, 0)
  {
    width, e := 0, i;
    while e < |fmt| && IsDigit(fmt[e])
      invariant i <= e <= |fmt| && WidthEnd(fmt, e) == WidthEnd(fmt, i) && Width(fmt, e, width) == Width(fmt, i, 0)
    {
      width := width * 10 + (fmt[e] as nat - '0' as nat);
      e := e + 1;
    }
  }

  method Convert(w: Writer, fmt: string, i: nat, k: nat, args: Args, zeroPad: bool, width: nat) returns (next: nat,
                 used: nat)
    requires w.Valid()
    modifies w, w.out
    ensures w.Valid() && var p := Conversion(fmt, i, k, args, zeroPad, width);
      w.text == old(w.text) + p.text && next == p.next && used == p.used
  {
    hide IntText;
    var length := 0;
    var j := i;
    if At(fmt, j) == 'l' {
      if At(fmt, j + 1) == 'l' {
        length, j := 2, j + 2;
      } else {
        length, j := 1, j + 1;
      }
    }
    var f := At(fmt, j);
    if f == 'd' {
      var v: int := args.signed(k, length);
      var abs: DWord := if v < 0 then -(v + 1) + 1 else v;
      PrintInteger(w, v < 0, abs, zeroPad, width, f);
      return j + 1, 1;
    }
    if f == 'u' || f == 'x' || f == 'X' {
      PrintInteger(w, false, args.unsigned(k, length), zeroPad, width, f);
      return j + 1, 1;
    }
    w.Write('%');
    w.Write(f);
    assert w.text == old(w.text) + ['%', f];
    return if f != '\0' then j + 1 else j, 0;
  }

  /** One round of vsnprintf's loop. */
  method Direct(w: Writer, fmt: string, i: nat, k: nat, args: Args) returns (next: nat, used: nat)
    requires w.Valid() && i < |fmt|
    modifies w, w.out
    ensures w.Valid() && var p := Directive(fmt, i, k, args);
      w.text == old(w.text) + p.text && next == p.next && used == p.used
  {
    hide Conversion, WidthEnd, Width;
    if fmt[i] != '%' {
      w.Write(fmt[i]);
      return i + 1, 0;
    }
    if At(fmt, i + 1) == '\0' { return |fmt|, 0; }
    if At(fmt, i + 1) == '%' {
      w.Write('%');
      return i + 2, 0;
    }
    var zeroPad, j := false, i + 1;
    if At(fmt, j) == '0' { zeroPad, j := true, j + 1; }
    var width, e := ParseWidth(fmt, j);
    if At(fmt, e) == '\0' { return |fmt|, 0; }
    if At(fmt, e) == 's' {
      var s := args.str(k);
      w.WriteAll(if s.Some? then s.value else "(null)");
      return e + 1, 1;
    }
    next, used := Convert(w, fmt, e, k, args, zeroPad, width);
  }

  lemma TextUnfolds(fmt: string, i: nat, k: nat, args: Args, before: string)
    requires i < |fmt|
    ensures var p := Directive(fmt, i, k, args);
      before + p.text + Text(fmt, p.next, k + p.used, args) == before + Text(fmt, i, k, args)
  {
    hide Directive;
  }

  lemma TextEnds(fmt: string, i: nat, k: nat, args: Args)
    requires i >= |fmt|
    ensures Text(fmt, i, k, args) == ""
  {
  }

  /** A buffer of which the first n characters may be used, after t was stored in it. */
  function Stored(t: string, buffer: string, n: nat): string
    requires n <= |buffer|
  {
    if n == 0 then buffer
    else
      var p := if |t| < n - 1 then |t| else n - 1;
      t[..p] + ['\0'] + buffer[p + 1..]
  }

  method Terminate(w: Writer, n: nat)
    requires w.Valid() && n <= w.out.Length && w.cap == if n > 0 then n - 1 else 0
    modifies w.out
    ensures w.out[..] == Stored(w.text, w.start, n)
  {
    if n > 0 {
      ghost var t := w.text[..w.pos];
      w.out[w.pos] := '\0';
      assert w.out[..] == (t + w.start[w.pos..])[w.pos := '\0'];
      assert (t + w.start[w.pos..])[w.pos := '\0'] == t + ['\0'] + w.start[w.pos + 1..];
    }
  }

  /** vsnprintf: the first n - 1 characters of the text, a terminating NUL, nothing else in the buffer
      changed, and the length of the whole text as the result. */
  method Vsnprintf(out: array<char>, n: nat, fmt: string, args: Args) returns (needed: nat)
    requires n <= out.Length && CString(fmt)
    modifies out
    ensures needed == |Text(fmt, 0, 0, args)|
    ensures out[..] == Stored(Text(fmt, 0, 0, args), old(out[..]), n)
  {
    hide Directive, Text, CString, Stored;
    var w := new Writer(out, if n > 0 then n - 1 else 0);
    var i, k := 0, 0;
    while i < |fmt|
      invariant w.Valid() && w.out == out && fresh(w) && w.start == old(out[..]) && w.cap == if n > 0 then n - 1 else 0
      invariant w.text + Text(fmt, i, k, args) == Text(fmt, 0, 0, args)
      decreases |fmt| - i
    {
      ghost var before := w.text;
      TextUnfolds(fmt, i, k, args, before);
      var next, used := Direct(w, fmt, i, k, args);
      i, k := next, k + used;
    }
    TextEnds(fmt, i, k, args);
    assert w.text == Text(fmt, 0, 0, args);
    needed := w.needed;
    Terminate(w, n);
  }

  // ----- atoi -----

  /** The number that the digits at the start of s make, after x. */
  function DigitsValue(s: string, x: nat): nat
    decreases |s|
  {
    if s == "" || !IsDigit(s[0]) then x else DigitsValue(s[1..], x * 10 + (s[0] as nat - '0' as nat))
  }

  function AtoiValue(s: string): nat
    decreases |s|
  {
    if s != "" && s[0] == ' ' then AtoiValue(s[1..]) else DigitsValue(s, 0)
  }

  method Atoi(s: string) returns (x: nat)
    ensures x == AtoiValue(s)
  {
    var i := 0;
    assert s[0..] == s;
    while i < |s| && s[i] == ' '
      invariant i <= |s| && AtoiValue(s[i..]) == AtoiValue(s)
    {
      assert s[i..][1..] == s[i + 1..];
      i := i + 1;
    }
    x := 0;
    while i < |s| && IsDigit(s[i])
      invariant i <= |s| && DigitsValue(s[i..], x) == AtoiValue(s)
    {
      assert s[i..][1..] == s[i + 1..];
      x := x * 10 + (s[i] as nat - '0' as nat);
      i := i + 1;
    }
  }

  predicate AllDigits(s: string) { forall i :: 0 <= i < |s| ==> IsDigit(s[i]) }

  lemma {:induction false} DigitsAppend(a: string, b: string, x: nat)
    requires AllDigits(a)
    ensures DigitsValue(a + b, x) == DigitsValue(b, DigitsValue(a, x))
    decreases |a|
  {
    if a == "" {
      assert a + b == b;
    } else {
      assert (a + b)[1..] == a[1..] + b;
      DigitsAppend(a[1..], b, x * 10 + (a[0] as nat - '0' as nat));
    }
  }

  lemma {:induction false} NumTextValue(v: nat)
    ensures AllDigits(NumText(v, 10, false)) && DigitsValue(NumText(v, 10, false), 0) == v
  {
    if v < 10 {
      assert DigitsValue([DigitChar(v, false)][1..], v) == v;
    } else {
      var c := DigitChar(v % 10, false);
      NumTextValue(v / 10);
      DigitsAppend(NumText(v / 10, 10, false), [c], 0);
      assert DigitsValue([c], v / 10) == DigitsValue([c][1..], v / 10 * 10 + v % 10);
    }
  }

  lemma {:induction false} ZerosValue(n: int, s: string)
    ensures AllDigits(Repeat('0', n)) && DigitsValue(Repeat('0', n) + s, 0) == DigitsValue(s, 0)
    decreases n
  {
    if n <= 0 {
      assert "" + s == s;
    } else {
      assert Repeat('0', n) + s == Repeat('0', n - 1) + (['0'] + s);
      ZerosValue(n - 1, ['0'] + s);
      assert (['0'] + s)[1..] == s;
    }
  }

  lemma {:induction false} SpacesValue(n: int, s: string)
    ensures AtoiValue(Repeat(' ', n) + s) == AtoiValue(s)
    decreases n
  {
    if n <= 0 {
      assert "" + s == s;
    } else {
      assert Repeat(' ', n) + s == Repeat(' ', n - 1) + ([' '] + s);
      SpacesValue(n - 1, [' '] + s);
      assert ([' '] + s)[1..] == s;
    }
  }

  /** atoi reads back what %d printed of a number that is not negative, at any width and padding. */
  lemma AtoiReadsBack(v: nat, zeroPad: bool, width: nat)
    ensures AtoiValue(IntText(false, v, zeroPad, width, 'd')) == v
  {
    hide DigitsValue, NumText, Repeat, AtoiValue;
    var d := NumText(v, 10, false);
    NumTextValue(v);
    if zeroPad {
      ZerosValue(width - |d|, d);
      NoSpaces(Repeat('0', width - |d|) + d);
    } else {
      SpacesValue(width - |d|, d);
      NoSpaces(d);
    }
  }

  lemma NoSpaces(s: string)
    requires AllDigits(s)
    ensures AtoiValue(s) == DigitsValue(s, 0)
  {
  }
}
