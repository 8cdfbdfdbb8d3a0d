/**
String values in configuration files: quoted and escaped when written, unescaped in place when read.
*/
module KconfigString {
  import opened Wrappers
  /** The characters that need a backslash. */
  predicate Special(c: char) { c == '"' || c == '\\' }

  function Escaped(s: string): string {
    if s == "" then "" else (if Special(s[0]) then ['\\', s[0]] else [s[0]]) + Escaped(s[1..])
  }

  function Quoted(s: string): string { "\"" + Escaped(s) + "\"" }

  function Specials(s: string): nat { if s == "" then 0 else (if Special(s[0]) then 1 else 0) + Specials(s[1..]) }

  /** strcspn: the characters before the first special one, or all. */
  method Span(s: string, i: nat) returns (e: nat)
    requires i <= |s|
    ensures i <= e <= |s| && (forall k :: i <= k < e ==> !Special(s[k])) && (e < |s| ==> Special(s[e]))
  {
    e := i;
    while e < |s| && !Special(s[e])
      invariant i <= e <= |s| && forall k :: i <= k < e ==> !Special(s[k])
    {
      e := e + 1;
    }
  }

  lemma {:induction false} PlainRun(s: string, i: nat, e: nat)
    requires i <= e <= |s| && forall k :: i <= k < e ==> !Special(s[k])
    ensures Escaped(s[i..]) == s[i..e] + Escaped(s[e..]) && Specials(s[i..]) == Specials(s[e..])
    decreases e - i
  {
    if i < e {
      PlainRun(s, i + 1, e);
      assert s[i..][1..] == s[i + 1..] && s[i..e] == [s[i]] + s[i + 1..e];
    }
  }

  /** The first pass: the size to allocate. */
  method EscapedSize(s: string) returns (reslen: nat)
    ensures reslen == |Quoted(s)| + 1
  {
    hide Escaped, Special;
    reslen := |s| + 2 + 1;
    var p := 0;
    assert s[0..] == s;
    while true
      invariant p <= |s| && reslen + Specials(s[p..]) == |s| + 3 + Specials(s)
      decreases |s| - p
    {
      var e := Span(s, p);
      PlainRun(s, p, e);
      p := e;
      if p == |s| { break; }
      assert s[p..][1..] == s[p + 1..];
      reslen := reslen + 1;
      p := p + 1;
    }
    EscapedLength(s);
  }

  /** The second pass: the characters. */
  method EscapedText(s: string) returns (r: string)
    ensures r == Quoted(s)
  {
    hide Specials, Special;
    r := "\"";
    var p := 0;
    assert s[0..] == s;
    while true
      invariant p <= |s| && r + Escaped(s[p..]) == "\"" + Escaped(s)
      decreases |s| - p
    {
      var e := Span(s, p);
      PlainRun(s, p, e);
      r := r + s[p..e];
      p := e;
      if p == |s| { break; }
      assert s[p..][1..] == s[p + 1..];
      r := r + ['\\'] + [s[p]];
      p := p + 1;
    }
    assert Escaped(s[p..]) == "" && r == "\"" + Escaped(s);
    r := r + "\"";
  }

  /** sym_escape_string_value: the quoted value fits the allocated size exactly. */
  method EscapeStringValue(s: string) returns (r: string, reslen: nat)
    ensures r == Quoted(s) && reslen == |r| + 1
  {
    reslen := EscapedSize(s);
    r := EscapedText(s);
  }

  lemma {:induction false} EscapedLength(s: string)
    ensures |Escaped(s)| == |s| + Specials(s)
  {
    if s != "" { EscapedLength(s[1..]); }
  }

  /** The text up to the closing quote, each backslash taken away and the next character kept. */
  function Unquoted(s: string): Option<string>
    decreases |s|
  {
    if s == "" || s == "\\" then None
    else if s[0] == '"' then Some("")
    else
      var rest := Unquoted(if s[0] == '\\' then s[2..] else s[1..]);
      if rest.None? then None else Some([if s[0] == '\\' then s[1] else s[0]] + rest.value)
  }

  /** What conf_set_sym_val makes of the text of a string symbol's value. */
  datatype Parsed = NoValue | Invalid | Value(s: string)

  function Parse(p: string): Parsed {
    if p == "" || p[0] != '"' then NoValue
    else
      var u := Unquoted(p[1..]);
      if u.None? then Invalid else Value(u.value)
  }

  function Prefixed(a: string, u: Option<string>): Option<string> { if u.None? then None else Some(a + u.value) }

  lemma PrefixedTwice(a: string, b: string, u: Option<string>)
    ensures Prefixed(a, Prefixed(b, u)) == Prefixed(a + b, u) && Prefixed("", u) == u
  {
    if u.Some? { assert a + (b + u.value) == a + b + u.value && "" + u.value == u.value; }
  }

  lemma {:induction false} UnquotedRun(s: string, i: nat, e: nat)
    requires i <= e <= |s| && forall k :: i <= k < e ==> !Special(s[k])
    ensures Unquoted(s[i..]) == Prefixed(s[i..e], Unquoted(s[e..]))
    decreases e - i
  {
    if i < e {
      UnquotedRun(s, i + 1, e);
      PrefixedTwice([s[i]], s[i + 1..e], Unquoted(s[e..]));
      assert s[i..][0] == s[i] && s[i..][1..] == s[i + 1..] && s[i..e] == [s[i]] + s[i + 1..e];
    } else {
      assert s[i..e] == "";
      PrefixedTwice("", "", Unquoted(s[e..]));
    }
  }

  lemma UnquotedEnds(s: string)
    ensures s == "" || s == "\\" ==> Unquoted(s) == None
    ensures s != "" && s[0] == '"' ==> Unquoted(s) == Some("")
  {
  }

  lemma UnquotedEscape(s: string, e: nat)
    requires e + 1 < |s| && s[e] == '\\'
    ensures Unquoted(s[e..]) == Prefixed([s[e + 1]], Unquoted(s[e + 2..]))
  {
    assert s[e..][0] == s[e] && s[e..][1] == s[e + 1] && s[e..][2..] == s[e + 2..];
  }

  /** The loop that works in the line buffer: a backslash is closed over and the character that comes
      to stand in its place is skipped. */
  method ConfSetString(p: string) returns (r: Parsed)
    ensures r == Parse(p)
  {
    if p == "" || p[0] != '"' { return NoValue; }
    var buf := p[1..];
    var i := 0;
    hide Unquoted;
    assert buf[..0] == "" && buf[0..] == buf;
    PrefixedTwice("", "", Unquoted(buf));
    while true
      invariant i <= |buf| && Unquoted(p[1..]) == Prefixed(buf[..i], Unquoted(buf[i..]))
      decreases |buf| - i
    {
      var e := Span(buf, i);
      UnquotedRun(buf, i, e);
      assert buf[..i] + buf[i..e] == buf[..e];
      PrefixedTwice(buf[..i], buf[i..e], Unquoted(buf[e..]));
      UnquotedEnds(buf[e..]);
      if e == |buf| {
        assert buf[e..] == "";
        return Invalid;
      }
      if buf[e] == '"' {
        assert buf[e..][0] == '"' && Unquoted(buf[e..]) == Some("");
        return Value(buf[..e]);
      }
      if e + 1 == |buf| {
        assert buf[e..] == "\\";
        return Invalid;
      }
      UnquotedEscape(buf, e);
      PrefixedTwice(buf[..e], [buf[e + 1]], Unquoted(buf[e + 2..]));
      ghost var was := buf;
      buf := buf[..e] + buf[e + 1..];
      i := e + 1;
      assert buf[..i] == was[..e] + [was[e + 1]] && buf[i..] == was[e + 2..];
    }
  }

  /** The round trip: what was written reads back, whatever follows the closing quote. */
  lemma {:induction false} RoundTrip(s: string, more: string)
    ensures Parse(Quoted(s) + more) == Value(s)
  {
    assert (Quoted(s) + more)[1..] == Escaped(s) + "\"" + more;
    UnquotedEscaped(s, more);
  }

  lemma UnquotedFirst(c: char, t: string)
    ensures !Special(c) ==> Unquoted([c] + t) == Prefixed([c], Unquoted(t))
    ensures Unquoted(['\\', c] + t) == Prefixed([c], Unquoted(t))
    ensures Unquoted(['"'] + t) == Some("")
  {
    assert ([c] + t)[1..] == t && ([c] + t)[0] == c;
    var u := ['\\', c] + t;
    assert u[2..] == t && u[0] == '\\' && u[1] == c;
  }

  lemma {:induction false} UnquotedEscaped(s: string, more: string)
    ensures Unquoted(Escaped(s) + "\"" + more) == Some(s)
  {
    hide Unquoted;
    if s == "" {
      assert Escaped(s) + "\"" + more == ['"'] + more;
      UnquotedFirst('"', more);
    } else {
      UnquotedEscaped(s[1..], more);
      var rest := Escaped(s[1..]) + "\"" + more;
      UnquotedFirst(s[0], rest);
      assert Escaped(s) + "\"" + more == (if Special(s[0]) then ['\\', s[0]] else [s[0]]) + rest;
      assert s == [s[0]] + s[1..];
    }
  }

  /** Different values are written differently. */
  lemma QuotedInjective(a: string, b: string)
    requires Quoted(a) == Quoted(b)
    ensures a == b
  {
    RoundTrip(a, "");
    RoundTrip(b, "");
    assert Quoted(a) + "" == Quoted(a) && Quoted(b) + "" == Quoted(b);
  }
}
