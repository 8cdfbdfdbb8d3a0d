/**
The emulator's instruction patterns: a string of 0, 1 and ? is turned into a key, a mask and a shift,
and an instruction matches when its shifted and masked bits are the key.
*/
module DecodePattern {
  import opened Wrappers
  import opened Bits

  datatype Pattern = Pattern(key: nat, mask: nat, shift: nat)

  predicate Digit(c: char) { c == '0' || c == '1' || c == '?' }

  predicate WellFormed(str: string) { forall i :: 0 <= i < |str| ==> Digit(str[i]) || str[i] == ' ' }

  /** Character by character from the right: each digit stands for one bit, blanks for none, and the
      bits left of the pattern do not matter. */
  predicate Matches(str: string, x: nat) {
    if str == "" then true
    else
      var c, front := str[|str| - 1], str[..|str| - 1];
      if c == ' ' then Matches(front, x)
      else (c == '?' || (c == '1') == (x % 2 == 1)) && Matches(front, x / 2)
  }

  /** INSTPAT's test */
  predicate Test(p: Pattern, x: nat) { BitAnd(Shr(x, p.shift), p.mask) == p.key }

  function Key(str: string): nat {
    if str == "" then 0
    else
      var c, front := str[|str| - 1], Key(str[..|str| - 1]);
      if c == ' ' then front else 2 * front + if c == '1' then 1 else 0
  }

  function Mask(str: string): nat {
    if str == "" then 0
    else
      var c, front := str[|str| - 1], Mask(str[..|str| - 1]);
      if c == ' ' then front else 2 * front + if c == '?' then 0 else 1
  }

  /** The number of question marks at the end. */
  function Trail(str: string): nat {
    if str == "" then 0
    else
      var c, front := str[|str| - 1], Trail(str[..|str| - 1]);
      if c == ' ' then front else if c == '?' then front + 1 else 0
  }

  function Digits(str: string): nat {
    if str == "" then 0 else Digits(str[..|str| - 1]) + if str[|str| - 1] == ' ' then 0 else 1
  }

  lemma AndStep(x: nat, m: nat, b: nat)
    requires b < 2
    ensures BitAnd(x, 2 * m + b) == 2 * BitAnd(x / 2, m) + if b == 1 then x % 2 else 0
  {
    assert (2 * m + b) / 2 == m && (2 * m + b) % 2 == b;
    if x == 0 || 2 * m + b == 0 { assert BitAnd(x / 2, m) == 0; }
  }

  /** Masked bits equal to the key are the bits that the characters ask for. */
  lemma {:induction false} MaskedIsMatch(str: string, x: nat)
    requires WellFormed(str)
    ensures BitAnd(x, Mask(str)) == Key(str) <==> Matches(str, x)
    decreases |str|
  {
    if str == "" {
      assert BitAnd(x, 0) == 0;
    } else {
      var c, front := str[|str| - 1], str[..|str| - 1];
      if c == ' ' {
        MaskedIsMatch(front, x);
      } else {
        MaskedIsMatch(front, x / 2);
        AndStep(x, Mask(front), if c == '?' then 0 else 1);
      }
    }
  }

  /** The trailing question marks leave zeros in key and mask. */
  lemma {:induction false} TrailZeros(str: string)
    ensures Key(str) == Up(Shr(Key(str), Trail(str)), Trail(str)) &&
      Mask(str) == Up(Shr(Mask(str), Trail(str)), Trail(str))
    decreases |str|
  {
    if str != "" {
      var c, front := str[|str| - 1], str[..|str| - 1];
      TrailZeros(front);
      if c == '?' {
        assert Shr(2 * Key(front), Trail(front) + 1) == Shr(Key(front), Trail(front));
        assert Shr(2 * Mask(front), Trail(front) + 1) == Shr(Mask(front), Trail(front));
      }
    }
  }

  lemma {:induction false} Bounds(str: string)
    ensures Key(str) < Pow2(Digits(str)) && Mask(str) < Pow2(Digits(str)) && Digits(str) <= |str| && Trail(str) <= |str|
    decreases |str|
  {
    if str != "" { Bounds(str[..|str| - 1]); }
  }

  lemma Extend(str: string, i: nat)
    requires i < |str|
    ensures str[..i + 1][..i] == str[..i] && str[..i + 1][i] == str[i]
  {
  }

  /** pattern_decode; None where the source panics: on a character that is no digit, and on 64
      characters or more. */
  method PatternDecode(str: string) returns (r: Option<Pattern>)
    ensures r.None? <==> !WellFormed(str) || |str| >= 64
    ensures r.Some? ==> forall x: nat :: Test(r.value, x) <==> Matches(str, x)
    ensures r.Some? ==> r.value.key < Pow2(64) && r.value.mask < Pow2(64) && r.value.shift < 64
  {
    hide Up, Shr, BitAnd;
    var key, mask, shift := 0, 0, 0;
    var i := 0;
    while i < 64 && i < |str|
      invariant i <= |str| && i <= 64 && WellFormed(str[..i])
      invariant key == Key(str[..i]) && mask == Mask(str[..i]) && shift == Trail(str[..i])
    {
      var c := str[i];
      Extend(str, i);
      if c != ' ' {
        if !Digit(c) { return None; }
        key := 2 * key + if c == '1' then 1 else 0;
        mask := 2 * mask + if c == '?' then 0 else 1;
        shift := if c == '?' then shift + 1 else 0;
      }
      i := i + 1;
    }
    if i == 64 { return None; }
    assert str[..i] == str;
    Bounds(str);
    Pow2Monotone(Digits(str), 64);
    r := Some(Pattern(Shr(key, shift), Shr(mask, shift), shift));
    forall x: nat ensures Test(r.value, x) <==> Matches(str, x) { ShiftedTest(str, x); }
  }

  lemma ShiftedTest(str: string, x: nat)
    requires WellFormed(str)
    ensures BitAnd(Shr(x, Trail(str)), Shr(Mask(str), Trail(str))) == Shr(Key(str), Trail(str)) <==> Matches(str, x)
  {
    hide Up, Shr, BitAnd;
    var t := Trail(str);
    MaskedIsMatch(str, x);
    TrailZeros(str);
    AndShifted(x, Shr(Mask(str), t), t);
    UpMonotone(BitAnd(Shr(x, t), Shr(Mask(str), t)), Shr(Key(str), t), t);
    UpMonotone(Shr(Key(str), t), BitAnd(Shr(x, t), Shr(Mask(str), t)), t);
  }
}
