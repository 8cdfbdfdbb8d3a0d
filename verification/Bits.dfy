/**
Unsigned machine words as natural numbers.  Shifts, masks and the bitwise operators are defined
by recursion over binary digits, so that every proof is about halving and doubling only.
*/
module Bits {

  const W32: nat := 0x1_0000_0000
  const W64: nat := 0x1_0000_0000_0000_0000

  type Word = x: int | 0 <= x < W32
  type DWord = x: int | 0 <= x < W64

  /** x * 2^k */
  function Up(x: nat, k: nat): (y: nat)
    ensures x > 0 ==> y > 0
  {
    if k == 0 then x else 2 * Up(x, k - 1)
  }

  function Pow2(k: nat): nat { Up(1, k) }

  /** x / 2^k */
  function Shr(x: nat, k: nat): (y: nat)
    ensures y <= x
  {
    if k == 0 then x else Shr(x / 2, k - 1)
  }

  /** x % 2^k */
  function Low(x: nat, k: nat): nat { if k == 0 then 0 else x % 2 + 2 * Low(x / 2, k - 1) }

  /** A 32-bit left shift. */
  function Shl(x: Word, k: nat): Word { Up(x, k) % W32 }

  /** The two's-complement reading of a word. */
  function Signed(x: Word): int { if x < 0x8000_0000 then x else x - W32 }

  /** An arithmetic right shift of a 32-bit word. */
  function Sra(x: Word, k: nat): Word
    requires k < 32
  {
    if x < 0x8000_0000 then Shr(x, k) else W32 - 1 - Shr(W32 - 1 - x, k)
  }

  function BitAnd(x: nat, y: nat): nat {
    if x == 0 || y == 0 then 0 else (if x % 2 == 1 && y % 2 == 1 then 1 else 0) + 2 * BitAnd(x / 2, y / 2)
  }

  function BitOr(x: nat, y: nat): nat
    decreases x + y
  {
    if x == 0 && y == 0 then 0 else (if x % 2 == 1 || y % 2 == 1 then 1 else 0) + 2 * BitOr(x / 2, y / 2)
  }

  function BitXor(x: nat, y: nat): nat
    decreases x + y
  {
    if x == 0 && y == 0 then 0 else (if x % 2 != y % 2 then 1 else 0) + 2 * BitXor(x / 2, y / 2)
  }

  /** Number of binary digits. */
  function Len(x: nat): nat { if x == 0 then 0 else 1 + Len(x / 2) }

  /** Number of trailing zero digits. */
  function Ctz(x: nat): nat
    requires x > 0
  {
    if x % 2 == 1 then 0 else 1 + Ctz(x / 2)
  }

  // ----- shifting -----

  lemma {:induction false} UpAdd(x: nat, y: nat, k: nat)
    ensures Up(x + y, k) == Up(x, k) + Up(y, k)
  {
    if k > 0 { UpAdd(x, y, k - 1); }
  }

  lemma {:induction false} UpUp(x: nat, a: nat, b: nat)
    ensures Up(Up(x, a), b) == Up(x, a + b)
    decreases b
  {
    if b > 0 { UpUp(x, a, b - 1); }
  }

  lemma UpPositive(k: nat)
    ensures Pow2(k) > 0
  {
  }

  lemma UpStep(x: nat, k: nat)
    ensures Up(x, k + 1) == 2 * Up(x, k)
  {
  }

  lemma {:induction false} UpInside(x: nat, k: nat)
    ensures Up(2 * x, k) == 2 * Up(x, k)
  {
    if k > 0 { UpInside(x, k - 1); }
  }

  lemma {:induction false} UpMonotone(x: nat, y: nat, k: nat)
    ensures x <= y <==> Up(x, k) <= Up(y, k)
  {
    if k > 0 { UpMonotone(x, y, k - 1); }
  }

  lemma {:induction false} Pow2Monotone(a: nat, b: nat)
    requires a <= b
    ensures Pow2(a) <= Pow2(b)
    decreases b
  {
    if a < b { Pow2Monotone(a, b - 1); }
  }

  lemma Up8(x: nat)
    ensures Up(x, 1) == 2 * x && Up(x, 2) == 4 * x && Up(x, 4) == 16 * x && Up(x, 8) == 0x100 * x
  {
    assert Up(x, 1) == 2 * Up(x, 0);
    assert Up(x, 2) == 2 * Up(x, 1);
    assert Up(x, 3) == 2 * Up(x, 2);
    assert Up(x, 4) == 2 * Up(x, 3);
    assert Up(x, 5) == 2 * Up(x, 4);
    assert Up(x, 6) == 2 * Up(x, 5);
    assert Up(x, 7) == 2 * Up(x, 6);
  }

  lemma Up16(x: nat)
    ensures Up(x, 16) == 0x1_0000 * x
  {
    Up8(x);
    Up8(Up(x, 8));
    UpUp(x, 8, 8);
  }

  lemma Up32(x: nat)
    ensures Up(x, 32) == W32 * x && Up(x, 31) == 0x8000_0000 * x
  {
    Up16(x);
    Up16(Up(x, 16));
    UpUp(x, 16, 16);
    assert Up(x, 32) == 2 * Up(x, 31);
  }

  lemma Up64(x: nat)
    ensures Up(x, 64) == W64 * x && Up(x, 63) == 0x8000_0000_0000_0000 * x
  {
    Up32(x);
    Up32(Up(x, 32));
    UpUp(x, 32, 32);
    assert Up(x, 64) == 2 * Up(x, 63);
  }

  lemma {:induction false} Split(x: nat, k: nat)
    ensures x == Up(Shr(x, k), k) + Low(x, k)
    ensures Low(x, k) < Pow2(k)
  {
    if k > 0 { Split(x / 2, k - 1); }
  }

  /** High and low part are determined by x == Up(h, k) + l with l < 2^k. */
  lemma {:induction false} SplitUnique(x: nat, k: nat, h: nat, l: nat)
    requires x == Up(h, k) + l && l < Pow2(k)
    ensures h == Shr(x, k) && l == Low(x, k)
    decreases k
  {
    if k > 0 { SplitUnique(x / 2, k - 1, h, l / 2); }
  }

  lemma {:induction false} ShrShr(x: nat, a: nat, b: nat)
    ensures Shr(Shr(x, a), b) == Shr(x, a + b)
    decreases a
  {
    if a > 0 { ShrShr(x / 2, a - 1, b); }
  }

  lemma LowIsMod(x: nat)
    ensures Low(x, 32) == x % W32 && Shr(x, 32) == x / W32
  {
    Up32(x / W32);
    Up32(1);
    SplitUnique(x, 32, x / W32, x % W32);
  }

  lemma UpBound(x: nat, a: nat, b: nat)
    requires x < Pow2(a)
    ensures Up(x, b) < Pow2(a + b) && Up(x, b) + Pow2(b) <= Pow2(a + b)
  {
    UpMonotone(x + 1, Pow2(a), b);
    UpAdd(x, 1, b);
    UpUp(1, a, b);
    UpMonotone(1, 1, b);
  }

  /** A left shift by s keeps the low 32 - s bits. */
  lemma ShlKeepsLow(x: Word, s: nat)
    requires s <= 32
    ensures Shl(x, s) == Up(Low(x, 32 - s), s)
  {
    hide Up, Shr, Low;
    Split(x, 32 - s);
    var h, l := Shr(x, 32 - s), Low(x, 32 - s);
    UpAdd(Up(h, 32 - s), l, s);
    UpUp(h, 32 - s, s);
    Up32(h);
    Up32(1);
    UpBound(l, 32 - s, s);
    DropMultiple(h, Up(l, s));
  }

  lemma DropMultiple(h: nat, l: Word)
    ensures (W32 * h + l) % W32 == l
  {
  }

  // ----- bitwise operators as arithmetic -----

  lemma {:induction false} AndMask(x: nat, k: nat)
    ensures BitAnd(x, Pow2(k) - 1) == Low(x, k)
    decreases k
  {
    if k > 0 { AndMask(x / 2, k - 1); }
  }

  lemma {:induction false} AndShifted(x: nat, m: nat, k: nat)
    ensures BitAnd(x, Up(m, k)) == Up(BitAnd(Shr(x, k), m), k)
    decreases k
  {
    if k > 0 {
      AndShifted(x / 2, m, k - 1);
      UpZero(k - 1);
      if x == 0 { ShrZero(k); }
    }
  }

  lemma {:induction false} UpZero(k: nat)
    ensures Up(0, k) == 0
  {
    if k > 0 { UpZero(k - 1); }
  }

  lemma {:induction false} ShrZero(k: nat)
    ensures Shr(0, k) == 0
  {
    if k > 0 { ShrZero(k - 1); }
  }

  lemma {:induction false} OrDisjoint(x: nat, y: nat, k: nat)
    requires y < Pow2(k)
    ensures BitOr(Up(x, k), y) == Up(x, k) + y
    decreases k
  {
    if k == 0 { OrZero(x); } else { OrDisjoint(x, y / 2, k - 1); }
  }

  lemma {:induction false} OrZero(x: nat)
    ensures BitOr(x, 0) == x
  {
    if x > 0 { OrZero(x / 2); }
  }

  lemma {:induction false} XorOnes(x: nat, k: nat)
    requires x < Pow2(k)
    ensures BitXor(x, Pow2(k) - 1) == Pow2(k) - 1 - x
    decreases k
  {
    if k > 0 {
      var ones := Pow2(k) - 1;
      assert ones % 2 == 1 && ones / 2 == Pow2(k - 1) - 1;
      XorOnes(x / 2, k - 1);
    }
  }

  lemma {:induction false} XorZero(x: nat)
    ensures BitXor(x, 0) == x
  {
    if x > 0 { XorZero(x / 2); }
  }

  // ----- lengths and trailing zeros -----

  lemma {:induction false} LenBounds(x: nat)
    ensures x < Pow2(Len(x))
    ensures x > 0 ==> Len(x) > 0 && Pow2(Len(x) - 1) <= x
  {
    if x > 0 { LenBounds(x / 2); }
  }

  lemma LenUnique(x: nat, k: nat)
    requires k > 0 && Pow2(k - 1) <= x < Pow2(k)
    ensures Len(x) == k
  {
    hide Up, Len;
    LenBounds(x);
    if Len(x) < k { Pow2Monotone(Len(x), k - 1); }
    if Len(x) > k { Pow2Monotone(k, Len(x) - 1); }
  }

  lemma {:induction false} LenShift(x: nat, k: nat)
    requires x >= Pow2(k)
    ensures Shr(x, k) > 0 && Len(x) == k + Len(Shr(x, k))
    decreases k
  {
    if k > 0 { LenShift(x / 2, k - 1); }
  }

  lemma {:induction false} CtzShift(x: nat, k: nat)
    requires x > 0 && Low(x, k) == 0
    ensures Shr(x, k) > 0 && Ctz(x) == k + Ctz(Shr(x, k))
    decreases k
  {
    if k > 0 { CtzShift(x / 2, k - 1); }
  }

  /** The test d & (d - 1): it is zero exactly for the powers of two. */
  lemma {:induction false} PowerOfTwoTest(d: nat)
    requires d > 0
    ensures BitAnd(d, d - 1) == 0 <==> d == Pow2(Ctz(d))
  {
    if d % 2 == 1 {
      if d > 1 { AndSelf(d / 2); }
    } else {
      PowerOfTwoTest(d / 2);
    }
  }

  lemma {:induction false} AndSelf(x: nat)
    ensures BitAnd(x, x) == x
  {
    if x > 0 { AndSelf(x / 2); }
  }

  // ----- division -----

  /** q * d by repeated addition. */
  function Times(q: nat, d: nat): nat { if q == 0 then 0 else Times(q - 1, d) + d }

  lemma {:induction false} TimesIsProduct(q: nat, d: nat)
    ensures Times(q, d) == q * d
  {
    if q > 0 { TimesIsProduct(q - 1, d); }
  }

  lemma {:induction false} TimesDouble(q: nat, d: nat)
    ensures Times(2 * q, d) == 2 * Times(q, d)
  {
    if q > 0 {
      TimesDouble(q - 1, d);
      assert Times(2 * q, d) == Times(2 * q - 1, d) + d == Times(2 * q - 2, d) + d + d;
    }
  }

  lemma {:induction false} TimesScaled(q: nat, d: nat)
    ensures Times(q, d * W32) == Times(q, d) * W32
  {
    if q > 0 { TimesScaled(q - 1, d); }
  }

  lemma {:induction false} TimesPow2(x: nat, k: nat)
    ensures Times(x, Pow2(k)) == Up(x, k)
  {
    if x == 0 {
      UpZero(k);
    } else {
      TimesPow2(x - 1, k);
      UpAdd(x - 1, 1, k);
    }
  }

  /** q and r are the quotient and remainder of n by d. */
  predicate Divides(n: nat, d: nat, q: nat, r: nat) { n == Times(q, d) + r && r < d }

  lemma {:induction false} TimesMonotone(a: nat, b: nat, d: nat)
    requires a < b
    ensures Times(a, d) + d <= Times(b, d)
    decreases b
  {
    if a < b - 1 { TimesMonotone(a, b - 1, d); }
  }

  lemma DividesUnique(n: nat, d: nat, q: nat, r: nat)
    requires d > 0 && Divides(n, d, q, r)
    ensures q == n / d && r == n % d
  {
    var q', r' := n / d, n % d;
    assert n == d * q' + r';
    TimesIsProduct(q', d);
    if q < q' { TimesMonotone(q, q', d); }
    if q' < q { TimesMonotone(q', q, d); }
  }

  lemma DividesExists(n: nat, d: nat)
    requires d > 0
    ensures n % d < d && Divides(n, d, n / d, n % d)
  {
    TimesIsProduct(n / d, d);
  }
}
