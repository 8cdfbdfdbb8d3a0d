/**
64-bit division out of 32-bit words, as klib's int64.c does it for targets without 64-bit
division: branch-free bit counting, the special cases of __udivmoddi4, its four-word
shift-subtract loop, and the signed wrappers.
*/
module Int64 {
  import opened Bits

  // ----- __clzsi2 and __ctzsi2 -----

  /** One halving step of the leading-zero count of a number of at most 2w digits. */
  lemma ClzStep(x: nat, w: nat)
    requires w > 0 && 0 < x < Pow2(2 * w)
    ensures BitAnd(x, Up(Pow2(w) - 1, w)) == 0 <==> x < Pow2(w)
    ensures x >= Pow2(w) ==> 0 < Shr(x, w) < Pow2(w) && Len(x) == w + Len(Shr(x, w))
  {
    AndShifted(x, Pow2(w) - 1, w);
    AndMask(Shr(x, w), w);
    Split(x, w);
    ShrBound(x, w, w);
    SplitUnique(Shr(x, w), w, 0, Shr(x, w)) by { UpZero(w); }
    if x >= Pow2(w) {
      LenShift(x, w);
    } else {
      UpZero(w);
      SplitUnique(x, w, 0, x);
    }
  }

  lemma ShrBound(x: nat, k: nat, m: nat)
    requires x < Pow2(m + k)
    ensures Shr(x, k) < Pow2(m)
  {
    Split(x, k);
    UpUp(1, m, k);
    UpMonotone(Pow2(m), Shr(x, k), k);
  }

  lemma MaskAll(x: Word)
    ensures BitAnd(x, W32 - 1) == x && BitAnd(x, 0) == 0
  {
    Up32(1);
    AndMask(x, 32);
    LowIsMod(x);
  }

  /** t = ((x & mask) == 0) << log2(w); x >>= w - t: drop the upper half if it is zero. */
  method ClzHalf(x: nat, w: nat, mask: nat) returns (x': nat, t: nat)
    requires w > 0 && 0 < x < Pow2(2 * w) && mask == Up(Pow2(w) - 1, w)
    ensures 0 < x' < Pow2(w) && t <= w && 2 * w - Len(x) == t + (w - Len(x'))
  {
    ClzStep(x, w);
    t := if BitAnd(x, mask) == 0 then w else 0;
    x' := Shr(x, w - t);
  }

  method ClzSi2(a: Word) returns (r: Word)
    requires a != 0
    ensures r == 32 - Len(a)
  {
    hide Len, BitAnd, Up, Shr;
    ClzConstants();
    var x, t := ClzHalf(a, 16, 0xFFFF_0000);
    r := t;
    x, t := ClzHalf(x, 8, 0xFF00);
    r := r + t;
    x, t := ClzHalf(x, 4, 0xF0);
    r := r + t;
    x, t := ClzHalf(x, 2, 0xC);
    r := r + t;
    ClzLast(x);
    r := r + BitAnd((2 - x) % W32, if BitAnd(x, 2) == 0 then W32 - 1 else 0);
  }

  lemma ClzConstants()
    ensures Pow2(32) == W32 && Pow2(16) == 0x1_0000 && Pow2(8) == 0x100 && Pow2(4) == 16 && Pow2(2) == 4
    ensures Up(0xFFFF, 16) == 0xFFFF_0000 && Up(0xFF, 8) == 0xFF00 && Up(15, 4) == 0xF0 && Up(3, 2) == 0xC
  {
    Up8(1); Up16(1); Up32(1);
    Up8(3); Up8(15); Up8(255); Up16(0xFFFF);
  }

  lemma ClzLast(x: nat)
    requires 0 < x < 4
    ensures BitAnd((2 - x) % W32, if BitAnd(x, 2) == 0 then W32 - 1 else 0) == 2 - Len(x)
  {
    MaskAll((2 - x) % W32);
    assert BitAnd(x, 2) == if x >= 2 then 2 else 0;
  }

  /** t = ((x & mask) == 0) << log2(w); x >>= t: drop the lower half if it is zero. */
  method CtzHalf(x: nat, w: nat, mask: nat) returns (x': nat, t: nat)
    requires x > 0 && Ctz(x) < 2 * w && mask == Pow2(w) - 1
    ensures x' > 0 && Ctz(x') < w && t <= w && Ctz(x) == t + Ctz(x')
  {
    AndMask(x, w);
    t := if BitAnd(x, mask) == 0 then w else 0;
    CtzShift(x, t);
    x' := Shr(x, t);
    if t == 0 && Ctz(x) >= w { LowOfMultiple(x, w); }
  }

  lemma {:induction false} LowOfMultiple(x: nat, k: nat)
    requires x > 0 && Ctz(x) >= k
    ensures Low(x, k) == 0
    decreases k
  {
    if k > 0 { LowOfMultiple(x / 2, k - 1); }
  }

  lemma {:induction false} CtzSmall(x: nat, k: nat)
    requires 0 < x < Pow2(k)
    ensures Ctz(x) < k
    decreases k
  {
    if x % 2 == 0 { CtzSmall(x / 2, k - 1); }
  }

  method CtzSi2(a: Word) returns (r: Word)
    requires a != 0
    ensures r == Ctz(a)
  {
    hide Ctz, BitAnd, Up, Shr;
    ClzConstants();
    CtzSmall(a, 32);
    var x, t := CtzHalf(a, 16, 0xFFFF);
    r := t;
    x, t := CtzHalf(x, 8, 0xFF);
    r := r + t;
    x, t := CtzHalf(x, 4, 0xF);
    r := r + t;
    x, t := CtzHalf(x, 2, 3);
    CtzLast(x);
    x := BitAnd(x, 3);
    r := r + t;
    r := r + BitAnd(2 - x / 2, if BitAnd(x, 1) == 0 then W32 - 1 else 0);
  }

  lemma CtzLast(x: nat)
    requires x > 0 && Ctz(x) < 2
    ensures var y := BitAnd(x, 3);
      0 < y < 4 && BitAnd(2 - y / 2, if BitAnd(y, 1) == 0 then W32 - 1 else 0) == Ctz(x)
  {
    Up8(1);
    AndMask(x, 2);
    assert Low(x, 2) == x % 2 + 2 * Low(x / 2, 1) && Low(x / 2, 1) == x / 2 % 2;
    var y := BitAnd(x, 3);
    AndMask(y, 1);
    assert Low(y, 1) == y % 2;
    MaskAll(2 - y / 2);
    if x % 2 == 0 { assert Ctz(x) == 1 + Ctz(x / 2); }
  }

  // ----- words and double words -----

  function Join(h: Word, l: Word): DWord { h * W32 + l }
  function High(x: DWord): Word { x / W32 }
  function Lower(x: DWord): Word { x % W32 }

  const S63: DWord := 0x8000_0000_0000_0000

  lemma JoinUp(h: Word, l: Word)
    ensures Join(h, l) == Up(h, 32) + l
  {
    Up32(h);
  }

  // ----- the shift-subtract loop -----

  /** One digit of long division: r:q shifted left by one with the carry coming in. */
  lemma ShiftWords(qh: Word, ql: Word, rh: Word, rl: Word, carry: nat)
    requires carry <= 1
    ensures BitOr(Shl(rh, 1), Shr(rl, 31)) < W32 && BitOr(Shl(rl, 1), Shr(qh, 31)) < W32
    ensures BitOr(Shl(qh, 1), Shr(ql, 31)) < W32 && BitOr(Shl(ql, 1), carry) < W32
    ensures var top := if Join(qh, ql) >= S63 then 1 else 0;
      Join(BitOr(Shl(rh, 1), Shr(rl, 31)), BitOr(Shl(rl, 1), Shr(qh, 31))) == (2 * Join(rh, rl) + top) % W64
    ensures Join(BitOr(Shl(qh, 1), Shr(ql, 31)), BitOr(Shl(ql, 1), carry)) == (2 * Join(qh, ql) + carry) % W64
  {
    hide Up, Shr, Low, BitOr, BitAnd, Shl;
    ShiftPair(rh, rl, TopBit(qh));
    ShiftPair(qh, ql, carry);
    TopBitOf(qh);
  }

  lemma ShiftPair(h: Word, l: Word, bit: nat)
    requires bit <= 1
    ensures BitOr(Shl(h, 1), Shr(l, 31)) < W32 && BitOr(Shl(l, 1), bit) < W32
    ensures Join(BitOr(Shl(h, 1), Shr(l, 31)), BitOr(Shl(l, 1), bit)) == (2 * Join(h, l) + bit) % W64
  {
    hide Up, Shr, Low, BitOr, BitAnd, Shl;
    TopBitOf(l);
    ShiftWord(h, TopBit(l));
    ShiftWord(l, bit);
    DoubleJoin(h, l, bit);
  }

  lemma DoubleJoin(h: Word, l: Word, bit: nat)
    requires bit <= 1
    ensures (2 * Join(h, l) + bit) % W64 ==
      (2 * h + TopBit(l) - W32 * TopBit(h)) * W32 + (2 * l + bit - W32 * TopBit(l))
  {
    var x := (2 * h + TopBit(l) - W32 * TopBit(h)) * W32 + (2 * l + bit - W32 * TopBit(l));
    assert 2 * Join(h, l) + bit == x + W64 * TopBit(h);
    assert 0 <= x < W64;
  }

  function TopBit(x: Word): nat { if x >= 0x8000_0000 then 1 else 0 }

  lemma TopBitOf(x: Word)
    ensures Shr(x, 31) == TopBit(x)
  {
    Up32(TopBit(x));
    Up32(1);
    SplitUnique(x, 31, TopBit(x), x - 0x8000_0000 * TopBit(x));
  }

  lemma ShiftWord(x: Word, bit: nat)
    requires bit <= 1
    ensures BitOr(Shl(x, 1), bit) == 2 * x + bit - W32 * TopBit(x)
  {
    assert Up(x, 1) == 2 * Up(x, 0) == 2 * x;
    var y := 2 * x - W32 * TopBit(x);
    assert Shl(x, 1) == y;
    assert Up(y / 2, 1) == 2 * Up(y / 2, 0) == y;
    assert Pow2(1) == 2 * Pow2(0) == 2;
    OrDisjoint(y / 2, bit, 1);
  }

  /** The branch-free comparison: (d - r - 1) >> 63 is all ones exactly when r >= d, as long as
      the two differ by less than 2^63. */
  function SignMask(x: DWord): DWord { if x >= S63 then W64 - 1 else 0 }

  lemma SubtractStep(d: DWord, r: DWord)
    requires d > 0 && (r < d ==> d - r <= S63) && (d <= r ==> r - d < S63)
    ensures var s := SignMask((d - r - 1) % W64);
      && BitAnd(s, 1) == (if r >= d then 1 else 0)
      && (r - BitAnd(d, s)) % W64 == if r >= d then r - d else r
  {
    Up64(1);
    AndMask(d, 64);
    Split(d, 64);
    UpZero(64);
    SplitUnique(d, 64, 0, d);
    AndOne(W64 - 1);
  }

  lemma AndOne(x: nat)
    ensures BitAnd(x, 1) == x % 2
  {
    assert Pow2(1) == 2 * Pow2(0) == 2;
    AndMask(x, 1);
    assert Low(x, 1) == x % 2 + 2 * Low(x / 2, 0);
  }

  /** With k digits of n still to come: r is the remainder of the digits seen so far, q holds the
      digits to come above the quotient digits, whose last one is still the carry. */
  ghost predicate LoopState(n: DWord, d: DWord, k: nat, quotient: nat, q: DWord, r: DWord, carry: nat) {
    && k <= 63 && carry == quotient % 2 && quotient < Pow2(64 - k)
    && Divides(Shr(n, k), d, quotient, r)
    && q == Up(Low(n, k), 64 - k) + quotient / 2
  }

  lemma NextDigit(n: DWord, k: nat)
    requires 0 < k <= 63
    ensures var b := if Low(n, k) >= Pow2(k - 1) then 1 else 0;
      && Shr(n, k - 1) == 2 * Shr(n, k) + b
      && Low(n, k) == Low(n, k - 1) + Up(b, k - 1)
  {
    Split(n, k);
    Split(n, k - 1);
    var b := if Low(n, k) >= Pow2(k - 1) then 1 else 0;
    UpAdd(2 * Shr(n, k), b, k - 1);
    UpUp(Shr(n, k), 1, k - 1);
    assert Up(Shr(n, k), 1) == 2 * Up(Shr(n, k), 0);
    UpZero(k - 1);
    SplitUnique(n, k - 1, 2 * Shr(n, k) + b, Low(n, k) - Up(b, k - 1));
  }

  /** The digit that leaves q is the next digit of n, and the rest moves up. */
  lemma ShiftQ(n: DWord, k: nat, quotient: nat, q: DWord, carry: nat)
    requires 0 < k <= 63 && carry == quotient % 2 && quotient < Pow2(64 - k)
    requires q == Up(Low(n, k), 64 - k) + quotient / 2
    ensures (q >= S63) == (Low(n, k) >= Pow2(k - 1))
    ensures (2 * q + carry) % W64 == Up(Low(n, k - 1), 65 - k) + quotient
  {
    hide Up, Shr, Low;
    NextDigit(n, k);
    Split(n, k - 1);
    var lo := Low(n, k - 1);
    var b := if Low(n, k) >= Pow2(k - 1) then 1 else 0;
    UpAdd(lo, Up(b, k - 1), 64 - k);
    UpUp(b, k - 1, 64 - k);
    Up64(b);
    Up64(1);
    UpBound(lo, k - 1, 64 - k);
    UpStep(lo, 64 - k);
    UpZero(k - 1);
    UpZero(64);
  }

  lemma QuotientStep(q: nat, d: nat, r: nat, top: nat)
    requires r < d && top <= 1
    ensures var c := if 2 * r + top >= d then 1 else 0;
      Divides(2 * (Times(q, d) + r) + top, d, 2 * q + c, if c == 1 then 2 * r + top - d else 2 * r + top)
  {
    TimesDouble(q, d);
  }

  lemma LoopStep(n: DWord, d: DWord, k: nat, quotient: nat, q: DWord, r: DWord, carry: nat)
    requires 0 < k && LoopState(n, d, k, quotient, q, r, carry) && (d < S63 || (k == 1 && n >= S63))
    ensures var top := if q >= S63 then 1 else 0;
      && 2 * r + top < W64
      && (2 * r + top < d ==> d - (2 * r + top) <= S63)
      && (d <= 2 * r + top ==> 2 * r + top - d < S63)
      && var c := if 2 * r + top >= d then 1 else 0;
      LoopState(n, d, k - 1, 2 * quotient + c, (2 * q + carry) % W64,
                if c == 1 then 2 * r + top - d else 2 * r + top, c)
  {
    ShiftQ(n, k, quotient, q, carry);
    NextDigit(n, k);
    var top := if q >= S63 then 1 else 0;
    var c := if 2 * r + top >= d then 1 else 0;
    QuotientStep(quotient, d, r, top);
    if d >= S63 {
      assert Shr(n, 0) == n;
      LastDigit(n, d, quotient, r, top);
    }
    UpStep(1, 64 - k);
  }

  lemma TimesGrows(q: nat, d: nat)
    ensures q > 0 ==> Times(q, d) >= d
  {
  }

  /** A divisor of 64 digits is compared once, with n itself. */
  lemma LastDigit(n: DWord, d: DWord, quotient: nat, r: nat, top: nat)
    requires d >= S63 && n == 2 * (Times(quotient, d) + r) + top
    ensures 2 * r + top == n
  {
    TimesGrows(quotient, d);
  }

  /** r:q = (r:q << 1) | carry, word by word. */
  method ShiftLeft(rh: Word, rl: Word, qh: Word, ql: Word, carry: nat)
    returns (rh': Word, rl': Word, qh': Word, ql': Word)
    requires carry <= 1
    ensures Join(rh', rl') == (2 * Join(rh, rl) + if Join(qh, ql) >= S63 then 1 else 0) % W64
    ensures Join(qh', ql') == (2 * Join(qh, ql) + carry) % W64
  {
    ShiftWords(qh, ql, rh, rl, carry);
    rh' := BitOr(Shl(rh, 1), Shr(rl, 31));
    rl' := BitOr(Shl(rl, 1), Shr(qh, 31));
    qh' := BitOr(Shl(qh, 1), Shr(ql, 31));
    ql' := BitOr(Shl(ql, 1), carry);
  }

  /** if (r >= d) r -= d, without a branch. */
  method Subtract(d: DWord, rh: Word, rl: Word) returns (rh': Word, rl': Word, carry: nat)
    requires d > 0
    requires var r := Join(rh, rl); (r < d ==> d - r <= S63) && (d <= r ==> r - d < S63)
    ensures var r := Join(rh, rl);
      carry == (if r >= d then 1 else 0) && Join(rh', rl') == if r >= d then r - d else r
  {
    var r := Join(rh, rl);
    SubtractStep(d, r);
    var s := SignMask((d - r - 1) % W64);
    carry := BitAnd(s, 1);
    r := (r - BitAnd(d, s)) % W64;
    rh', rl' := High(r), Lower(r);
  }

  method ShiftSubtract(ghost n: DWord, d: DWord, sr: nat, qh0: Word, ql0: Word, rh0: Word, rl0: Word)
    returns (q: DWord, rem: DWord)
    requires 0 < sr <= 63 && LoopState(n, d, sr, 0, Join(qh0, ql0), Join(rh0, rl0), 0)
    requires d > 0 && (d < S63 || (sr == 1 && n >= S63))
    ensures Divides(n, d, q, rem)
  {
    hide LoopState, Divides, Up, Shr, Low;
    var qh: Word, ql: Word, rh: Word, rl: Word := qh0, ql0, rh0, rl0;
    var carry: nat, k := 0, sr;
    ghost var quotient: nat := 0;
    while k > 0
      invariant LoopState(n, d, k, quotient, Join(qh, ql), Join(rh, rl), carry)
      invariant k <= sr && carry <= 1 && (k > 0 ==> d < S63 || (k == 1 && n >= S63))
    {
      ghost var q0, r0, c0 := Join(qh, ql), Join(rh, rl), carry;
      LoopStep(n, d, k, quotient, q0, r0, c0);
      rh, rl, qh, ql := ShiftLeft(rh, rl, qh, ql, carry);
      ghost var r1 := 2 * r0 + if q0 >= S63 then 1 else 0;
      assert Join(rh, rl) == r1;
      rh, rl, carry := Subtract(d, rh, rl);
      assert Join(qh, ql) == (2 * q0 + c0) % W64;
      assert Join(rh, rl) == if carry == 1 then r1 - d else r1;
      quotient := 2 * quotient + carry;
      k := k - 1;
    }
    q := (2 * Join(qh, ql) + carry) % W64;
    rem := Join(rh, rl);
    LoopEnd(n, d, quotient, Join(qh, ql), rem, carry);
  }

  lemma LoopEnd(n: DWord, d: DWord, quotient: nat, q: DWord, r: DWord, carry: nat)
    requires LoopState(n, d, 0, quotient, q, r, carry)
    ensures (2 * q + carry) % W64 == quotient && Divides(n, d, quotient, r)
  {
    UpZero(64);
    Up64(1);
  }

  // ----- the words the loop starts from -----

  /** r = n >> sr and q = n << (64 - sr), for sr below, at and above 32. */
  ghost predicate Aligned(n: DWord, sr: nat, q: DWord, r: DWord) {
    0 < sr < 64 && r == Shr(n, sr) && q == Up(Low(n, sr), 64 - sr)
  }

  lemma OrShl(x: Word, y: Word, s: nat)
    requires 0 < s < 32
    ensures BitOr(Shl(x, 32 - s), Shr(y, s)) == Up(Low(x, s), 32 - s) + Shr(y, s) < W32
  {
    hide Up, Shr, Low, BitOr, BitAnd, Shl;
    ShlKeepsLow(x, 32 - s);
    Up32(1);
    ShrBound(y, s, 32 - s);
    OrDisjoint(Low(x, s), Shr(y, s), 32 - s);
    Split(x, s);
    UpBound(Low(x, s), s, 32 - s);
  }

  /** The right shift of two words by less than 32. */
  lemma ShiftRightSmall(h: Word, l: Word, s: nat)
    requires 0 < s < 32
    ensures BitOr(Shl(h, 32 - s), Shr(l, s)) < W32
    ensures Join(Shr(h, s), BitOr(Shl(h, 32 - s), Shr(l, s))) == Shr(Join(h, l), s)
    ensures Low(Join(h, l), s) == Low(l, s)
  {
    hide Up, Shr, Low, BitOr, BitAnd, Shl;
    OrShl(h, l, s);
    Split(h, s);
    Split(l, s);
    var r := Up(Shr(h, s), 32) + (Up(Low(h, s), 32 - s) + Shr(l, s));
    JoinUp(Shr(h, s), Up(Low(h, s), 32 - s) + Shr(l, s));
    JoinUp(h, l);
    UpAdd(Up(Shr(h, s), s), Low(h, s), 32);
    UpUp(Shr(h, s), s, 32);
    UpAdd(Up(Shr(h, s), 32), Up(Low(h, s), 32 - s) + Shr(l, s), s);
    UpAdd(Up(Low(h, s), 32 - s), Shr(l, s), s);
    UpUp(Shr(h, s), 32, s);
    UpUp(Low(h, s), 32 - s, s);
    assert Join(h, l) == Up(r, s) + Low(l, s);
    SplitUnique(Join(h, l), s, r, Low(l, s));
  }

  lemma AlignSmall(h: Word, l: Word, sr: nat)
    requires 0 < sr < 32
    ensures BitOr(Shl(h, 32 - sr), Shr(l, sr)) < W32
    ensures Aligned(Join(h, l), sr, Join(Shl(l, 32 - sr), 0), Join(Shr(h, sr), BitOr(Shl(h, 32 - sr), Shr(l, sr))))
  {
    hide Up, Shr, Low, BitOr, BitAnd, Shl;
    ShiftRightSmall(h, l, sr);
    ShlKeepsLow(l, 32 - sr);
    JoinUp(Shl(l, 32 - sr), 0);
    UpUp(Low(l, sr), 32 - sr, 32);
  }

  lemma AlignMiddle(h: Word, l: Word)
    ensures Aligned(Join(h, l), 32, Join(l, 0), Join(0, h))
  {
    JoinUp(h, l);
    JoinUp(l, 0);
    Up32(1);
    SplitUnique(Join(h, l), 32, h, l);
  }

  lemma AlignLarge(h: Word, l: Word, sr: nat)
    requires 32 < sr < 64
    ensures BitOr(Shl(h, 64 - sr), Shr(l, sr - 32)) < W32
    ensures Aligned(Join(h, l), sr,
      Join(BitOr(Shl(h, 64 - sr), Shr(l, sr - 32)), Shl(l, 64 - sr)), Join(0, Shr(h, sr - 32)))
  {
    hide Up, Shr, Low, BitOr, BitAnd, Shl;
    var s := sr - 32;
    OrShl(h, l, s);
    ShlKeepsLow(l, 32 - s);
    Split(h, s);
    Split(l, s);
    var lo := Up(Low(h, s), 32) + l;
    assert lo < Pow2(sr) by {
      Up32(1);
      UpBound(Low(h, s), s, 32);
    }
    assert Join(h, l) == Up(Shr(h, s), sr) + lo by {
      JoinUp(h, l);
      UpAdd(Up(Shr(h, s), s), Low(h, s), 32);
      UpUp(Shr(h, s), s, 32);
    }
    SplitUnique(Join(h, l), sr, Shr(h, s), lo);
    var qh := Up(Low(h, s), 32 - s) + Shr(l, s);
    assert Join(qh, Shl(l, 32 - s)) == Up(lo, 32 - s) by {
      JoinUp(qh, Shl(l, 32 - s));
      UpAdd(Up(Low(h, s), 32 - s), Shr(l, s), 32);
      UpUp(Low(h, s), 32 - s, 32);
      UpUp(Low(h, s), 32, 32 - s);
      UpAdd(Up(Low(h, s), 32), l, 32 - s);
      UpAdd(Up(Shr(l, s), s), Low(l, s), 32 - s);
      UpUp(Shr(l, s), s, 32 - s);
    }
  }

  /** q.all = n.all << (64 - sr) and r.all = n.all >> sr on the words. */
  method Align(nh: Word, nl: Word, sr: nat) returns (qh: Word, ql: Word, rh: Word, rl: Word)
    requires 0 < sr < 64
    ensures Aligned(Join(nh, nl), sr, Join(qh, ql), Join(rh, rl))
  {
    if sr == 32 {
      AlignMiddle(nh, nl);
      qh, ql, rh, rl := nl, 0, 0, nh;
    } else if sr < 32 {
      AlignSmall(nh, nl, sr);
      qh, ql := Shl(nl, 32 - sr), 0;
      rh, rl := Shr(nh, sr), BitOr(Shl(nh, 32 - sr), Shr(nl, sr));
    } else {
      AlignLarge(nh, nl, sr);
      qh, ql := BitOr(Shl(nh, 64 - sr), Shr(nl, sr - 32)), Shl(nl, 64 - sr);
      rh, rl := 0, Shr(nh, sr - 32);
    }
  }

  // ----- __udivmoddi4 -----

  lemma LenJoin(h: Word, l: Word)
    requires h > 0
    ensures Len(Join(h, l)) == 32 + Len(h)
  {
    JoinUp(h, l);
    Up32(1);
    UpMonotone(1, h, 32);
    SplitUnique(Join(h, l), 32, h, l);
    LenShift(Join(h, l), 32);
  }

  /** Aligning the leading digits of n one place below those of d gives a state the loop can
      start from. */
  lemma StartLoop(n: DWord, d: DWord, sr: nat, q: DWord, r: DWord)
    requires d > 0 && n > 0 && Aligned(n, sr, q, r) && sr == Len(n) - Len(d) + 1
    ensures LoopState(n, d, sr, 0, q, r, 0)
    ensures d < S63 || (sr == 1 && n >= S63)
  {
    LenBounds(n);
    LenBounds(d);
    ShrBound(n, sr, Len(d) - 1);
    UpMonotone(0, 1, 64 - sr);
    UpZero(64 - sr);
    Up64(1);
    if d >= S63 {
      LenUnique(d, 64);
      if Len(n) > 64 { Pow2Monotone(64, Len(n) - 1); }
      assert Len(n) == 64;
    }
  }

  lemma LenWord(x: Word)
    requires x > 0
    ensures 1 <= Len(x) <= 32
  {
    LenBounds(x);
    Up32(1);
    if Len(x) > 32 { Pow2Monotone(32, Len(x) - 1); }
  }

  lemma LenOrder(x: nat, y: nat)
    requires Len(x) < Len(y)
    ensures x < y
  {
    LenBounds(x);
    LenBounds(y);
    Pow2Monotone(Len(x), Len(y) - 1);
  }

  /** Anything but a power of two has at least two digits. */
  lemma LenNotPower(d: Word)
    requires d > 0 && BitAnd(d, d - 1) != 0
    ensures Len(d) >= 2
  {
    assert d != 1;
  }

  lemma ShiftDivides(n: nat, d: nat, k: nat)
    requires d == Pow2(k)
    ensures Divides(n, d, Shr(n, k), Low(n, k))
  {
    Split(n, k);
    TimesPow2(Shr(n, k), k);
  }

  /** n / (dh:0) only looks at the high word. */
  lemma HighDivides(nh: Word, nl: Word, dh: Word, q: nat, r: nat)
    requires Divides(nh, dh, q, r)
    ensures r < W32 && Divides(Join(nh, nl), Join(dh, 0), q, Join(r, nl))
  {
    TimesScaled(q, dh);
  }

  lemma DividesByOne(n: nat, x: nat)
    ensures Divides(n, 1, n, BitAnd(x, 0)) && BitAnd(x, 0) == 0
  {
    TimesPow2(n, 0);
  }

  lemma NoneDivides(n: nat, d: nat)
    requires n < d
    ensures Divides(n, d, 0, n)
  {
  }

  method UDivMod(a: DWord, b: DWord) returns (q: DWord, rem: DWord)
    requires b != 0
    ensures q == a / b && rem == a % b
  {
    var nh, nl, dh, dl := High(a), Lower(a), High(b), Lower(b);
    if nh == 0 {
      if dh == 0 {
        DividesExists(nl, dl);
        q, rem := nl / dl, nl % dl;
      } else {
        NoneDivides(a, b);
        q, rem := 0, nl;
      }
    } else if dl == 0 {
      q, rem := DivideByHigh(nh, nl, dh);
    } else if dh == 0 {
      q, rem := DivideByLow(nh, nl, dl);
    } else {
      q, rem := DivideByBoth(nh, nl, dh, dl);
    }
    DividesUnique(a, b, q, rem);
  }

  /** The general case, once the leading digits are aligned. */
  method LongDivide(nh: Word, nl: Word, d: DWord, sr: nat) returns (q: DWord, rem: DWord)
    requires d > 0 && nh > 0 && 0 < sr < 64 && sr == Len(Join(nh, nl)) - Len(d) + 1
    ensures Divides(Join(nh, nl), d, q, rem)
  {
    var qh, ql, rh, rl := Align(nh, nl, sr);
    StartLoop(Join(nh, nl), d, sr, Join(qh, ql), Join(rh, rl));
    q, rem := ShiftSubtract(Join(nh, nl), d, sr, qh, ql, rh, rl);
  }

  /** K X / K 0 */
  method DivideByHigh(nh: Word, nl: Word, dh: Word) returns (q: DWord, rem: DWord)
    requires nh > 0 && dh > 0
    ensures Divides(Join(nh, nl), Join(dh, 0), q, rem)
  {
    hide Up, Shr, Low, Divides, Len, Ctz, BitAnd, Times;
    if nl == 0 {
      DividesExists(nh, dh);
      HighDivides(nh, 0, dh, nh / dh, nh % dh);
      return nh / dh, Join(nh % dh, 0);
    }
    PowerOfTwoTest(dh);
    if BitAnd(dh, dh - 1) == 0 {
      var k := CtzSi2(dh);
      AndMask(nh, k);
      ShiftDivides(nh, dh, k);
      HighDivides(nh, nl, dh, Shr(nh, k), Low(nh, k));
      return Shr(nh, k), Join(BitAnd(nh, dh - 1), nl);
    }
    LenNotPower(dh); LenWord(dh); LenWord(nh);
    var cd := ClzSi2(dh);
    var cn := ClzSi2(nh);
    var sr: Word := (cd - cn) % W32;
    if sr > 30 {
      LenOrder(nh, dh);
      NoneDivides(Join(nh, nl), Join(dh, 0));
      return 0, Join(nh, nl);
    }
    sr := sr + 1;
    LenJoin(nh, nl); LenJoin(dh, 0);
    q, rem := LongDivide(nh, nl, Join(dh, 0), sr);
  }

  /** K X / 0 K */
  method DivideByLow(nh: Word, nl: Word, dl: Word) returns (q: DWord, rem: DWord)
    requires nh > 0 && dl > 0
    ensures Divides(Join(nh, nl), dl, q, rem)
  {
    hide Shr, Low, Divides, Len, Ctz, BitAnd, Times;
    PowerOfTwoTest(dl);
    if BitAnd(dl, dl - 1) == 0 {
      if dl == 1 {
        DividesByOne(Join(nh, nl), nl);
        return Join(nh, nl), BitAnd(nl, dl - 1);
      }
      var k := CtzSi2(dl);
      PowerRange(dl, k);
      AndMask(nl, k);
      ShiftRightSmall(nh, nl, k);
      ShiftDivides(Join(nh, nl), dl, k);
      return Join(Shr(nh, k), BitOr(Shl(nh, 32 - k), Shr(nl, k))), BitAnd(nl, dl - 1);
    }
    LenNotPower(dl); LenWord(dl); LenWord(nh); LenJoin(nh, nl);
    var cd := ClzSi2(dl);
    var cn := ClzSi2(nh);
    var sr := 1 + 32 + cd - cn;
    q, rem := LongDivide(nh, nl, dl, sr);
  }

  lemma PowerRange(d: Word, k: nat)
    requires d > 1 && d == Pow2(k)
    ensures 0 < k < 32
  {
    Up32(1);
    if k >= 32 { Pow2Monotone(32, k); }
  }

  /** K X / K K */
  method DivideByBoth(nh: Word, nl: Word, dh: Word, dl: Word) returns (q: DWord, rem: DWord)
    requires nh > 0 && dh > 0
    ensures Divides(Join(nh, nl), Join(dh, dl), q, rem)
  {
    hide Up, Shr, Low, Divides, Len, Ctz, BitAnd, Times;
    LenWord(dh); LenWord(nh);
    var cd := ClzSi2(dh);
    var cn := ClzSi2(nh);
    var sr: Word := (cd - cn) % W32;
    if sr > 31 {
      LenOrder(nh, dh);
      NoneDivides(Join(nh, nl), Join(dh, dl));
      return 0, Join(nh, nl);
    }
    sr := sr + 1;
    LenJoin(nh, nl); LenJoin(dh, dl);
    q, rem := LongDivide(nh, nl, Join(dh, dl), sr);
  }

  // ----- the signed wrappers -----

  /** The two's-complement reading of a double word. */
  function Signed(x: DWord): int { if x < S63 then x else x - W64 }

  function Wrap(x: int): DWord { x % W64 }

  function Abs(x: int): nat { if x < 0 then -x else x }

  /** C division: the quotient truncated toward zero, the remainder with the sign of the dividend. */
  function TruncDiv(x: int, y: int): int
    requires y != 0
  {
    if (x < 0) == (y < 0) then Abs(x) / Abs(y) else -(Abs(x) / Abs(y))
  }

  function TruncMod(x: int, y: int): int
    requires y != 0
  {
    if x < 0 then -(Abs(x) % Abs(y)) else Abs(x) % Abs(y)
  }

  /** Section 6.5.5 of C11: (x/y)*y + x%y is x, and the remainder is smaller than the divisor. */
  lemma TruncLaw(x: int, y: int)
    requires y != 0
    ensures x == TruncDiv(x, y) * y + TruncMod(x, y)
    ensures Abs(TruncMod(x, y)) < Abs(y)
  {
    var q, r := Abs(x) / Abs(y), Abs(x) % Abs(y);
    assert Abs(x) == Abs(y) * q + r;
    MulSigns(q, y);
  }

  lemma MulSigns(q: int, y: int)
    ensures (-q) * y == -(q * y) && q * (-y) == -(q * y) && y * q == q * y
  {
  }

  /** (x ^ s) - s: x for s = 0, its negation for s = -1. */
  function Negated(x: DWord, s: DWord): DWord
    requires s == 0 || s == W64 - 1
  {
    XorBound(x, s);
    (BitXor(x, s) - s) % W64
  }

  lemma XorBound(x: DWord, s: DWord)
    requires s == 0 || s == W64 - 1
    ensures BitXor(x, s) == if s == 0 then x else W64 - 1 - x
  {
    hide Up, BitXor;
    Up64(1);
    XorZero(x);
    XorOnes(x, 64);
  }

  lemma NegatedValue(x: DWord, s: DWord)
    requires s == 0 || s == W64 - 1
    ensures var i: int := x; Negated(x, s) == Wrap(if s == 0 then i else -i)
    ensures s == SignMask(x) ==> Negated(x, s) == Abs(Signed(x))
  {
    hide BitXor;
    XorBound(x, s);
  }

  lemma XorMasks(s: DWord, t: DWord)
    requires (s == 0 || s == W64 - 1) && (t == 0 || t == W64 - 1)
    ensures BitXor(s, t) == if s == t then 0 else W64 - 1
  {
    hide BitXor;
    XorBound(s, t);
  }

  method DivDi3(a: DWord, b: DWord) returns (q: DWord)
    requires b != 0
    ensures q == Wrap(TruncDiv(Signed(a), Signed(b)))
  {
    hide BitXor;
    var sa, sb := SignMask(a), SignMask(b);
    NegatedValue(a, sa);
    NegatedValue(b, sb);
    var x, y := Negated(a, sa), Negated(b, sb);
    XorMasks(sa, sb);
    sa := BitXor(sa, sb);
    var u, _ := UDivMod(x, y);
    NegatedValue(u, sa);
    q := Negated(u, sa);
  }

  method ModDi3(a: DWord, b: DWord) returns (r: DWord)
    requires b != 0
    ensures r == Wrap(TruncMod(Signed(a), Signed(b)))
  {
    hide BitXor;
    var s := SignMask(b);
    NegatedValue(b, s);
    var y := Negated(b, s);
    s := SignMask(a);
    NegatedValue(a, s);
    var x := Negated(a, s);
    var _, u := UDivMod(x, y);
    NegatedValue(u, s);
    r := Negated(u, s);
  }

  /** a - q*b modulo 2^64 is the remainder, even when the quotient does not fit. */
  lemma WrappedRemainder(a: DWord, b: DWord, q: DWord)
    requires b != 0 && q == Wrap(TruncDiv(Signed(a), Signed(b)))
    ensures Wrap(a - q * b) == Wrap(TruncMod(Signed(a), Signed(b)))
  {
    var x, y := Signed(a), Signed(b);
    var t := TruncDiv(x, y);
    TruncLaw(x, y);
    var i, j, k := (a - x) / W64, (b - y) / W64, (t - q) / W64;
    assert a == x + i * W64 && b == y + j * W64 && q == t - k * W64;
    ProductWrap(t, k, y, j);
    var m := i - (t * j - k * y - k * j * W64);
    assert a - q * b == TruncMod(x, y) + m * W64;
    WrapMultiple(TruncMod(x, y), m);
  }

  lemma ProductWrap(t: int, k: int, y: int, j: int)
    ensures (t - k * W64) * (y + j * W64) == t * y + (t * j - k * y - k * j * W64) * W64
  {
  }

  lemma WrapMultiple(x: int, m: int)
    ensures Wrap(x + m * W64) == Wrap(x)
  {
  }

  method DivModDi4(a: DWord, b: DWord) returns (d: DWord, rem: DWord)
    requires b != 0
    ensures d == Wrap(TruncDiv(Signed(a), Signed(b))) && rem == Wrap(TruncMod(Signed(a), Signed(b)))
  {
    d := DivDi3(a, b);
    WrappedRemainder(a, b, d);
    rem := Wrap(a - d * b);
  }

  // ----- __ctzdi2 and __clzdi2 -----

  lemma CtzHigh(h: Word)
    requires h > 0
    ensures Ctz(Join(h, 0)) == 32 + Ctz(h)
  {
    hide Ctz, Up, Shr, Low;
    JoinUp(h, 0);
    Up32(1);
    SplitUnique(Join(h, 0), 32, h, 0);
    CtzShift(Join(h, 0), 32);
  }

  lemma CtzLow(h: Word, l: Word)
    requires l > 0
    ensures Ctz(Join(h, l)) == Ctz(l)
  {
    Up32(1);
    JoinUp(h, l);
    CtzOfSum(h, l, 32);
  }

  lemma {:induction false} CtzOfSum(h: nat, l: nat, k: nat)
    requires 0 < l < Pow2(k)
    ensures Ctz(Up(h, k) + l) == Ctz(l)
    decreases k
  {
    if l % 2 == 0 { CtzOfSum(h, l / 2, k - 1); }
  }

  method CtzDi2(a: DWord) returns (r: Word)
    requires a != 0
    ensures r == Ctz(a)
  {
    hide Ctz;
    var h, l := High(a), Lower(a);
    var f: Word := if l == 0 then W32 - 1 else 0;
    SelectWord(h, l, f);
    var x := BitOr(BitAnd(h, f), BitAnd(l, W32 - 1 - f));
    if l == 0 { CtzHigh(h); } else { CtzLow(h, l); }
    Up32(1);
    CtzSmall(x, 32);
    r := CtzSi2(x);
    MaskAll(32);
    r := r + BitAnd(32, f);
  }

  method ClzDi2(a: DWord) returns (r: Word)
    requires a != 0
    ensures r == 64 - Len(a)
  {
    hide Len;
    var h, l := High(a), Lower(a);
    var f: Word := if h == 0 then W32 - 1 else 0;
    SelectWord(h, l, W32 - 1 - f);
    var x := BitOr(BitAnd(h, W32 - 1 - f), BitAnd(l, f));
    if h != 0 { LenJoin(h, l); }
    r := ClzSi2(x);
    MaskAll(32);
    r := r + BitAnd(32, f);
  }

  /** (h & f) | (l & ~f) picks one of two words. */
  lemma SelectWord(h: Word, l: Word, f: Word)
    requires f == 0 || f == W32 - 1
    ensures BitOr(BitAnd(h, f), BitAnd(l, W32 - 1 - f)) == if f == 0 then l else h
  {
    MaskAll(h);
    MaskAll(l);
    OrZero(h);
    OrZeroLeft(l);
  }

  lemma {:induction false} OrZeroLeft(x: nat)
    ensures BitOr(0, x) == x
  {
    if x > 0 { OrZeroLeft(x / 2); }
  }
}
