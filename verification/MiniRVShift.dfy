/**
The shift macros sll, srl, sra, srli and srai: four lookups in a table of shifted bytes, put
together by additions that never carry.
*/
module MiniRVShift {
  import opened Bits
  import opened MiniRV

  // ----- shifting bit-disjoint sums -----

  lemma {:induction false} ShrDisjoint(h: nat, l: nat, k: nat, a: nat)
    requires l < Pow2(k)
    ensures Shr(Up(h, k) + l, a) == Shr(Up(h, k), a) + Shr(l, a)
    decreases a
  {
    if a > 0 {
      if k == 0 {
        ShrZero(a);
      } else {
        ShrDisjoint(h, l / 2, k - 1, a - 1);
      }
    }
  }

  lemma {:induction false} LowDisjoint(h: nat, l: nat, k: nat, n: nat)
    requires l < Pow2(k)
    ensures Low(Up(h, k) + l, n) == Low(Up(h, k), n) + Low(l, n)
    decreases n
  {
    if n > 0 {
      if k == 0 {
        LowZero(n);
      } else {
        LowDisjoint(h, l / 2, k - 1, n - 1);
      }
    }
  }

  lemma {:induction false} LowZero(n: nat)
    ensures Low(0, n) == 0
  {
    if n > 0 { LowZero(n - 1); }
  }

  /** The same for the low n digits after a shift: the two parts never meet. */
  lemma {:induction false} LowShrDisjoint(h: nat, l: nat, k: nat, a: nat, n: nat)
    requires l < Pow2(k)
    ensures Low(Shr(Up(h, k) + l, a), n) == Low(Shr(Up(h, k), a), n) + Low(Shr(l, a), n)
    decreases a
  {
    if a == 0 {
      LowDisjoint(h, l, k, n);
    } else if k == 0 {
      ShrZero(a);
      LowZero(n);
    } else {
      LowShrDisjoint(h, l / 2, k - 1, a - 1, n);
    }
  }

  /** A number and its complement share no digit. */
  lemma {:induction false} ShrComplement(l: nat, k: nat, a: nat)
    requires l < Pow2(k)
    ensures Shr(Pow2(k) - 1, a) == Shr(l, a) + Shr(Pow2(k) - 1 - l, a)
    decreases a
  {
    if a > 0 {
      if k == 0 {
        ShrZero(a);
      } else {
        var ones := Pow2(k) - 1;
        assert ones / 2 == Pow2(k - 1) - 1 && ones % 2 == 1;
        assert (ones - l) / 2 == ones / 2 - l / 2;
        ShrComplement(l / 2, k - 1, a - 1);
      }
    }
  }

  lemma Shr8(v: nat)
    ensures Shr(v, 8) == v / 256 && Low(v, 8) == v % 256
  {
    hide Up, Shr, Low;
    Up8(1);
    Up8(v / 256);
    SplitUnique(v, 8, v / 256, v % 256);
  }

  lemma ShrBytes(v: nat)
    ensures Shr(v, 8) == v / 256 && Shr(v, 16) == v / 65536 && Shr(v, 24) == v / 16777216
  {
    hide Shr, Low;
    Shr8(v);
    Shr8(Shr(v, 8));
    Shr8(Shr(v, 16));
    ShrShr(v, 8, 8);
    ShrShr(v, 16, 8);
  }

  // ----- what the bytes of the table entries add up to -----

  function Num24(x0: int, x1: int, x2: int): int { x0 + 256 * x1 + 65536 * x2 }

  /** A byte i at position 8p, shifted right by a. */
  function Part(i: nat, p: nat, a: nat): nat { Shr(Up(i, p), a) }

  lemma PartDown(i: nat, p: nat, d: nat, a: nat)
    requires d <= p
    ensures Shr(Part(i, p, a), d) == Part(i, p - d, a)
    ensures Part(i, p, a + d) == Part(i, p - d, a)
  {
    hide Up, Shr;
    ShrShr(Up(i, p), a, d);
    ShrShr(Up(i, p), d, a);
    ShrUp(i, p, d);
  }

  lemma {:induction false} ShrUp(i: nat, p: nat, d: nat)
    requires d <= p
    ensures Shr(Up(i, p), d) == Up(i, p - d)
    decreases d
  {
    if d > 0 { ShrUp(i, p - 1, d - 1); }
  }

  /** The bytes of a table entry y, in terms of the byte it was made from. */
  lemma EntryBytes(i: Byte, a: nat)
    ensures Part(i, 24, a) < W32
    ensures var y := Part(i, 24, a);
      && ByteOf(y, 1) == Part(i, 16, a) % 256 && ByteOf(y, 2) == Part(i, 16, a) / 256 % 256
      && ByteOf(y, 3) == Part(i, 16, a) / 65536
      && ByteOf(y, 2) == Part(i, 8, a) % 256 && ByteOf(y, 3) == Part(i, 8, a) / 256
      && ByteOf(y, 3) == Part(i, 0, a)
  {
    hide Up, Shr, Part;
    PartBound(i, a);
    var y := Part(i, 24, a);
    PartDown(i, 24, 8, a);
    PartDown(i, 24, 16, a);
    PartDown(i, 24, 24, a);
    ShrBytes(y);
  }

  lemma PartBound(i: Byte, a: nat)
    ensures Part(i, 24, a) < W32
  {
    hide Up;
    Up16(i);
    Up8(Up(i, 16));
    UpUp(i, 16, 8);
  }

  /** Digits n and up of the parts of a 24-bit number. */
  lemma PartsAdd(x0: Byte, x1: Byte, x2: Byte, a: nat)
    ensures var l := Num24(x0, x1, x2);
      && Shr(l, a) == Part(x2, 16, a) + Part(x1, 8, a) + Part(x0, 0, a)
      && Low(Shr(l, a), 8) == Low(Part(x2, 16, a), 8) + Low(Part(x1, 8, a), 8) + Low(Part(x0, 0, a), 8)
  {
    hide Up, Shr, Low;
    Up8(1); Up16(1); Up8(x1); Up16(x2);
    assert Up(x0, 0) == x0 by { UpNothing(x0); }
    var l1: int := x0 as int + 256 * x1;
    ShrDisjoint(x1, x0, 8, a);
    ShrDisjoint(x2, l1, 16, a);
    LowShrDisjoint(x1, x0, 8, a, 8);
    LowShrDisjoint(x2, l1, 16, a, 8);
  }

  lemma UpNothing(x: nat)
    ensures Up(x, 0) == x
  {
  }

  /** The byte sums of shift_right_template do not carry, and together are the low 24 bits shifted. */
  lemma RightParts(x0: Byte, x1: Byte, x2: Byte, a: nat)
    ensures Part(x0, 24, a) < W32 && Part(x1, 24, a) < W32 && Part(x2, 24, a) < W32
    ensures var y0, y1, y2 := Part(x0, 24, a), Part(x1, 24, a), Part(x2, 24, a);
      var s0: int := ByteOf(y2, 1) as int + ByteOf(y1, 2) + ByteOf(y0, 3);
      var s1: int := ByteOf(y2, 2) as int + ByteOf(y1, 3);
      s0 < 256 && s1 < 256 && Pack(s0, s1, ByteOf(y2, 3), 0) == Shr(Num24(x0, x1, x2), a)
  {
    hide Up, Shr, Low, Part, Pack, ByteOf;
    var l: nat := Num24(x0, x1, x2);
    EntryBytes(x0, a);
    EntryBytes(x1, a);
    EntryBytes(x2, a);
    var p, q, r := Part(x2, 16, a), Part(x1, 8, a), Part(x0, 0, a);
    PartsAdd(x0, x1, x2, a);
    PartsAdd(x0, x1, x2, a + 8);
    ShrShr(l, a, 8);
    ShrSmall(l, a);
    var v := Shr(l, a);
    NoCarry(x0, x1, x2, a);
  }

  lemma ShrSmall(l: nat, a: nat)
    ensures Shr(l, a) <= l
  {
  }

  lemma PackSums(p: nat, q: nat, r: nat)
    requires p < 16777216 && q < 65536 && r < 256
    requires p % 256 + q % 256 + r < 256 && p / 256 % 256 + q / 256 < 256
    ensures Pack(p % 256 + q % 256 + r, p / 256 % 256 + q / 256, p / 65536, 0) == p + q + r
  {
  }

  lemma PartBounds(x0: Byte, x1: Byte, x2: Byte, a: nat)
    ensures Part(x2, 16, a) < 16777216 && Part(x1, 8, a) < 65536 && Part(x0, 0, a) < 256
  {
    hide Up, Shr;
    Up16(x2); Up8(x1); UpNothing(x0);
    ShrSmall(Up(x2, 16), a);
    ShrSmall(Up(x1, 8), a);
    ShrSmall(Up(x0, 0), a);
  }

  lemma NoCarryLow(x0: Byte, x1: Byte, x2: Byte, a: nat)
    ensures Part(x2, 16, a) % 256 + Part(x1, 8, a) % 256 + Part(x0, 0, a) % 256 < 256
  {
    hide Up, Shr, Low, Part;
    PartsAdd(x0, x1, x2, a);
    Shr8(Part(x2, 16, a)); Shr8(Part(x1, 8, a)); Shr8(Part(x0, 0, a));
    Shr8(Shr(Num24(x0, x1, x2), a));
  }

  lemma NoCarry(x0: Byte, x1: Byte, x2: Byte, a: nat)
    ensures var p, q, r := Part(x2, 16, a), Part(x1, 8, a), Part(x0, 0, a);
      && p / 65536 < 256 && q / 256 < 256 && r < 256
      && p % 256 + q % 256 + r < 256 && p / 256 % 256 + q / 256 < 256
      && Pack(p % 256 + q % 256 + r, p / 256 % 256 + q / 256, p / 65536, 0) == p + q + r
  {
    hide Up, Shr, Low, Part, Pack;
    var p, q, r := Part(x2, 16, a), Part(x1, 8, a), Part(x0, 0, a);
    PartBounds(x0, x1, x2, a);
    NoCarryLow(x0, x1, x2, a);
    NoCarryLow(x0, x1, x2, a + 8);
    PartShift(x2, 16, a); PartShift(x1, 8, a);
    Shr8(p); Shr8(q);
    PackSums(p, q, r);
  }

  lemma PartShift(i: nat, p: nat, a: nat)
    ensures Part(i, p, a + 8) == Shr(Part(i, p, a), 8)
  {
    ShrShr(Up(i, p), a, 8);
  }

  // ----- the RV32I result -----

  function Low24(x: Word): nat { x % 16777216 }

  /** srl and sra are the table entry of the top byte plus the shifted low 24 bits. */
  lemma RightShift(x: Word, a: nat)
    requires a < 32
    ensures var z: Word := ByteOf(x, 3) as int * 16777216;
      && Shr(x, a) == Shr(z, a) + Shr(Low24(x), a)
      && Sra(x, a) == Sra(z, a) + Shr(Low24(x), a)
  {
    hide Up, Shr;
    var h: nat, l := ByteOf(x, 3), Low24(x);
    Up24(h);
    Up24(1);
    ShrDisjoint(h, l, 24, a);
    if x >= 0x8000_0000 {
      var h': nat, ones: nat := 255 - h, 16777215;
      Up24(h');
      ShrDisjoint(h', ones - l, 24, a);
      ShrDisjoint(h', ones, 24, a);
      ShrComplement(l, 24, a);
    }
  }

  lemma Up24(x: nat)
    ensures Up(x, 24) == 16777216 * x
  {
    hide Up;
    Up16(x);
    Up8(Up(x, 16));
    UpUp(x, 16, 8);
  }

  lemma ShlAdd(x: Word, y: Word, a: nat)
    requires x + y < W32
    ensures Shl(x + y, a) == (Shl(x, a) + Shl(y, a)) % W32
  {
    hide Up;
    UpAdd(x, y, a);
    ModAdd(Up(x, a), Up(y, a));
  }

  lemma ModAdd(u: nat, v: nat)
    ensures (u + v) % W32 == (u % W32 + v % W32) % W32
  {
    var i, j, p, q := u / W32, v / W32, u % W32, v % W32;
    assert u + v == W32 * (i + j) + (p + q);
    if p + q < W32 {
      DropMultiple(i + j, p + q);
    } else {
      DropMultiple(i + j + 1, p + q - W32);
      DropMultiple(1, p + q - W32);
    }
  }

  /** sll is the sum of its shifted bytes, each at its own place. */
  lemma LeftShift(x: Word, a: nat)
    ensures var t0, t1, t2, t3 :=
        Shl(ByteOf(x, 0), a), Shl(ByteOf(x, 1), a), Shl(ByteOf(x, 2), a), Shl(ByteOf(x, 3), a);
      Shl(x, a) == (((Shl(t3, 24) + Shl(t2, 16)) % W32 + Shl(t1, 8)) % W32 + t0) % W32
  {
    hide Shl;
    var b0, b1, b2, b3 := ByteOf(x, 0), ByteOf(x, 1), ByteOf(x, 2), ByteOf(x, 3);
    ShlShl(b3, a, 24); ShlShl(b3, 24, a);
    ShlShl(b2, a, 16); ShlShl(b2, 16, a);
    ShlShl(b1, a, 8); ShlShl(b1, 8, a);
    BytePlaces(b0, b1, b2, b3);
    var z3, z2, z1 := Shl(b3, 24), Shl(b2, 16), Shl(b1, 8);
    PackBytes(x);
    ShlAdd(z3, z2, a);
    ShlAdd(z3 + z2, z1, a);
    ShlAdd(z3 + z2 + z1, b0, a);
  }

  lemma BytePlaces(b0: Byte, b1: Byte, b2: Byte, b3: Byte)
    ensures Shl(b3, 24) as int + Shl(b2, 16) + Shl(b1, 8) + b0 == Pack(b0, b1, b2, b3)
  {
    hide Up;
    Up24(b3); Up16(b2); Up8(b1);
  }

  /** Sra is the arithmetic shift: the signed value divided by 2^a, rounded down. */
  lemma SraRoundsDown(x: Word, a: nat)
    requires a < 32
    ensures var s := Signed(Sra(x, a));
      && (Signed(x) >= 0 ==> s >= 0 && Up(s, a) <= Signed(x) < Up(s, a) + Pow2(a))
      && (Signed(x) < 0 ==> s < 0 && 0 <= Signed(x) + Up(-s, a) < Pow2(a))
  {
    hide Up, Shr, Low;
    if x < 0x8000_0000 {
      Split(x, a);
      ShrSmall(x, a);
    } else {
      var n := W32 - 1 - x;
      Split(n, a);
      ShrSmall(n, a);
      UpAdd(Shr(n, a), 1, a);
    }
  }

  // ----- table access -----

  predicate IsShiftTable(table: nat) { table == SLL8 || table == SRL8 || table == SRA8 }

  lemma LutWord(m: Memory, lut: nat, table: nat, j: nat, i: Byte)
    requires Lut(m, lut) && IsShiftTable(table) && j < 32
    ensures lut + table + 1024 * j + 4 * i + 4 <= W32
    ensures LoadWord(m, lut + table + 1024 * j + 4 * i) == ShiftEntry(table, j, i)
  {
    hide ShiftEntry, Pack, ByteOf;
    var k := table + 1024 * j + 4 * i;
    EntryIndex(table, j, i);
    assert m[lut + k] == LutByte(k) && m[lut + (k + 1)] == LutByte(k + 1);
    assert m[lut + (k + 2)] == LutByte(k + 2) && m[lut + (k + 3)] == LutByte(k + 3);
    PackBytes(ShiftEntry(table, j, i));
  }

  lemma EntryIndex(table: nat, j: nat, i: Byte)
    requires IsShiftTable(table) && j < 32
    ensures forall b :: 0 <= b < 4 ==> var k := table + 1024 * j + 4 * i + b;
      k < LUT_SIZE && LutByte(k) == ByteOf(ShiftEntry(table, j, i), b)
  {
    hide ShiftEntry, ByteOf;
    forall b | 0 <= b < 4
      ensures var k := table + 1024 * j + 4 * i + b; k < LUT_SIZE && LutByte(k) == ByteOf(ShiftEntry(table, j, i), b)
    {
      var k := table + 1024 * j + 4 * i + b;
      var e := (k - table) / 4;
      assert e == 256 * j + i && k % 4 == b;
      assert e / 256 == j && e % 256 == i;
    }
  }

  lemma {:induction false} AndSymmetric(x: nat, y: nat)
    ensures BitAnd(x, y) == BitAnd(y, x)
  {
    if x != 0 && y != 0 { AndSymmetric(x / 2, y / 2); }
  }

  lemma ShamtEntry(m: Memory, lut: nat, b: Byte)
    requires Lut(m, lut)
    ensures m[lut + 0x1f00 + b] == b % 32
  {
    hide BitAnd, Up, Low;
    var k := 0x1f00 + b;
    assert m[lut + k] == LutByte(k);
    AndSymmetric(0x1f, b);
    Low5(b);
    AndMask(b, 5);
  }

  lemma Low5(b: nat)
    ensures Pow2(5) == 32 && Low(b, 5) == b % 32
  {
    hide Low, Shr;
    assert Pow2(5) == 32;
    Up8(b / 32);
    assert Up(b / 32, 5) == 32 * (b / 32) by { UpStep(b / 32, 4); }
    SplitUnique(b, 5, b / 32, b % 32);
  }

  /** getshamt s0, rs2: the shift amount, through the row 0x1f of the and table. */
  method GetShamt(m: Machine, rs2: Reg)
    requires m.Ready() && Lut(m.mem, m.lay.lut) && Clear(m.lay.lut, LUT_SIZE, m.regs[SP])
    modifies m`regs, m`mem
    ensures SameRegs(old(m.regs), m.regs, {S0, TP}) && m.regs[S0] == old(m.regs)[rs2] % 32
    ensures m.mem == old(m.mem)[m.regs[SP] - 20 := old(m.regs)[rs2] % 256] && Lut(m.mem, m.lay.lut)
  {
    hide Lut, LutByte;
    ghost var b := m.regs[rs2] % 256;
    ModMod(m.regs[rs2]);
    m.StoreByte(rs2, VAR_B, 0);
    LutKept(old(m.mem), m.mem, m.lay.lut, m.regs[SP]);
    ShamtEntry(m.mem, m.lay.lut, b);
    m.LoadByte(S0, VAR_B, 0);
    m.La(TP, m.lay.lut + 0x1f00);
    m.Add(S0, S0, TP);
    assert m.regs[S0] == m.lay.lut + 0x1f00 + b;
    m.Lbu(S0, 0, S0);
  }

  lemma ModMod(v: Word)
    ensures v % 256 % 32 == v % 32
  {
  }

  /** s0 = the row of the table for the shift amount in rs2. */
  method RowAddress(m: Machine, table: nat, rs2: Reg)
    requires m.Ready() && Lut(m.mem, m.lay.lut) && Clear(m.lay.lut, LUT_SIZE, m.regs[SP]) && IsShiftTable(table)
    modifies m`regs, m`mem
    ensures SameRegs(old(m.regs), m.regs, {S0, TP})
    ensures m.regs[S0] == m.lay.lut + table + 1024 * (old(m.regs)[rs2] as int % 32)
    ensures forall a :: 0 <= a < W32 && !(m.regs[SP] - 20 <= a < m.regs[SP] - 16) ==> m.mem[a] == old(m.mem)[a]
    ensures Lut(m.mem, m.lay.lut)
  {
    hide Lut, LutByte, Shl, Pack, ByteOf;
    ghost var shamt := m.regs[rs2] % 32;
    GetShamt(m, rs2);
    ZeroBytes();
    m.Store(X0, VAR_B);
    m.StoreByte(S0, VAR_B, 1);
    m.Load(S0, VAR_B);
    RowOffset(shamt);
    m.SlliSmall(S0, S0, 2);
    m.La(TP, m.lay.lut + table);
    m.Add(S0, S0, TP);
    LutKept(old(m.mem), m.mem, m.lay.lut, m.regs[SP]);
  }

  lemma RowOffset(shamt: Word)
    requires shamt < 32
    ensures Shl(Pack(0, shamt, 0, 0), 2) == 1024 * shamt as int
  {
    hide Up;
    Up8(Pack(0, shamt, 0, 0));
  }

  /** get_shift_byte_in_tp: the table entry for byte b of VAR_A. */
  method ShiftByte(m: Machine, ghost table: nat, ghost a: nat, b: nat)
    requires m.Ready() && Lut(m.mem, m.lay.lut) && IsShiftTable(table) && a < 32 && b < 4
    requires m.regs[S0] == m.lay.lut + table + 1024 * a
    modifies m`regs
    ensures SameRegs(old(m.regs), m.regs, {TP})
    ensures m.regs[TP] == ShiftEntry(table, a, m.mem[m.regs[SP] - 16 + b])
  {
    hide Lut, LutByte, Shl, ShiftEntry, LoadWord;
    ghost var x := m.mem[m.regs[SP] - 16 + b];
    LutWord(m.mem, m.lay.lut, table, a, x);
    m.LoadByte(TP, VAR_A, b);
    ByteOffset(x);
    m.SlliSmall(TP, TP, 2);
    m.Add(TP, S0, TP);
    m.Lw(TP, 0, TP);
  }

  lemma ByteOffset(x: Byte)
    ensures Shl(x, 2) == 4 * x as int
  {
    hide Up;
    Up8(x);
  }

  // ----- sll -----

  /** gp = byte 3 shifted and in place; bytes 0 and 1 of VAR_B are left zero. */
  method SllByte3(m: Machine, ghost a: nat)
    requires m.Ready() && Lut(m.mem, m.lay.lut) && Clear(m.lay.lut, LUT_SIZE, m.regs[SP])
    requires a < 32 && m.regs[S0] == m.lay.lut + SLL8 + 1024 * a
    modifies m`regs, m`mem
    ensures SameRegs(old(m.regs), m.regs, {GP, TP})
    ensures m.regs[GP] == Shl(Shl(old(m.mem)[m.regs[SP] - 13], a), 24)
    ensures m.mem[m.regs[SP] - 20] == 0 && m.mem[m.regs[SP] - 19] == 0
    ensures SameOutside(old(m.mem), m.mem, m.regs[SP], VAR_B) && Lut(m.mem, m.lay.lut)
  {
    hide Lut, LutByte, Shl, Pack, ByteOf;
    var sp := m.regs[SP];
    ZeroBytes();
    ShlBytes(Shl(m.mem[sp - 13], a));
    m.Store(X0, VAR_B);
    LutKept(old(m.mem), m.mem, m.lay.lut, sp);
    ShiftByte(m, SLL8, a, 3);
    m.StoreByte(TP, VAR_B, 3);
    LutKept(old(m.mem), m.mem, m.lay.lut, sp);
    m.Load(GP, VAR_B);
  }

  /** gp grows by byte 2, shifted and in place. */
  method SllByte2(m: Machine, ghost a: nat)
    requires m.Ready() && Lut(m.mem, m.lay.lut) && Clear(m.lay.lut, LUT_SIZE, m.regs[SP])
    requires a < 32 && m.regs[S0] == m.lay.lut + SLL8 + 1024 * a
    requires m.mem[m.regs[SP] - 20] == 0 && m.mem[m.regs[SP] - 19] == 0
    modifies m`regs, m`mem
    ensures SameRegs(old(m.regs), m.regs, {GP, TP})
    ensures m.regs[GP] == (old(m.regs)[GP] + Shl(Shl(old(m.mem)[m.regs[SP] - 14], a), 16)) % W32
    ensures SameOutside(old(m.mem), m.mem, m.regs[SP], VAR_B) && Lut(m.mem, m.lay.lut)
  {
    hide Lut, LutByte, Shl, Pack, ByteOf;
    var sp := m.regs[SP];
    ShlBytes(Shl(m.mem[sp - 14], a));
    ShiftByte(m, SLL8, a, 2);
    m.Sh(TP, -4 * VAR_B + 2, SP);
    LutKept(old(m.mem), m.mem, m.lay.lut, sp);
    m.Load(TP, VAR_B);
    m.Add(GP, GP, TP);
  }

  /** gp + tp = all four bytes. */
  method SllBytes(m: Machine, ghost a: nat)
    requires m.Ready() && Lut(m.mem, m.lay.lut) && Clear(m.lay.lut, LUT_SIZE, m.regs[SP])
    requires a < 32 && m.regs[S0] == m.lay.lut + SLL8 + 1024 * a
    modifies m`regs, m`mem
    ensures SameRegs(old(m.regs), m.regs, {GP, TP})
    ensures (m.regs[GP] + m.regs[TP]) % W32 == Shl(LoadWord(old(m.mem), m.regs[SP] - 16), a)
    ensures SameOutside(old(m.mem), m.mem, m.regs[SP], VAR_B)
  {
    hide Lut, LutByte, Shl, Pack, ByteOf;
    var sp := m.regs[SP];
    BytesOfPack(m.mem[sp - 16], m.mem[sp - 15], m.mem[sp - 14], m.mem[sp - 13]);
    LeftShift(LoadWord(m.mem, sp - 16), a);
    SllByte3(m, a);
    SllByte2(m, a);
    ShiftByte(m, SLL8, a, 1);
    m.SlliSmall(TP, TP, 8);
    m.Add(GP, GP, TP);
    ShiftByte(m, SLL8, a, 0);
  }

  lemma SlotKept(mem: Memory, mem': Memory, sp: Word, n: nat)
    requires 28 <= sp && 1 <= n < 7 && SameOutside(mem, mem', sp, n + 1)
    ensures LoadWord(mem', sp - 4 * n) == LoadWord(mem, sp - 4 * n)
  {
  }

  /** s0 pushed, the operand in VAR_A, s0 = the table row for rs2. */
  method PrepareShift(m: Machine, table: nat, rs1: Reg, rs2: Reg)
    requires m.Ready() && m.Loaded() && IsShiftTable(table)
    modifies m`regs, m`mem
    ensures SameRegs(old(m.regs), m.regs, {S0, TP})
    ensures m.regs[S0] == m.lay.lut + table + 1024 * (old(m.regs)[rs2] as int % 32)
    ensures LoadWord(m.mem, m.regs[SP] - 4) == old(m.regs)[S0] && LoadWord(m.mem, m.regs[SP] - 16) == old(m.regs)[rs1]
    ensures SameOutside(old(m.mem), m.mem, m.regs[SP], 1)
    ensures Lut(m.mem, m.lay.lut) && Clear(m.lay.lut, LUT_SIZE, m.regs[SP])
  {
    hide Lut, LutByte, Tables, StoreWord, LoadWord;
    TablesParts(m.mem, m.lay, m.regs[SP]);
    m.Store(S0, 1);
    m.Store(rs1, VAR_A);
    LutKept(old(m.mem), m.mem, m.lay.lut, m.regs[SP]);
    ghost var before := m.mem;
    RowAddress(m, table, rs2);
    LoadSame(before, m.mem, m.regs[SP] - 4);
    LoadSame(before, m.mem, m.regs[SP] - 16);
  }

  method Sll(m: Machine, rd: Reg, rs1: Reg, rs2: Reg)
    requires m.Ready() && m.Loaded() && rd != SP
    modifies m`regs, m`mem
    ensures SameRegs(old(m.regs), m.regs, {rd, GP, TP})
    ensures rd != X0 ==> m.regs[rd] == Shl(old(m.regs)[rs1], old(m.regs)[rs2] % 32)
    ensures SameOutside(old(m.mem), m.mem, m.regs[SP], 1) && m.Loaded()
  {
    hide Lut, LutByte, Tables, LoadWord, Shl;
    PrepareShift(m, SLL8, rs1, rs2);
    ghost var before := m.mem;
    SllBytes(m, old(m.regs)[rs2] % 32);
    SlotKept(before, m.mem, m.regs[SP], 1);
    m.Load(S0, 1);
    m.Add(rd, GP, TP);
    SameIsScratch(old(m.mem), m.mem, m.lay, m.regs[SP], 1);
    TablesKept(old(m.mem), m.mem, m.lay, m.regs[SP]);
  }

  // ----- srl, sra, srli, srai -----

  lemma EntryIsPart(i: Byte, a: nat)
    requires a < 32
    ensures ShiftEntry(SRL8, a, i) == Part(i, 24, a)
  {
    hide Up, Shr;
    Up24(i);
  }

  /** The entries of bytes 2, 1 and 0 in VAR_B, VAR_C and VAR_D. */
  method StoreEntries(m: Machine, ghost a: nat)
    requires m.Ready() && Lut(m.mem, m.lay.lut) && Clear(m.lay.lut, LUT_SIZE, m.regs[SP])
    requires a < 32 && m.regs[S0] == m.lay.lut + SRL8 + 1024 * a
    modifies m`regs, m`mem
    ensures SameRegs(old(m.regs), m.regs, {TP})
    ensures LoadWord(m.mem, m.regs[SP] - 20) == ShiftEntry(SRL8, a, old(m.mem)[m.regs[SP] - 14])
    ensures LoadWord(m.mem, m.regs[SP] - 24) == ShiftEntry(SRL8, a, old(m.mem)[m.regs[SP] - 15])
    ensures LoadWord(m.mem, m.regs[SP] - 28) == ShiftEntry(SRL8, a, old(m.mem)[m.regs[SP] - 16])
    ensures SameOutside(old(m.mem), m.mem, m.regs[SP], VAR_B) && Lut(m.mem, m.lay.lut)
  {
    hide Lut, LutByte, ShiftEntry, StoreWord, LoadWord;
    ShiftByte(m, SRL8, a, 2);
    m.Store(TP, VAR_B);
    LutKept(old(m.mem), m.mem, m.lay.lut, m.regs[SP]);
    ShiftByte(m, SRL8, a, 1);
    m.Store(TP, VAR_C);
    LutKept(old(m.mem), m.mem, m.lay.lut, m.regs[SP]);
    ShiftByte(m, SRL8, a, 0);
    m.Store(TP, VAR_D);
    LutKept(old(m.mem), m.mem, m.lay.lut, m.regs[SP]);
  }

  /** Byte 0 of the sum, stored as the whole word VAR_D. */
  method SumByte0(m: Machine)
    requires m.Ready()
    requires m.mem[m.regs[SP] - 19] as int + m.mem[m.regs[SP] - 22] + m.mem[m.regs[SP] - 25] < 256
    modifies m`regs, m`mem
    ensures SameRegs(old(m.regs), m.regs, {GP, TP})
    ensures var sp := m.regs[SP]; var s0: int := old(m.mem)[sp - 19] as int + old(m.mem)[sp - 22] + old(m.mem)[sp - 25];
      m.mem == old(m.mem)[sp - 28 := s0][sp - 27 := 0][sp - 26 := 0][sp - 25 := 0]
  {
    hide ByteOf;
    ghost var u: int, v: int, w: int := m.mem[m.regs[SP] - 19], m.mem[m.regs[SP] - 22], m.mem[m.regs[SP] - 25];
    m.LoadByte(GP, VAR_B, 1);
    m.LoadByte(TP, VAR_C, 2);
    m.Add(GP, GP, TP);
    assert m.regs[GP] == u + v;
    m.LoadByte(TP, VAR_D, 3);
    m.Add(GP, GP, TP);
    assert m.regs[GP] == u + v + w;
    SmallBytes(m.regs[GP]);
    m.Store(GP, VAR_D);
  }

  lemma SmallBytes(x: Word)
    requires x < 256
    ensures ByteOf(x, 0) == x && ByteOf(x, 1) == 0 && ByteOf(x, 2) == 0 && ByteOf(x, 3) == 0
  {
  }

  /** Byte 1 of the sum, stored as byte 1 of VAR_D. */
  method SumByte1(m: Machine)
    requires m.Ready() && m.mem[m.regs[SP] - 18] as int + m.mem[m.regs[SP] - 21] < 256
    modifies m`regs, m`mem
    ensures SameRegs(old(m.regs), m.regs, {GP, TP})
    ensures var sp := m.regs[SP]; m.mem == old(m.mem)[sp - 27 := old(m.mem)[sp - 18] as int + old(m.mem)[sp - 21]]
  {
    m.LoadByte(GP, VAR_B, 2);
    m.LoadByte(TP, VAR_C, 3);
    m.Add(GP, GP, TP);
    m.StoreByte(GP, VAR_D, 1);
  }

  /** gp = the three byte sums, put together in VAR_D. */
  method SumBytes(m: Machine)
    requires m.Ready()
    requires m.mem[m.regs[SP] - 19] as int + m.mem[m.regs[SP] - 22] + m.mem[m.regs[SP] - 25] < 256
    requires m.mem[m.regs[SP] - 18] as int + m.mem[m.regs[SP] - 21] < 256
    modifies m`regs, m`mem
    ensures SameRegs(old(m.regs), m.regs, {GP, TP})
    ensures var sp := m.regs[SP];
      var s0: int := old(m.mem)[sp - 19] as int + old(m.mem)[sp - 22] + old(m.mem)[sp - 25];
      m.regs[GP] == Pack(s0, old(m.mem)[sp - 18] as int + old(m.mem)[sp - 21], old(m.mem)[sp - 17], 0)
    ensures SameOutside(old(m.mem), m.mem, m.regs[SP], VAR_D)
  {
    hide Pack;
    SumByte0(m);
    SumByte1(m);
    m.LoadByte(GP, VAR_B, 3);
    m.StoreByte(GP, VAR_D, 2);
    m.Load(GP, VAR_D);
  }

  lemma BytesOfLoad(mem: Memory, a: nat)
    requires a + 4 <= W32
    ensures var v := LoadWord(mem, a);
      ByteOf(v, 0) == mem[a] && ByteOf(v, 1) == mem[a + 1] && ByteOf(v, 2) == mem[a + 2] && ByteOf(v, 3) == mem[a + 3]
  {
    BytesOfPack(mem[a], mem[a + 1], mem[a + 2], mem[a + 3]);
  }

  /** gp = the low 24 bits of VAR_A, shifted. */
  method RightLow(m: Machine, ghost a: nat)
    requires m.Ready() && Lut(m.mem, m.lay.lut) && Clear(m.lay.lut, LUT_SIZE, m.regs[SP])
    requires a < 32 && m.regs[S0] == m.lay.lut + SRL8 + 1024 * a
    modifies m`regs, m`mem
    ensures SameRegs(old(m.regs), m.regs, {GP, TP})
    ensures m.regs[GP] == Shr(Low24(LoadWord(old(m.mem), m.regs[SP] - 16)), a)
    ensures SameOutside(old(m.mem), m.mem, m.regs[SP], VAR_B) && Lut(m.mem, m.lay.lut)
  {
    hide Lut, LutByte, ShiftEntry, LoadWord, Shr, Part, Pack, ByteOf, Low24;
    var sp := m.regs[SP];
    ghost var x0, x1, x2 := m.mem[sp - 16], m.mem[sp - 15], m.mem[sp - 14];
    EntryIsPart(x0, a); EntryIsPart(x1, a); EntryIsPart(x2, a);
    RightParts(x0, x1, x2, a);
    Low24OfLoad(m.mem, sp - 16);
    StoreEntries(m, a);
    BytesOfLoad(m.mem, sp - 20); BytesOfLoad(m.mem, sp - 24); BytesOfLoad(m.mem, sp - 28);
    SumBytes(m);
    LutKept(old(m.mem), m.mem, m.lay.lut, sp);
  }

  lemma Low24OfLoad(mem: Memory, a: nat)
    requires a + 4 <= W32
    ensures Low24(LoadWord(mem, a)) == Num24(mem[a], mem[a + 1], mem[a + 2])
  {
  }

  function RightResult(arith: bool, x: Word, a: nat): Word
    requires a < 32
  {
    if arith then Sra(x, a) else Shr(x, a)
  }

  /** gp + tp = the shifted operand, once s0 points to the row. */
  method RightBytes(m: Machine, arith: bool, ghost a: nat)
    requires m.Ready() && Lut(m.mem, m.lay.lut) && Clear(m.lay.lut, LUT_SIZE, m.regs[SP])
    requires a < 32 && m.regs[S0] == m.lay.lut + SRL8 + 1024 * a
    modifies m`regs, m`mem
    ensures SameRegs(old(m.regs), m.regs, {S0, GP, TP})
    ensures m.regs[GP] as int + m.regs[TP] == RightResult(arith, LoadWord(old(m.mem), m.regs[SP] - 16), a)
    ensures SameOutside(old(m.mem), m.mem, m.regs[SP], VAR_B)
  {
    hide Lut, LutByte, LoadWord, Shr, ByteOf, Low24, Sra;
    var sp := m.regs[SP];
    ghost var x := LoadWord(m.mem, sp - 16);
    RightShift(x, a);
    BytesOfLoad(m.mem, sp - 16);
    RightLow(m, a);
    if arith {
      m.La(TP, SRA8 - SRL8);
      m.Add(S0, S0, TP);
      ShiftByte(m, SRA8, a, 3);
    } else {
      ShiftByte(m, SRL8, a, 3);
    }
  }

  /** From the prepared row to rd, restoring s0. */
  method FinishRight(m: Machine, arith: bool, rd: Reg, ghost a: nat)
    requires m.Ready() && Lut(m.mem, m.lay.lut) && Clear(m.lay.lut, LUT_SIZE, m.regs[SP]) && rd != SP
    requires a < 32 && m.regs[S0] == m.lay.lut + SRL8 + 1024 * a
    modifies m`regs, m`mem
    ensures SameRegs(Write(old(m.regs), S0, LoadWord(old(m.mem), old(m.regs)[SP] - 4)), m.regs, {rd, GP, TP})
    ensures rd != X0 ==> m.regs[rd] == RightResult(arith, LoadWord(old(m.mem), m.regs[SP] - 16), a)
    ensures SameOutside(old(m.mem), m.mem, m.regs[SP], VAR_B)
  {
    hide Lut, LoadWord, RightResult;
    RightBytes(m, arith, a);
    SlotKept(old(m.mem), m.mem, m.regs[SP], 1);
    m.Load(S0, 1);
    m.Add(rd, GP, TP);
  }

  /** srl and sra. */
  method ShiftRight(m: Machine, arith: bool, rd: Reg, rs1: Reg, rs2: Reg)
    requires m.Ready() && m.Loaded() && rd != SP
    modifies m`regs, m`mem
    ensures SameRegs(old(m.regs), m.regs, {rd, GP, TP})
    ensures rd != X0 ==> m.regs[rd] == RightResult(arith, old(m.regs)[rs1], old(m.regs)[rs2] % 32)
    ensures SameOutside(old(m.mem), m.mem, m.regs[SP], 1) && m.Loaded()
  {
    hide Lut, Tables, LoadWord, RightResult;
    PrepareShift(m, SRL8, rs1, rs2);
    FinishRight(m, arith, rd, old(m.regs)[rs2] % 32);
    SameIsScratch(old(m.mem), m.mem, m.lay, m.regs[SP], 1);
    TablesKept(old(m.mem), m.mem, m.lay, m.regs[SP]);
  }

  lemma TopByteDecides(x: Word)
    ensures Shr(x, 24) == ByteOf(x, 3) && Sra(x, 24) == ShiftEntry(SRA8, 24, ByteOf(x, 3))
  {
    hide Shr;
    ShrBytes(x);
    ShrBytes(Low24(x));
    RightShift(x, 24);
  }

  /** The fast path for a shift by 24: the top byte alone decides. */
  method ShiftRight24(m: Machine, arith: bool, rd: Reg, rs1: Reg)
    requires m.Ready() && m.Loaded() && rd != SP && rd != TP
    modifies m`regs, m`mem
    ensures SameRegs(old(m.regs), m.regs, {rd, TP})
    ensures rd != X0 ==> m.regs[rd] == RightResult(arith, old(m.regs)[rs1], 24)
    ensures SameOutside(old(m.mem), m.mem, m.regs[SP], VAR_A)
  {
    hide Lut, LutByte, Tables, ShiftEntry, ByteOf, LoadWord, Shr, Sra, Shl;
    ghost var x := m.regs[rs1];
    TopByteDecides(x);
    if !arith {
      m.GetByte(rd, rs1, 3);
    } else {
      TablesParts(m.mem, m.lay, m.regs[SP]);
      m.Store(rs1, VAR_A);
      LutKept(old(m.mem), m.mem, m.lay.lut, m.regs[SP]);
      LookupTop(m, rd, x);
    }
  }

  /** rd = the sra entry for the top byte of VAR_A. */
  method LookupTop(m: Machine, rd: Reg, ghost x: Word)
    requires m.Ready() && Lut(m.mem, m.lay.lut) && rd != SP && rd != TP && LoadWord(m.mem, m.regs[SP] - 16) == x
    modifies m`regs
    ensures SameRegs(old(m.regs), m.regs, {rd, TP})
    ensures rd != X0 ==> m.regs[rd] == ShiftEntry(SRA8, 24, ByteOf(x, 3))
  {
    hide Lut, LutByte, ShiftEntry, ByteOf, LoadWord, Shl;
    ghost var b: int := ByteOf(x, 3);
    BytesOfLoad(m.mem, m.regs[SP] - 16);
    LutWord(m.mem, m.lay.lut, SRA8, 24, b);
    ByteOffset(b);
    m.La(TP, m.lay.lut + SRA8 + 24 * 1024);
    m.LoadByte(rd, VAR_A, 3);
    m.SlliSmall(rd, rd, 2);
    m.Add(TP, TP, rd);
    assert rd != X0 ==> m.regs[TP] == m.lay.lut + SRA8 + 24 * 1024 + 4 * b;
    LutWord(m.mem, m.lay.lut, SRA8, 24, 0);
    m.Lw(rd, 0, TP);
  }

  /** srli and srai. */
  method ShiftRightImm(m: Machine, arith: bool, rd: Reg, rs1: Reg, imm: nat)
    requires m.Ready() && m.Loaded() && rd != SP && rd != TP && imm < 32
    modifies m`regs, m`mem
    ensures SameRegs(old(m.regs), m.regs, {rd, GP, TP})
    ensures rd != X0 ==> m.regs[rd] == RightResult(arith, old(m.regs)[rs1], imm)
    ensures SameOutside(old(m.mem), m.mem, m.regs[SP], 1) && m.Loaded()
  {
    hide Lut, Tables, LoadWord, RightResult, StoreWord;
    if imm == 24 {
      ShiftRight24(m, arith, rd, rs1);
    } else {
      TablesParts(m.mem, m.lay, m.regs[SP]);
      m.Store(S0, 1);
      m.Store(rs1, VAR_A);
      LutKept(old(m.mem), m.mem, m.lay.lut, m.regs[SP]);
      m.La(S0, m.lay.lut + SRL8 + 1024 * imm);
      FinishRight(m, arith, rd, imm);
    }
    SameIsScratch(old(m.mem), m.mem, m.lay, m.regs[SP], 1);
    TablesKept(old(m.mem), m.mem, m.lay, m.regs[SP]);
  }

  // ----- lb, lh, lhu -----

  /** off(base) is memory that no scratch slot overlaps. */
  predicate Outside(regs: Regs, base: Reg, off: int, size: nat) {
    var a := Address(regs[base], off);
    -2048 <= off && off + size <= 2048 && base != TP && base != GP && Clear(a, size, regs[SP])
  }

  function SignExtend8(b: Byte): Word { if b < 128 then b else W32 - 256 + b }
  function SignExtend16(h: nat): Word
    requires h < 65536
  {
    if h < 32768 then h else W32 - 65536 + h
  }

  /** The bytes of a memory half-word. */
  function LoadHalf(m: Memory, a: nat): nat
    requires a + 2 <= W32
  {
    m[a] as int + 256 * (m[a + 1] as int)
  }

  lemma SraTop(b: Byte)
    ensures Sra(Pack(0, 0, 0, b), 24) == SignExtend8(b)
  {
    hide Shr;
    var p := Pack(0, 0, 0, b);
    ShrBytes(p);
    ShrBytes(W32 - 1 - p);
  }

  lemma SraHalf(b: Byte)
    ensures Sra(Pack(0, 0, 0, b), 16) == (SignExtend8(b) as int * 256) % W32
  {
    hide Shr;
    var c: int := b;
    var p := Pack(0, 0, 0, b);
    if b < 128 {
      ShrBytes(p);
      assert p == 65536 * (256 * c);
    } else {
      ShrBytes(W32 - 1 - p);
      assert W32 - 1 - p == 65536 * (256 * (255 - c) + 255) + 65535;
      assert SignExtend8(b) as int * 256 == W32 * 255 + (W32 - 65536 + 256 * c);
      DropMultiple(255, W32 - 65536 + 256 * c);
    }
  }

  method Lb(m: Machine, rd: Reg, off: int, base: Reg)
    requires m.Ready() && m.Loaded() && rd != SP && rd != TP && Outside(m.regs, base, off, 1)
    modifies m`regs, m`mem
    ensures SameRegs(old(m.regs), m.regs, {rd, GP, TP})
    ensures rd != X0 ==> m.regs[rd] == SignExtend8(old(m.mem)[Address(old(m.regs)[base], off)])
    ensures SameOutside(old(m.mem), m.mem, m.regs[SP], 1) && m.Loaded()
  {
    hide Lut, Tables, Pack, ByteOf, Sra, SignExtend8, Address;
    ghost var b := m.mem[Address(m.regs[base], off)];
    ZeroBytes();
    m.Store(X0, VAR_A);
    m.Lbu(rd, off, base);
    m.StoreByte(rd, VAR_A, 3);
    m.Load(rd, VAR_A);
    SraTop(b);
    SameIsScratch(old(m.mem), m.mem, m.lay, m.regs[SP], 1);
    TablesKept(old(m.mem), m.mem, m.lay, m.regs[SP]);
    ShiftRightImm(m, true, rd, rd, 24);
  }

  method Lhu(m: Machine, rd: Reg, off: int, base: Reg)
    requires m.Ready() && rd != SP && rd != TP && Outside(m.regs, base, off, 2)
    modifies m`regs, m`mem
    ensures SameRegs(old(m.regs), m.regs, {rd, TP})
    ensures rd != X0 ==> m.regs[rd] == LoadHalf(old(m.mem), Address(old(m.regs)[base], off))
    ensures SameOutside(old(m.mem), m.mem, m.regs[SP], VAR_A)
  {
    hide Pack, ByteOf, Address;
    NextAddress(m.regs[base], off);
    ZeroBytes();
    m.Store(X0, VAR_A);
    m.Lbu(TP, off + 1, base);
    PackByte1(m.regs[TP]);
    m.StoreByte(TP, VAR_A, 1);
    m.Load(TP, VAR_A);
    m.Lbu(rd, off, base);
    m.Add(rd, rd, TP);
  }

  lemma PackByte1(b: Byte)
    ensures Pack(0, b, 0, 0) == 256 * (b as int)
  {
  }

  lemma HalfSum(lo: Byte, hi: Byte)
    ensures (lo as int + (SignExtend8(hi) as int * 256) % W32) % W32 == SignExtend16(lo as int + 256 * (hi as int))
  {
  }

  /** gp = the sign-extended upper byte, one byte up. */
  method LhUpper(m: Machine, off: int, base: Reg)
    requires m.Ready() && m.Loaded() && Outside(m.regs, base, off, 1)
    modifies m`regs, m`mem
    ensures SameRegs(old(m.regs), m.regs, {GP, TP})
    ensures m.regs[GP] == (SignExtend8(old(m.mem)[Address(old(m.regs)[base], off)]) as int * 256) % W32
    ensures SameOutside(old(m.mem), m.mem, m.regs[SP], 1) && m.Loaded()
  {
    hide Lut, Tables, Pack, ByteOf, Sra, SignExtend8, Address;
    ZeroBytes();
    SraHalf(m.mem[Address(m.regs[base], off)]);
    m.Store(X0, VAR_A);
    m.Lbu(GP, off, base);
    m.StoreByte(GP, VAR_A, 3);
    m.Load(GP, VAR_A);
    SameIsScratch(old(m.mem), m.mem, m.lay, m.regs[SP], 1);
    TablesKept(old(m.mem), m.mem, m.lay, m.regs[SP]);
    ShiftRightImm(m, true, GP, GP, 16);
  }

  method Lh(m: Machine, rd: Reg, off: int, base: Reg)
    requires m.Ready() && m.Loaded() && rd != SP && rd != TP && rd != GP && Outside(m.regs, base, off, 2)
    modifies m`regs, m`mem
    ensures SameRegs(old(m.regs), m.regs, {rd, GP, TP})
    ensures rd != X0 ==> m.regs[rd] == SignExtend16(LoadHalf(old(m.mem), Address(old(m.regs)[base], off)))
    ensures SameOutside(old(m.mem), m.mem, m.regs[SP], 1) && m.Loaded()
  {
    hide Tables, SignExtend8, SignExtend16, Address;
    NextAddress(m.regs[base], off);
    ghost var a := Address(m.regs[base], off);
    HalfSum(m.mem[a], m.mem[a + 1]);
    LhUpper(m, off + 1, base);
    m.Lbu(rd, off, base);
    m.Add(rd, rd, GP);
  }
}
