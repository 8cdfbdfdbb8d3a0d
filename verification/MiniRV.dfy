/**
The minirv machine: RV32I's register file and byte memory, driven by the eight base instructions
add, addi, lui, lw, lbu, sw, sb and jalr.  The other instructions are assembler macros over these,
which use the seven words below sp as scratch variables and byte tables in memory.
*/
module MiniRV {
  import opened Bits

  type Byte = x: int | 0 <= x < 256
  type Reg = r: int | 0 <= r < 32

  const X0: Reg := 0
  const SP: Reg := 2
  const GP: Reg := 3
  const TP: Reg := 4
  const S0: Reg := 8
  const S1: Reg := 9

  // Scratch variables: slot n is the word at sp - 4n.  Slots 1 to 3 hold saved registers.
  const VAR_A: nat := 4
  const VAR_B: nat := 5
  const VAR_C: nat := 6
  const VAR_D: nat := 7

  type Regs = r: seq<Word> | |r| == 32 && r[0] == 0 witness seq(32, _ => 0)
  type Memory = m: seq<Byte> | |m| == W32 ghost witness seq(W32, _ => 0)

  // ----- bytes and words -----

  function ByteOf(v: Word, k: nat): Byte
    requires k < 4
  {
    if k == 0 then v % 256 else if k == 1 then v / 256 % 256 else if k == 2 then v / 65536 % 256 else v / 16777216
  }

  function Pack(b0: Byte, b1: Byte, b2: Byte, b3: Byte): Word {
    b0 + 256 * b1 + 65536 * b2 + 16777216 * b3
  }

  lemma PackBytes(v: Word)
    ensures Pack(ByteOf(v, 0), ByteOf(v, 1), ByteOf(v, 2), ByteOf(v, 3)) == v
  {
    var q1 := v / 256;
    var q2 := q1 / 256;
    var q3 := q2 / 256;
    assert v == 256 * q1 + v % 256 && q1 == 256 * q2 + q1 % 256 && q2 == 256 * q3 + q2 % 256;
    assert v / 65536 == q2 && v / 16777216 == q3;
  }

  lemma BytesOfPack(b0: Byte, b1: Byte, b2: Byte, b3: Byte)
    ensures var v := Pack(b0, b1, b2, b3);
      ByteOf(v, 0) == b0 && ByteOf(v, 1) == b1 && ByteOf(v, 2) == b2 && ByteOf(v, 3) == b3
  {
  }

  function LoadWord(m: Memory, a: nat): Word
    requires a + 4 <= W32
  {
    Pack(m[a], m[a + 1], m[a + 2], m[a + 3])
  }

  function StoreWord(m: Memory, a: nat, v: Word): Memory
    requires a + 4 <= W32
  {
    m[a := ByteOf(v, 0)][a + 1 := ByteOf(v, 1)][a + 2 := ByteOf(v, 2)][a + 3 := ByteOf(v, 3)]
  }

  lemma LoadStore(m: Memory, a: nat, v: Word)
    requires a + 4 <= W32
    ensures LoadWord(StoreWord(m, a, v), a) == v
  {
    hide Pack, ByteOf;
    PackBytes(v);
  }

  /** m' is m with the word v at address w: what the other words and bytes are. */
  ghost predicate Wrote(m: Memory, m': Memory, w: int, v: Word) {
    && 0 <= w && w + 4 <= W32
    && LoadWord(m', w) == v
    && (forall a :: 0 <= a && a + 4 <= W32 && (a + 4 <= w || w + 4 <= a) ==> LoadWord(m', a) == LoadWord(m, a))
    && (forall a :: 0 <= a < W32 && (a < w || w + 4 <= a) ==> m'[a] == m[a])
  }

  lemma StoreWrote(m: Memory, w: nat, v: Word)
    requires w + 4 <= W32
    ensures Wrote(m, StoreWord(m, w, v), w, v)
  {
    hide Pack, ByteOf;
    LoadStore(m, w, v);
  }

  lemma LoadSame(m: Memory, m': Memory, a: nat)
    requires a + 4 <= W32 && forall i :: a <= i < a + 4 ==> m'[i] == m[i]
    ensures LoadWord(m', a) == LoadWord(m, a)
  {
  }

  function Write(r: Regs, rd: Reg, v: Word): Regs { if rd == X0 then r else r[rd := v] }

  /** The address `off(base)`. */
  function Address(base: Word, off: int): Word { (base + off) % W32 }

  // ----- frames -----

  /** Memory outside the scratch slots k to 7 is as before. */
  ghost predicate SameOutside(m: Memory, m': Memory, sp: int, k: nat) {
    forall a :: 0 <= a < W32 && !(sp - 28 <= a < sp - 4 * k + 4) ==> m'[a] == m[a]
  }

  /** Registers other than the given ones are as before. */
  ghost predicate SameRegs(r: Regs, r': Regs, changed: set<int>) {
    forall i :: 0 <= i < 32 && i !in changed ==> r'[i] == r[i]
  }

  // ----- the tables -----

  const OR8: nat := 0x1_0000
  const XOR8: nat := 0x2_0000
  const SLL8: nat := 0x3_0000
  const SRL8: nat := 0x3_8000
  const SRA8: nat := 0x4_0000
  const LUT_SIZE: nat := 0x4_8000

  /** Entry (j, i) of the three shift tables. */
  function ShiftEntry(table: nat, j: nat, i: Byte): Word
    requires j < 32
  {
    if table == SLL8 then Shl(i, j)
    else if table == SRL8 then Shr(i * 16777216, j)
    else Sra(i * 16777216, j)
  }

  /** The byte at offset k of the table file: three byte tables of 256 rows, then three word
      tables of 32 rows, all with 256 columns. */
  function LutByte(k: nat): int
    requires k < LUT_SIZE
  {
    if k < OR8 then BitAnd(k / 256, k % 256)
    else if k < XOR8 then BitOr((k - OR8) / 256, k % 256)
    else if k < SLL8 then BitXor((k - XOR8) / 256, k % 256)
    else
      var table := if k < SRL8 then SLL8 else if k < SRA8 then SRL8 else SRA8;
      var e := (k - table) / 4;
      ByteOf(ShiftEntry(table, e / 256, e % 256), k % 4)
  }

  /** Where the tables and the writable array are. */
  datatype Layout = Layout(lut: nat, same: nat, zero: nat, slt1: nat, sltu1: nat, or1: nat, arr: nat)

  /** [base, base + size) is memory that no scratch slot overlaps. */
  predicate Clear(base: nat, size: nat, sp: int) {
    base + size <= W32 && (base + size <= sp - 28 || sp <= base)
  }

  predicate Apart(base: nat, size: nat, arr: nat) { base + size <= arr || arr + 256 <= base }

  ghost predicate Placed(lay: Layout, sp: int) {
    && Clear(lay.lut, LUT_SIZE, sp) && Apart(lay.lut, LUT_SIZE, lay.arr)
    && Clear(lay.same, 8, sp) && Apart(lay.same, 8, lay.arr)
    && Clear(lay.zero, 256, sp) && Apart(lay.zero, 256, lay.arr)
    && Clear(lay.slt1, 8, sp) && Apart(lay.slt1, 8, lay.arr)
    && Clear(lay.sltu1, 8, sp) && Apart(lay.sltu1, 8, lay.arr)
    && Clear(lay.or1, 4, sp) && Apart(lay.or1, 4, lay.arr)
    && Clear(lay.arr, 256, sp)
  }

  ghost predicate HoldsBytes(m: Memory, base: nat, bytes: seq<int>) {
    base + |bytes| <= W32 && forall k :: 0 <= k < |bytes| ==> m[base + k] == bytes[k]
  }

  ghost predicate Lut(m: Memory, base: nat) {
    base + LUT_SIZE <= W32 && forall k :: 0 <= k < LUT_SIZE ==> m[base + k] == LutByte(k)
  }

  const SAME: seq<int> := [1, 0, 0, 0, 0, 0, 0, 0]
  const OR1: seq<int> := [0, 1, 1, 1]
  const SLT1: seq<int> := [0, 1, 0, 0, 1, 1, 0, 1]
  const SLTU1: seq<int> := [0, 1, 1, 1, 0, 0, 0, 1]

  ghost predicate Tables(m: Memory, lay: Layout, sp: int) {
    && Placed(lay, sp)
    && Lut(m, lay.lut)
    && HoldsBytes(m, lay.same, SAME)
    && HoldsBytes(m, lay.slt1, SLT1)
    && HoldsBytes(m, lay.sltu1, SLTU1)
    && HoldsBytes(m, lay.or1, OR1)
    && m[lay.zero] == 0 && (forall a :: lay.zero < a < lay.zero + 256 ==> m[a] == 1)
  }

  lemma TablesParts(m: Memory, lay: Layout, sp: int)
    requires Tables(m, lay, sp)
    ensures Lut(m, lay.lut) && Clear(lay.lut, LUT_SIZE, sp)
  {
  }

  /** Only scratch slots and the array have changed. */
  ghost predicate OnlyScratch(m: Memory, m': Memory, lay: Layout, sp: int) {
    forall a :: 0 <= a < W32 && !(sp - 28 <= a < sp) && !(lay.arr <= a < lay.arr + 256) ==> m'[a] == m[a]
  }

  lemma TablesKept(m: Memory, m': Memory, lay: Layout, sp: int)
    requires Tables(m, lay, sp) && OnlyScratch(m, m', lay, sp)
    ensures Tables(m', lay, sp)
  {
  }

  /** A table survives any change confined to the scratch slots. */
  lemma LutKept(m: Memory, m': Memory, base: nat, sp: int)
    requires Lut(m, base) && Clear(base, LUT_SIZE, sp) && SameOutside(m, m', sp, 1)
    ensures Lut(m', base)
  {
  }

  lemma SameIsScratch(m: Memory, m': Memory, lay: Layout, sp: int, k: nat)
    requires SameOutside(m, m', sp, k) && k >= 1
    ensures OnlyScratch(m, m', lay, sp)
  {
  }

  class Machine {
    const lay: Layout
    var regs: Regs
    var mem: Memory
    var pc: Word

    constructor (lay: Layout, regs: Regs, mem: Memory, pc: Word)
      ensures this.lay == lay && this.regs == regs && this.mem == mem && this.pc == pc
    {
      this.lay, this.regs, this.mem, this.pc := lay, regs, mem, pc;
    }

    ghost predicate Loaded()
      reads this
    {
      Tables(mem, lay, regs[SP])
    }

    predicate Ready()
      reads this
    {
      28 <= regs[SP]
    }

    // ----- base instructions -----

    method Add(rd: Reg, rs1: Reg, rs2: Reg)
      modifies this`regs
      ensures regs == Write(old(regs), rd, (old(regs)[rs1] + old(regs)[rs2]) % W32)
    {
      regs := Write(regs, rd, (regs[rs1] + regs[rs2]) % W32);
    }

    method Addi(rd: Reg, rs1: Reg, imm: int)
      requires -2048 <= imm < 2048
      modifies this`regs
      ensures regs == Write(old(regs), rd, (old(regs)[rs1] + imm) % W32)
    {
      regs := Write(regs, rd, (regs[rs1] + imm) % W32);
    }

    method Lui(rd: Reg, hi: nat)
      requires hi < 0x10_0000
      modifies this`regs
      ensures regs == Write(old(regs), rd, hi * 4096)
    {
      regs := Write(regs, rd, hi * 4096);
    }

    method Lw(rd: Reg, off: int, rs: Reg)
      requires -2048 <= off < 2048 && Address(regs[rs], off) + 4 <= W32
      modifies this`regs
      ensures regs == Write(old(regs), rd, LoadWord(mem, Address(old(regs)[rs], off)))
    {
      regs := Write(regs, rd, LoadWord(mem, Address(regs[rs], off)));
    }

    method Lbu(rd: Reg, off: int, rs: Reg)
      requires -2048 <= off < 2048
      modifies this`regs
      ensures regs == Write(old(regs), rd, mem[Address(old(regs)[rs], off)])
    {
      regs := Write(regs, rd, mem[Address(regs[rs], off)]);
    }

    method Sw(rs2: Reg, off: int, rs1: Reg)
      requires -2048 <= off < 2048 && Address(regs[rs1], off) + 4 <= W32
      modifies this`mem
      ensures mem == StoreWord(old(mem), Address(regs[rs1], off), regs[rs2])
    {
      mem := StoreWord(mem, Address(regs[rs1], off), regs[rs2]);
    }

    method Sb(rs2: Reg, off: int, rs1: Reg)
      requires -2048 <= off < 2048
      modifies this`mem
      ensures mem == old(mem)[Address(regs[rs1], off) := regs[rs2] % 256]
    {
      mem := mem[Address(regs[rs1], off) := regs[rs2] % 256];
    }

    method Jalr(rd: Reg, rs1: Reg, imm: int)
      requires -2048 <= imm < 2048
      modifies this`regs, this`pc
      ensures regs == Write(old(regs), rd, (old(pc) + 4) % W32)
      ensures pc == (old(regs)[rs1] + imm) % W32 / 2 * 2
    {
      var target := (regs[rs1] + imm) % W32 / 2 * 2;
      regs := Write(regs, rd, (pc + 4) % W32);
      pc := target;
    }

    // ----- scratch variables -----

    /** sw r, SP_VAR(n) */
    method Store(r: Reg, n: nat)
      requires Ready() && 1 <= n <= 7
      modifies this`mem
      ensures mem == StoreWord(old(mem), regs[SP] - 4 * n, regs[r])
      ensures Wrote(old(mem), mem, regs[SP] - 4 * n, regs[r])
    {
      Sw(r, -4 * n, SP);
      StoreWrote(old(mem), regs[SP] - 4 * n, regs[r]);
    }

    /** lw r, SP_VAR(n) */
    method Load(r: Reg, n: nat)
      requires Ready() && 1 <= n <= 7
      modifies this`regs
      ensures regs == Write(old(regs), r, LoadWord(mem, old(regs)[SP] - 4 * n))
    {
      Lw(r, -4 * n, SP);
    }

    method StoreByte(r: Reg, n: nat, b: nat)
      requires Ready() && 1 <= n <= 7 && b < 4
      modifies this`mem
      ensures mem == old(mem)[regs[SP] - 4 * n + b := regs[r] % 256]
    {
      Sb(r, -4 * n + b, SP);
    }

    method LoadByte(r: Reg, n: nat, b: nat)
      requires Ready() && 1 <= n <= 7 && b < 4
      modifies this`regs
      ensures regs == Write(old(regs), r, mem[old(regs)[SP] - 4 * n + b])
    {
      Lbu(r, -4 * n + b, SP);
    }

    /** la rd, addr: lui with the rounded upper part, addi with the signed lower part. */
    method La(rd: Reg, addr: Word)
      modifies this`regs
      ensures regs == Write(old(regs), rd, addr)
    {
      var hi := (addr + 0x800) / 4096 % 0x10_0000;
      var lo := (addr + 0x800) % 4096 - 0x800;
      Lui(rd, hi);
      Addi(rd, rd, lo);
    }

    // ----- getbyte, slli, sh, msb -----

    method GetByte(rd: Reg, rs1: Reg, b: nat)
      requires Ready() && b < 4
      modifies this`regs, this`mem
      ensures regs == Write(old(regs), rd, ByteOf(old(regs)[rs1], b))
      ensures SameOutside(old(mem), mem, old(regs)[SP], VAR_C)
    {
      Store(rs1, VAR_C);
      LoadByte(rd, VAR_C, b);
    }

    /** sh rs, off(base): the low half, byte by byte. */
    method Sh(rs: Reg, off: int, base: Reg)
      requires Ready() && -2048 <= off < 2047 && base != TP
      requires var a := Address(regs[base], off); a + 2 <= W32 && (a + 2 <= regs[SP] - 28 || regs[SP] - 20 <= a)
      modifies this`regs, this`mem
      ensures SameRegs(old(regs), regs, {TP})
      ensures var a := Address(old(regs)[base], off); var v := old(regs)[rs];
        SameOutside(old(mem)[a := ByteOf(v, 0)][a + 1 := ByteOf(v, 1)], mem, old(regs)[SP], VAR_C)
    {
      hide Address;
      NextAddress(regs[base], off);
      Sb(rs, off, base);
      GetByte(TP, rs, 1);
      Sb(TP, off + 1, base);
    }

    method AddDouble(rd: Reg, rs1: Reg, times: nat)
      requires times >= 1
      modifies this`regs
      ensures regs == Write(old(regs), rd, Shl(old(regs)[rs1], times))
    {
      Add(rd, rs1, rs1);
      ShlStep(old(regs)[rs1], 0);
      for i := 1 to times
        invariant regs == Write(old(regs), rd, Shl(old(regs)[rs1], i))
      {
        ShlStep(old(regs)[rs1], i);
        Add(rd, rd, rd);
      }
    }

    /** slli for shift amounts the macro does by doubling. */
    method SlliSmall(rd: Reg, rs1: Reg, imm: nat)
      requires imm < 16
      modifies this`regs
      ensures regs == Write(old(regs), rd, Shl(old(regs)[rs1], imm))
    {
      if imm == 0 {
        if rd != rs1 { Addi(rd, rs1, 0); }
      } else {
        AddDouble(rd, rs1, imm);
      }
    }

    /** slli by 24 to 31: the low byte moved to the top first. */
    method SlliTop(rd: Reg, rs1: Reg, imm: nat)
      requires Ready() && 24 <= imm < 32 && rd != SP
      modifies this`regs, this`mem
      ensures regs == Write(old(regs), rd, Shl(old(regs)[rs1], imm))
      ensures SameOutside(old(mem), mem, regs[SP], VAR_A)
    {
      hide Shl, Up, Pack, ByteOf;
      var x := regs[rs1];
      ZeroBytes();
      ShlBytes(x);
      Store(X0, VAR_A);
      StoreByte(rs1, VAR_A, 3);
      Load(rd, VAR_A);
      ShlShl(x, 24, imm - 24);
      SlliSmall(rd, rd, imm - 24);
    }

    /** slli by 16 to 23: the low half moved up first, through sh and tp. */
    method SlliHalf(rd: Reg, rs1: Reg, imm: nat)
      requires Ready() && 16 <= imm < 24 && rd != SP
      modifies this`regs, this`mem
      ensures SameRegs(old(regs), regs, {rd, TP}) && (rd != X0 ==> regs[rd] == Shl(old(regs)[rs1], imm))
      ensures SameOutside(old(mem), mem, regs[SP], VAR_A)
    {
      hide Shl, Up, Pack, ByteOf;
      var x := regs[rs1];
      ZeroBytes();
      ShlBytes(x);
      Store(X0, VAR_A);
      Sh(rs1, -4 * VAR_A + 2, SP);
      Load(rd, VAR_A);
      ShlShl(x, 16, imm - 16);
      SlliSmall(rd, rd, imm - 16);
    }

    method Slli(rd: Reg, rs1: Reg, imm: nat)
      requires Ready() && imm < 32 && rd != SP
      modifies this`regs, this`mem
      ensures SameRegs(old(regs), regs, {rd, TP}) && (rd != X0 ==> regs[rd] == Shl(old(regs)[rs1], imm))
      ensures SameOutside(old(mem), mem, regs[SP], VAR_A)
    {
      hide Shl, Up;
      if imm >= 24 {
        SlliTop(rd, rs1, imm);
      } else if imm >= 16 {
        SlliHalf(rd, rs1, imm);
      } else {
        SlliSmall(rd, rs1, imm);
      }
    }

    /** msb rd, rs1: the sign bit. */
    method Msb(rd: Reg, rs1: Reg)
      requires Ready() && rd != SP
      modifies this`regs, this`mem
      ensures regs == Write(old(regs), rd, if old(regs)[rs1] >= 0x8000_0000 then 1 else 0)
      ensures SameOutside(old(mem), mem, regs[SP], VAR_C)
    {
      GetByte(rd, rs1, 3);
      ShlStep(regs[rd], 0);
      SlliSmall(rd, rd, 1);
      GetByte(rd, rd, 1);
    }
  }

  lemma ZeroBytes()
    ensures ByteOf(0, 0) == 0 && ByteOf(0, 1) == 0 && ByteOf(0, 2) == 0 && ByteOf(0, 3) == 0
  {
  }

  /** Shifts by whole bytes, as bytes. */
  lemma ShlBytes(x: Word)
    ensures Shl(x, 24) == Pack(0, 0, 0, x % 256)
    ensures Shl(x, 16) == Pack(0, 0, ByteOf(x, 0), ByteOf(x, 1))
    ensures Shl(x, 8) == Pack(0, ByteOf(x, 0), ByteOf(x, 1), ByteOf(x, 2))
  {
    hide Up, Pack, ByteOf;
    Up8(x);
    Up16(x);
    assert Up(x, 24) == 16777216 * x by { Up8(Up(x, 16)); UpUp(x, 16, 8); }
    DropTop(x);
  }

  lemma DropTop(x: Word)
    ensures 16777216 * x % W32 == Pack(0, 0, 0, x % 256)
    ensures 65536 * x % W32 == Pack(0, 0, ByteOf(x, 0), ByteOf(x, 1))
    ensures 256 * x % W32 == Pack(0, ByteOf(x, 0), ByteOf(x, 1), ByteOf(x, 2))
  {
    PackBytes(x);
    assert ByteOf(x, 0) == x % 256;
    DropTopBytes(ByteOf(x, 0), ByteOf(x, 1), ByteOf(x, 2), ByteOf(x, 3), x);
  }

  lemma DropTopBytes(b0: Byte, b1: Byte, b2: Byte, b3: Byte, x: Word)
    requires x == Pack(b0, b1, b2, b3)
    ensures 16777216 * x % W32 == Pack(0, 0, 0, b0)
    ensures 65536 * x % W32 == Pack(0, 0, b0, b1)
    ensures 256 * x % W32 == Pack(0, b0, b1, b2)
  {
    var c1: int, c2: int, c3: int := b1, b2, b3;
    assert 16777216 * x == W32 * (c1 + 256 * c2 + 65536 * c3) + Pack(0, 0, 0, b0);
    DropMultiple(c1 + 256 * c2 + 65536 * c3, Pack(0, 0, 0, b0));
    assert 65536 * x == W32 * (c2 + 256 * c3) + Pack(0, 0, b0, b1);
    DropMultiple(c2 + 256 * c3, Pack(0, 0, b0, b1));
    assert 256 * x == W32 * c3 + Pack(0, b0, b1, b2);
    DropMultiple(c3, Pack(0, b0, b1, b2));
  }

  lemma NextAddress(base: Word, off: int)
    requires Address(base, off) + 1 < W32
    ensures Address(base, off + 1) == Address(base, off) + 1
  {
  }

  lemma ShlShl(x: Word, a: nat, b: nat)
    ensures Shl(Shl(x, a), b) == Shl(x, a + b)
    decreases b
  {
    if b > 0 {
      ShlShl(x, a, b - 1);
      ShlStep(Shl(x, a), b - 1);
      ShlStep(x, a + b - 1);
    }
  }

  lemma ShlStep(x: Word, k: nat)
    ensures Shl(x, k + 1) == (Shl(x, k) + Shl(x, k)) % W32
  {
    UpStep(x, k);
  }
}
