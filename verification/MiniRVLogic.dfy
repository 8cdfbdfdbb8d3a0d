/**
The macros not, sub, and, or and xor: one table lookup per byte.
*/
module MiniRVLogic {
  import opened Bits
  import opened MiniRV

  lemma XorTable(m: Memory, lut: nat, b: Byte)
    requires Lut(m, lut)
    ensures m[lut + XOR8 + 0xff00 + b] == 255 - b
  {
    hide BitXor, Up;
    var k := XOR8 + 0xff00 + b;
    assert m[lut + k] == LutByte(k);
    Up8(1);
    XorOnes(b, 8);
    XorSymmetric(b, 255);
  }

  lemma {:induction false} XorSymmetric(x: nat, y: nat)
    ensures BitXor(x, y) == BitXor(y, x)
    decreases x + y
  {
    if x != 0 || y != 0 { XorSymmetric(x / 2, y / 2); }
  }

  lemma PackComplement(b0: Byte, b1: Byte, b2: Byte, b3: Byte)
    ensures Pack(255 - b0, 255 - b1, 255 - b2, 255 - b3) == W32 - 1 - Pack(b0, b1, b2, b3)
  {
  }

  /** One byte of not: from VAR_C through the row of 0xff to VAR_D. */
  method NotByte(m: Machine, b: nat)
    requires m.Ready() && Lut(m.mem, m.lay.lut) && Clear(m.lay.lut, LUT_SIZE, m.regs[SP])
    requires b < 4 && m.regs[TP] == m.lay.lut + XOR8 + 0xff00
    modifies m`regs, m`mem
    ensures SameRegs(old(m.regs), m.regs, {GP})
    ensures m.mem == old(m.mem)[m.regs[SP] - 28 + b := 255 - old(m.mem)[m.regs[SP] - 24 + b]]
    ensures Lut(m.mem, m.lay.lut)
  {
    hide LutByte;
    m.LoadByte(GP, VAR_C, b);
    XorTable(m.mem, m.lay.lut, m.regs[GP]);
    m.Add(GP, GP, TP);
    m.Lbu(GP, 0, GP);
    m.StoreByte(GP, VAR_D, b);
    LutKept(old(m.mem), m.mem, m.lay.lut, m.regs[SP]);
  }

  method NotBytes(m: Machine)
    requires m.Ready() && Lut(m.mem, m.lay.lut) && Clear(m.lay.lut, LUT_SIZE, m.regs[SP])
    requires m.regs[TP] == m.lay.lut + XOR8 + 0xff00
    modifies m`regs, m`mem
    ensures SameRegs(old(m.regs), m.regs, {GP})
    ensures LoadWord(m.mem, m.regs[SP] - 28) == W32 - 1 - LoadWord(old(m.mem), m.regs[SP] - 24)
    ensures SameOutside(old(m.mem), m.mem, m.regs[SP], VAR_D)
  {
    hide LutByte, Lut, Pack;
    var c := m.regs[SP] - 24;
    PackComplement(m.mem[c], m.mem[c + 1], m.mem[c + 2], m.mem[c + 3]);
    NotByte(m, 3);
    NotByte(m, 2);
    NotByte(m, 1);
    NotByte(m, 0);
  }

  method Not(m: Machine, rd: Reg, rs1: Reg)
    requires m.Ready() && m.Loaded() && rd != SP
    modifies m`regs, m`mem
    ensures SameRegs(old(m.regs), m.regs, {rd, TP})
    ensures rd != X0 ==> m.regs[rd] == W32 - 1 - old(m.regs)[rs1]
    ensures SameOutside(old(m.mem), m.mem, m.regs[SP], 3) && m.Loaded()
  {
    hide LutByte, Lut, HoldsBytes, StoreWord, LoadWord, Tables;
    TablesParts(m.mem, m.lay, m.regs[SP]);
    var sp := m.regs[SP];
    m.Store(GP, 3);
    m.Store(rs1, VAR_C);
    LutKept(old(m.mem), m.mem, m.lay.lut, sp);
    m.La(TP, m.lay.lut + XOR8 + 0xff00);
    ghost var before := m.mem;
    NotBytes(m);
    LoadSame(before, m.mem, sp - 12);
    m.Load(GP, 3);
    m.Load(rd, VAR_D);
    SameIsScratch(old(m.mem), m.mem, m.lay, sp, 3);
    TablesKept(old(m.mem), m.mem, m.lay, sp);
  }

  method Sub(m: Machine, rd: Reg, rs1: Reg, rs2: Reg)
    requires m.Ready() && m.Loaded() && rd != SP && rs1 != TP
    modifies m`regs, m`mem
    ensures SameRegs(old(m.regs), m.regs, {rd, TP})
    ensures rd != X0 ==> m.regs[rd] == (old(m.regs)[rs1] - old(m.regs)[rs2]) % W32
    ensures SameOutside(old(m.mem), m.mem, m.regs[SP], 3) && m.Loaded()
  {
    hide Tables;
    Not(m, TP, rs2);
    m.Add(rd, rs1, TP);
    m.Addi(rd, rd, 1);
  }

  // ----- and, or, xor -----

  datatype LogicOp = AndOp | OrOp | XorOp

  function Table(op: LogicOp): nat {
    match op
    case AndOp => 0
    case OrOp => OR8
    case XorOp => XOR8
  }

  function Bitwise(op: LogicOp, x: nat, y: nat): nat {
    match op
    case AndOp => BitAnd(x, y)
    case OrOp => BitOr(x, y)
    case XorOp => BitXor(x, y)
  }

  lemma TableByte(m: Memory, lut: nat, op: LogicOp, x: Byte, y: Byte)
    requires Lut(m, lut)
    ensures lut + Table(op) + 256 * x + y < W32
    ensures m[lut + Table(op) + 256 * x + y] == Bitwise(op, x, y)
  {
    hide BitAnd, BitOr, BitXor;
    var k := Table(op) + 256 * x + y;
    assert m[lut + k] == LutByte(k);
  }

  lemma {:induction false} BitwiseSplit(op: LogicOp, x: nat, y: nat, a: nat, b: nat, k: nat)
    requires a < Pow2(k) && b < Pow2(k)
    ensures Bitwise(op, Up(x, k) + a, Up(y, k) + b) == Up(Bitwise(op, x, y), k) + Bitwise(op, a, b)
    decreases k
  {
    if k == 0 {
      assert Bitwise(op, 0, 0) == 0;
    } else {
      BitwiseSplit(op, x, y, a / 2, b / 2, k - 1);
      BitwiseStep(op, Up(x, k) + a, Up(y, k) + b);
      BitwiseStep(op, a, b);
    }
  }

  function BitOf(op: LogicOp, x: nat, y: nat): nat {
    match op
    case AndOp => if x % 2 == 1 && y % 2 == 1 then 1 else 0
    case OrOp => if x % 2 == 1 || y % 2 == 1 then 1 else 0
    case XorOp => if x % 2 != y % 2 then 1 else 0
  }

  lemma BitwiseStep(op: LogicOp, x: nat, y: nat)
    ensures Bitwise(op, x, y) == BitOf(op, x, y) + 2 * Bitwise(op, x / 2, y / 2)
  {
  }

  lemma {:induction false} BitwiseBound(op: LogicOp, x: nat, y: nat, k: nat)
    requires x < Pow2(k) && y < Pow2(k)
    ensures Bitwise(op, x, y) < Pow2(k)
    decreases k
  {
    BitwiseStep(op, x, y);
    if k > 0 { BitwiseBound(op, x / 2, y / 2, k - 1); }
  }

  /** A bitwise operator on words is the operator on each byte. */
  lemma BitwisePack(op: LogicOp, x0: Byte, x1: Byte, x2: Byte, x3: Byte, y0: Byte, y1: Byte, y2: Byte, y3: Byte)
    ensures Bitwise(op, x0, y0) < 256 && Bitwise(op, x1, y1) < 256
    ensures Bitwise(op, x2, y2) < 256 && Bitwise(op, x3, y3) < 256
    ensures Bitwise(op, Pack(x0, x1, x2, x3), Pack(y0, y1, y2, y3)) ==
      Pack(Bitwise(op, x0, y0), Bitwise(op, x1, y1), Bitwise(op, x2, y2), Bitwise(op, x3, y3))
  {
    hide Bitwise, Up;
    Up8(1);
    BitwiseBound(op, x0, y0, 8);
    BitwiseBound(op, x1, y1, 8);
    BitwiseBound(op, x2, y2, 8);
    BitwiseBound(op, x3, y3, 8);
    var a: int, b: int := x2 + 256 * x3, y2 + 256 * y3;
    BitwiseByte(op, x3, y3, x2, y2);
    BitwiseByte(op, a, b, x1, y1);
    BitwiseByte(op, x1 + 256 * a, y1 + 256 * b, x0, y0);
  }

  lemma BitwiseByte(op: LogicOp, x: nat, y: nat, a: Byte, b: Byte)
    ensures Bitwise(op, a + 256 * x, b + 256 * y) == 256 * Bitwise(op, x, y) + Bitwise(op, a, b)
  {
    hide Bitwise, Up;
    Up8(1); Up8(x); Up8(y); Up8(Bitwise(op, x, y));
    BitwiseSplit(op, x, y, a, b, 8);
  }

  lemma PackLow(x: Byte, y: Byte)
    ensures var i: int := x; Pack(y, x, 0, 0) == 256 * i + y
  {
  }

  /** tp = the table index 256 * A[b] + B[b], put together in VAR_D. */
  method LogicIndex(m: Machine, b: nat)
    requires m.Ready() && b < 4 && m.mem[m.regs[SP] - 26] == 0 && m.mem[m.regs[SP] - 25] == 0
    modifies m`regs, m`mem
    ensures var sp := old(m.regs)[SP]; var x, y := old(m.mem)[sp - 16 + b], old(m.mem)[sp - 20 + b];
      && SameRegs(old(m.regs), m.regs, {TP}) && m.regs[TP] == Pack(y, x, 0, 0)
      && m.mem == old(m.mem)[sp - 27 := x][sp - 28 := y]
  {
    hide Pack, StoreWord;
    m.LoadByte(TP, VAR_A, b);
    m.StoreByte(TP, VAR_D, 1);
    m.LoadByte(TP, VAR_B, b);
    m.StoreByte(TP, VAR_D, 0);
    m.Load(TP, VAR_D);
  }

  /** logic8_byte_internal: byte b of VAR_C from bytes b of VAR_A and VAR_B. */
  method LogicByte(m: Machine, op: LogicOp, rd: Reg, b: nat)
    requires m.Ready() && Lut(m.mem, m.lay.lut) && Clear(m.lay.lut, LUT_SIZE, m.regs[SP])
    requires b < 4 && rd != SP && rd != TP && m.regs[rd] == m.lay.lut + Table(op)
    requires m.mem[m.regs[SP] - 26] == 0 && m.mem[m.regs[SP] - 25] == 0
    modifies m`regs, m`mem
    ensures SameRegs(old(m.regs), m.regs, {TP}) && Lut(m.mem, m.lay.lut)
    ensures var sp := old(m.regs)[SP]; var x, y := old(m.mem)[sp - 16 + b], old(m.mem)[sp - 20 + b];
      Bitwise(op, x, y) < 256 && m.mem == old(m.mem)[sp - 27 := x][sp - 28 := y][sp - 24 + b := Bitwise(op, x, y)]
  {
    hide LutByte, Lut, Bitwise, Table, Pack;
    var sp := m.regs[SP];
    ghost var x, y := m.mem[sp - 16 + b], m.mem[sp - 20 + b];
    LogicIndex(m, b);
    LutKept(old(m.mem), m.mem, m.lay.lut, sp);
    TableByte(m.mem, m.lay.lut, op, x, y);
    PackLow(x, y);
    m.Add(TP, rd, TP);
    ghost var at: int := m.regs[TP];
    assert var i: int := x; at == m.lay.lut + Table(op) + 256 * i + y;
    m.Lbu(TP, 0, TP);
    assert m.regs[TP] == Bitwise(op, x, y);
    m.StoreByte(TP, VAR_C, b);
    LutKept(old(m.mem), m.mem, m.lay.lut, sp);
  }

  method LogicBytes(m: Machine, op: LogicOp, rd: Reg)
    requires m.Ready() && Lut(m.mem, m.lay.lut) && Clear(m.lay.lut, LUT_SIZE, m.regs[SP])
    requires rd != SP && rd != TP && m.regs[rd] == m.lay.lut + Table(op)
    requires m.mem[m.regs[SP] - 26] == 0 && m.mem[m.regs[SP] - 25] == 0
    modifies m`regs, m`mem
    ensures SameRegs(old(m.regs), m.regs, {TP})
    ensures var sp := old(m.regs)[SP];
      LoadWord(m.mem, sp - 24) == Bitwise(op, LoadWord(old(m.mem), sp - 16), LoadWord(old(m.mem), sp - 20))
    ensures SameOutside(old(m.mem), m.mem, old(m.regs)[SP], VAR_C)
  {
    hide LutByte, Lut, Bitwise, Table, Pack;
    var sp := m.regs[SP];
    BitwisePack(op, m.mem[sp - 16], m.mem[sp - 15], m.mem[sp - 14], m.mem[sp - 13],
                m.mem[sp - 20], m.mem[sp - 19], m.mem[sp - 18], m.mem[sp - 17]);
    LogicByte(m, op, rd, 3);
    LogicByte(m, op, rd, 2);
    LogicByte(m, op, rd, 1);
    LogicByte(m, op, rd, 0);
  }

  /** The operands in VAR_A and VAR_B, VAR_D cleared, and rd = the table. */
  method LogicOperands(m: Machine, op: LogicOp, rd: Reg, rs1: Reg, rs2: Reg)
    requires m.Ready() && rd != SP && rd != X0 && m.lay.lut + Table(op) < W32
    modifies m`regs, m`mem
    ensures SameRegs(old(m.regs), m.regs, {rd}) && m.regs[rd] == m.lay.lut + Table(op)
    ensures LoadWord(m.mem, m.regs[SP] - 16) == old(m.regs)[rs1] && LoadWord(m.mem, m.regs[SP] - 20) == old(m.regs)[rs2]
    ensures m.mem[m.regs[SP] - 26] == 0 && m.mem[m.regs[SP] - 25] == 0
    ensures SameOutside(old(m.mem), m.mem, m.regs[SP], VAR_A)
  {
    hide Pack, ByteOf;
    m.Store(rs1, VAR_A);
    m.Store(rs2, VAR_B);
    m.La(rd, m.lay.lut + Table(op));
    ZeroBytes();
    m.Store(X0, VAR_D);
  }

  /** and, or, xor.  The macro refuses sp, gp and, except as rs2, tp. */
  method Logic(m: Machine, op: LogicOp, rd: Reg, rs1: Reg, rs2: Reg)
    requires m.Ready() && m.Loaded()
    requires rd != SP && rs1 != SP && rs2 != SP && rd != GP && rs1 != GP && rs2 != GP && rd != TP && rs1 != TP
    modifies m`regs, m`mem
    ensures SameRegs(old(m.regs), m.regs, {rd, TP})
    ensures rd != X0 ==> m.regs[rd] == Bitwise(op, old(m.regs)[rs1], old(m.regs)[rs2])
    ensures SameOutside(old(m.mem), m.mem, m.regs[SP], VAR_A) && m.Loaded()
  {
    hide LutByte, Lut, HoldsBytes, Bitwise, Pack, ByteOf, Tables;
    TablesParts(m.mem, m.lay, m.regs[SP]);
    if rd == X0 { return; }
    var sp := m.regs[SP];
    LogicOperands(m, op, rd, rs1, rs2);
    LutKept(old(m.mem), m.mem, m.lay.lut, sp);
    LogicBytes(m, op, rd);
    m.Load(rd, VAR_C);
    SameIsScratch(old(m.mem), m.mem, m.lay, sp, VAR_A);
    TablesKept(old(m.mem), m.mem, m.lay, sp);
  }
}
