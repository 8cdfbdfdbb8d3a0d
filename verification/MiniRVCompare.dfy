/**
The comparison macros: slt, sltu, seq, seqz and the six conditional branches.
*/
module MiniRVCompare {
  import opened Bits
  import opened MiniRV
  import opened MiniRVLogic

  function Sign(x: Word): nat { if x >= 0x8000_0000 then 1 else 0 }

  function Bool(b: bool): Word { if b then 1 else 0 }

  /** The index into the eight-entry tables: the signs of x, y and x - y. */
  function SignIndex(x: Word, y: Word): nat { 4 * Sign(x) + 2 * Sign(y) + Sign((x - y) % W32) }

  lemma SltTables(x: Word, y: Word)
    ensures SignIndex(x, y) < 8
    ensures SLT1[SignIndex(x, y)] == Bool(Signed(x) < Signed(y))
    ensures SLTU1[SignIndex(x, y)] == Bool(x < y)
  {
  }

  lemma ShlOne(x: Word)
    requires x < 0x8000_0000
    ensures Shl(x, 1) == 2 * x
  {
    hide Up;
    Up8(x);
  }

  /** gp = the signs of s0 and s1, moved one place up. */
  method SignPair(m: Machine)
    requires m.Ready() && m.Loaded()
    modifies m`regs, m`mem
    ensures SameRegs(old(m.regs), m.regs, {GP, TP})
    ensures m.regs[GP] == 4 * Sign(m.regs[S0]) + 2 * Sign(m.regs[S1])
    ensures SameOutside(old(m.mem), m.mem, m.regs[SP], VAR_C) && m.Loaded()
  {
    hide Tables, Shl;
    m.Msb(GP, S0);
    ShlOne(m.regs[GP]);
    m.SlliSmall(GP, GP, 1);
    m.Msb(TP, S1);
    m.Add(GP, GP, TP);
    ShlOne(m.regs[GP]);
    m.SlliSmall(GP, GP, 1);
    SameIsScratch(old(m.mem), m.mem, m.lay, m.regs[SP], VAR_C);
    TablesKept(old(m.mem), m.mem, m.lay, m.regs[SP]);
  }

  /** gp = the sign index of s0 and s1. */
  method SltIndex(m: Machine)
    requires m.Ready() && m.Loaded()
    modifies m`regs, m`mem
    ensures SameRegs(old(m.regs), m.regs, {GP, TP})
    ensures m.regs[GP] == SignIndex(m.regs[S0], m.regs[S1])
    ensures SameOutside(old(m.mem), m.mem, m.regs[SP], 3) && m.Loaded()
  {
    hide Tables;
    SignPair(m);
    Sub(m, TP, S0, S1);
    ghost var before := m.mem;
    m.Msb(TP, TP);
    m.Add(GP, GP, TP);
    SameIsScratch(before, m.mem, m.lay, m.regs[SP], 3);
    TablesKept(before, m.mem, m.lay, m.regs[SP]);
  }

  /** The value of slt or sltu. */
  function Less(unsigned: bool, x: Word, y: Word): Word { Bool(if unsigned then x < y else Signed(x) < Signed(y)) }

  lemma LessIs(unsigned: bool, x: Word, y: Word)
    ensures Less(unsigned, x, y) == if (if unsigned then x < y else Signed(x) < Signed(y)) then 1 else 0
  {
  }

  function SltTable(unsigned: bool, lay: Layout): nat { if unsigned then lay.sltu1 else lay.slt1 }

  lemma SltLookup(mem: Memory, lay: Layout, sp: int, unsigned: bool, x: Word, y: Word)
    requires Tables(mem, lay, sp)
    ensures SltTable(unsigned, lay) + SignIndex(x, y) < W32
    ensures mem[SltTable(unsigned, lay) + SignIndex(x, y)] == Less(unsigned, x, y)
  {
    SltTables(x, y);
  }

  /** The words of slots 1 and 2 survive whatever only uses slots 3 to 7. */
  lemma SavedKept(mem: Memory, mem': Memory, sp: Word)
    requires 28 <= sp && SameOutside(mem, mem', sp, 3)
    ensures LoadWord(mem', sp - 4) == LoadWord(mem, sp - 4) && LoadWord(mem', sp - 8) == LoadWord(mem, sp - 8)
  {
  }

  /** s0 and s1 pushed and replaced by the operands. */
  method PushOperands(m: Machine, rs1: Reg, rs2: Reg)
    requires m.Ready() && m.Loaded()
    modifies m`regs, m`mem
    ensures SameRegs(old(m.regs), m.regs, {S0, S1})
    ensures m.regs[S0] == old(m.regs)[rs1] && m.regs[S1] == old(m.regs)[rs2]
    ensures LoadWord(m.mem, m.regs[SP] - 4) == old(m.regs)[S0] && LoadWord(m.mem, m.regs[SP] - 8) == old(m.regs)[S1]
    ensures SameOutside(old(m.mem), m.mem, m.regs[SP], 1) && m.Loaded()
  {
    hide Tables, StoreWord, LoadWord;
    m.Store(S0, 1);
    m.Store(S1, 2);
    m.Store(rs2, VAR_A);
    m.Addi(S0, rs1, 0);
    m.Load(S1, VAR_A);
    SameIsScratch(old(m.mem), m.mem, m.lay, m.regs[SP], 1);
    TablesKept(old(m.mem), m.mem, m.lay, m.regs[SP]);
  }

  /** s0 and s1 back from the stack. */
  method PopSaved(m: Machine)
    requires m.Ready()
    modifies m`regs
    ensures m.regs == Write(Write(old(m.regs), S1, LoadWord(m.mem, old(m.regs)[SP] - 8)), S0, LoadWord(m.mem,
      old(m.regs)[SP] - 4))
  {
    hide LoadWord;
    m.Load(S1, 2);
    m.Load(S0, 1);
  }

  /** slt_template: operands to s0 and s1, the table entry to rd, s0 and s1 restored. */
  method Slt(m: Machine, unsigned: bool, rd: Reg, rs1: Reg, rs2: Reg)
    requires m.Ready() && m.Loaded() && rd != SP
    modifies m`regs, m`mem
    ensures SameRegs(old(m.regs), m.regs, {rd, GP, TP})
    ensures var x, y := old(m.regs)[rs1], old(m.regs)[rs2];
      rd != X0 ==> m.regs[rd] == if (if unsigned then x < y else Signed(x) < Signed(y)) then 1 else 0
    ensures SameOutside(old(m.mem), m.mem, m.regs[SP], 1) && m.Loaded()
  {
    hide Tables, StoreWord, LoadWord, SignIndex, Less, SltTable;
    LessIs(unsigned, m.regs[rs1], m.regs[rs2]);
    var sp := m.regs[SP];
    ghost var x, y := m.regs[rs1], m.regs[rs2];
    PushOperands(m, rs1, rs2);
    ghost var before := m.mem;
    SltIndex(m);
    SavedKept(before, m.mem, sp);
    SltLookup(m.mem, m.lay, sp, unsigned, x, y);
    m.La(TP, SltTable(unsigned, m.lay));
    m.Add(TP, TP, GP);
    PopSaved(m);
    m.Lbu(rd, 0, TP);
  }

  // ----- seq and seqz -----

  /** Memory outside the array is as before. */
  ghost predicate OnlyArray(mem: Memory, mem': Memory, arr: nat) {
    forall a :: 0 <= a < W32 && !(arr <= a < arr + 256) ==> mem'[a] == mem[a]
  }

  /** tp = the array entry for byte b of VAR_A, which is set to 1. */
  method MarkByte(m: Machine, rd: Reg, b: nat)
    requires m.Ready() && b < 4 && Clear(m.lay.arr, 256, m.regs[SP]) && m.regs[S0] == m.lay.arr
    requires rd == GP || rd == S1
    modifies m`regs, m`mem
    ensures SameRegs(old(m.regs), m.regs, {rd, TP})
    ensures m.regs[TP] == m.lay.arr + old(m.mem)[m.regs[SP] - 16 + b]
    ensures m.mem == old(m.mem)[m.regs[TP] := 1]
  {
    m.LoadByte(rd, VAR_A, b);
    m.Add(TP, S0, rd);
    m.Addi(rd, X0, 1);
    m.Sb(rd, 0, TP);
  }

  /** The array entry for byte b of VAR_B is cleared. */
  method ClearByte(m: Machine, rd: Reg, b: nat)
    requires m.Ready() && b < 4 && Clear(m.lay.arr, 256, m.regs[SP]) && m.regs[S0] == m.lay.arr
    requires rd == GP || rd == S1
    modifies m`regs, m`mem
    ensures SameRegs(old(m.regs), m.regs, {rd})
    ensures m.mem == old(m.mem)[m.lay.arr + old(m.mem)[m.regs[SP] - 20 + b] := 0]
  {
    m.LoadByte(rd, VAR_B, b);
    m.Add(rd, S0, rd);
    m.Sb(X0, 0, rd);
  }

  /** check_8bit_same: rd = 0 if byte b of VAR_A and VAR_B are the same, 1 otherwise.  Both bytes
      index the array: 1 is stored at the first, 0 at the second, and the first is read back. */
  method CheckSame(m: Machine, rd: Reg, b: nat)
    requires m.Ready() && b < 4 && Clear(m.lay.arr, 256, m.regs[SP]) && m.regs[S0] == m.lay.arr
    requires rd == GP || rd == S1
    modifies m`regs, m`mem
    ensures SameRegs(old(m.regs), m.regs, {rd, TP})
    ensures m.regs[rd] == Bool(old(m.mem)[m.regs[SP] - 16 + b] != old(m.mem)[m.regs[SP] - 20 + b])
    ensures OnlyArray(old(m.mem), m.mem, m.lay.arr)
  {
    MarkByte(m, rd, b);
    ClearByte(m, rd, b);
    m.Lbu(rd, 0, TP);
  }

  lemma PackInjective(x0: Byte, x1: Byte, x2: Byte, x3: Byte, y0: Byte, y1: Byte, y2: Byte, y3: Byte)
    ensures Pack(x0, x1, x2, x3) == Pack(y0, y1, y2, y3) <==> x0 == y0 && x1 == y1 && x2 == y2 && x3 == y3
  {
    BytesOfPack(x0, x1, x2, x3);
    BytesOfPack(y0, y1, y2, y3);
  }

  /** 1 if byte b of VAR_A and VAR_B differ. */
  function Differs(mem: Memory, sp: Word, b: nat): Word
    requires 28 <= sp && b < 4
  {
    Bool(mem[sp - 16 + b] != mem[sp - 20 + b])
  }

  lemma DiffersKept(mem: Memory, mem': Memory, arr: nat, sp: Word)
    requires 28 <= sp && Clear(arr, 256, sp) && OnlyArray(mem, mem', arr)
    ensures forall b :: 0 <= b < 4 ==> Differs(mem', sp, b) == Differs(mem, sp, b)
  {
  }

  /** gp grows by one if byte b differs. */
  method CheckNext(m: Machine, b: nat)
    requires m.Ready() && b < 4 && Clear(m.lay.arr, 256, m.regs[SP]) && m.regs[S0] == m.lay.arr && m.regs[GP] < 4
    modifies m`regs, m`mem
    ensures SameRegs(old(m.regs), m.regs, {GP, S1, TP})
    ensures m.regs[GP] == old(m.regs)[GP] + Differs(old(m.mem), m.regs[SP], b)
    ensures OnlyArray(old(m.mem), m.mem, m.lay.arr)
    ensures forall c :: 0 <= c < 4 ==> Differs(m.mem, m.regs[SP], c) == Differs(old(m.mem), m.regs[SP], c)
  {
    CheckSame(m, S1, b);
    m.Add(GP, GP, S1);
    DiffersKept(old(m.mem), m.mem, m.lay.arr, m.regs[SP]);
  }

  lemma CountIsZero(mem: Memory, sp: Word)
    requires 28 <= sp
    ensures Differs(mem, sp, 0) + Differs(mem, sp, 1) + Differs(mem, sp, 2) + Differs(mem, sp, 3) == 0 <==>
      LoadWord(mem, sp - 16) == LoadWord(mem, sp - 20)
  {
    hide Pack;
    PackInjective(mem[sp - 16], mem[sp - 15], mem[sp - 14], mem[sp - 13], mem[sp - 20], mem[sp - 19], mem[sp - 18],
      mem[sp - 17]);
  }

  /** gp = the number of differing bytes. */
  method CountDifferent(m: Machine)
    requires m.Ready() && Clear(m.lay.arr, 256, m.regs[SP]) && m.regs[S0] == m.lay.arr
    modifies m`regs, m`mem
    ensures SameRegs(old(m.regs), m.regs, {GP, TP, S1})
    ensures m.regs[GP] <= 4
    ensures m.regs[GP] == 0 <==> LoadWord(old(m.mem), m.regs[SP] - 16) == LoadWord(old(m.mem), m.regs[SP] - 20)
    ensures OnlyArray(old(m.mem), m.mem, m.lay.arr)
  {
    hide LoadWord;
    CountIsZero(m.mem, m.regs[SP]);
    CheckSame(m, GP, 0);
    DiffersKept(old(m.mem), m.mem, m.lay.arr, m.regs[SP]);
    CheckNext(m, 1);
    CheckNext(m, 2);
    CheckNext(m, 3);
  }

  lemma SameLookup(mem: Memory, lay: Layout, sp: int, n: nat)
    requires Tables(mem, lay, sp) && n <= 4
    ensures lay.same + n < W32 && mem[lay.same + n] == Bool(n == 0)
  {
    assert mem[lay.same + n] == SAME[n];
  }

  lemma WordsKept(mem: Memory, mem': Memory, lay: Layout, sp: Word)
    requires 28 <= sp && Clear(lay.arr, 256, sp)
    requires OnlyArray(mem, mem', lay.arr)
    ensures LoadWord(mem', sp - 4) == LoadWord(mem, sp - 4) && LoadWord(mem', sp - 8) == LoadWord(mem, sp - 8)
  {
  }

  /** The four stores seq begins with. */
  method StoreOperands(m: Machine, rs1: Reg, rs2: Reg)
    requires m.Ready()
    modifies m`mem
    ensures LoadWord(m.mem, m.regs[SP] - 16) == m.regs[rs1] && LoadWord(m.mem, m.regs[SP] - 20) == m.regs[rs2]
    ensures LoadWord(m.mem, m.regs[SP] - 4) == m.regs[S0] && LoadWord(m.mem, m.regs[SP] - 8) == m.regs[S1]
    ensures SameOutside(old(m.mem), m.mem, m.regs[SP], 1)
  {
    hide StoreWord, LoadWord;
    m.Store(rs1, VAR_A);
    m.Store(rs2, VAR_B);
    m.Store(S0, 1);
    m.Store(S1, 2);
  }

  /** The first part of seq: gp = 0 exactly when the operands are equal. */
  method SeqCount(m: Machine, rs1: Reg, rs2: Reg)
    requires m.Ready() && m.Loaded()
    modifies m`regs, m`mem
    ensures SameRegs(old(m.regs), m.regs, {GP, TP, S0, S1})
    ensures m.regs[GP] <= 4 && (m.regs[GP] == 0 <==> old(m.regs)[rs1] == old(m.regs)[rs2])
    ensures LoadWord(m.mem, m.regs[SP] - 4) == old(m.regs)[S0] && LoadWord(m.mem, m.regs[SP] - 8) == old(m.regs)[S1]
    ensures OnlyScratch(old(m.mem), m.mem, m.lay, m.regs[SP]) && m.Loaded()
  {
    hide StoreWord, LoadWord, Tables;
    var sp := m.regs[SP];
    ArrayClear(m.mem, m.lay, sp);
    StoreOperands(m, rs1, rs2);
    m.La(S0, m.lay.arr);
    ghost var before := m.mem;
    CountDifferent(m);
    WordsKept(before, m.mem, m.lay, sp);
    assert OnlyScratch(old(m.mem), m.mem, m.lay, sp);
    TablesKept(old(m.mem), m.mem, m.lay, sp);
  }

  /** seq: rd = (rs1 == rs2), unless rd is s0 or s1, which are restored after rd is written. */
  method Seq(m: Machine, rd: Reg, rs1: Reg, rs2: Reg)
    requires m.Ready() && m.Loaded() && rd != SP
    modifies m`regs, m`mem
    ensures SameRegs(old(m.regs), m.regs, {rd, GP, TP})
    ensures rd != X0 && rd != S0 && rd != S1 ==> m.regs[rd] == Bool(old(m.regs)[rs1] == old(m.regs)[rs2])
    ensures rd == S0 || rd == S1 ==> m.regs[rd] == old(m.regs)[rd]
    ensures OnlyScratch(old(m.mem), m.mem, m.lay, m.regs[SP]) && m.Loaded()
  {
    hide LoadWord, Tables;
    SeqCount(m, rs1, rs2);
    SameLookup(m.mem, m.lay, m.regs[SP], m.regs[GP]);
    m.La(TP, m.lay.same);
    m.Add(TP, TP, GP);
    m.Lbu(rd, 0, TP);
    PopSaved(m);
  }

  lemma ArrayClear(mem: Memory, lay: Layout, sp: int)
    requires Tables(mem, lay, sp)
    ensures Clear(lay.arr, 256, sp) && Clear(lay.zero, 256, sp)
  {
  }

  /** check_8bit_0: rd = (byte b of VAR_A is not 0). */
  method CheckZero(m: Machine, rd: Reg, b: nat)
    requires m.Ready() && m.Loaded() && b < 4 && m.regs[S0] == m.lay.zero && (rd == GP || rd == TP)
    modifies m`regs
    ensures SameRegs(old(m.regs), m.regs, {rd})
    ensures m.regs[rd] == Bool(m.mem[m.regs[SP] - 16 + b] != 0)
  {
    hide Tables;
    ZeroLookup(m.mem, m.lay, m.regs[SP], m.mem[m.regs[SP] - 16 + b]);
    m.LoadByte(rd, VAR_A, b);
    m.Add(rd, S0, rd);
    m.Lbu(rd, 0, rd);
  }

  lemma ZeroLookup(mem: Memory, lay: Layout, sp: int, x: Byte)
    requires Tables(mem, lay, sp)
    ensures lay.zero + x < W32 && mem[lay.zero + x] == Bool(x != 0)
  {
  }

  lemma ZeroBytesOnly(mem: Memory, a: nat)
    requires a + 4 <= W32
    ensures LoadWord(mem, a) == 0 <==> mem[a] == 0 && mem[a + 1] == 0 && mem[a + 2] == 0 && mem[a + 3] == 0
  {
  }

  /** gp = the number of nonzero bytes of VAR_A. */
  method CountNonzero(m: Machine)
    requires m.Ready() && m.Loaded() && m.regs[S0] == m.lay.zero
    modifies m`regs
    ensures SameRegs(old(m.regs), m.regs, {GP, TP})
    ensures m.regs[GP] <= 4 && (m.regs[GP] == 0 <==> LoadWord(m.mem, m.regs[SP] - 16) == 0)
  {
    hide Tables, LoadWord;
    ZeroBytesOnly(m.mem, m.regs[SP] - 16);
    CheckZero(m, GP, 0);
    CheckZero(m, TP, 1);
    m.Add(GP, GP, TP);
    CheckZero(m, TP, 2);
    m.Add(GP, GP, TP);
    CheckZero(m, TP, 3);
    m.Add(GP, GP, TP);
  }

  /** The first part of seqz: gp = 0 exactly when the operand is 0; s0 is saved. */
  method SeqzCount(m: Machine, rs1: Reg)
    requires m.Ready() && m.Loaded()
    modifies m`regs, m`mem
    ensures SameRegs(old(m.regs), m.regs, {GP, TP, S0})
    ensures m.regs[GP] <= 4 && (m.regs[GP] == 0 <==> old(m.regs)[rs1] == 0)
    ensures LoadWord(m.mem, m.regs[SP] - 4) == old(m.regs)[S0]
    ensures SameOutside(old(m.mem), m.mem, m.regs[SP], 1) && m.Loaded()
  {
    hide StoreWord, LoadWord, Tables;
    var sp := m.regs[SP];
    ArrayClear(m.mem, m.lay, sp);
    m.Store(rs1, VAR_A);
    m.Store(S0, 1);
    SameIsScratch(old(m.mem), m.mem, m.lay, sp, 1);
    TablesKept(old(m.mem), m.mem, m.lay, sp);
    m.La(S0, m.lay.zero);
    CountNonzero(m);
  }

  /** seqz: rd = (rs1 == 0) for every rd except s0: s0 is restored after rd is written, so for
      rd = s0 the result is lost and s0 keeps its value. */
  method Seqz(m: Machine, rd: Reg, rs1: Reg)
    requires m.Ready() && m.Loaded() && rd != SP
    modifies m`regs, m`mem
    ensures SameRegs(old(m.regs), m.regs, {rd, GP, TP})
    ensures rd != X0 && rd != S0 ==> m.regs[rd] == Bool(old(m.regs)[rs1] == 0)
    ensures rd == S0 ==> m.regs[S0] == old(m.regs)[S0]
    ensures SameOutside(old(m.mem), m.mem, m.regs[SP], 1) && m.Loaded()
  {
    hide LoadWord, Tables;
    SeqzCount(m, rs1);
    SameLookup(m.mem, m.lay, m.regs[SP], m.regs[GP]);
    m.La(TP, m.lay.same);
    m.Add(TP, TP, GP);
    m.Lbu(rd, 0, TP);
    m.Load(S0, 1);
  }

  // ----- branches -----

  /** branch_resolve: both addresses are stored, tp selects one, and jr goes there. */
  method BranchResolve(m: Machine, target: Word, next: Word, highIsTarget: bool)
    requires m.Ready() && m.regs[TP] <= 1 && target % 2 == 0 && next % 2 == 0
    modifies m
    ensures SameRegs(old(m.regs), m.regs, {GP, TP})
    ensures m.pc == if (old(m.regs)[TP] == 1) == highIsTarget then target else next
    ensures SameOutside(old(m.mem), m.mem, m.regs[SP], VAR_A)
  {
    hide StoreWord, LoadWord, Address, SameOutside;
    ghost var sel, sp := m.regs[TP], m.regs[SP];
    SlotAddress(m);
    StoreTargets(m, if highIsTarget then target else next, if highIsTarget then next else target);
    m.Lw(TP, -20, TP);
    EvenTarget(target);
    EvenTarget(next);
    m.Jalr(X0, TP, 0);
  }

  /** tp = sp + 4 * tp, from which VAR_A or VAR_B is 20 below. */
  method SlotAddress(m: Machine)
    requires m.Ready() && m.regs[TP] <= 1
    modifies m`regs
    ensures SameRegs(old(m.regs), m.regs, {TP})
    ensures Address(m.regs[TP], -20) == m.regs[SP] - 20 + 4 * old(m.regs)[TP]
  {
    hide Shl;
    ShlTwo(m.regs[TP]);
    SelectAddress(m.regs[SP], m.regs[TP]);
    m.SlliSmall(TP, TP, 2);
    m.Add(TP, SP, TP);
  }

  lemma EvenTarget(x: Word)
    requires x % 2 == 0
    ensures (x + 0) % W32 / 2 * 2 == x
  {
  }

  /** The address for tp = 1 in VAR_A and the one for tp = 0 in VAR_B, just below it. */
  method StoreTargets(m: Machine, high: Word, low: Word)
    requires m.Ready()
    modifies m`regs, m`mem
    ensures SameRegs(old(m.regs), m.regs, {GP})
    ensures LoadWord(m.mem, m.regs[SP] - 16) == high && LoadWord(m.mem, m.regs[SP] - 20) == low
    ensures SameOutside(old(m.mem), m.mem, m.regs[SP], VAR_A)
  {
    hide StoreWord, LoadWord;
    m.La(GP, high);
    m.Store(GP, VAR_A);
    m.La(GP, low);
    m.Store(GP, VAR_B);
  }

  lemma ShlTwo(x: Word)
    requires x < 0x4000_0000
    ensures Shl(x, 2) == 4 * x
  {
    hide Up;
    Up8(x);
  }

  /** sp + 4 * sel - 20, also when sp + 4 wraps around. */
  lemma SelectAddress(sp: Word, sel: Word)
    requires sel <= 1 && 28 <= sp
    ensures Address((sp + 4 * sel) % W32, -20) == sp - 20 + 4 * sel
  {
  }

  datatype Condition = Eq | Ne | Lt | Ge | Ltu | Geu

  /** The RV32I branch conditions. */
  predicate Taken(c: Condition, x: Word, y: Word) {
    match c
    case Eq => x == y
    case Ne => x != y
    case Lt => Signed(x) < Signed(y)
    case Ge => Signed(x) >= Signed(y)
    case Ltu => x < y
    case Geu => x >= y
  }

  /** tp = (rs1 == rs2), by seqz when one side is x0. */
  method TestEqual(m: Machine, rs1: Reg, rs2: Reg)
    requires m.Ready() && m.Loaded()
    modifies m`regs, m`mem
    ensures SameRegs(old(m.regs), m.regs, {GP, TP})
    ensures m.regs[TP] == Bool(old(m.regs)[rs1] == old(m.regs)[rs2])
    ensures OnlyScratch(old(m.mem), m.mem, m.lay, m.regs[SP]) && m.Loaded()
  {
    hide Tables;
    if rs2 == X0 {
      Seqz(m, TP, rs1);
    } else if rs1 == X0 {
      Seqz(m, TP, rs2);
    } else {
      Seq(m, TP, rs1, rs2);
    }
  }

  lemma Or1Lookup(mem: Memory, lay: Layout, sp: int, y: Word)
    requires Tables(mem, lay, sp)
    ensures var n := Sign(y) + Sign((y - 1) % W32);
      lay.or1 + n < W32 && mem[lay.or1 + n] == Bool(Signed(y) <= 0)
  {
    var n := Sign(y) + Sign((y - 1) % W32);
    assert mem[lay.or1 + n] == OR1[n];
  }

  /** gp = the signs of rs2 and rs2 - 1, added. */
  method SignSum(m: Machine, rs2: Reg)
    requires m.Ready() && rs2 != GP && rs2 != TP
    modifies m`regs, m`mem
    ensures SameRegs(old(m.regs), m.regs, {GP, TP})
    ensures m.regs[GP] == Sign(m.regs[rs2]) + Sign((m.regs[rs2] - 1) % W32)
    ensures SameOutside(old(m.mem), m.mem, m.regs[SP], VAR_C)
  {
    m.Msb(GP, rs2);
    m.Addi(TP, rs2, -1);
    m.Msb(TP, TP);
    m.Add(GP, GP, TP);
  }

  /** tp = (rs2 <= 0). */
  method TestNotPositive(m: Machine, rs2: Reg)
    requires m.Ready() && m.Loaded() && rs2 != GP && rs2 != TP
    modifies m`regs, m`mem
    ensures SameRegs(old(m.regs), m.regs, {GP, TP})
    ensures m.regs[TP] == Bool(Signed(old(m.regs)[rs2]) <= 0)
    ensures OnlyScratch(old(m.mem), m.mem, m.lay, m.regs[SP]) && m.Loaded()
  {
    hide Tables, Signed, Sign;
    var sp := m.regs[SP];
    SignSum(m, rs2);
    SameIsScratch(old(m.mem), m.mem, m.lay, sp, VAR_C);
    TablesKept(old(m.mem), m.mem, m.lay, sp);
    Or1Lookup(m.mem, m.lay, sp, m.regs[rs2]);
    m.La(TP, m.lay.or1);
    m.Add(TP, GP, TP);
    m.Lbu(TP, 0, TP);
  }

  /** tp and the choice of slots such that the branch goes to the target when the condition holds. */
  method TestBranch(m: Machine, c: Condition, rs1: Reg, rs2: Reg) returns (highIsTarget: bool)
    requires m.Ready() && m.Loaded() && rs2 != GP && rs2 != TP
    modifies m`regs, m`mem
    ensures SameRegs(old(m.regs), m.regs, {GP, TP})
    ensures m.regs[TP] <= 1 && ((m.regs[TP] == 1) == highIsTarget <==> Taken(c, old(m.regs)[rs1], old(m.regs)[rs2]))
    ensures OnlyScratch(old(m.mem), m.mem, m.lay, m.regs[SP]) && m.Loaded()
  {
    hide Tables;
    if c == Eq || c == Ne {
      TestEqual(m, rs1, rs2);
      return c == Eq;
    }
    if c == Ltu || c == Geu {
      Slt(m, true, TP, rs1, rs2);
      return c == Ltu;
    }
    if rs1 == X0 && (c == Ge || rs2 != X0) {
      TestNotPositive(m, rs2);
      return c == Ge;
    }
    if c == Lt && rs2 == X0 {
      m.Msb(TP, rs1);
      SameIsScratch(old(m.mem), m.mem, m.lay, m.regs[SP], VAR_C);
      TablesKept(old(m.mem), m.mem, m.lay, m.regs[SP]);
      return true;
    }
    Slt(m, false, TP, rs1, rs2);
    return c == Lt;
  }

  /** beq, bne, blt, bge, bltu, bgeu: the jump goes to the target exactly when the RV32I condition
      holds and falls through otherwise; only gp, tp, the scratch words and the array change. */
  method Branch(m: Machine, c: Condition, rs1: Reg, rs2: Reg, target: Word, next: Word)
    requires m.Ready() && m.Loaded() && rs2 != GP && rs2 != TP && target % 2 == 0 && next % 2 == 0
    modifies m
    ensures SameRegs(old(m.regs), m.regs, {GP, TP})
    ensures var x, y := old(m.regs)[rs1], old(m.regs)[rs2];
      && (c == Eq ==> m.pc == if x == y then target else next)
      && (c == Ne ==> m.pc == if x != y then target else next)
      && (c == Lt ==> m.pc == if Signed(x) < Signed(y) then target else next)
      && (c == Ge ==> m.pc == if Signed(x) >= Signed(y) then target else next)
      && (c == Ltu ==> m.pc == if x < y then target else next)
      && (c == Geu ==> m.pc == if x >= y then target else next)
    ensures OnlyScratch(old(m.mem), m.mem, m.lay, m.regs[SP]) && m.Loaded()
  {
    hide Tables;
    var highIsTarget := TestBranch(m, c, rs1, rs2);
    ghost var before := m.mem;
    BranchResolve(m, target, next, highIsTarget);
    SameIsScratch(before, m.mem, m.lay, m.regs[SP], VAR_A);
    TablesKept(before, m.mem, m.lay, m.regs[SP]);
  }
}
