/**
The riscv32 decoders behind the trace: isa_decode_ldstr and isa_decode_branch decode an instruction
a second time, ahead of its execution.  They are shown to tell the memory access and the next address
of the execution itself.
*/
module RiscvTrace {
  import opened Wrappers
  import opened Bits
  import DecodePattern
  import TraceSim

  /** The instructions with a memory access or a jump; every other one is Other. */
  datatype Kind =
    | Lui | Auipc | Jal | Jalr | Beq | Bne | Blt | Bge | Bltu | Bgeu
    | Lb | Lh | Lw | Lbu | Lhu | Sb | Sh | Sw | Other {
    predicate Branch() { Beq? || Bne? || Blt? || Bge? || Bltu? || Bgeu? }
    predicate Load() { Lb? || Lh? || Lw? || Lbu? || Lhu? }
    predicate Store() { Sb? || Sh? || Sw? }
  }

  // ----- patterns and fields -----

  /** A pattern that gives the function code and the opcode only. */
  function Pat(funct3: string, op: string): string { "??????? ????? ????? " + funct3 + " ????? " + op + " 11" }

  predicate Is(funct3: string, op: string, x: nat) { DecodePattern.Matches(Pat(funct3, op), x) }

  function Field(x: nat, hi: nat, lo: nat): nat
    requires lo <= hi
  {
    Low(Shr(x, lo), hi - lo + 1)
  }

  lemma {:induction false} MatchesAppend(a: string, b: string, x: nat)
    ensures DecodePattern.Matches(a + b, x) ==
      (DecodePattern.Matches(b, x) && DecodePattern.Matches(a, Shr(x, DecodePattern.Digits(b))))
    decreases |b|
  {
    if b == "" {
      assert a + b == a;
    } else {
      var c, front := b[|b| - 1], b[..|b| - 1];
      assert (a + b)[|a + b| - 1] == c && (a + b)[..|a + b| - 1] == a + front;
      MatchesAppend(a, front, if c == ' ' then x else x / 2);
    }
  }

  lemma {:induction false} MatchesAny(a: string, x: nat)
    requires forall i :: 0 <= i < |a| ==> a[i] == '?' || a[i] == ' '
    ensures DecodePattern.Matches(a, x)
    decreases |a|
  {
    if a != "" { MatchesAny(a[..|a| - 1], if a[|a| - 1] == ' ' then x else x / 2); }
  }

  /** Binary digits match the number they make. */
  lemma {:induction false} MatchesNumber(a: string, x: nat)
    requires forall i :: 0 <= i < |a| ==> a[i] == '0' || a[i] == '1'
    ensures DecodePattern.Matches(a, x) <==> Low(x, |a|) == DecodePattern.Key(a)
    ensures DecodePattern.Digits(a) == |a|
    decreases |a|
  {
    if a != "" { MatchesNumber(a[..|a| - 1], x / 2); }
  }

  predicate Number(a: string, n: nat) { |a| == n && forall i :: 0 <= i < |a| ==> a[i] == '0' || a[i] == '1' }

  lemma IsFields(funct3: string, op: string, x: nat)
    requires (Number(funct3, 3) || funct3 == "???") && Number(op, 5)
    ensures Is(funct3, op, x) <==>
      Field(x, 1, 0) == 3 && Field(x, 6, 2) == DecodePattern.Key(op) &&
      (funct3 == "???" || Field(x, 14, 12) == DecodePattern.Key(funct3))
  {
    hide DecodePattern.Matches, Low, Shr;
    var a, b := "??????? ????? ????? ", " ????? ";
    assert Pat(funct3, op) == a + funct3 + b + op + (" " + "11");
    MatchesAppend(a + funct3 + b + op, " " + "11", x);
    MatchesAppend(" ", "11", x);
    MatchesAny(" ", Shr(x, 2));
    TailDigits();
    MatchesNumber("11", x);
    MatchesAppend(a + funct3 + b, op, Shr(x, 2));
    MatchesNumber(op, Shr(x, 2));
    ShrShr(x, 2, 5);
    MatchesAppend(a + funct3, b, Shr(x, 7));
    MatchesAny(b, Shr(x, 7));
    ShrShr(x, 7, 5);
    MatchesAppend(a, funct3, Shr(x, 12));
    if funct3 == "???" {
      MatchesAny(funct3, Shr(x, 12));
    } else {
      MatchesNumber(funct3, Shr(x, 12));
    }
    MatchesAny(a, Shr(Shr(x, 12), DecodePattern.Digits(funct3)));
    assert Shr(x, 0) == x by { ShrNothing(x); }
  }

  lemma ShrNothing(x: nat)
    ensures Shr(x, 0) == x
  {
  }

  lemma TailDigits()
    ensures DecodePattern.Digits("11") == 2 && DecodePattern.Digits(" " + "11") == 2 && DecodePattern.Key("11") == 3
    ensures DecodePattern.Digits(" ????? ") == 5
  {
    assert "11"[..1] == "1" && "1"[..0] == "";
    assert DecodePattern.Digits("1") == 1 && DecodePattern.Key("1") == 1;
    var t := " " + "11";
    assert t[..2] == " 1" && " 1"[..1] == " " && " "[..0] == "";
    assert DecodePattern.Digits(" ") == 0 && DecodePattern.Digits(" 1") == 1;
    var b := " ????? ";
    assert b[..6] == " ?????" && b[..6][..5] == " ????" && " ????"[..4] == " ???";
    assert " ???"[..3] == " ??" && " ??"[..2] == " ?" && " ?"[..1] == " ";
    assert DecodePattern.Digits(" ?") == 1;
    assert DecodePattern.Digits(" ??") == 2;
    assert DecodePattern.Digits(" ???") == 3;
    assert DecodePattern.Digits(" ????") == 4;
    assert DecodePattern.Digits(" ?????") == 5;
  }

  lemma {:induction false} KeyInjective(a: string, b: string)
    requires Number(a, |a|) && Number(b, |a|) && DecodePattern.Key(a) == DecodePattern.Key(b)
    ensures a == b
    decreases |a|
  {
    if a != "" {
      var n := |a| - 1;
      assert DecodePattern.Key(a) % 2 == if a[n] == '1' then 1 else 0;
      assert DecodePattern.Key(b) % 2 == if b[n] == '1' then 1 else 0;
      KeyInjective(a[..n], b[..n]);
      assert a == a[..n] + [a[n]] && b == b[..n] + [b[n]];
    }
  }

  predicate Op(op: string, x: nat) { Field(x, 1, 0) == 3 && Field(x, 6, 2) == DecodePattern.Key(op) }

  /** No instruction has two of the opcodes. */
  lemma OpsApart(a: string, b: string, x: nat)
    requires Number(a, 5) && Number(b, 5) && a != b
    ensures !(Op(a, x) && Op(b, x))
  {
    hide Field, DecodePattern.Key;
    if Op(a, x) && Op(b, x) { KeyInjective(a, b); }
  }

  lemma IsOp(funct3: string, op: string, x: nat)
    requires (Number(funct3, 3) || funct3 == "???") && Number(op, 5)
    ensures Is(funct3, op, x) ==> Op(op, x)
  {
    hide Is, Field;
    IsFields(funct3, op, x);
  }

  // ----- the three cascades of patterns -----

  function LoadKind(x: nat): Kind {
    if Is("000", "00000", x) then Lb
    else if Is("001", "00000", x) then Lh
    else if Is("010", "00000", x) then Lw
    else if Is("100", "00000", x) then Lbu
    else if Is("101", "00000", x) then Lhu
    else StoreKind(x)
  }

  function StoreKind(x: nat): Kind {
    if Is("000", "01000", x) then Sb
    else if Is("001", "01000", x) then Sh
    else if Is("010", "01000", x) then Sw
    else Other
  }

  function CompareKind(x: nat): Kind {
    if Is("000", "11000", x) then Beq
    else if Is("001", "11000", x) then Bne
    else if Is("100", "11000", x) then Blt
    else if Is("101", "11000", x) then Bge
    else if Is("110", "11000", x) then Bltu
    else if Is("111", "11000", x) then Bgeu
    else Other
  }

  /** decode_exec: the patterns up to the stores, in their order. */
  function ExecKind(x: nat): Kind {
    if Is("???", "01101", x) then Lui
    else if Is("???", "00101", x) then Auipc
    else if Is("???", "11011", x) then Jal
    else if Is("000", "11001", x) then Jalr
    else if CompareKind(x) != Other then CompareKind(x)
    else LoadKind(x)
  }

  /** isa_decode_ldstr */
  function LdstrKind(x: nat): Kind { LoadKind(x) }

  /** isa_decode_branch */
  function BranchKind(x: nat): Kind {
    if CompareKind(x) != Other then CompareKind(x)
    else if Is("???", "11011", x) then Jal
    else if Is("000", "11001", x) then Jalr
    else Other
  }

  lemma CompareOp(x: nat)
    ensures CompareKind(x) != Other ==> Op("11000", x)
    ensures CompareKind(x) == Other || CompareKind(x).Branch()
  {
    hide Is, Op;
    IsOp("000", "11000", x);
    IsOp("001", "11000", x);
    IsOp("100", "11000", x);
    IsOp("101", "11000", x);
    IsOp("110", "11000", x);
    IsOp("111", "11000", x);
  }

  lemma LoadOp(x: nat)
    ensures LoadKind(x) == Other || (LoadKind(x).Load() && Op("00000", x)) || (LoadKind(x).Store() && Op("01000", x))
  {
    hide Is, Op;
    IsOp("000", "00000", x);
    IsOp("001", "00000", x);
    IsOp("010", "00000", x);
    IsOp("100", "00000", x);
    IsOp("101", "00000", x);
    IsOp("000", "01000", x);
    IsOp("001", "01000", x);
    IsOp("010", "01000", x);
  }

  /** Ahead of execution, the decoders find the same instruction as execution does. */
  lemma KindsAgree(x: nat)
    ensures LdstrKind(x) == if ExecKind(x).Load() || ExecKind(x).Store() then ExecKind(x) else Other
    ensures BranchKind(x) ==
      if ExecKind(x).Branch() || ExecKind(x) == Jal || ExecKind(x) == Jalr then ExecKind(x) else Other
  {
    hide Is, Op, CompareKind, LoadKind;
    CompareOp(x);
    LoadOp(x);
    IsOp("???", "01101", x);
    IsOp("???", "00101", x);
    IsOp("???", "11011", x);
    IsOp("000", "11001", x);
    forall a, b | a in Opcodes() && b in Opcodes() && a != b ensures !(Op(a, x) && Op(b, x)) { OpsApart(a, b, x); }
  }

  function Bit(c: char): nat { if c == '1' then 1 else 0 }

  lemma KeyOf3(a: string)
    requires Number(a, 3)
    ensures DecodePattern.Key(a) == 4 * Bit(a[0]) + 2 * Bit(a[1]) + Bit(a[2])
  {
    var a2, a1 := a[..2], a[..1];
    assert a2[..1] == a1 && a1[..0] == "";
    assert DecodePattern.Key(a1) == Bit(a[0]);
    assert DecodePattern.Key(a2) == 2 * DecodePattern.Key(a1) + Bit(a[1]);
  }

  lemma KeyOf5(a: string)
    requires Number(a, 5)
    ensures DecodePattern.Key(a) == 16 * Bit(a[0]) + 8 * Bit(a[1]) + 4 * Bit(a[2]) + 2 * Bit(a[3]) + Bit(a[4])
  {
    var a4, a3 := a[..4], a[..3];
    assert a4[..3] == a3;
    KeyOf3(a3);
    assert DecodePattern.Key(a4) == 2 * DecodePattern.Key(a3) + Bit(a[3]);
  }

  lemma {:induction false} LowSplit(x: nat, a: nat, b: nat)
    ensures Low(x, a + b) == Low(x, a) + Up(Low(Shr(x, a), b), a)
    decreases a
  {
    if a > 0 { LowSplit(x / 2, a - 1, b); }
  }

  lemma LowBound(x: nat, k: nat)
    ensures Low(x, k) < Pow2(k)
  {
    Split(x, k);
  }

  /** The seven opcode bits, from their two fields. */
  lemma OpcodeBits(x: nat)
    ensures Field(x, 6, 0) == 4 * Field(x, 6, 2) + Field(x, 1, 0) && Field(x, 1, 0) < 4
  {
    hide Low, Up;
    ShrNothing(x);
    LowSplit(x, 2, 5);
    Up8(Low(Shr(x, 2), 5));
    LowBound(x, 2);
    Up8(1);
  }

  /** A pattern tests the opcode and function code that its digits make. */
  lemma IsNumbers(funct3: string, op: string, x: nat, f: nat, o: nat)
    requires (Number(funct3, 3) && f == 4 * Bit(funct3[0]) + 2 * Bit(funct3[1]) + Bit(funct3[2])) || funct3 == "???"
    requires Number(op, 5)
    requires o == 64 * Bit(op[0]) + 32 * Bit(op[1]) + 16 * Bit(op[2]) + 8 * Bit(op[3]) + 4 * Bit(op[4]) + 3
    ensures Is(funct3, op, x) <==> Field(x, 6, 0) == o && (funct3 == "???" || Field(x, 14, 12) == f)
  {
    hide Field, Is;
    IsFields(funct3, op, x);
    OpcodeBits(x);
    KeyOf5(op);
    if funct3 != "???" { KeyOf3(funct3); }
  }

  lemma LoadNumbers(x: nat)
    ensures var op, f := Field(x, 6, 0), Field(x, 14, 12);
      LoadKind(x) ==
        if op == 0x03 then (if f == 0 then Lb else if f == 1 then Lh else if f == 2 then Lw else if f == 4 then Lbu
                            else if f == 5 then Lhu else Other)
        else if op == 0x23 then (if f == 0 then Sb else if f == 1 then Sh else if f == 2 then Sw else Other)
        else Other
  {
    hide Field, Is;
    IsNumbers("000", "00000", x, 0, 0x03);
    IsNumbers("001", "00000", x, 1, 0x03);
    IsNumbers("010", "00000", x, 2, 0x03);
    IsNumbers("100", "00000", x, 4, 0x03);
    IsNumbers("101", "00000", x, 5, 0x03);
    IsNumbers("000", "01000", x, 0, 0x23);
    IsNumbers("001", "01000", x, 1, 0x23);
    IsNumbers("010", "01000", x, 2, 0x23);
  }

  lemma CompareNumbers(x: nat)
    ensures var op, f := Field(x, 6, 0), Field(x, 14, 12);
      CompareKind(x) ==
        if op != 0x63 then Other
        else if f == 0 then Beq else if f == 1 then Bne else if f == 4 then Blt else if f == 5 then Bge
        else if f == 6 then Bltu else if f == 7 then Bgeu else Other
  {
    hide Field, Is;
    IsNumbers("000", "11000", x, 0, 0x63);
    IsNumbers("001", "11000", x, 1, 0x63);
    IsNumbers("100", "11000", x, 4, 0x63);
    IsNumbers("101", "11000", x, 5, 0x63);
    IsNumbers("110", "11000", x, 6, 0x63);
    IsNumbers("111", "11000", x, 7, 0x63);
  }

  /** Each instruction by the values of its opcode and function code, as in the listings of the ISA. */
  lemma KindExactly(x: nat)
    ensures var op, f, k := Field(x, 6, 0), Field(x, 14, 12), ExecKind(x);
      && (k == Lui <==> op == 0x37) && (k == Auipc <==> op == 0x17)
      && (k == Jal <==> op == 0x6f) && (k == Jalr <==> op == 0x67 && f == 0)
      && (k == Beq <==> op == 0x63 && f == 0) && (k == Bne <==> op == 0x63 && f == 1)
      && (k == Blt <==> op == 0x63 && f == 4) && (k == Bge <==> op == 0x63 && f == 5)
      && (k == Bltu <==> op == 0x63 && f == 6) && (k == Bgeu <==> op == 0x63 && f == 7)
      && (k == Lb <==> op == 0x03 && f == 0) && (k == Lh <==> op == 0x03 && f == 1)
      && (k == Lw <==> op == 0x03 && f == 2) && (k == Lbu <==> op == 0x03 && f == 4)
      && (k == Lhu <==> op == 0x03 && f == 5) && (k == Sb <==> op == 0x23 && f == 0)
      && (k == Sh <==> op == 0x23 && f == 1) && (k == Sw <==> op == 0x23 && f == 2)
  {
    hide Field, Is, LoadKind, CompareKind;
    LoadNumbers(x);
    CompareNumbers(x);
    IsNumbers("???", "01101", x, 0, 0x37);
    IsNumbers("???", "00101", x, 0, 0x17);
    IsNumbers("???", "11011", x, 0, 0x6f);
    IsNumbers("000", "11001", x, 0, 0x67);
  }

  function Opcodes(): (r: set<string>)
    ensures forall a :: a in r ==> Number(a, 5)
  {
    {"01101", "00101", "11011", "11001", "11000", "00000", "01000"}
  }

  // ----- operands and effects -----

  datatype Cpu = Cpu(pc: Word, regs: seq<Word>)

  function Reg(cpu: Cpu, i: nat): Word { if i < |cpu.regs| then cpu.regs[i] else 0 }

  function Wrap(x: int): Word { x % W32 }

  function Sext(v: nat, bits: nat): int
    requires bits > 0
  {
    if v < Pow2(bits - 1) then v else v - Pow2(bits)
  }

  function Src1(cpu: Cpu, x: nat): Word { Reg(cpu, Field(x, 19, 15)) }
  function Src2(cpu: Cpu, x: nat): Word { Reg(cpu, Field(x, 24, 20)) }
  function ImmI(x: nat): int { Sext(Field(x, 31, 20), 12) }
  function ImmS(x: nat): int { Sext(Field(x, 31, 25), 7) * 32 + Field(x, 11, 7) }
  function ImmB(x: nat): int {
    Sext(Field(x, 31, 31), 1) * 4096 + Field(x, 7, 7) * 2048 + Field(x, 30, 25) * 32 + Field(x, 11, 8) * 2
  }
  function ImmJ(x: nat): int {
    Sext(Field(x, 31, 31), 1) * 0x10_0000 + Field(x, 19, 12) * 4096 + Field(x, 20, 20) * 2048 + Field(x, 30, 21) * 2
  }

  function JalrTarget(cpu: Cpu, x: nat): Word {
    var t := Wrap(Src1(cpu, x) + ImmI(x));
    t - t % 2
  }

  /** The next address after execution; ecall and mret, among Other, give their own. */
  function NextPc(cpu: Cpu, x: nat, trap: (Cpu, nat) -> Word): Word {
    var a, b := Src1(cpu, x), Src2(cpu, x);
    var next, target := Wrap(cpu.pc + 4), Wrap(cpu.pc + ImmB(x));
    match ExecKind(x)
    case Jal => Wrap(cpu.pc + ImmJ(x))
    case Jalr => JalrTarget(cpu, x)
    case Beq => if a == b then target else next
    case Bne => if a != b then target else next
    case Blt => if Signed(a) < Signed(b) then target else next
    case Bge => if Signed(a) >= Signed(b) then target else next
    case Bltu => if a < b then target else next
    case Bgeu => if a >= b then target else next
    case Other => trap(cpu, x)
    case _ => next
  }

  /** The memory access of the execution, a call of Mr or Mw. */
  function MemoryAccess(cpu: Cpu, x: nat): Option<TraceSim.Data> {
    match ExecKind(x)
    case Lb | Lh | Lw | Lbu | Lhu => Some(TraceSim.Data(true, Wrap(Src1(cpu, x) + ImmI(x))))
    case Sb | Sh | Sw => Some(TraceSim.Data(false, Wrap(Src1(cpu, x) + ImmS(x))))
    case _ => None
  }

  function DecodeLdstr(cpu: Cpu, x: nat): Option<TraceSim.Data> {
    var k := LdstrKind(x);
    if k.Load() then Some(TraceSim.Data(true, Wrap(Src1(cpu, x) + ImmI(x))))
    else if k.Store() then Some(TraceSim.Data(false, Wrap(Src1(cpu, x) + ImmS(x))))
    else None
  }

  function DecodeBranch(cpu: Cpu, x: nat): Option<TraceSim.Branch> {
    var a, b := Src1(cpu, x), Src2(cpu, x);
    var target := Wrap(cpu.pc + ImmB(x));
    match BranchKind(x)
    case Beq => Some(TraceSim.Branch(cpu.pc, target, false, a == b))
    case Bne => Some(TraceSim.Branch(cpu.pc, target, false, a != b))
    case Blt => Some(TraceSim.Branch(cpu.pc, target, false, Signed(a) < Signed(b)))
    case Bge => Some(TraceSim.Branch(cpu.pc, target, false, Signed(a) >= Signed(b)))
    case Bltu => Some(TraceSim.Branch(cpu.pc, target, false, a < b))
    case Bgeu => Some(TraceSim.Branch(cpu.pc, target, false, a >= b))
    case Jal => Some(TraceSim.Branch(cpu.pc, Wrap(cpu.pc + ImmJ(x)), true, true))
    case Jalr => Some(TraceSim.Branch(cpu.pc, JalrTarget(cpu, x), true, true))
    case _ => None
  }

  /** The access entry is the access that execution makes. */
  lemma LdstrIsAccess(cpu: Cpu, x: nat)
    ensures DecodeLdstr(cpu, x) == MemoryAccess(cpu, x)
  {
    hide ExecKind, LdstrKind, Src1, ImmI, ImmS;
    KindsAgree(x);
  }

  /** The RV32I condition of a branch. */
  predicate Taken(k: Kind, a: Word, b: Word) {
    match k
    case Beq => a == b
    case Bne => a != b
    case Blt => Signed(a) < Signed(b)
    case Bge => Signed(a) >= Signed(b)
    case Bltu => a < b
    case Bgeu => a >= b
    case _ => true
  }

  /** The branch or jump that execution makes, if the instruction is one. */
  function ExecutedJump(cpu: Cpu, x: nat): Option<TraceSim.Branch> {
    var k := ExecKind(x);
    if k.Branch() then
      Some(TraceSim.Branch(cpu.pc, Wrap(cpu.pc + ImmB(x)), false, Taken(k, Src1(cpu, x), Src2(cpu, x))))
    else if k == Jal then Some(TraceSim.Branch(cpu.pc, Wrap(cpu.pc + ImmJ(x)), true, true))
    else if k == Jalr then Some(TraceSim.Branch(cpu.pc, JalrTarget(cpu, x), true, true))
    else None
  }

  /** next is where the instruction leads: the target of a taken branch or jump, else the address after
      it, traps aside. */
  predicate JumpLeadsTo(cpu: Cpu, x: nat, next: Word) {
    match ExecutedJump(cpu, x)
    case Some(b) => next == if b.taken then b.target else Wrap(cpu.pc + 4)
    case None => ExecKind(x) != Other ==> next == Wrap(cpu.pc + 4)
  }

  /** The decoded entry is the jump that execution makes, and execution goes where it leads. */
  lemma JumpDecoded(cpu: Cpu, x: nat, trap: (Cpu, nat) -> Word)
    ensures DecodeBranch(cpu, x) == ExecutedJump(cpu, x)
    ensures JumpLeadsTo(cpu, x, NextPc(cpu, x, trap))
  {
    hide ExecKind, BranchKind, Src1, Src2, ImmB, ImmI, ImmJ, JalrTarget, Wrap, Signed;
    KindsAgree(x);
  }

  // ----- the formats -----

  lemma Pow2Small()
    ensures Pow2(0) == 1 && Pow2(1) == 2 && Pow2(6) == 64 && Pow2(7) == 128 && Pow2(11) == 2048 && Pow2(12) == 4096
  {
    hide Up;
    Up8(1);
    UpStep(1, 6);
    UpStep(1, 5);
    UpStep(1, 4);
    UpUp(1, 8, 4);
    Up8(Up(1, 8));
    UpStep(1, 11);
    assert Up(1, 0) == 1 by { UpNone(); }
  }

  lemma UpNone()
    ensures Up(1, 0) == 1
  {
  }

  /** The digits of a number at one place. */
  lemma Slice(x: int, k: nat, n: nat)
    requires k in {2, 32, 2048, 4096} && n in {2, 16, 64, 256, 1024}
    ensures x / k == n * (x / (k * n)) + x / k % n
  {
    assert x / k / n == x / (k * n);
  }

  /** Where the ISA's formats put the digits of an immediate, and that decoding finds it. */
  lemma ImmediateI(x: nat, imm: int)
    requires -2048 <= imm < 2048 && Field(x, 31, 20) == imm % 4096
    ensures ImmI(x) == imm
  {
    hide Field, Up;
    Pow2Small();
  }

  lemma ImmediateS(x: nat, imm: int)
    requires -2048 <= imm < 2048 && Field(x, 31, 25) == imm / 32 % 128 && Field(x, 11, 7) == imm % 32
    ensures ImmS(x) == imm
  {
    hide Field, Up;
    Pow2Small();
  }

  lemma ImmediateB(x: nat, imm: int)
    requires -4096 <= imm < 4096 && imm % 2 == 0
    requires Field(x, 31, 31) == imm / 4096 % 2 && Field(x, 7, 7) == imm / 2048 % 2
    requires Field(x, 30, 25) == imm / 32 % 64 && Field(x, 11, 8) == imm / 2 % 16
    ensures ImmB(x) == imm
  {
    hide Field, Up;
    Pow2Small();
    Slice(imm, 2, 16);
    Slice(imm, 32, 64);
    Slice(imm, 2048, 2);
  }

  lemma ImmediateJ(x: nat, imm: int)
    requires -0x10_0000 <= imm < 0x10_0000 && imm % 2 == 0
    requires Field(x, 31, 31) == imm / 0x10_0000 % 2 && Field(x, 19, 12) == imm / 4096 % 256
    requires Field(x, 20, 20) == imm / 2048 % 2 && Field(x, 30, 21) == imm / 2 % 1024
    ensures ImmJ(x) == imm
  {
    hide Field, Up;
    Pow2Small();
    Slice(imm, 2, 1024);
    Slice(imm, 2048, 2);
    Slice(imm, 4096, 256);
  }

  /** The condition of a branch by its function code, on the registers that the instruction names. */
  lemma BranchMeaning(cpu: Cpu, x: nat)
    requires Field(x, 6, 0) == 0x63 && Field(x, 14, 12) != 2 && Field(x, 14, 12) != 3
    ensures Field(x, 14, 12) < 8
    ensures var f, a, b := Field(x, 14, 12), Reg(cpu, Field(x, 19, 15)), Reg(cpu, Field(x, 24, 20));
      var taken := if f == 0 then a == b else if f == 1 then a != b
                   else if f == 4 then Signed(a) < Signed(b) else if f == 5 then Signed(a) >= Signed(b)
                   else if f == 6 then a < b else a >= b;
      ExecutedJump(cpu, x) == Some(TraceSim.Branch(cpu.pc, (cpu.pc + ImmB(x)) % W32, false, taken))
  {
    hide Field, ExecKind, ImmB, ImmJ, JalrTarget, Signed, Reg;
    KindExactly(x);
    Function3(x);
  }

  lemma Function3(x: nat)
    ensures Field(x, 14, 12) < 8
  {
    hide Low, Up;
    LowBound(Shr(x, 12), 3);
    Up8(1);
    UpStep(1, 2);
  }

  /** The target of a jump. */
  lemma JumpMeaning(cpu: Cpu, x: nat)
    ensures var op, f, a := Field(x, 6, 0), Field(x, 14, 12), Reg(cpu, Field(x, 19, 15));
      && (op == 0x6f ==> ExecutedJump(cpu, x) == Some(TraceSim.Branch(cpu.pc, (cpu.pc + ImmJ(x)) % W32, true, true)))
      && (op == 0x67 && f == 0 ==>
            ExecutedJump(cpu, x) == Some(TraceSim.Branch(cpu.pc, (a + ImmI(x)) % W32 / 2 * 2, true, true)))
  {
    hide Field, ExecKind, ImmI, ImmJ, ImmB, Reg, Taken;
    KindExactly(x);
  }

  /** Nothing else jumps. */
  lemma NoJump(cpu: Cpu, x: nat)
    requires var op, f := Field(x, 6, 0), Field(x, 14, 12);
      op != 0x6f && (op == 0x67 ==> f != 0) && (op == 0x63 ==> f == 2 || f == 3)
    ensures ExecutedJump(cpu, x) == None
  {
    hide Field, ExecKind, ImmI, ImmJ, ImmB, Reg, Taken;
    KindExactly(x);
  }

  /** The address of a load or store, and that nothing else accesses memory. */
  lemma AccessMeaning(cpu: Cpu, x: nat)
    ensures var op, f, a := Field(x, 6, 0), Field(x, 14, 12), Reg(cpu, Field(x, 19, 15));
      MemoryAccess(cpu, x) ==
        if op == 0x03 && f in {0, 1, 2, 4, 5} then Some(TraceSim.Data(true, (a + ImmI(x)) % W32))
        else if op == 0x23 && f in {0, 1, 2} then Some(TraceSim.Data(false, (a + ImmS(x)) % W32))
        else None
  {
    hide Field, ExecKind, ImmI, ImmS, Reg;
    KindExactly(x);
  }

  // ----- over a run -----

  /** The emulator as the pipeline sees it. */
  ghost predicate Emulates<S>(m: TraceSim.Machine<S>, s: S, n: nat, cpu: S -> Cpu, inst: S -> nat,
                              trap: (Cpu, nat) -> Word) {
    forall j :: 0 <= j < n ==> var at := TraceSim.After(m, s, j);
      && m.pc(at) == cpu(at).pc && m.data(at) == DecodeLdstr(cpu(at), inst(at))
      && m.branch(at) == DecodeBranch(cpu(at), inst(at))
      && cpu(m.exec(at)).pc == NextPc(cpu(at), inst(at), trap)
  }

  /** The memory access and the branch or jump of the j-th instruction. */
  ghost function AccessAt<S>(m: TraceSim.Machine<S>, s: S, cpu: S -> Cpu, inst: S -> nat):
    nat -> Option<TraceSim.Data>
  {
    (j: nat) => MemoryAccess(cpu(TraceSim.After(m, s, j)), inst(TraceSim.After(m, s, j)))
  }

  ghost function JumpAt<S>(m: TraceSim.Machine<S>, s: S, cpu: S -> Cpu, inst: S -> nat):
    nat -> Option<TraceSim.Branch>
  {
    (j: nat) => ExecutedJump(cpu(TraceSim.After(m, s, j)), inst(TraceSim.After(m, s, j)))
  }

  /** Over every run, the data entries are the memory accesses, each once and in order. */
  lemma DataEntries<S>(m: TraceSim.Machine<S>, s: S, n: nat, cpu: S -> Cpu, inst: S -> nat, trap: (Cpu, nat) -> Word)
    requires Emulates(m, s, n, cpu, inst, trap)
    ensures TraceSim.Lists(TraceSim.Datas(m, s, n), AccessAt(m, s, cpu, inst), n)
  {
    hide DecodeBranch, DecodeLdstr, NextPc, MemoryAccess, TraceSim.Lists, TraceSim.After;
    TraceSim.StreamsList(m, s, n);
    var f, g := TraceSim.DataAt(m, s), AccessAt(m, s, cpu, inst);
    forall j: nat | j < n ensures f(j) == g(j) {
      LdstrIsAccess(cpu(TraceSim.After(m, s, j)), inst(TraceSim.After(m, s, j)));
    }
    TraceSim.ListsSame(TraceSim.Datas(m, s, n), f, g, n);
  }

  /** Over every run, the branch entries are the executed branches and jumps, each once and in order, and
      the instruction executed after each is at the target if it is taken and after it otherwise. */
  lemma BranchEntries<S>(m: TraceSim.Machine<S>, s: S, n: nat, cpu: S -> Cpu, inst: S -> nat, trap: (Cpu, nat) -> Word)
    requires Emulates(m, s, n, cpu, inst, trap)
    ensures TraceSim.Lists(TraceSim.Branches(m, s, n), JumpAt(m, s, cpu, inst), n)
    ensures forall j :: 0 <= j < n ==> var at := TraceSim.After(m, s, j);
      JumpLeadsTo(cpu(at), inst(at), cpu(m.exec(at)).pc)
  {
    hide DecodeBranch, DecodeLdstr, NextPc, ExecutedJump, JumpLeadsTo, TraceSim.Lists, TraceSim.After;
    TraceSim.StreamsList(m, s, n);
    var f, g := TraceSim.BranchAt(m, s), JumpAt(m, s, cpu, inst);
    forall j: nat | j < n ensures var at := TraceSim.After(m, s, j);
      f(j) == g(j) && JumpLeadsTo(cpu(at), inst(at), cpu(m.exec(at)).pc)
    {
      JumpDecoded(cpu(TraceSim.After(m, s, j)), inst(TraceSim.After(m, s, j)), trap);
    }
    TraceSim.ListsSame(TraceSim.Branches(m, s, n), f, g, n);
  }
}
