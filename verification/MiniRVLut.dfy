/**
gen-lut.c: the program that writes the table file, and the file it writes.
*/
module MiniRVLut {
  import opened Bits
  import opened MiniRV
  import opened MiniRVLogic
  import opened MiniRVShift

  /** The bytes written so far are the first bytes of the table file. */
  ghost predicate Prefix(out: seq<int>, n: nat) {
    n <= LUT_SIZE && |out| == n && forall k :: 0 <= k < n ==> out[k] == LutByte(k)
  }

  /** gen_table with one byte per entry: and, or or xor of the row and column numbers. */
  method GenByteTable(op: LogicOp, out: seq<int>) returns (out': seq<int>)
    requires Prefix(out, Table(op))
    ensures Prefix(out', Table(op) + 0x1_0000)
  {
    hide LutByte, BitAnd, BitOr, BitXor;
    out' := out;
    for j := 0 to 256
      invariant Prefix(out', Table(op) + 256 * j)
    {
      for i := 0 to 256
        invariant Prefix(out', Table(op) + 256 * j + i)
      {
        ByteEntry(op, j, i);
        out' := out' + [Bitwise(op, j, i)];
      }
    }
  }

  lemma ByteEntry(op: LogicOp, j: nat, i: nat)
    requires j < 256 && i < 256
    ensures Table(op) + 256 * j + i < LUT_SIZE && LutByte(Table(op) + 256 * j + i) == Bitwise(op, j, i)
  {
    hide BitAnd, BitOr, BitXor;
  }

  /** gen_table with one little-endian word per entry: a byte shifted by the row number. */
  method GenWordTable(table: nat, out: seq<int>) returns (out': seq<int>)
    requires IsShiftTable(table) && Prefix(out, table)
    ensures Prefix(out', table + 0x8000)
  {
    hide LutByte, ShiftEntry, ByteOf;
    out' := out;
    for j := 0 to 32
      invariant Prefix(out', table + 1024 * j)
    {
      for i := 0 to 256
        invariant Prefix(out', table + 1024 * j + 4 * i)
      {
        EntryIndex(table, j, i);
        var res := ShiftEntry(table, j, i);
        ghost var k := table + 1024 * j + 4 * i;
        assert LutByte(k + 0) == ByteOf(res, 0) && LutByte(k + 1) == ByteOf(res, 1);
        assert LutByte(k + 2) == ByteOf(res, 2) && LutByte(k + 3) == ByteOf(res, 3);
        out' := out' + [ByteOf(res, 0), ByteOf(res, 1), ByteOf(res, 2), ByteOf(res, 3)];
      }
    }
  }

  /** The whole program: the six tables in the order the macros expect them. */
  method GenLut() returns (file: seq<int>)
    ensures |file| == LUT_SIZE && forall k :: 0 <= k < LUT_SIZE ==> file[k] == LutByte(k)
  {
    hide LutByte;
    file := GenByteTable(AndOp, []);
    file := GenByteTable(OrOp, file);
    file := GenByteTable(XorOp, file);
    file := GenWordTable(SLL8, file);
    file := GenWordTable(SRL8, file);
    file := GenWordTable(SRA8, file);
  }
}
