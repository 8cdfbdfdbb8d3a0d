/**
The two configurations of the x86 AbstractMachine: 32-bit paging with two levels and 64-bit paging
with four.
*/
module PageTableConfig {
  import opened Bits
  import opened PageTable

  function Paging32(): Config {
    var areas := [Area(0, 256), Area(1012, 12)];
    Config([Level(22, 10), Level(12, 10)], 0x4000_0000, 0x8000_0000,
      set i: nat | i < 1024 && Covered(areas, i), 32, areas, 32, true)
  }

  function Paging64(): Config {
    Config([Level(39, 9), Level(30, 9), Level(21, 9), Level(12, 9)], 0x1000_0000_0000, 0x1080_0000_0000,
      {0}, 48, [Area(0, 1)], 64, true)
  }

  lemma Up22(x: nat)
    ensures Up(x, 22) == 0x40_0000 * x
  {
    hide Up;
    Up16(x);
    Up8(Up(x, 16));
    Up8(Up(Up(x, 16), 4));
    UpUp(Up(x, 16), 4, 2);
    UpUp(x, 16, 6);
  }

  lemma Up39(x: nat)
    ensures Up(x, 39) == 0x80_0000_0000 * x
  {
    hide Up;
    Up32(x);
    Up8(Up(x, 32));
    UpUp(x, 32, 8);
    UpStep(x, 39);
  }

  lemma Pow2Of9And10()
    ensures Pow2(9) == 512 && Pow2(10) == 1024
  {
    hide Up;
    Up8(1);
    Up8(Up(1, 8));
    UpUp(1, 8, 2);
    UpUp(1, 8, 1);
  }

  /** The 32-bit tables cover the address bits without gap or overlap, and the user area shares no
      root slot with the kernel's two areas, one of which ends at the top of memory. */
  lemma Paging32Fits()
    ensures Contiguous(Paging32()) && Separate(Paging32()) && AreasOk(Paging32())
    ensures Start(Paging32(), Area(1012, 12)) == 0xfd00_0000 && End(Paging32(), Area(1012, 12)) == 0
    ensures Start(Paging32(), Area(0, 256)) == 0 && End(Paging32(), Area(0, 256)) == Paging32().userLo
  {
    hide Up, IndexOf;
    var c := Paging32();
    Pow2Of9And10();
    Up32(1);
    Up22(0);
    Up22(256);
    Up22(512);
    Up22(1012);
    Up22(1024);
    forall va | c.userLo <= va < c.userHi ensures IndexOf(va, c.levels[0]) !in c.kernel { SlotRange(c, va, 256, 512); }
  }

  lemma Paging64Fits()
    ensures Contiguous(Paging64()) && Separate(Paging64()) && AreasOk(Paging64())
    ensures Start(Paging64(), Area(0, 1)) == 0 && End(Paging64(), Area(0, 1)) == 0x80_0000_0000
  {
    hide Up, IndexOf;
    var c := Paging64();
    Pow2Of9And10();
    Up32(1);
    Up16(Up(1, 32));
    UpUp(1, 32, 16);
    Up64(1);
    Up39(0);
    Up39(1);
    Up39(32);
    Up39(33);
    forall va | c.userLo <= va < c.userHi ensures IndexOf(va, c.levels[0]) !in c.kernel { SlotRange(c, va, 32, 33); }
    assert Covers(c.areas[0], 0);
  }
}
