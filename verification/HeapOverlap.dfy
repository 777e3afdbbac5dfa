/** What the missing back link of src/sys/heap.c:168-171 leads to. */
module HeapOverlap {
  import opened HeapBlocks

  /** Three blocks: 96 bytes free, 64 used, 64 free. */
  const BEFORE := [Block(0x1000, 96, false), Block(0x1070, 64, true), Block(0x10C0, 64, false)]

  /** heap_alloc(32) splits the first block; heap_alloc(48) takes the rest of it whole, at
      0x1030; then the first block and the one at 0x1070 are freed. */
  function Run(m: Mem): Mem {
    var m1 := SplitAsWritten(m, 0x1000, 32);
    var m2 := m1[0x1030 := FlagWord(true)][0x1034 := 48];
    FreeWrites(FreeWrites(m2, 0x1000), 0x1070)
  }

  lemma FirstFreed(m: Mem)
    requires HeaderAt(m, Block(0x1000, 32, true), 0, 0x1030) && HeaderAt(m, Block(0x1030, 48, true), 0x1000, 0x1070)
    ensures FreeWrites(m, 0x1000) == m[0x1000 := HEAP_MAGIC]
  {
    UsedWord(true);
  }

  /** The back link of 0x1070 still leads to 0x1000, past the live block. */
  lemma SecondFreed(m: Mem)
    requires HeaderAt(m, Block(0x1000, 32, false), 0, 0x1030) && HeaderAt(m, Block(0x1030, 48, true), 0x1000, 0x1070)
    requires HeaderAt(m, BEFORE[1], 0x1000, 0x10C0) && HeaderAt(m, BEFORE[2], 0x1070, 0)
    ensures var m' := FreeWrites(m, 0x1070);
      Flags(m', 0x1000) == HEAP_MAGIC && Size(m', 0x1000) == 96 && Next(m', 0x1000) == 0x1070
  {
    UsedWord(false);
    var m1 := m[0x1070 := HEAP_MAGIC];
    assert FlagWord(true) - HEAP_FLG_USED == HEAP_MAGIC;
    MergeNextIs(m1, 0x1070);
    var m2 := MergeNext(m1, 0x1070);
    assert HeaderAt(m2, Block(0x1000, 32, false), 0, 0x1030) && Size(m2, 0x1030) == 48 && Next(m2, 0x1030) == 0x1070;
    assert Prev(m2, 0x1070) == 0x1000;
    assert FreeWrites(m, 0x1070) == MergePrev(m2, 0x1000) by {
      hide MergeNext, MergePrev;
    }
    hide FreeWrites, MergeNext, MergePrev;
    MergePrevIs(m2, 0x1000);
  }

  lemma AfterAllocs(m: Mem) returns (m2: Mem)
    requires HeaderAt(m, BEFORE[0], 0, 0x1070) && HeaderAt(m, BEFORE[1], 0x1000, 0x10C0) && HeaderAt(m, BEFORE[2], 0x1070, 0)
    ensures m2 == SplitAsWritten(m, 0x1000, 32)[0x1030 := FlagWord(true)][0x1034 := 48]
    ensures HeaderAt(m2, Block(0x1000, 32, true), 0, 0x1030) && HeaderAt(m2, Block(0x1030, 48, true), 0x1000, 0x1070)
    ensures HeaderAt(m2, BEFORE[1], 0x1000, 0x10C0) && HeaderAt(m2, BEFORE[2], 0x1070, 0)
  {
    m2 := SplitAsWritten(m, 0x1000, 32)[0x1030 := FlagWord(true)][0x1034 := 48];
  }

  /** The block at 0x1030 was never freed, but a free block of 96 bytes now covers it: the
      next heap_alloc(96) hands out [0x1010, 0x1070), which contains its payload
      [0x1040, 0x1070). */
  lemma LiveBlockCovered(m: Mem)
    requires Spells(m, BEFORE)
    ensures !IsUsed(Flags(Run(m), 0x1000)) && Size(Run(m), 0x1000) == 96
    ensures Next(Run(m), 0x1000) == 0x1070
  {
    assert HeaderIs(m, BEFORE, 0) && HeaderIs(m, BEFORE, 1) && HeaderIs(m, BEFORE, 2);
    var m2 := AfterAllocs(m);
    FirstFreed(m2);
    var m3 := m2[0x1000 := HEAP_MAGIC];
    hide FreeWrites;
    SecondFreed(m3);
  }
}
