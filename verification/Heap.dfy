/** The kernel heap, src/sys/heap.c: up to sixteen regions, each a block list in memory. */
module Heap {
  import opened HeapBlocks
  import opened HeapRealloc

  const HEAP_MAX := 16

  datatype Outcome = Returned(value: int) | Panicked

  /** (a & b) == b on the low n bits. */
  predicate Covers(a: int, b: int, n: nat)
    decreases n
  {
    n == 0 || ((b % 2 == 1 ==> a % 2 == 1) && Covers(a / 2, b / 2, n - 1))
  }

  /** The test of heap_free_single, line 193, on the header in front of a pointer. */
  predicate Freeable(flags: int) { Covers(flags, HEAP_MAGIC, 32) && IsUsed(flags) }

  lemma {:induction false} CoversSelf(a: int, n: nat)
    ensures Covers(a, a, n)
    decreases n
  {
    if n == 0 {
    } else {
      CoversSelf(a / 2, n - 1);
    }
  }

  lemma NothingCovers(b: int, n: nat)
    requires b % 2 == 1 && n > 0
    ensures !Covers(0, b, n)
  {
  }

  lemma CoversStep(c: int, a: int, n: nat)
    requires n > 0 && (a % 2 == 1 ==> c % 2 == 1) && Covers(c / 2, a / 2, n - 1)
    ensures Covers(c, a, n)
  {
  }

  lemma CoversUsed()
    ensures Covers(HEAP_MAGIC + HEAP_FLG_USED, HEAP_MAGIC, 32)
  {
    hide Covers;
    CoversSelf(0x6F56F80, 27);
    CoversStep(0xDEADF01, 0xDEADF00, 28);
    CoversStep(0x1BD5BE03, 0x1BD5BE01, 29);
    CoversStep(0x37AB7C07, 0x37AB7C03, 30);
    CoversStep(0x6F56F80E, 0x6F56F806, 31);
    CoversStep(HEAP_MAGIC + HEAP_FLG_USED, HEAP_MAGIC, 32);
  }

  /** A listed block can be freed exactly when it is used; a header that a merge swallowed
      cannot. */
  lemma FreeableWords(used: bool)
    ensures Freeable(FlagWord(used)) <==> used
    ensures !Freeable(ClearMagic(HEAP_MAGIC)) && Covers(FlagWord(used), HEAP_MAGIC, 32)
  {
    assert ClearMagic(HEAP_MAGIC) == 0;
    UsedWord(used);
    CoversSelf(HEAP_MAGIC, 32);
    CoversUsed();
    hide Covers;
    NothingCovers(HEAP_MAGIC, 32);
  }

  // ---- several regions

  ghost predicate RegionsApart(regions: seq<int>, ends: seq<int>) {
    |regions| == |ends| && forall r, s :: 0 <= r < |regions| && 0 <= s < |regions| && r != s ==> ends[r] <= regions[s] || ends[s] <= regions[r]
  }

  ghost predicate AllRegions(m: Mem, regions: seq<int>, lists: seq<seq<Block>>, ends: seq<int>) {
    && |regions| == |lists| == |ends| <= HEAP_MAX && RegionsApart(regions, ends)
    && forall r :: 0 <= r < |regions| ==> Region(m, lists[r], regions[r], ends[r])
  }

  function Sum(lists: seq<seq<Block>>): int {
    if lists == [] then 0 else Total(lists[0]) + Sum(lists[1..])
  }

  function Capacity(regions: seq<int>, ends: seq<int>): int
    requires |regions| == |ends|
  {
    if regions == [] then 0 else ends[0] - regions[0] + Capacity(regions[1..], ends[1..])
  }

  lemma {:induction false} SumUpdate(lists: seq<seq<Block>>, r: nat, bs: seq<Block>)
    requires r < |lists|
    ensures Sum(lists[r := bs]) == Sum(lists) - Total(lists[r]) + Total(bs)
  {
    if r == 0 {
      assert lists[r := bs][1..] == lists[1..];
    } else {
      assert lists[r := bs][1..] == lists[1..][r - 1 := bs];
      SumUpdate(lists[1..], r - 1, bs);
    }
  }

  lemma {:induction false} SumAppend(lists: seq<seq<Block>>, bs: seq<Block>)
    ensures Sum(lists + [bs]) == Sum(lists) + Total(bs)
  {
    if lists != [] {
      assert (lists + [bs])[1..] == lists[1..] + [bs];
      SumAppend(lists[1..], bs);
    } else {
      assert lists + [bs] == [bs];
    }
  }

  lemma {:induction false} CapacityAppend(regions: seq<int>, ends: seq<int>, lo: int, hi: int)
    requires |regions| == |ends|
    ensures Capacity(regions + [lo], ends + [hi]) == Capacity(regions, ends) + hi - lo
  {
    if regions != [] {
      assert (regions + [lo])[1..] == regions[1..] + [lo] && (ends + [hi])[1..] == ends[1..] + [hi];
      CapacityAppend(regions[1..], ends[1..], lo, hi);
    } else {
      assert regions + [lo] == [lo] && ends + [hi] == [hi];
    }
  }

  /** Writes inside one region leave the others' lists alone. */
  lemma Elsewhere(m: Mem, m': Mem, lo: int, hi: int, bs: seq<Block>, from: int, to: int)
    requires Region(m, bs, from, to) && Within(m, m', lo, hi) && (hi <= from || to <= lo)
    ensures Region(m', bs, from, to)
    ensures forall j :: 0 <= j < |bs| ==> PayloadKept(m, m', bs[j])
  {
    hide Rd;
    forall i | 0 <= i < |bs|
      ensures HeaderIs(m', bs, i)
    {
      assert HeaderIs(m, bs, i);
    }
  }

  /** One region's list replaced, by writes inside the region. */
  lemma RegionStep(m: Mem, m': Mem, regions: seq<int>, lists: seq<seq<Block>>, ends: seq<int>, r: nat, bs: seq<Block>)
    requires AllRegions(m, regions, lists, ends) && r < |regions|
    requires Within(m, m', regions[r], ends[r]) && Region(m', bs, regions[r], ends[r])
    ensures AllRegions(m', regions, lists[r := bs], ends) && Sum(lists[r := bs]) == Sum(lists) - Total(lists[r]) + Total(bs)
    ensures forall s, j :: 0 <= s < |lists| && s != r && 0 <= j < |lists[s]| ==> PayloadKept(m, m', lists[s][j])
  {
    hide Region, Within, PayloadKept, Sum, Total;
    SumUpdate(lists, r, bs);
    forall s | 0 <= s < |lists| && s != r
      ensures Region(m', lists[s], regions[s], ends[s]) && forall j :: 0 <= j < |lists[s]| ==> PayloadKept(m, m', lists[s][j])
    {
      Elsewhere(m, m', regions[r], ends[r], lists[s], regions[s], ends[s]);
    }
  }

  /** Every used block but the one named keeps its payload. */
  ghost predicate OthersKept(m: Mem, m': Mem, lists: seq<seq<Block>>, r: int, i: int) {
    forall s, j :: 0 <= s < |lists| && 0 <= j < |lists[s]| && lists[s][j].used && (s != r || j != i) ==> PayloadKept(m, m', lists[s][j])
  }

  // ---- one region's steps, in memory and on the list

  /** What handing out block i leaves, the back link repaired. */
  function AllocWrites(m: Mem, it: int, count: int): Mem {
    if Size(m, it) < count + HDR then m[it := FlagWord(true)][it + 4 := count]
    else Relinked(SplitAsWritten(m, it, count), it + HDR + count)
  }

  /** The bytes that a block handed out to the last byte loses. */
  function Slack(b: Block, count: int): int { if b.size < count + HDR then b.size - count else 0 }

  /** Confined writes in the space of blocks i to e alone. */
  lemma StepKeeps(m: Mem, m': Mem, bs: seq<Block>, lo: int, hi: int, from: int, to: int, i: nat, e: nat)
    requires Laid(bs, lo, hi) && i <= e < |bs| && Confined(m, m', bs, from, to)
    requires from >= to || (bs[i].addr + HDR <= from && to <= bs[e].addr + HDR + bs[e].size)
    ensures Within(m, m', lo, hi) && forall j :: 0 <= j < |bs| && (j < i || j > e) ==> PayloadKept(m, m', bs[j])
  {
    hide Confined, PayloadKept, Within;
    ConfinedWithin(m, m', bs, lo, hi, from, to);
    forall j | 0 <= j < |bs| && (j < i || j > e)
      ensures PayloadKept(m, m', bs[j])
    {
      assert j < i ==> bs[j].addr + HDR + bs[j].size <= bs[i].addr;
      assert j > e ==> bs[e].addr + HDR + bs[e].size <= bs[j].addr;
      ConfinedKeeps(m, m', bs, lo, hi, from, to, j);
    }
  }

  lemma HeaderReads(m: Mem, bs: seq<Block>, lo: int, hi: int, i: nat)
    requires Region(m, bs, lo, hi) && i < |bs|
    ensures var it := bs[i].addr;
      && 0 < it && Flags(m, it) == FlagWord(bs[i].used) && IsUsed(Flags(m, it)) == bs[i].used && Size(m, it) == bs[i].size
      && Next(m, it) == NextAddr(bs, i) && Prev(m, it) == PrevAddr(bs, i) && (i + 1 < |bs| ==> bs[i + 1].addr > 0)
  {
    assert HeaderIs(m, bs, i);
    UsedWord(bs[i].used);
  }

  lemma AllocStep(m: Mem, bs: seq<Block>, lo: int, hi: int, i: nat, count: int)
    requires Region(m, bs, lo, hi) && i < |bs| && Fits(bs[i], count) && 0 <= count
    ensures var m' := AllocWrites(m, bs[i].addr, count);
      && Region(m', Alloc(bs, i, count), lo, hi) && Within(m, m', lo, hi)
      && forall j :: 0 <= j < |bs| && j != i ==> PayloadKept(m, m', bs[j])
    ensures Total(Alloc(bs, i, count)) == Total(bs) - Slack(bs[i], count)
  {
    hide Relinked, SplitAsWritten, Spells, Confined, Laid, NoTwoFree, PayloadKept, Within, Total, Alloc, IsUsed, FlagWord, Flags, Size, Next, Prev;
    var it, m' := bs[i].addr, AllocWrites(m, bs[i].addr, count);
    HeaderReads(m, bs, lo, hi, i);
    AllocKeeps(bs, lo, hi, i, count);
    var to := if bs[i].size < count + HDR then 0 else it + HDR + bs[i].size;
    var from := if bs[i].size < count + HDR then 0 else it + HDR;
    if bs[i].size < count + HDR {
      WholeSpells(m, bs, lo, hi, i, count);
      WholeConfined(m, bs, i, count);
    } else {
      SplitSpells(m, bs, lo, hi, i, count);
      SplitConfined(m, bs, lo, hi, i, count);
    }
    StepKeeps(m, m', bs, lo, hi, from, to, i, i);
  }

  lemma FreeStep(m: Mem, bs: seq<Block>, lo: int, hi: int, i: nat)
    requires Region(m, bs, lo, hi) && i < |bs| && bs[i].used
    ensures var m' := FreeWrites(m, bs[i].addr);
      && Region(m', Free(bs, i), lo, hi) && Within(m, m', lo, hi)
      && forall j :: 0 <= j < |bs| ==> PayloadKept(m, m', bs[j])
    ensures Total(Free(bs, i)) == Total(bs)
  {
    var m' := FreeWrites(m, bs[i].addr);
    hide FreeWrites, Free, Spells, Laid, NoTwoFree, Confined, PayloadKept, Within, Total;
    FreeSpells(m, bs, lo, hi, i);
    FreeKeeps(bs, i);
    ConfinedWithin(m, m', bs, lo, hi, 0, 0);
    forall j | 0 <= j < |bs|
      ensures PayloadKept(m, m', bs[j])
    {
      ConfinedKeeps(m, m', bs, lo, hi, 0, 0, j);
    }
  }

  function Min(a: int, b: int): int { if a < b then a else b }

  lemma PrefixKept(m: Mem, m': Mem, bs: seq<Block>, lo: int, hi: int, from: int, to: int, i: nat, len: int)
    requires Laid(bs, lo, hi) && i < |bs| && Confined(m, m', bs, from, to) && len <= bs[i].size
    requires from >= to || from >= bs[i].addr + HDR + len
    ensures PayloadKept(m, m', bs[i].(size := len))
  {
    hide Rd;
    forall a | bs[i].addr + HDR - 4 < a < bs[i].addr + HDR + len
      ensures !InHeaders(bs, a)
    {
    }
  }

  /** A block grows into a free one only. */
  lemma NextIsFree(bs: seq<Block>, lo: int, hi: int, i: nat, count: int)
    requires Laid(bs, lo, hi) && i < |bs| && !Resize(bs, i, count).Panics? && Sound(bs, i, count)
    ensures 0 <= bs[i].size && (count >= bs[i].size && i + 1 < |bs| ==> !bs[i + 1].used && bs[i].addr + HDR + bs[i].size <= bs[i + 1].addr)
  {
  }

  lemma ReallocStep(m: Mem, bs: seq<Block>, lo: int, hi: int, i: nat, count: int)
    requires Region(m, bs, lo, hi) && i < |bs| && bs[i].used && 0 <= count && !Resize(bs, i, count).Panics? && Sound(bs, i, count)
    ensures var m' := ReallocWrites(m, bs[i].addr, count);
      && Region(m', Realloc(bs, i, count), lo, hi) && Within(m, m', lo, hi)
      && (forall j :: 0 <= j < |bs| && j != i && bs[j].used ==> PayloadKept(m, m', bs[j]))
      && PayloadKept(m, m', bs[i].(size := Min(bs[i].size, count)))
    ensures Total(Realloc(bs, i, count)) == Total(bs) - Lost(bs, i, count)
  {
    hide ReallocWrites, Realloc, Resize, Sound, Spells, Laid, NoTwoFree, Confined, PayloadKept, Within, Total, Lost;
    var m' := ReallocWrites(m, bs[i].addr, count);
    var w := Touched(bs, i, count);
    var e := if count >= bs[i].size && i + 1 < |bs| then i + 1 else i;
    NextIsFree(bs, lo, hi, i, count);
    ReallocSpells(m, bs, lo, hi, i, count);
    ReallocKeeps(bs, lo, hi, i, count);
    StepKeeps(m, m', bs, lo, hi, w.0, w.1, i, e);
    PrefixKept(m, m', bs, lo, hi, w.0, w.1, i, Min(bs[i].size, count));
  }

  // ---- the heap

  /** The header at it is that of block i of region r, in use. */
  ghost predicate UsedAt(lists: seq<seq<Block>>, r: int, i: int, it: int) {
    0 <= r < |lists| && 0 <= i < |lists[r]| && lists[r][i].used && lists[r][i].addr == it
  }

  /** A block in use has its header at it. */
  ghost predicate Begins(lists: seq<seq<Block>>, it: int) {
    exists r, i :: UsedAt(lists, r, i, it)
  }

  /** Pointers come from the heap: a word that reads as the header of a used block is one. */
  ghost predicate Genuine(m: Mem, lists: seq<seq<Block>>, it: int) {
    Freeable(Flags(m, it)) ==> Begins(lists, it)
  }

  /** heap_realloc tests the magic alone: with it the pointer is of a block in use, and
      the resize is one that the writes carry out right. */
  ghost predicate Resizable(m: Mem, lists: seq<seq<Block>>, it: int, count: int) {
    && (Covers(Flags(m, it), HEAP_MAGIC, 32) ==> Begins(lists, it))
    && forall r, i :: UsedAt(lists, r, i, it) ==> Sound(lists[r], i, count)
  }

  lemma UsedIsFreeable(m: Mem, regions: seq<int>, lists: seq<seq<Block>>, ends: seq<int>, r: int, i: int, it: int)
    requires AllRegions(m, regions, lists, ends) && UsedAt(lists, r, i, it)
    ensures Freeable(Flags(m, it)) && regions[r] <= it && Size(m, it) == lists[r][i].size
  {
    hide Freeable;
    assert Region(m, lists[r], regions[r], ends[r]);
    assert HeaderIs(m, lists[r], i);
    FreeableWords(true);
  }

  lemma UsedOnly(m: Mem, regions: seq<int>, lists: seq<seq<Block>>, ends: seq<int>, it: int)
    requires AllRegions(m, regions, lists, ends) && Genuine(m, lists, it)
    ensures Freeable(Flags(m, it)) <==> Begins(lists, it)
  {
    hide AllRegions, Freeable;
    forall r, i | UsedAt(lists, r, i, it)
      ensures Freeable(Flags(m, it))
    {
      UsedIsFreeable(m, regions, lists, ends, r, i, it);
    }
  }

  /** What heap_stat reports, but for the counters that are compiled out. */
  datatype Stat = Stat(free: int, used: int, total: int, blocks: int, frags: int)

  function SizeOf(bs: seq<Block>, used: bool): int {
    if bs == [] then 0 else (if bs[0].used == used then bs[0].size else 0) + SizeOf(bs[1..], used)
  }

  function SumOf(lists: seq<seq<Block>>, used: bool): int {
    if lists == [] then 0 else SizeOf(lists[0], used) + SumOf(lists[1..], used)
  }

  function Blocks(lists: seq<seq<Block>>): int {
    if lists == [] then 0 else |lists[0]| + Blocks(lists[1..])
  }

  lemma {:induction false} TotalSplits(bs: seq<Block>)
    ensures Total(bs) == SizeOf(bs, true) + SizeOf(bs, false) + HDR * |bs|
  {
    if bs == [] {
    } else {
      TotalSplits(bs[1..]);
    }
  }

  lemma {:induction false} SumSplits(lists: seq<seq<Block>>)
    ensures Sum(lists) == SumOf(lists, true) + SumOf(lists, false) + HDR * Blocks(lists)
  {
    if lists == [] {
    } else {
      TotalSplits(lists[0]);
      SumSplits(lists[1..]);
    }
  }

  lemma {:induction false} SizeOfPrefix(bs: seq<Block>, i: nat, used: bool)
    requires i < |bs|
    ensures SizeOf(bs[..i + 1], used) == SizeOf(bs[..i], used) + if bs[i].used == used then bs[i].size else 0
  {
    if i == 0 {
      assert bs[..1] == [bs[0]];
    } else {
      assert bs[..i + 1][1..] == bs[1..][..i] && bs[..i][1..] == bs[1..][..i - 1];
      SizeOfPrefix(bs[1..], i - 1, used);
    }
  }

  lemma {:induction false} SumOfPrefix(lists: seq<seq<Block>>, r: nat)
    requires r < |lists|
    ensures forall used :: SumOf(lists[..r + 1], used) == SumOf(lists[..r], used) + SizeOf(lists[r], used)
    ensures Blocks(lists[..r + 1]) == Blocks(lists[..r]) + |lists[r]|
  {
    if r == 0 {
      assert lists[..1] == [lists[0]];
      assert SumOf([], true) == 0 && SumOf([], false) == 0;
    } else {
      assert lists[..r + 1][1..] == lists[1..][..r] && lists[..r][1..] == lists[1..][..r - 1];
      SumOfPrefix(lists[1..], r - 1);
    }
  }

  /** A block is freed once: its header no longer passes the test. */
  lemma FreedOnce(m: Mem, bs: seq<Block>, lo: int, hi: int, i: nat)
    requires Region(m, bs, lo, hi) && i < |bs| && bs[i].used
    ensures !Freeable(Flags(FreeWrites(m, bs[i].addr), bs[i].addr))
  {
    var it := bs[i].addr;
    MarkFree(m, bs, lo, hi, i);
    var m1, cs := m[it := Flags(m, it) - HEAP_FLG_USED], bs[i := bs[i].(used := false)];
    assert HeaderIs(m1, cs, i);
    FreeNext(m1, cs, lo, hi, i);
    var m2 := if Next(m1, it) != 0 && !IsUsed(Flags(m1, Next(m1, it))) then MergeNext(m1, it) else m1;
    var ds := MergeIfFree(cs, i);
    assert HeaderIs(m2, ds, i);
    FreeableWords(false);
    if i > 0 {
      assert HeaderIs(m2, ds, i - 1);
      if i + 1 < |ds| { assert HeaderIs(m2, ds, i + 1); }
      MergePrevIs(m2, ds[i - 1].addr);
    }
  }

  /** When nothing is in use each region is one free block. */
  lemma AllFree(m: Mem, regions: seq<int>, lists: seq<seq<Block>>, ends: seq<int>)
    requires AllRegions(m, regions, lists, ends)
    requires forall r, i :: 0 <= r < |lists| && 0 <= i < |lists[r]| ==> !lists[r][i].used
    ensures forall r :: 0 <= r < |lists| ==> |lists[r]| == 1 && lists[r][0].addr == regions[r]
  {
    forall r | 0 <= r < |lists|
      ensures |lists[r]| == 1 && lists[r][0].addr == regions[r]
    {
      assert Region(m, lists[r], regions[r], ends[r]);
      AllFreeIsOne(lists[r]);
    }
  }

  lemma StartsAt(m: Mem, bs: seq<Block>, lo: int, hi: int)
    requires Region(m, bs, lo, hi)
    ensures |bs| > 0 && bs[0].addr == lo > 0
  {
  }

  /** Where a resize does not panic, read off the headers. */
  predicate CanResize(m: Mem, it: int, count: int) {
    var diff, next := count - Size(m, it), Next(m, it);
    || diff < 0
    || (next != 0 && !IsUsed(Flags(m, next)) && (diff < Size(m, next) || HDR <= diff <= Size(m, next) + HDR))
  }

  lemma OneRegion(m: Mem, regions: seq<int>, lists: seq<seq<Block>>, ends: seq<int>, r: nat)
    requires AllRegions(m, regions, lists, ends) && r < |regions|
    ensures |regions| == |lists| == |ends| <= HEAP_MAX
    ensures var bs := lists[r];
      Region(m, bs, regions[r], ends[r]) && Laid(bs, regions[r], ends[r]) && |bs| > 0 && bs[0].addr == regions[r] > 0
  {
  }

  lemma ReallocReads(m: Mem, regions: seq<int>, lists: seq<seq<Block>>, ends: seq<int>, r: int, i: int, count: int)
    requires AllRegions(m, regions, lists, ends) && 0 <= r < |lists| && 0 <= i < |lists[r]|
    ensures CanResize(m, lists[r][i].addr, count) <==> !Resize(lists[r], i, count).Panics?
  {
    var bs := lists[r];
    OneRegion(m, regions, lists, ends, r);
    hide AllRegions, Region, IsUsed, Flags, Size, Next, FlagWord;
    HeaderReads(m, bs, regions[r], ends[r], i);
    if i + 1 < |bs| {
      HeaderReads(m, bs, regions[r], ends[r], i + 1);
    }
    ReallocSucceeds(bs, i, count);
  }

  /** Block i of bs stays in use with count bytes, or, where less than a header's worth would be
      given back, with those it had; bs has become cs, with the blocks in use otherwise what
      they were. */
  ghost predicate Resized(bs: seq<Block>, cs: seq<Block>, i: nat, count: int) {
    && i < |bs|
    && var size := if 0 < bs[i].size - count < 16 then bs[i].size else count;
    InUse(cs) == InUse(bs) - {bs[i]} + {Block(bs[i].addr, size, true)}
  }

  lemma ResizedTo(m: Mem, regions: seq<int>, lists: seq<seq<Block>>, ends: seq<int>, r: int, i: int, count: int)
    requires AllRegions(m, regions, lists, ends) && 0 <= r < |lists| && 0 <= i < |lists[r]| && lists[r][i].used && 0 <= count
    requires !Resize(lists[r], i, count).Panics? && Sound(lists[r], i, count)
    ensures var m', lists' := ReallocWrites(m, lists[r][i].addr, count), lists[r := Realloc(lists[r], i, count)];
      && AllRegions(m', regions, lists', ends) && Sum(lists') == Sum(lists) - Lost(lists[r], i, count)
      && OthersKept(m, m', lists, r, i) && PayloadKept(m, m', lists[r][i].(size := Min(lists[r][i].size, count)))
    ensures Resized(lists[r], Realloc(lists[r], i, count), i, count)
  {
    var m' := ReallocWrites(m, lists[r][i].addr, count);
    OneRegion(m, regions, lists, ends, r);
    ReallocUsed(lists[r], regions[r], ends[r], i, count);
    hide AllRegions, Region, Realloc, Resize, Sound, Lost, Sum, Total, ReallocWrites, PayloadKept, Within;
    ReallocStep(m, lists[r], regions[r], ends[r], i, count);
    RegionStep(m, m', regions, lists, ends, r, Realloc(lists[r], i, count));
  }

  lemma MarkedNext(m: Mem, bs: seq<Block>, lo: int, hi: int, i: nat)
    requires Region(m, bs, lo, hi) && i < |bs| && bs[i].used
    ensures var it := bs[i].addr;
      var m' := m[it := Flags(m, it) - HEAP_FLG_USED];
      var n := Next(m', it);
      n != 0 ==> it + HDR <= n && (Next(m', n) != 0 ==> n + HDR <= Next(m', n))
  {
    assert HeaderIs(m, bs, i);
    if i + 1 < |bs| {
      assert HeaderIs(m, bs, i + 1);
    }
  }

  lemma LengthsAgree(m: Mem, regions: seq<int>, lists: seq<seq<Block>>, ends: seq<int>)
    requires AllRegions(m, regions, lists, ends)
    ensures |regions| == |lists| == |ends| <= HEAP_MAX
  {
  }

  lemma OutOfUse(m: Mem, regions: seq<int>, lists: seq<seq<Block>>, ends: seq<int>, r: int, i: int)
    requires AllRegions(m, regions, lists, ends) && 0 <= r < |lists| && 0 <= i < |lists[r]| && lists[r][i].used
    ensures InUse(Free(lists[r], i)) == InUse(lists[r]) - {lists[r][i]}
  {
    hide AllRegions, Laid, Free, InUse;
    LengthsAgree(m, regions, lists, ends);
    OneRegion(m, regions, lists, ends, r);
    FreeUsed(lists[r], regions[r], ends[r], i);
  }

  lemma FreedUp(m: Mem, regions: seq<int>, lists: seq<seq<Block>>, ends: seq<int>, r: int, i: int)
    requires AllRegions(m, regions, lists, ends) && 0 <= r < |lists| && 0 <= i < |lists[r]| && lists[r][i].used
    ensures 0 <= r < |regions| == |ends| && Region(m, lists[r], regions[r], ends[r])
    ensures var m', lists' := FreeWrites(m, lists[r][i].addr), lists[r := Free(lists[r], i)];
      AllRegions(m', regions, lists', ends) && Sum(lists') == Sum(lists) && OthersKept(m, m', lists, -1, -1)
  {
    var m' := FreeWrites(m, lists[r][i].addr);
    OneRegion(m, regions, lists, ends, r);
    hide AllRegions, Region, Free, Sum, Total, FreeWrites, PayloadKept, Within;
    FreeStep(m, lists[r], regions[r], ends[r], i);
    RegionStep(m, m', regions, lists, ends, r, Free(lists[r], i));
  }

  /** Block i of bs has been put into use for count bytes that begin at res, and its header
      says so; bs has become cs, with the blocks in use otherwise what they were. */
  ghost predicate HandedOver(m: Mem, bs: seq<Block>, cs: seq<Block>, i: nat, res: int, count: int) {
    && i < |bs| && res == bs[i].addr + 16 > 16
    && InUse(cs) == InUse(bs) + {Block(res - 16, count, true)}
    && Rd(m, res - 16) == 0xDEAD_F01D && Rd(m, res - 12) == count
  }

  lemma AllocHandsOver(m: Mem, bs: seq<Block>, lo: int, hi: int, i: nat, count: int)
    requires Laid(bs, lo, hi) && i < |bs| && !bs[i].used && Region(m, Alloc(bs, i, count), lo, hi)
    ensures HandedOver(m, bs, Alloc(bs, i, count), i, bs[i].addr + 16, count)
  {
    hide Laid, InUse;
    AllocUsed(bs, lo, hi, i, count);
    var cs := Alloc(bs, i, count);
    assert cs[i] == Block(bs[i].addr, count, true);
    HeaderReads(m, cs, lo, hi, i);
  }

  lemma HandedOut(m: Mem, regions: seq<int>, lists: seq<seq<Block>>, ends: seq<int>, r: nat, i: nat, count: int)
    requires AllRegions(m, regions, lists, ends) && r < |regions| && i < |lists[r]| && Fits(lists[r][i], count) && 0 <= count
    ensures var m', lists' := AllocWrites(m, lists[r][i].addr, count), lists[r := Alloc(lists[r], i, count)];
      && AllRegions(m', regions, lists', ends) && Sum(lists') == Sum(lists) - Slack(lists[r][i], count)
      && OthersKept(m, m', lists, r, -1) && HandedOver(m', lists[r], lists'[r], i, lists[r][i].addr + 16, count)
  {
    hide AllRegions, Region, Laid, Alloc, Slack, Sum, Total, AllocWrites, PayloadKept, Within, HandedOver;
    OneRegion(m, regions, lists, ends, r);
    var m' := AllocWrites(m, lists[r][i].addr, count);
    AllocStep(m, lists[r], regions[r], ends[r], i, count);
    AllocHandsOver(m', lists[r], regions[r], ends[r], i, count);
    RegionStep(m, m', regions, lists, ends, r, Alloc(lists[r], i, count));
  }

  lemma NewRegion(m: Mem, m': Mem, regions: seq<int>, lists: seq<seq<Block>>, ends: seq<int>, lo: int, hi: int)
    requires AllRegions(m, regions, lists, ends) && 0 < lo && lo + HDR <= hi
    requires forall r :: 0 <= r < |regions| ==> ends[r] <= lo || hi <= regions[r]
    requires m' == m[lo := HEAP_MAGIC][lo + 4 := hi - lo - HDR][lo + 8 := 0][lo + 12 := 0]
    ensures AllRegions(m', regions, lists, ends)
    ensures var bs := [Block(lo, hi - lo - HDR, false)];
      && (|regions| < HEAP_MAX ==> AllRegions(m', regions + [lo], lists + [bs], ends + [hi]))
      && Sum(lists + [bs]) == Sum(lists) + hi - lo && Capacity(regions + [lo], ends + [hi]) == Capacity(regions, ends) + hi - lo
  {
    var bs := [Block(lo, hi - lo - HDR, false)];
    assert Total(bs) == hi - lo;
    SumAppend(lists, bs);
    CapacityAppend(regions, ends, lo, hi);
    assert Within(m, m', lo, hi);
    assert Region(m', bs, lo, hi) by {
      assert HeaderIs(m', bs, 0);
    }
    hide Region, Within, Sum, Total, Capacity;
    forall r | 0 <= r < |regions|
      ensures Region(m', lists[r], regions[r], ends[r])
    {
      Elsewhere(m, m', lo, hi, lists[r], regions[r], ends[r]);
    }
  }

  class Heap {
    var mem: Mem
    /** s_heap_regions up to its first null entry. */
    var regions: seq<int>
    ghost var lists: seq<seq<Block>>
    ghost var ends: seq<int>
    /** Bytes no block accounts for any more. */
    ghost var lost: int

    /** Every region's list is intact and all its space is accounted for. */
    ghost predicate Valid()
      reads this
    {
      AllRegions(mem, regions, lists, ends) && Sum(lists) + lost == Capacity(regions, ends)
    }

    /** heap_init. */
    constructor (m: Mem)
      ensures Valid() && mem == m && regions == [] && lost == 0
    {
      mem, regions, lists, ends, lost := m, [], [], [], 0;
    }

    /** heap_add_region, for space that meets no other region. */
    method AddRegion(a: int, b: int) returns (res: Outcome)
      requires Valid() && 0 < a
      requires var lo := (a + 7) / 8 * 8; lo + HDR <= b && forall r :: 0 <= r < |regions| ==> ends[r] <= lo || b <= regions[r]
      modifies this
      ensures Valid() && lost == old(lost)
      ensures res.Panicked? <==> |old(regions)| == 16
      ensures res.Panicked? ==> lists == old(lists) && regions == old(regions)
      ensures res.Returned? ==> var lo := (a + 7) / 8 * 8;
        && regions == old(regions) + [lo] && ends == old(ends) + [b]
        && lists == old(lists) + [[Block(lo, b - lo - HDR, false)]]
    {
      hide AllRegions, Sum, Capacity;
      LengthsAgree(mem, regions, lists, ends);
      var heap := (a + 7) / 8 * 8;
      var sz := b - heap - HDR;
      mem := mem[heap := HEAP_MAGIC];
      mem := mem[heap + 4 := sz];
      mem := mem[heap + 8 := 0];
      mem := mem[heap + 12 := 0];
      ghost var bs := [Block(heap, sz, false)];
      NewRegion(old(mem), mem, regions, lists, ends, heap, b);
      if |regions| == HEAP_MAX {
        return Panicked;
      }
      regions, lists, ends := regions + [heap], lists + [bs], ends + [b];
      return Returned(0);
    }

    /** Lines 163-177, the first split. */
    method SplitBlock(it: int, count: int)
      modifies this`mem
      ensures mem == Relinked(SplitAsWritten(old(mem), it, count), it + HDR + count)
    {
      hide Size, Next, Flags;
      var newb := it + HDR + count;
      mem := mem[newb + 12 := Next(mem, it)];
      mem := mem[newb + 8 := it];
      mem := mem[it + 12 := newb];
      mem := mem[newb + 4 := Size(mem, it) - count - HDR];
      mem := mem[it + 4 := count];
      mem := mem[it := Flags(mem, it) + HEAP_FLG_USED];
      mem := mem[newb := HEAP_MAGIC];
      if Next(mem, newb) != 0 {
        mem := mem[Next(mem, newb) + 8 := newb];
      }
    }

    /** Lines 151-177, with newb->next->prev set as well. */
    method TakeOrSplit(it: int, count: int)
      requires Flags(mem, it) == FlagWord(false)
      modifies this`mem
      ensures mem == AllocWrites(old(mem), it, count)
    {
      if Size(mem, it) < count + HDR {
        mem := mem[it := Flags(mem, it) + HEAP_FLG_USED];
        mem := mem[it + 4 := count];
      } else {
        SplitBlock(it, count);
      }
    }

    /** heap_alloc_single: first fit in one region; i is the block taken, the list's length
        when none fits. The list's back links are kept as the sibling splits keep them. */
    method AllocSingle(begin: int, count: int, ghost r: nat) returns (res: int, ghost i: nat)
      requires Valid() && r < |regions| && begin == regions[r] && 0 <= count
      modifies this`mem, this`lists, this`lost
      ensures Valid()
      ensures res == 0 <==> TooSmall(old(lists[r]), count)
      ensures res == 0 ==> mem == old(mem) && lists == old(lists) && lost == old(lost)
      ensures res != 0 ==>
        && FirstFit(old(lists[r]), count, i) && HandedOver(mem, old(lists[r]), lists[r], i, res, count)
        && lists == old(lists)[r := Alloc(old(lists[r]), i, count)] && lost == old(lost) + Slack(old(lists[r])[i], count)
        && OthersKept(old(mem), mem, old(lists), r, -1)
    {
      hide AllRegions, Laid, NoTwoFree, IsUsed, Alloc, Slack, OthersKept, Sum, Capacity, AllocWrites, Flags, Size, Next, FlagWord;
      OneRegion(mem, regions, lists, ends, r);
      ghost var bs := lists[r];
      var it := begin;
      i := 0;
      while it != 0
        invariant i <= |bs| && it == (if i < |bs| then bs[i].addr else 0) && (i < |bs| ==> it > 0)
        invariant TooSmall(bs[..i], count)
        invariant mem == old(mem) && lists == old(lists) && lost == old(lost)
        decreases |bs| - i
      {
        HeaderReads(mem, bs, regions[r], ends[r], i);
        if IsUsed(Flags(mem, it)) || Size(mem, it) < count {
          it, i := Next(mem, it), i + 1;
        } else {
          TakeOrSplit(it, count);
          HandedOut(old(mem), regions, lists, ends, r, i, count);
          lost := lost + Slack(bs[i], count);
          lists := lists[r := Alloc(bs, i, count)];
          res := it + HDR;
          return;
        }
      }
      assert bs[..i] == bs;
      res := 0;
    }

    /** heap_alloc: the first fit of the first region that has one; 0 when none has. */
    method Allocate(count: int) returns (res: int, ghost r: nat, ghost i: nat)
      requires Valid() && 0 <= count
      modifies this`mem, this`lists, this`lost
      ensures Valid()
      ensures res == 0 <==> forall s :: 0 <= s < |old(lists)| ==> TooSmall(old(lists)[s], count)
      ensures res == 0 ==> mem == old(mem) && lists == old(lists) && lost == old(lost)
      ensures res != 0 ==>
        && r < |old(lists)| == |lists| && forall s :: 0 <= s < r ==> TooSmall(old(lists)[s], count)
      ensures res != 0 ==>
        && FirstFit(old(lists)[r], count, i) && HandedOver(mem, old(lists)[r], lists[r], i, res, count)
        && lists == old(lists)[r := Alloc(old(lists)[r], i, count)] && lost == old(lost) + Slack(old(lists)[r][i], count)
        && OthersKept(old(mem), mem, old(lists), r, -1)
    {
      hide AllRegions, Alloc, Slack, OthersKept, Sum, Capacity;
      r, i := 0, 0;
      LengthsAgree(mem, regions, lists, ends);
      var k := 0;
      while k < HEAP_MAX
        invariant 0 <= k <= |regions| == |lists| && r == k
        invariant forall s :: 0 <= s < k ==> TooSmall(lists[s], count)
        invariant mem == old(mem) && lists == old(lists) && lost == old(lost)
      {
        if k == |regions| {
          res := 0;
          return;
        }
        res, i := AllocSingle(regions[k], count, k);
        if res != 0 {
          return;
        }
        k, r := k + 1, r + 1;
      }
      res := 0;
    }

    /** Lines 202-207. */
    method JoinNext(it: int)
      requires var n := Next(mem, it); it + HDR <= n && (Next(mem, n) != 0 ==> n + HDR <= Next(mem, n))
      modifies this`mem
      ensures mem == MergeNext(old(mem), it)
    {
      mem := mem[it + 4 := Size(mem, it) + Size(mem, Next(mem, it)) + HDR];
      if Next(mem, Next(mem, it)) != 0 {
        mem := mem[Next(mem, Next(mem, it)) + 8 := it];
      }
      mem := mem[Next(mem, it) := ClearMagic(Flags(mem, Next(mem, it)))];
      mem := mem[it + 12 := Next(mem, Next(mem, it))];
    }

    /** Lines 213-218. */
    method JoinPrev(it: int)
      modifies this`mem
      ensures mem == MergePrev(old(mem), it)
    {
      mem := mem[it + 4 := Size(mem, it) + Size(mem, Next(mem, it)) + HDR];
      mem := mem[Next(mem, it) := ClearMagic(Flags(mem, Next(mem, it)))];
      mem := mem[it + 12 := Next(mem, Next(mem, it))];
      if Next(mem, it) != 0 {
        mem := mem[Next(mem, it) + 8 := it];
      }
    }

    /** Lines 199-219. */
    method DoFree(start: int, ghost bs: seq<Block>, ghost lo: int, ghost hi: int, ghost i: nat)
      requires Region(mem, bs, lo, hi) && i < |bs| && bs[i].used && start == bs[i].addr
      modifies this`mem
      ensures mem == FreeWrites(old(mem), start)
    {
      hide Laid, Spells, NoTwoFree, Flags, Next, Prev, MergeNext, MergePrev, IsUsed;
      var it := start;
      mem := mem[it := Flags(mem, it) - HEAP_FLG_USED];
      MarkedNext(old(mem), bs, lo, hi, i);
      if Next(mem, it) != 0 && !IsUsed(Flags(mem, Next(mem, it))) {
        JoinNext(it);
      }
      if Prev(mem, it) != 0 && !IsUsed(Flags(mem, Prev(mem, it))) {
        it := Prev(mem, it);
        JoinPrev(it);
      }
    }

    /** heap_free_single. The region is not looked at: any call frees any used block. */
    method FreeSingle(ptr: int) returns (ok: bool, ghost r: int, ghost i: int)
      requires Valid() && Genuine(mem, lists, ptr - HDR)
      modifies this`mem, this`lists
      ensures Valid()
      ensures ok <==> Begins(old(lists), ptr - 16)
      ensures !ok ==> mem == old(mem) && lists == old(lists)
      ensures ok ==>
        && UsedAt(old(lists), r, i, ptr - 16) && |lists| == |old(lists)|
        && lists == old(lists)[r := Free(old(lists)[r], i)] && InUse(lists[r]) == InUse(old(lists)[r]) - {old(lists)[r][i]}
        && OthersKept(old(mem), mem, old(lists), -1, -1)
    {
      hide AllRegions, Free, OthersKept, Sum, Capacity, Flags, Next, Prev, Freeable, FreeWrites, MergeNext, MergePrev, IsUsed;
      r, i := 0, 0;
      var it := ptr - HDR;
      UsedOnly(mem, regions, lists, ends, it);
      ok := Freeable(Flags(mem, it));
      if ok {
        r, i :| UsedAt(lists, r, i, it);
        LengthsAgree(mem, regions, lists, ends);
        OutOfUse(mem, regions, lists, ends, r, i);
        FreedUp(mem, regions, lists, ends, r, i);
        DoFree(it, lists[r], regions[r], ends[r], i);
        lists := lists[r := Free(lists[r], i)];
      }
    }

    /** heap_free: the first region below the pointer does it, whichever region the block
        is in. */
    method Release(ptr: int) returns (res: Outcome, ghost r: int, ghost i: int)
      requires Valid() && Genuine(mem, lists, ptr - HDR)
      modifies this`mem, this`lists
      ensures Valid()
      ensures res.Returned? <==> ptr == 0 || Begins(old(lists), ptr - 16)
      ensures ptr == 0 || res.Panicked? ==> mem == old(mem) && lists == old(lists)
      ensures ptr != 0 && res.Returned? ==>
        && UsedAt(old(lists), r, i, ptr - 16) && |lists| == |old(lists)|
        && lists == old(lists)[r := Free(old(lists)[r], i)] && InUse(lists[r]) == InUse(old(lists)[r]) - {old(lists)[r][i]}
        && OthersKept(old(mem), mem, old(lists), -1, -1)
    {
      hide AllRegions, Free, OthersKept, Sum, Capacity, Flags, Freeable;
      r, i := 0, 0;
      if ptr == 0 {
        return Returned(0), r, i;
      }
      LengthsAgree(mem, regions, lists, ends);
      UsedOnly(mem, regions, lists, ends, ptr - HDR);
      if Freeable(Flags(mem, ptr - HDR)) {
        r, i :| UsedAt(lists, r, i, ptr - HDR);
        UsedIsFreeable(mem, regions, lists, ends, r, i, ptr - HDR);
      }
      var k := 0;
      while k < HEAP_MAX
        invariant 0 <= k <= |regions|
        invariant Freeable(Flags(mem, ptr - HDR)) ==> 0 <= r < |regions| && regions[r] < ptr && k <= r
        invariant mem == old(mem) && lists == old(lists)
      {
        if k == |regions| {
          return Panicked, r, i;
        }
        if ptr > regions[k] {
          var ok;
          ghost var r1, i1;
          ok, r1, i1 := FreeSingle(ptr);
          if ok {
            return Returned(0), r1, i1;
          }
        }
        k := k + 1;
      }
      res := Panicked;
    }

    /** Lines 276-285. */
    method JoinRest(newb: int)
      modifies this`mem
      ensures mem == ShrinkJoin(old(mem), newb)
    {
      var next := Next(mem, newb);
      mem := mem[newb + 4 := Size(mem, newb) + HDR + Size(mem, next)];
      mem := mem[newb + 12 := Next(mem, next)];
      if Next(mem, next) != 0 {
        mem := mem[Next(mem, next) + 8 := newb];
      }
      mem := mem[next := Flags(mem, next) - HEAP_MAGIC];
    }

    /** Lines 258-293. */
    method ShrinkBlock(it: int, count: int)
      modifies this`mem
      ensures mem == ShrinkWrites(old(mem), it, count)
    {
      hide Size, Next, Flags, IsUsed, ShrinkJoin;
      if Size(mem, it) - count >= HDR {
        var newb, diff := it + HDR + count, Size(mem, it) - count;
        mem := mem[newb + 4 := diff - HDR];
        mem := mem[newb + 8 := it];
        mem := mem[newb := HEAP_MAGIC];
        mem := mem[it + 4 := count];
        assert mem == NewRest(old(mem), it, count);
        hide NewRest;
        if Next(mem, it) != 0 {
          mem := mem[newb + 12 := Next(mem, it)];
          mem := mem[it + 12 := newb];
          if Next(mem, newb) != 0 {
            mem := mem[Next(mem, newb) + 8 := newb];
          }
          if !IsUsed(Flags(mem, Next(mem, newb))) {
            JoinRest(newb);
          }
        } else {
          mem := mem[newb + 12 := 0];
        }
      }
    }

    /** Lines 300-306. */
    method TakeNext(it: int, count: int)
      modifies this`mem
      ensures mem == GrowWhole(old(mem), it, count)
    {
      var next := Next(mem, it);
      mem := mem[it + 12 := Next(mem, next)];
      if Next(mem, it) != 0 {
        mem := mem[Next(mem, it) + 8 := it];
      }
      mem := mem[next := XorMagic(Flags(mem, next))];
      mem := mem[it + 4 := count];
    }

    /** Lines 312-324. */
    method MoveNext(it: int, count: int)
      modifies this`mem
      ensures mem == GrowSplit(old(mem), it, count)
    {
      hide Size, Next, Flags, XorMagic;
      var next, newb, diff := Next(mem, it), it + HDR + count, count - Size(mem, it);
      mem := mem[newb + 8 := it];
      mem := mem[newb + 12 := Next(mem, next)];
      if Next(mem, newb) != 0 {
        mem := mem[Next(mem, newb) + 8 := newb];
      }
      mem := mem[it + 12 := newb];
      mem := mem[next := XorMagic(Flags(mem, next))];
      mem := mem[newb + 4 := Size(mem, next) - diff];
      mem := mem[it + 4 := count];
      mem := mem[newb := HEAP_MAGIC];
    }

    /** Lines 256-335; false for the panics. */
    method ResizeInPlace(it: int, count: int) returns (done: bool)
      modifies this`mem
      ensures done <==> CanResize(old(mem), it, count)
      ensures mem == if done then ReallocWrites(old(mem), it, count) else old(mem)
    {
      hide Size, Next, Flags, IsUsed, ShrinkWrites, GrowWhole, GrowSplit;
      var diff := count - Size(mem, it);
      if diff < 0 {
        ShrinkBlock(it, count);
        return true;
      }
      if Next(mem, it) != 0 && !IsUsed(Flags(mem, Next(mem, it))) {
        var next := Next(mem, it);
        if diff >= Size(mem, next) && HDR <= diff <= Size(mem, next) + HDR {
          TakeNext(it, count);
          return true;
        }
        if diff < Size(mem, next) {
          MoveNext(it, count);
          return true;
        }
      }
      done := false;
    }

    /** heap_realloc of a block in use. It panics where the block cannot be resized in
        place; the resizes it gets wrong (see GrowSplitExact) are left out. */
    method Reallocate(ptr: int, count: int) returns (res: Outcome, ghost r: int, ghost i: int)
      requires Valid() && 0 <= count
      requires Resizable(mem, lists, ptr - HDR, count)
      modifies this`mem, this`lists, this`lost
      ensures Valid()
      ensures res.Panicked? ==> mem == old(mem) && lists == old(lists) && lost == old(lost)
      ensures Covers(Flags(old(mem), ptr - HDR), HEAP_MAGIC, 32) ==> UsedAt(old(lists), r, i, ptr - HDR)
      ensures res.Panicked? <==> !Covers(Flags(old(mem), ptr - HDR), HEAP_MAGIC, 32) || Resize(old(lists)[r], i, count).Panics?
      ensures res.Returned? ==>
        && res.value == ptr && |lists| == |old(lists)| && lists == old(lists)[r := Realloc(old(lists)[r], i, count)]
        && Resized(old(lists)[r], lists[r], i, count)
        && lost == old(lost) + Lost(old(lists)[r], i, count)
        && OthersKept(old(mem), mem, old(lists), r, i)
        && PayloadKept(old(mem), mem, old(lists)[r][i].(size := Min(old(lists)[r][i].size, count)))
    {
      hide AllRegions, Covers, Realloc, Lost, OthersKept, PayloadKept, Sum, Capacity, Sound, ReallocWrites, FlagWord;
      r, i := 0, 0;
      var it := ptr - HDR;
      if !Covers(Flags(mem, it), HEAP_MAGIC, 32) {
        return Panicked, r, i;
      }
      r, i :| UsedAt(lists, r, i, it);
      LengthsAgree(mem, regions, lists, ends);
      ghost var bs := lists[r];
      ReallocReads(mem, regions, lists, ends, r, i, count);
      if !Resize(bs, i, count).Panics? {
        ResizedTo(mem, regions, lists, ends, r, i, count);
      }
      var done := ResizeInPlace(it, count);
      if !done {
        return Panicked, r, i;
      }
      lost := lost + Lost(bs, i, count);
      lists := lists[r := Realloc(bs, i, count)];
      return Returned(it + HDR), r, i;
    }

    method RegionStat(st0: Stat, begin: int, ghost bs: seq<Block>, ghost end: int) returns (st: Stat)
      requires Region(mem, bs, begin, end)
      ensures st == st0.(used := st0.used + SizeOf(bs, true), free := st0.free + SizeOf(bs, false), blocks := st0.blocks + |bs|)
    {
      StartsAt(mem, bs, begin, end);
      hide Region, Size, Next, Flags, IsUsed;
      st := st0;
      var it := begin;
      ghost var i := 0;
      while it != 0
        invariant 0 <= i <= |bs| && it == (if i < |bs| then bs[i].addr else 0) && (i < |bs| ==> it > 0)
        invariant st == st0.(used := st0.used + SizeOf(bs[..i], true), free := st0.free + SizeOf(bs[..i], false), blocks := st0.blocks + i)
        decreases |bs| - i
      {
        HeaderReads(mem, bs, begin, end, i);
        SizeOfPrefix(bs, i, true);
        SizeOfPrefix(bs, i, false);
        if IsUsed(Flags(mem, it)) {
          st := st.(used := st.used + Size(mem, it));
        } else {
          st := st.(free := st.free + Size(mem, it));
        }
        st := st.(blocks := st.blocks + 1);
        it, i := Next(mem, it), i + 1;
      }
      assert bs[..|bs|] == bs;
    }

    /** heap_stat: the sizes in use and free, and with the headers all the space that is
        accounted for. */
    method HeapStat() returns (st: Stat)
      requires Valid()
      ensures st.used == SumOf(lists, true) && st.free == SumOf(lists, false)
      ensures st.blocks == Blocks(lists) && st.frags == |regions|
      ensures st.total == Capacity(regions, ends) - lost
    {
      hide AllRegions, Capacity, Size, Next, Flags, IsUsed;
      LengthsAgree(mem, regions, lists, ends);
      st := Stat(0, 0, 0, 0, 0);
      var k := 0;
      while k < |regions|
        invariant 0 <= k <= |regions| && st.total == 0 && st.frags == k
        invariant st.used == SumOf(lists[..k], true) && st.free == SumOf(lists[..k], false) && st.blocks == Blocks(lists[..k])
      {
        SumOfPrefix(lists, k);
        OneRegion(mem, regions, lists, ends, k);
        st := RegionStat(st.(frags := st.frags + 1), regions[k], lists[k], ends[k]);
        k := k + 1;
      }
      assert lists[..|lists|] == lists;
      SumSplits(lists);
      st := st.(total := st.used + st.free + st.blocks * HDR);
    }
  }
}
