/** The mapping interface, src/arch/x86/mm/map.c, over the page pool and the physical
    page allocator. Interrupts and the processor's TLB are not part of this model. */
module Mapping {
  import opened PhysicalMemory
  import opened PageTables
  import PagePool
  import SpaceTables

  const MM_FLG_WR := 0x2
  const MM_FLG_US := 0x4
  const MM_FLG_PS := 0x80
  const MM_FLG_MERGE := 0x2000_0000
  const MM_FLG_NOPHYS := 0x4000_0000

  predicate HasPs(flags: int) { flags / MM_FLG_PS % 2 == 1 }
  predicate HasMerge(flags: int) { flags / MM_FLG_MERGE % 2 == 1 }
  predicate HasNoPhys(flags: int) { flags / MM_FLG_NOPHYS % 2 == 1 }

  /** Flags put together from the constants, each or not, are told apart again. */
  lemma FlagBits(wr: bool, us: bool, ps: bool, merge: bool, noPhys: bool)
    ensures var flags := (if wr then MM_FLG_WR else 0) + (if us then MM_FLG_US else 0) + (if ps then MM_FLG_PS else 0)
                         + (if merge then MM_FLG_MERGE else 0) + (if noPhys then MM_FLG_NOPHYS else 0);
      && (flags / 2 % 2 == 1 <==> wr) && (flags / 4 % 2 == 1 <==> us)
      && (HasPs(flags) <==> ps) && (HasMerge(flags) <==> merge) && (HasNoPhys(flags) <==> noPhys)
  {
  }

  /** (flags & (MM_FLG_WR | MM_FLG_US)) | X86_MM_FLG_PR */
  function EntryFlags(flags: int): (f: int)
    ensures f in {1, 3, 5, 7}
  {
    flags / 2 % 4 * 2 + 1
  }

  /** A failed assertion of the source stops the kernel. */
  datatype Outcome = Returned(value: int) | Panicked

  /** From t to t' the n pages from lo on in space pd take the mappings ms; no other
      page of any space changes. */
  ghost predicate RangeSet(t: Tables, t': Tables, spaces: set<int>, pd: int, lo: int, ms: seq<PageTables.Mapping>) {
    forall s, q :: s in spaces && 0 <= q < ALL_PAGES ==>
      Lookup(t', s, q) == if s == pd && lo <= q < lo + |ms| then ms[q - lo] else Lookup(t, s, q)
  }

  ghost predicate AllUnmapped(t: Tables, pd: int, lo: int, n: int) {
    forall q :: lo <= q < lo + n ==> Lookup(t, pd, q) == Unmapped
  }

  lemma RangeExtend(t: Tables, t1: Tables, t2: Tables, spaces: set<int>, pd: int, lo: int,
                    ms: seq<PageTables.Mapping>, m: PageTables.Mapping)
    requires RangeSet(t, t1, spaces, pd, lo, ms) && OnlyChanged(t1, t2, spaces, pd, lo + |ms|, m)
    ensures RangeSet(t, t2, spaces, pd, lo, ms + [m])
  {
  }

  /** The low twelve bits of an entry: present, writable as bit 1 of flags says, open to the
      user as bit 2 says, the page size bit as given, and all others clear. */
  ghost predicate Bits(word: int, flags: int, ps: int) {
    && word % 2 == 1 && word / 2 % 2 == flags / 2 % 2 && word / 4 % 2 == flags / 4 % 2
    && word / 8 % 16 == 0 && word / 128 % 2 == ps && word / 256 % 16 == 0
  }

  lemma HighFlags(word: int)
    requires word / 8 % 16 == 0 && word / 128 % 2 == 0 && word / 256 % 16 == 0
    ensures word / 8 % 512 == 0
  {
    var a := word / 8;
    assert word / 128 == a / 16 && word / 256 == a / 32;
  }

  /** A 4 KiB page over the frame, with access as flags say. */
  ghost predicate Entered(m: PageTables.Mapping, frame: int, flags: int) {
    m.Small? && m.word - m.word % 0x1000 == frame && Bits(m.word, flags, 0)
  }

  /** A page of a 4 MiB page, of which the directory holds the address given. */
  ghost predicate EnteredHuge(m: PageTables.Mapping, frame: int, flags: int) {
    m.Large? && m.word - m.word % 0x1000 == frame && Bits(m.word, flags, 1)
  }

  lemma Halves(x: int)
    ensures x % 4 == x % 2 + 2 * (x / 2 % 2)
  {
  }

  lemma Even(a: int, x: int)
    ensures (2 * a + x) % 2 == x % 2
  {
  }

  lemma Sixteen(a: int, x: int)
    ensures (16 * a + x) % 16 == x % 16
  {
  }

  lemma Shifted(k: int, f: int)
    ensures var w := 0x1000 * k + f;
      && w / 2 == 0x800 * k + f / 2 && w / 4 == 0x400 * k + f / 4 && w / 8 == 0x200 * k + f / 8
      && w / 128 == 32 * k + f / 128 && w / 256 == 16 * k + f / 256
  {
  }

  /** The low bits of a word are those of what is put below its page number. */
  lemma LowBits(k: int, f: int, flags: int, ps: int)
    requires 0 <= f < 0x1000 && Bits(f, flags, ps)
    ensures (0x1000 * k + f) % 0x1000 == f && Bits(0x1000 * k + f, flags, ps)
  {
    Shifted(k, f);
    Even(0x800 * k, f);
    Even(0x400 * k, f / 2);
    Even(0x200 * k, f / 4);
    Sixteen(0x20 * k, f / 8);
    Even(16 * k, f / 128);
    Sixteen(k, f / 256);
  }

  lemma FlagParts(flags: int)
    ensures Bits(EntryFlags(flags), flags, 0) && Bits(EntryFlags(flags) + MM_FLG_PS, flags, 1)
  {
    var a, b := flags / 2 % 2, flags / 4 % 2;
    Halves(flags / 2);
    assert flags / 4 == flags / 2 / 2;
    assert EntryFlags(flags) == 1 + 2 * a + 4 * b && a in {0, 1} && b in {0, 1};
  }

  lemma EntryIs(frame: int, flags: int)
    requires frame % PAGE == 0
    ensures Entered(Small(frame + EntryFlags(flags)), frame, flags)
    ensures EnteredHuge(Large(frame + EntryFlags(flags) + MM_FLG_PS), frame, flags)
  {
    hide EntryFlags, Bits;
    FlagParts(flags);
    assert frame == 0x1000 * (frame / 0x1000);
    LowBits(frame / 0x1000, EntryFlags(flags), flags, 0);
    LowBits(frame / 0x1000, EntryFlags(flags) + MM_FLG_PS, flags, 1);
  }

  /** What mm_translate stores through rflags for an entry: its write and user bits, and the
      page size bit. */
  ghost predicate Reported(rflags: int, word: int, ps: int) {
    && 0 <= rflags < 0x100 && rflags % 2 == 0 && rflags / 2 % 2 == word / 2 % 2 && rflags / 4 % 2 == word / 4 % 2
    && rflags / 8 % 16 == 0 && rflags / 128 % 2 == ps
  }

  lemma ReportedIs(word: int)
    ensures Reported(word / 2 % 4 * 2, word, 0) && Reported(word / 2 % 4 * 2 + MM_FLG_PS, word, 1)
  {
    var a, b := word / 2 % 2, word / 4 % 2;
    Halves(word / 2);
    assert word / 4 == word / 2 / 2;
    assert word / 2 % 4 == a + 2 * b && a in {0, 1} && b in {0, 1};
  }

  /** What is mapped is translated back: the address in the frame, and the write and user
      bits of the flags. */
  lemma EnteredReported(m: PageTables.Mapping, frame: int, flags: int, addr: int, rflags: int)
    requires Entered(m, frame, flags) && Reported(rflags, m.word, 0)
    ensures m.word - m.word % 0x1000 + addr % 0x1000 == frame + addr % 0x1000
    ensures rflags == flags / 2 % 2 * 2 + flags / 4 % 2 * 4
  {
  }

  /** From t to t' the pages from lo on in space pd come to map the frames given, in order,
      with access as flags say; no other page of any space changes. */
  ghost predicate PagesEntered(t: Tables, t': Tables, spaces: set<int>, pd: int, lo: int, frames: seq<int>, flags: int) {
    forall s, q :: s in spaces && 0 <= q < ALL_PAGES ==>
      if s == pd && lo <= q < lo + |frames| then Entered(Lookup(t', s, q), frames[q - lo], flags)
      else Lookup(t', s, q) == Lookup(t, s, q)
  }

  lemma PagesExtend(t: Tables, t1: Tables, t2: Tables, spaces: set<int>, pd: int, lo: int, frames: seq<int>, frame: int, flags: int)
    requires PagesEntered(t, t1, spaces, pd, lo, frames, flags) && PagesEntered(t1, t2, spaces, pd, lo + |frames|, [frame], flags)
    ensures PagesEntered(t, t2, spaces, pd, lo, frames + [frame], flags)
  {
    hide Lookup, Entered;
  }

  lemma OneEntered(t: Tables, t': Tables, spaces: set<int>, pd: int, p: int, frame: int, flags: int)
    requires frame % PAGE == 0 && OnlyChanged(t, t', spaces, pd, p, Small(frame + EntryFlags(flags)))
    ensures PagesEntered(t, t', spaces, pd, p, [frame], flags)
  {
    hide Lookup, EntryFlags, Entered;
    EntryIs(frame, flags);
  }

  /** What map_range leaves in the pages from lo on: pages already mapped keep their
      entry, the others get distinct frames out of taken. */
  ghost predicate Filled(t: Tables, pd: int, lo: int, ms: seq<PageTables.Mapping>, flags: int, taken: set<int>) {
    && (forall i :: 0 <= i < |ms| ==>
          if Lookup(t, pd, lo + i) == Unmapped
          then ms[i].Small? && Base(ms[i].word) in taken && Entered(ms[i], Base(ms[i].word), flags)
          else ms[i] == Lookup(t, pd, lo + i))
    && forall i, j :: 0 <= i < j < |ms| && Lookup(t, pd, lo + i) == Unmapped && Lookup(t, pd, lo + j) == Unmapped ==>
         Base(ms[i].word) != Base(ms[j].word)
  }

  lemma FilledExtend(t: Tables, pd: int, lo: int, ms: seq<PageTables.Mapping>, flags: int, taken: set<int>, f: int)
    requires Filled(t, pd, lo, ms, flags, taken) && FrameOk(f) && f !in taken
    ensures Lookup(t, pd, lo + |ms|) == Unmapped ==>
              Filled(t, pd, lo, ms + [Small(f + EntryFlags(flags))], flags, taken + {f})
    ensures Lookup(t, pd, lo + |ms|) != Unmapped ==>
              Filled(t, pd, lo, ms + [Lookup(t, pd, lo + |ms|)], flags, taken + {f})
  {
    hide Lookup, Entered;
    AlignedWord(f, EntryFlags(flags));
    EntryIs(f, flags);
  }

  /** page | dst_flags, where page is what the allocator returned: MM_NADDR has all its bits set. */
  function PageWord(page: int, flags: int): int {
    if page == MM_NADDR then MM_NADDR else page + EntryFlags(flags)
  }

  /** What map_range leaves with free0 free at its start and free at its end: one frame is
      taken for every page, and where none is left, the absent ones get the word MM_NADDR. */
  ghost predicate FilledWith(t: Tables, pd: int, lo: int, ms: seq<PageTables.Mapping>, flags: int, free0: set<int>, free: set<int>) {
    && free <= free0 && |free| == (if |ms| <= |free0| then |free0| - |ms| else 0)
    && Filled(t, pd, lo, if |ms| <= |free0| then ms else ms[..|free0|], flags, free0 - free)
    && forall i :: |free0| <= i < |ms| ==> ms[i] == if Lookup(t, pd, lo + i) == Unmapped then Small(MM_NADDR) else Lookup(t, pd, lo + i)
  }

  lemma NothingFilled(t: Tables, pd: int, lo: int, flags: int, free: set<int>)
    ensures FilledWith(t, pd, lo, [], flags, free, free)
  {
    hide Lookup;
  }

  lemma PageWordLive(page: int, flags: int)
    requires page == MM_NADDR || FrameOk(page)
    ensures Live(PageWord(page, flags))
  {
    if page != MM_NADDR {
      AlignedWord(page, EntryFlags(flags));
    }
  }

  lemma FilledWithMore(t: Tables, pd: int, lo: int, ms: seq<PageTables.Mapping>, flags: int, free0: set<int>, free: set<int>, page: int)
    requires FilledWith(t, pd, lo, ms, flags, free0, free)
    requires if page == MM_NADDR then free == {} else page in free && FrameOk(page)
    ensures FilledWith(t, pd, lo, ms + [if Lookup(t, pd, lo + |ms|) == Unmapped then Small(PageWord(page, flags)) else Lookup(t, pd, lo + |ms|)],
                       flags, free0, free - {page})
  {
    hide Lookup, Filled, EntryFlags;
    if page == MM_NADDR {
      assert |ms| >= |free0| && free - {page} == free;
      var m := if Lookup(t, pd, lo + |ms|) == Unmapped then Small(PageWord(page, flags)) else Lookup(t, pd, lo + |ms|);
      assert (ms + [m])[..|free0|] == ms[..|free0|];
      assert ms[..|ms|] == ms;
    } else {
      FilledExtend(t, pd, lo, ms, flags, free0 - free, page);
      assert free0 - (free - {page}) == free0 - free + {page};
    }
  }

  /** So every absent page of the range has a frame that was free if and only if none of them
      comes after as many pages as there were free frames. */
  lemma FramesRunOutExact(t: Tables, pd: int, lo: int, ms: seq<PageTables.Mapping>, flags: int, free0: set<int>, free: set<int>)
    requires FilledWith(t, pd, lo, ms, flags, free0, free)
    ensures Filled(t, pd, lo, ms, flags, free0 - free) <==> forall q :: lo + |free0| <= q < lo + |ms| ==> Lookup(t, pd, q) != Unmapped
  {
    hide Lookup;
    if q :| lo + |free0| <= q < lo + |ms| && Lookup(t, pd, q) == Unmapped {
      assert lo + (q - lo) == q && ms[q - lo].word == MM_NADDR && Base(MM_NADDR) == 0xFFFF_F000;
    } else {
      assert forall i :: |free0| <= i < |ms| ==> ms[i] == Lookup(t, pd, lo + i);
    }
  }

  /** The frame a 4 KiB page is mapped to. */
  ghost function FrameOf(t: Tables, pd: int, q: int): int {
    if Lookup(t, pd, q).Small? then Base(Lookup(t, pd, q).word) else -1
  }

  ghost function FramesOf(t: Tables, pd: int, lo: int, n: nat): set<int> {
    set q | lo <= q < lo + n :: FrameOf(t, pd, q)
  }

  lemma FramesNone(t: Tables, pd: int, lo: int)
    ensures FramesOf(t, pd, lo, 0) == {}
  {
  }

  /** Each page of the range has a frame of its own. */
  ghost predicate FramesDistinct(t: Tables, pd: int, lo: int, n: int) {
    forall q, q' :: lo <= q < q' < lo + n ==> FrameOf(t, pd, q) != FrameOf(t, pd, q')
  }

  lemma FramesStep(t: Tables, t1: Tables, pd: int, lo: int, i: nat, n: nat)
    requires i < n && Lookup(t1, pd, lo + i) == Lookup(t, pd, lo + i)
    ensures var f := FrameOf(t, pd, lo + i);
      && f == FrameOf(t1, pd, lo + i) && f in FramesOf(t, pd, lo, n)
      && FramesOf(t, pd, lo, i + 1) == FramesOf(t, pd, lo, i) + {f}
      && (FramesDistinct(t, pd, lo, n) ==> f !in FramesOf(t, pd, lo, i))
  {
    hide Lookup;
  }

  ghost predicate AllSmall(t: Tables, pd: int, lo: int, n: int) {
    forall q :: lo <= q < lo + n ==> Lookup(t, pd, q).Small?
  }

  /** e & -0x400000 */
  function HugeBase(e: int): int { e - e % 0x40_0000 }

  /** What freeing count 4 MiB pages from slot lo on gives back. */
  ghost function HugeFreed(t: Tables, pd: int, lo: int, count: nat): set<int> {
    if count == 0 then {} else HugeFreed(t, pd, lo, count - 1) + FirstPages(HugeBase(Rd(t, pd, lo + count - 1)))
  }

  lemma HugeFreedStep(t: Tables, pd: int, lo: int, i: nat)
    ensures HugeFreed(t, pd, lo, 0) == {}
    ensures HugeFreed(t, pd, lo, i + 1) == HugeFreed(t, pd, lo, i) + FirstPages(HugeBase(Rd(t, pd, lo + i)))
  {
  }

  /** Page f is one of the first 32 of the 4 MiB that word e maps. */
  predicate StartsWith(e: int, f: int) { 0 <= f - (e - e % 0x40_0000) < 0x2_0000 && f % 0x1000 == 0 }

  lemma InFirst(b: int, f: int)
    requires b % 0x1000 == 0
    ensures f in FirstPages(b) <==> 0 <= f - b < 0x2_0000 && f % 0x1000 == 0
  {
    if f in FirstPages(b) {
      var k :| 0 <= k < 32 && f == b + PAGE * k;
    }
    if 0 <= f - b < 0x2_0000 && f % 0x1000 == 0 {
      var k := f / 0x1000 - b / 0x1000;
      assert f == b + PAGE * k;
    }
  }

  lemma FirstPagesIs(e: int, f: int)
    ensures f in FirstPages(HugeBase(e)) <==> StartsWith(e, f)
  {
    hide FirstPages;
    assert HugeBase(e) == 0x1000 * (0x400 * (e / 0x40_0000));
    InFirst(HugeBase(e), f);
  }

  /** Of every 4 MiB page the first 128 KiB are given back, and nothing else. */
  lemma {:induction false} HugeFreedIs(t: Tables, pd: int, lo: int, count: nat, f: int)
    ensures f in HugeFreed(t, pd, lo, count) <==> exists i :: lo <= i < lo + count && StartsWith(Rd(t, pd, i), f)
    decreases count
  {
    if count == 0 {
    } else {
      HugeFreedIs(t, pd, lo, count - 1, f);
      FirstPagesIs(Rd(t, pd, lo + count - 1), f);
      hide StartsWith, FirstPages, HugeBase;
    }
  }

  /** The slots' frames are different and none of the pages to be given back is free. */
  ghost predicate HugeTaken(t: Tables, pd: int, lo: int, count: nat, free: set<int>) {
    && (forall i, j :: lo <= i < j < lo + count ==> HugeBase(Rd(t, pd, i)) != HugeBase(Rd(t, pd, j)))
    && forall i :: lo <= i < lo + count ==> FirstPages(HugeBase(Rd(t, pd, i))) !! free
  }

  lemma FirstPagesApart(a: int, b: int)
    requires a % 0x40_0000 == 0 && b % 0x40_0000 == 0 && a != b
    ensures FirstPages(a) !! FirstPages(b)
  {
    assert a == 0x40_0000 * (a / 0x40_0000) && b == 0x40_0000 * (b / 0x40_0000);
  }

  lemma HugeBaseAligned(e: int)
    ensures HugeBase(e) % 0x40_0000 == 0 && (0 <= e < ADDRESSES ==> 0 <= HugeBase(e) < ADDRESSES)
  {
  }

  lemma {:induction false} FreedApart(t: Tables, pd: int, lo: int, count: nat, i: nat, k: nat, free: set<int>)
    requires HugeTaken(t, pd, lo, count, free) && k <= i < count
    ensures FirstPages(HugeBase(Rd(t, pd, lo + i))) !! HugeFreed(t, pd, lo, k)
    decreases k
  {
    hide FirstPages, HugeBase;
    if k == 0 {
    } else {
      FreedApart(t, pd, lo, count, i, k - 1, free);
      HugeBaseAligned(Rd(t, pd, lo + i));
      HugeBaseAligned(Rd(t, pd, lo + k - 1));
      FirstPagesApart(HugeBase(Rd(t, pd, lo + i)), HugeBase(Rd(t, pd, lo + k - 1)));
    }
  }

  lemma {:induction false} HugeStillTaken(t: Tables, pd: int, lo: int, count: nat, i: nat, free: set<int>)
    requires HugeTaken(t, pd, lo, count, free) && i < count
    ensures FirstPages(HugeBase(Rd(t, pd, lo + i))) !! free + HugeFreed(t, pd, lo, i)
  {
    hide FirstPages;
    FreedApart(t, pd, lo, count, i, i, free);
  }

  class Mmu {
    const pool: PagePool.Pool
    const phys: PhysicalPages
    /** mm_kernel: the boot page directory, in the kernel image. */
    const kernel: int
    var tables: Tables
    ghost var role: Roles

    ghost predicate Valid()
      reads this, pool, phys
    {
      && pool.Valid() && phys.Valid()
      && Sound(tables, role, pool.frames)
      && role.Keys == pool.live + {kernel}
      && !PagePool.InPool(kernel) && IsSpace(role, kernel)
      && forall a :: PagePool.InPool(a) ==> a in tables && |tables[a]| == SLOTS
    }

    /** Pool pages not in use hold zeros: the kernel relies on it where it makes a table. */
    ghost predicate FreeClear()
      reads this, pool
    {
      forall a :: PagePool.InPool(a) && a !in pool.live ==> Zero(tables, a)
    }

    /** This free page is not clear. */
    ghost predicate Dirty(a: int)
      reads this, pool
    {
      PagePool.InPool(a) && a !in pool.live && !Zero(tables, a)
    }

    ghost predicate Exhausted()
      reads pool
    {
      forall a :: PagePool.InPool(a) ==> a in pool.live
    }

    /** mm_init (src/arch/x86/mm/mm.c:20-36), once the pool has given page info: adopt the
        boot directory, which has 4 MiB pages only, and attach a table-info page to it. */
    constructor (pool: PagePool.Pool, phys: PhysicalPages, kernel: int, memory: Tables, info: int)
      requires pool.Valid() && phys.Valid()
      requires pool.live == {info}
      requires KERNEL_VIRT_BASE <= kernel < PagePool.POOL_BASE && kernel % PAGE == 0
      requires kernel in memory && |memory[kernel]| == SLOTS
      requires forall a :: PagePool.InPool(a) ==> a in memory && |memory[a]| == SLOTS
      requires forall d :: 1 <= d < 1023 ==> memory[kernel][d] == 0 || (Present(memory[kernel][d]) && IsHuge(memory[kernel][d]))
      ensures Valid() && this.pool == pool && this.phys == phys && this.kernel == kernel
      ensures forall p :: FIRST_PAGE <= p < END_PAGE ==>
        Lookup(tables, kernel, p) == if memory[kernel][p / SLOTS] == 0 then Unmapped else Large(memory[kernel][p / SLOTS])
    {
      this.pool, this.phys, this.kernel := pool, phys, kernel;
      tables := memory[info := seq(SLOTS, _ => 0)]
                      [kernel := memory[kernel][1023 := info][0 := kernel - KERNEL_VIRT_BASE]];
      role := map[info := TableInfo(kernel), kernel := Directory];
    }

    method MapIntoTable(pd: int, p: int, entry: int)
      requires Valid() && FreeClear()
      requires IsSpace(role, pd) && FIRST_PAGE <= p < END_PAGE && Live(entry)
      requires IsTable(tables, pd, p / SLOTS) && Lookup(tables, pd, p) == Unmapped
      modifies this`tables
      ensures Valid() && FreeClear()
      ensures OnlyChanged(old(tables), tables, Spaces(role), pd, p, Small(entry))
    {
      hide PagePool.LiveMatches, Lookup;
      var d := p / SLOTS;
      EnterSound(tables, role, pool.frames, pd, p, entry);
      assert SpaceOk(tables, role, pool.frames, pd) && SlotOk(tables, role, pool.frames, pd, d);
      var info := tables[pd][1023];
      var pt := Base(tables[info][d]);
      assert Low(tables[info][d]) != 0xFFF by {
        CountBound(tables[pt]);
      }
      ghost var t0 := tables;
      tables := tables[info := tables[info][d := tables[info][d] + 1]];
      tables := tables[pt := tables[pt][p % SLOTS := entry]];
      assert tables == Enter(t0, pd, p, entry);
    }

    method MapIntoNewTable(pd: int, p: int, entry: int) returns (ok: bool)
      requires Valid() && FreeClear()
      requires IsSpace(role, pd) && FIRST_PAGE <= p < END_PAGE && Live(entry)
      requires Rd(tables, pd, p / SLOTS) == 0
      modifies this, pool
      ensures Valid() && FreeClear()
      ensures Spaces(role) == old(Spaces(role))
      ensures ok ==> OnlyChanged(old(tables), tables, Spaces(role), pd, p, Small(entry))
      ensures !ok ==> Exhausted() && tables == old(tables) && role == old(role)
    {
      hide PagePool.LiveMatches, Lookup, Sound;
      var d := p / SLOTS;
      SpacePages(tables, role, pool.frames, pd);
      var info := tables[pd][1023];
      var pt, ptPhys := pool.Allocate();
      if pt == MM_NADDR {
        return false;
      }
      EnterFreshSound(tables, role, pool.frames, pd, p, entry, pt);
      ghost var t0 := tables;
      tables := tables[info := tables[info][d := pt + 1]];
      tables := tables[pd := tables[pd][d := ptPhys + 7]];
      tables := tables[pt := tables[pt][p % SLOTS := entry]];
      assert tables == EnterFresh(t0, pd, p, entry, pt, ptPhys);
      role := role[pt := Table(pd, d)];
      ok := true;
    }

    /** One page of the loops at lines 89-119 of map.c (and 32-62, once the frame is
        chosen): enter it in the slot's table, making the table first if need be. */
    method MapPage(pd: int, p: int, entry: int) returns (ok: bool)
      requires Valid() && FreeClear()
      requires IsSpace(role, pd) && FIRST_PAGE <= p < END_PAGE && Live(entry)
      requires Lookup(tables, pd, p) == Unmapped
      modifies this, pool
      ensures Valid() && FreeClear()
      ensures Spaces(role) == old(Spaces(role))
      ensures ok ==> OnlyChanged(old(tables), tables, Spaces(role), pd, p, Small(entry))
      ensures !ok ==> Exhausted() && tables == old(tables) && role == old(role)
    {
      assert SpaceOk(tables, role, pool.frames, pd) && SlotOk(tables, role, pool.frames, pd, p / SLOTS);
      if Present(tables[pd][p / SLOTS]) {
        MapIntoTable(pd, p, entry);
        ok := true;
      } else {
        ok := MapIntoNewTable(pd, p, entry);
      }
    }

    ghost predicate InRange(start: int, count: int) {
      start % PAGE == 0 && FIRST_PAGE <= start / PAGE && 0 <= count && start / PAGE + count <= END_PAGE
    }

    /** mm_map_range_pages with 4 KiB pages. Its table count goes up for every page, so
        a page already mapped would break the count: the source demands absent ones. */
    method MapRangePages(pd: int, start: int, pages: seq<int>, flags: int) returns (r: Outcome)
      requires Valid() && FreeClear() && IsSpace(role, pd) && InRange(start, |pages|) && !HasPs(flags)
      requires AllUnmapped(tables, pd, start / PAGE, |pages|)
      requires forall i :: 0 <= i < |pages| ==> FrameOk(pages[i])
      modifies this, pool
      ensures Valid() && FreeClear()
      ensures Spaces(role) == old(Spaces(role))
      ensures r == Returned(0) || (r == Panicked && Exhausted())
      ensures r.Returned? ==> PagesEntered(old(tables), tables, Spaces(role), pd, start / PAGE, pages, flags)
    {
      hide Lookup, Valid, FreeClear, EntryFlags, Entered;
      var i := 0;
      while i < |pages|
        invariant 0 <= i <= |pages|
        invariant Valid() && FreeClear()
        invariant Spaces(role) == old(Spaces(role))
        invariant PagesEntered(old(tables), tables, Spaces(role), pd, start / PAGE, pages[..i], flags)
      {
        var vpage := start + i * PAGE;
        AlignedWord(pages[i], EntryFlags(flags));
        assert vpage / PAGE == start / PAGE + i;
        ghost var t1 := tables;
        assert Lookup(tables, pd, start / PAGE + i) == Unmapped;
        var ok := MapPage(pd, vpage / PAGE, pages[i] + EntryFlags(flags));
        if !ok {
          return Panicked;
        }
        OneEntered(t1, tables, Spaces(role), pd, vpage / PAGE, pages[i], flags);
        PagesExtend(old(tables), t1, tables, Spaces(role), pd, start / PAGE, pages[..i], pages[i], flags);
        assert pages[..i + 1] == pages[..i] + [pages[i]];
        i := i + 1;
      }
      assert pages[..i] == pages;
      return Returned(0);
    }

    /** mm_map_range_linear with 4 KiB pages: consecutive frames from pstart on. */
    method MapRangeLinear(pd: int, start: int, pstart: int, count: nat, flags: int) returns (r: Outcome)
      requires Valid() && FreeClear() && IsSpace(role, pd) && InRange(start, count) && !HasPs(flags)
      requires AllUnmapped(tables, pd, start / PAGE, count)
      requires FrameOk(pstart) && pstart + count * PAGE <= ADDRESSES
      modifies this, pool
      ensures Valid() && FreeClear()
      ensures Spaces(role) == old(Spaces(role))
      ensures r == Returned(0) || (r == Panicked && Exhausted())
      ensures r.Returned? ==> PagesEntered(old(tables), tables, Spaces(role), pd, start / PAGE, seq(count, i => pstart + i * PAGE), flags)
    {
      hide Lookup, Valid, FreeClear, Entered;
      ghost var frames: seq<int> := [];
      var i := 0;
      while i < count
        invariant 0 <= i <= count && |frames| == i
        invariant Valid() && FreeClear()
        invariant Spaces(role) == old(Spaces(role))
        invariant forall j :: 0 <= j < i ==> frames[j] == pstart + j * PAGE
        invariant PagesEntered(old(tables), tables, Spaces(role), pd, start / PAGE, frames, flags)
      {
        ghost var t1 := tables;
        assert (start + i * PAGE) / PAGE == start / PAGE + i;
        assert Lookup(tables, pd, start / PAGE + i) == Unmapped;
        r := MapRangePages(pd, start + i * PAGE, [pstart + i * PAGE], flags);
        if r.Panicked? {
          return;
        }
        PagesExtend(old(tables), t1, tables, Spaces(role), pd, start / PAGE, frames, pstart + i * PAGE, flags);
        frames := frames + [pstart + i * PAGE];
        i := i + 1;
      }
      assert frames == seq(count, i => pstart + i * PAGE);
      return Returned(0);
    }

    /** Lines 32-62, the frame being at hand. */
    method MapUnlessPresent(pd: int, p: int, entry: int) returns (ok: bool)
      requires Valid() && FreeClear()
      requires IsSpace(role, pd) && FIRST_PAGE <= p < END_PAGE && Live(entry)
      requires !Lookup(tables, pd, p).Large?
      modifies this, pool
      ensures Valid() && FreeClear()
      ensures Spaces(role) == old(Spaces(role))
      ensures ok ==> OnlyChanged(old(tables), tables, Spaces(role), pd, p,
                                 if old(Lookup(tables, pd, p)) == Unmapped then Small(entry) else old(Lookup(tables, pd, p)))
      ensures !ok ==> Exhausted()
    {
      hide PagePool.LiveMatches;
      var d := p / SLOTS;
      assert SpaceOk(tables, role, pool.frames, pd) && SlotOk(tables, role, pool.frames, pd, d);
      if Present(tables[pd][d]) {
        var pt := Base(tables[tables[pd][1023]][d]);
        if !Present(tables[pt][p % SLOTS]) {
          MapIntoTable(pd, p, entry);
        }
        ok := true;
      } else {
        ok := MapIntoNewTable(pd, p, entry);
      }
    }

    /** mm_map_range: every page of the range takes a physical page, also one that
        MM_FLG_MERGE then finds mapped already. It does not look whether there was one. */
    method MapRange(pd: int, start: int, count: nat, flags: int) returns (r: Outcome, ghost ms: seq<PageTables.Mapping>)
      requires Valid() && FreeClear() && IsSpace(role, pd) && InRange(start, count) && !HasPs(flags)
      requires forall q :: start / PAGE <= q < start / PAGE + count ==>
        Lookup(tables, pd, q) == Unmapped || (HasMerge(flags) && Lookup(tables, pd, q).Small?)
      modifies this, pool, phys
      ensures Valid() && FreeClear()
      ensures Spaces(role) == old(Spaces(role))
      ensures phys.free <= old(phys.free)
      ensures r == Returned(0) || (r == Panicked && Exhausted())
      ensures r.Returned? ==>
        && |ms| == count && RangeSet(old(tables), tables, Spaces(role), pd, start / PAGE, ms)
        && FilledWith(old(tables), pd, start / PAGE, ms, flags, old(phys.free), phys.free)
      ensures r.Returned? && old(|phys.free|) >= count ==>
        && |phys.free| == old(|phys.free|) - count
        && Filled(old(tables), pd, start / PAGE, ms, flags, old(phys.free) - phys.free)
    {
      hide PageTables.Sound, PagePool.LiveMatches, Lookup, PhysicalMemory.FreeMatches, EntryFlags, Filled;
      ms := [];
      NothingFilled(old(tables), pd, start / PAGE, flags, phys.free);
      var i := 0;
      while i < count
        invariant 0 <= i <= count && |ms| == i
        invariant Valid() && FreeClear()
        invariant Spaces(role) == old(Spaces(role))
        invariant RangeSet(old(tables), tables, Spaces(role), pd, start / PAGE, ms)
        invariant FilledWith(old(tables), pd, start / PAGE, ms, flags, old(phys.free), phys.free)
      {
        var p := (start + i * PAGE) / PAGE;
        assert p == start / PAGE + i;
        ghost var free, t1 := phys.free, tables;
        var page := phys.AllocatePage();
        PageWordLive(page, flags);
        FilledWithMore(old(tables), pd, start / PAGE, ms, flags, old(phys.free), free, page);
        assert phys.free == free - {page};
        assert Lookup(tables, pd, p) == Lookup(old(tables), pd, p);
        ghost var m := if Lookup(tables, pd, p) == Unmapped then Small(PageWord(page, flags)) else Lookup(tables, pd, p);
        hide FilledWith;
        var ok := MapUnlessPresent(pd, p, PageWord(page, flags));
        if !ok {
          return Panicked, ms;
        }
        RangeExtend(old(tables), t1, tables, Spaces(role), pd, start / PAGE, ms, m);
        ms := ms + [m];
        i := i + 1;
      }
      r := Returned(0);
    }

    /** Lines 194-200: the writes when the table goes as well. */
    method WriteLast(pd: int, p: int, info: int, pt: int)
      requires Valid() && IsSpace(role, pd) && FIRST_PAGE <= p < END_PAGE && Lookup(tables, pd, p).Small? && IsLast(tables, pd, p)
      requires info == InfoPage(tables, pd) && pt == Base(InfoWord(tables, pd, p / SLOTS))
      modifies this`tables
      ensures tables == Leave(old(tables), pd, p)
    {
      hide PagePool.LiveMatches, Lookup, Sound, IsLast, Base, Low;
      var d := p / SLOTS;
      SpacePages(tables, role, pool.frames, pd);
      TableHeld(tables, role, pool.frames, pd, p);
      tables := tables[pt := tables[pt][p % SLOTS := 0]];
      tables := tables[pd := tables[pd][d := 0]];
      tables := tables[info := tables[info][d := 0]];
    }

    method ClearLastEntry(pd: int, p: int, info: int, pt: int)
      requires Valid() && FreeClear()
      requires IsSpace(role, pd) && FIRST_PAGE <= p < END_PAGE && Lookup(tables, pd, p).Small? && IsLast(tables, pd, p)
      requires info == InfoPage(tables, pd) && pt == Base(InfoWord(tables, pd, p / SLOTS))
      modifies this, pool
      ensures Valid() && FreeClear()
      ensures Spaces(role) == old(Spaces(role)) && role == old(role) - {pt}
      ensures OnlyChanged(old(tables), tables, Spaces(role), pd, p, Unmapped)
    {
      hide PagePool.LiveMatches, Lookup, Sound, IsLast, OnlyChanged, Base, Low, Leave;
      LeaveLastSound(tables, role, pool.frames, pd, p);
      WriteLast(pd, p, info, pt);
      role := role - {pt};
      pool.Free(pt);
    }

    method ClearEntry(pd: int, p: int, info: int, pt: int)
      requires Valid() && FreeClear()
      requires IsSpace(role, pd) && FIRST_PAGE <= p < END_PAGE && Lookup(tables, pd, p).Small?
      requires info == InfoPage(tables, pd) && pt == Base(InfoWord(tables, pd, p / SLOTS))
      modifies this, pool
      ensures Valid() && FreeClear()
      ensures Spaces(role) == old(Spaces(role)) && role.Keys <= old(role.Keys)
      ensures OnlyChanged(old(tables), tables, Spaces(role), pd, p, Unmapped)
    {
      hide PagePool.LiveMatches, Lookup, Sound;
      var d := p / SLOTS;
      SpacePages(tables, role, pool.frames, pd);
      TableHeld(tables, role, pool.frames, pd, p);
      if Low(tables[info][d] - 1) == 0 {
        ClearLastEntry(pd, p, info, pt);
      } else {
        ghost var t0 := tables;
        LeaveSound(tables, role, pool.frames, pd, p);
        tables := tables[pt := tables[pt][p % SLOTS := 0]];
        tables := tables[info := tables[info][d := tables[info][d] - 1]];
        assert tables == Leave(t0, pd, p);
      }
    }

    /** Lines 187-202. */
    method UnmapPage(pd: int, p: int, flags: int)
      requires Valid() && FreeClear()
      requires IsSpace(role, pd) && FIRST_PAGE <= p < END_PAGE && Lookup(tables, pd, p).Small?
      requires !HasNoPhys(flags) ==> FrameOk(FrameOf(tables, pd, p)) && FrameOf(tables, pd, p) !in phys.free
      modifies this, pool, phys
      ensures Valid() && FreeClear()
      ensures Spaces(role) == old(Spaces(role)) && role.Keys <= old(role.Keys)
      ensures OnlyChanged(old(tables), tables, Spaces(role), pd, p, Unmapped)
      ensures phys.free == if HasNoPhys(flags) then old(phys.free)
                           else old(phys.free) + {FrameOf(old(tables), pd, p)}
    {
      hide PagePool.LiveMatches, PhysicalMemory.FreeMatches;
      var d := p / SLOTS;
      assert SpaceOk(tables, role, pool.frames, pd) && SlotOk(tables, role, pool.frames, pd, d);
      var info := tables[pd][1023];
      var pt := Base(tables[info][d]);
      if !HasNoPhys(flags) {
        phys.FreePage(Base(tables[pt][p % SLOTS]));
      }
      ClearEntry(pd, p, info, pt);
    }

    /** mm_umap_range with 4 KiB pages. It returns -1 whether or not anything went
        wrong, against section 1 of doc/memory.rst. */
    method UmapRange(pd: int, start: int, count: nat, flags: int) returns (r: int)
      requires Valid() && FreeClear() && IsSpace(role, pd) && InRange(start, count) && !HasPs(flags)
      requires AllSmall(tables, pd, start / PAGE, count)
      requires !HasNoPhys(flags) ==>
        && FramesDistinct(tables, pd, start / PAGE, count)
        && forall f :: f in FramesOf(tables, pd, start / PAGE, count) ==> FrameOk(f) && f !in phys.free
      modifies this, pool, phys
      ensures Valid() && FreeClear()
      ensures Spaces(role) == old(Spaces(role)) && role.Keys <= old(role.Keys)
      ensures RangeSet(old(tables), tables, Spaces(role), pd, start / PAGE, seq(count, _ => Unmapped))
      ensures phys.free == if HasNoPhys(flags) then old(phys.free)
                           else old(phys.free) + FramesOf(old(tables), pd, start / PAGE, count)
      ensures r == -1
    {
      hide Lookup, Valid, FreeClear, FramesOf, OnlyChanged, FrameOf;
      var i := 0;
      ghost var lo := start / PAGE;
      FramesNone(tables, pd, lo);
      while i < count
        invariant 0 <= i <= count
        invariant Valid() && FreeClear()
        invariant Spaces(role) == old(Spaces(role)) && role.Keys <= old(role.Keys)
        invariant RangeSet(old(tables), tables, Spaces(role), pd, lo, seq(i, _ => Unmapped))
        invariant phys.free == if HasNoPhys(flags) then old(phys.free) else old(phys.free) + FramesOf(old(tables), pd, lo, i)
      {
        var p := (start + i * PAGE) / PAGE;
        assert p == lo + i;
        ghost var t1 := tables;
        assert Lookup(tables, pd, p) == Lookup(old(tables), pd, p);
        FramesStep(old(tables), tables, pd, lo, i, count);
        UnmapPage(pd, p, flags);
        RangeExtend(old(tables), t1, tables, Spaces(role), pd, lo, seq(i, _ => Unmapped), Unmapped);
        assert seq(i, _ => Unmapped) + [Unmapped] == seq(i + 1, _ => Unmapped);
        i := i + 1;
      }
      r := -1;
    }

    ghost predicate HugeRange(start: int, count: int) {
      start % PAGE == 0 && 1 <= start / 0x40_0000 && 0 <= count && start / 0x40_0000 + count <= 1023
    }

    method SetDirectory(pd: int, d: int, e: int)
      requires Valid() && IsSpace(role, pd) && 1 <= d < 1023 && !IsTable(tables, pd, d)
      requires e == 0 || (Present(e) && IsHuge(e))
      modifies this`tables
      ensures Valid() && (old(FreeClear()) ==> FreeClear())
      ensures forall j :: Rd(tables, pd, j) == if j == d then e else old(Rd(tables, pd, j))
      ensures forall s, q :: IsSpace(role, s) && 0 <= q < ALL_PAGES ==>
        Lookup(tables, s, q) ==
          if s == pd && q / SLOTS == d then if e == 0 then Unmapped else Large(e) else old(Lookup(tables, s, q))
    {
      hide Lookup, PagePool.LiveMatches, Sound;
      SpacePages(tables, role, pool.frames, pd);
      HugeSound(tables, role, pool.frames, pd, d, e);
      tables := tables[pd := tables[pd][d := e]];
    }

    /** mm_map_range_pages with 4 MiB pages. */
    method MapHugePages(pd: int, start: int, pages: seq<int>, flags: int) returns (r: Outcome)
      requires Valid() && IsSpace(role, pd) && HugeRange(start, |pages|) && HasPs(flags)
      requires forall i :: start / 0x40_0000 <= i < start / 0x40_0000 + |pages| ==> Rd(tables, pd, i) == 0
      requires forall i :: 0 <= i < |pages| ==> FrameOk(pages[i])
      modifies this`tables
      ensures Valid() && (old(FreeClear()) ==> FreeClear())
      ensures r == Returned(0)
      ensures forall j :: !(start / 0x40_0000 <= j < start / 0x40_0000 + |pages|) ==> Rd(tables, pd, j) == old(Rd(tables, pd, j))
      ensures forall s, q :: IsSpace(role, s) && 0 <= q < ALL_PAGES ==>
        if s == pd && start / 0x40_0000 <= q / SLOTS < start / 0x40_0000 + |pages|
        then EnteredHuge(Lookup(tables, s, q), pages[q / SLOTS - start / 0x40_0000], flags)
        else Lookup(tables, s, q) == old(Lookup(tables, s, q))
    {
      hide Lookup, Valid, FreeClear, EntryFlags, EnteredHuge;
      ghost var lo := start / 0x40_0000;
      var i := 0;
      while i < |pages|
        invariant 0 <= i <= |pages|
        invariant Valid() && (old(FreeClear()) ==> FreeClear())
        invariant forall j :: !(lo <= j < lo + i) ==> Rd(tables, pd, j) == Rd(old(tables), pd, j)
        invariant forall s, q :: IsSpace(role, s) && 0 <= q < ALL_PAGES ==>
          if s == pd && lo <= q / SLOTS < lo + i
          then EnteredHuge(Lookup(tables, s, q), pages[q / SLOTS - lo], flags)
          else Lookup(tables, s, q) == Lookup(old(tables), s, q)
      {
        var pdi := start / 0x40_0000 + i;
        var e := pages[i] + EntryFlags(flags) + MM_FLG_PS;
        AlignedWord(pages[i], EntryFlags(flags) + MM_FLG_PS);
        EntryIs(pages[i], flags);
        SetDirectory(pd, pdi, e);
        i := i + 1;
      }
      r := Returned(0);
    }

    /** mm_map_range_linear with 4 MiB pages, from the slot start lies in. */
    method MapRangeLinearHuge(pd: int, start: int, pstart: int, count: nat, flags: int) returns (r: Outcome)
      requires Valid() && IsSpace(role, pd) && start % PAGE == 0 && HasPs(flags)
      requires 1 <= start / 0x40_0000 && start / 0x40_0000 + count <= 1023
      requires forall i :: start / 0x40_0000 <= i < start / 0x40_0000 + count ==> Rd(tables, pd, i) == 0
      requires FrameOk(pstart) && pstart + count * 0x40_0000 <= ADDRESSES
      modifies this`tables
      ensures Valid() && (old(FreeClear()) ==> FreeClear())
      ensures r == Returned(0)
      ensures forall s, q :: IsSpace(role, s) && 0 <= q < ALL_PAGES ==>
        if s == pd && start / 0x40_0000 <= q / SLOTS < start / 0x40_0000 + count
        then EnteredHuge(Lookup(tables, s, q), pstart + (q / SLOTS - start / 0x40_0000) * 0x40_0000, flags)
        else Lookup(tables, s, q) == old(Lookup(tables, s, q))
    {
      hide Valid, FreeClear, Lookup, EnteredHuge;
      var from := start - start % 0x40_0000;
      ghost var lo := start / 0x40_0000;
      var i := 0;
      while i < count
        invariant 0 <= i <= count
        invariant Valid() && (old(FreeClear()) ==> FreeClear())
        invariant forall j :: lo + i <= j < lo + count ==> Rd(tables, pd, j) == 0
        invariant forall s, q :: IsSpace(role, s) && 0 <= q < ALL_PAGES ==>
          if s == pd && lo <= q / SLOTS < lo + i
          then EnteredHuge(Lookup(tables, s, q), pstart + (q / SLOTS - lo) * 0x40_0000, flags)
          else Lookup(tables, s, q) == Lookup(old(tables), s, q)
      {
        assert (from + i * 0x40_0000) / 0x40_0000 == lo + i;
        r := MapHugePages(pd, from + i * 0x40_0000, [pstart + i * 0x40_0000], flags);
        i := i + 1;
      }
      r := Returned(0);
    }

    lemma DirectoryWord(pd: int, d: int)
      requires Valid() && IsSpace(role, pd) && 0 <= d < SLOTS
      ensures pd in tables && |tables[pd]| == SLOTS && tables[pd][d] == Rd(tables, pd, d)
    {
      hide Lookup, PagePool.LiveMatches, FreeMatches;
      SpacePages(tables, role, pool.frames, pd);
    }

    /** Line 169. */
    method ReleaseHuge(e: int)
      requires Valid() && 0 <= e < ADDRESSES && FirstPages(HugeBase(e)) !! phys.free
      modifies phys
      ensures Valid() && (old(FreeClear()) ==> FreeClear())
      ensures phys.free == old(phys.free) + FirstPages(HugeBase(e))
    {
      hide Lookup, PagePool.LiveMatches, FreeMatches, Sound, FirstPages;
      HugeBaseAligned(e);
      phys.FreeHuge(HugeBase(e));
    }

    /** Lines 166-172: one of them. */
    method DropHuge(pd: int, pdi: int, flags: int)
      requires Valid() && IsSpace(role, pd) && 1 <= pdi < 1023
      requires Present(Rd(tables, pd, pdi)) && IsHuge(Rd(tables, pd, pdi)) && 0 <= Rd(tables, pd, pdi) < ADDRESSES
      requires !HasNoPhys(flags) ==> FirstPages(HugeBase(Rd(tables, pd, pdi))) !! phys.free
      modifies this`tables, phys
      ensures Valid() && (old(FreeClear()) ==> FreeClear())
      ensures phys.free == old(phys.free) + if HasNoPhys(flags) then {} else FirstPages(HugeBase(old(Rd(tables, pd, pdi))))
      ensures forall j :: Rd(tables, pd, j) == if j == pdi then 0 else old(Rd(tables, pd, j))
      ensures forall s, q :: IsSpace(role, s) && 0 <= q < ALL_PAGES ==>
        Lookup(tables, s, q) == if s == pd && q / SLOTS == pdi then Unmapped else old(Lookup(tables, s, q))
    {
      hide Lookup, Valid, FreeClear, FirstPages;
      DirectoryWord(pd, pdi);
      if !HasNoPhys(flags) {
        ReleaseHuge(tables[pd][pdi]);
      }
      SetDirectory(pd, pdi, 0);
    }

    /** mm_umap_range with 4 MiB pages. Without MM_FLG_NOPHYS the first 128 KiB of each are
        given back; the rest stays in use. */
    method UmapHugePages(pd: int, start: int, count: nat, flags: int) returns (r: int)
      requires Valid() && IsSpace(role, pd) && HugeRange(start, count) && HasPs(flags)
      requires forall i :: start / 0x40_0000 <= i < start / 0x40_0000 + count ==>
        Present(Rd(tables, pd, i)) && IsHuge(Rd(tables, pd, i)) && 0 <= Rd(tables, pd, i) < ADDRESSES
      requires !HasNoPhys(flags) ==> HugeTaken(tables, pd, start / 0x40_0000, count, phys.free)
      modifies this`tables, phys
      ensures Valid() && (old(FreeClear()) ==> FreeClear())
      ensures r == -1
      ensures phys.free == if HasNoPhys(flags) then old(phys.free) else old(phys.free) + HugeFreed(old(tables), pd, start / 0x40_0000, count)
      ensures forall s, q :: IsSpace(role, s) && 0 <= q < ALL_PAGES ==>
        Lookup(tables, s, q) ==
          if s == pd && start / 0x40_0000 <= q / SLOTS < start / 0x40_0000 + count then Unmapped
          else old(Lookup(tables, s, q))
    {
      hide Lookup, Valid, FreeClear, HugeTaken, HugeFreed, HugeBase, FirstPages, IsHuge, Present;
      ghost var lo := start / 0x40_0000;
      HugeFreedStep(tables, pd, lo, 0);
      var i := 0;
      while i < count
        invariant 0 <= i <= count
        invariant Valid() && (old(FreeClear()) ==> FreeClear())
        invariant forall j :: !(lo <= j < lo + i) ==> Rd(tables, pd, j) == Rd(old(tables), pd, j)
        invariant phys.free == if HasNoPhys(flags) then old(phys.free) else old(phys.free) + HugeFreed(old(tables), pd, lo, i)
        invariant forall s, q :: IsSpace(role, s) && 0 <= q < ALL_PAGES ==>
          Lookup(tables, s, q) == if s == pd && lo <= q / SLOTS < lo + i then Unmapped else Lookup(old(tables), s, q)
      {
        if !HasNoPhys(flags) {
          HugeStillTaken(old(tables), pd, lo, count, i, old(phys.free));
        }
        HugeFreedStep(old(tables), pd, lo, i);
        DropHuge(pd, start / 0x40_0000 + i, flags);
        i := i + 1;
      }
      r := -1;
    }

    /** mm_translate, with the flags it stores through rflags. */
    method Translate(pd: int, addr: int) returns (r: int, rflags: int)
      requires Valid() && IsSpace(role, pd) && 0 <= addr < ADDRESSES
      ensures match Lookup(tables, pd, addr / PAGE)
              case Unmapped => r == MM_NADDR
              case Small(w) => r == w - w % 0x1000 + addr % 0x1000 && Reported(rflags, w, 0)
              case Large(w) => r == w - w % 0x40_0000 + addr % 0x40_0000 && Reported(rflags, w, 1)
    {
      hide PagePool.LiveMatches, Reported;
      rflags := 0;
      var pdi, pti := addr / 0x40_0000, addr / PAGE % SLOTS;
      assert SpaceOk(tables, role, pool.frames, pd);
      assert addr / PAGE / SLOTS == pdi;
      if !Present(tables[pd][pdi]) {
        return MM_NADDR, 0;
      }
      if IsHuge(tables[pd][pdi]) {
        ReportedIs(tables[pd][pdi]);
        rflags := tables[pd][pdi] / 2 % 4 * 2 + MM_FLG_PS;
        return tables[pd][pdi] - tables[pd][pdi] % 0x40_0000 + addr % 0x40_0000, rflags;
      }
      assert pdi != 1023;
      assert SlotOk(tables, role, pool.frames, pd, pdi);
      var info := tables[pd][1023];
      assert tables[info][pdi] != 0;
      var pt := Base(tables[info][pdi]);
      if !Present(tables[pt][pti]) {
        return MM_NADDR, 0;
      }
      ReportedIs(tables[pt][pti]);
      return Base(tables[pt][pti]) + addr % PAGE, tables[pt][pti] / 2 % 4 * 2;
    }

    /** Lines 95-108: both pages cleared, slots 0 and 1023 set. */
    method LayOut(space: int, info: int, at: int)
      requires space in tables && info in tables && space != info
      requires forall a :: PagePool.InPool(a) ==> a in tables && |tables[a]| == SLOTS
      modifies this`tables
      ensures tables == SpaceTables.NewSpace(old(tables), space, at, info)
      ensures forall a :: PagePool.InPool(a) ==> a in tables && |tables[a]| == SLOTS
    {
      var zeros := SpaceTables.ZeroPage();
      tables := tables[space := zeros];
      tables := tables[info := zeros];
      tables := tables[space := tables[space][0 := at][1023 := info]];
    }

    /** Two pages fresh from the pool become a space. */
    method Admit(space: int, info: int, at: int)
      requires pool.Valid() && phys.Valid() && Sound(tables, role, pool.frames) && !PagePool.InPool(kernel) && IsSpace(role, kernel)
      requires role.Keys + {space, info} == pool.live + {kernel} && space !in role && info !in role && space != info
      requires PagePool.InPool(space) && PagePool.InPool(info) && at == PhysicalOf(pool.frames, space)
      requires forall a :: PagePool.InPool(a) ==> a in tables && |tables[a]| == SLOTS
      modifies this`tables, this`role
      ensures Valid() && InfoPage(tables, space) == info && Spaces(role) == old(Spaces(role)) + {space}
      ensures forall a :: a != space && a != info ==> Zero(tables, a) == old(Zero(tables, a))
      ensures forall q :: 0 <= q < ALL_PAGES ==> Lookup(tables, space, q) == Unmapped
      ensures forall s, q :: s in old(Spaces(role)) && 0 <= q < ALL_PAGES ==> Lookup(tables, s, q) == old(Lookup(tables, s, q))
    {
      hide Lookup, PagePool.LiveMatches, FreeMatches, Sound;
      SpaceTables.NewSpaceSound(tables, role, pool.frames, space, info);
      LayOut(space, info, at);
      role := role[space := Directory][info := TableInfo(space)];
    }

    /** mm_create_space: null when the pool is empty. The source does not look whether the
        second page, for table information, was there; the kernel faults if it was not. */
    method CreateSpace() returns (r: Outcome, phys2: int)
      requires Valid()
      modifies this, pool
      ensures r.Returned? ==> Valid() && (old(FreeClear()) ==> FreeClear())
      ensures r.Returned? && r.value == 0 ==> Exhausted() && tables == old(tables) && role == old(role)
      ensures r == Panicked ==> Exhausted()
      ensures r.Returned? && r.value != 0 ==>
        && r.value !in old(Spaces(role)) && Spaces(role) == old(Spaces(role)) + {r.value}
        && phys2 == PhysicalOf(pool.frames, r.value)
        && (forall a :: Dirty(a) ==> old(Dirty(a)) && a != r.value && a != InfoPage(tables, r.value))
        && (forall q :: 0 <= q < ALL_PAGES ==> Lookup(tables, r.value, q) == Unmapped)
        && (forall s, q :: s in old(Spaces(role)) && 0 <= q < ALL_PAGES ==> Lookup(tables, s, q) == old(Lookup(tables, s, q)))
    {
      hide Lookup, PagePool.LiveMatches, Sound, FreeMatches, Zero, InfoPage;
      var space, phys := pool.Allocate();
      phys2 := phys;
      if space == MM_NADDR {
        return Returned(0), phys2;
      }
      var info, ignored := pool.Allocate();
      if info == MM_NADDR {
        return Panicked, phys2;
      }
      Admit(space, info, phys);
      r := Returned(space);
    }

    /** mm_destroy_space. The directory page goes back to the pool with its words in it,
        and the tables are not freed: from then on FreeClear fails. */
    method DestroySpace(pd: int)
      requires Valid() && IsSpace(role, pd) && pd != kernel
      modifies this`role, pool
      ensures Valid() && Dirty(pd) && !FreeClear()
      ensures forall a :: Dirty(a) && a != pd && a != InfoPage(tables, pd) ==> old(Dirty(a))
      ensures Spaces(role) == old(Spaces(role)) - {pd}
      ensures pool.live == old(pool.live) - {pd, InfoPage(tables, pd)}
      ensures forall d :: 1 <= d < 1023 && IsTable(tables, pd, d) ==> Base(InfoWord(tables, pd, d)) in pool.live
      ensures tables == old(tables)
    {
      assert PagePool.InPool(pd);
      hide PagePool.LiveMatches, Lookup;
      SpacePages(tables, role, pool.frames, pd);
      assert RoleOk(tables, role, pd) && RoleOk(tables, role, InfoPage(tables, pd));
      SpaceTables.AbandonedSound(tables, role, pool.frames, pd);
      SpaceTables.KernelKept(tables, role, pool.frames, pd, kernel);
      hide Sound;
      pool.Free(tables[pd][1023]);
      pool.Free(pd);
      role := SpaceTables.Abandoned(role, pd, InfoPage(tables, pd));
    }

    /** Lines 121-126: the two memsets. */
    method ClearDirectory(dst: int)
      requires Valid() && FreeClear() && IsSpace(role, dst)
      modifies this
      ensures Valid() && FreeClear() && Spaces(role) == old(Spaces(role))
      ensures forall s, q :: s in Spaces(role) && 0 <= q < ALL_PAGES ==>
        Lookup(tables, s, q) == if s == dst then Unmapped else old(Lookup(tables, s, q))
      ensures forall d :: 1 <= d < 1023 ==> Rd(tables, dst, d) == 0
    {
      hide Lookup, PagePool.LiveMatches, Sound;
      SpacePages(tables, role, pool.frames, dst);
      SpaceTables.ClearedSound(tables, role, pool.frames, dst);
      ghost var t0 := tables;
      var info := tables[dst][1023];
      var zeros := SpaceTables.ZeroPage();
      tables := tables[dst := [tables[dst][0]] + zeros[..1022] + [tables[dst][1023]]];
      tables := tables[info := zeros];
      assert tables == SpaceTables.Cleared(t0, dst);
      role := SpaceTables.Dropped(role, dst);
    }

    method CloneTable(dst: int, src: int, d: int) returns (ok: bool)
      requires Valid() && FreeClear() && IsSpace(role, src) && IsSpace(role, dst) && src != dst
      requires 1 <= d < 1023 && Rd(tables, dst, d) == 0 && IsTable(tables, src, d)
      modifies this, pool
      ensures Valid() && FreeClear() && Spaces(role) == old(Spaces(role))
      ensures !ok ==> Exhausted()
      ensures ok ==> forall j :: j != d ==> Rd(tables, dst, j) == old(Rd(tables, dst, j))
      ensures ok ==> forall s, q :: s in Spaces(role) && 0 <= q < ALL_PAGES ==>
        Lookup(tables, s, q) == if s == dst && q / SLOTS == d then old(Lookup(tables, src, q)) else old(Lookup(tables, s, q))
    {
      hide Lookup, PagePool.LiveMatches, Sound;
      SpacePages(tables, role, pool.frames, dst);
      SpacePages(tables, role, pool.frames, src);
      SpaceTables.SourceTable(tables, role, pool.frames, src, d);
      var page, phys := pool.Allocate();
      if page == MM_NADDR {
        return false;
      }
      SpaceTables.CloneTableSound(tables, role, pool.frames, dst, src, d, page);
      var srcInfo, dstInfo := tables[src][1023], tables[dst][1023];
      var srcTable := Base(tables[srcInfo][d]);
      tables := tables[dstInfo := tables[dstInfo][d := page + Low(tables[srcInfo][d])]];
      tables := tables[dst := tables[dst][d := phys + 7]];
      tables := tables[page := tables[srcTable]];
      assert tables == SpaceTables.CloneTable(old(tables), dst, src, d, page, phys);
      role := role[page := Table(dst, d)];
      ok := true;
    }

    /** Lines 129-147: one directory slot. */
    method CloneSlot(dst: int, src: int, d: int) returns (ok: bool)
      requires Valid() && FreeClear() && IsSpace(role, src) && IsSpace(role, dst) && src != dst
      requires 1 <= d < 1024 && (d < 1023 ==> Rd(tables, dst, d) == 0)
      modifies this, pool
      ensures Valid() && FreeClear() && Spaces(role) == old(Spaces(role))
      ensures !ok ==> Exhausted()
      ensures ok ==> forall j :: j != d ==> Rd(tables, dst, j) == old(Rd(tables, dst, j))
      ensures ok ==> forall s, q :: s in Spaces(role) && 0 <= q < ALL_PAGES ==>
        Lookup(tables, s, q) == if s == dst && q / SLOTS == d then old(Lookup(tables, src, q)) else old(Lookup(tables, s, q))
    {
      SpaceTables.PlainSlot(tables, dst, d);
      SpacePages(tables, role, pool.frames, dst);
      SpacePages(tables, role, pool.frames, src);
      assert SpaceOk(tables, role, pool.frames, dst);
      hide PagePool.LiveMatches, Lookup, Sound;
      if !IsTable(tables, src, d) {
        SpaceTables.PlainSlot(tables, src, d);
      }
      if !Present(tables[src][d]) {
        return true;
      }
      if IsHuge(tables[src][d]) {
        SetDirectory(dst, d, tables[src][d]);
        return true;
      }
      ok := CloneTable(dst, src, d);
    }

    /** mm_space_clone with MM_FLG_CLONE_KERNEL: every kernel address translates alike in
        both, through tables dst owns alone, and dst maps nothing else. Tables it had
        before stay in use. */
    method CloneKernel(dst: int, src: int) returns (r: Outcome)
      requires Valid() && FreeClear() && IsSpace(role, src) && IsSpace(role, dst) && src != dst
      modifies this, pool
      ensures Valid() && FreeClear() && Spaces(role) == old(Spaces(role))
      ensures r == Returned(0) || (r == Panicked && Exhausted())
      ensures r.Returned? ==> forall s, q :: s in Spaces(role) && 0 <= q < ALL_PAGES ==>
        Lookup(tables, s, q) ==
          if s != dst then old(Lookup(tables, s, q)) else if 0xC_0000 <= q then old(Lookup(tables, src, q)) else Unmapped
    {
      hide Lookup, PagePool.LiveMatches;
      ClearDirectory(dst);
      hide Sound;
      var pdi := KERNEL_VIRT_BASE / 0x40_0000;
      while pdi < 1024
        invariant KERNEL_PAGE / SLOTS <= pdi <= 1024
        invariant Valid() && FreeClear() && Spaces(role) == old(Spaces(role))
        invariant forall d :: pdi <= d < 1023 ==> Rd(tables, dst, d) == 0
        invariant forall s, q :: s in Spaces(role) && 0 <= q < ALL_PAGES ==>
          Lookup(tables, s, q) ==
            if s != dst then Lookup(old(tables), s, q)
            else if KERNEL_PAGE / SLOTS <= q / SLOTS < pdi then Lookup(old(tables), src, q) else Unmapped
      {
        var ok := CloneSlot(dst, src, pdi);
        if !ok {
          return Panicked;
        }
        pdi := pdi + 1;
      }
      r := Returned(0);
    }
  }

  lemma EnteredSmall(m: PageTables.Mapping, frame: int, flags: int)
    requires Entered(m, frame, flags)
    ensures m.Small?
  {
  }

  /** A range mapped and one of its addresses translated: the address asked for, with write
      and user access exactly as asked for. */
  method MapAndTranslate(m: Mmu, pd: int, start: int, pstart: int, count: nat, flags: int, addr: int)
    returns (r: Outcome, phys: int, rflags: int)
    requires m.Valid() && m.FreeClear() && IsSpace(m.role, pd) && m.InRange(start, count) && !HasPs(flags)
    requires AllUnmapped(m.tables, pd, start / PAGE, count)
    requires FrameOk(pstart) && pstart + count * PAGE <= ADDRESSES && start <= addr < start + count * PAGE
    modifies m, m.pool
    ensures r.Returned? ==> phys == pstart + (addr - start) && rflags == flags / 2 % 2 * 2 + flags / 4 % 2 * 4
  {
    hide Lookup, Entered, Reported, Sound, PagePool.LiveMatches;
    phys, rflags := 0, 0;
    r := m.MapRangeLinear(pd, start, pstart, count, flags);
    if r.Returned? {
      ghost var i := addr / PAGE - start / PAGE;
      assert Entered(Lookup(m.tables, pd, addr / PAGE), pstart + i * PAGE, flags);
      EnteredSmall(Lookup(m.tables, pd, addr / PAGE), pstart + i * PAGE, flags);
      phys, rflags := m.Translate(pd, addr);
      EnteredReported(Lookup(m.tables, pd, addr / PAGE), pstart + i * PAGE, flags, addr, rflags);
    }
  }
}
