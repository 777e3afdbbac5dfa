/** The pool the paging structures come from, src/arch/x86/mm/space.c:7-83.
    Sixteen 4 MiB regions of 1024 pages; region i is set up on first use. The
    struct array is kept as four parallel sequences, with the 32 bitmap words of
    region i at 32 * i. */
module PagePool {
  import opened Bitmaps
  import opened PhysicalMemory

  const POOLS := 16
  const REGION := 0x40_0000
  const PAGES := 1024
  /** KERNEL_VIRT_BASE + (4 << 22) */
  const POOL_BASE := 0xC100_0000

  ghost predicate InPool(a: int) {
    POOL_BASE <= a < POOL_BASE + POOLS * REGION && a % PAGE == 0
  }

  /** The physical address of pool page a, when region i sits at frames[i]. */
  function PhysicalOf(frames: seq<int>, a: int): int
    requires |frames| == POOLS && POOL_BASE <= a < POOL_BASE + POOLS * REGION
  {
    frames[(a - POOL_BASE) / REGION] + (a - POOL_BASE) % REGION
  }

  ghost predicate FramesOk(frames: seq<int>) {
    && |frames| == POOLS
    && (forall i :: 0 <= i < POOLS ==> 4 * REGION <= frames[i] <= ADDRESSES - REGION && frames[i] % REGION == 0)
    && forall i, j :: 0 <= i < j < POOLS ==> frames[i] != frames[j]
  }

  lemma PhysicalAligned(frames: seq<int>, a: int)
    requires FramesOk(frames) && InPool(a)
    ensures PhysicalOf(frames, a) % PAGE == 0 && 4 * REGION <= PhysicalOf(frames, a) <= ADDRESSES - PAGE
  {
    var i := (a - POOL_BASE) / REGION;
    assert frames[i] / REGION * REGION == frames[i];
  }

  /** No two pool pages share a physical page: what lets a directory entry, which
      holds a physical address, identify a table. */
  lemma PhysicalInjective(frames: seq<int>, a: int, b: int)
    requires FramesOk(frames) && InPool(a) && InPool(b) && a != b
    ensures PhysicalOf(frames, a) != PhysicalOf(frames, b)
  {
    var i, j := (a - POOL_BASE) / REGION, (b - POOL_BASE) / REGION;
    assert frames[i] / REGION * REGION == frames[i];
    assert frames[j] / REGION * REGION == frames[j];
    if i != j {
      assert frames[i] != frames[j];
    }
  }

  /** A live page is a pool page whose region is set up and whose bit is set. */
  ghost predicate LiveMatches(words: seq<Word>, vaddr: seq<int>, live: set<int>) {
    && |words| == 32 * POOLS && |vaddr| == POOLS
    && (forall a :: a in live ==> InPool(a))
    && forall k :: 0 <= k < POOLS * PAGES ==>
         (POOL_BASE + PAGE * k in live <==> vaddr[k / PAGES] != 0 && Taken(words, k))
  }

  lemma LiveChange(words: seq<Word>, vaddr: seq<int>, live: set<int>, k: int)
    requires LiveMatches(words, vaddr, live) && 0 <= k < POOLS * PAGES && vaddr[k / PAGES] != 0
    ensures var a := POOL_BASE + PAGE * k;
      && LiveMatches(words[k / 32 := words[k / 32] + {k % 32}], vaddr, live + {a})
      && LiveMatches(words[k / 32 := words[k / 32] - {k % 32}], vaddr, live - {a})
  {
    var a := POOL_BASE + PAGE * k;
    assert InPool(a);
    var set', cleared := words[k / 32 := words[k / 32] + {k % 32}], words[k / 32 := words[k / 32] - {k % 32}];
    forall q | 0 <= q < POOLS * PAGES
      ensures POOL_BASE + PAGE * q in live + {a} <==> vaddr[q / PAGES] != 0 && Taken(set', q)
      ensures POOL_BASE + PAGE * q in live - {a} <==> vaddr[q / PAGES] != 0 && Taken(cleared, q)
    {
      assert POOL_BASE + PAGE * q in live <==> vaddr[q / PAGES] != 0 && Taken(words, q);
      assert q / 32 == k / 32 && q % 32 == k % 32 ==> q == k;
    }
  }

  /** Where lines 73-74 of the source find the bit of page number k, in region i. */
  lemma PageCoordinates(page: int, k: int)
    requires page == POOL_BASE + PAGE * k && 0 <= k < POOLS * PAGES
    ensures (page - POOL_BASE) / REGION == k / PAGES
    ensures 32 * (k / PAGES) + (page - POOL_BASE - REGION * (k / PAGES)) / 0x20000 == k / 32
    ensures (page - POOL_BASE - REGION * (k / PAGES)) / PAGE % 32 == k % 32
  {
  }

  class Pool {
    var bitmap: seq<Word>
    var indexLast: seq<int>
    var vaddr: seq<int>
    var paddr: seq<int>
    /** The 4 MiB physical frames the regions are given, in order. */
    const frames: seq<int>
    ghost var live: set<int>

    ghost predicate Valid()
      reads this
    {
      && |bitmap| == 32 * POOLS && |indexLast| == POOLS && |vaddr| == POOLS && |paddr| == POOLS
      && FramesOk(frames)
      && WordsOk(bitmap)
      && (forall i :: 0 <= i < POOLS ==> 0 <= indexLast[i] < 32)
      && (forall i :: 0 <= i < POOLS ==> vaddr[i] != 0 ==> vaddr[i] == POOL_BASE + REGION * i && paddr[i] == frames[i])
      && LiveMatches(bitmap, vaddr, live)
    }

    constructor (frames: seq<int>)
      requires FramesOk(frames)
      ensures Valid() && live == {} && this.frames == frames
    {
      this.frames := frames;
      bitmap := seq(32 * POOLS, _ => {});
      indexLast := seq(POOLS, _ => 0);
      vaddr := seq(POOLS, _ => 0);
      paddr := seq(POOLS, _ => 0);
      live := {};
    }

    /** Lines 20-29: give region i its frame and clear its bitmap. */
    method SetUp(i: int)
      requires Valid() && 0 <= i < POOLS && vaddr[i] == 0
      modifies this`bitmap, this`indexLast, this`vaddr, this`paddr
      ensures Valid() && vaddr[i] != 0
    {
      var words := bitmap;
      var j := 0;
      while j < 32
        invariant 0 <= j <= 32 && |words| == 32 * POOLS && WordsOk(words)
        invariant forall w :: 0 <= w < 32 * POOLS ==> words[w] == if 32 * i <= w < 32 * i + j then {} else bitmap[w]
      {
        words := words[32 * i + j := {}];
        j := j + 1;
      }
      paddr := paddr[i := frames[i]];
      vaddr := vaddr[i := POOL_BASE + REGION * i];
      indexLast := indexLast[i := 0];
      bitmap := words;
    }

    /** Lines 38-43: mark the page the scan stopped at and move the cursor there. */
    method Take(i: int, k: int) returns (page: int, phys: int)
      requires Valid() && 0 <= i < POOLS && PAGES * i <= k < PAGES * (i + 1)
      requires vaddr[i] != 0 && !Taken(bitmap, k)
      modifies this`live, this`bitmap, this`indexLast
      ensures Valid()
      ensures page == POOL_BASE + PAGE * k && InPool(page) && page !in old(live)
      ensures live == old(live) + {page} && phys == PhysicalOf(frames, page)
    {
      var j, bit := k / 32 - 32 * i, k % 32;
      page := vaddr[i] + j * 0x20000 + bit * PAGE;
      phys := paddr[i] + j * 0x20000 + bit * PAGE;
      LiveChange(bitmap, vaddr, live, k);
      bitmap := bitmap[32 * i + j := bitmap[32 * i + j] + {bit}];
      indexLast := indexLast[i := j];
      live := live + {page};
      assert k / PAGES == i;
    }

    /** Every page of the pool is live, or the page returned was not: a live page
        is never handed out twice, and virtual minus physical is constant in a region. */
    method Allocate() returns (page: int, phys: int)
      requires Valid()
      modifies this
      ensures Valid()
      ensures page == MM_NADDR <==> forall a :: InPool(a) ==> a in old(live)
      ensures page == MM_NADDR ==> live == old(live)
      ensures page != MM_NADDR ==>
        && InPool(page) && page !in old(live)
        && live == old(live) + {page}
        && phys == PhysicalOf(frames, page)
    {
      phys := 0;
      for i := 0 to POOLS
        invariant Valid() && live == old(live)
        invariant forall k :: 0 <= k < PAGES * i ==> POOL_BASE + PAGE * k in live
      {
        if vaddr[i] == 0 {
          SetUp(i);
        }
        var k := Scan(bitmap, 32 * i + indexLast[i], 32 * i + 32);
        if k == -1 {
          k := Scan(bitmap, 32 * i, 32 * i + indexLast[i]);
        }
        if k != -1 {
          page, phys := Take(i, k);
          return;
        }
        forall q | PAGES * i <= q < PAGES * (i + 1)
          ensures POOL_BASE + PAGE * q in live
        {
          assert Taken(bitmap, q) && q / PAGES == i;
        }
      }
      forall a | InPool(a)
        ensures a in live
      {
        assert a == POOL_BASE + PAGE * ((a - POOL_BASE) / PAGE);
      }
      page := MM_NADDR;
    }

    method Clear(i: int, index: int, bit: int, page: int, ghost k: int)
      requires Valid() && page in live && page == POOL_BASE + PAGE * k && 0 <= k < POOLS * PAGES
      requires 0 <= index < 32 && 0 <= i < POOLS && vaddr[i] != 0
      requires 32 * i + index == k / 32 && bit == k % 32
      modifies this`live, this`bitmap
      ensures Valid() && live == old(live) - {page}
    {
      LiveChange(bitmap, vaddr, live, k);
      bitmap := bitmap[32 * i + index := bitmap[32 * i + index] - {bit}];
      live := live - {page};
    }

    /** x86_page_pool_free; the source panics on a page that is not live. */
    method Free(page: int)
      requires Valid() && page in live
      modifies this`live, this`bitmap
      ensures Valid() && live == old(live) - {page}
    {
      ghost var k := (page - POOL_BASE) / PAGE;
      assert page == POOL_BASE + PAGE * k;
      assert vaddr[k / PAGES] != 0;
      PageCoordinates(page, k);
      for i := 0 to POOLS
        invariant i <= k / PAGES
      {
        if vaddr[i] != 0 && vaddr[i] <= page && page - vaddr[i] < REGION {
          var index, bit := (page - vaddr[i]) / 0x20000, (page - vaddr[i]) / PAGE % 32;
          Clear(i, index, bit, page, k);
          return;
        }
      }
    }
  }
}
