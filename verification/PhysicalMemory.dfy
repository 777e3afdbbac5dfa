/** The physical page allocator, src/arch/x86/mm/phys.c (4 KiB pages). */
module PhysicalMemory {
  import opened Bitmaps

  const PAGE := 0x1000
  const MM_NADDR := 0xFFFF_FFFF
  /** Length of x86_physical_page_bitmap: X86_MM_PHYS_MAX / 8 words of 32 pages. */
  const WORDS := 32768
  const ADDRESSES := 0x1_0000_0000

  /** An address a physical page can have. */
  ghost predicate FrameOk(x: int) { 0 <= x < ADDRESSES && x % PAGE == 0 }

  /** Next fit: the first free page at or after the start of the cursor's word,
      or, when there is none, the first free page of all. */
  ghost predicate NextFit(free: set<int>, cursor: int, page: int) {
    var start := cursor / 0x20000 * 0x20000;
    && page in free
    && if exists q :: q in free && q >= start
       then page >= start && forall q :: q in free && q >= start ==> page <= q
       else forall q :: q in free ==> page <= q
  }

  /** The free pages are those whose bit is clear. */
  ghost predicate FreeMatches(words: seq<Word>, free: set<int>) {
    && |words| == WORDS
    && (forall p :: p in free ==> 0 <= p < ADDRESSES && p % PAGE == 0)
    && forall k :: 0 <= k < 32 * WORDS ==> (PAGE * k in free <==> !Taken(words, k))
  }

  lemma FreeBit(words: seq<Word>, free: set<int>, p: int)
    requires FreeMatches(words, free) && 0 <= p < ADDRESSES && p % PAGE == 0
    ensures p in free <==> !Taken(words, p / PAGE)
  {
    assert PAGE * (p / PAGE) == p;
  }

  /** Where a pass over words lo..hi-1 stops, no free page of that range was passed over. */
  lemma PassedOver(words: seq<Word>, free: set<int>, lo: nat, hi: nat, stop: int)
    requires FreeMatches(words, free) && lo <= hi <= WORDS && stop <= 32 * hi
    requires forall k :: 32 * lo <= k < stop ==> Taken(words, k)
    ensures forall p :: p in free && 0x20000 * lo <= p ==> PAGE * stop <= p
  {
    forall p | p in free && 0x20000 * lo <= p
      ensures PAGE * stop <= p
    {
      FreeBit(words, free, p);
    }
  }

  /** The 32 pages whose bits are in one word. */
  function FirstPages(page: int): set<int> { set k | 0 <= k < 32 :: page + PAGE * k }

  lemma InFirstPages(page: int, k: int)
    requires page % 0x20000 == 0
    ensures PAGE * k in FirstPages(page) <==> k / 32 == page / 0x20000
  {
    if k / 32 == page / 0x20000 {
      assert PAGE * k == page + PAGE * (k % 32);
    }
  }

  lemma WordFull(words: seq<Word>, free: set<int>, page: int)
    requires FreeMatches(words, free) && WordsOk(words) && 0 <= page < ADDRESSES && page % 0x20000 == 0 && FirstPages(page) !! free
    ensures words[page / 0x20000] == FULL
  {
    forall j | 0 <= j < 32
      ensures j in words[page / 0x20000]
    {
      var k := 32 * (page / 0x20000) + j;
      InFirstPages(page, k);
      assert Taken(words, k);
    }
  }

  class PhysicalPages {
    var bitmap: seq<Word>
    var allocLast: int
    /** Addresses of the pages whose bit is clear. */
    ghost var free: set<int>

    ghost predicate Valid()
      reads this
    {
      && |bitmap| == WORDS && WordsOk(bitmap)
      && 0 <= allocLast < ADDRESSES
      && FreeMatches(bitmap, free)
    }

    constructor ()
      ensures Valid() && free == {}
    {
      bitmap := seq(WORDS, _ => FULL);
      allocLast := 0;
      free := {};
    }

    method AllocatePage() returns (page: int)
      requires Valid()
      modifies this
      ensures Valid()
      ensures page == MM_NADDR <==> old(free) == {}
      ensures page == MM_NADDR ==> free == old(free) && allocLast == old(allocLast)
      ensures page != MM_NADDR ==>
        && NextFit(old(free), old(allocLast), page)
        && FrameOk(page) && free == old(free) - {page}
        && allocLast == (page + PAGE) % ADDRESSES
    {
      var start := allocLast / 0x20000;
      var k := Scan(bitmap, start, WORDS);
      PassedOver(bitmap, free, start, WORDS, if k == -1 then 32 * WORDS else k);
      if k == -1 {
        k := Scan(bitmap, 0, start);
        PassedOver(bitmap, free, 0, start, if k == -1 then 32 * start else k);
      }
      if k == -1 {
        assert forall p :: p in free ==> 0x20000 * start <= p;
        assert forall p :: p in free ==> ADDRESSES <= p;
        assert free == {};
        return MM_NADDR;
      }
      page := PAGE * k;
      assert page in free && page % PAGE == 0;
      bitmap := bitmap[k / 32 := bitmap[k / 32] + {k % 32}];
      allocLast := (page + PAGE) % ADDRESSES;
      free := free - {page};
    }

    /** Boot-time registration of a page the multiboot map reports as available. */
    method AddPage(page: int)
      requires Valid()
      requires 0 <= page < ADDRESSES && page % PAGE == 0
      modifies this`free, this`bitmap
      ensures Valid()
      ensures free == old(free) + {page}
    {
      ghost var k := page / PAGE;
      FreeBit(bitmap, free, page);
      bitmap := bitmap[page / 0x20000 := bitmap[page / 0x20000] - {page / PAGE % 32}];
      free := free + {page};
    }

    /** mm_free_physical_page; the source panics on a page that is already free. */
    method FreePage(page: int)
      requires Valid()
      requires 0 <= page < ADDRESSES && page % PAGE == 0 && page !in free
      modifies this`free, this`bitmap
      ensures Valid()
      ensures free == old(free) + {page}
    {
      assert !(page / PAGE % 32 !in bitmap[page / 0x20000]) by {
        FreeBit(bitmap, free, page);
      }
      AddPage(page);
    }

    /** mm_free_physical_page with MM_FLG_PS, of a page whose word is full: it clears that
        word, 32 of the 1024 pages. */
    method FreeHuge(page: int)
      requires Valid()
      requires 0 <= page < ADDRESSES && page % 0x20000 == 0 && FirstPages(page) !! free
      modifies this`free, this`bitmap
      ensures Valid()
      ensures free == old(free) + FirstPages(page)
    {
      ghost var w := page / 0x20000;
      assert bitmap[page / 0x20000] == FULL by {
        WordFull(bitmap, free, page);
      }
      bitmap := bitmap[page / 0x20000 := {}];
      free := free + FirstPages(page);
      forall k | 0 <= k < 32 * WORDS
        ensures PAGE * k in free <==> !Taken(bitmap, k)
      {
        InFirstPages(page, k);
      }
    }
  }
}
