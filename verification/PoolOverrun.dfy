/** The pool's search with its bound as written, src/arch/x86/mm/space.c:31: it goes over
    1024 words where a region's bitmap has 32, and so on into the fields behind it, of which
    index_last is the first. */
module PoolOverrun {
  import opened Bitmaps
  import opened PagePool

  const REGION_WORDS := 32

  /** A region's bitmap and index_last. */
  datatype Region = Region(bitmap: seq<Word>, last: nat)

  ghost predicate Ok(r: Region) {
    |r.bitmap| == REGION_WORDS && WordsOk(r.bitmap) && r.last <= REGION_WORDS
  }

  function Pow2(k: nat): (p: nat)
    ensures p > 0
  {
    if k == 0 then 1 else 2 * Pow2(k - 1)
  }

  /** The one bits of the word that holds number n. */
  function WordOf(n: nat): Word { set k: int | 0 <= k < 32 && n / Pow2(k) % 2 == 1 }

  /** The words the search sees: the bitmap and, as word 32, index_last. */
  function Seen(r: Region): seq<Word> { r.bitmap + [WordOf(r.last)] }

  /** The first clear bit at or after bit k. */
  function First(words: seq<Word>, k: nat): nat
    decreases 32 * |words| - k
  {
    if k >= 32 * |words| || !Taken(words, k) then k else First(words, k + 1)
  }

  /** The bit the search of line 31 stops at. Past word 32 it never goes: index_last is at
      most 32, so bit 6 of it is clear. */
  function Found(r: Region): nat { First(Seen(r), 32 * r.last) }

  /** Lines 38-39. The bit set in word 32 goes when index_last is stored. */
  function Allocated(r: Region): Region {
    var k := Found(r);
    if k / 32 < |r.bitmap| then Region(r.bitmap[k / 32 := r.bitmap[k / 32] + {k % 32}], k / 32) else Region(r.bitmap, k / 32)
  }

  /** The address of lines 40-43 for a region at vaddr. */
  function PageAt(vaddr: int, k: nat): int { vaddr + k / 32 * 0x20000 + k % 32 * 0x1000 }

  lemma {:induction false} FirstIs(words: seq<Word>, k: nat, clear: nat)
    requires k <= clear < 32 * |words| && !Taken(words, clear)
    ensures var f := First(words, k); k <= f <= clear && !Taken(words, f) && forall q :: k <= q < f ==> Taken(words, q)
    decreases clear - k
  {
    if !Taken(words, k) {
    } else {
      FirstIs(words, k + 1, clear);
    }
  }

  lemma SmallWord(n: nat)
    requires n <= 32
    ensures 6 !in WordOf(n) && (n < 32 ==> 5 !in WordOf(n)) && (n == 32 ==> 0 !in WordOf(n))
    ensures n == 31 ==> forall k :: 0 <= k < 5 ==> k in WordOf(n)
  {
    assert Pow2(1) == 2 && Pow2(2) == 4 && Pow2(3) == 8;
    assert Pow2(4) == 16 && Pow2(5) == 32 && Pow2(6) == 64;
  }

  lemma SeenIs(r: Region)
    requires Ok(r)
    ensures |Seen(r)| == REGION_WORDS + 1
    ensures forall q :: 0 <= q < PAGES ==> (Taken(Seen(r), q) <==> Taken(r.bitmap, q))
    ensures forall b :: 0 <= b < 32 ==> (Taken(Seen(r), PAGES + b) <==> b in WordOf(r.last))
  {
    hide WordOf;
  }

  /** The search stays in the bitmap if and only if a bit at or after the cursor's word is
      clear there; free pages before it do not help, as the second pass comes too late. */
  lemma InsideExact(r: Region)
    requires Ok(r)
    ensures Found(r) < PAGES <==> exists q :: 32 * r.last <= q < PAGES && !Taken(r.bitmap, q)
    ensures Found(r) < PAGES ==> !Taken(r.bitmap, Found(r)) && forall q :: 32 * r.last <= q < Found(r) ==> Taken(r.bitmap, q)
    ensures Found(r) >= PAGES ==> Found(r) <= PAGES + (if r.last < 32 then 5 else 0) && Found(r) - PAGES !in WordOf(r.last)
  {
    hide WordOf, Seen, First, Taken;
    SmallWord(r.last);
    SeenIs(r);
    var w := Seen(r);
    FirstIs(w, 32 * r.last, PAGES + if r.last < 32 then 5 else 0);
    if q :| 32 * r.last <= q < PAGES && !Taken(r.bitmap, q) {
      FirstIs(w, 32 * r.last, q);
    }
  }

  // ---- runs

  /** A page is asked for, or page k of the region is given back. */
  datatype Op = Allocate | Free(k: nat)

  function Step(r: Region, op: Op): Region {
    match op
    case Allocate => Allocated(r)
    case Free(k) => if k / 32 < |r.bitmap| then r.(bitmap := r.bitmap[k / 32 := r.bitmap[k / 32] - {k % 32}]) else r
  }

  /** x86_page_pool_free panics unless the page is a live one of a region set up. */
  ghost predicate Legal(r: Region, ops: seq<Op>)
    decreases |ops|
  {
    ops == [] || ((ops[0].Free? ==> ops[0].k < 32 * |r.bitmap| && Taken(r.bitmap, ops[0].k)) && Legal(Step(r, ops[0]), ops[1..]))
  }

  /** The pages handed out over a run, in order, by number. */
  function HandedOut(r: Region, ops: seq<Op>): seq<nat>
    decreases |ops|
  {
    if ops == [] then []
    else (if ops[0].Allocate? then [Found(r)] else []) + HandedOut(Step(r, ops[0]), ops[1..])
  }

  lemma StepOk(r: Region, op: Op)
    requires Ok(r)
    ensures Ok(Step(r, op)) && (op.Free? ==> Step(r, op).last == r.last)
    ensures op.Allocate? ==> Step(r, op).last == Found(r) / 32 <= REGION_WORDS
  {
    InsideExact(r);
    hide Found;
  }

  /** Once the search has left the bitmap it never comes back: over every run, whatever is
      given back, each page handed out is the one behind the region's end. */
  lemma {:induction false} OutForGood(r: Region, ops: seq<Op>)
    requires Ok(r) && r.last == REGION_WORDS && Legal(r, ops)
    ensures forall i :: 0 <= i < |HandedOut(r, ops)| ==> HandedOut(r, ops)[i] == PAGES
    decreases |ops|
  {
    hide Found, Step;
    if ops == [] {
    } else {
      InsideExact(r);
      StepOk(r, ops[0]);
      OutForGood(Step(r, ops[0]), ops[1..]);
    }
  }

  // ---- a region from its first page on

  /** A region just set up (lines 20-29) after n allocations and no page given back. */
  function After(n: nat): Region {
    if n == 0 then Region(seq(REGION_WORDS, _ => {}), 0) else Allocated(After(n - 1))
  }

  /** The n-th page, counting from 0. */
  function Nth(n: nat): nat { Found(After(n)) }

  ghost predicate Filled(r: Region, n: nat) {
    && Ok(r) && r.last == (if n == 0 then 0 else (n - 1) / 32)
    && forall k :: 0 <= k < PAGES ==> (Taken(r.bitmap, k) <==> k < n)
  }

  lemma FilledNext(r: Region, n: nat)
    requires n < PAGES && Filled(r, n)
    ensures Found(r) == n && Filled(Allocated(r), n + 1)
  {
    InsideExact(r);
    hide Found;
    assert 32 * r.last <= n && !Taken(r.bitmap, n);
    assert Found(r) == n;
    var words := r.bitmap[n / 32 := r.bitmap[n / 32] + {n % 32}];
    forall k | 0 <= k < PAGES
      ensures Taken(words, k) <==> k < n + 1
    {
      assert Taken(r.bitmap, k) <==> k < n;
      assert k / 32 == n / 32 && k % 32 == n % 32 ==> k == n;
    }
    assert Allocated(r) == Region(words, n / 32);
  }

  lemma FreshFilled()
    ensures Filled(After(0), 0)
  {
  }

  lemma {:induction false} FilledAfter(n: nat)
    requires n <= PAGES
    ensures Filled(After(n), n) && (n < PAGES ==> Nth(n) == n)
  {
    hide Found, Filled, Allocated;
    if n == 0 {
      FreshFilled();
    } else {
      FilledAfter(n - 1);
      FilledNext(After(n - 1), n - 1);
    }
    if n < PAGES {
      FilledNext(After(n), n);
    }
  }

  /** With the region full, index_last is 31, the first clear bit of which is bit 5. */
  lemma FullRegion()
    ensures Nth(PAGES) == PAGES + 5 && Ok(After(PAGES + 1)) && After(PAGES + 1).last == REGION_WORDS
  {
    hide Found, WordOf, Taken;
    FilledAfter(PAGES);
    InsideExact(After(PAGES));
    StepOk(After(PAGES), Allocate);
    SmallWord(31);
  }

  lemma {:induction false} OverFull(n: nat)
    requires n > PAGES
    ensures Nth(n) == PAGES && Ok(After(n)) && After(n).last == REGION_WORDS
  {
    hide Found;
    if n == PAGES + 1 {
      FullRegion();
    } else {
      OverFull(n - 1);
      StepOk(After(n - 1), Allocate);
    }
    InsideExact(After(n));
  }

  /** What a region hands out, page by page: its own 1024, then page 1029 and from there on
      page 1024 every time, both behind its end. */
  lemma NthIs(n: nat)
    ensures Nth(n) == if n < PAGES then n else if n == PAGES then PAGES + 5 else PAGES
  {
    hide Nth;
    if n < PAGES {
      FilledAfter(n);
    } else if n == PAGES {
      FullRegion();
    } else {
      OverFull(n);
    }
  }

  /** With none given back, no page is handed out twice if and only if at most 1026 are
      asked for; and they are all the region's own if and only if at most 1024 are. */
  lemma TwiceExact(n: nat)
    ensures (forall i, j :: 0 <= i < j < n ==> Nth(i) != Nth(j)) <==> n <= PAGES + 2
    ensures (forall i :: 0 <= i < n ==> Nth(i) < PAGES) <==> n <= PAGES
  {
    hide Nth;
    forall i: nat
      ensures Nth(i) == if i < PAGES then i else if i == PAGES then PAGES + 5 else PAGES
    {
      NthIs(i);
    }
    if n > PAGES + 2 {
      assert Nth(PAGES + 1) == Nth(PAGES + 2);
    }
    if n > PAGES {
      assert Nth(PAGES) >= PAGES;
    }
  }

  /** A page number behind the end is an address of the next region. */
  lemma NextRegion(i: nat, k: nat)
    requires i + 1 < POOLS && PAGES <= k < 2 * PAGES
    ensures var a := PageAt(POOL_BASE + REGION * i, k); InPool(a) && (a - POOL_BASE) / REGION == i + 1
  {
  }
}
