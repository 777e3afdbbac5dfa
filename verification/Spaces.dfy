/** mm_space_fork, src/arch/x86/mm/space.c:151-190: a child space with the kernel's
    mappings and a physical copy of every user page. */
module Spaces {
  import opened PhysicalMemory
  import opened PageTables
  import opened Mapping
  import opened UserCopy
  import PagePool

  /** (entry & MM_FLG_WR) | MM_FLG_US */
  function ForkFlags(word: int): int { word / 2 % 2 * 2 + MM_FLG_US }

  /** The child's page q against the parent's: mapped alike, writable alike, on a frame
      that was free, with the same bytes. */
  /** The child's entry w' for the parent's w: present, open to the user, writable exactly if
      the parent's is, and all other flags clear. */
  ghost predicate EntryCopied(w: int, w': int) {
    w' % 2 == 1 && w' / 2 % 2 == w / 2 % 2 && w' / 4 % 2 == 1 && w' / 8 % 512 == 0
  }

  ghost predicate PageCopied(t0: Tables, ram0: Ram, free0: set<int>, t: Tables, ram: Ram, free: set<int>, src: int, dst: int, q: int) {
    var f, f0 := FrameOf(t, dst, q), FrameOf(t0, src, q);
    if Lookup(t0, src, q).Small? then
      && Lookup(t, dst, q).Small? && EntryCopied(Lookup(t0, src, q).word, Lookup(t, dst, q).word)
      && f in free0 && f !in free && FrameOk(f) && f0 in ram0 && f in ram && ram[f] == ram0[f0]
    else Lookup(t, dst, q) == Unmapped
  }

  ghost predicate FramesApart(t: Tables, pd: int, n: int) {
    forall q, q' :: FIRST_PAGE <= q < q' < n && Lookup(t, pd, q).Small? && Lookup(t, pd, q').Small? ==>
      FrameOf(t, pd, q) != FrameOf(t, pd, q')
  }

  /** The user pages below n are forked; nothing in use before has changed. */
  ghost predicate ForkedUpTo(t0: Tables, ram0: Ram, free0: set<int>, t: Tables, ram: Ram, free: set<int>,
                             spaces: set<int>, src: int, dst: int, n: int) {
    && (forall s, q :: s in spaces && 0 <= q < ALL_PAGES && (s != dst || q < FIRST_PAGE || n <= q) ==>
          Lookup(t, s, q) == Lookup(t0, s, q))
    && (forall q :: FIRST_PAGE <= q < n ==> PageCopied(t0, ram0, free0, t, ram, free, src, dst, q))
    && FramesApart(t, dst, n)
    && (forall f :: FrameOk(f) && f !in free0 ==> f in ram && f in ram0 && ram[f] == ram0[f])
    && free <= free0
  }

  /** What a copied page costs: one frame out of the free ones. */
  ghost function UserPages(t: Tables, pd: int, from: int): set<int> {
    set q | from <= q < KERNEL_PAGE && Lookup(t, pd, q).Small?
  }

  /** The parent can be forked: its user pages are 4 KiB pages, in frames not free, at
      addresses the kernel space leaves alone; there are free frames for all of them. */
  ghost predicate Forkable(t: Tables, free: set<int>, kernel: int, src: int) {
    && (forall q :: FIRST_PAGE <= q < KERNEL_PAGE ==> !Lookup(t, src, q).Large? && Lookup(t, kernel, q) == Unmapped)
    && (forall q :: FIRST_PAGE <= q < KERNEL_PAGE && Lookup(t, src, q).Small? ==> FrameOf(t, src, q) !in free)
    && |UserPages(t, src, FIRST_PAGE)| <= |free|
  }

  /** The parent's and child's state once the kernel part is cloned. */
  ghost predicate ForkInput(t0: Tables, ram0: Ram, free0: set<int>, kernel: int, src: int, dst: int) {
    && RamOk(ram0)
    && (forall q :: FIRST_PAGE <= q < KERNEL_PAGE ==>
          !Lookup(t0, src, q).Large? && Lookup(t0, kernel, q) == Unmapped && Lookup(t0, dst, q) == Unmapped)
    && (forall q :: FIRST_PAGE <= q < KERNEL_PAGE && Lookup(t0, src, q).Small? ==>
          FrameOk(FrameOf(t0, src, q)) && FrameOf(t0, src, q) !in free0)
  }

  /** The result of a fork, against the state before it: each user page of the parent has
      a copy in the child, on a frame of its own that was free; kernel addresses map alike;
      no other space, and no memory in use before, has changed. */
  ghost predicate Forked(t: Tables, ram: Ram, free: set<int>, t': Tables, ram': Ram, free': set<int>, spaces: set<int>, src: int, dst: int) {
    && (forall s, q :: s in spaces && s != dst && 0 <= q < ALL_PAGES ==> Lookup(t', s, q) == Lookup(t, s, q))
    && (forall q :: 0xC_0000 <= q < 0x10_0000 ==> Lookup(t', dst, q) == Lookup(t, src, q))
    && (forall q :: 0x400 <= q < 0xC_0000 ==> PageCopied(t, ram, free, t', ram', free', src, dst, q))
    && FramesApart(t', dst, 0xC_0000)
    && (forall f :: FrameOk(f) && f !in free ==> f in ram' && f in ram && ram'[f] == ram[f])
    && free' <= free
  }

  lemma FramesTaken(t: Tables, role: Roles, frames: seq<int>, src: int, free: set<int>)
    requires |frames| == PagePool.POOLS && Sound(t, role, frames) && IsSpace(role, src)
    ensures forall q :: FIRST_PAGE <= q < KERNEL_PAGE && Lookup(t, src, q).Small? ==> FrameOk(FrameOf(t, src, q))
  {
    hide Lookup, Sound;
    forall q | FIRST_PAGE <= q < KERNEL_PAGE && Lookup(t, src, q).Small?
      ensures FrameOk(FrameOf(t, src, q))
    {
      MappedFrame(t, role, frames, src, q);
    }
  }

  /** What mm_space_clone leaves. */
  ghost predicate KernelCloned(t: Tables, t0: Tables, spaces: set<int>, src: int, dst: int) {
    forall s, q :: s in spaces && 0 <= q < ALL_PAGES ==>
      Lookup(t0, s, q) == if s != dst then Lookup(t, s, q) else if KERNEL_PAGE <= q then Lookup(t, src, q) else Unmapped
  }

  lemma ForkStart(t: Tables, t0: Tables, ram: Ram, free: set<int>, spaces: set<int>, kernel: int, src: int, dst: int)
    requires RamOk(ram) && src in spaces && dst in spaces && kernel in spaces && src != dst && kernel != dst
    requires Forkable(t, free, kernel, src)
    requires KernelCloned(t, t0, spaces, src, dst)
    ensures ForkedUpTo(t0, ram, free, t0, ram, free, spaces, src, dst, FIRST_PAGE)
    ensures |free| >= |UserPages(t0, src, FIRST_PAGE)|
    ensures (forall q :: FIRST_PAGE <= q < KERNEL_PAGE && Lookup(t0, src, q).Small? ==> FrameOk(FrameOf(t0, src, q))) ==>
      ForkInput(t0, ram, free, kernel, src, dst)
  {
    hide Lookup;
    assert UserPages(t0, src, FIRST_PAGE) == UserPages(t, src, FIRST_PAGE);
  }

  lemma ForkEnd(t: Tables, t0: Tables, ram0: Ram, free0: set<int>, t': Tables, ram': Ram, free': set<int>, spaces: set<int>, src: int, dst: int)
    requires src in spaces && dst in spaces && src != dst
    requires KernelCloned(t, t0, spaces, src, dst)
    requires ForkedUpTo(t0, ram0, free0, t', ram', free', spaces, src, dst, KERNEL_PAGE)
    ensures Forked(t, ram0, free0, t', ram', free', spaces, src, dst)
  {
    hide Lookup;
    forall q | FIRST_PAGE <= q < KERNEL_PAGE
      ensures PageCopied(t, ram0, free0, t', ram', free', src, dst, q)
    {
      assert PageCopied(t0, ram0, free0, t', ram', free', src, dst, q);
    }
  }

  /** What the entry at page q will find. */
  lemma ForkHere(t0: Tables, ram0: Ram, free0: set<int>, t: Tables, ram: Ram, free: set<int>,
                 spaces: set<int>, kernel: int, src: int, dst: int, q: int)
    requires ForkInput(t0, ram0, free0, kernel, src, dst) && FIRST_PAGE <= q < KERNEL_PAGE
    requires ForkedUpTo(t0, ram0, free0, t, ram, free, spaces, src, dst, q)
    requires src in spaces && dst in spaces && kernel in spaces && src != dst && kernel != dst
    ensures Lookup(t, src, q) == Lookup(t0, src, q) && !Lookup(t, src, q).Large?
    ensures Lookup(t, dst, q) == Unmapped == Lookup(t0, dst, q) && Lookup(t, kernel, q) == Unmapped
  {
    hide Lookup;
  }

  lemma OneFrame(t: Tables, pd: int, q: int)
    ensures FramesDistinct(t, pd, q * PAGE / PAGE, PagesSpanned(q * PAGE, PAGE))
  {
    assert PagesSpanned(q * PAGE, PAGE) == 1;
  }

  lemma PageByte(ram: Ram, t: Tables, pd: int, q: int, o: int)
    requires 0 <= o < PAGE && FrameOk(FrameOf(t, pd, q)) && FrameOf(t, pd, q) in ram && |ram[FrameOf(t, pd, q)]| == PAGE
    ensures ReadByte(t, ram, pd, q * PAGE + o) == ram[FrameOf(t, pd, q)][o]
  {
    hide FrameOf;
    assert (q * PAGE + o) / PAGE == q && (q * PAGE + o) % PAGE == o;
  }

  lemma StoredPage(ram: Ram, ram': Ram, t: Tables, pd: int, q: int, bytes: seq<Byte>)
    requires RamOk(ram) && 0 <= q && |bytes| == PAGE && FrameOk(FrameOf(t, pd, q)) && Stored(ram, ram', t, pd, q * PAGE, bytes)
    requires forall f :: FrameOk(f) ==> |ram'[f]| == PAGE
    ensures ram'[FrameOf(t, pd, q)] == bytes
    ensures forall g :: FrameOk(g) && g != FrameOf(t, pd, q) ==> ram'[g] == ram[g]
  {
    hide Lookup, LastThere;
    var f := FrameOf(t, pd, q);
    OneFrame(t, pd, q);
    StoredApart(ram, ram', t, pd, q * PAGE, bytes);
    forall o | 0 <= o < PAGE
      ensures ram'[f][o] == bytes[o]
    {
      PageByte(ram', t, pd, q, o);
      assert ReadByte(t, ram', pd, q * PAGE + o) == bytes[o];
    }
    hide ReadByte, FrameOf;
    forall g | FrameOk(g) && g != f
      ensures ram'[g] == ram[g]
    {
      forall o | 0 <= o < PAGE
        ensures ram'[g][o] == ram[g][o]
      {
        assert !Backs(t, pd, q * PAGE, PAGE, g, o);
      }
    }
  }

  /** The page just mapped holds its frame, and its bytes are the parent's. */
  lemma ForkedEntry(w: int, m: PageTables.Mapping, frame: int)
    requires Entered(m, frame, ForkFlags(w))
    ensures m.Small? && EntryCopied(w, m.word)
  {
    assert ForkFlags(w) == w / 2 % 2 * 2 + 4 && w / 2 % 2 in {0, 1};
    HighFlags(m.word);
  }

  lemma RangeOfOne(t: Tables, t1: Tables, spaces: set<int>, pd: int, n: int, ms: seq<PageTables.Mapping>)
    requires pd in spaces && 0 <= n < ALL_PAGES && |ms| == 1 && RangeSet(t, t1, spaces, pd, n, ms)
    ensures Lookup(t1, pd, n) == ms[0]
  {
    hide Lookup;
  }

  lemma NewPageCopied(t0: Tables, ram0: Ram, free0: set<int>, t: Tables, ram: Ram, free: set<int>, t1: Tables, ram': Ram, free': set<int>,
                      spaces: set<int>, src: int, dst: int, n: int, ms: seq<PageTables.Mapping>, bytes: seq<Byte>)
    requires ForkedUpTo(t0, ram0, free0, t, ram, free, spaces, src, dst, n) && RamOk(ram) && RamOk(ram') && RamOk(ram0)
    requires FIRST_PAGE <= n < KERNEL_PAGE && src in spaces && dst in spaces && src != dst
    requires Lookup(t0, src, n).Small? && Lookup(t0, dst, n) == Unmapped
    requires FrameOk(FrameOf(t0, src, n)) && FrameOf(t0, src, n) !in free0
    requires |ms| == 1 && Lookup(t1, dst, n) == ms[0]
    requires Filled(t, dst, n, ms, ForkFlags(Lookup(t0, src, n).word), free - free')
    requires free' <= free && forall f :: f in free ==> FrameOk(f)
    requires |bytes| == PAGE && bytes == ram[FrameOf(t0, src, n)]
    requires Stored(ram, ram', t1, dst, n * PAGE, bytes)
    ensures var f := FrameOf(t1, dst, n);
      && f in free && f !in free' && FrameOk(f) && ram'[f] == bytes
      && (forall g :: FrameOk(g) && g != f ==> ram'[g] == ram[g])
      && Lookup(t1, dst, n).Small? && EntryCopied(Lookup(t0, src, n).word, Lookup(t1, dst, n).word)
      && bytes == ram0[FrameOf(t0, src, n)]
  {
    hide Lookup, Stored;
    assert Lookup(t, dst, n) == Unmapped;
    ForkedEntry(Lookup(t0, src, n).word, ms[0], Base(ms[0].word));
    StoredPage(ram, ram', t1, dst, n, bytes);
  }

  lemma ForkStep(t0: Tables, ram0: Ram, free0: set<int>, t: Tables, ram: Ram, free: set<int>, t1: Tables, t': Tables, ram': Ram, free': set<int>,
                 spaces: set<int>, src: int, dst: int, n: int, ms: seq<PageTables.Mapping>, bytes: seq<Byte>)
    requires ForkedUpTo(t0, ram0, free0, t, ram, free, spaces, src, dst, n) && RamOk(ram) && RamOk(ram') && RamOk(ram0)
    requires FIRST_PAGE <= n < KERNEL_PAGE && src in spaces && dst in spaces && src != dst
    requires Lookup(t0, src, n).Small? && Lookup(t0, dst, n) == Unmapped
    requires forall q :: FIRST_PAGE <= q < KERNEL_PAGE && Lookup(t0, src, q).Small? ==>
      FrameOk(FrameOf(t0, src, q)) && FrameOf(t0, src, q) !in free0
    requires |ms| == 1 && RangeSet(t, t1, spaces, dst, n, ms)
    requires Filled(t, dst, n, ms, ForkFlags(Lookup(t0, src, n).word), free - free')
    requires free' <= free && forall f :: f in free ==> FrameOk(f)
    requires |bytes| == PAGE && bytes == ram[FrameOf(t0, src, n)]
    requires Stored(ram, ram', t1, dst, n * PAGE, bytes) && SameMaps(t1, t', spaces)
    ensures ForkedUpTo(t0, ram0, free0, t', ram', free', spaces, src, dst, n + 1)
  {
    RangeOfOne(t, t1, spaces, dst, n, ms);
    NewPageCopied(t0, ram0, free0, t, ram, free, t1, ram', free', spaces, src, dst, n, ms, bytes);
    hide Lookup, Stored, Filled;
    var f := FrameOf(t1, dst, n);
    forall q | FIRST_PAGE <= q < n + 1
      ensures PageCopied(t0, ram0, free0, t', ram', free', src, dst, q)
      ensures q < n ==> Lookup(t', dst, q) == Lookup(t, dst, q)
      ensures q < n && Lookup(t, dst, q).Small? ==> FrameOf(t', dst, q) != f
    {
      assert Lookup(t', dst, q) == Lookup(t1, dst, q);
      if q < n {
        assert PageCopied(t0, ram0, free0, t, ram, free, src, dst, q);
      }
    }
    assert FramesApart(t', dst, n + 1);
  }

  lemma SkipStep(t0: Tables, ram0: Ram, free0: set<int>, t: Tables, ram: Ram, free: set<int>,
                 spaces: set<int>, src: int, dst: int, n: int)
    requires ForkedUpTo(t0, ram0, free0, t, ram, free, spaces, src, dst, n) && dst in spaces
    requires FIRST_PAGE <= n < KERNEL_PAGE && !Lookup(t0, src, n).Small? && Lookup(t0, dst, n) == Unmapped
    ensures ForkedUpTo(t0, ram0, free0, t, ram, free, spaces, src, dst, n + 1)
  {
    hide Lookup;
    assert Lookup(t, dst, n) == Unmapped;
    forall q | FIRST_PAGE <= q < n + 1
      ensures PageCopied(t0, ram0, free0, t, ram, free, src, dst, q)
    {
    }
    assert FramesApart(t, dst, n + 1);
  }

  lemma OnePage(q: int)
    requires FIRST_PAGE <= q < END_PAGE
    ensures q * PAGE / PAGE == q && q * PAGE % PAGE == 0 && PagesSpanned(q * PAGE, PAGE) == 1
  {
  }

  lemma CopyablePage(t0: Tables, t: Tables, spaces: set<int>, kernel: int, pd: int, q: int)
    requires FIRST_PAGE <= q < KERNEL_PAGE && Lookup(t, pd, q).Small? && Lookup(t, kernel, q) == Unmapped
    ensures Copyable(t, kernel, pd, q * PAGE, PAGE)
  {
    hide Lookup;
    OnePage(q);
  }

  lemma PageBytes(t: Tables, ram: Ram, pd: int, q: int, was: seq<Byte>, cur: seq<Byte>)
    requires Lookup(t, pd, q).Small? && FrameOk(FrameOf(t, pd, q)) && RamOk(ram) && FIRST_PAGE <= q < KERNEL_PAGE
    requires Received(was, cur, 0, t, ram, pd, q * PAGE, PAGE) && |cur| == PAGE
    ensures cur == ram[FrameOf(t, pd, q)]
  {
    hide Lookup;
    forall j | 0 <= j < PAGE
      ensures cur[j] == ram[FrameOf(t, pd, q)][j]
    {
      assert cur[j] == ReadByte(t, ram, pd, q * PAGE + (j - 0));
      assert (q * PAGE + j) / PAGE == q && (q * PAGE + j) % PAGE == j;
    }
  }

  lemma StoredSame(ram: Ram, ram': Ram, t: Tables, t': Tables, spaces: set<int>, pd: int, q: int, bytes: seq<Byte>)
    requires SameMaps(t, t', spaces) && pd in spaces && FIRST_PAGE <= q < KERNEL_PAGE && |bytes| == PAGE
    requires Stored(ram, ram', t', pd, q * PAGE, bytes)
    ensures Stored(ram, ram', t, pd, q * PAGE, bytes)
  {
    hide Lookup, FrameOf, Backs, ReadByte;
    var end := q * PAGE + PAGE;
    forall x | q * PAGE <= x < end && LastThere(t, pd, x, end)
      ensures ReadByte(t, ram', pd, x) == bytes[x - q * PAGE]
    {
      var f, o := FrameOf(t, pd, x / PAGE), x % PAGE;
      SameReads(t, t', spaces, ram', pd, x);
      BacksNone(t, pd, x + 1, f, o);
      BacksParts(t, t', spaces, pd, x + 1, 0, end - (x + 1), f, o);
    }
    forall f, o | !Backs(t, pd, q * PAGE, PAGE, f, o)
      ensures !Backs(t', pd, q * PAGE, PAGE, f, o)
    {
      BacksNone(t, pd, q * PAGE, f, o);
      BacksParts(t, t', spaces, pd, q * PAGE, 0, PAGE, f, o);
    }
  }

  lemma ForkFlagsPlain(word: int)
    ensures !HasPs(ForkFlags(word)) && !HasMerge(ForkFlags(word)) && !HasNoPhys(ForkFlags(word))
  {
    assert ForkFlags(word) in {4, 6};
  }

  /** Lines 181-183: the page of src goes to the page of dst by way of tmp. */
  method CopyPage(m: Machine, dst: int, src: int, q: int, tmp: array<Byte>, ghost spaces: set<int>)
    returns (r: Outcome, ghost bytes: seq<Byte>)
    requires m.Ready() && spaces == Spaces(m.mmu.role) && src in spaces && dst in spaces
    requires FIRST_PAGE <= q < KERNEL_PAGE && Lookup(m.mmu.tables, src, q).Small? && Lookup(m.mmu.tables, dst, q).Small?
    requires Lookup(m.mmu.tables, m.mmu.kernel, q) == Unmapped && m.mmu.kernel in spaces
    requires tmp.Length == PAGE
    modifies m`ram, m.mmu, m.mmu.pool, m.mmu.phys, tmp
    ensures m.Kept() && m.Answered(r)
    ensures r.Returned? ==> SameMaps(old(m.mmu.tables), m.mmu.tables, spaces)
    ensures r.Returned? ==> FrameOk(FrameOf(old(m.mmu.tables), src, q)) && bytes == old(m.ram)[FrameOf(old(m.mmu.tables), src, q)]
    ensures r.Returned? ==> |bytes| == PAGE && Stored(old(m.ram), m.ram, old(m.mmu.tables), dst, q * PAGE, bytes)
  {
    bytes := [];
    ghost var t1 := m.mmu.tables;
    MappedFrame(t1, m.mmu.role, m.mmu.pool.frames, src, q);
    CopyablePage(t1, t1, spaces, m.mmu.kernel, src, q);
    hide Lookup, Sound, FreeMatches, PagePool.LiveMatches, PagePool.InPool, Stored, Received, ReadByte;
    r := m.MemcpyUserToKernel(src, tmp, q * PAGE, PAGE);
    if r.Panicked? {
      return;
    }
    PageBytes(t1, m.ram, src, q, old(tmp[..]), tmp[..]);
    ghost var t2 := m.mmu.tables;
    bytes := tmp[..];
    CopyablePage(t1, t2, spaces, m.mmu.kernel, dst, q);
    r := m.MemcpyKernelToUser(dst, q * PAGE, tmp[..]);
    if r.Returned? {
      StoredSame(old(m.ram), m.ram, t1, t2, spaces, dst, q, bytes);
    }
  }

  /** Lines 176-183: map a fresh page into the child and copy the parent's through tmp. */
  method ForkPage(m: Machine, dst: int, src: int, q: int, word: int, tmp: array<Byte>, ghost spaces: set<int>)
    returns (r: Outcome, ghost ms: seq<PageTables.Mapping>, ghost t1: Tables, ghost bytes: seq<Byte>)
    requires m.Ready() && spaces == Spaces(m.mmu.role) && src in spaces && dst in spaces && src != dst && src != m.mmu.kernel && dst != m.mmu.kernel
    requires FIRST_PAGE <= q < KERNEL_PAGE && Lookup(m.mmu.tables, src, q) == Small(word)
    requires Lookup(m.mmu.tables, dst, q) == Unmapped && Lookup(m.mmu.tables, m.mmu.kernel, q) == Unmapped
    requires |m.mmu.phys.free| >= 1 && tmp.Length == PAGE
    modifies m`ram, m.mmu, m.mmu.pool, m.mmu.phys, tmp
    ensures m.Ready() && Spaces(m.mmu.role) == spaces
    ensures r == Returned(0) || (r == Panicked && m.mmu.Exhausted())
    ensures m.mmu.phys.free <= old(m.mmu.phys.free)
    ensures r.Returned? ==> |ms| == 1 && |bytes| == PAGE && |m.mmu.phys.free| == old(|m.mmu.phys.free|) - 1
    ensures r.Returned? ==> RangeSet(old(m.mmu.tables), t1, spaces, dst, q, ms)
    ensures r.Returned? ==> Filled(old(m.mmu.tables), dst, q, ms, ForkFlags(word), old(m.mmu.phys.free) - m.mmu.phys.free)
    ensures r.Returned? ==> SameMaps(t1, m.mmu.tables, spaces)
    ensures r.Returned? ==> FrameOk(FrameOf(old(m.mmu.tables), src, q)) && bytes == old(m.ram)[FrameOf(old(m.mmu.tables), src, q)]
    ensures r.Returned? ==> Stored(old(m.ram), m.ram, t1, dst, q * PAGE, bytes)
  {
    ms, t1, bytes := [], m.mmu.tables, [];
    MappedFrame(m.mmu.tables, m.mmu.role, m.mmu.pool.frames, src, q);
    hide Lookup, Sound, FreeMatches, PagePool.LiveMatches, PagePool.InPool, Stored, Filled, Received;
    OnePage(q);
    var vpage := q * PAGE;
    ForkFlagsPlain(word);
    r, ms := m.mmu.MapRange(dst, vpage, 1, ForkFlags(word));
    t1 := m.mmu.tables;
    if r.Panicked? {
      return;
    }
    assert Lookup(t1, dst, q) == ms[0];
    r, bytes := CopyPage(m, dst, src, q, tmp, spaces);
  }

  lemma UserPagesStep(t: Tables, pd: int, n: int)
    requires FIRST_PAGE <= n < KERNEL_PAGE
    ensures Lookup(t, pd, n).Small? ==> |UserPages(t, pd, n)| == |UserPages(t, pd, n + 1)| + 1
    ensures !Lookup(t, pd, n).Small? ==> UserPages(t, pd, n) == UserPages(t, pd, n + 1)
  {
    hide Lookup;
    if Lookup(t, pd, n).Small? {
      assert UserPages(t, pd, n) == UserPages(t, pd, n + 1) + {n};
    }
  }

  /** The entry of src_pt at lines 164-175 that page q has. */
  method LeafEntry(m: Machine, src: int, q: int) returns (word: int)
    requires m.mmu.Valid() && IsSpace(m.mmu.role, src) && FIRST_PAGE <= q < KERNEL_PAGE
    requires !Lookup(m.mmu.tables, src, q).Large?
    ensures if Present(word) then Lookup(m.mmu.tables, src, q) == Small(word) else Lookup(m.mmu.tables, src, q) == Unmapped
  {
    hide PagePool.LiveMatches, FreeMatches, PagePool.InPool;
    var pdi, pti := q / SLOTS, q % SLOTS;
    assert SpaceOk(m.mmu.tables, m.mmu.role, m.mmu.pool.frames, src);
    assert SlotOk(m.mmu.tables, m.mmu.role, m.mmu.pool.frames, src, pdi);
    var pde := m.mmu.tables[src][pdi];
    if !Present(pde) {
      return 0;
    }
    assert !IsHuge(pde);
    var info := m.mmu.tables[src][1023];
    assert m.mmu.tables[info][pdi] != 0;
    word := m.mmu.tables[Base(m.mmu.tables[info][pdi])][pti];
  }

  method ForkEntry(m: Machine, dst: int, src: int, q: int, tmp: array<Byte>, ghost spaces: set<int>,
                   ghost t0: Tables, ghost ram0: Ram, ghost free0: set<int>) returns (r: Outcome)
    requires m.Ready() && spaces == Spaces(m.mmu.role) && src in spaces && dst in spaces && src != dst
    requires src != m.mmu.kernel && dst != m.mmu.kernel && FIRST_PAGE <= q < KERNEL_PAGE && tmp.Length == PAGE
    requires ForkInput(t0, ram0, free0, m.mmu.kernel, src, dst)
    requires ForkedUpTo(t0, ram0, free0, m.mmu.tables, m.ram, m.mmu.phys.free, spaces, src, dst, q)
    requires |m.mmu.phys.free| >= |UserPages(t0, src, q)|
    modifies m`ram, m.mmu, m.mmu.pool, m.mmu.phys, tmp
    ensures m.Ready() && Spaces(m.mmu.role) == spaces
    ensures r == Returned(0) || (r == Panicked && m.mmu.Exhausted())
    ensures r.Returned? ==> ForkedUpTo(t0, ram0, free0, m.mmu.tables, m.ram, m.mmu.phys.free, spaces, src, dst, q + 1)
    ensures r.Returned? ==> |m.mmu.phys.free| >= |UserPages(t0, src, q + 1)|
  {
    hide Lookup, Sound, PagePool.LiveMatches, PagePool.InPool, Stored, Filled, UserPages;
    assert m.mmu.kernel in spaces;
    ForkHere(t0, ram0, free0, m.mmu.tables, m.ram, m.mmu.phys.free, spaces, m.mmu.kernel, src, dst, q);
    UserPagesStep(t0, src, q);
    assert forall f :: f in m.mmu.phys.free ==> FrameOk(f);
    hide FreeMatches, ForkedUpTo;
    var word := LeafEntry(m, src, q);
    if Present(word) {
      ghost var t, ram, free := m.mmu.tables, m.ram, m.mmu.phys.free;
      ghost var ms, t1, bytes;
      r, ms, t1, bytes := ForkPage(m, dst, src, q, word, tmp, spaces);
      if r.Returned? {
        ForkStep(t0, ram0, free0, t, ram, free, t1, m.mmu.tables, m.ram, m.mmu.phys.free, spaces, src, dst, q, ms, bytes);
      }
    } else {
      SkipStep(t0, ram0, free0, m.mmu.tables, m.ram, m.mmu.phys.free, spaces, src, dst, q);
      r := Returned(0);
    }
  }

  /** Lines 174-185: the pages of one directory slot. */
  method ForkSlot(m: Machine, dst: int, src: int, pdi: int, tmp: array<Byte>, ghost spaces: set<int>,
                  ghost t0: Tables, ghost ram0: Ram, ghost free0: set<int>) returns (r: Outcome)
    requires m.Ready() && spaces == Spaces(m.mmu.role) && src in spaces && dst in spaces && src != dst
    requires src != m.mmu.kernel && dst != m.mmu.kernel && 1 <= pdi < KERNEL_PAGE / SLOTS && tmp.Length == PAGE
    requires ForkInput(t0, ram0, free0, m.mmu.kernel, src, dst)
    requires ForkedUpTo(t0, ram0, free0, m.mmu.tables, m.ram, m.mmu.phys.free, spaces, src, dst, SLOTS * pdi)
    requires |m.mmu.phys.free| >= |UserPages(t0, src, SLOTS * pdi)|
    modifies m`ram, m.mmu, m.mmu.pool, m.mmu.phys, tmp
    ensures m.Ready() && Spaces(m.mmu.role) == spaces
    ensures r == Returned(0) || (r == Panicked && m.mmu.Exhausted())
    ensures r.Returned? ==> ForkedUpTo(t0, ram0, free0, m.mmu.tables, m.ram, m.mmu.phys.free, spaces, src, dst, SLOTS * pdi + SLOTS)
    ensures r.Returned? ==> |m.mmu.phys.free| >= |UserPages(t0, src, SLOTS * pdi + SLOTS)|
  {
    hide Lookup, Sound, FreeMatches, PagePool.LiveMatches, PagePool.InPool, ForkedUpTo, UserPages, ForkInput;
    var pti := 0;
    while pti < 1024
      invariant 0 <= pti <= 1024
      invariant m.Ready() && Spaces(m.mmu.role) == spaces
      invariant ForkedUpTo(t0, ram0, free0, m.mmu.tables, m.ram, m.mmu.phys.free, spaces, src, dst, SLOTS * pdi + pti)
      invariant |m.mmu.phys.free| >= |UserPages(t0, src, SLOTS * pdi + pti)|
    {
      r := ForkEntry(m, dst, src, SLOTS * pdi + pti, tmp, spaces, t0, ram0, free0);
      if r.Panicked? {
        return;
      }
      pti := pti + 1;
    }
    r := Returned(0);
  }

  /** mm_space_fork with MM_FLG_CLONE_KERNEL | MM_FLG_CLONE_USER, as task_fork calls it.
      What the child mapped before goes. */
  method MmSpaceFork(m: Machine, dst: int, src: int, tmp: array<Byte>) returns (r: Outcome)
    requires m.Ready() && IsSpace(m.mmu.role, src) && IsSpace(m.mmu.role, dst)
    requires src != dst && src != m.mmu.kernel && dst != m.mmu.kernel
    requires Forkable(m.mmu.tables, m.mmu.phys.free, m.mmu.kernel, src) && tmp.Length == PAGE
    modifies m`ram, m.mmu, m.mmu.pool, m.mmu.phys, tmp
    ensures m.Ready() && Spaces(m.mmu.role) == old(Spaces(m.mmu.role))
    ensures r == Returned(0) || (r == Panicked && m.mmu.Exhausted())
    ensures r.Returned? ==> Forked(old(m.mmu.tables), old(m.ram), old(m.mmu.phys.free), m.mmu.tables, m.ram, m.mmu.phys.free,
                                   Spaces(m.mmu.role), src, dst)
  {
    hide Lookup, Sound, FreeMatches, PagePool.LiveMatches, PagePool.InPool;
    ghost var t, spaces, ram0, free0 := m.mmu.tables, Spaces(m.mmu.role), m.ram, m.mmu.phys.free;
    r := m.mmu.CloneKernel(dst, src);
    if r.Panicked? {
      return;
    }
    ghost var t0 := m.mmu.tables;
    ForkStart(t, t0, ram0, free0, spaces, m.mmu.kernel, src, dst);
    FramesTaken(t0, m.mmu.role, m.mmu.pool.frames, src, free0);
    var pdi := 1;
    while pdi < KERNEL_VIRT_BASE / 0x40_0000
      invariant 1 <= pdi <= KERNEL_PAGE / SLOTS
      invariant m.Ready() && Spaces(m.mmu.role) == spaces
      invariant ForkedUpTo(t0, ram0, free0, m.mmu.tables, m.ram, m.mmu.phys.free, spaces, src, dst, SLOTS * pdi)
      invariant |m.mmu.phys.free| >= |UserPages(t0, src, SLOTS * pdi)|
    {
      r := ForkSlot(m, dst, src, pdi, tmp, spaces, t0, ram0, free0);
      if r.Panicked? {
        return;
      }
      pdi := pdi + 1;
    }
    ForkEnd(t, t0, ram0, free0, m.mmu.tables, m.ram, m.mmu.phys.free, spaces, src, dst);
    r := Returned(0);
  }
}
