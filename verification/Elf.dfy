/** Loading an ELF image into a space, src/sys/elf.c:18-62. Section names only reach the
    debug log and are not part of this model. */
module Elf {
  import opened PhysicalMemory
  import opened PageTables
  import opened Mapping
  import opened UserCopy
  import PagePool

  const SHT_PROGBITS := 1
  const SHT_NOBITS := 8
  const SHF_ALLOC := 2
  const LOAD_FLAGS := MM_FLG_WR + MM_FLG_US + MM_FLG_MERGE
  const EHDR_SIZE := 52
  const SHDR_SIZE := 40

  datatype Section = Section(kind: int, flags: int, addr: int, offset: int, size: int)

  /** Little-endian fields of the image, which Loadable has inside it. */
  function ByteAt(img: seq<Byte>, i: int): int { if 0 <= i < |img| then img[i] else 0 }
  function Half(img: seq<Byte>, i: int): int { ByteAt(img, i) + 0x100 * ByteAt(img, i + 1) }
  function Word(img: seq<Byte>, i: int): (w: int)
    ensures 0 <= w
  {
    Half(img, i) + 0x1_0000 * Half(img, i + 2)
  }

  predicate HasIdent(img: seq<Byte>) { |img| >= 4 && img[..4] == [0x7F, 0x45, 0x4C, 0x46] }
  function EntryPoint(img: seq<Byte>): int { Word(img, 24) }
  function SectionCount(img: seq<Byte>): (n: int)
    ensures 0 <= n
  {
    Half(img, 48)
  }

  function SectionAt(img: seq<Byte>, i: int): (s: Section)
    ensures s.addr >= 0 && s.offset >= 0 && s.size >= 0
  {
    var h := Word(img, 32) + SHDR_SIZE * i;
    Section(Word(img, h + 4), Word(img, h + 8), Word(img, h + 12), Word(img, h + 16), Word(img, h + 20))
  }

  predicate Loaded(s: Section) {
    (s.kind == SHT_PROGBITS || s.kind == SHT_NOBITS) && s.flags / SHF_ALLOC % 2 == 1
  }

  predicate Filled(s: Section) { Loaded(s) && s.kind == SHT_PROGBITS }

  /** Page q is one of those section s lies on. */
  predicate OnPage(s: Section, q: int) {
    s.addr / PAGE <= q < s.addr / PAGE + PagesSpanned(s.addr, s.size)
  }

  ghost predicate TouchedBelow(img: seq<Byte>, n: int, q: int) {
    exists j :: 0 <= j < n && Loaded(SectionAt(img, j)) && OnPage(SectionAt(img, j), q)
  }

  /** Physical pages map_range takes for the sections from i on. */
  function PagesNeeded(img: seq<Byte>, i: int): int
    decreases SectionCount(img) - i
  {
    if i >= SectionCount(img) then 0
    else (if Loaded(SectionAt(img, i)) then PagesSpanned(SectionAt(img, i).addr, SectionAt(img, i).size) else 0)
         + PagesNeeded(img, i + 1)
  }

  /** The mapped user pages have a frame each, none of them free. */
  ghost predicate Apart(t: Tables, pd: int, free: set<int>) {
    && (forall q, q' :: FIRST_PAGE <= q < q' < END_PAGE && Lookup(t, pd, q).Small? && Lookup(t, pd, q').Small? ==>
          FrameOf(t, pd, q) != FrameOf(t, pd, q'))
    && forall q :: FIRST_PAGE <= q < END_PAGE && Lookup(t, pd, q).Small? ==> FrameOf(t, pd, q) !in free
  }

  /** What the loader demands of one section: user addresses the kernel space leaves
      alone and no 4 MiB page covers, and file bytes inside the image. */
  ghost predicate SectionFits(img: seq<Byte>, s: Section, t: Tables, kernel: int, dst: int) {
    && FIRST_PAGE <= s.addr / PAGE && s.addr / PAGE + PagesSpanned(s.addr, s.size) <= END_PAGE
    && (forall q :: OnPage(s, q) ==> Lookup(t, kernel, q) == Unmapped && !Lookup(t, dst, q).Large?)
    && (s.kind == SHT_PROGBITS ==> s.offset + s.size <= |img|)
  }

  /** The byte at x belongs to the section. */
  predicate Inside(s: Section, x: int) { s.addr <= x < s.addr + s.size }

  /** No byte belongs to two sections with file contents. */
  ghost predicate Disjoint(img: seq<Byte>) {
    forall i, j, x :: 0 <= i < j < SectionCount(img) && Filled(SectionAt(img, i)) && Filled(SectionAt(img, j)) ==>
      !(Inside(SectionAt(img, i), x) && Inside(SectionAt(img, j), x))
  }

  ghost predicate SectionsFit(img: seq<Byte>, t: Tables, kernel: int, dst: int) {
    forall i :: 0 <= i < SectionCount(img) && Loaded(SectionAt(img, i)) ==> SectionFits(img, SectionAt(img, i), t, kernel, dst)
  }

  ghost predicate Loadable(img: seq<Byte>, t: Tables, free: set<int>, kernel: int, dst: int) {
    && SectionsFit(img, t, kernel, dst)
    && (SectionCount(img) > 0 ==> Word(img, 32) + SHDR_SIZE * SectionCount(img) <= |img|)
    && Disjoint(img) && Apart(t, dst, free)
    && PagesNeeded(img, 0) <= |free|
  }

  /** A page mapped for the loader: user access, writable, present. */
  ghost predicate UserWritable(m: PageTables.Mapping) {
    m.Small? && m.word % 2 == 1 && m.word / 2 % 2 == 1 && m.word / 4 % 2 == 1 && m.word / 8 % 512 == 0
  }

  /** Mappings after the first n sections: what was mapped stays, the sections' pages
      are mapped, the new ones writable by the user, nothing else is. */
  ghost predicate MappedBelow(img: seq<Byte>, t0: Tables, t: Tables, spaces: set<int>, dst: int, n: int) {
    && (forall s, q :: s in spaces && s != dst && 0 <= q < ALL_PAGES ==> Lookup(t, s, q) == Lookup(t0, s, q))
    && (forall q :: 0 <= q < ALL_PAGES && (Lookup(t0, dst, q) != Unmapped || !TouchedBelow(img, n, q)) ==>
          Lookup(t, dst, q) == Lookup(t0, dst, q))
    && (forall q :: 0 <= q < ALL_PAGES && TouchedBelow(img, n, q) ==> Lookup(t, dst, q).Small?)
    && (forall q :: 0 <= q < ALL_PAGES && TouchedBelow(img, n, q) && Lookup(t0, dst, q) == Unmapped ==> UserWritable(Lookup(t, dst, q)))
  }

  /** New pages lie on frames that were free and are not any more. */
  ghost predicate Fresh(img: seq<Byte>, t0: Tables, t: Tables, dst: int, free0: set<int>, free: set<int>, n: int) {
    && free <= free0
    && forall q :: 0 <= q < ALL_PAGES && TouchedBelow(img, n, q) && Lookup(t0, dst, q) == Unmapped ==>
         FrameOf(t, dst, q) in free0 && FrameOf(t, dst, q) !in free
  }

  /** Byte o of frame f holds one of the file bytes of the first n sections. */
  ghost predicate LandsBelow(img: seq<Byte>, t: Tables, dst: int, n: int, f: int, o: int) {
    exists j :: 0 <= j < n && Filled(SectionAt(img, j)) && Backs(t, dst, SectionAt(img, j).addr, SectionAt(img, j).size, f, o)
  }

  /** All other memory is as it was. */
  ghost predicate MemoryKept(img: seq<Byte>, t: Tables, ram0: Ram, ram: Ram, dst: int, n: int) {
    forall f, o :: FrameOk(f) && f in ram0 && f in ram && |ram0[f]| == |ram[f]| == PAGE && 0 <= o < PAGE && !LandsBelow(img, t, dst, n, f, o) ==>
      ram[f][o] == ram0[f][o]
  }

  /** The bytes of the sections below n read back. */
  ghost predicate BytesBelow(img: seq<Byte>, t: Tables, ram: Ram, dst: int, n: int) {
    forall j, x :: 0 <= j < n && Filled(SectionAt(img, j)) && SectionAt(img, j).addr <= x < SectionAt(img, j).addr + SectionAt(img, j).size ==>
      ReadByte(t, ram, dst, x) == ByteAt(img, SectionAt(img, j).offset + (x - SectionAt(img, j).addr))
  }

  /** The first n sections' file bytes lie on the same memory in t1 as in t. */
  ghost predicate SameLanding(img: seq<Byte>, t: Tables, t1: Tables, dst: int, n: int) {
    forall j, x :: 0 <= j < n && Filled(SectionAt(img, j)) && SectionAt(img, j).addr <= x < SectionAt(img, j).addr + SectionAt(img, j).size ==>
      FrameOf(t1, dst, x / PAGE) == FrameOf(t, dst, x / PAGE)
  }

  lemma LandsSame(img: seq<Byte>, t: Tables, t1: Tables, dst: int, n: int, f: int, o: int)
    requires SameLanding(img, t, t1, dst, n)
    ensures LandsBelow(img, t, dst, n, f, o) ==> LandsBelow(img, t1, dst, n, f, o)
  {
    hide FrameOf, SectionAt, Filled;
    if j :| 0 <= j < n && Filled(SectionAt(img, j)) && Backs(t, dst, SectionAt(img, j).addr, SectionAt(img, j).size, f, o) {
      var a, size := SectionAt(img, j).addr, SectionAt(img, j).size;
      var x :| a <= x < a + size && KeptAt(t, dst, x, f, o);
      assert FrameOf(t1, dst, x / PAGE) == FrameOf(t, dst, x / PAGE);
      assert KeptAt(t1, dst, x, f, o);
      assert Backs(t1, dst, a, size, f, o);
    }
  }

  lemma MemoryMoves(img: seq<Byte>, t: Tables, t1: Tables, ram0: Ram, ram: Ram, dst: int, n: int)
    requires MemoryKept(img, t, ram0, ram, dst, n) && SameLanding(img, t, t1, dst, n)
    ensures MemoryKept(img, t1, ram0, ram, dst, n)
  {
    hide LandsBelow, SameLanding;
    forall f, o | FrameOk(f) && f in ram0 && f in ram && |ram0[f]| == |ram[f]| == PAGE && 0 <= o < PAGE && !LandsBelow(img, t1, dst, n, f, o)
      ensures ram[f][o] == ram0[f][o]
    {
      LandsSame(img, t, t1, dst, n, f, o);
    }
  }

  lemma MemoryStored(img: seq<Byte>, t: Tables, ram0: Ram, ram: Ram, ram': Ram, dst: int, n: nat, bytes: seq<Byte>)
    requires Filled(SectionAt(img, n)) && RamOk(ram0) && RamOk(ram) && MemoryKept(img, t, ram0, ram, dst, n)
    requires |bytes| == SectionAt(img, n).size && Stored(ram, ram', t, dst, SectionAt(img, n).addr, bytes)
    ensures MemoryKept(img, t, ram0, ram', dst, n + 1)
  {
    hide SectionAt, Filled, Backs, ReadByte, LastThere;
    forall f, o | FrameOk(f) && 0 <= o < PAGE && !LandsBelow(img, t, dst, n + 1, f, o)
      ensures !LandsBelow(img, t, dst, n, f, o) && !Backs(t, dst, SectionAt(img, n).addr, SectionAt(img, n).size, f, o)
    {
    }
  }

  lemma MemorySkipped(img: seq<Byte>, t: Tables, ram0: Ram, ram: Ram, dst: int, n: nat)
    requires !Filled(SectionAt(img, n)) && MemoryKept(img, t, ram0, ram, dst, n)
    ensures MemoryKept(img, t, ram0, ram, dst, n + 1)
  {
    hide SectionAt, Filled, Backs;
    forall f, o | !LandsBelow(img, t, dst, n + 1, f, o)
      ensures !LandsBelow(img, t, dst, n, f, o)
    {
    }
  }

  lemma TouchedStep(img: seq<Byte>, n: nat, q: int)
    requires Loaded(SectionAt(img, n))
    ensures TouchedBelow(img, n + 1, q) <==> TouchedBelow(img, n, q) || OnPage(SectionAt(img, n), q)
  {
    hide OnPage, SectionAt, Loaded;
    if OnPage(SectionAt(img, n), q) {
      assert TouchedBelow(img, n + 1, q);
    }
  }

  lemma TouchedSkip(img: seq<Byte>, n: nat, q: int)
    requires !Loaded(SectionAt(img, n))
    ensures TouchedBelow(img, n + 1, q) <==> TouchedBelow(img, n, q)
  {
    hide OnPage, SectionAt, Loaded;
  }

  /** After map_range over a section: its pages are mapped, those already mapped as they were. */
  ghost predicate SectionMapped(t: Tables, t1: Tables, spaces: set<int>, dst: int, s: Section, free: set<int>, free1: set<int>) {
    && (forall p, q :: p in spaces && 0 <= q < ALL_PAGES && (p != dst || !OnPage(s, q) || Lookup(t, dst, q) != Unmapped) ==>
          Lookup(t1, p, q) == Lookup(t, p, q))
    && (forall q :: OnPage(s, q) ==> Lookup(t1, dst, q).Small?)
    && (forall q :: OnPage(s, q) && Lookup(t, dst, q) == Unmapped ==>
          FrameOf(t1, dst, q) in free && FrameOf(t1, dst, q) !in free1 && UserWritable(Lookup(t1, dst, q)))
    && (forall q, q' :: q < q' && OnPage(s, q) && OnPage(s, q') && Lookup(t, dst, q) == Unmapped && Lookup(t, dst, q') == Unmapped ==>
          FrameOf(t1, dst, q) != FrameOf(t1, dst, q'))
  }

  lemma EnteredForUser(m: PageTables.Mapping)
    ensures m.Small? && Entered(m, Base(m.word), LOAD_FLAGS) ==> UserWritable(m)
  {
    hide Base;
    assert LOAD_FLAGS / 2 % 2 == 1 && LOAD_FLAGS / 4 % 2 == 1;
    if m.Small? && Entered(m, Base(m.word), LOAD_FLAGS) {
      HighFlags(m.word);
    }
  }

  lemma RangeMapsSection(t: Tables, t1: Tables, spaces: set<int>, dst: int, s: Section, free: set<int>, free1: set<int>,
                         ms: seq<PageTables.Mapping>)
    requires dst in spaces && FIRST_PAGE <= s.addr / PAGE && s.addr / PAGE + |ms| <= END_PAGE
    requires |ms| == PagesSpanned(s.addr, s.size) && RangeSet(t, t1, spaces, dst, s.addr / PAGE, ms)
    requires Mapping.Filled(t, dst, s.addr / PAGE, ms, LOAD_FLAGS, free - free1)
    requires forall q :: OnPage(s, q) ==> !Lookup(t, dst, q).Large?
    ensures SectionMapped(t, t1, spaces, dst, s, free, free1)
  {
    hide Lookup, PagesSpanned, Entered, UserWritable, Base;
    var lo := s.addr / PAGE;
    forall q | OnPage(s, q)
      ensures Lookup(t1, dst, q) == ms[q - lo] && Lookup(t, dst, q) == Lookup(t, dst, lo + (q - lo))
      ensures Lookup(t, dst, q) == Unmapped ==> UserWritable(ms[q - lo])
    {
      EnteredForUser(ms[q - lo]);
    }
  }

  lemma MappedStep(img: seq<Byte>, t0: Tables, t: Tables, t1: Tables, free: set<int>, free1: set<int>, spaces: set<int>, dst: int, n: nat)
    requires dst in spaces && Loaded(SectionAt(img, n))
    requires MappedBelow(img, t0, t, spaces, dst, n)
    requires SectionMapped(t, t1, spaces, dst, SectionAt(img, n), free, free1)
    ensures MappedBelow(img, t0, t1, spaces, dst, n + 1)
  {
    hide Lookup, SectionAt, OnPage, TouchedBelow, Loaded, UserWritable;
    forall q
      ensures TouchedBelow(img, n + 1, q) <==> TouchedBelow(img, n, q) || OnPage(SectionAt(img, n), q)
    {
      TouchedStep(img, n, q);
    }
  }

  lemma FreshStep(img: seq<Byte>, t0: Tables, t: Tables, t1: Tables, free0: set<int>, free: set<int>, free1: set<int>, spaces: set<int>, dst: int, n: nat)
    requires dst in spaces && Loaded(SectionAt(img, n)) && free1 <= free
    requires MappedBelow(img, t0, t, spaces, dst, n) && Fresh(img, t0, t, dst, free0, free, n)
    requires SectionMapped(t, t1, spaces, dst, SectionAt(img, n), free, free1)
    ensures Fresh(img, t0, t1, dst, free0, free1, n + 1)
  {
    hide Lookup, SectionAt, OnPage, TouchedBelow, Loaded, UserWritable;
    forall q | 0 <= q < ALL_PAGES && TouchedBelow(img, n + 1, q) && Lookup(t0, dst, q) == Unmapped
      ensures FrameOf(t1, dst, q) in free0 && FrameOf(t1, dst, q) !in free1
    {
      TouchedStep(img, n, q);
      if TouchedBelow(img, n, q) {
        assert Lookup(t, dst, q).Small? && Lookup(t1, dst, q) == Lookup(t, dst, q);
      }
    }
  }

  lemma FreshSame(img: seq<Byte>, t0: Tables, t: Tables, t1: Tables, spaces: set<int>, dst: int, free0: set<int>, free: set<int>, n: int)
    requires SameMaps(t, t1, spaces) && dst in spaces && Fresh(img, t0, t, dst, free0, free, n)
    ensures Fresh(img, t0, t1, dst, free0, free, n)
  {
    hide Lookup, TouchedBelow;
  }

  lemma FreshSkip(img: seq<Byte>, t0: Tables, t: Tables, dst: int, free0: set<int>, free: set<int>, n: nat)
    requires !Loaded(SectionAt(img, n)) && Fresh(img, t0, t, dst, free0, free, n)
    ensures Fresh(img, t0, t, dst, free0, free, n + 1)
  {
    hide Lookup, TouchedBelow, Loaded, SectionAt;
    forall q
      ensures TouchedBelow(img, n + 1, q) <==> TouchedBelow(img, n, q)
    {
      TouchedSkip(img, n, q);
    }
  }

  lemma ApartStep(t: Tables, t1: Tables, spaces: set<int>, dst: int, s: Section, free: set<int>, free1: set<int>)
    requires dst in spaces && Apart(t, dst, free) && free1 <= free
    requires SectionMapped(t, t1, spaces, dst, s, free, free1)
    ensures Apart(t1, dst, free1)
  {
    hide Lookup, OnPage;
    forall q | FIRST_PAGE <= q < END_PAGE && Lookup(t1, dst, q).Small?
      ensures FrameOf(t1, dst, q) !in free1
      ensures FrameOf(t1, dst, q) in free ==> OnPage(s, q) && Lookup(t, dst, q) == Unmapped
      ensures FrameOf(t1, dst, q) !in free ==> Lookup(t1, dst, q) == Lookup(t, dst, q)
    {
    }
  }

  /** New mappings leave what could be read before alone. */
  lemma BytesKept(img: seq<Byte>, t0: Tables, t: Tables, t1: Tables, ram: Ram, spaces: set<int>, dst: int, n: nat, s: Section,
                  free: set<int>, free1: set<int>)
    requires dst in spaces && BytesBelow(img, t, ram, dst, n) && MappedBelow(img, t0, t, spaces, dst, n)
    requires SectionMapped(t, t1, spaces, dst, s, free, free1)
    requires forall j :: 0 <= j < n && Loaded(SectionAt(img, j)) ==>
      FIRST_PAGE <= SectionAt(img, j).addr / PAGE
      && SectionAt(img, j).addr / PAGE + PagesSpanned(SectionAt(img, j).addr, SectionAt(img, j).size) <= END_PAGE
    ensures BytesBelow(img, t1, ram, dst, n) && SameLanding(img, t, t1, dst, n)
  {
    hide Lookup, SectionAt, PagesSpanned;
    forall j, x | 0 <= j < n && Filled(SectionAt(img, j)) && SectionAt(img, j).addr <= x < SectionAt(img, j).addr + SectionAt(img, j).size
      ensures ReadByte(t1, ram, dst, x) == ReadByte(t, ram, dst, x)
      ensures FrameOf(t1, dst, x / PAGE) == FrameOf(t, dst, x / PAGE)
    {
      InSpan(SectionAt(img, j).addr, SectionAt(img, j).size, x);
      assert TouchedBelow(img, n, x / PAGE);
      assert Lookup(t1, dst, x / PAGE) == Lookup(t, dst, x / PAGE);
    }
  }

  lemma MapStep(img: seq<Byte>, t0: Tables, t: Tables, t1: Tables, ram: Ram, free0: set<int>, free: set<int>, free1: set<int>, spaces: set<int>,
                kernel: int, dst: int, n: nat, ms: seq<PageTables.Mapping>)
    requires n < SectionCount(img) && dst in spaces
    requires forall j :: 0 <= j <= n && Loaded(SectionAt(img, j)) ==> SectionFits(img, SectionAt(img, j), t0, kernel, dst)
    requires Loaded(SectionAt(img, n)) && MappedBelow(img, t0, t, spaces, dst, n) && Apart(t, dst, free) && BytesBelow(img, t, ram, dst, n)
    requires Fresh(img, t0, t, dst, free0, free, n)
    requires |ms| == PagesSpanned(SectionAt(img, n).addr, SectionAt(img, n).size) && free1 <= free
    requires RangeSet(t, t1, spaces, dst, SectionAt(img, n).addr / PAGE, ms)
    requires Mapping.Filled(t, dst, SectionAt(img, n).addr / PAGE, ms, LOAD_FLAGS, free - free1)
    requires forall q :: OnPage(SectionAt(img, n), q) ==> !Lookup(t, dst, q).Large?
    ensures MappedBelow(img, t0, t1, spaces, dst, n + 1) && Apart(t1, dst, free1) && BytesBelow(img, t1, ram, dst, n)
    ensures SameLanding(img, t, t1, dst, n) && Fresh(img, t0, t1, dst, free0, free1, n + 1)
  {
    hide Fresh, Lookup, SectionAt, PagesSpanned, MappedBelow, Apart, BytesBelow, SameLanding, RangeSet, Mapping.Filled, OnPage;
    RangeMapsSection(t, t1, spaces, dst, SectionAt(img, n), free, free1, ms);
    MappedStep(img, t0, t, t1, free, free1, spaces, dst, n);
    FreshStep(img, t0, t, t1, free0, free, free1, spaces, dst, n);
    ApartStep(t, t1, spaces, dst, SectionAt(img, n), free, free1);
    BytesKept(img, t0, t, t1, ram, spaces, dst, n, SectionAt(img, n), free, free1);
  }

  /** A section's bytes arrive, and no other mapped byte of the space changes. */
  lemma OthersKept(ram: Ram, ram': Ram, t: Tables, dst: int, a: nat, bytes: seq<Byte>, free: set<int>, x: int)
    requires Apart(t, dst, free) && RamOk(ram) && Stored(ram, ram', t, dst, a, bytes)
    requires FIRST_PAGE <= x / PAGE < END_PAGE && Lookup(t, dst, x / PAGE).Small? && FrameOk(FrameOf(t, dst, x / PAGE))
    requires forall q :: a / PAGE <= q < a / PAGE + PagesSpanned(a, |bytes|) ==> Lookup(t, dst, q).Small?
    requires FIRST_PAGE <= a / PAGE && a / PAGE + PagesSpanned(a, |bytes|) <= END_PAGE
    requires !(a <= x < a + |bytes|)
    ensures ReadByte(t, ram', dst, x) == ReadByte(t, ram, dst, x)
  {
    hide Lookup, PagesSpanned;
    var f, o := FrameOf(t, dst, x / PAGE), x % PAGE;
    forall y | a <= y < a + |bytes|
      ensures !KeptAt(t, dst, y, f, o)
    {
      InSpan(a, |bytes|, y);
      assert y / PAGE == x / PAGE ==> y % PAGE != x % PAGE;
    }
    assert ram'[f][o] == ram[f][o];
  }

  lemma StoreStep(img: seq<Byte>, t0: Tables, t: Tables, ram: Ram, ram': Ram, spaces: set<int>, kernel: int, dst: int, n: nat, free: set<int>)
    requires n < SectionCount(img) && Filled(SectionAt(img, n)) && RamOk(ram) && Disjoint(img)
    requires SectionAt(img, n).offset + SectionAt(img, n).size <= |img|
    requires forall j :: 0 <= j <= n && Loaded(SectionAt(img, j)) ==> SectionFits(img, SectionAt(img, j), t0, kernel, dst)
    requires MappedBelow(img, t0, t, spaces, dst, n + 1) && Apart(t, dst, free) && BytesBelow(img, t, ram, dst, n)
    requires forall q :: FIRST_PAGE <= q < END_PAGE && Lookup(t, dst, q).Small? ==> FrameOk(FrameOf(t, dst, q))
    requires var s := SectionAt(img, n);
      && FramesDistinct(t, dst, s.addr / PAGE, PagesSpanned(s.addr, s.size))
      && Stored(ram, ram', t, dst, s.addr, img[s.offset..s.offset + s.size])
    ensures BytesBelow(img, t, ram', dst, n + 1)
  {
    hide Lookup, SectionAt, PagesSpanned, ReadByte, Stored;
    var s := SectionAt(img, n);
    var bytes := img[s.offset..s.offset + s.size];
    StoredApart(ram, ram', t, dst, s.addr, bytes);
    forall j, x | 0 <= j < n + 1 && Filled(SectionAt(img, j)) && SectionAt(img, j).addr <= x < SectionAt(img, j).addr + SectionAt(img, j).size
      ensures ReadByte(t, ram', dst, x) == ByteAt(img, SectionAt(img, j).offset + (x - SectionAt(img, j).addr))
    {
      if j == n {
        assert bytes[x - s.addr] == img[s.offset + (x - s.addr)];
      } else {
        InSpan(SectionAt(img, j).addr, SectionAt(img, j).size, x);
        assert TouchedBelow(img, n + 1, x / PAGE);
        assert Inside(SectionAt(img, j), x) && !Inside(s, x);
        forall q | s.addr / PAGE <= q < s.addr / PAGE + PagesSpanned(s.addr, |bytes|)
          ensures Lookup(t, dst, q).Small?
        {
          assert TouchedBelow(img, n + 1, q);
        }
        OthersKept(ram, ram', t, dst, s.addr, bytes, free, x);
      }
    }
  }

  lemma SameCarries(img: seq<Byte>, t0: Tables, t: Tables, t': Tables, ram: Ram, spaces: set<int>, kernel: int, dst: int, n: nat, free: set<int>)
    requires SameMaps(t, t', spaces) && dst in spaces
    requires forall j :: 0 <= j < n && Loaded(SectionAt(img, j)) ==> SectionFits(img, SectionAt(img, j), t0, kernel, dst)
    requires MappedBelow(img, t0, t, spaces, dst, n) && Apart(t, dst, free) && BytesBelow(img, t, ram, dst, n)
    ensures MappedBelow(img, t0, t', spaces, dst, n) && Apart(t', dst, free) && BytesBelow(img, t', ram, dst, n)
    ensures SameLanding(img, t, t', dst, n)
  {
    hide Lookup, SectionAt, PagesSpanned, ReadByte, TouchedBelow;
    forall j, x | 0 <= j < n && Filled(SectionAt(img, j)) && SectionAt(img, j).addr <= x < SectionAt(img, j).addr + SectionAt(img, j).size
      ensures ReadByte(t', ram, dst, x) == ReadByte(t, ram, dst, x)
      ensures FrameOf(t', dst, x / PAGE) == FrameOf(t, dst, x / PAGE)
    {
      InSpan(SectionAt(img, j).addr, SectionAt(img, j).size, x);
      SameReads(t, t', spaces, ram, dst, x);
    }
    forall q | FIRST_PAGE <= q < END_PAGE
      ensures FrameOf(t', dst, q) == FrameOf(t, dst, q)
    {
    }
  }

  lemma SkipStep(img: seq<Byte>, t0: Tables, t: Tables, ram: Ram, spaces: set<int>, dst: int, n: nat)
    requires !Loaded(SectionAt(img, n))
    requires MappedBelow(img, t0, t, spaces, dst, n) && BytesBelow(img, t, ram, dst, n)
    ensures MappedBelow(img, t0, t, spaces, dst, n + 1) && BytesBelow(img, t, ram, dst, n + 1)
  {
    hide Lookup, SectionAt, ReadByte, TouchedBelow, Loaded;
    forall q
      ensures TouchedBelow(img, n + 1, q) <==> TouchedBelow(img, n, q)
    {
      TouchedSkip(img, n, q);
    }
    assert Filled(SectionAt(img, n)) ==> Loaded(SectionAt(img, n));
  }

  /** Everything the loop has achieved after n sections. */
  ghost predicate LoadedBelow(img: seq<Byte>, t0: Tables, t: Tables, ram0: Ram, ram: Ram, spaces: set<int>, dst: int, free0: set<int>, free: set<int>, n: int) {
    && MappedBelow(img, t0, t, spaces, dst, n) && Apart(t, dst, free) && BytesBelow(img, t, ram, dst, n)
    && MemoryKept(img, t, ram0, ram, dst, n) && Fresh(img, t0, t, dst, free0, free, n) && PagesNeeded(img, n) <= |free|
  }

  lemma LoadStart(img: seq<Byte>, t: Tables, ram: Ram, spaces: set<int>, kernel: int, dst: int, free: set<int>)
    requires Loadable(img, t, free, kernel, dst)
    ensures LoadedBelow(img, t, t, ram, ram, spaces, dst, free, free, 0) && Disjoint(img)
    ensures forall i :: 0 <= i < SectionCount(img) && Loaded(SectionAt(img, i)) ==> SectionFits(img, SectionAt(img, i), t, kernel, dst)
  {
    hide Lookup, SectionAt, SectionFits, Apart, PagesNeeded, Disjoint;
  }

  lemma SkipSection(img: seq<Byte>, t0: Tables, t: Tables, ram0: Ram, ram: Ram, spaces: set<int>, dst: int, free0: set<int>, free: set<int>, n: nat)
    requires n < SectionCount(img) && !Loaded(SectionAt(img, n)) && LoadedBelow(img, t0, t, ram0, ram, spaces, dst, free0, free, n)
    ensures LoadedBelow(img, t0, t, ram0, ram, spaces, dst, free0, free, n + 1)
  {
    hide Loaded, SectionAt, MappedBelow, BytesBelow, MemoryKept, Fresh, Apart;
    SkipStep(img, t0, t, ram, spaces, dst, n);
    FreshSkip(img, t0, t, dst, free0, free, n);
    MemorySkipped(img, t, ram0, ram, dst, n);
  }

  lemma NeededPositive(img: seq<Byte>, i: int)
    ensures 0 <= PagesNeeded(img, i)
    decreases SectionCount(img) - i
  {
    if i >= SectionCount(img) {
    } else {
      CopyEnds(SectionAt(img, i).addr, SectionAt(img, i).size);
      NeededPositive(img, i + 1);
    }
  }

  /** Where the section's pages stand before they are mapped. */
  lemma SectionReady(img: seq<Byte>, t0: Tables, t: Tables, ram0: Ram, ram: Ram, spaces: set<int>, kernel: int, dst: int,
                     free0: set<int>, free: set<int>, n: nat)
    requires LoadedBelow(img, t0, t, ram0, ram, spaces, dst, free0, free, n) && n < SectionCount(img) && kernel in spaces && kernel != dst
    requires Loaded(SectionAt(img, n)) && SectionFits(img, SectionAt(img, n), t0, kernel, dst)
    ensures var s := SectionAt(img, n);
      && s.addr / PAGE * PAGE / PAGE == s.addr / PAGE && s.addr / PAGE * PAGE % PAGE == 0 && 0 <= PagesSpanned(s.addr, s.size)
      && (forall q :: OnPage(s, q) ==> !Lookup(t, dst, q).Large? && Lookup(t, kernel, q) == Unmapped)
      && (forall q :: s.addr / PAGE <= q < s.addr / PAGE + PagesSpanned(s.addr, s.size) ==>
            Lookup(t, dst, q) == Unmapped || Lookup(t, dst, q).Small?)
      && PagesSpanned(s.addr, s.size) + PagesNeeded(img, n + 1) <= |free| && 0 <= PagesNeeded(img, n + 1)
  {
    NeededPositive(img, n + 1);
    hide Lookup, SectionAt, ReadByte, BytesBelow, Apart, PagesSpanned;
    CopyEnds(SectionAt(img, n).addr, SectionAt(img, n).size);
  }

  lemma MergeFlags()
    ensures !HasPs(LOAD_FLAGS) && HasMerge(LOAD_FLAGS)
  {
  }

  lemma SectionCopyable(img: seq<Byte>, t0: Tables, t: Tables, spaces: set<int>, kernel: int, dst: int, free: set<int>, n: nat)
    requires Filled(SectionAt(img, n)) && SectionFits(img, SectionAt(img, n), t0, kernel, dst) && kernel in spaces && kernel != dst
    requires MappedBelow(img, t0, t, spaces, dst, n + 1) && Apart(t, dst, free)
    ensures var s := SectionAt(img, n);
      && s.offset + s.size <= |img|
      && Copyable(t, kernel, dst, s.addr, s.size) && FramesDistinct(t, dst, s.addr / PAGE, PagesSpanned(s.addr, s.size))
  {
    hide Lookup, SectionAt, PagesSpanned, ReadByte;
    var s := SectionAt(img, n);
    forall q | OnPage(s, q)
      ensures Lookup(t, dst, q).Small? && Lookup(t, kernel, q) == Unmapped
    {
      assert TouchedBelow(img, n + 1, q);
    }
  }

  lemma AllMappedFramed(t: Tables, role: Roles, frames: seq<int>, pd: int)
    requires |frames| == PagePool.POOLS && Sound(t, role, frames) && IsSpace(role, pd)
    ensures forall q :: FIRST_PAGE <= q < END_PAGE && Lookup(t, pd, q).Small? ==> FrameOk(FrameOf(t, pd, q))
  {
    hide Lookup, Sound;
    forall q | FIRST_PAGE <= q < END_PAGE && Lookup(t, pd, q).Small?
      ensures FrameOk(FrameOf(t, pd, q))
    {
      MappedFrame(t, role, frames, pd, q);
    }
  }

  /** A byte of a page the load mapped, in no section with file contents: one of .bss, or
      padding. */
  ghost predicate Unfilled(img: seq<Byte>, t0: Tables, dst: int, x: int) {
    && 0 <= x < ADDRESSES && TouchedBelow(img, SectionCount(img), x / PAGE) && Lookup(t0, dst, x / PAGE) == Unmapped
    && forall j :: 0 <= j < SectionCount(img) && Filled(SectionAt(img, j)) ==> !Inside(SectionAt(img, j), x)
  }

  lemma FilledLoaded(s: Section)
    requires Filled(s)
    ensures Loaded(s)
  {
  }

  /** The frame of such a byte was free, and the load has not written there. */
  lemma NothingLands(img: seq<Byte>, t0: Tables, t: Tables, spaces: set<int>, kernel: int, dst: int, free0: set<int>, free: set<int>, x: int)
    requires SectionsFit(img, t0, kernel, dst) && Unfilled(img, t0, dst, x)
    requires MappedBelow(img, t0, t, spaces, dst, SectionCount(img)) && Apart(t, dst, free)
    requires Fresh(img, t0, t, dst, free0, free, SectionCount(img))
    ensures FrameOf(t, dst, x / PAGE) in free0 && !LandsBelow(img, t, dst, SectionCount(img), FrameOf(t, dst, x / PAGE), x % PAGE)
  {
    hide Lookup, SectionAt, PagesSpanned, Filled, Loaded, UserWritable;
    var n, f, o := SectionCount(img), FrameOf(t, dst, x / PAGE), x % PAGE;
    var i :| 0 <= i < n && Loaded(SectionAt(img, i)) && OnPage(SectionAt(img, i), x / PAGE);
    forall j, y | 0 <= j < n && Filled(SectionAt(img, j)) && SectionAt(img, j).addr <= y < SectionAt(img, j).addr + SectionAt(img, j).size
      ensures !KeptAt(t, dst, y, f, o)
    {
      FilledLoaded(SectionAt(img, j));
      InSpan(SectionAt(img, j).addr, SectionAt(img, j).size, y);
      assert OnPage(SectionAt(img, j), y / PAGE) && TouchedBelow(img, n, y / PAGE);
      assert Inside(SectionAt(img, j), y) && !Inside(SectionAt(img, j), x);
      assert y / PAGE == x / PAGE ==> y % PAGE != x % PAGE;
    }
  }

  /** Nothing is cleared: such a byte reads what one of the frames free at the call held. So
      it reads zero if all of them held zeros there, and not if none did. */
  lemma NotCleared(img: seq<Byte>, t0: Tables, t: Tables, ram0: Ram, ram: Ram, spaces: set<int>, kernel: int, dst: int,
                   free0: set<int>, free: set<int>, x: int)
    requires RamOk(ram0) && RamOk(ram) && (forall f :: f in free0 ==> FrameOk(f))
    requires SectionsFit(img, t0, kernel, dst) && Unfilled(img, t0, dst, x)
    requires MappedBelow(img, t0, t, spaces, dst, SectionCount(img)) && Apart(t, dst, free)
    requires Fresh(img, t0, t, dst, free0, free, SectionCount(img)) && MemoryKept(img, t, ram0, ram, dst, SectionCount(img))
    ensures exists f :: f in free0 && ReadByte(t, ram, dst, x) == ram0[f][x % PAGE]
    ensures (forall f :: f in free0 ==> ram0[f][x % PAGE] == 0) ==> ReadByte(t, ram, dst, x) == 0
    ensures (forall f :: f in free0 ==> ram0[f][x % PAGE] != 0) ==> ReadByte(t, ram, dst, x) != 0
  {
    hide Lookup, SectionsFit, Unfilled, LandsBelow, MappedBelow, Apart, Fresh, FrameOf;
    NothingLands(img, t0, t, spaces, kernel, dst, free0, free, x);
    var f := FrameOf(t, dst, x / PAGE);
    assert ram[f][x % PAGE] == ram0[f][x % PAGE];
  }

  /** One such program: a .bss of four bytes, loaded where every free frame is full of ones. */
  lemma DirtyBss(img: seq<Byte>, t0: Tables, t: Tables, ram0: Ram, ram: Ram, spaces: set<int>, kernel: int, dst: int,
                 free0: set<int>, free: set<int>)
    requires SectionCount(img) == 1 && SectionAt(img, 0) == Section(SHT_NOBITS, SHF_ALLOC, 0x40_0000, 0, 4)
    requires RamOk(ram0) && RamOk(ram) && (forall f :: f in free0 ==> FrameOk(f) && forall o :: 0 <= o < PAGE ==> ram0[f][o] == 0xFF)
    requires SectionsFit(img, t0, kernel, dst) && Lookup(t0, dst, 0x400) == Unmapped
    requires LoadedBelow(img, t0, t, ram0, ram, spaces, dst, free0, free, 1)
    ensures ReadByte(t, ram, dst, 0x40_0000) == 0xFF
  {
    hide Lookup, SectionAt, SectionsFit, MappedBelow, BytesBelow, Apart, Fresh, MemoryKept, ReadByte;
    assert PagesSpanned(0x40_0000, 4) == 1;
    assert Loaded(SectionAt(img, 0)) && OnPage(SectionAt(img, 0), 0x400);
    assert TouchedBelow(img, 1, 0x400);
    NotCleared(img, t0, t, ram0, ram, spaces, kernel, dst, free0, free, 0x40_0000);
  }

  /** Lines 51-53: the file contents, once the section's pages are mapped. */
  method FillSection(m: Machine, dst: int, img: seq<Byte>, n: nat, ghost t0: Tables, ghost ram0: Ram, ghost free0: set<int>, ghost spaces: set<int>) returns (r: Outcome)
    requires m.Ready() && spaces == Spaces(m.mmu.role) && dst in spaces && dst != m.mmu.kernel
    requires n < SectionCount(img) && Filled(SectionAt(img, n)) && Disjoint(img)
    requires forall j :: 0 <= j <= n && Loaded(SectionAt(img, j)) ==> SectionFits(img, SectionAt(img, j), t0, m.mmu.kernel, dst)
    requires MappedBelow(img, t0, m.mmu.tables, spaces, dst, n + 1) && Apart(m.mmu.tables, dst, m.mmu.phys.free)
    requires BytesBelow(img, m.mmu.tables, m.ram, dst, n)
    requires RamOk(ram0) && MemoryKept(img, m.mmu.tables, ram0, m.ram, dst, n)
    requires Fresh(img, t0, m.mmu.tables, dst, free0, m.mmu.phys.free, n + 1)
    modifies m`ram, m.mmu, m.mmu.pool, m.mmu.phys
    ensures m.Kept() && m.Answered(r)
    ensures r.Returned? ==> MappedBelow(img, t0, m.mmu.tables, spaces, dst, n + 1) && Apart(m.mmu.tables, dst, m.mmu.phys.free)
    ensures r.Returned? ==> BytesBelow(img, m.mmu.tables, m.ram, dst, n + 1)
    ensures r.Returned? ==> MemoryKept(img, m.mmu.tables, ram0, m.ram, dst, n + 1)
    ensures r.Returned? ==> Fresh(img, t0, m.mmu.tables, dst, free0, m.mmu.phys.free, n + 1)
  {
    hide Fresh, MemoryKept, SameLanding, Lookup, FreeMatches, PagePool.LiveMatches, PagePool.InPool, SectionAt, PagesSpanned, ReadByte, Stored, BytesBelow, MappedBelow, Apart;
    ghost var t1, ram1 := m.mmu.tables, m.ram;
    assert m.mmu.kernel in spaces;
    var s := SectionAt(img, n);
    SectionCopyable(img, t0, t1, spaces, m.mmu.kernel, dst, m.mmu.phys.free, n);
    AllMappedFramed(t1, m.mmu.role, m.mmu.pool.frames, dst);
    hide Sound;
    r := m.MemcpyKernelToUser(dst, s.addr, img[s.offset..s.offset + s.size]);
    if r.Returned? {
      StoreStep(img, t0, t1, ram1, m.ram, spaces, m.mmu.kernel, dst, n, m.mmu.phys.free);
      SameCarries(img, t0, t1, m.mmu.tables, m.ram, spaces, m.mmu.kernel, dst, n + 1, m.mmu.phys.free);
      FreshSame(img, t0, t1, m.mmu.tables, spaces, dst, free0, m.mmu.phys.free, n + 1);
      MemoryStored(img, t1, ram0, ram1, m.ram, dst, n, img[s.offset..s.offset + s.size]);
      MemoryMoves(img, t1, m.mmu.tables, ram0, m.ram, dst, n + 1);
    }
  }

  method LoadSection(m: Machine, dst: int, img: seq<Byte>, n: nat, ghost t0: Tables, ghost ram0: Ram, ghost free0: set<int>, ghost spaces: set<int>) returns (r: Outcome)
    requires m.Ready() && spaces == Spaces(m.mmu.role) && dst in spaces && dst != m.mmu.kernel
    requires n < SectionCount(img) && Loaded(SectionAt(img, n)) && Disjoint(img)
    requires forall j :: 0 <= j <= n && Loaded(SectionAt(img, j)) ==> SectionFits(img, SectionAt(img, j), t0, m.mmu.kernel, dst)
    requires RamOk(ram0) && LoadedBelow(img, t0, m.mmu.tables, ram0, m.ram, spaces, dst, free0, m.mmu.phys.free, n)
    modifies m`ram, m.mmu, m.mmu.pool, m.mmu.phys
    ensures m.Ready() && Spaces(m.mmu.role) == spaces
    ensures r == Returned(0) || (r == Panicked && m.mmu.Exhausted())
    ensures r.Returned? ==> LoadedBelow(img, t0, m.mmu.tables, ram0, m.ram, spaces, dst, free0, m.mmu.phys.free, n + 1)
  {
    hide Fresh, MemoryKept, SameLanding, Lookup, Sound, FreeMatches, PagePool.LiveMatches, PagePool.InPool, SectionAt, PagesSpanned, ReadByte;
    assert m.mmu.kernel in spaces;
    ghost var t, free := m.mmu.tables, m.mmu.phys.free;
    SectionReady(img, t0, t, ram0, m.ram, spaces, m.mmu.kernel, dst, free0, free, n);
    var s := SectionAt(img, n);
    MergeFlags();
    ghost var ms;
    r, ms := m.mmu.MapRange(dst, s.addr / PAGE * PAGE, PagesSpanned(s.addr, s.size), LOAD_FLAGS);
    if r.Panicked? {
      return;
    }
    MapStep(img, t0, t, m.mmu.tables, m.ram, free0, free, m.mmu.phys.free, spaces, m.mmu.kernel, dst, n, ms);
    MemoryMoves(img, t, m.mmu.tables, ram0, m.ram, dst, n);
    if s.kind == SHT_PROGBITS {
      r := FillSection(m, dst, img, n, t0, ram0, free0, spaces);
    } else {
      MemorySkipped(img, m.mmu.tables, ram0, m.ram, dst, n);
      r := Returned(0);
    }
  }

  /** elf_load. Every byte of an allocatable PROGBITS section reads back in space dst from
      sh_addr on as in the file from sh_offset on, every page of an allocatable section is
      mapped, those that were not before for reading and writing by the user, every page no
      such section lies on keeps its mapping, and so does all other memory its contents. New
      pages lie on frames that were free. */
  method ElfLoad(m: Machine, dst: int, img: seq<Byte>) returns (r: Outcome)
    requires m.Ready() && IsSpace(m.mmu.role, dst) && dst != m.mmu.kernel
    requires EHDR_SIZE <= |img| && (HasIdent(img) ==> Loadable(img, m.mmu.tables, m.mmu.phys.free, m.mmu.kernel, dst))
    modifies m`ram, m.mmu, m.mmu.pool, m.mmu.phys
    ensures m.Ready() && Spaces(m.mmu.role) == old(Spaces(m.mmu.role))
    ensures !HasIdent(img) ==> r == Returned(-1) && m.mmu.tables == old(m.mmu.tables) && m.ram == old(m.ram)
    ensures HasIdent(img) ==> r == Returned(EntryPoint(img)) || (r == Panicked && m.mmu.Exhausted())
    ensures HasIdent(img) && r.Returned? ==>
      LoadedBelow(img, old(m.mmu.tables), m.mmu.tables, old(m.ram), m.ram, Spaces(m.mmu.role), dst,
                  old(m.mmu.phys.free), m.mmu.phys.free, SectionCount(img))
  {
    hide Lookup, Sound, FreeMatches, PagePool.LiveMatches, PagePool.InPool, SectionAt, SectionFits, Loaded, Filled, HasIdent;
    hide MappedBelow, BytesBelow, MemoryKept, Fresh, Apart, Loadable, Disjoint, PagesNeeded;
    if !HasIdent(img) {
      return Returned(-1);
    }
    ghost var t0, ram0, free0, spaces := m.mmu.tables, m.ram, m.mmu.phys.free, Spaces(m.mmu.role);
    LoadStart(img, t0, ram0, spaces, m.mmu.kernel, dst, m.mmu.phys.free);
    var i := 0;
    while i < SectionCount(img)
      invariant 0 <= i <= SectionCount(img)
      invariant m.Ready() && Spaces(m.mmu.role) == spaces
      invariant LoadedBelow(img, t0, m.mmu.tables, ram0, m.ram, spaces, dst, free0, m.mmu.phys.free, i)
    {
      if Loaded(SectionAt(img, i)) {
        r := LoadSection(m, dst, img, i, t0, ram0, free0, spaces);
        if r.Panicked? {
          return;
        }
      } else {
        SkipSection(img, t0, m.mmu.tables, ram0, m.ram, spaces, dst, free0, m.mmu.phys.free, i);
      }
      i := i + 1;
    }
    r := Returned(EntryPoint(img));
  }
}
