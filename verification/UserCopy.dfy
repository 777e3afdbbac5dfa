/** Copies between user and kernel memory, src/arch/x86/mm/user.c: page by page, each
    user page mapped at its own address into the kernel space while it is copied. */
module UserCopy {
  import opened PhysicalMemory
  import opened PageTables
  import opened Mapping
  import HardwareWalk
  import PagePool

  type Byte = b: int | 0 <= b < 256

  /** Physical memory by 4 KiB frame. */
  type Ram = map<int, seq<Byte>>

  ghost predicate RamOk(ram: Ram) {
    forall f :: FrameOk(f) ==> f in ram && |ram[f]| == PAGE
  }

  /** What a load from address a in space pd yields. */
  ghost function ReadByte(t: Tables, ram: Ram, pd: int, a: int): Byte {
    var f := FrameOf(t, pd, a / PAGE);
    if f in ram && |ram[f]| == PAGE then ram[f][a % PAGE] else 0
  }

  /** The byte at a physical address. */
  ghost function PhysicalByte(ram: Ram, x: int): Byte {
    var f := x - x % 4096;
    if f in ram && |ram[f]| == 4096 then ram[f][x % 4096] else 0
  }

  /** A load reads the byte at the physical address the processor's walk comes to. */
  lemma ReadIsWalk(t: Tables, role: Roles, frames: seq<int>, ram: Ram, pd: int, a: int)
    requires PagePool.FramesOk(frames) && Sound(t, role, frames) && IsSpace(role, pd) && 0 <= a < ADDRESSES
    requires HardwareWalk.Walk(t, role, frames, Rd(t, pd, 0), a / 4096).Small?
    ensures var w := HardwareWalk.Walk(t, role, frames, Rd(t, pd, 0), a / 4096).word;
      ReadByte(t, ram, pd, a) == PhysicalByte(ram, w - w % 4096 + a % 4096)
  {
    hide Sound, HardwareWalk.Walk;
    HardwareWalk.WalkAgrees(t, role, frames, pd, a / 4096);
    hide Lookup;
    var w := Lookup(t, pd, a / 4096).word;
    assert w - w % 4096 == 4096 * (w / 4096);
  }

  ghost predicate SameMaps(t: Tables, t': Tables, spaces: set<int>) {
    forall s, q :: s in spaces && 0 <= q < ALL_PAGES ==> Lookup(t', s, q) == Lookup(t, s, q)
  }

  /** From t to t1 the page p of pd has appeared in the kernel space as well, over the same frame. */
  ghost predicate Window(t: Tables, t1: Tables, spaces: set<int>, kernel: int, pd: int, p: int) {
    && Lookup(t, kernel, p) == Unmapped && Lookup(t, pd, p).Small?
    && Lookup(t1, kernel, p).Small? && FrameOf(t1, kernel, p) == FrameOf(t, pd, p)
    && forall s, q :: s in spaces && 0 <= q < ALL_PAGES && (s != kernel || q != p) ==> Lookup(t1, s, q) == Lookup(t, s, q)
  }

  lemma SameMapsOn(t: Tables, t1: Tables, t2: Tables, spaces: set<int>)
    requires SameMaps(t, t1, spaces) && SameMaps(t1, t2, spaces)
    ensures SameMaps(t, t2, spaces)
  {
    hide Lookup;
  }

  lemma WindowReads(t: Tables, t1: Tables, spaces: set<int>, ram: Ram, kernel: int, pd: int, p: int)
    requires Window(t, t1, spaces, kernel, pd, p)
    ensures forall a :: a / PAGE == p ==> ReadByte(t1, ram, kernel, a) == ReadByte(t, ram, pd, a)
  {
    hide Lookup;
  }

  lemma SameReads(t: Tables, t': Tables, spaces: set<int>, ram: Ram, pd: int, a: int)
    requires SameMaps(t, t', spaces) && pd in spaces && 0 <= a < ADDRESSES
    ensures ReadByte(t', ram, pd, a) == ReadByte(t, ram, pd, a)
    ensures FrameOf(t', pd, a / PAGE) == FrameOf(t, pd, a / PAGE)
  {
    hide Lookup;
  }

  /** The pages a copy of count bytes at address a visits; for a count of zero at an
      unaligned address that is still the page of a. */
  function PagesSpanned(a: int, count: int): int
  {
    ((a + count + PAGE - 1) / PAGE * PAGE - a / PAGE * PAGE) / PAGE
  }

  lemma SameReadsAll(t: Tables, t': Tables, spaces: set<int>, ram: Ram, pd: int)
    requires SameMaps(t, t', spaces) && pd in spaces
    ensures forall a :: 0 <= a < ADDRESSES ==> ReadByte(t', ram, pd, a) == ReadByte(t, ram, pd, a)
  {
    forall a | 0 <= a < ADDRESSES
      ensures ReadByte(t', ram, pd, a) == ReadByte(t, ram, pd, a)
    {
      SameReads(t, t', spaces, ram, pd, a);
    }
  }

  /** Buffer cur is buffer was with the n bytes at address a of space pd put in from index at on. */
  ghost predicate Received(was: seq<Byte>, cur: seq<Byte>, at: nat, t: Tables, ram: Ram, pd: int, a: int, n: int) {
    && |cur| == |was|
    && forall j :: 0 <= j < |cur| ==> cur[j] == if at <= j < at + n then ReadByte(t, ram, pd, a + (j - at)) else was[j]
  }

  lemma ReceivedExtend(s0: seq<Byte>, s1: seq<Byte>, s2: seq<Byte>, t: Tables, t1: Tables, spaces: set<int>,
                       ram: Ram, pd: int, a: int, n: nat, m: nat)
    requires Received(s0, s1, 0, t, ram, pd, a, n) && Received(s1, s2, n, t1, ram, pd, a + n, m)
    requires SameMaps(t, t1, spaces) && pd in spaces && 0 <= a && a + n + m <= ADDRESSES
    ensures Received(s0, s2, 0, t, ram, pd, a, n + m)
  {
    hide ReadByte;
    SameReadsAll(t, t1, spaces, ram, pd);
  }

  /** Memory ram' is ram with the bytes put into frame f from offset off on. */
  ghost predicate PageWritten(ram: Ram, ram': Ram, f: int, off: nat, bytes: seq<Byte>) {
    && RamOk(ram')
    && forall g, o :: FrameOk(g) && g in ram && 0 <= o < PAGE && |ram[g]| == PAGE ==>
         ram'[g][o] == if g == f && off <= o < off + |bytes| then bytes[o - off] else ram[g][o]
  }

  /** Memory with byte o of frame f stored. */
  function Put(ram: Ram, f: int, o: int, b: Byte): Ram
    requires f in ram && 0 <= o < |ram[f]|
  {
    var page: seq<Byte> := ram[f][o := b];
    ram[f := page]
  }

  lemma NothingWritten(ram: Ram, f: int, off: int, src: seq<Byte>, at: nat)
    requires RamOk(ram) && FrameOk(f) && 0 <= off < PAGE && at <= |src|
    ensures PageWritten(ram, ram, f, off, src[at..at + 0])
  {
  }

  lemma PageWrittenMore(ram: Ram, ram1: Ram, f: int, off: nat, bytes: seq<Byte>, b: Byte)
    requires PageWritten(ram, ram1, f, off, bytes) && FrameOk(f) && off + |bytes| < PAGE
    ensures PageWritten(ram, Put(ram1, f, off + |bytes|, b), f, off, bytes + [b])
  {
  }

  ghost predicate KeptAt(t: Tables, pd: int, x: int, f: int, o: int) {
    FrameOf(t, pd, x / PAGE) == f && x % PAGE == o
  }

  /** Byte o of frame f is where space pd keeps one of the n bytes at address a. */
  ghost predicate Backs(t: Tables, pd: int, a: int, n: int, f: int, o: int) {
    exists x :: a <= x < a + n && KeptAt(t, pd, x, f, o)
  }

  lemma BackedBy(t: Tables, pd: int, a: int, n: int, x: int)
    requires a <= x < a + n
    ensures Backs(t, pd, a, n, FrameOf(t, pd, x / PAGE), x % PAGE)
  {
    hide FrameOf;
    assert KeptAt(t, pd, x, FrameOf(t, pd, x / PAGE), x % PAGE);
  }

  /** No byte behind x and below end lies where the byte at x does. */
  ghost predicate LastThere(t: Tables, pd: int, x: int, end: int) {
    !Backs(t, pd, x + 1, end - (x + 1), FrameOf(t, pd, x / PAGE), x % PAGE)
  }

  /** Space pd reads the bytes at address a in ram', the last of those that lie on the same
      byte of memory, and ram' is ram everywhere else. */
  ghost predicate Stored(ram: Ram, ram': Ram, t: Tables, pd: int, a: int, bytes: seq<Byte>) {
    && RamOk(ram')
    && (forall x :: a <= x < a + |bytes| && LastThere(t, pd, x, a + |bytes|) ==> ReadByte(t, ram', pd, x) == bytes[x - a])
    && forall f, o :: FrameOk(f) && f in ram && |ram[f]| == PAGE && 0 <= o < PAGE && !Backs(t, pd, a, |bytes|, f, o) ==>
         ram'[f][o] == ram[f][o]
  }

  lemma StoredRam(ram: Ram, ram': Ram, t: Tables, pd: int, a: int, bytes: seq<Byte>)
    requires Stored(ram, ram', t, pd, a, bytes)
    ensures RamOk(ram')
  {
  }

  lemma PageStored(ram: Ram, ram': Ram, t: Tables, pd: int, a: nat, bytes: seq<Byte>)
    requires RamOk(ram) && a + |bytes| <= a / PAGE * PAGE + PAGE && FrameOk(FrameOf(t, pd, a / PAGE))
    requires PageWritten(ram, ram', FrameOf(t, pd, a / PAGE), a % PAGE, bytes)
    ensures Stored(ram, ram', t, pd, a, bytes)
  {
    hide Lookup;
    var p := a / PAGE;
    forall x | a <= x < a + |bytes|
      ensures ReadByte(t, ram', pd, x) == bytes[x - a]
    {
      assert x / PAGE == p && x % PAGE == a % PAGE + (x - a);
    }
    forall f, o | FrameOk(f) && f in ram && |ram[f]| == PAGE && 0 <= o < PAGE && !Backs(t, pd, a, |bytes|, f, o)
      ensures ram'[f][o] == ram[f][o]
    {
      if f == FrameOf(t, pd, p) && a % PAGE <= o < a % PAGE + |bytes| {
        var x := a + (o - a % PAGE);
        assert x / PAGE == p && x % PAGE == o;
        BackedBy(t, pd, a, |bytes|, x);
      }
    }
  }

  lemma InSpan(a: int, count: int, x: int)
    requires 0 <= a <= x < a + count
    ensures a / PAGE <= x / PAGE < a / PAGE + PagesSpanned(a, count)
  {
  }

  lemma BacksNone(t: Tables, pd: int, a: int, f: int, o: int)
    ensures !Backs(t, pd, a, 0, f, o)
  {
  }

  lemma LastApart(t: Tables, pd: int, a: nat, n: nat, x: int)
    requires FramesDistinct(t, pd, a / PAGE, PagesSpanned(a, n)) && a <= x < a + n
    ensures LastThere(t, pd, x, a + n)
  {
    hide PagesSpanned, FrameOf;
    InSpan(a, n, x);
    forall y | x < y < a + n
      ensures !KeptAt(t, pd, y, FrameOf(t, pd, x / PAGE), x % PAGE)
    {
      InSpan(a, n, y);
      assert x / PAGE == y / PAGE ==> x % PAGE != y % PAGE;
    }
  }

  /** Where each page of the range has a frame of its own, every byte reads back. */
  lemma StoredApart(ram: Ram, ram': Ram, t: Tables, pd: int, a: nat, bytes: seq<Byte>)
    requires Stored(ram, ram', t, pd, a, bytes) && FramesDistinct(t, pd, a / PAGE, PagesSpanned(a, |bytes|))
    ensures forall x :: a <= x < a + |bytes| ==> ReadByte(t, ram', pd, x) == bytes[x - a]
  {
    hide PagesSpanned, FrameOf, ReadByte, LastThere;
    forall x | a <= x < a + |bytes|
      ensures ReadByte(t, ram', pd, x) == bytes[x - a]
    {
      LastApart(t, pd, a, |bytes|, x);
    }
  }

  lemma BacksParts(t: Tables, t1: Tables, spaces: set<int>, pd: int, a: nat, n: nat, m: nat, f: int, o: int)
    requires SameMaps(t, t1, spaces) && pd in spaces && a + n + m <= ADDRESSES
    ensures Backs(t, pd, a, n, f, o) || Backs(t1, pd, a + n, m, f, o) ==> Backs(t, pd, a, n + m, f, o)
  {
    hide Lookup, FrameOf;
    forall y | a + n <= y < a + n + m
      ensures KeptAt(t1, pd, y, f, o) ==> KeptAt(t, pd, y, f, o)
    {
      SameReads(t, t1, spaces, map[], pd, y);
    }
  }

  ghost predicate AllFramed(t: Tables, pd: int, lo: int, n: int) {
    forall q :: lo <= q < lo + n ==> FrameOk(FrameOf(t, pd, q))
  }

  lemma StoredExtend(ram: Ram, ram1: Ram, ram2: Ram, t: Tables, t1: Tables, spaces: set<int>,
                     pd: int, a: nat, src: seq<Byte>, n: nat, m: nat)
    requires RamOk(ram) && RamOk(ram1) && n + m <= |src| && a + n + m <= ADDRESSES
    requires SameMaps(t, t1, spaces) && pd in spaces
    requires Stored(ram, ram1, t, pd, a, src[..n]) && Stored(ram1, ram2, t1, pd, a + n, src[n..n + m])
    requires AllFramed(t, pd, a / PAGE, PagesSpanned(a, |src|))
    ensures Stored(ram, ram2, t, pd, a, src[..n + m])
  {
    hide Lookup, PagesSpanned, FrameOf, Backs;
    forall x | a <= x < a + n + m && LastThere(t, pd, x, a + n + m)
      ensures ReadByte(t, ram2, pd, x) == src[x - a]
    {
      var f, o := FrameOf(t, pd, x / PAGE), x % PAGE;
      SameReads(t, t1, spaces, ram2, pd, x);
      if x < a + n {
        InSpan(a, |src|, x);
        BacksParts(t, t1, spaces, pd, x + 1, a + n - (x + 1), m, f, o);
        assert ram2[f][o] == ram1[f][o];
        assert ReadByte(t, ram1, pd, x) == src[..n][x - a];
      } else {
        BacksNone(t, pd, x + 1, f, o);
        BacksParts(t, t1, spaces, pd, x + 1, 0, a + n + m - (x + 1), f, o);
        assert ReadByte(t1, ram2, pd, x) == src[n..n + m][x - (a + n)];
      }
    }
    forall f, o | FrameOk(f) && f in ram && |ram[f]| == PAGE && 0 <= o < PAGE && !Backs(t, pd, a, n + m, f, o)
      ensures ram2[f][o] == ram[f][o]
    {
      BacksParts(t, t1, spaces, pd, a, n, m, f, o);
    }
  }

  lemma SmallFramed(t: Tables, role: Roles, frames: seq<int>, pd: int, lo: int, n: int)
    requires |frames| == PagePool.POOLS && Sound(t, role, frames) && IsSpace(role, pd)
    requires 0 <= lo && lo + n <= ALL_PAGES && AllSmall(t, pd, lo, n)
    ensures AllFramed(t, pd, lo, n)
  {
    hide Lookup, Sound;
    forall q | lo <= q < lo + n
      ensures FrameOk(FrameOf(t, pd, q))
    {
      MappedFrame(t, role, frames, pd, q);
    }
  }

  /** How many bytes the first i pages of a copy hold. */
  function CopiedAfter(a: int, count: int, i: int): int {
    var reach := a / PAGE * PAGE + i * PAGE;
    if reach <= a then 0 else if reach <= a + count then reach - a else count
  }

  /** user_page, user_start and user_end of the i-th turn (lines 13-19). */
  function UserPage(a: int, i: int): int { a / PAGE * PAGE + i * PAGE }

  function UserStart(a: int, i: int): int {
    if a > UserPage(a, i) then a - UserPage(a, i) else 0
  }

  function UserEnd(a: int, count: int, i: int): int {
    if a + count - UserPage(a, i) > PAGE then PAGE else a + count - UserPage(a, i)
  }

  lemma CopyTurn(a: int, count: nat, i: nat)
    requires 0 <= a && i < PagesSpanned(a, count)
    ensures var page, start, stop := UserPage(a, i), UserStart(a, i), UserEnd(a, count, i);
      && page / PAGE == a / PAGE + i && page % PAGE == 0
      && 0 <= start <= stop <= PAGE && start < PAGE
      && page + start == a + CopiedAfter(a, count, i) && (page + start) / PAGE == page / PAGE
      && CopiedAfter(a, count, i + 1) == CopiedAfter(a, count, i) + (stop - start)
      && 0 <= CopiedAfter(a, count, i) && CopiedAfter(a, count, i + 1) <= count
  {
  }

  lemma CopyEnds(a: int, count: nat)
    requires 0 <= a
    ensures 0 <= PagesSpanned(a, count)
    ensures CopiedAfter(a, count, 0) == 0 && CopiedAfter(a, count, PagesSpanned(a, count)) == count
  {
  }

  /** A copy's whole precondition: its pages are user pages, mapped in pd by 4 KiB pages,
      and not in use in the kernel space. */
  ghost predicate Copyable(t: Tables, kernel: int, pd: int, a: int, count: int) {
    && FIRST_PAGE <= a / PAGE && 0 <= count && a / PAGE + PagesSpanned(a, count) <= END_PAGE
    && AllSmall(t, pd, a / PAGE, PagesSpanned(a, count))
    && AllUnmapped(t, kernel, a / PAGE, PagesSpanned(a, count))
  }

  /** Every page a copy comes to is still mapped in pd and absent from the kernel space. */
  lemma CopyPageReady(t: Tables, t': Tables, spaces: set<int>, kernel: int, pd: int, a: int, count: nat, i: nat)
    requires Copyable(t, kernel, pd, a, count) && SameMaps(t, t', spaces) && kernel in spaces && pd in spaces
    requires i < PagesSpanned(a, count)
    ensures FIRST_PAGE <= a / PAGE + i < END_PAGE
    ensures Lookup(t', pd, a / PAGE + i).Small? && Lookup(t', kernel, a / PAGE + i) == Unmapped
  {
    hide Lookup, PagesSpanned;
  }

  lemma CopyInSpace(t: Tables, kernel: int, pd: int, a: int, count: nat)
    requires Copyable(t, kernel, pd, a, count)
    ensures 0 <= a && a + count <= ADDRESSES
  {
    hide Lookup;
  }

  /** The string at src is len characters long, or has more than the count - 1 there is room for. */
  ghost predicate IsString(t: Tables, ram: Ram, pd: int, src: int, count: nat, len: nat) {
    && (forall x :: src <= x < src + len ==> ReadByte(t, ram, pd, x) != 0)
    && (count == 0 ==> len == 0)
    && (count > 0 ==> len < count && (len == count - 1 || ReadByte(t, ram, pd, src + len) == 0))
  }

  /** Buffer cur is was with the characters of index start to len - 1 put in from address
      a of space pd, and a zero behind them. */
  ghost predicate Ended(was: seq<Byte>, cur: seq<Byte>, start: nat, t: Tables, ram: Ram, pd: int, a: int, len: nat) {
    && start <= len < |cur| == |was| && cur[len] == 0
    && Received(was, cur[len := was[len]], start, t, ram, pd, a, len - start)
  }

  lemma EndedExtend(s0: seq<Byte>, s1: seq<Byte>, s2: seq<Byte>, t: Tables, ram: Ram, pd: int, a: int, n: nat, len: nat)
    requires Received(s0, s1, 0, t, ram, pd, a, n) && Ended(s1, s2, n, t, ram, pd, a + n, len)
    ensures Ended(s0, s2, 0, t, ram, pd, a, len)
  {
    hide ReadByte;
  }

  lemma ReceivedMore(s0: seq<Byte>, s1: seq<Byte>, s2: seq<Byte>, t: Tables, ram: Ram, pd: int, a: int, n: nat, m: nat)
    requires Received(s0, s1, 0, t, ram, pd, a, n) && Received(s1, s2, n, t, ram, pd, a + n, m)
    ensures Received(s0, s2, 0, t, ram, pd, a, n + m)
  {
    hide ReadByte;
  }

  lemma ReceivedThenEnded(s0: seq<Byte>, s1: seq<Byte>, start: nat, t: Tables, ram: Ram, pd: int, a: int, len: nat)
    requires start <= len < |s1| && Received(s0, s1, start, t, ram, pd, a, len - start)
    ensures Ended(s0, s1[len := 0], start, t, ram, pd, a, len)
  {
    hide ReadByte;
    assert s1[len := 0][len := s0[len]] == s1;
  }

  /** The pages up to the terminator are mapped in pd and absent from the kernel space. */
  ghost predicate StringMapped(t: Tables, kernel: int, pd: int, src: int, len: int) {
    && FIRST_PAGE <= src / PAGE && (src + len) / PAGE < END_PAGE
    && forall q :: src / PAGE <= q <= (src + len) / PAGE ==> Lookup(t, pd, q).Small? && Lookup(t, kernel, q) == Unmapped
  }

  lemma StringPage(t: Tables, t1: Tables, ram: Ram, spaces: set<int>, kernel: int, pd: int, src: nat, count: nat, len: nat, i: nat, start: nat)
    requires SameMaps(t, t1, spaces) && kernel in spaces && pd in spaces
    requires IsString(t, ram, pd, src, count, len) && StringMapped(t, kernel, pd, src, len)
    requires start <= len && start == if i == 0 then 0 else UserPage(src, i) - src
    ensures var page, p := UserPage(src, i), src / PAGE + i;
      && page / PAGE == p && page % PAGE == 0 && FIRST_PAGE <= p < END_PAGE
      && Lookup(t1, pd, p).Small? && Lookup(t1, kernel, p) == Unmapped
      && page + UserStart(src, i) == src + start && (src + start) / PAGE == p
      && src + start <= page + UserEnd(src, count, i) <= page + PAGE && page + UserEnd(src, count, i) <= src + count
      && (count == 0 && i == 0 ==> page + UserEnd(src, count, i) == src)
      && (count > 0 && page + UserEnd(src, count, i) <= src + len ==> page + UserEnd(src, count, i) == UserPage(src, i + 1))
  {
    hide Lookup, ReadByte;
    assert src / PAGE + i <= (src + len) / PAGE;
  }

  lemma WindowString(t: Tables, t1: Tables, t2: Tables, spaces: set<int>, ram: Ram, kernel: int, pd: int, p: int, a: int, stop: int)
    requires SameMaps(t, t1, spaces) && pd in spaces && 0 <= p < ALL_PAGES
    requires Window(t1, t2, spaces, kernel, pd, p)
    requires a / PAGE == p && stop <= p * PAGE + PAGE
    ensures forall x :: a <= x < stop ==> ReadByte(t2, ram, kernel, x) == ReadByte(t, ram, pd, x)
    ensures Lookup(t2, kernel, p).Small?
  {
    hide Lookup;
    forall x | a <= x < stop
      ensures ReadByte(t2, ram, kernel, x) == ReadByte(t, ram, pd, x)
    {
      assert x / PAGE == p;
    }
  }

  lemma StringStart(s: seq<Byte>, t: Tables, ram: Ram, pd: int, src: nat, count: nat, len: nat, spaces: set<int>)
    requires IsString(t, ram, pd, src, count, len)
    ensures Received(s, s, 0, t, ram, pd, src, 0) && SameMaps(t, t, spaces)
    ensures if count == 0 then len == 0 else len < count
  {
    hide Lookup;
  }

  lemma LoopCovers(src: nat, count: nat)
    ensures UserPage(src, (count + PAGE - 1) / PAGE + 1) - src >= count
  {
  }

  class Machine {
    const mmu: Mmu
    var ram: Ram

    ghost predicate Valid()
      reads this, mmu, mmu.pool, mmu.phys
    {
      mmu.Valid() && RamOk(ram)
    }

    constructor (mmu: Mmu, ram: Ram)
      requires mmu.Valid() && RamOk(ram)
      ensures Valid() && this.mmu == mmu && this.ram == ram
    {
      this.mmu, this.ram := mmu, ram;
    }

    ghost predicate Ready()
      reads this, mmu, mmu.pool, mmu.phys
    {
      Valid() && mmu.FreeClear()
    }

    lemma KernelListed()
      requires Ready()
      ensures mmu.kernel in Spaces(mmu.role)
    {
      hide Lookup;
      assert IsSpace(mmu.role, mmu.kernel);
    }

    /** The kernel's own structures stay in order, with the spaces and free frames there were. */
    twostate predicate Kept()
      reads this, mmu, mmu.pool, mmu.phys
    {
      Ready() && Spaces(mmu.role) == old(Spaces(mmu.role)) && mmu.phys.free == old(mmu.phys.free)
    }

    /** The page pool running dry is the one reason to stop. */
    ghost predicate Answered(r: Outcome)
      reads mmu.pool
    {
      r == Returned(0) || (r == Panicked && mmu.Exhausted())
    }

    /** A load through the kernel space: the translated address, read from memory. */
    function Load(addr: int): (b: Byte)
      requires mmu.Valid() && RamOk(ram) && 0 <= addr < ADDRESSES
      requires Lookup(mmu.tables, mmu.kernel, addr / PAGE).Small?
      reads this, mmu, mmu.pool, mmu.phys
      ensures b == ReadByte(mmu.tables, ram, mmu.kernel, addr)
    {
      MappedFrame(mmu.tables, mmu.role, mmu.pool.frames, mmu.kernel, addr / PAGE);
      ram[Base(Lookup(mmu.tables, mmu.kernel, addr / PAGE).word)][addr % PAGE]
    }

    /** memcpy out of a page mapped in the kernel space. */
    method CopyOut(dst: array<Byte>, at: nat, addr: int, n: nat)
      requires mmu.Valid() && RamOk(ram)
      requires at + n <= dst.Length && 0 <= addr && addr + n <= addr / PAGE * PAGE + PAGE
      requires Lookup(mmu.tables, mmu.kernel, addr / PAGE).Small? && addr / PAGE < ALL_PAGES
      modifies dst
      ensures forall j :: 0 <= j < dst.Length ==>
        dst[j] == if at <= j < at + n then ReadByte(mmu.tables, ram, mmu.kernel, addr + (j - at)) else old(dst[j])
    {
      hide Lookup, PageTables.Sound, PagePool.LiveMatches, FreeMatches;
      MappedFrame(mmu.tables, mmu.role, mmu.pool.frames, mmu.kernel, addr / PAGE);
      ghost var was := dst[..];
      var k := 0;
      while k < n
        invariant 0 <= k <= n
        invariant forall j :: 0 <= j < dst.Length ==>
          dst[j] == if at <= j < at + k then ReadByte(mmu.tables, ram, mmu.kernel, addr + (j - at)) else was[j]
      {
        assert (addr + k) / PAGE == addr / PAGE;
        dst[at + k] := Load(addr + k);
        k := k + 1;
      }
    }

    /** Lines 22-27: look the user page up and map it into the kernel space. */
    method OpenWindow(pd: int, page: int) returns (r: Outcome)
      requires Ready() && IsSpace(mmu.role, pd)
      requires page % PAGE == 0 && FIRST_PAGE <= page / PAGE < END_PAGE
      requires Lookup(mmu.tables, pd, page / PAGE).Small? && Lookup(mmu.tables, mmu.kernel, page / PAGE) == Unmapped
      modifies mmu, mmu.pool
      ensures Kept()
      ensures Answered(r)
      ensures r.Returned? ==> Window(old(mmu.tables), mmu.tables, Spaces(mmu.role), mmu.kernel, pd, page / PAGE)
    {
      hide PageTables.Sound, PagePool.LiveMatches, Lookup, FreeMatches, PageTables.Low, Bits, Reported;
      ghost var t0, p := mmu.tables, page / PAGE;
      MappedFrame(mmu.tables, mmu.role, mmu.pool.frames, pd, p);
      var phys, rflags := mmu.Translate(pd, page);
      assert !HasPs(MM_FLG_WR);
      r := mmu.MapRangePages(mmu.kernel, page, [phys], MM_FLG_WR);
      if r.Returned? {
        assert Entered(Lookup(mmu.tables, mmu.kernel, p), phys, MM_FLG_WR);
      }
    }

    /** Line 35: the window's mapping goes, its frame stays. */
    method CloseWindow(pd: int, page: int, ghost t0: Tables)
      requires Ready() && IsSpace(mmu.role, pd)
      requires page % PAGE == 0 && FIRST_PAGE <= page / PAGE < END_PAGE
      requires Window(t0, mmu.tables, Spaces(mmu.role), mmu.kernel, pd, page / PAGE)
      modifies mmu, mmu.pool, mmu.phys
      ensures Kept()
      ensures SameMaps(t0, mmu.tables, Spaces(mmu.role))
    {
      hide PageTables.Sound, PagePool.LiveMatches, Lookup, FreeMatches;
      assert HasNoPhys(MM_FLG_NOPHYS) && !HasPs(MM_FLG_NOPHYS);
      var ignored := mmu.UmapRange(mmu.kernel, page, 1, MM_FLG_NOPHYS);
    }

    /** One turn of the loop at lines 12-36. */
    method ReadPage(pd: int, dst: array<Byte>, at: nat, page: int, addr: nat, n: nat) returns (r: Outcome)
      requires Ready() && IsSpace(mmu.role, pd)
      requires page % PAGE == 0 && FIRST_PAGE <= page / PAGE < END_PAGE
      requires Lookup(mmu.tables, pd, page / PAGE).Small? && Lookup(mmu.tables, mmu.kernel, page / PAGE) == Unmapped
      requires addr / PAGE == page / PAGE && addr + n <= page + PAGE && at + n <= dst.Length
      modifies mmu, mmu.pool, mmu.phys, dst
      ensures Kept()
      ensures Answered(r)
      ensures r.Returned? ==> SameMaps(old(mmu.tables), mmu.tables, Spaces(mmu.role))
      ensures r.Returned? ==> Received(old(dst[..]), dst[..], at, old(mmu.tables), ram, pd, addr, n)
    {
      hide PageTables.Sound, PagePool.LiveMatches, Lookup, FreeMatches, ReadByte;
      ghost var t0, p := mmu.tables, page / PAGE;
      r := OpenWindow(pd, page);
      if r.Returned? {
        WindowReads(t0, mmu.tables, Spaces(mmu.role), ram, mmu.kernel, pd, p);
        CopyOut(dst, at, addr, n);
        CloseWindow(pd, page, t0);
      }
    }

    /** Lines 13-35: the i-th page of a copy, copied bytes of which are done. */
    method ReadTurn(pd: int, dst: array<Byte>, src: int, count: nat, i: nat, copied: nat, ghost t0: Tables)
      returns (r: Outcome, n: nat)
      requires Ready() && IsSpace(mmu.role, pd)
      requires Copyable(t0, mmu.kernel, pd, src, count) && count <= dst.Length
      requires SameMaps(t0, mmu.tables, Spaces(mmu.role))
      requires i < PagesSpanned(src, count) && copied == CopiedAfter(src, count, i)
      modifies mmu, mmu.pool, mmu.phys, dst
      ensures Kept()
      ensures Answered(r)
      ensures copied + n == CopiedAfter(src, count, i + 1) && src + copied + n <= ADDRESSES
      ensures r.Returned? ==> SameMaps(t0, mmu.tables, Spaces(mmu.role))
      ensures r.Returned? ==> Received(old(dst[..]), dst[..], copied, old(mmu.tables), ram, pd, src + copied, n)
    {
      assert IsSpace(mmu.role, mmu.kernel);
      hide Lookup, Ready, Answered, ReadByte, Received, PageTables.Sound, FreeMatches, PagePool.LiveMatches;
      CopyInSpace(t0, mmu.kernel, pd, src, count);
      CopyTurn(src, count, i);
      CopyPageReady(t0, mmu.tables, Spaces(mmu.role), mmu.kernel, pd, src, count, i);
      hide Copyable, PagesSpanned, CopiedAfter, UserPage, UserStart, UserEnd;
      n := UserEnd(src, count, i) - UserStart(src, i);
      r := ReadPage(pd, dst, copied, UserPage(src, i), src + copied, n);
    }

    /** mm_memcpy_user_to_kernel: exactly count bytes arrive, whatever the alignment and
        however the frames lie, and every space translates as before. */
    method MemcpyUserToKernel(pd: int, dst: array<Byte>, src: int, count: nat) returns (r: Outcome)
      requires Ready() && IsSpace(mmu.role, pd)
      requires Copyable(mmu.tables, mmu.kernel, pd, src, count) && count <= dst.Length
      modifies mmu, mmu.pool, mmu.phys, dst
      ensures Kept()
      ensures Answered(r)
      ensures r.Returned? ==> SameMaps(old(mmu.tables), mmu.tables, Spaces(mmu.role))
      ensures r.Returned? ==> Received(old(dst[..]), dst[..], 0, old(mmu.tables), ram, pd, src, count)
    {
      assert IsSpace(mmu.role, mmu.kernel);
      assert Received(dst[..], dst[..], 0, mmu.tables, ram, pd, src, 0);
      hide Lookup, Ready, Answered, ReadByte, Received, PageTables.Sound, FreeMatches, PagePool.LiveMatches, CopiedAfter;
      CopyEnds(src, count);
      CopyInSpace(mmu.tables, mmu.kernel, pd, src, count);
      var npages := ((src + count + PAGE - 1) / PAGE * PAGE - src / PAGE * PAGE) / PAGE;
      assert npages == PagesSpanned(src, count);
      hide PagesSpanned, Copyable;
      var copied := 0;
      var i := 0;
      while i < npages
        invariant 0 <= i <= npages && copied == CopiedAfter(src, count, i)
        invariant Kept()
        invariant SameMaps(old(mmu.tables), mmu.tables, Spaces(mmu.role))
        invariant Received(old(dst[..]), dst[..], 0, old(mmu.tables), ram, pd, src, copied)
      {
        ghost var t1, s1 := mmu.tables, dst[..];
        var n;
        r, n := ReadTurn(pd, dst, src, count, i, copied, old(mmu.tables));
        if r.Panicked? {
          return;
        }
        ReceivedExtend(old(dst[..]), s1, dst[..], old(mmu.tables), t1, Spaces(mmu.role), ram, pd, src, copied, n);
        copied := copied + n;
        i := i + 1;
      }
      r := Returned(0);
    }

    /** memcpy into a page mapped in the kernel space. */
    method CopyIn(src: seq<Byte>, at: nat, addr: int, n: nat)
      requires Valid()
      requires at + n <= |src| && 0 <= addr && addr + n <= addr / PAGE * PAGE + PAGE
      requires Lookup(mmu.tables, mmu.kernel, addr / PAGE).Small? && addr / PAGE < ALL_PAGES
      modifies this`ram
      ensures Valid()
      ensures PageWritten(old(ram), ram, FrameOf(mmu.tables, mmu.kernel, addr / PAGE), addr % PAGE, src[at..at + n])
    {
      hide Lookup, PageTables.Sound, PagePool.LiveMatches, FreeMatches, PageWritten;
      MappedFrame(mmu.tables, mmu.role, mmu.pool.frames, mmu.kernel, addr / PAGE);
      var f := Base(Lookup(mmu.tables, mmu.kernel, addr / PAGE).word);
      NothingWritten(ram, f, addr % PAGE, src, at);
      var k := 0;
      while k < n
        invariant 0 <= k <= n && RamOk(ram)
        invariant PageWritten(old(ram), ram, f, addr % PAGE, src[at..at + k])
      {
        var to := Base(Lookup(mmu.tables, mmu.kernel, (addr + k) / PAGE).word);
        assert (addr + k) / PAGE == addr / PAGE && (addr + k) % PAGE == addr % PAGE + k;
        PageWrittenMore(old(ram), ram, f, addr % PAGE, src[at..at + k], src[at + k]);
        assert src[at..at + (k + 1)] == src[at..at + k] + [src[at + k]];
        ram := Put(ram, to, (addr + k) % PAGE, src[at + k]);
        k := k + 1;
      }
    }

    /** One turn of the loop at lines 47-71. */
    method WritePage(pd: int, src: seq<Byte>, at: nat, page: int, addr: nat, n: nat) returns (r: Outcome)
      requires Ready() && IsSpace(mmu.role, pd)
      requires page % PAGE == 0 && FIRST_PAGE <= page / PAGE < END_PAGE
      requires Lookup(mmu.tables, pd, page / PAGE).Small? && Lookup(mmu.tables, mmu.kernel, page / PAGE) == Unmapped
      requires addr / PAGE == page / PAGE && addr + n <= page + PAGE && at + n <= |src|
      modifies this`ram, mmu, mmu.pool, mmu.phys
      ensures Kept()
      ensures Answered(r)
      ensures r.Returned? ==> SameMaps(old(mmu.tables), mmu.tables, Spaces(mmu.role))
      ensures r.Returned? ==> Stored(old(ram), ram, old(mmu.tables), pd, addr, src[at..at + n])
    {
      hide PageTables.Sound, PagePool.LiveMatches, Lookup, FreeMatches, ReadByte, Stored;
      ghost var t0, p := mmu.tables, page / PAGE;
      r := OpenWindow(pd, page);
      if r.Returned? {
        MappedFrame(mmu.tables, mmu.role, mmu.pool.frames, mmu.kernel, p);
        CopyIn(src, at, addr, n);
        PageStored(old(ram), ram, t0, pd, addr, src[at..at + n]);
        CloseWindow(pd, page, t0);
      }
    }

    /** Lines 48-70: the i-th page of a copy, copied bytes of which are done. */
    method WriteTurn(pd: int, dst: int, src: seq<Byte>, i: nat, copied: nat, ghost t0: Tables)
      returns (r: Outcome, n: nat)
      requires Ready() && IsSpace(mmu.role, pd)
      requires Copyable(t0, mmu.kernel, pd, dst, |src|)
      requires SameMaps(t0, mmu.tables, Spaces(mmu.role))
      requires i < PagesSpanned(dst, |src|) && copied == CopiedAfter(dst, |src|, i)
      modifies this`ram, mmu, mmu.pool, mmu.phys
      ensures Kept()
      ensures Answered(r)
      ensures copied + n == CopiedAfter(dst, |src|, i + 1) && copied + n <= |src| && dst + copied + n <= ADDRESSES
      ensures r.Returned? ==> SameMaps(t0, mmu.tables, Spaces(mmu.role))
      ensures r.Returned? ==> Stored(old(ram), ram, old(mmu.tables), pd, dst + copied, src[copied..copied + n])
    {
      hide Lookup, Ready, Answered, Stored, Spaces;
      hide Copyable, PagesSpanned, CopiedAfter, UserPage, UserStart, UserEnd, SameMaps;
      KernelListed();
      CopyInSpace(t0, mmu.kernel, pd, dst, |src|);
      CopyTurn(dst, |src|, i);
      CopyPageReady(t0, mmu.tables, Spaces(mmu.role), mmu.kernel, pd, dst, |src|, i);
      n := UserEnd(dst, |src|, i) - UserStart(dst, i);
      r := WritePage(pd, src, copied, UserPage(dst, i), dst + copied, n);
      if r.Returned? {
        SameMapsOn(t0, old(mmu.tables), mmu.tables, Spaces(mmu.role));
      }
    }

    lemma StartStoring(pd: int, dst: int, src: seq<Byte>)
      requires Ready() && IsSpace(mmu.role, pd) && Copyable(mmu.tables, mmu.kernel, pd, dst, |src|)
      ensures Stored(ram, ram, mmu.tables, pd, dst, src[..0]) && SameMaps(mmu.tables, mmu.tables, Spaces(mmu.role))
      ensures RamOk(ram) && AllFramed(mmu.tables, pd, dst / PAGE, PagesSpanned(dst, |src|))
    {
      hide Lookup, PageTables.Sound, FreeMatches, PagePool.LiveMatches, PagesSpanned, ReadByte;
      SmallFramed(mmu.tables, mmu.role, mmu.pool.frames, pd, dst / PAGE, PagesSpanned(dst, |src|));
    }

    /** mm_memcpy_kernel_to_user. The bytes land where space pd reads them back, the later
        ones over the earlier where pages share a frame, and nothing else in memory changes. */
    method MemcpyKernelToUser(pd: int, dst: int, src: seq<Byte>) returns (r: Outcome)
      requires Ready() && IsSpace(mmu.role, pd)
      requires Copyable(mmu.tables, mmu.kernel, pd, dst, |src|)
      modifies this`ram, mmu, mmu.pool, mmu.phys
      ensures Kept()
      ensures Answered(r)
      ensures r.Returned? ==> SameMaps(old(mmu.tables), mmu.tables, Spaces(mmu.role))
      ensures r.Returned? ==> Stored(old(ram), ram, old(mmu.tables), pd, dst, src)
    {
      hide Lookup, Ready, Stored, SameMaps, AllFramed, Spaces, Copyable, CopiedAfter;
      StartStoring(pd, dst, src);
      CopyInSpace(mmu.tables, mmu.kernel, pd, dst, |src|);
      CopyEnds(dst, |src|);
      var npages := ((dst + |src| + PAGE - 1) / PAGE * PAGE - dst / PAGE * PAGE) / PAGE;
      assert npages == PagesSpanned(dst, |src|);
      hide PagesSpanned;
      var copied := 0;
      var i := 0;
      while i < npages
        invariant 0 <= i <= npages && copied == CopiedAfter(dst, |src|, i) && 0 <= copied <= |src|
        invariant Kept() && RamOk(ram)
        invariant SameMaps(old(mmu.tables), mmu.tables, Spaces(mmu.role))
        invariant Stored(old(ram), ram, old(mmu.tables), pd, dst, src[..copied])
      {
        ghost var t1, ram1 := mmu.tables, ram;
        var n;
        r, n := WriteTurn(pd, dst, src, i, copied, old(mmu.tables));
        if r.Panicked? {
          return;
        }
        StoredRam(ram1, ram, t1, pd, dst + copied, src[copied..copied + n]);
        StoredExtend(old(ram), ram1, ram, old(mmu.tables), t1, Spaces(mmu.role), pd, dst, src, copied, n);
        copied := copied + n;
        i := i + 1;
      }
      assert src[..copied] == src;
      r := Returned(0);
    }

    /** Lines 97-105: copy characters from the window until the string or the page ends. */
    method ScanPage(pd: int, dst: array<Byte>, src: nat, count: nat, ghost len: nat, ghost t0: Tables, start: nat, addr: nat, stop: nat)
      returns (done: bool, copied: nat)
      requires Ready() && IsString(t0, ram, pd, src, count, len) && count <= dst.Length
      requires addr == src + start && addr <= stop <= addr / PAGE * PAGE + PAGE && stop <= src + count && start <= len
      requires Lookup(mmu.tables, mmu.kernel, addr / PAGE).Small? && addr / PAGE < ALL_PAGES
      requires forall x :: addr <= x < stop ==> ReadByte(mmu.tables, ram, mmu.kernel, x) == ReadByte(t0, ram, pd, x)
      modifies dst
      ensures done ==> count > 0 && copied == len + 1 && Ended(old(dst[..]), dst[..], start, t0, ram, pd, addr, len)
      ensures !done ==> copied == start + (stop - addr) && (count > 0 ==> copied <= len)
      ensures !done ==> Received(old(dst[..]), dst[..], start, t0, ram, pd, addr, stop - addr)
    {
      hide Lookup, PageTables.Sound, PagePool.LiveMatches, FreeMatches, ReadByte, Ended;
      copied := start;
      var x := addr;
      while x < stop
        invariant addr <= x <= stop && copied == start + (x - addr) <= len
        invariant Received(old(dst[..]), dst[..], start, t0, ram, pd, addr, x - addr)
      {
        assert x / PAGE == addr / PAGE && x == src + copied == addr + (copied - start);
        var b := Load(x);
        if b == 0 || copied == count - 1 {
          assert copied == len;
          ReceivedThenEnded(old(dst[..]), dst[..], start, t0, ram, pd, addr, len);
          ghost var mid := dst[..];
          dst[copied] := 0;
          assert dst[..] == mid[len := 0];
          return true, copied + 1;
        }
        dst[copied] := b;
        copied := copied + 1;
        x := x + 1;
      }
      done := false;
    }

    method ScanWindow(pd: int, dst: array<Byte>, src: nat, count: nat, ghost len: nat, ghost t0: Tables, ghost t1: Tables,
                      page: int, start: nat, stop: nat, ghost was: seq<Byte>, ghost spaces: set<int>)
      returns (done: bool, copied: nat)
      requires Ready() && spaces == Spaces(mmu.role) && pd in spaces && SameMaps(t0, t1, spaces)
      requires IsString(t0, ram, pd, src, count, len) && count <= dst.Length && was == dst[..]
      requires page % PAGE == 0 && FIRST_PAGE <= page / PAGE < END_PAGE && (src + start) / PAGE == page / PAGE
      requires src + start <= stop <= page + PAGE && stop <= src + count && start <= len
      requires Window(t1, mmu.tables, spaces, mmu.kernel, pd, page / PAGE)
      modifies mmu, mmu.pool, mmu.phys, dst
      ensures Kept() && SameMaps(t0, mmu.tables, spaces)
      ensures done ==> count > 0 && copied == len + 1 && Ended(was, dst[..], start, t0, ram, pd, src + start, len)
      ensures !done ==> copied == start + (stop - (src + start)) && (count > 0 ==> copied <= len)
      ensures !done ==> Received(was, dst[..], start, t0, ram, pd, src + start, stop - (src + start))
    {
      hide Ready, Lookup, ReadByte, Ended, Received, IsString, FrameOf, Window, SameMaps, Spaces;
      WindowString(t0, t1, mmu.tables, spaces, ram, mmu.kernel, pd, page / PAGE, src + start, stop);
      assert stop <= (src + start) / PAGE * PAGE + PAGE;
      done, copied := ScanPage(pd, dst, src, count, len, t0, start, src + start, stop);
      CloseWindow(pd, page, t1);
      SameMapsOn(t0, t1, mmu.tables, spaces);
    }

    /** Lines 81-107: one page of mm_strncpy_user_to_kernel. */
    method StringTurn(pd: int, dst: array<Byte>, src: nat, count: nat, ghost len: nat, ghost t0: Tables, i: nat, start: nat,
                      ghost was: seq<Byte>, ghost spaces: set<int>)
      returns (r: Outcome, done: bool, copied: nat)
      requires Ready() && spaces == Spaces(mmu.role) && pd in spaces && SameMaps(t0, mmu.tables, spaces)
      requires IsString(t0, ram, pd, src, count, len) && StringMapped(t0, mmu.kernel, pd, src, len)
      requires count <= dst.Length && was == dst[..]
      requires start <= len && start == if i == 0 then 0 else UserPage(src, i) - src
      modifies mmu, mmu.pool, mmu.phys, dst
      ensures Kept() && Answered(r)
      ensures r.Returned? ==> SameMaps(t0, mmu.tables, spaces)
      ensures r.Returned? && done ==> count > 0 && copied == len + 1 && Ended(was, dst[..], start, t0, ram, pd, src + start, len)
      ensures r.Returned? && !done ==> start <= copied <= len && (count > 0 ==> copied == UserPage(src, i + 1) - src)
      ensures r.Returned? && !done ==> Received(was, dst[..], start, t0, ram, pd, src + start, copied - start)
    {
      StringPage(t0, mmu.tables, ram, spaces, mmu.kernel, pd, src, count, len, i, start);
      hide PageTables.Sound, PagePool.LiveMatches, Lookup, FreeMatches, ReadByte, StringMapped, Ended, Received;
      hide UserPage, UserStart, UserEnd;
      done, copied := false, start;
      r := OpenWindow(pd, UserPage(src, i));
      if r.Returned? {
        done, copied := ScanWindow(pd, dst, src, count, len, t0, old(mmu.tables), UserPage(src, i), start,
                                   UserPage(src, i) + UserEnd(src, count, i), was, spaces);
      }
    }

    /** mm_strncpy_user_to_kernel. With room for at least one character it returns from
        inside its loop, with the terminated prefix of at most count characters, having
        looked at no page past the terminator. For count 0 it still writes one zero. */
    method StrncpyUserToKernel(pd: int, dst: array<Byte>, src: nat, count: nat, ghost len: nat) returns (r: Outcome)
      requires Ready() && IsSpace(mmu.role, pd)
      requires IsString(mmu.tables, ram, pd, src, count, len) && StringMapped(mmu.tables, mmu.kernel, pd, src, len)
      requires count <= dst.Length && 0 < dst.Length
      modifies mmu, mmu.pool, mmu.phys, dst
      ensures Kept()
      ensures r == Returned(if count == 0 then 0 else len + 1) || (r == Panicked && mmu.Exhausted())
      ensures r.Returned? ==> SameMaps(old(mmu.tables), mmu.tables, Spaces(mmu.role))
      ensures r.Returned? ==> Ended(old(dst[..]), dst[..], 0, old(mmu.tables), ram, pd, src, len)
    {
      hide Lookup, Ready, ReadByte, Received, Ended, IsString, StringMapped, SameMaps, Spaces, UserPage;
      StringStart(dst[..], mmu.tables, ram, pd, src, count, len, Spaces(mmu.role));
      LoopCovers(src, count);
      var turns := (count + PAGE - 1) / PAGE + 1;
      var copied := 0;
      var i := 0;
      while i < turns
        invariant 0 <= i <= turns && 0 <= copied <= len
        invariant count > 0 ==> copied == if i == 0 then 0 else UserPage(src, i) - src
        invariant count == 0 ==> copied == 0
        invariant Kept()
        invariant SameMaps(old(mmu.tables), mmu.tables, Spaces(mmu.role))
        invariant Received(old(dst[..]), dst[..], 0, old(mmu.tables), ram, pd, src, copied)
      {
        ghost var s1 := dst[..];
        var done, next;
        r, done, next := StringTurn(pd, dst, src, count, len, old(mmu.tables), i, copied, s1, Spaces(mmu.role));
        if r.Panicked? {
          return;
        }
        if done {
          EndedExtend(old(dst[..]), s1, dst[..], old(mmu.tables), ram, pd, src, copied, len);
          return Returned(next);
        }
        ReceivedMore(old(dst[..]), s1, dst[..], old(mmu.tables), ram, pd, src, copied, next - copied);
        copied := next;
        i := i + 1;
      }
      assert count == 0;
      ReceivedThenEnded(old(dst[..]), dst[..], 0, old(mmu.tables), ram, pd, src, copied);
      ghost var mid := dst[..];
      dst[copied] := 0;
      assert dst[..] == mid[copied := 0];
      r := Returned(copied);
    }
  }
}
