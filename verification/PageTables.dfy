/** Two-level page tables as the kernel keeps them (src/arch/x86/mm/map.c): a
    directory, its tables, and a table-info page (directory slot 1023) that holds
    each table's virtual address in the high 20 bits and its live-entry count in
    the low 12. Words are ints below 2^32; `x | y` on words without common bits is
    x + y, and `x & -0x1000` is x - x % 0x1000. */
module PageTables {
  import opened PhysicalMemory
  import PagePool

  const SLOTS := 1024
  /** Virtual pages whose directory slot is neither 0 nor 1023, which are bookkeeping. */
  const FIRST_PAGE := 0x400
  const END_PAGE := 0xFFC00
  const KERNEL_VIRT_BASE := 0xC000_0000
  const KERNEL_PAGE := 0xC_0000
  const ALL_PAGES := 0x10_0000

  /** The paging structures by the virtual address of their page. */
  type Tables = map<int, seq<int>>

  predicate Present(w: int) { w % 2 == 1 }
  predicate IsHuge(w: int) { w / 128 % 2 == 1 }
  function Base(w: int): int { w - w % PAGE }
  function Low(w: int): int { w % PAGE }

  function Rd(t: Tables, a: int, i: int): int {
    if a in t && 0 <= i < |t[a]| then t[a][i] else 0
  }

  function InfoPage(t: Tables, pd: int): int { Rd(t, pd, 1023) }

  function InfoWord(t: Tables, pd: int, d: int): int { Rd(t, InfoPage(t, pd), d) }

  /** What a space maps a virtual page to: nothing, a 4 KiB page, or part of a 4 MiB page. */
  datatype Mapping = Unmapped | Small(word: int) | Large(word: int)

  function Lookup(t: Tables, pd: int, page: int): Mapping {
    var e := Rd(t, pd, page / SLOTS);
    if !Present(e) then Unmapped
    else if IsHuge(e) then Large(e)
    else
      var w := Rd(t, Base(InfoWord(t, pd, page / SLOTS)), page % SLOTS);
      if Present(w) then Small(w) else Unmapped
  }

  /** The number of live entries of a table. */
  function Count(s: seq<int>): nat {
    if s == [] then 0 else (if Present(s[0]) then 1 else 0) + Count(s[1..])
  }

  lemma {:induction false} CountUpdate(s: seq<int>, i: nat, x: int)
    requires i < |s|
    ensures Count(s[i := x]) == Count(s) - (if Present(s[i]) then 1 else 0) + (if Present(x) then 1 else 0)
  {
    if i == 0 {
      assert s[0 := x][1..] == s[1..];
    } else {
      assert s[i := x][1..] == s[1..][i - 1 := x];
      CountUpdate(s[1..], i - 1, x);
    }
  }

  lemma {:induction false} CountBound(s: seq<int>)
    ensures Count(s) <= |s|
    ensures Count(s) == 0 <==> forall i :: 0 <= i < |s| ==> !Present(s[i])
  {
    if s == [] {
    } else {
      CountBound(s[1..]);
      assert forall i :: 0 < i < |s| ==> s[i] == s[1..][i - 1];
      if Count(s) == 0 {
        forall i | 0 <= i < |s|
          ensures !Present(s[i])
        {
          if i > 0 { assert s[i] == s[1..][i - 1]; }
        }
      }
    }
  }

  ghost predicate Live(w: int) { Present(w) && 0 <= w < ADDRESSES }

  /** Entries are live or zero. */
  ghost predicate Clean(s: seq<int>) {
    forall i :: 0 <= i < |s| ==> Live(s[i]) || s[i] == 0
  }

  ghost predicate Zero(t: Tables, a: int) {
    a in t && |t[a]| == SLOTS && forall i :: 0 <= i < SLOTS ==> t[a][i] == 0
  }

  /** What a page of paging structures is used for. A page has one role, which is
      what keeps the spaces apart; Orphan marks tables a destroyed space left behind. */
  datatype Role = Directory | TableInfo(space: int) | Table(space: int, slot: int) | Orphan

  type Roles = map<int, Role>

  ghost predicate Holds(t: Tables, role: Roles, a: int, r: Role) {
    a in role && role[a] == r && a in t && |t[a]| == SLOTS
  }

  ghost function Spaces(role: Roles): set<int> {
    set pd | pd in role && role[pd] == Directory
  }

  ghost predicate IsSpace(role: Roles, pd: int) {
    pd in Spaces(role)
  }

  function PhysicalOf(frames: seq<int>, a: int): int
    requires |frames| == PagePool.POOLS
  {
    if PagePool.POOL_BASE <= a < PagePool.POOL_BASE + PagePool.POOLS * PagePool.REGION
    then PagePool.PhysicalOf(frames, a)
    else a - KERNEL_VIRT_BASE
  }

  /** Paging structures sit in the pool, except the boot directory in the kernel image. */
  ghost predicate Placed(a: int) {
    PagePool.InPool(a) || (KERNEL_VIRT_BASE <= a < PagePool.POOL_BASE && a % PAGE == 0)
  }

  ghost predicate IsTable(t: Tables, pd: int, d: int) {
    Present(Rd(t, pd, d)) && !IsHuge(Rd(t, pd, d))
  }

  /** A slot is empty in both pages, a 4 MiB page, or a table whose entry holds its
      physical address and whose info word holds its virtual address and exact count. */
  ghost predicate SlotOk(t: Tables, role: Roles, frames: seq<int>, pd: int, d: int)
    requires |frames| == PagePool.POOLS
  {
    var e, w := Rd(t, pd, d), InfoWord(t, pd, d);
    if !Present(e) then e == 0 && w == 0
    else if IsHuge(e) then w == 0
    else
      && Holds(t, role, Base(w), Table(pd, d))
      && e == PhysicalOf(frames, Base(w)) + 7
      && Low(w) == Count(t[Base(w)]) > 0
      && Clean(t[Base(w)])
  }

  ghost predicate SpaceOk(t: Tables, role: Roles, frames: seq<int>, pd: int)
    requires |frames| == PagePool.POOLS
  {
    && Holds(t, role, pd, Directory)
    && Holds(t, role, InfoPage(t, pd), TableInfo(pd))
    && Rd(t, pd, 0) == PhysicalOf(frames, pd) && !Present(Rd(t, pd, 0)) && InfoPage(t, pd) % PAGE == 0
    && InfoWord(t, pd, 0) == InfoWord(t, pd, 1023) == 0
    && forall d :: 1 <= d < 1023 ==> SlotOk(t, role, frames, pd, d)
  }

  /** Every page in use is what its role says, and is referred to from there. */
  ghost predicate RoleOk(t: Tables, role: Roles, a: int) {
    && a in role && a in t && |t[a]| == SLOTS && Placed(a)
    && match role[a]
       case Directory => true
       case TableInfo(pd) => IsSpace(role, pd) && InfoPage(t, pd) == a
       case Table(pd, d) => IsSpace(role, pd) && 1 <= d < 1023 && IsTable(t, pd, d) && Base(InfoWord(t, pd, d)) == a
       case Orphan => true
  }

  /** The invariant of all paging structures together. */
  ghost predicate Sound(t: Tables, role: Roles, frames: seq<int>)
    requires |frames| == PagePool.POOLS
  {
    && (forall a :: a in role ==> RoleOk(t, role, a))
    && forall pd :: IsSpace(role, pd) ==> SpaceOk(t, role, frames, pd)
  }

  lemma SpacePages(t: Tables, role: Roles, frames: seq<int>, pd: int)
    requires |frames| == PagePool.POOLS && Sound(t, role, frames) && IsSpace(role, pd)
    ensures Holds(t, role, pd, Directory) && Holds(t, role, InfoPage(t, pd), TableInfo(pd))
    ensures pd in t && |t[pd]| == SLOTS && pd in role
    ensures var info := InfoPage(t, pd);
      info in t && |t[info]| == SLOTS && info in role && info != pd && info == t[pd][1023]
  {
    assert SpaceOk(t, role, frames, pd);
  }

  function SetWord(t: Tables, a: int, i: int, x: int): Tables
    requires a in t && 0 <= i < |t[a]|
  {
    t[a := t[a][i := x]]
  }

  /** Lines 34-43 and 96-103 of map.c: enter a page into the table its slot already has. */
  function Enter(t: Tables, pd: int, p: int, entry: int): Tables {
    var d, info := p / SLOTS, InfoPage(t, pd);
    var a := Base(InfoWord(t, pd, d));
    if info in t && |t[info]| == SLOTS && a in t && |t[a]| == SLOTS && 0 <= d < SLOTS && a != info then
      SetWord(SetWord(t, info, d, InfoWord(t, pd, d) + 1), a, p % SLOTS, entry)
    else t
  }

  ghost predicate Mappable(t: Tables, role: Roles, frames: seq<int>, pd: int, p: int) {
    |frames| == PagePool.POOLS && Sound(t, role, frames) && IsSpace(role, pd) && FIRST_PAGE <= p < END_PAGE
  }

  /** Only page p of space pd changes its mapping from t to t'. */
  ghost predicate OnlyChanged(t: Tables, t': Tables, spaces: set<int>, pd: int, p: int, m: Mapping) {
    forall s, q :: s in spaces && 0 <= q < ALL_PAGES ==>
      Lookup(t', s, q) == if s == pd && q == p then m else Lookup(t, s, q)
  }

  /** From t to t' nothing changed but slot d of space pd: its word in the directory,
      its word in the info page, and the pages that are its table before or after. */
  ghost predicate SlotStep(t: Tables, t': Tables, role: Roles, role': Roles, pd: int, d: int) {
    && IsSpace(role, pd) && 1 <= d < 1023
    && (forall a :: a in role && role[a] != Table(pd, d) ==> a in role' && role'[a] == role[a])
    && (forall a :: a in role' && (a !in role || role[a] != role'[a]) ==> role'[a] == Table(pd, d))
    && (forall a :: a in t ==> a in t' && |t'[a]| == |t[a]|)
    && (forall a, i :: a in role && role[a] != Table(pd, d) && !(i == d && (a == pd || a == InfoPage(t, pd))) ==>
          Rd(t', a, i) == Rd(t, a, i))
  }

  lemma SamePage(t: Tables, t': Tables, a: int)
    requires a in t && a in t' && |t'[a]| == |t[a]|
    requires forall i :: 0 <= i < |t[a]| ==> Rd(t', a, i) == Rd(t, a, i)
    ensures t'[a] == t[a]
  {
    assert forall i :: 0 <= i < |t[a]| ==> Rd(t', a, i) == t'[a][i] && Rd(t, a, i) == t[a][i];
  }

  /** A slot step keeps every other slot of every space, and what it maps. */
  lemma SlotFrame(t: Tables, t': Tables, role: Roles, role': Roles, frames: seq<int>, pd: int, d: int, s: int, k: int)
    requires |frames| == PagePool.POOLS && SlotStep(t, t', role, role', pd, d)
    requires SpaceOk(t, role, frames, s) && SpaceOk(t, role, frames, pd) && 0 <= k < SLOTS
    requires s != pd || k != d
    ensures InfoPage(t', s) == InfoPage(t, s)
    ensures Rd(t', s, k) == Rd(t, s, k)
    ensures 1 <= k < 1023 ==> SlotOk(t', role', frames, s, k) && InfoWord(t', s, k) == InfoWord(t, s, k)
    ensures forall q :: q / SLOTS == k ==> Lookup(t', s, q) == Lookup(t, s, q)
  {
    assert Rd(t', s, 1023) == Rd(t, s, 1023);
    if 1 <= k < 1023 {
      assert SlotOk(t, role, frames, s, k);
      assert InfoWord(t', s, k) == InfoWord(t, s, k);
      if IsTable(t, s, k) {
        var a := Base(InfoWord(t, s, k));
        assert role[a] == Table(s, k);
        SamePage(t, t', a);
      }
    }
  }

  lemma SameSpaces(t: Tables, t': Tables, role: Roles, role': Roles, pd: int, d: int)
    requires SlotStep(t, t', role, role', pd, d)
    ensures Spaces(role') == Spaces(role)
  {
    forall a
      ensures a in Spaces(role') <==> a in Spaces(role)
    {
    }
  }

  /** The core of every operation below: rewriting one slot soundly keeps the whole. */
  lemma SlotStepSound(t: Tables, t': Tables, role: Roles, role': Roles, frames: seq<int>, pd: int, d: int)
    requires |frames| == PagePool.POOLS && Sound(t, role, frames) && SlotStep(t, t', role, role', pd, d)
    requires SlotOk(t', role', frames, pd, d)
    requires forall a :: a in role' && role'[a] == Table(pd, d) ==> RoleOk(t', role', a)
    ensures Sound(t', role', frames)
    ensures forall s, q :: IsSpace(role, s) && 0 <= q < ALL_PAGES && (s != pd || q / SLOTS != d) ==>
              Lookup(t', s, q) == Lookup(t, s, q)
    ensures Spaces(role') == Spaces(role)
  {
    assert SpaceOk(t, role, frames, pd);
    SameSpaces(t, t', role, role', pd, d);
    forall s | IsSpace(role', s)
      ensures SpaceOk(t', role', frames, s)
    {
      assert SpaceOk(t, role, frames, s);
      assert RoleOk(t, role, s) && RoleOk(t, role, InfoPage(t, s));
      SlotFrame(t, t', role, role', frames, pd, d, s, 1023);
      SlotFrame(t, t', role, role', frames, pd, d, s, 0);
      forall k | 1 <= k < 1023
        ensures SlotOk(t', role', frames, s, k)
      {
        if s != pd || k != d {
          SlotFrame(t, t', role, role', frames, pd, d, s, k);
        }
      }
    }
    forall a | a in role'
      ensures RoleOk(t', role', a)
    {
      if role'[a] != Table(pd, d) {
        assert RoleOk(t, role, a);
        if role[a].TableInfo? {
          assert SpaceOk(t, role, frames, role[a].space);
          SlotFrame(t, t', role, role', frames, pd, d, role[a].space, 1023);
        }
        if role[a].Table? {
          assert SpaceOk(t, role, frames, role[a].space);
          SlotFrame(t, t', role, role', frames, pd, d, role[a].space, role[a].slot);
        }
      }
    }
    forall s, q | IsSpace(role, s) && 0 <= q < ALL_PAGES && (s != pd || q / SLOTS != d)
      ensures Lookup(t', s, q) == Lookup(t, s, q)
    {
      assert SpaceOk(t, role, frames, s);
      SlotFrame(t, t', role, role', frames, pd, d, s, q / SLOTS);
    }
  }

  /** Only the mapping of page p changes within its slot. */
  ghost predicate OnlyInSlot(t: Tables, t': Tables, pd: int, p: int, m: Mapping) {
    forall q :: q / SLOTS == p / SLOTS ==> Lookup(t', pd, q) == if q == p then m else Lookup(t, pd, q)
  }

  /** No page is lost or resized, and pages outside the paging structures are untouched. */
  ghost predicate Kept(t: Tables, t': Tables, role: Roles) {
    forall b :: b in t ==> b in t' && |t'[b]| == |t[b]| && (b in role || t'[b] == t[b])
  }

  lemma EnterSlot(t: Tables, role: Roles, frames: seq<int>, pd: int, p: int, entry: int)
    requires |frames| == PagePool.POOLS && FIRST_PAGE <= p < END_PAGE
    requires SpaceOk(t, role, frames, pd) && RoleOk(t, role, pd)
    requires IsTable(t, pd, p / SLOTS) && Lookup(t, pd, p) == Unmapped
    requires RoleOk(t, role, Base(InfoWord(t, pd, p / SLOTS))) && Live(entry)
    ensures var t' := Enter(t, pd, p, entry);
      && SlotStep(t, t', role, role, pd, p / SLOTS)
      && SlotOk(t', role, frames, pd, p / SLOTS)
      && Base(InfoWord(t', pd, p / SLOTS)) == Base(InfoWord(t, pd, p / SLOTS))
      && InfoPage(t', pd) == InfoPage(t, pd) && IsTable(t', pd, p / SLOTS)
      && OnlyInSlot(t, t', pd, p, Small(entry))
      && Kept(t, t', role)
  {
    var t' := Enter(t, pd, p, entry);
    var d, info := p / SLOTS, InfoPage(t, pd);
    assert SlotOk(t, role, frames, pd, d);
    var w := InfoWord(t, pd, d);
    var a := Base(w);
    CountUpdate(t[a], p % SLOTS, entry);
    CountBound(t[a]);
    assert t'[a] == t[a][p % SLOTS := entry];
    assert t'[info] == t[info][d := w + 1];
    assert InfoWord(t', pd, d) == w + 1;
    assert Base(w + 1) == a;
  }

  lemma TableUnique(t: Tables, role: Roles, pd: int, d: int)
    requires forall a :: a in role ==> RoleOk(t, role, a)
    ensures forall a :: a in role && role[a] == Table(pd, d) ==> a == Base(InfoWord(t, pd, d))
  {
    forall a | a in role && role[a] == Table(pd, d)
      ensures a == Base(InfoWord(t, pd, d))
    {
      assert RoleOk(t, role, a);
    }
  }

  lemma EnterSound(t: Tables, role: Roles, frames: seq<int>, pd: int, p: int, entry: int)
    requires Mappable(t, role, frames, pd, p)
    requires IsTable(t, pd, p / SLOTS) && Lookup(t, pd, p) == Unmapped
    requires Live(entry)
    ensures Sound(Enter(t, pd, p, entry), role, frames)
    ensures OnlyChanged(t, Enter(t, pd, p, entry), Spaces(role), pd, p, Small(entry))
    ensures Kept(t, Enter(t, pd, p, entry), role)
  {
    assert SpaceOk(t, role, frames, pd) && SlotOk(t, role, frames, pd, p / SLOTS);
    EnterSlot(t, role, frames, pd, p, entry);
    TableUnique(t, role, pd, p / SLOTS);
    SlotStepSound(t, Enter(t, pd, p, entry), role, role, frames, pd, p / SLOTS);
  }

  /** Lines 48-61 and 105-118: page a of the pool becomes the table of an empty slot.
      The source does not clear it. */
  function EnterFresh(t: Tables, pd: int, p: int, entry: int, a: int, phys: int): Tables {
    var d, info := p / SLOTS, InfoPage(t, pd);
    if info in t && |t[info]| == SLOTS && pd in t && |t[pd]| == SLOTS && a in t && |t[a]| == SLOTS
       && 0 <= d < SLOTS && a != info && a != pd && pd != info then
      SetWord(SetWord(SetWord(t, info, d, a + 1), pd, d, phys + 7), a, p % SLOTS, entry)
    else t
  }

  lemma AlignedBits(k: int, flags: int)
    requires 0 <= flags < PAGE
    ensures (PAGE * k + flags) % PAGE == flags
    ensures Present(PAGE * k + flags) <==> Present(flags)
    ensures IsHuge(PAGE * k + flags) <==> IsHuge(flags)
  {
    assert (PAGE * k + flags) / 2 == 2048 * k + flags / 2;
    assert (PAGE * k + flags) / 128 == 32 * k + flags / 128;
    assert (32 * k + flags / 128) / 2 == 16 * k + flags / 256;
  }

  /** `page | flags` keeps both parts apart. */
  lemma AlignedWord(page: int, flags: int)
    requires page % PAGE == 0 && 0 <= flags < PAGE
    ensures Base(page + flags) == page && Low(page + flags) == flags
    ensures Present(page + flags) <==> Present(flags)
    ensures IsHuge(page + flags) <==> IsHuge(flags)
    ensures 0 <= page < ADDRESSES ==> 0 <= page + flags < ADDRESSES
  {
    AlignedBits(page / PAGE, flags);
    assert page == PAGE * (page / PAGE);
  }

  /** The two words that tie a table to its slot unpack to what was packed. */
  lemma FreshWords(frames: seq<int>, a: int)
    requires PagePool.FramesOk(frames) && PagePool.InPool(a)
    ensures Base(a + 1) == a && Low(a + 1) == 1
    ensures Present(PhysicalOf(frames, a) + 7) && !IsHuge(PhysicalOf(frames, a) + 7)
  {
    PagePool.PhysicalAligned(frames, a);
    AlignedWord(PhysicalOf(frames, a), 7);
    AlignedWord(a, 1);
  }

  lemma EnterFreshSlot(t: Tables, role: Roles, frames: seq<int>, pd: int, p: int, entry: int, a: int)
    requires |frames| == PagePool.POOLS && PagePool.FramesOk(frames) && FIRST_PAGE <= p < END_PAGE
    requires SpaceOk(t, role, frames, pd)
    requires Rd(t, pd, p / SLOTS) == 0 && Live(entry)
    requires Zero(t, a) && a !in role && PagePool.InPool(a)
    ensures var t', role' := EnterFresh(t, pd, p, entry, a, PhysicalOf(frames, a)), role[a := Table(pd, p / SLOTS)];
      && ((forall b :: b in role ==> role[b] != Table(pd, p / SLOTS)) ==> SlotStep(t, t', role, role', pd, p / SLOTS))
      && SlotOk(t', role', frames, pd, p / SLOTS)
      && InfoWord(t', pd, p / SLOTS) == a + 1 && IsTable(t', pd, p / SLOTS)
      && OnlyInSlot(t, t', pd, p, Small(entry))
      && Kept(t, t', role')
  {
    var t' := EnterFresh(t, pd, p, entry, a, PhysicalOf(frames, a));
    var d, info := p / SLOTS, InfoPage(t, pd);
    assert SlotOk(t, role, frames, pd, d);
    CountUpdate(t[a], p % SLOTS, entry);
    CountBound(t[a]);
    FreshWords(frames, a);
    assert t'[a] == t[a][p % SLOTS := entry];
    assert t'[info] == t[info][d := a + 1];
    assert t'[pd] == t[pd][d := PhysicalOf(frames, a) + 7];
  }

  lemma NoTable(t: Tables, role: Roles, pd: int, d: int)
    requires forall a :: a in role ==> RoleOk(t, role, a)
    requires !IsTable(t, pd, d)
    ensures forall a :: a in role ==> role[a] != Table(pd, d)
  {
    forall a | a in role
      ensures role[a] != Table(pd, d)
    {
      assert RoleOk(t, role, a);
    }
  }

  lemma EnterFreshSound(t: Tables, role: Roles, frames: seq<int>, pd: int, p: int, entry: int, a: int)
    requires Mappable(t, role, frames, pd, p) && PagePool.FramesOk(frames)
    requires Rd(t, pd, p / SLOTS) == 0 && Live(entry)
    requires Zero(t, a) && a !in role && PagePool.InPool(a)
    ensures var t', role' := EnterFresh(t, pd, p, entry, a, PhysicalOf(frames, a)), role[a := Table(pd, p / SLOTS)];
      && Sound(t', role', frames)
      && OnlyChanged(t, t', Spaces(role), pd, p, Small(entry))
      && Kept(t, t', role')
  {
    var t', role' := EnterFresh(t, pd, p, entry, a, PhysicalOf(frames, a)), role[a := Table(pd, p / SLOTS)];
    assert SpaceOk(t, role, frames, pd);
    NoTable(t, role, pd, p / SLOTS);
    EnterFreshSlot(t, role, frames, pd, p, entry, a);
    FreshWords(frames, a);
    SlotStepSound(t, t', role, role', frames, pd, p / SLOTS);
  }

  /** Lines 194-202: clear a live entry; the last one takes the table with it. */
  function Leave(t: Tables, pd: int, p: int): Tables {
    var d, info := p / SLOTS, InfoPage(t, pd);
    var w := InfoWord(t, pd, d);
    var a := Base(w);
    if info in t && |t[info]| == SLOTS && pd in t && |t[pd]| == SLOTS && a in t && |t[a]| == SLOTS
       && 0 <= d < SLOTS && a != info && a != pd && pd != info then
      var cleared := SetWord(t, a, p % SLOTS, 0);
      if Low(w - 1) != 0 then SetWord(cleared, info, d, w - 1)
      else SetWord(SetWord(cleared, pd, d, 0), info, d, 0)
    else t
  }

  /** The slot's count says whether the entry cleared was the last one. */
  ghost predicate IsLast(t: Tables, pd: int, p: int) {
    Low(InfoWord(t, pd, p / SLOTS)) == 1
  }

  /** Where a mapped page's entry is: facts every unmapping starts from. */
  lemma TableHeld(t: Tables, role: Roles, frames: seq<int>, pd: int, p: int)
    requires Mappable(t, role, frames, pd, p) && Lookup(t, pd, p).Small?
    ensures var a, w := Base(InfoWord(t, pd, p / SLOTS)), InfoWord(t, pd, p / SLOTS);
      && Holds(t, role, a, Table(pd, p / SLOTS)) && a != pd && a != InfoPage(t, pd)
      && 1 <= Low(w) <= SLOTS && (Low(w - 1) == 0 <==> IsLast(t, pd, p))
  {
    hide Count;
    assert SpaceOk(t, role, frames, pd) && SlotOk(t, role, frames, pd, p / SLOTS);
    CountBound(t[Base(InfoWord(t, pd, p / SLOTS))]);
  }

  lemma LeaveSlot(t: Tables, role: Roles, frames: seq<int>, pd: int, p: int)
    requires |frames| == PagePool.POOLS && FIRST_PAGE <= p < END_PAGE
    requires SpaceOk(t, role, frames, pd) && Lookup(t, pd, p).Small? && !IsLast(t, pd, p)
    requires RoleOk(t, role, Base(InfoWord(t, pd, p / SLOTS)))
    ensures var t' := Leave(t, pd, p);
      && SlotStep(t, t', role, role, pd, p / SLOTS)
      && SlotOk(t', role, frames, pd, p / SLOTS)
      && Base(InfoWord(t', pd, p / SLOTS)) == Base(InfoWord(t, pd, p / SLOTS))
      && IsTable(t', pd, p / SLOTS)
      && OnlyInSlot(t, t', pd, p, Unmapped)
      && Kept(t, t', role)
  {
    hide PhysicalOf, Count;
    var t' := Leave(t, pd, p);
    var d, info := p / SLOTS, InfoPage(t, pd);
    assert SlotOk(t, role, frames, pd, d);
    var w := InfoWord(t, pd, d);
    var a := Base(w);
    CountUpdate(t[a], p % SLOTS, 0);
    assert Low(w - 1) == Low(w) - 1 && Base(w - 1) == a;
    assert t'[a] == t[a][p % SLOTS := 0];
    assert t'[info] == t[info][d := w - 1];
  }

  lemma LeaveSound(t: Tables, role: Roles, frames: seq<int>, pd: int, p: int)
    requires Mappable(t, role, frames, pd, p) && Lookup(t, pd, p).Small? && !IsLast(t, pd, p)
    ensures Sound(Leave(t, pd, p), role, frames)
    ensures OnlyChanged(t, Leave(t, pd, p), Spaces(role), pd, p, Unmapped)
    ensures Kept(t, Leave(t, pd, p), role)
    ensures IsTable(Leave(t, pd, p), pd, p / SLOTS)
  {
    assert SpaceOk(t, role, frames, pd) && SlotOk(t, role, frames, pd, p / SLOTS);
    LeaveSlot(t, role, frames, pd, p);
    TableUnique(t, role, pd, p / SLOTS);
    SlotStepSound(t, Leave(t, pd, p), role, role, frames, pd, p / SLOTS);
  }

  lemma LeaveLastSlot(t: Tables, role: Roles, frames: seq<int>, pd: int, p: int)
    requires |frames| == PagePool.POOLS && FIRST_PAGE <= p < END_PAGE
    requires SpaceOk(t, role, frames, pd) && Lookup(t, pd, p).Small? && IsLast(t, pd, p)
    requires RoleOk(t, role, Base(InfoWord(t, pd, p / SLOTS)))
    ensures var t', a := Leave(t, pd, p), Base(InfoWord(t, pd, p / SLOTS));
      && SlotStep(t, t', role, role - {a}, pd, p / SLOTS)
      && SlotOk(t', role - {a}, frames, pd, p / SLOTS)
      && Holds(t, role, a, Table(pd, p / SLOTS)) && Zero(t', a)
      && Rd(t', pd, p / SLOTS) == 0
      && OnlyInSlot(t, t', pd, p, Unmapped)
      && Kept(t, t', role)
  {
    var t' := Leave(t, pd, p);
    var d, info := p / SLOTS, InfoPage(t, pd);
    assert SlotOk(t, role, frames, pd, d);
    var w := InfoWord(t, pd, d);
    var a := Base(w);
    CountUpdate(t[a], p % SLOTS, 0);
    assert t'[a] == t[a][p % SLOTS := 0];
    CountBound(t'[a]);
    assert Low(w - 1) == 0;
    assert t'[info] == t[info][d := 0] && t'[pd] == t[pd][d := 0];
    forall q | q / SLOTS == d && q != p
      ensures Lookup(t, pd, q) == Unmapped
    {
      assert t'[a][q % SLOTS] == t[a][q % SLOTS] == 0;
    }
  }

  lemma LeaveLastSound(t: Tables, role: Roles, frames: seq<int>, pd: int, p: int)
    requires Mappable(t, role, frames, pd, p) && Lookup(t, pd, p).Small? && IsLast(t, pd, p)
    ensures var a := Base(InfoWord(t, pd, p / SLOTS));
      && Sound(Leave(t, pd, p), role - {a}, frames)
      && OnlyChanged(t, Leave(t, pd, p), Spaces(role), pd, p, Unmapped)
      && Kept(t, Leave(t, pd, p), role)
      && Holds(t, role, a, Table(pd, p / SLOTS)) && Zero(Leave(t, pd, p), a)
      && Rd(Leave(t, pd, p), pd, p / SLOTS) == 0
  {
    assert SpaceOk(t, role, frames, pd) && SlotOk(t, role, frames, pd, p / SLOTS);
    LeaveLastSlot(t, role, frames, pd, p);
    TableUnique(t, role, pd, p / SLOTS);
    SlotStepSound(t, Leave(t, pd, p), role, role - {Base(InfoWord(t, pd, p / SLOTS))}, frames, pd, p / SLOTS);
  }

  /** Lines 72-78 and 172: a 4 MiB page comes and goes with the directory word alone. */
  lemma HugeSound(t: Tables, role: Roles, frames: seq<int>, pd: int, d: int, e: int)
    requires |frames| == PagePool.POOLS && Sound(t, role, frames) && IsSpace(role, pd) && 1 <= d < 1023
    requires !IsTable(t, pd, d)
    requires e == 0 || (Present(e) && IsHuge(e))
    requires pd in t && |t[pd]| == SLOTS
    ensures Sound(SetWord(t, pd, d, e), role, frames)
    ensures forall s, q :: IsSpace(role, s) && 0 <= q < ALL_PAGES ==>
              Lookup(SetWord(t, pd, d, e), s, q) ==
              if s == pd && q / SLOTS == d then if e == 0 then Unmapped else Large(e) else Lookup(t, s, q)
  {
    var t' := SetWord(t, pd, d, e);
    assert SpaceOk(t, role, frames, pd) && SlotOk(t, role, frames, pd, d);
    NoTable(t, role, pd, d);
    SlotStepSound(t, t', role, role, frames, pd, d);
  }

  ghost predicate LiveAt(s: seq<int>, lo: int, q: int) {
    lo <= q < lo + |s| && Present(s[q - lo])
  }

  /** The live entries of a table laid out from page lo on. */
  ghost function LivePages(s: seq<int>, lo: int): set<int> {
    set q | lo <= q < lo + |s| && LiveAt(s, lo, q)
  }

  lemma {:induction false} CountIsSize(s: seq<int>, lo: int)
    ensures Count(s) == |LivePages(s, lo)|
  {
    if s == [] {
      assert LivePages(s, lo) == {};
    } else {
      CountIsSize(s[1..], lo + 1);
      var rest := LivePages(s[1..], lo + 1);
      assert forall q :: lo + 1 <= q < lo + |s| ==> LiveAt(s[1..], lo + 1, q) == LiveAt(s, lo, q);
      assert LivePages(s, lo) == if Present(s[0]) then rest + {lo} else rest;
    }
  }

  ghost function MappedIn(t: Tables, pd: int, d: int): set<int> {
    set q | SLOTS * d <= q < SLOTS * d + SLOTS && Lookup(t, pd, q).Small?
  }

  /** What the info page's counts are for: a slot has a table exactly when some 4 KiB
      page of it is mapped, and the count is the number of those pages. */
  lemma CountIsMappings(t: Tables, role: Roles, frames: seq<int>, pd: int, d: int)
    requires |frames| == PagePool.POOLS && Sound(t, role, frames) && IsSpace(role, pd) && 1 <= d < 1023
    ensures IsTable(t, pd, d) <==> MappedIn(t, pd, d) != {}
    ensures IsTable(t, pd, d) ==> Low(InfoWord(t, pd, d)) == |MappedIn(t, pd, d)|
  {
    assert SpaceOk(t, role, frames, pd) && SlotOk(t, role, frames, pd, d);
    if IsTable(t, pd, d) {
      var s := t[Base(InfoWord(t, pd, d))];
      CountIsSize(s, SLOTS * d);
      assert MappedIn(t, pd, d) == LivePages(s, SLOTS * d);
    }
  }

  lemma BaseAligned(w: int)
    requires 0 <= w < ADDRESSES
    ensures FrameOk(Base(w))
  {
  }

  lemma LeafLive(t: Tables, role: Roles, frames: seq<int>, pd: int, p: int)
    requires |frames| == PagePool.POOLS && SpaceOk(t, role, frames, pd) && 0 <= p < ALL_PAGES && Lookup(t, pd, p).Small?
    ensures 1 <= p / SLOTS < 1023 && Live(Lookup(t, pd, p).word)
  {
    hide PhysicalOf, Count;
    assert p / SLOTS != 0 && p / SLOTS != 1023;
    assert SlotOk(t, role, frames, pd, p / SLOTS);
  }

  lemma MappedFrame(t: Tables, role: Roles, frames: seq<int>, pd: int, p: int)
    requires |frames| == PagePool.POOLS && Sound(t, role, frames) && IsSpace(role, pd) && 0 <= p < ALL_PAGES
    requires Lookup(t, pd, p).Small?
    ensures FIRST_PAGE <= p < END_PAGE
    ensures FrameOk(Base(Lookup(t, pd, p).word))
  {
    assert SpaceOk(t, role, frames, pd);
    hide Lookup, SpaceOk, Base, Sound;
    LeafLive(t, role, frames, pd, p);
    BaseAligned(Lookup(t, pd, p).word);
  }
}
