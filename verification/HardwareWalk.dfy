/** What the processor makes of the paging structures: the 32-bit walk of section
    4.3 of the Intel SDM, volume 3A, which follows physical addresses only and never
    sees the table-info page mm_translate goes through. */
module HardwareWalk {
  import opened PhysicalMemory
  import opened PageTables
  import PagePool
  import SpaceTables

  lemma PlacedInjective(frames: seq<int>, a: int, b: int)
    requires PagePool.FramesOk(frames) && Placed(a) && Placed(b) && a != b
    ensures PhysicalOf(frames, a) != PhysicalOf(frames, b)
  {
    if PagePool.InPool(a) { PagePool.PhysicalAligned(frames, a); }
    if PagePool.InPool(b) { PagePool.PhysicalAligned(frames, b); }
    if PagePool.InPool(a) && PagePool.InPool(b) {
      PagePool.PhysicalInjective(frames, a, b);
    }
  }

  /** The 1024 words at physical page x, if a paging structure lies there. */
  ghost function AtPhysical(t: Tables, role: Roles, frames: seq<int>, x: int): seq<int>
    requires |frames| == PagePool.POOLS
  {
    if exists a :: a in role && a in t && PhysicalOf(frames, a) == x then
      var a :| a in role && a in t && PhysicalOf(frames, a) == x; t[a]
    else []
  }

  ghost function Entry(s: seq<int>, i: int): int {
    if 0 <= i < |s| then s[i] else 0
  }

  ghost function Walk(t: Tables, role: Roles, frames: seq<int>, cr3: int, page: int): Mapping
    requires |frames| == PagePool.POOLS
  {
    var e := Entry(AtPhysical(t, role, frames, cr3 - cr3 % 4096), page / 1024);
    if e % 2 == 0 then Unmapped
    else if e / 128 % 2 == 1 then Large(e)
    else
      var w := Entry(AtPhysical(t, role, frames, e - e % 4096), page % 1024);
      if w % 2 == 1 then Small(w) else Unmapped
  }

  lemma AtPhysicalIs(t: Tables, role: Roles, frames: seq<int>, a: int)
    requires PagePool.FramesOk(frames) && Sound(t, role, frames) && a in role
    ensures a in t && AtPhysical(t, role, frames, PhysicalOf(frames, a)) == t[a]
  {
    assert RoleOk(t, role, a);
    var b :| b in role && b in t && PhysicalOf(frames, b) == PhysicalOf(frames, a)
      && AtPhysical(t, role, frames, PhysicalOf(frames, a)) == t[b];
    assert RoleOk(t, role, b);
    if b != a {
      PlacedInjective(frames, a, b);
    }
  }

  lemma WalkStep(t: Tables, role: Roles, frames: seq<int>, pd: int, page: int)
    requires |frames| == PagePool.POOLS && 0 <= page < ALL_PAGES
    requires pd in t && |t[pd]| == SLOTS && AtPhysical(t, role, frames, Base(Rd(t, pd, 0))) == t[pd]
    requires IsTable(t, pd, page / SLOTS) ==>
      var a := Base(InfoWord(t, pd, page / SLOTS));
      a in t && |t[a]| == SLOTS && AtPhysical(t, role, frames, Base(Rd(t, pd, page / SLOTS))) == t[a]
    ensures Walk(t, role, frames, Rd(t, pd, 0), page) == Lookup(t, pd, page)
  {
    hide AtPhysical;
  }

  lemma PhysicalPageAligned(frames: seq<int>, a: int)
    requires PagePool.FramesOk(frames) && Placed(a)
    ensures PhysicalOf(frames, a) % PAGE == 0
  {
    if PagePool.InPool(a) { PagePool.PhysicalAligned(frames, a); }
  }

  lemma DirectoryFound(t: Tables, role: Roles, frames: seq<int>, pd: int)
    requires PagePool.FramesOk(frames) && Sound(t, role, frames) && IsSpace(role, pd)
    ensures pd in t && |t[pd]| == SLOTS && AtPhysical(t, role, frames, Base(Rd(t, pd, 0))) == t[pd]
  {
    hide AtPhysical, PhysicalOf;
    assert SpaceOk(t, role, frames, pd);
    assert RoleOk(t, role, pd);
    PhysicalPageAligned(frames, pd);
    AtPhysicalIs(t, role, frames, pd);
  }

  lemma TableFound(t: Tables, role: Roles, frames: seq<int>, pd: int, d: int)
    requires PagePool.FramesOk(frames) && Sound(t, role, frames) && IsSpace(role, pd)
    requires 0 <= d < SLOTS
    ensures IsTable(t, pd, d) ==>
      var a := Base(InfoWord(t, pd, d));
      a in t && |t[a]| == SLOTS && AtPhysical(t, role, frames, Base(Rd(t, pd, d))) == t[a]
  {
    hide AtPhysical, PhysicalOf;
    assert SpaceOk(t, role, frames, pd);
    if IsTable(t, pd, d) {
      assert SlotOk(t, role, frames, pd, d);
      var a := Base(InfoWord(t, pd, d));
      assert RoleOk(t, role, a);
      AtPhysicalIs(t, role, frames, a);
      PhysicalPageAligned(frames, a);
      AlignedWord(PhysicalOf(frames, a), 7);
    }
  }

  /** With CR3 loaded from slot 0 of the directory, as mm_set does, the processor
      sees exactly the mapping mm_translate reports, for every page of every space. */
  lemma WalkAgrees(t: Tables, role: Roles, frames: seq<int>, pd: int, page: int)
    requires PagePool.FramesOk(frames) && Sound(t, role, frames) && IsSpace(role, pd)
    requires 0 <= page < ALL_PAGES
    ensures Walk(t, role, frames, Rd(t, pd, 0), page) == Lookup(t, pd, page)
  {
    hide Sound, Walk, Lookup;
    DirectoryFound(t, role, frames, pd);
    TableFound(t, role, frames, pd, page / SLOTS);
    WalkStep(t, role, frames, pd, page);
  }

  /** EnterFresh takes whatever the fresh page held: the rest of the space keeps its
      mapping exactly when that page had no other live entry. */
  lemma FreshTableMustBeClear(t: Tables, role: Roles, frames: seq<int>, pd: int, p: int, entry: int, a: int)
    requires Mappable(t, role, frames, pd, p) && PagePool.FramesOk(frames)
    requires Rd(t, pd, p / SLOTS) == 0
    requires a in t && |t[a]| == SLOTS && a !in role && PagePool.InPool(a)
    ensures (forall q :: 0 <= q < ALL_PAGES && q != p ==>
               Lookup(EnterFresh(t, pd, p, entry, a, PhysicalOf(frames, a)), pd, q) == Lookup(t, pd, q))
       <==> forall i :: 0 <= i < SLOTS && i != p % SLOTS ==> !Present(t[a][i])
  {
    var t' := EnterFresh(t, pd, p, entry, a, PhysicalOf(frames, a));
    var d, info := p / SLOTS, InfoPage(t, pd);
    assert SpaceOk(t, role, frames, pd);
    FreshWords(frames, a);
    assert t'[info] == t[info][d := a + 1];
    assert t'[pd] == t[pd][d := PhysicalOf(frames, a) + 7];
    assert t'[a] == t[a][p % SLOTS := entry];
    forall q | 0 <= q < ALL_PAGES && q / SLOTS == d && q != p
      ensures Lookup(t, pd, q) == Unmapped
      ensures Lookup(t', pd, q) == if Present(t[a][q % SLOTS]) then Small(t[a][q % SLOTS]) else Unmapped
    {
    }
    if forall q :: 0 <= q < ALL_PAGES && q != p ==> Lookup(t', pd, q) == Lookup(t, pd, q) {
      forall i | 0 <= i < SLOTS && i != p % SLOTS
        ensures !Present(t[a][i])
      {
        var q := SLOTS * d + i;
        assert q / SLOTS == d && q % SLOTS == i;
      }
    }
    if forall i :: 0 <= i < SLOTS && i != p % SLOTS ==> !Present(t[a][i]) {
      forall q | 0 <= q < ALL_PAGES && q != p
        ensures Lookup(t', pd, q) == Lookup(t, pd, q)
      {
        if q / SLOTS == d {
          assert q % SLOTS != p % SLOTS;
        } else if 1 <= q / SLOTS < 1023 && IsTable(t, pd, q / SLOTS) {
          assert SlotOk(t, role, frames, pd, q / SLOTS);
        }
      }
    }
  }

  /** mm_destroy_space hands such a page back. When a space that mapped some page m is
      destroyed, and its directory page pd is then made the table of an empty slot of
      another space, that space sees pages nobody mapped - but for the one entry of pd that
      the new mapping overwrites. */
  lemma DestroyedPageSpoils(t: Tables, role: Roles, frames: seq<int>, pd: int, m: int, s: int, p: int, entry: int)
    requires PagePool.FramesOk(frames) && Sound(t, role, frames) && IsSpace(role, pd) && PagePool.InPool(pd)
    requires 0 <= m < ALL_PAGES && Lookup(t, pd, m) != Unmapped
    requires IsSpace(role, s) && s != pd && FIRST_PAGE <= p < END_PAGE && Rd(t, s, p / SLOTS) == 0 && p % SLOTS != m / SLOTS
    ensures exists q :: 0 <= q < ALL_PAGES && q != p && Lookup(EnterFresh(t, s, p, entry, pd, PhysicalOf(frames, pd)), s, q) != Lookup(t, s, q)
  {
    SpacePages(t, role, frames, pd);
    assert Present(t[pd][m / SLOTS]);
    hide Sound, Lookup, EnterFresh, PhysicalOf;
    SpaceTables.AbandonedSound(t, role, frames, pd);
    FreshTableMustBeClear(t, SpaceTables.Abandoned(role, pd, InfoPage(t, pd)), frames, s, p, entry, pd);
  }
}
