/** What the two loops of src/arch/x86/mm/map.c do to a page that is not as they take it to
    be: mapping a page that is mapped (lines 96-103), unmapping one that is not (185-202).
    Neither looks at the entry before it counts. */
module SlotCounts {
  import opened PhysicalMemory
  import opened PageTables
  import PagePool

  /** The slot's bookkeeping is in order, and page p alone has changed its mapping, to m. */
  ghost predicate Done(t: Tables, t': Tables, role: Roles, frames: seq<int>, pd: int, p: int, m: Mapping)
    requires |frames| == PagePool.POOLS
  {
    SlotOk(t', role, frames, pd, p / SLOTS) && OnlyInSlot(t, t', pd, p, m)
  }

  /** A slot that has a table: its words, and how many entries of it are live. */
  ghost predicate HasTable(t: Tables, role: Roles, frames: seq<int>, pd: int, p: int) {
    Mappable(t, role, frames, pd, p) && IsTable(t, pd, p / SLOTS)
  }

  lemma TableOf(t: Tables, role: Roles, frames: seq<int>, pd: int, p: int)
    requires HasTable(t, role, frames, pd, p)
    ensures var d, w := p / SLOTS, InfoWord(t, pd, p / SLOTS); var a := Base(w);
      && SpaceOk(t, role, frames, pd) && RoleOk(t, role, pd) && RoleOk(t, role, a)
      && a in t && |t[a]| == SLOTS && a != pd && a != InfoPage(t, pd) && Clean(t[a])
      && Low(w) == Count(t[a]) && 1 <= Low(w) <= SLOTS
      && (forall q :: q / SLOTS == d ==> Lookup(t, pd, q) == if Present(t[a][q % SLOTS]) then Small(t[a][q % SLOTS]) else Unmapped)
  {
    hide Count;
    assert SpaceOk(t, role, frames, pd) && SlotOk(t, role, frames, pd, p / SLOTS);
    CountBound(t[Base(InfoWord(t, pd, p / SLOTS))]);
  }

  lemma EnterPresent(t: Tables, role: Roles, frames: seq<int>, pd: int, p: int, entry: int)
    requires HasTable(t, role, frames, pd, p) && Live(entry) && Lookup(t, pd, p) != Unmapped
    ensures var t', a := Enter(t, pd, p, entry), Base(InfoWord(t, pd, p / SLOTS));
      && a in t' && Low(InfoWord(t', pd, p / SLOTS)) == Count(t'[a]) + 1 && !SlotOk(t', role, frames, pd, p / SLOTS)
  {
    hide PhysicalOf, Count, Lookup;
    TableOf(t, role, frames, pd, p);
    var t' := Enter(t, pd, p, entry);
    var d, info := p / SLOTS, InfoPage(t, pd);
    var w := InfoWord(t, pd, d);
    var a := Base(w);
    SpacePages(t, role, frames, pd);
    CountUpdate(t[a], p % SLOTS, entry);
    assert Present(t[a][p % SLOTS]);
    assert t'[a] == t[a][p % SLOTS := entry] && t'[info] == t[info][d := w + 1];
    assert InfoWord(t', pd, d) == w + 1 && Base(w + 1) == a && Low(w + 1) == Low(w) + 1;
  }

  /** Entering a page counts it once more; that is right if and only if it was absent. */
  lemma EnterExact(t: Tables, role: Roles, frames: seq<int>, pd: int, p: int, entry: int)
    requires HasTable(t, role, frames, pd, p) && Live(entry)
    ensures Done(t, Enter(t, pd, p, entry), role, frames, pd, p, Small(entry)) <==> Lookup(t, pd, p) == Unmapped
    ensures Lookup(t, pd, p) != Unmapped ==>
      var t', a := Enter(t, pd, p, entry), Base(InfoWord(t, pd, p / SLOTS));
      a in t' && Low(InfoWord(t', pd, p / SLOTS)) == Count(t'[a]) + 1
  {
    TableOf(t, role, frames, pd, p);
    if Lookup(t, pd, p) == Unmapped {
      EnterSlot(t, role, frames, pd, p, entry);
    } else {
      EnterPresent(t, role, frames, pd, p, entry);
    }
  }

  lemma LeaveAbsent(t: Tables, role: Roles, frames: seq<int>, pd: int, p: int)
    requires HasTable(t, role, frames, pd, p) && Lookup(t, pd, p) == Unmapped && !IsLast(t, pd, p)
    ensures var t', a := Leave(t, pd, p), Base(InfoWord(t, pd, p / SLOTS));
      && a in t' && Low(InfoWord(t', pd, p / SLOTS)) == Count(t'[a]) - 1 && !SlotOk(t', role, frames, pd, p / SLOTS)
  {
    hide PhysicalOf, Count, Lookup;
    TableOf(t, role, frames, pd, p);
    var t' := Leave(t, pd, p);
    var d, info := p / SLOTS, InfoPage(t, pd);
    var w := InfoWord(t, pd, d);
    var a := Base(w);
    SpacePages(t, role, frames, pd);
    assert t[a][p % SLOTS] == 0;
    assert Low(w - 1) == Low(w) - 1 && Base(w - 1) == a;
    assert t'[a] == t[a] && t'[info] == t[info][d := w - 1];
    assert InfoWord(t', pd, d) == w - 1;
  }

  lemma LeaveAbsentLast(t: Tables, role: Roles, frames: seq<int>, pd: int, p: int)
    requires HasTable(t, role, frames, pd, p) && Lookup(t, pd, p) == Unmapped && IsLast(t, pd, p)
    ensures exists q :: q / SLOTS == p / SLOTS && q != p && Lookup(t, pd, q).Small? && Lookup(Leave(t, pd, p), pd, q) == Unmapped
  {
    hide PhysicalOf, Count;
    TableOf(t, role, frames, pd, p);
    SpacePages(t, role, frames, pd);
    var d, a := p / SLOTS, Base(InfoWord(t, pd, p / SLOTS));
    CountBound(t[a]);
    var i :| 0 <= i < SLOTS && Present(t[a][i]);
    var q := SLOTS * d + i;
    assert q / SLOTS == d && q % SLOTS == i;
    assert Lookup(t, pd, q).Small?;
    assert Rd(Leave(t, pd, p), pd, d) == 0;
  }

  /** Unmapping takes one off the count; that is right if and only if the page was mapped.
      Otherwise the count falls short, or, where it was 1, the table goes with the entry of
      the one page that is mapped. */
  lemma LeaveExact(t: Tables, role: Roles, frames: seq<int>, pd: int, p: int)
    requires HasTable(t, role, frames, pd, p)
    ensures var role' := if IsLast(t, pd, p) then role - {Base(InfoWord(t, pd, p / SLOTS))} else role;
      Done(t, Leave(t, pd, p), role', frames, pd, p, Unmapped) <==> Lookup(t, pd, p).Small?
    ensures Lookup(t, pd, p) == Unmapped && !IsLast(t, pd, p) ==>
      var t', a := Leave(t, pd, p), Base(InfoWord(t, pd, p / SLOTS));
      a in t' && Low(InfoWord(t', pd, p / SLOTS)) == Count(t'[a]) - 1
    ensures Lookup(t, pd, p) == Unmapped && IsLast(t, pd, p) ==>
      exists q :: q / SLOTS == p / SLOTS && q != p && Lookup(t, pd, q).Small? && Lookup(Leave(t, pd, p), pd, q) == Unmapped
  {
    TableOf(t, role, frames, pd, p);
    if Lookup(t, pd, p).Small? {
      if IsLast(t, pd, p) {
        LeaveLastSlot(t, role, frames, pd, p);
      } else {
        LeaveSlot(t, role, frames, pd, p);
      }
    } else if IsLast(t, pd, p) {
      LeaveAbsentLast(t, role, frames, pd, p);
    } else {
      LeaveAbsent(t, role, frames, pd, p);
    }
  }
}
