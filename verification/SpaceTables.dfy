/** Whole spaces: creation, destruction and kernel cloning (src/arch/x86/mm/space.c:85-149)
    as steps on the paging structures. */
module SpaceTables {
  import opened PhysicalMemory
  import opened PageTables
  import PagePool

  function ZeroPage(): (s: seq<int>)
    ensures |s| == SLOTS && forall i :: 0 <= i < SLOTS ==> s[i] == 0
  {
    seq(SLOTS, _ => 0)
  }

  /** Lines 95-108: an empty directory in page pd, with page info for its table information. */
  function NewSpace(t: Tables, pd: int, phys: int, info: int): Tables {
    t[pd := ZeroPage()[0 := phys][1023 := info]][info := ZeroPage()]
  }

  lemma OldRoleKept(t: Tables, role: Roles, frames: seq<int>, a: int, t': Tables, role': Roles)
    requires |frames| == PagePool.POOLS && Sound(t, role, frames) && a in role
    requires forall b :: b in role ==> b in role' && role'[b] == role[b]
    requires forall b :: b in role && b in t ==> b in t' && t'[b] == t[b]
    ensures RoleOk(t', role', a)
  {
    hide PhysicalOf, Count, SlotOk;
    assert RoleOk(t, role, a);
    if role[a].TableInfo? {
      assert SpaceOk(t, role, frames, role[a].space);
    }
    if role[a].Table? {
      assert SpaceOk(t, role, frames, role[a].space);
    }
  }

  /** A space whose pages are as they were is sound and maps what it mapped. */
  lemma OldSpaceKept(t: Tables, role: Roles, frames: seq<int>, s: int, t': Tables, role': Roles)
    requires |frames| == PagePool.POOLS && SpaceOk(t, role, frames, s)
    requires forall a :: a in role ==> a in role' && role'[a] == role[a]
    requires forall a :: a in role && a in t ==> a in t' && t'[a] == t[a]
    ensures SpaceOk(t', role', frames, s)
    ensures forall q :: 0 <= q < ALL_PAGES ==> Lookup(t', s, q) == Lookup(t, s, q)
  {
    hide PhysicalOf, Count;
    forall d | 1 <= d < 1023
      ensures SlotOk(t', role', frames, s, d)
    {
      assert SlotOk(t, role, frames, s, d);
    }
    forall q | 0 <= q < ALL_PAGES
      ensures Lookup(t', s, q) == Lookup(t, s, q)
    {
      if 1 <= q / SLOTS < 1023 {
        assert SlotOk(t, role, frames, s, q / SLOTS);
      }
    }
  }

  lemma SpaceAdded(t: Tables, role: Roles, frames: seq<int>, pd: int, info: int, t': Tables)
    requires |frames| == PagePool.POOLS && Sound(t, role, frames) && pd !in role && info !in role && pd != info
    requires forall a :: a in t ==> a in t' && |t'[a]| == |t[a]| && (a == pd || a == info || t'[a] == t[a])
    requires SpaceOk(t', role[pd := Directory][info := TableInfo(pd)], frames, pd) && Placed(pd) && Placed(info)
    requires InfoPage(t', pd) == info
    ensures var role' := role[pd := Directory][info := TableInfo(pd)];
      && Sound(t', role', frames) && Spaces(role') == Spaces(role) + {pd}
      && (forall s, q :: s in Spaces(role) && 0 <= q < ALL_PAGES ==> Lookup(t', s, q) == Lookup(t, s, q))
      && Kept(t, t', role')
  {
    hide PhysicalOf, Lookup, SlotOk, Count;
    var role' := role[pd := Directory][info := TableInfo(pd)];
    assert Spaces(role') == Spaces(role) + {pd};
    forall s | s in Spaces(role)
      ensures SpaceOk(t', role', frames, s)
      ensures forall q :: 0 <= q < ALL_PAGES ==> Lookup(t', s, q) == Lookup(t, s, q)
    {
      assert SpaceOk(t, role, frames, s);
      OldSpaceKept(t, role, frames, s, t', role');
    }
    forall a | a in role
      ensures RoleOk(t', role', a)
    {
      OldRoleKept(t, role, frames, a, t', role');
    }
  }

  lemma NewSpaceOk(t: Tables, role: Roles, frames: seq<int>, pd: int, info: int)
    requires PagePool.FramesOk(frames) && PagePool.InPool(pd) && PagePool.InPool(info) && pd != info
    ensures var t', role' := NewSpace(t, pd, PhysicalOf(frames, pd), info), role[pd := Directory][info := TableInfo(pd)];
      && SpaceOk(t', role', frames, pd)
      && forall q :: 0 <= q < ALL_PAGES ==> Lookup(t', pd, q) == Unmapped
  {
    PagePool.PhysicalAligned(frames, pd);
  }

  lemma NewSpaceSound(t: Tables, role: Roles, frames: seq<int>, pd: int, info: int)
    requires PagePool.FramesOk(frames) && Sound(t, role, frames)
    requires PagePool.InPool(pd) && PagePool.InPool(info) && pd != info && pd !in role && info !in role
    requires pd in t && info in t && |t[pd]| == |t[info]| == SLOTS
    ensures var t', role' := NewSpace(t, pd, PhysicalOf(frames, pd), info), role[pd := Directory][info := TableInfo(pd)];
      && Sound(t', role', frames) && Spaces(role') == Spaces(role) + {pd}
      && (forall q :: 0 <= q < ALL_PAGES ==> Lookup(t', pd, q) == Unmapped)
      && (forall s, q :: s in Spaces(role) && 0 <= q < ALL_PAGES ==> Lookup(t', s, q) == Lookup(t, s, q))
      && Kept(t, t', role')
  {
    NewSpaceOk(t, role, frames, pd, info);
    SpaceAdded(t, role, frames, pd, info, NewSpace(t, pd, PhysicalOf(frames, pd), info));
  }

  /** Lines 113-116 free the directory and the info page and nothing else: the space's
      tables stay behind, in use and out of reach. */
  ghost function Abandoned(role: Roles, pd: int, info: int): Roles {
    map a | a in role && a != pd && a != info ::
      if role[a].Table? && role[a].space == pd then Orphan else role[a]
  }

  lemma AbandonedSound(t: Tables, role: Roles, frames: seq<int>, pd: int)
    requires |frames| == PagePool.POOLS && Sound(t, role, frames) && IsSpace(role, pd)
    ensures var role' := Abandoned(role, pd, InfoPage(t, pd));
      && Sound(t, role', frames) && Spaces(role') == Spaces(role) - {pd}
      && role'.Keys == role.Keys - {pd, InfoPage(t, pd)}
      && (forall d :: 1 <= d < 1023 && IsTable(t, pd, d) ==>
            Base(InfoWord(t, pd, d)) in role' && role'[Base(InfoWord(t, pd, d))] == Orphan)
      && !Zero(t, pd)
  {
    var info := InfoPage(t, pd);
    var role' := Abandoned(role, pd, info);
    assert SpaceOk(t, role, frames, pd);
    forall s | IsSpace(role', s)
      ensures SpaceOk(t, role', frames, s)
    {
      assert SpaceOk(t, role, frames, s);
      forall d | 1 <= d < 1023
        ensures SlotOk(t, role', frames, s, d)
      {
        assert SlotOk(t, role, frames, s, d);
      }
    }
    forall a | a in role'
      ensures RoleOk(t, role', a)
    {
      assert RoleOk(t, role, a);
    }
    forall d | 1 <= d < 1023 && IsTable(t, pd, d)
      ensures Base(InfoWord(t, pd, d)) in role' && role'[Base(InfoWord(t, pd, d))] == Orphan
    {
      assert SlotOk(t, role, frames, pd, d);
    }
  }

  /** Lines 121-126: all slots but the bookkeeping ones, and the table information, cleared. */
  function Cleared(t: Tables, pd: int): Tables
    requires pd in t && |t[pd]| == SLOTS
  {
    t[pd := [t[pd][0]] + ZeroPage()[..1022] + [t[pd][1023]]][InfoPage(t, pd) := ZeroPage()]
  }

  /** The tables a cleared space had stay in use, out of reach. */
  ghost function Dropped(role: Roles, pd: int): Roles {
    map a | a in role :: if role[a].Table? && role[a].space == pd then Orphan else role[a]
  }

  /** Clearing one space leaves the others as they were. */
  lemma OtherSpaceKept(t: Tables, role: Roles, frames: seq<int>, pd: int, s: int)
    requires |frames| == PagePool.POOLS && SpaceOk(t, role, frames, pd) && SpaceOk(t, role, frames, s) && s != pd
    ensures var t', role' := Cleared(t, pd), Dropped(role, pd);
      && SpaceOk(t', role', frames, s) && InfoPage(t', s) == InfoPage(t, s)
      && (forall d :: 1 <= d < 1023 ==> Rd(t', s, d) == Rd(t, s, d) && InfoWord(t', s, d) == InfoWord(t, s, d))
      && forall q :: 0 <= q < ALL_PAGES ==> Lookup(t', s, q) == Lookup(t, s, q)
  {
    hide PhysicalOf, Count;
    var t', role' := Cleared(t, pd), Dropped(role, pd);
    assert t'[s] == t[s] && t'[InfoPage(t, s)] == t[InfoPage(t, s)];
    forall d | 1 <= d < 1023
      ensures SlotOk(t', role', frames, s, d)
    {
      assert SlotOk(t, role, frames, s, d);
    }
    forall q | 0 <= q < ALL_PAGES
      ensures Lookup(t', s, q) == Lookup(t, s, q)
    {
      if 1 <= q / SLOTS < 1023 {
        assert SlotOk(t, role, frames, s, q / SLOTS);
      }
    }
  }

  lemma ClearedSpace(t: Tables, role: Roles, frames: seq<int>, pd: int)
    requires |frames| == PagePool.POOLS && SpaceOk(t, role, frames, pd)
    ensures var t', role' := Cleared(t, pd), Dropped(role, pd);
      && SpaceOk(t', role', frames, pd) && InfoPage(t', pd) == InfoPage(t, pd)
      && (forall d :: 1 <= d < 1023 ==> Rd(t', pd, d) == 0)
      && forall q :: 0 <= q < ALL_PAGES ==> Lookup(t', pd, q) == Unmapped
  {
    hide PhysicalOf, Count;
    var t', role' := Cleared(t, pd), Dropped(role, pd);
    assert t'[pd][0] == t[pd][0] && t'[pd][1023] == t[pd][1023];
    assert forall d :: 1 <= d < 1023 ==> Rd(t', pd, d) == 0;
    assert forall d :: InfoWord(t', pd, d) == 0;
  }

  lemma ClearedKept(t: Tables, role: Roles, pd: int)
    requires pd in t && |t[pd]| == SLOTS && pd in role && InfoPage(t, pd) in role && InfoPage(t, pd) in t
    requires |t[InfoPage(t, pd)]| == SLOTS
    ensures Kept(t, Cleared(t, pd), role) && Spaces(Dropped(role, pd)) == Spaces(role)
  {
  }

  /** A space cleared maps nothing, no other space changes, and exactly its tables are
      orphaned. */
  lemma ClearedSound(t: Tables, role: Roles, frames: seq<int>, pd: int)
    requires |frames| == PagePool.POOLS && Sound(t, role, frames) && IsSpace(role, pd) && pd in t && |t[pd]| == SLOTS
    ensures var t', role' := Cleared(t, pd), Dropped(role, pd);
      && Sound(t', role', frames) && Spaces(role') == Spaces(role) && role'.Keys == role.Keys && Kept(t, t', role)
      && (forall s, q :: s in Spaces(role) && 0 <= q < ALL_PAGES ==>
            Lookup(t', s, q) == if s == pd then Unmapped else Lookup(t, s, q))
      && (forall d :: 1 <= d < 1023 ==> Rd(t', pd, d) == 0)
  {
    hide PhysicalOf, Count, Lookup, SlotOk, Cleared;
    var t', role' := Cleared(t, pd), Dropped(role, pd);
    assert SpaceOk(t, role, frames, pd);
    ClearedSpace(t, role, frames, pd);
    forall s | s in Spaces(role) && s != pd
      ensures SpaceOk(t', role', frames, s) && InfoPage(t', s) == InfoPage(t, s)
      ensures forall d :: 1 <= d < 1023 ==> Rd(t', s, d) == Rd(t, s, d) && InfoWord(t', s, d) == InfoWord(t, s, d)
      ensures forall q :: 0 <= q < ALL_PAGES ==> Lookup(t', s, q) == Lookup(t, s, q)
    {
      assert SpaceOk(t, role, frames, s);
      OtherSpaceKept(t, role, frames, pd, s);
    }
    ClearedKept(t, role, pd);
    forall a | a in role'
      ensures RoleOk(t', role', a)
    {
      assert RoleOk(t, role, a);
    }
  }

  /** Lines 137-145: slot d of dst gets a table of its own, page a, with the entries of
      src's table and its count. */
  function CloneTable(t: Tables, dst: int, src: int, d: int, a: int, phys: int): Tables {
    var info, table := InfoPage(t, dst), Base(InfoWord(t, src, d));
    if 0 <= d < SLOTS && info in t && |t[info]| == SLOTS && dst in t && |t[dst]| == SLOTS && table in t
       && a != info && a != dst && info != dst then
      SetWord(SetWord(t, info, d, a + Low(InfoWord(t, src, d))), dst, d, phys + 7)[a := t[table]]
    else t
  }

  lemma CloneSlotSound(t: Tables, role: Roles, frames: seq<int>, dst: int, src: int, d: int, a: int)
    requires PagePool.FramesOk(frames) && SpaceOk(t, role, frames, src) && SpaceOk(t, role, frames, dst) && src != dst
    requires 1 <= d < 1023 && IsTable(t, src, d) && Rd(t, dst, d) == 0
    requires PagePool.InPool(a) && a !in role && a in t && |t[a]| == SLOTS
    requires forall b :: b in role ==> role[b] != Table(dst, d)
    ensures var t', role' := CloneTable(t, dst, src, d, a, PhysicalOf(frames, a)), role[a := Table(dst, d)];
      && SlotStep(t, t', role, role', dst, d) && SlotOk(t', role', frames, dst, d)
      && Base(InfoWord(t', dst, d)) == a && IsTable(t', dst, d)
      && (forall q :: q / SLOTS == d ==> Lookup(t', dst, q) == Lookup(t, src, q))
      && Kept(t, t', role')
  {
    hide Count;
    var t' := CloneTable(t, dst, src, d, a, PhysicalOf(frames, a));
    var info, w := InfoPage(t, dst), InfoWord(t, src, d);
    assert SlotOk(t, role, frames, src, d) && SlotOk(t, role, frames, dst, d);
    CountBound(t[Base(w)]);
    FreshWords(frames, a);
    AlignedWord(a, Low(w));
    assert t'[info] == t[info][d := a + Low(w)];
    assert t'[dst] == t[dst][d := PhysicalOf(frames, a) + 7];
    assert t'[a] == t[Base(w)];
  }

  lemma CloneTableSound(t: Tables, role: Roles, frames: seq<int>, dst: int, src: int, d: int, a: int)
    requires PagePool.FramesOk(frames) && Sound(t, role, frames) && IsSpace(role, src) && IsSpace(role, dst) && src != dst
    requires 1 <= d < 1023 && IsTable(t, src, d) && Rd(t, dst, d) == 0
    requires PagePool.InPool(a) && a !in role && a in t && |t[a]| == SLOTS
    ensures var t', role' := CloneTable(t, dst, src, d, a, PhysicalOf(frames, a)), role[a := Table(dst, d)];
      && Sound(t', role', frames) && Spaces(role') == Spaces(role) && Kept(t, t', role')
      && forall s, q :: s in Spaces(role) && 0 <= q < ALL_PAGES ==>
           Lookup(t', s, q) == if s == dst && q / SLOTS == d then Lookup(t, src, q) else Lookup(t, s, q)
  {
    var t', role' := CloneTable(t, dst, src, d, a, PhysicalOf(frames, a)), role[a := Table(dst, d)];
    assert SpaceOk(t, role, frames, src) && SpaceOk(t, role, frames, dst);
    NoTable(t, role, dst, d);
    CloneSlotSound(t, role, frames, dst, src, d, a);
    SlotStepSound(t, t', role, role', frames, dst, d);
  }

  lemma SourceTable(t: Tables, role: Roles, frames: seq<int>, src: int, d: int)
    requires |frames| == PagePool.POOLS && Sound(t, role, frames) && IsSpace(role, src)
    requires 1 <= d < 1023 && IsTable(t, src, d)
    ensures Holds(t, role, Base(InfoWord(t, src, d)), Table(src, d)) && InfoWord(t, src, d) != 0
  {
    assert SpaceOk(t, role, frames, src) && SlotOk(t, role, frames, src, d);
  }

  lemma KernelKept(t: Tables, role: Roles, frames: seq<int>, pd: int, kernel: int)
    requires |frames| == PagePool.POOLS && Sound(t, role, frames) && IsSpace(role, pd) && IsSpace(role, kernel) && pd != kernel
    ensures IsSpace(Abandoned(role, pd, InfoPage(t, pd)), kernel) && InfoPage(t, pd) != kernel
  {
    assert SpaceOk(t, role, frames, pd);
  }

  /** A slot without a table maps its pages all alike. */
  lemma PlainSlot(t: Tables, pd: int, d: int)
    requires !IsTable(t, pd, d)
    ensures forall q :: q / SLOTS == d ==>
      Lookup(t, pd, q) == if Present(Rd(t, pd, d)) then Large(Rd(t, pd, d)) else Unmapped
  {
  }
}
