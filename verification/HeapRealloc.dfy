/** heap_realloc, src/sys/heap.c:248-336: resizing a used block in place. */
module HeapRealloc {
  import opened Bits
  import opened HeapBlocks

  /** What a resize puts in the place of block i and, for k == 2, the one behind;
      Panics where the source does. */
  datatype Change = Change(k: nat, ns: seq<Block>) | Unchanged | Panics

  function Shrink(bs: seq<Block>, i: nat, count: int): Change
    requires i < |bs|
  {
    var b := bs[i];
    var rest := Block(b.addr + HDR + count, b.size - count - HDR, false);
    if b.size - count < HDR then Unchanged
    else if i + 1 == |bs| then Change(1, [Block(b.addr, count, true)])
    else if bs[i + 1].used then Change(1, [Block(b.addr, count, true), rest])
    else Change(2, [Block(b.addr, count, true), rest.(size := rest.size + HDR + bs[i + 1].size)])
  }

  /** Growing needs a free block behind. The first test compares diff - 16 unsigned, so
      it fails for diff below 16. */
  function Grow(bs: seq<Block>, i: nat, count: int): Change
    requires i < |bs|
  {
    var b, diff := bs[i], count - bs[i].size;
    if i + 1 == |bs| || bs[i + 1].used then Panics
    else if diff >= bs[i + 1].size && HDR <= diff <= bs[i + 1].size + HDR then Change(2, [Block(b.addr, count, true)])
    else if diff < bs[i + 1].size then
      Change(2, [Block(b.addr, count, true), Block(b.addr + HDR + count, bs[i + 1].size - diff, false)])
    else Panics
  }

  function Resize(bs: seq<Block>, i: nat, count: int): Change
    requires i < |bs|
  {
    if count < bs[i].size then Shrink(bs, i, count) else Grow(bs, i, count)
  }

  /** The list a resize leaves. */
  function Realloc(bs: seq<Block>, i: nat, count: int): seq<Block>
    requires i < |bs|
  {
    var c := Resize(bs, i, count);
    if c.Change? && i + c.k <= |bs| then Splice(bs, i, c.k, c.ns) else bs
  }

  /** In place means with the room there is: a resize succeeds exactly when the block
      shrinks, or the block behind is free and either larger than the growth, or, taken
      whole, no smaller than it less a header; the growth being 16 at least in that case. */
  lemma ReallocSucceeds(bs: seq<Block>, i: nat, count: int)
    requires i < |bs|
    ensures !Resize(bs, i, count).Panics? <==>
      count < bs[i].size
      || (i + 1 < |bs| && !bs[i + 1].used
          && (count - bs[i].size < bs[i + 1].size || HDR <= count - bs[i].size <= bs[i + 1].size + HDR))
  {
  }

  /** The space a resize loses sight of. */
  function Lost(bs: seq<Block>, i: nat, count: int): int
    requires i < |bs|
  {
    var diff := count - bs[i].size;
    if diff < 0 then (if i + 1 == |bs| && -diff >= HDR then -diff else 0)
    else if i + 1 < |bs| && diff >= bs[i + 1].size then bs[i + 1].size + HDR - diff
    else 0
  }

  lemma ResizeInPlace(bs: seq<Block>, lo: int, hi: int, i: nat, count: int)
    requires Laid(bs, lo, hi) && NoTwoFree(bs) && i < |bs| && bs[i].used && 0 <= count
    ensures var c := Resize(bs, i, count); c.Change? ==>
      && InPlace(bs, hi, i, c.k, c.ns) && c.k <= 2 && i + c.k <= |bs| && |c.ns| > 0 && c.ns[0].used
      && (|c.ns| == 2 && i + c.k < |bs| ==> c.ns[1].used || bs[i + c.k].used)
      && Lost(bs, i, count) == (bs[i].size + HDR + if c.k == 2 then bs[i + 1].size + HDR else 0)
                             - (c.ns[0].size + HDR + if |c.ns| == 2 then c.ns[1].size + HDR else 0)
    ensures Resize(bs, i, count).Unchanged? ==> Lost(bs, i, count) == 0
  {
    assert i + 1 < |bs| ==> bs[i].addr + HDR + bs[i].size <= bs[i + 1].addr;
    assert i + 2 < |bs| ==> bs[i + 1].addr + HDR + bs[i + 1].size <= bs[i + 2].addr && (bs[i + 1].used || bs[i + 2].used);
  }

  /** Every successful resize keeps the invariants. The space accounted for drops by at
      most a header where a block is taken whole, is constant for the other resizes - and
      drops by all that is given back when the last block shrinks, since the source never
      links the remainder in. */
  lemma ReallocKeeps(bs: seq<Block>, lo: int, hi: int, i: nat, count: int)
    requires Laid(bs, lo, hi) && NoTwoFree(bs) && i < |bs| && bs[i].used && 0 <= count && !Resize(bs, i, count).Panics?
    ensures Laid(Realloc(bs, i, count), lo, hi) && NoTwoFree(Realloc(bs, i, count))
    ensures Total(Realloc(bs, i, count)) == Total(bs) - Lost(bs, i, count)
  {
    ResizeInPlace(bs, lo, hi, i, count);
    hide Laid, NoTwoFree, InPlace, Splice, Total, Resize, Lost;
    var c := Resize(bs, i, count);
    if c.Change? {
      SpliceKeeps(bs, lo, hi, i, c.k, c.ns);
    }
  }

  // ---- the writes

  /** Word by word: block it cut to count bytes with a new free block behind it, linked in
      before next. The words of a header at dead, which is given up, are left open. */
  ghost predicate CutOf(m: Mem, m': Mem, it: int, count: int, newb: int, size: int, next: int, dead: int) {
    forall a :: (dead <= a < dead + HDR && !(newb <= a < newb + HDR)) || Rd(m', a) ==
      if a == newb then FlagWord(false)
      else if a == newb + 4 then size
      else if a == newb + 8 then it
      else if a == newb + 12 then next
      else if a == it + 4 then count
      else if a == it + 12 then newb
      else if next != 0 && a == next + 8 then newb
      else Rd(m, a)
  }

  lemma CutOthers(m: Mem, m': Mem, bs: seq<Block>, lo: int, hi: int, i: nat, k: nat, count: int, newb: int, size: int, dead: int)
    requires Laid(bs, lo, hi) && 1 <= k <= 2 && i + k <= |bs|
    requires bs[i].addr + HDR <= newb && bs[i].addr + HDR <= dead
    requires i + k < |bs| ==> newb + HDR <= bs[i + k].addr && dead + HDR <= bs[i + k].addr
    requires CutOf(m, m', bs[i].addr, count, newb, size, NextAddr(bs, i + k - 1), dead)
    ensures OthersSame(m, m', bs, i, k)
  {
    hide FlagWord, Rd;
    forall j | 0 <= j < |bs| && (j < i || j > i + k)
      ensures SameHeader(m, m', bs[j].addr)
    {
      assert j < i ==> bs[j].addr + HDR + bs[j].size <= bs[i].addr;
      assert j > i + k ==> bs[i + k].addr + HDR + bs[i + k].size <= bs[j].addr;
    }
  }

  lemma CutSpells(m: Mem, m': Mem, bs: seq<Block>, lo: int, hi: int, i: nat, k: nat, count: int, newb: int, size: int, dead: int)
    requires Spells(m, bs) && Laid(bs, lo, hi) && 1 <= k <= 2 && i + k <= |bs| && bs[i].used
    requires bs[i].addr + HDR <= newb && bs[i].addr + HDR <= dead
    requires i + k < |bs| ==> newb + HDR <= bs[i + k].addr && dead + HDR <= bs[i + k].addr
    requires CutOf(m, m', bs[i].addr, count, newb, size, NextAddr(bs, i + k - 1), dead)
    ensures Spells(m', Splice(bs, i, k, [Block(bs[i].addr, count, true), Block(newb, size, false)]))
  {
    hide FlagWord, Rd;
    assert HeaderIs(m, bs, i);
    if i + k < |bs| { assert HeaderIs(m, bs, i + k); }
    Apart(bs, lo, hi, i);
    CutOthers(m, m', bs, lo, hi, i, k, count, newb, size, dead);
    SpliceTwo(m, m', bs, i, k, Block(bs[i].addr, count, true), Block(newb, size, false));
  }

  /** Lines 260-264: a header for what the block gives back. */
  function NewRest(m: Mem, it: int, count: int): Mem {
    var newb := it + HDR + count;
    m[newb + 4 := Size(m, it) - count - HDR][newb + 8 := it][newb := HEAP_MAGIC][it + 4 := count]
  }

  /** Lines 260-272: the cut of a shrink, when there is a block behind. */
  function ShrinkCut(m: Mem, it: int, count: int): Mem {
    var newb, m1 := it + HDR + count, NewRest(m, it, count);
    var m2 := m1[newb + 12 := Next(m1, it)];
    var m3 := m2[it + 12 := newb];
    if Next(m3, newb) != 0 then m3[Next(m3, newb) + 8 := newb] else m3
  }

  /** Lines 275-285: join the new block with the free one behind it. */
  function ShrinkJoin(m: Mem, newb: int): Mem {
    var next := Next(m, newb);
    var m1 := m[newb + 4 := Size(m, newb) + HDR + Size(m, next)];
    var m2 := m1[newb + 12 := Next(m1, next)];
    var m3 := if Next(m2, next) != 0 then m2[Next(m2, next) + 8 := newb] else m2;
    m3[next := Flags(m3, next) - HEAP_MAGIC]
  }

  /** Lines 260-264 and 287: the last block. Its own next word is not written. */
  function ShrinkLast(m: Mem, it: int, count: int): Mem {
    NewRest(m, it, count)[it + HDR + count + 12 := 0]
  }

  function ShrinkWrites(m: Mem, it: int, count: int): Mem {
    if Size(m, it) - count < HDR then m
    else if Next(NewRest(m, it, count), it) == 0 then ShrinkLast(m, it, count)
    else
      var m1 := ShrinkCut(m, it, count);
      if !IsUsed(Flags(m1, Next(m1, it + HDR + count))) then ShrinkJoin(m1, it + HDR + count) else m1
  }

  lemma ShrinkCutIs(m: Mem, it: int, count: int)
    requires var next := Next(m, it); 0 <= count && count + HDR <= Size(m, it) && it + HDR + Size(m, it) <= next
    ensures CutOf(m, ShrinkCut(m, it, count), it, count, it + HDR + count, Size(m, it) - count - HDR, Next(m, it), it + HDR + count)
  {
  }

  lemma ShrinkJoinIs(m: Mem, b: int)
    requires var n := Next(m, b); b + HDR <= n && (Next(m, n) != 0 ==> n + HDR <= Next(m, n))
    ensures MergeOf(m, ShrinkJoin(m, b), b, Next(m, b))
  {
  }

  lemma ShrinkLastSpells(m: Mem, bs: seq<Block>, lo: int, hi: int, i: nat, count: int)
    requires Spells(m, bs) && Laid(bs, lo, hi) && i + 1 == |bs| && bs[i].used && 0 <= count && count + HDR <= bs[i].size
    ensures Spells(ShrinkLast(m, bs[i].addr, count), Splice(bs, i, 1, [Block(bs[i].addr, count, true)]))
  {
    var it := bs[i].addr;
    assert HeaderIs(m, bs, i);
    Apart(bs, lo, hi, i);
    var m' := ShrinkLast(m, it, count);
    assert forall a :: a == it + 4 || a < it + HDR + count ==> Rd(m', a) == if a == it + 4 then count else Rd(m, a);
    hide FlagWord, Rd, ShrinkLast;
    SpliceOne(m, m', bs, i, 1, Block(it, count, true));
  }

  /** The two blocks a shrink makes of block b. */
  predicate CutBlocks(was: Block, count: int, b: Block, rest: Block) {
    b == Block(was.addr, count, true) && rest == Block(was.addr + HDR + count, was.size - count - HDR, false)
  }

  lemma CutConfined(m: Mem, m': Mem, bs: seq<Block>, i: nat, k: nat, count: int, newb: int, size: int, dead: int, from: int, to: int)
    requires 1 <= k && i + k <= |bs| && from <= newb && newb + HDR <= to && from <= dead && dead + HDR <= to
    requires CutOf(m, m', bs[i].addr, count, newb, size, NextAddr(bs, i + k - 1), dead)
    ensures Confined(m, m', bs, from, to)
  {
    hide Rd, FlagWord;
    forall a
      ensures Rd(m', a) == Rd(m, a) || InHeaders(bs, a) || from <= a < to
    {
      assert a == bs[i].addr + 4 || a == bs[i].addr + 12 ==> HeaderWord(bs[i], a);
      if i + k < |bs| {
        assert a == bs[i + k].addr + 8 ==> HeaderWord(bs[i + k], a);
      }
    }
  }

  lemma ShrinkCutSpells(m: Mem, bs: seq<Block>, lo: int, hi: int, i: nat, count: int, b: Block, rest: Block)
    requires Spells(m, bs) && Laid(bs, lo, hi) && i + 1 < |bs| && bs[i].used && 0 <= count && count + HDR <= bs[i].size
    requires CutBlocks(bs[i], count, b, rest)
    ensures Spells(ShrinkCut(m, bs[i].addr, count), Splice(bs, i, 1, [b, rest])) && Laid(Splice(bs, i, 1, [b, rest]), lo, hi)
    ensures Confined(m, ShrinkCut(m, bs[i].addr, count), bs, rest.addr, bs[i].addr + HDR + bs[i].size)
  {
    var it, newb := bs[i].addr, rest.addr;
    assert HeaderIs(m, bs, i);
    Apart(bs, lo, hi, i);
    assert it + HDR + bs[i].size <= bs[i + 1].addr;
    ShrinkCutIs(m, it, count);
    CutSpells(m, ShrinkCut(m, it, count), bs, lo, hi, i, 1, count, newb, rest.size, newb);
    SpliceLaid(bs, lo, hi, i, 1, [b, rest]);
    CutConfined(m, ShrinkCut(m, it, count), bs, i, 1, count, newb, rest.size, newb, newb, it + HDR + bs[i].size);
  }

  function JoinIfFree(m: Mem, newb: int): Mem {
    if IsUsed(Flags(m, Next(m, newb))) then m else ShrinkJoin(m, newb)
  }

  lemma ShrinkPath(m: Mem, it: int, count: int)
    requires 0 <= count && count + HDR <= Size(m, it) && Next(m, it) != 0
    ensures ShrinkWrites(m, it, count) == JoinIfFree(ShrinkCut(m, it, count), it + HDR + count)
  {
    assert Next(NewRest(m, it, count), it) == Next(m, it);
    hide NewRest, ShrinkCut, ShrinkJoin, IsUsed, Flags, Next;
  }

  function ShrunkList(bs: seq<Block>, i: nat, b: Block, rest: Block): seq<Block>
    requires i + 1 < |bs|
  {
    if bs[i + 1].used then Splice(bs, i, 1, [b, rest])
    else Splice(bs, i, 2, [b, Block(rest.addr, rest.size + HDR + bs[i + 1].size, rest.used)])
  }

  /** The two readings of the branch at line 275, on the list and in memory. */
  lemma ShrinkCases(m: Mem, bs: seq<Block>, i: nat, count: int, b: Block, rest: Block)
    requires i + 1 < |bs| && 0 <= count && count + HDR <= bs[i].size && CutBlocks(bs[i], count, b, rest)
    requires Size(m, bs[i].addr) == bs[i].size && Next(m, bs[i].addr) != 0
    ensures Realloc(bs, i, count) == ShrunkList(bs, i, b, rest)
    ensures ShrinkWrites(m, bs[i].addr, count) == JoinIfFree(ShrinkCut(m, bs[i].addr, count), rest.addr)
  {
    ShrinkPath(m, bs[i].addr, count);
    hide ShrinkWrites, JoinIfFree, ShrinkCut, Splice, Flags, Next;
  }

  lemma LinkedOn(m: Mem, bs: seq<Block>, lo: int, hi: int, i: nat)
    requires Spells(m, bs) && Laid(bs, lo, hi) && i + 1 < |bs|
    ensures Size(m, bs[i].addr) == bs[i].size && Next(m, bs[i].addr) == bs[i + 1].addr > 0
  {
    assert HeaderIs(m, bs, i);
  }

  /** Which way the shrink goes on after the cut. */
  lemma JoinTest(m: Mem, cs: seq<Block>, i: nat)
    requires Spells(m, cs) && i + 1 < |cs|
    ensures IsUsed(Flags(m, Next(m, cs[i].addr))) == cs[i + 1].used
  {
    assert HeaderIs(m, cs, i) && HeaderIs(m, cs, i + 1);
    UsedWord(cs[i + 1].used);
  }

  lemma JoinTestCut(m: Mem, cs: seq<Block>, bs: seq<Block>, i: nat, b: Block, rest: Block)
    requires i + 1 < |bs| && cs == Splice(bs, i, 1, [b, rest]) && Spells(m, cs)
    ensures IsUsed(Flags(m, Next(m, rest.addr))) == bs[i + 1].used
  {
    hide Spells;
    SpliceIndex(bs, i, 1, [b, rest]);
    JoinTest(m, cs, i + 1);
  }

  lemma JoinStep(m: Mem, bs: seq<Block>, lo: int, hi: int, i: nat)
    requires Spells(m, bs) && Laid(bs, lo, hi) && i + 1 < |bs|
    ensures Spells(ShrinkJoin(m, bs[i].addr), Merge(bs, i)) && Confined(m, ShrinkJoin(m, bs[i].addr), bs, 0, 0)
  {
    assert HeaderIs(m, bs, i) && HeaderIs(m, bs, i + 1);
    hide ShrinkJoin, FlagWord;
    Apart(bs, lo, hi, i);
    ShrinkJoinIs(m, bs[i].addr);
    MergeWords(m, ShrinkJoin(m, bs[i].addr), bs, lo, hi, i);
    MergeConfined(m, ShrinkJoin(m, bs[i].addr), bs, i);
  }

  lemma ConfinedChain(m: Mem, m1: Mem, m2: Mem, bs: seq<Block>, cs: seq<Block>, c: Block, from: int, to: int)
    requires Confined(m, m1, bs, from, to) && Confined(m1, m2, cs, 0, 0) && from <= c.addr && c.addr + HDR <= to
    requires forall a :: InHeaders(cs, a) ==> InHeaders(bs, a) || HeaderWord(c, a)
    ensures Confined(m, m2, bs, from, to)
  {
    hide Rd, InHeaders;
  }

  lemma MergeOfSplice(bs: seq<Block>, i: nat, b: Block, c: Block)
    requires i + 1 < |bs|
    ensures Merge(Splice(bs, i, 1, [b, c]), i + 1) == Splice(bs, i, 2, [b, Block(c.addr, c.size + HDR + bs[i + 1].size, c.used)])
  {
    var cs := Splice(bs, i, 1, [b, c]);
    assert cs[..i + 1] == bs[..i] + [b] && cs[i + 3..] == bs[i + 2..];
  }

  lemma HeadersOfSplice(bs: seq<Block>, i: nat, b: Block, c: Block)
    requires i < |bs| && b.addr == bs[i].addr
    ensures forall a :: InHeaders(Splice(bs, i, 1, [b, c]), a) ==> InHeaders(bs, a) || HeaderWord(c, a)
  {
    var cs := Splice(bs, i, 1, [b, c]);
    SpliceIndex(bs, i, 1, [b, c]);
    forall a | InHeaders(cs, a)
      ensures InHeaders(bs, a) || HeaderWord(c, a)
    {
      var k :| 0 <= k < |cs| && HeaderWord(cs[k], a);
      assert k <= i ==> HeaderWord(bs[k], a);
      assert k > i + 1 ==> HeaderWord(bs[k - 1], a);
    }
  }

  /** The cut list cs joined at the new block rest with the free block behind it. */
  lemma ShrinkJoined(m: Mem, m1: Mem, bs: seq<Block>, cs: seq<Block>, lo: int, hi: int, i: nat, b: Block, rest: Block, from: int, to: int)
    requires i + 1 < |bs| && cs == Splice(bs, i, 1, [b, rest]) && b.addr == bs[i].addr
    requires Spells(m1, cs) && Laid(cs, lo, hi) && Confined(m, m1, bs, from, to)
    requires from <= rest.addr && rest.addr + HDR <= to
    ensures var m2 := ShrinkJoin(m1, rest.addr);
      && Spells(m2, Splice(bs, i, 2, [b, Block(rest.addr, rest.size + HDR + bs[i + 1].size, rest.used)]))
      && Confined(m, m2, bs, from, to)
  {
    hide ShrinkJoin, Rd, FlagWord, Laid, Spells, Merge, Confined, InHeaders;
    SpliceIndex(bs, i, 1, [b, rest]);
    JoinStep(m1, cs, lo, hi, i + 1);
    MergeOfSplice(bs, i, b, rest);
    HeadersOfSplice(bs, i, b, rest);
    ConfinedChain(m, m1, ShrinkJoin(m1, rest.addr), bs, cs, rest, from, to);
  }

  lemma ShrinkBranch(m: Mem, m1: Mem, bs: seq<Block>, lo: int, hi: int, i: nat, b: Block, rest: Block, from: int, to: int)
    requires i + 1 < |bs| && b.addr == bs[i].addr && from <= rest.addr && rest.addr + HDR <= to
    requires Spells(m1, Splice(bs, i, 1, [b, rest])) && Laid(Splice(bs, i, 1, [b, rest]), lo, hi) && Confined(m, m1, bs, from, to)
    ensures Spells(JoinIfFree(m1, rest.addr), ShrunkList(bs, i, b, rest)) && Confined(m, JoinIfFree(m1, rest.addr), bs, from, to)
  {
    hide ShrinkJoin, Rd, FlagWord, IsUsed, Laid, Spells, Splice, Merge, Confined, Flags, Next;
    JoinTestCut(m1, Splice(bs, i, 1, [b, rest]), bs, i, b, rest);
    if !bs[i + 1].used {
      ShrinkJoined(m, m1, bs, Splice(bs, i, 1, [b, rest]), lo, hi, i, b, rest, from, to);
    }
  }

  lemma ShrinkTail(m: Mem, bs: seq<Block>, lo: int, hi: int, i: nat, count: int, b: Block, rest: Block)
    requires Spells(m, bs) && Laid(bs, lo, hi) && i + 1 < |bs| && bs[i].used && 0 <= count && count + HDR <= bs[i].size
    requires CutBlocks(bs[i], count, b, rest)
    ensures Spells(ShrinkWrites(m, bs[i].addr, count), Realloc(bs, i, count))
    ensures Confined(m, ShrinkWrites(m, bs[i].addr, count), bs, rest.addr, bs[i].addr + HDR + bs[i].size)
  {
    hide ShrinkCut, JoinIfFree, ShrunkList, Laid, Spells, Splice, Confined, Realloc, ShrinkWrites, Flags, Size, Next;
    LinkedOn(m, bs, lo, hi, i);
    ShrinkCases(m, bs, i, count, b, rest);
    ShrinkCutSpells(m, bs, lo, hi, i, count, b, rest);
    ShrinkBranch(m, ShrinkCut(m, bs[i].addr, count), bs, lo, hi, i, b, rest, rest.addr, bs[i].addr + HDR + bs[i].size);
  }

  /** A shrink: the list is as specified, and the payload that stays is not written. */
  lemma ShrinkSpells(m: Mem, bs: seq<Block>, lo: int, hi: int, i: nat, count: int)
    requires Spells(m, bs) && Laid(bs, lo, hi) && i < |bs| && bs[i].used && 0 <= count < bs[i].size
    ensures Spells(ShrinkWrites(m, bs[i].addr, count), Realloc(bs, i, count))
    ensures Confined(m, ShrinkWrites(m, bs[i].addr, count), bs, bs[i].addr + HDR + count, bs[i].addr + HDR + bs[i].size)
  {
    var it, newb := bs[i].addr, bs[i].addr + HDR + count;
    assert HeaderIs(m, bs, i);
    if bs[i].size - count >= HDR {
      if i + 1 == |bs| {
        ShrinkLastSpells(m, bs, lo, hi, i, count);
        assert HeaderWord(bs[i], it + 4);
      } else {
        ShrinkTail(m, bs, lo, hi, i, count, Block(it, count, true), Block(newb, bs[i].size - count - HDR, false));
      }
    }
  }

  // ---- growing

  function XorMagic(f: int): int { Xor(f, HEAP_MAGIC, 32) }

  /** The magic is odd, so the last bit always changes. */
  lemma XorMagicChanges(f: int)
    ensures XorMagic(f) != f && XorMagic(HEAP_MAGIC) == 0
  {
    hide Xor;
    XorSelf(HEAP_MAGIC, 32);
    XorOdd(f, HEAP_MAGIC, 32);
  }

  /** Lines 300-306: the block behind is taken whole. */
  function GrowWhole(m: Mem, it: int, count: int): Mem {
    var next := Next(m, it);
    var m1 := m[it + 12 := Next(m, next)];
    var m2 := if Next(m1, it) != 0 then m1[Next(m1, it) + 8 := it] else m1;
    m2[next := XorMagic(Flags(m2, next))][it + 4 := count]
  }

  /** Lines 312-324, in order: a new header behind the grown block, in front of, over or
      behind the header it replaces. */
  function GrowSplit(m: Mem, it: int, count: int): Mem {
    var next, newb, diff := Next(m, it), it + HDR + count, count - Size(m, it);
    var m1 := m[newb + 8 := it];
    var m2 := m1[newb + 12 := Next(m1, next)];
    var m3 := if Next(m2, newb) != 0 then m2[Next(m2, newb) + 8 := newb] else m2;
    var m4 := m3[it + 12 := newb];
    var m5 := m4[next := XorMagic(Flags(m4, next))];
    m5[newb + 4 := Size(m5, next) - diff][it + 4 := count][newb := HEAP_MAGIC]
  }

  /** The new header does not disturb the fields of the old one before they are read: the
      two are apart, the same, or meet where it does no harm. The last case is the accident
      that the word read for the size has the right value. */
  predicate HeadersClear(next: int, newb: int, size: int, it: int) {
    newb + HDR <= next || newb == next || newb >= next + 8 || (newb == next - 4 && size == it)
  }

  lemma GrowSplitIs(m: Mem, it: int, count: int)
    requires var next, newb := Next(m, it), it + HDR + count;
      && 0 <= count && it + HDR <= next && HeadersClear(next, newb, Size(m, next), it)
      && (Next(m, next) != 0 ==> next + HDR <= Next(m, next) && newb + HDR <= Next(m, next))
    ensures CutOf(m, GrowSplit(m, it, count), it, count, it + HDR + count,
                  Size(m, Next(m, it)) - (count - Size(m, it)), Next(m, Next(m, it)), Next(m, it))
  {
    hide XorMagic;
  }

  /** Word by word: block it, of count bytes, takes over the block n. */
  ghost predicate TakeOf(m: Mem, m': Mem, it: int, count: int, n: int) {
    var nn := Next(m, n);
    forall a :: Rd(m', a) ==
      if a == it + 4 then count
      else if a == it + 12 then nn
      else if a == n then XorMagic(Flags(m, n))
      else if nn != 0 && a == nn + 8 then it
      else Rd(m, a)
  }

  lemma GrowWholeIs(m: Mem, it: int, count: int)
    requires var n := Next(m, it); it + HDR <= n && (Next(m, n) != 0 ==> n + HDR <= Next(m, n))
    ensures TakeOf(m, GrowWhole(m, it, count), it, count, Next(m, it))
  {
    hide XorMagic;
  }

  lemma LinkedTwo(m: Mem, bs: seq<Block>, lo: int, hi: int, i: nat)
    requires Spells(m, bs) && Laid(bs, lo, hi) && i + 1 < |bs|
    ensures var it, n := bs[i].addr, bs[i + 1].addr;
      && 0 < it && it + HDR + bs[i].size <= n && Size(m, it) == bs[i].size && Next(m, it) == n
      && Size(m, n) == bs[i + 1].size && Flags(m, n) == FlagWord(bs[i + 1].used) && Next(m, n) == NextAddr(bs, i + 1)
      && (i + 2 < |bs| ==> n + HDR + bs[i + 1].size <= bs[i + 2].addr)
  {
    assert HeaderIs(m, bs, i) && HeaderIs(m, bs, i + 1);
  }

  lemma TakeConfined(m: Mem, m': Mem, bs: seq<Block>, i: nat, count: int)
    requires Spells(m, bs) && i + 1 < |bs| && TakeOf(m, m', bs[i].addr, count, bs[i + 1].addr)
    ensures Confined(m, m', bs, 0, 0)
  {
    hide FlagWord, Rd, XorMagic;
    assert HeaderIs(m, bs, i + 1);
    forall a | Rd(m', a) != Rd(m, a)
      ensures InHeaders(bs, a)
    {
      assert HeaderWord(bs[i], a) || HeaderWord(bs[i + 1], a) || (i + 2 < |bs| && HeaderWord(bs[i + 2], a));
    }
  }

  lemma TakeSpells(m: Mem, m': Mem, bs: seq<Block>, lo: int, hi: int, i: nat, count: int)
    requires Spells(m, bs) && Laid(bs, lo, hi) && i + 1 < |bs| && bs[i].used
    requires TakeOf(m, m', bs[i].addr, count, bs[i + 1].addr)
    ensures Spells(m', Splice(bs, i, 2, [Block(bs[i].addr, count, true)])) && Confined(m, m', bs, 0, 0)
  {
    hide FlagWord, Rd, XorMagic;
    assert HeaderIs(m, bs, i) && HeaderIs(m, bs, i + 1);
    if i + 2 < |bs| { assert HeaderIs(m, bs, i + 2); }
    Apart(bs, lo, hi, i);
    SpliceOne(m, m', bs, i, 2, Block(bs[i].addr, count, true));
    TakeConfined(m, m', bs, i, count);
  }

  lemma GrowWholeSpells(m: Mem, bs: seq<Block>, lo: int, hi: int, i: nat, count: int)
    requires Spells(m, bs) && Laid(bs, lo, hi) && i + 1 < |bs| && bs[i].used
    ensures Spells(GrowWhole(m, bs[i].addr, count), Splice(bs, i, 2, [Block(bs[i].addr, count, true)]))
    ensures Confined(m, GrowWhole(m, bs[i].addr, count), bs, 0, 0)
  {
    LinkedTwo(m, bs, lo, hi, i);
    hide GrowWhole, FlagWord, XorMagic;
    GrowWholeIs(m, bs[i].addr, count);
    TakeSpells(m, GrowWhole(m, bs[i].addr, count), bs, lo, hi, i, count);
  }

  /** A growing block that leaves a rest of the free block behind it. */
  ghost predicate Splits(bs: seq<Block>, i: nat, count: int) {
    && i + 1 < |bs| && bs[i].used && !bs[i + 1].used
    && 0 <= bs[i].size <= count && count - bs[i].size < bs[i + 1].size
  }

  /** The list a split growth should leave. */
  function GrownList(bs: seq<Block>, i: nat, count: int): seq<Block>
    requires i + 1 < |bs|
  {
    Splice(bs, i, 2, [Block(bs[i].addr, count, true), Block(bs[i].addr + HDR + count, bs[i + 1].size - (count - bs[i].size), false)])
  }

  lemma GrowCutSpells(m: Mem, m': Mem, bs: seq<Block>, lo: int, hi: int, i: nat, count: int)
    requires Spells(m, bs) && Laid(bs, lo, hi) && Splits(bs, i, count)
    requires CutOf(m, m', bs[i].addr, count, bs[i].addr + HDR + count, bs[i + 1].size - (count - bs[i].size), NextAddr(bs, i + 1), bs[i + 1].addr)
    ensures Spells(m', GrownList(bs, i, count))
    ensures Confined(m, m', bs, bs[i].addr + HDR + bs[i].size, bs[i + 1].addr + HDR + bs[i + 1].size)
  {
    hide FlagWord, Flags, Size, Next, CutOf, Spells, Laid, Confined, Splice;
    LinkedTwo(m, bs, lo, hi, i);
    CutSpells(m, m', bs, lo, hi, i, 2, count, bs[i].addr + HDR + count, bs[i + 1].size - (count - bs[i].size), bs[i + 1].addr);
    CutConfined(m, m', bs, i, 2, count, bs[i].addr + HDR + count, bs[i + 1].size - (count - bs[i].size), bs[i + 1].addr,
                bs[i].addr + HDR + bs[i].size, bs[i + 1].addr + HDR + bs[i + 1].size);
  }

  lemma GrowSplitSpells(m: Mem, bs: seq<Block>, lo: int, hi: int, i: nat, count: int)
    requires Spells(m, bs) && Laid(bs, lo, hi) && Splits(bs, i, count)
    requires HeadersClear(bs[i + 1].addr, bs[i].addr + HDR + count, bs[i + 1].size, bs[i].addr)
    ensures Spells(GrowSplit(m, bs[i].addr, count), GrownList(bs, i, count))
    ensures Confined(m, GrowSplit(m, bs[i].addr, count), bs, bs[i].addr + HDR + bs[i].size, bs[i + 1].addr + HDR + bs[i + 1].size)
  {
    hide GrowSplit, FlagWord, Flags, Size, Next, CutOf, HeadersClear, Spells, Laid, Confined, Splice;
    LinkedTwo(m, bs, lo, hi, i);
    GrowSplitIs(m, bs[i].addr, count);
    GrowCutSpells(m, GrowSplit(m, bs[i].addr, count), bs, lo, hi, i, count);
  }

  lemma GrownHeader(m: Mem, bs: seq<Block>, i: nat, count: int)
    requires i + 1 < |bs| && Spells(m, GrownList(bs, i, count))
    ensures var newb := bs[i].addr + HDR + count;
      && Next(m, newb) == NextAddr(bs, i + 1) && Prev(m, newb) == bs[i].addr
      && Size(m, newb) == bs[i + 1].size - (count - bs[i].size)
  {
    assert HeaderIs(m, GrownList(bs, i, count), i + 1);
  }

  lemma GrowSplitWrong(m: Mem, it: int, count: int, next: int, newb: int)
    requires next == Next(m, it) && newb == it + HDR + count
    requires 0 <= count && 0 < it && it + HDR <= next && !HeadersClear(next, newb, Size(m, next), it) && (next - newb) % 4 == 0
    requires Next(m, next) != 0 ==> next + HDR <= Next(m, next) && newb + HDR <= Next(m, next)
    ensures var m' := GrowSplit(m, it, count);
      || Next(m', newb) != Next(m, next) || Prev(m', newb) != it || Size(m', newb) != Size(m, next) - (count - Size(m, it))
  {
    hide XorMagic;
    if newb == next + 4 {
      assert Next(GrowSplit(m, it, count), newb) == it;
    } else if newb == next - 4 {
      assert Size(GrowSplit(m, it, count), newb) == it - (count - Size(m, it));
    } else if newb == next - 8 {
      XorMagicChanges(it);
      assert Prev(GrowSplit(m, it, count), newb) == XorMagic(it);
    } else {
      XorMagicChanges(Next(m, next));
      assert Next(GrowSplit(m, it, count), newb) == XorMagic(Next(m, next));
    }
  }

  /** Growth by splitting goes wrong exactly when the new header lies over the old one by
      less than it: 4 bytes in, or up to 12 bytes in front, as when the block's slack is
      larger than the growth. */
  lemma GrowSplitExact(m: Mem, bs: seq<Block>, lo: int, hi: int, i: nat, count: int)
    requires Spells(m, bs) && Laid(bs, lo, hi) && Splits(bs, i, count)
    requires (bs[i + 1].addr - (bs[i].addr + HDR + count)) % 4 == 0
    ensures Spells(GrowSplit(m, bs[i].addr, count), GrownList(bs, i, count)) <==>
      HeadersClear(bs[i + 1].addr, bs[i].addr + HDR + count, bs[i + 1].size, bs[i].addr)
  {
    hide GrowSplit, FlagWord, Flags, Size, Next, CutOf, Spells, Laid, Confined, GrownList;
    if HeadersClear(bs[i + 1].addr, bs[i].addr + HDR + count, bs[i + 1].size, bs[i].addr) {
      GrowSplitSpells(m, bs, lo, hi, i, count);
    } else {
      LinkedTwo(m, bs, lo, hi, i);
      GrowSplitWrong(m, bs[i].addr, count, bs[i + 1].addr, bs[i].addr + HDR + count);
      if Spells(GrowSplit(m, bs[i].addr, count), GrownList(bs, i, count)) {
        GrownHeader(GrowSplit(m, bs[i].addr, count), bs, i, count);
      }
    }
  }

  // ---- the whole operation

  /** heap_realloc's writes where it does not panic. */
  function ReallocWrites(m: Mem, it: int, count: int): Mem {
    var diff, next := count - Size(m, it), Next(m, it);
    if diff < 0 then ShrinkWrites(m, it, count)
    else if diff >= Size(m, next) && HDR <= diff <= Size(m, next) + HDR then GrowWhole(m, it, count)
    else GrowSplit(m, it, count)
  }

  /** The resize is one that the writes carry out right (see GrowSplitExact). */
  predicate Sound(bs: seq<Block>, i: nat, count: int)
    requires i < |bs|
  {
    var diff := count - bs[i].size;
    diff < 0 || i + 1 == |bs| || diff >= bs[i + 1].size || HeadersClear(bs[i + 1].addr, bs[i].addr + HDR + count, bs[i + 1].size, bs[i].addr)
  }

  /** Outside the headers, a resize writes from the end of the shorter of the block's two
      payloads to the end of the blocks it works on. */
  function Touched(bs: seq<Block>, i: nat, count: int): (int, int)
    requires i < |bs|
  {
    if count < bs[i].size then (bs[i].addr + HDR + count, bs[i].addr + HDR + bs[i].size)
    else if i + 1 < |bs| && count - bs[i].size < bs[i + 1].size then
      (bs[i].addr + HDR + bs[i].size, bs[i + 1].addr + HDR + bs[i + 1].size)
    else (0, 0)
  }

  lemma GrowSpells(m: Mem, bs: seq<Block>, lo: int, hi: int, i: nat, count: int)
    requires Spells(m, bs) && Laid(bs, lo, hi) && i + 1 < |bs| && bs[i].used && bs[i].size <= count
    requires !Resize(bs, i, count).Panics? && Sound(bs, i, count)
    ensures var m' := if count - bs[i].size >= bs[i + 1].size then GrowWhole(m, bs[i].addr, count) else GrowSplit(m, bs[i].addr, count);
      Spells(m', Realloc(bs, i, count)) && Confined(m, m', bs, Touched(bs, i, count).0, Touched(bs, i, count).1)
  {
    assert Laid(bs, lo, hi);
    hide Confined, GrowWhole, GrowSplit, HeadersClear, Spells, Laid;
    if count - bs[i].size >= bs[i + 1].size {
      GrowWholeSpells(m, bs, lo, hi, i, count);
    } else {
      GrowSplitSpells(m, bs, lo, hi, i, count);
    }
  }

  /** A resize in memory is the resize of the list, and writes headers and, where the
      block ends or ended, only what no block that stays uses. */
  lemma ReallocSpells(m: Mem, bs: seq<Block>, lo: int, hi: int, i: nat, count: int)
    requires Spells(m, bs) && Laid(bs, lo, hi) && i < |bs| && bs[i].used && 0 <= count
    requires !Resize(bs, i, count).Panics? && Sound(bs, i, count)
    ensures Spells(ReallocWrites(m, bs[i].addr, count), Realloc(bs, i, count))
    ensures Confined(m, ReallocWrites(m, bs[i].addr, count), bs, Touched(bs, i, count).0, Touched(bs, i, count).1)
  {
    hide Laid, Confined, GrowWhole, GrowSplit, ShrinkWrites, HeadersClear;
    assert HeaderIs(m, bs, i);
    if count < bs[i].size {
      ShrinkSpells(m, bs, lo, hi, i, count);
    } else {
      assert HeaderIs(m, bs, i + 1);
      hide Spells;
      GrowSpells(m, bs, lo, hi, i, count);
    }
  }

  /** A resize puts the block into use with the new size, or, where it gives back less than a
      header, the size it had, and leaves all others alone. */
  lemma ReallocUsed(bs: seq<Block>, lo: int, hi: int, i: nat, count: int)
    requires Laid(bs, lo, hi) && i < |bs| && bs[i].used && !Resize(bs, i, count).Panics?
    ensures InUse(Realloc(bs, i, count)) ==
      InUse(bs) - {bs[i]} + {Block(bs[i].addr, if 0 < bs[i].size - count < 16 then bs[i].size else count, true)}
  {
    hide Laid, Splice;
    var c := Resize(bs, i, count);
    if c.Change? {
      SpliceUsed(bs, lo, hi, i, c.k, c.ns);
      assert bs[i..i + c.k] == if c.k == 1 then [bs[i]] else [bs[i], bs[i + 1]];
    }
  }
}
