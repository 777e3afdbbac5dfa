/** The kernel heap's block lists, src/sys/heap.c: headers in memory, the list of
    blocks they spell, and what each operation's writes do to both. Memory is words
    by address; a header is four words (flags, size, prev, next) followed by the
    block's payload. */
module HeapBlocks {

  type Mem = map<int, int>

  const HDR := 16
  const HEAP_MAGIC := 0xDEAD_F00D
  const HEAP_FLG_USED := 0x10

  function Rd(m: Mem, a: int): int { if a in m then m[a] else 0 }
  function Flags(m: Mem, b: int): int { Rd(m, b) }
  function Size(m: Mem, b: int): int { Rd(m, b + 4) }
  function Prev(m: Mem, b: int): int { Rd(m, b + 8) }
  function Next(m: Mem, b: int): int { Rd(m, b + 12) }

  /** Flag words: HEAP_MAGIC has the used bit clear, so setting it adds HEAP_FLG_USED. */
  predicate IsUsed(flags: int) { flags / HEAP_FLG_USED % 2 == 1 }
  function FlagWord(used: bool): int { if used then HEAP_MAGIC + HEAP_FLG_USED else HEAP_MAGIC }

  datatype Block = Block(addr: int, size: int, used: bool)

  function PrevAddr(bs: seq<Block>, i: int): int { if 0 < i <= |bs| then bs[i - 1].addr else 0 }
  function NextAddr(bs: seq<Block>, i: int): int { if 0 <= i + 1 < |bs| then bs[i + 1].addr else 0 }

  ghost predicate HeaderIs(m: Mem, bs: seq<Block>, i: int)
    requires 0 <= i < |bs|
  {
    && Flags(m, bs[i].addr) == FlagWord(bs[i].used) && Size(m, bs[i].addr) == bs[i].size
    && Prev(m, bs[i].addr) == PrevAddr(bs, i) && Next(m, bs[i].addr) == NextAddr(bs, i)
  }

  /** Memory holds exactly the doubly linked list bs. */
  ghost predicate Spells(m: Mem, bs: seq<Block>) {
    forall i :: 0 <= i < |bs| ==> HeaderIs(m, bs, i)
  }

  /** The blocks lie in address order between lo and hi and do not overlap. */
  ghost predicate Laid(bs: seq<Block>, lo: int, hi: int) {
    && |bs| > 0 && bs[0].addr == lo && 0 < lo
    && (forall i :: 0 <= i < |bs| ==> 0 <= bs[i].size && lo <= bs[i].addr && bs[i].addr + HDR + bs[i].size <= hi)
    && forall i, j :: 0 <= i < j < |bs| ==> bs[i].addr + HDR + bs[i].size <= bs[j].addr
  }

  ghost predicate NoTwoFree(bs: seq<Block>) {
    forall i :: 0 <= i < |bs| - 1 ==> bs[i].used || bs[i + 1].used
  }

  ghost predicate Region(m: Mem, bs: seq<Block>, lo: int, hi: int) {
    Spells(m, bs) && Laid(bs, lo, hi) && NoTwoFree(bs)
  }

  /** Nothing is written that overlaps the payload of block b. */
  ghost predicate PayloadKept(m: Mem, m': Mem, b: Block) {
    forall a :: b.addr + HDR - 4 < a < b.addr + HDR + b.size ==> Rd(m', a) == Rd(m, a)
  }

  /** The words written lie in [lo, hi). */
  ghost predicate Within(m: Mem, m': Mem, lo: int, hi: int) {
    forall a :: !(lo <= a < hi) ==> Rd(m', a) == Rd(m, a)
  }

  /** Payload and headers together. */
  function Total(bs: seq<Block>): int {
    if bs == [] then 0 else bs[0].size + HDR + Total(bs[1..])
  }

  lemma {:induction false} TotalSplice(a: seq<Block>, b: seq<Block>, c: seq<Block>)
    ensures Total(a + b + c) == Total(a) + Total(b) + Total(c)
  {
    if a != [] {
      assert (a + b + c)[1..] == a[1..] + b + c;
      TotalSplice(a[1..], b, c);
    } else if b != [] {
      assert (a + b + c)[1..] == a + b[1..] + c;
      TotalSplice(a, b[1..], c);
    } else {
      assert a + b + c == c;
    }
  }

  /** Replace the k blocks at i by new ones. */
  function Splice(bs: seq<Block>, i: nat, k: nat, ns: seq<Block>): seq<Block>
    requires i + k <= |bs|
  {
    bs[..i] + ns + bs[i + k..]
  }

  ghost predicate SameHeader(m: Mem, m': Mem, b: int) {
    Flags(m', b) == Flags(m, b) && Size(m', b) == Size(m, b) && Prev(m', b) == Prev(m, b) && Next(m', b) == Next(m, b)
  }

  ghost predicate HeaderAt(m: Mem, b: Block, prev: int, next: int) {
    Flags(m, b.addr) == FlagWord(b.used) && Size(m, b.addr) == b.size && Prev(m, b.addr) == prev && Next(m, b.addr) == next
  }

  /** The back link of the block behind a splice, when there is one. */
  ghost predicate BackLinked(m: Mem, m': Mem, bs: seq<Block>, n: nat, to: int) {
    n < |bs| ==>
      && Flags(m', bs[n].addr) == Flags(m, bs[n].addr) && Size(m', bs[n].addr) == Size(m, bs[n].addr)
      && Next(m', bs[n].addr) == Next(m, bs[n].addr) && Prev(m', bs[n].addr) == to
  }

  ghost predicate OthersSame(m: Mem, m': Mem, bs: seq<Block>, i: nat, k: nat) {
    forall j :: 0 <= j < |bs| && (j < i || j > i + k) ==> SameHeader(m, m', bs[j].addr)
  }

  /** Every operation rewrites the blocks at i, keeping the first one's address, and at
      most the back link of the block behind: two lemmas for one or two blocks left. */
  lemma SpliceOne(m: Mem, m': Mem, bs: seq<Block>, i: nat, k: nat, b: Block)
    requires Spells(m, bs) && 0 < k && i + k <= |bs| && b.addr == bs[i].addr
    requires OthersSame(m, m', bs, i, k) && BackLinked(m, m', bs, i + k, b.addr)
    requires HeaderAt(m', b, PrevAddr(bs, i), NextAddr(bs, i + k - 1))
    ensures Spells(m', Splice(bs, i, k, [b]))
  {
    hide FlagWord, Rd;
    var cs := Splice(bs, i, k, [b]);
    forall j | 0 <= j < |cs|
      ensures HeaderIs(m', cs, j)
    {
      if j < i {
        assert HeaderIs(m, bs, j) && cs[j] == bs[j];
      } else if j > i {
        assert HeaderIs(m, bs, j + k - 1) && cs[j] == bs[j + k - 1];
      }
    }
  }

  lemma SpliceTwo(m: Mem, m': Mem, bs: seq<Block>, i: nat, k: nat, b: Block, c: Block)
    requires Spells(m, bs) && 0 < k && i + k <= |bs| && b.addr == bs[i].addr
    requires OthersSame(m, m', bs, i, k) && BackLinked(m, m', bs, i + k, c.addr)
    requires HeaderAt(m', b, PrevAddr(bs, i), c.addr) && HeaderAt(m', c, b.addr, NextAddr(bs, i + k - 1))
    ensures Spells(m', Splice(bs, i, k, [b, c]))
  {
    hide FlagWord, Rd;
    var cs := Splice(bs, i, k, [b, c]);
    forall j | 0 <= j < |cs|
      ensures HeaderIs(m', cs, j)
    {
      if j < i {
        assert HeaderIs(m, bs, j) && cs[j] == bs[j];
      } else if j > i + 1 {
        assert HeaderIs(m, bs, j + k - 2) && cs[j] == bs[j + k - 2];
      }
    }
  }

  // ---- heap_alloc_single

  predicate Fits(b: Block, count: int) { !b.used && b.size >= count }

  /** The free blocks of bs are smaller than count bytes. */
  ghost predicate TooSmall(bs: seq<Block>, count: int) {
    forall j :: 0 <= j < |bs| && !bs[j].used ==> bs[j].size < count
  }

  /** First fit: block i is free and large enough, those in front of it are not. */
  ghost predicate FirstFit(bs: seq<Block>, count: int, i: int) {
    0 <= i < |bs| && !bs[i].used && bs[i].size >= count && TooSmall(bs[..i], count)
  }

  /** The blocks an allocation leaves where the free one was. */
  function AllocNew(b: Block, count: int): seq<Block> {
    if b.size < count + HDR then [Block(b.addr, count, true)]
    else [Block(b.addr, count, true), Block(b.addr + HDR + count, b.size - count - HDR, false)]
  }

  /** Block i handed out: whole when less than a header would be left, else split. */
  function Alloc(bs: seq<Block>, i: nat, count: int): seq<Block>
    requires i < |bs|
  {
    Splice(bs, i, 1, AllocNew(bs[i], count))
  }

  /** Lines 166-177, in order. The block after the split keeps its back link to it. */
  function SplitAsWritten(m: Mem, it: int, count: int): Mem {
    var newb := it + HDR + count;
    var m1 := m[newb + 12 := Next(m, it)][newb + 8 := it][it + 12 := newb];
    var m2 := m1[newb + 4 := Size(m1, it) - count - HDR][it + 4 := count];
    m2[it := Flags(m2, it) + HEAP_FLG_USED][newb := HEAP_MAGIC]
  }

  /** The link the sibling splits at lines 270-272 and 317-319 set: newb->next->prev = newb. */
  function Relinked(m: Mem, newb: int): Mem {
    if Next(m, newb) != 0 then m[Next(m, newb) + 8 := newb] else m
  }

  /** What the writes of a split leave in each header. */
  lemma SplitWords(m: Mem, bs: seq<Block>, lo: int, hi: int, i: nat, count: int)
    requires Spells(m, bs) && Laid(bs, lo, hi) && i < |bs| && Fits(bs[i], count) && 0 <= count && bs[i].size >= count + HDR
    ensures var it, newb := bs[i].addr, bs[i].addr + HDR + count;
      var m' := SplitAsWritten(m, it, count);
      && OthersSame(m, m', bs, i, 0)
      && HeaderAt(m', Block(it, count, true), PrevAddr(bs, i), newb)
      && HeaderAt(m', Block(newb, bs[i].size - count - HDR, false), it, NextAddr(bs, i))
      && (i + 1 < |bs| ==> newb + HDR <= bs[i + 1].addr)
  {
    assert HeaderIs(m, bs, i);
    var m' := SplitAsWritten(m, bs[i].addr, count);
    forall j | 0 <= j < |bs| && j != i
      ensures SameHeader(m, m', bs[j].addr)
    {
      assert j < i ==> bs[j].addr + HDR <= bs[i].addr;
      assert j > i ==> bs[i].addr + HDR + bs[i].size <= bs[j].addr;
    }
  }

  /** The relink touches the back link of block i + 1 alone. */
  lemma RelinkWords(m: Mem, bs: seq<Block>, lo: int, hi: int, i: nat, newb: int)
    requires Laid(bs, lo, hi) && i < |bs| && Next(m, newb) == NextAddr(bs, i)
    requires bs[i].addr + HDR <= newb && (i + 1 < |bs| ==> newb + HDR <= bs[i + 1].addr)
    ensures var m' := Relinked(m, newb);
      && (forall j :: 0 <= j < |bs| && j != i + 1 ==> SameHeader(m, m', bs[j].addr))
      && SameHeader(m, m', newb) && BackLinked(m, m', bs, i + 1, newb)
  {
    forall j | 0 <= j < |bs| && j != i + 1
      ensures SameHeader(m, Relinked(m, newb), bs[j].addr)
    {
      if i + 1 < |bs| {
        assert j < i + 1 ==> bs[j].addr + HDR <= bs[i + 1].addr;
        assert j > i + 1 ==> bs[i + 1].addr + HDR <= bs[j].addr;
      }
    }
  }

  lemma SplitSpells(m: Mem, bs: seq<Block>, lo: int, hi: int, i: nat, count: int)
    requires Spells(m, bs) && Laid(bs, lo, hi) && i < |bs| && Fits(bs[i], count) && 0 <= count && bs[i].size >= count + HDR
    ensures var newb := bs[i].addr + HDR + count;
      Spells(Relinked(SplitAsWritten(m, bs[i].addr, count), newb), Alloc(bs, i, count))
  {
    var it, newb := bs[i].addr, bs[i].addr + HDR + count;
    var m1 := SplitAsWritten(m, it, count);
    var m' := Relinked(m1, newb);
    SplitWords(m, bs, lo, hi, i, count);
    hide SplitAsWritten;
    RelinkWords(m1, bs, lo, hi, i, newb);
    forall j | 0 <= j < |bs| && (j < i || j > i + 1)
      ensures SameHeader(m, m', bs[j].addr)
    {
      assert SameHeader(m, m1, bs[j].addr);
    }
    if i + 1 < |bs| {
      assert SameHeader(m, m1, bs[i + 1].addr);
    }
    SpliceTwo(m, m', bs, i, 1, Block(it, count, true), Block(newb, bs[i].size - count - HDR, false));
  }

  /** Without the relink the list is right exactly when the block split was the last one. */
  lemma SplitAsWrittenExact(m: Mem, bs: seq<Block>, lo: int, hi: int, i: nat, count: int)
    requires Spells(m, bs) && Laid(bs, lo, hi) && i < |bs| && Fits(bs[i], count) && 0 <= count && bs[i].size >= count + HDR
    ensures Spells(SplitAsWritten(m, bs[i].addr, count), Alloc(bs, i, count)) <==> i == |bs| - 1
  {
    var it, newb := bs[i].addr, bs[i].addr + HDR + count;
    SplitWords(m, bs, lo, hi, i, count);
    SplitSpells(m, bs, lo, hi, i, count);
    if i + 1 < |bs| {
      var cs := Alloc(bs, i, count);
      assert cs[i + 2] == bs[i + 1] && PrevAddr(cs, i + 2) == newb;
      assert HeaderIs(m, bs, i + 1);
      assert !HeaderIs(SplitAsWritten(m, it, count), cs, i + 2);
    }
  }

  /** Headers of other blocks lie clear of those of blocks i to i + 2. */
  lemma Apart(bs: seq<Block>, lo: int, hi: int, i: nat)
    requires Laid(bs, lo, hi) && i < |bs|
    ensures forall j :: 0 <= j < |bs| && j < i ==> bs[j].addr + HDR <= bs[i].addr
    ensures forall j :: 0 <= j < |bs| && j > i ==> bs[i].addr + HDR <= bs[j].addr
    ensures i + 1 < |bs| ==> forall j :: 0 <= j < |bs| && j > i + 1 ==> bs[i + 1].addr + HDR <= bs[j].addr
    ensures i + 2 < |bs| ==> forall j :: 0 <= j < |bs| && j > i + 2 ==> bs[i + 2].addr + HDR <= bs[j].addr
  {
  }

  lemma WholeSpells(m: Mem, bs: seq<Block>, lo: int, hi: int, i: nat, count: int)
    requires Spells(m, bs) && Laid(bs, lo, hi) && i < |bs| && Fits(bs[i], count) && bs[i].size < count + HDR
    ensures Spells(m[bs[i].addr := FlagWord(true)][bs[i].addr + 4 := count], Alloc(bs, i, count))
  {
    var m' := m[bs[i].addr := FlagWord(true)][bs[i].addr + 4 := count];
    hide FlagWord;
    assert HeaderIs(m, bs, i);
    Apart(bs, lo, hi, i);
    assert forall a :: Rd(m', a) == if a == bs[i].addr then FlagWord(true) else if a == bs[i].addr + 4 then count else Rd(m, a);
    hide Rd;
    if i + 1 < |bs| { assert HeaderIs(m, bs, i + 1); }
    SpliceOne(m, m', bs, i, 1, Block(bs[i].addr, count, true));
  }

  // ---- heap_free_single

  /** Blocks i and i + 1 as one. */
  function Merge(bs: seq<Block>, i: nat): seq<Block>
    requires i + 1 < |bs|
  {
    Splice(bs, i, 2, [Block(bs[i].addr, bs[i].size + HDR + bs[i + 1].size, bs[i].used)])
  }

  function MergeIfFree(bs: seq<Block>, i: nat): seq<Block>
    requires i < |bs|
  {
    if i + 1 < |bs| && !bs[i + 1].used then Merge(bs, i) else bs
  }

  /** Block i freed and joined with the free blocks on either side. */
  function Free(bs: seq<Block>, i: nat): seq<Block>
    requires i < |bs|
  {
    var cs := MergeIfFree(bs[i := bs[i].(used := false)], i);
    if i > 0 && !cs[i - 1].used then Merge(cs, i - 1) else cs
  }

  /** f & ~HEAP_MAGIC, on a word that carries the magic. */
  function ClearMagic(f: int): int { f - HEAP_MAGIC }

  /** Lines 202-207: it takes over the block behind it. */
  function MergeNext(m: Mem, it: int): Mem {
    var n := Next(m, it);
    var m1 := m[it + 4 := Size(m, it) + Size(m, n) + HDR];
    var m2 := if Next(m1, n) != 0 then m1[Next(m1, n) + 8 := it] else m1;
    var m3 := m2[n := ClearMagic(Flags(m2, n))];
    m3[it + 12 := Next(m3, n)]
  }

  /** Lines 213-218, the same from the block in front, with its writes in another order. */
  function MergePrev(m: Mem, p: int): Mem {
    var m1 := m[p + 4 := Size(m, p) + Size(m, Next(m, p)) + HDR];
    var m2 := m1[Next(m1, p) := ClearMagic(Flags(m1, Next(m1, p)))];
    var m3 := m2[p + 12 := Next(m2, Next(m2, p))];
    if Next(m3, p) != 0 then m3[Next(m3, p) + 8 := p] else m3
  }

  /** Word by word: m' is m with the new size and link in block b, the flags of block n
      cleared, and the back link of the block behind n, if any, set. */
  ghost predicate MergeOf(m: Mem, m': Mem, b: int, n: int) {
    var nn := Next(m, n);
    forall a :: Rd(m', a) ==
      if a == b + 4 then Size(m, b) + Size(m, n) + HDR
      else if a == b + 12 then nn
      else if a == n then ClearMagic(Flags(m, n))
      else if nn != 0 && a == nn + 8 then b
      else Rd(m, a)
  }

  lemma MergeNextIs(m: Mem, b: int)
    requires var n := Next(m, b); b + HDR <= n && (Next(m, n) != 0 ==> n + HDR <= Next(m, n))
    ensures MergeOf(m, MergeNext(m, b), b, Next(m, b))
  {
  }

  lemma MergePrevIs(m: Mem, b: int)
    requires var n := Next(m, b); b + HDR <= n && (Next(m, n) != 0 ==> n + HDR <= Next(m, n))
    ensures MergeOf(m, MergePrev(m, b), b, Next(m, b))
  {
  }

  lemma MergeWords(m: Mem, m': Mem, bs: seq<Block>, lo: int, hi: int, i: nat)
    requires Spells(m, bs) && Laid(bs, lo, hi) && i + 1 < |bs|
    requires MergeOf(m, m', bs[i].addr, bs[i + 1].addr)
    ensures Spells(m', Merge(bs, i))
  {
    hide FlagWord, Rd;
    assert HeaderIs(m, bs, i) && HeaderIs(m, bs, i + 1);
    if i + 2 < |bs| { assert HeaderIs(m, bs, i + 2); }
    Apart(bs, lo, hi, i);
    SpliceOne(m, m', bs, i, 2, Block(bs[i].addr, bs[i].size + HDR + bs[i + 1].size, bs[i].used));
  }

  lemma MergeLaid(bs: seq<Block>, lo: int, hi: int, i: nat)
    requires Laid(bs, lo, hi) && i + 1 < |bs|
    ensures Laid(Merge(bs, i), lo, hi)
  {
    var cs := Merge(bs, i);
    forall j | 0 <= j < |cs|
      ensures cs[j] == if j < i then bs[j] else if j == i then cs[i] else bs[j + 1]
    {
    }
  }

  lemma UsedWord(used: bool)
    ensures IsUsed(FlagWord(used)) == used
  {
  }

  /** Lines 199-219 for a used block. */
  function FreeWrites(m: Mem, it: int): Mem {
    var m1 := m[it := Flags(m, it) - HEAP_FLG_USED];
    var m2 := if Next(m1, it) != 0 && !IsUsed(Flags(m1, Next(m1, it))) then MergeNext(m1, it) else m1;
    if Prev(m2, it) != 0 && !IsUsed(Flags(m2, Prev(m2, it))) then MergePrev(m2, Prev(m2, it)) else m2
  }

  ghost predicate HeaderWord(b: Block, a: int) { b.addr <= a <= b.addr + 12 }

  /** The words of the headers of bs. */
  ghost predicate InHeaders(bs: seq<Block>, a: int) {
    exists k :: 0 <= k < |bs| && HeaderWord(bs[k], a)
  }

  /** Only header words of bs and words of [from, to) are written. */
  ghost predicate Confined(m: Mem, m': Mem, bs: seq<Block>, from: int, to: int) {
    forall a :: Rd(m', a) == Rd(m, a) || InHeaders(bs, a) || from <= a < to
  }

  /** Confined writes keep every payload that [from, to) does not meet. */
  lemma ConfinedKeeps(m: Mem, m': Mem, bs: seq<Block>, lo: int, hi: int, from: int, to: int, j: nat)
    requires Laid(bs, lo, hi) && j < |bs| && Confined(m, m', bs, from, to)
    requires from >= to || to <= bs[j].addr + HDR - 3 || from >= bs[j].addr + HDR + bs[j].size
    ensures PayloadKept(m, m', bs[j])
  {
    hide Rd;
    forall a | bs[j].addr + HDR - 4 < a < bs[j].addr + HDR + bs[j].size
      ensures !InHeaders(bs, a)
    {
    }
  }

  lemma ConfinedWithin(m: Mem, m': Mem, bs: seq<Block>, lo: int, hi: int, from: int, to: int)
    requires Laid(bs, lo, hi) && Confined(m, m', bs, from, to) && (from >= to || (lo <= from && to <= hi))
    ensures Within(m, m', lo, hi)
  {
    hide Rd;
    forall a | !(lo <= a < hi)
      ensures !InHeaders(bs, a)
    {
    }
  }

  lemma MergeConfined(m: Mem, m': Mem, bs: seq<Block>, i: nat)
    requires Spells(m, bs) && i + 1 < |bs| && MergeOf(m, m', bs[i].addr, bs[i + 1].addr)
    ensures Confined(m, m', bs, 0, 0)
  {
    hide Rd, FlagWord;
    assert HeaderIs(m, bs, i + 1);
    forall a | Rd(m', a) != Rd(m, a)
      ensures InHeaders(bs, a)
    {
      assert HeaderWord(bs[i], a) || HeaderWord(bs[i + 1], a) || (i + 2 < |bs| && HeaderWord(bs[i + 2], a));
    }
  }

  /** One merge, by either of the two code paths. */
  lemma MergeStep(m: Mem, m': Mem, bs: seq<Block>, lo: int, hi: int, i: nat)
    requires Spells(m, bs) && Laid(bs, lo, hi) && i + 1 < |bs|
    requires m' == MergeNext(m, bs[i].addr) || m' == MergePrev(m, bs[i].addr)
    ensures Spells(m', Merge(bs, i)) && Laid(Merge(bs, i), lo, hi) && Confined(m, m', bs, 0, 0)
  {
    assert HeaderIs(m, bs, i) && HeaderIs(m, bs, i + 1);
    hide MergeNext, MergePrev, FlagWord;
    Apart(bs, lo, hi, i);
    MergeNextIs(m, bs[i].addr);
    MergePrevIs(m, bs[i].addr);
    MergeWords(m, m', bs, lo, hi, i);
    MergeLaid(bs, lo, hi, i);
    MergeConfined(m, m', bs, i);
  }

  lemma MarkWord(m: Mem, a: int)
    ensures var m' := m[a := Flags(m, a) - HEAP_FLG_USED];
      && (Flags(m, a) == FlagWord(true) ==> Rd(m', a) == FlagWord(false))
      && forall x :: x != a ==> Rd(m', x) == Rd(m, x)
  {
  }

  lemma MarkConfined(m: Mem, m': Mem, bs: seq<Block>, i: nat)
    requires i < |bs| && forall a :: a != bs[i].addr ==> Rd(m', a) == Rd(m, a)
    ensures Confined(m, m', bs, 0, 0)
  {
    assert HeaderWord(bs[i], bs[i].addr);
  }

  /** cs is bs with the k blocks at i replaced by ns. */
  ghost predicate Spliced(bs: seq<Block>, cs: seq<Block>, i: nat, k: nat, ns: seq<Block>) {
    && i + k <= |bs| && |cs| == |bs| - k + |ns|
    && (forall j :: 0 <= j < i ==> cs[j] == bs[j])
    && (forall j :: i <= j < i + |ns| ==> cs[j] == ns[j - i])
    && (forall j :: i + |ns| <= j < |cs| ==> cs[j] == bs[j - |ns| + k])
  }

  lemma SpliceIndex(bs: seq<Block>, i: nat, k: nat, ns: seq<Block>)
    requires i + k <= |bs|
    ensures Spliced(bs, Splice(bs, i, k, ns), i, k, ns)
  {
  }

  /** Blocks in the place of those they replace. */
  ghost predicate InPlace(bs: seq<Block>, hi: int, i: nat, k: nat, ns: seq<Block>) {
    && 0 < k && i + k <= |bs| && 1 <= |ns| <= 2 && ns[0].addr == bs[i].addr
    && (forall t :: 0 <= t < |ns| ==> 0 <= ns[t].size && ns[t].addr + HDR + ns[t].size <= if i + k < |bs| then bs[i + k].addr else hi)
    && (|ns| == 2 ==> ns[0].addr + HDR + ns[0].size <= ns[1].addr)
  }

  lemma SplicedLaid(bs: seq<Block>, cs: seq<Block>, lo: int, hi: int, i: nat, k: nat, ns: seq<Block>)
    requires Laid(bs, lo, hi) && InPlace(bs, hi, i, k, ns) && Spliced(bs, cs, i, k, ns)
    ensures Laid(cs, lo, hi)
  {
    var end := if i + k < |bs| then bs[i + k].addr else hi;
    assert bs[i].addr + HDR <= end;
    forall j | 0 <= j < |cs|
      ensures 0 <= cs[j].size && lo <= cs[j].addr && cs[j].addr + HDR + cs[j].size <= hi
      ensures j < i ==> cs[j].addr + HDR + cs[j].size <= bs[i].addr
      ensures i <= j < i + |ns| ==> bs[i].addr <= cs[j].addr && cs[j].addr + HDR + cs[j].size <= end
      ensures i + |ns| <= j ==> end <= cs[j].addr
    {
      if j < i {
        assert cs[j] == bs[j];
      } else if j < i + |ns| {
        assert cs[j] == ns[j - i];
      } else {
        assert cs[j] == bs[j - |ns| + k];
      }
    }
    forall j, l | 0 <= j < l < |cs|
      ensures cs[j].addr + HDR + cs[j].size <= cs[l].addr
    {
      if l < i {
        assert cs[j] == bs[j] && cs[l] == bs[l];
      } else if j >= i + |ns| {
        assert cs[j] == bs[j - |ns| + k] && cs[l] == bs[l - |ns| + k];
      }
    }
  }

  lemma SpliceLaid(bs: seq<Block>, lo: int, hi: int, i: nat, k: nat, ns: seq<Block>)
    requires Laid(bs, lo, hi) && InPlace(bs, hi, i, k, ns)
    ensures Laid(Splice(bs, i, k, ns), lo, hi)
  {
    SpliceIndex(bs, i, k, ns);
    SplicedLaid(bs, Splice(bs, i, k, ns), lo, hi, i, k, ns);
  }

  lemma SpliceHere(bs: seq<Block>, i: nat, b: Block)
    requires i < |bs|
    ensures Splice(bs, i, 1, [b]) == bs[i := b]
  {
  }

  lemma MarkFree(m: Mem, bs: seq<Block>, lo: int, hi: int, i: nat)
    requires Spells(m, bs) && Laid(bs, lo, hi) && i < |bs| && bs[i].used
    ensures var m', cs := m[bs[i].addr := Flags(m, bs[i].addr) - HEAP_FLG_USED], bs[i := bs[i].(used := false)];
      Spells(m', cs) && Laid(cs, lo, hi) && Confined(m, m', bs, 0, 0)
  {
    var m' := m[bs[i].addr := Flags(m, bs[i].addr) - HEAP_FLG_USED];
    var b := bs[i].(used := false);
    hide Splice, Confined, Rd, FlagWord;
    assert HeaderIs(m, bs, i);
    Apart(bs, lo, hi, i);
    MarkWord(m, b.addr);
    if i + 1 < |bs| { assert HeaderIs(m, bs, i + 1); }
    SpliceOne(m, m', bs, i, 1, b);
    SpliceHere(bs, i, b);
    SpliceLaid(bs, lo, hi, i, 1, [b]);
    MarkConfined(m, m', bs, i);
  }

  lemma FreePrev(m: Mem, bs: seq<Block>, lo: int, hi: int, i: nat)
    requires Spells(m, bs) && Laid(bs, lo, hi) && i < |bs|
    ensures var p := Prev(m, bs[i].addr);
      var m', cs := if p != 0 && !IsUsed(Flags(m, p)) then MergePrev(m, p) else m, if i > 0 && !bs[i - 1].used then Merge(bs, i - 1) else bs;
      Spells(m', cs) && Laid(cs, lo, hi) && Confined(m, m', bs, 0, 0)
  {
    assert HeaderIs(m, bs, i);
    if i > 0 {
      assert HeaderIs(m, bs, i - 1);
      UsedWord(bs[i - 1].used);
      if !bs[i - 1].used {
        MergeStep(m, MergePrev(m, bs[i - 1].addr), bs, lo, hi, i - 1);
      }
    }
  }

  lemma FreeNext(m: Mem, bs: seq<Block>, lo: int, hi: int, i: nat)
    requires Spells(m, bs) && Laid(bs, lo, hi) && i < |bs|
    ensures var it := bs[i].addr;
      var m' := if Next(m, it) != 0 && !IsUsed(Flags(m, Next(m, it))) then MergeNext(m, it) else m;
      Spells(m', MergeIfFree(bs, i)) && Laid(MergeIfFree(bs, i), lo, hi) && Confined(m, m', bs, 0, 0)
    ensures i < |MergeIfFree(bs, i)| && MergeIfFree(bs, i)[i].addr == bs[i].addr
  {
    assert HeaderIs(m, bs, i);
    if i + 1 < |bs| {
      assert HeaderIs(m, bs, i + 1);
      UsedWord(bs[i + 1].used);
      if !bs[i + 1].used {
        MergeStep(m, MergeNext(m, bs[i].addr), bs, lo, hi, i);
      }
    }
  }

  lemma HeadersShrink(bs: seq<Block>, cs: seq<Block>, i: nat)
    requires i < |bs| && cs == MergeIfFree(bs, i)
    ensures forall a :: InHeaders(cs, a) ==> InHeaders(bs, a)
  {
    forall a | InHeaders(cs, a)
      ensures InHeaders(bs, a)
    {
      var k :| 0 <= k < |cs| && HeaderWord(cs[k], a);
      if i + 1 < |bs| && !bs[i + 1].used && k > i {
        assert HeaderWord(bs[k + 1], a);
      } else {
        assert HeaderWord(bs[k], a);
      }
    }
  }

  /** heap_free_single against the list: the block is freed and joined with its free
      neighbours, and only header words are written. */
  lemma FreeSpells(m: Mem, bs: seq<Block>, lo: int, hi: int, i: nat)
    requires Spells(m, bs) && Laid(bs, lo, hi) && i < |bs| && bs[i].used
    ensures Spells(FreeWrites(m, bs[i].addr), Free(bs, i)) && Laid(Free(bs, i), lo, hi)
    ensures Confined(m, FreeWrites(m, bs[i].addr), bs, 0, 0)
  {
    hide MergeNext, MergePrev, FlagWord, IsUsed, Rd, Spells, Laid, Merge, MergeIfFree;
    var it := bs[i].addr;
    MarkFree(m, bs, lo, hi, i);
    var m1, cs := m[it := Flags(m, it) - HEAP_FLG_USED], bs[i := bs[i].(used := false)];
    FreeNext(m1, cs, lo, hi, i);
    var m2 := if Next(m1, it) != 0 && !IsUsed(Flags(m1, Next(m1, it))) then MergeNext(m1, it) else m1;
    var ds := MergeIfFree(cs, i);
    FreePrev(m2, ds, lo, hi, i);
    HeadersShrink(cs, ds, i);
    forall a | InHeaders(cs, a)
      ensures InHeaders(bs, a)
    {
      var k :| 0 <= k < |cs| && HeaderWord(cs[k], a);
      assert HeaderWord(bs[k], a);
    }
  }

  // ---- what the operations keep

  lemma AllocInPlace(bs: seq<Block>, lo: int, hi: int, i: nat, count: int)
    requires Laid(bs, lo, hi) && NoTwoFree(bs) && i < |bs| && Fits(bs[i], count) && 0 <= count
    ensures InPlace(bs, hi, i, 1, AllocNew(bs[i], count))
    ensures |AllocNew(bs[i], count)| == 2 && i + 1 < |bs| ==> bs[i + 1].used
  {
    assert i + 1 < |bs| ==> bs[i].addr + HDR + bs[i].size <= bs[i + 1].addr;
    assert i + 1 < |bs| ==> bs[i].used || bs[i + 1].used;
  }

  lemma SplicedNoTwoFree(bs: seq<Block>, cs: seq<Block>, i: nat, k: nat, ns: seq<Block>)
    requires NoTwoFree(bs) && |ns| > 0 && NoTwoFree(ns) && Spliced(bs, cs, i, k, ns)
    requires i > 0 ==> bs[i - 1].used || ns[0].used
    requires i + k < |bs| ==> bs[i + k].used || ns[|ns| - 1].used
    ensures NoTwoFree(cs)
  {
    forall j | 0 <= j < |cs| - 1
      ensures cs[j].used || cs[j + 1].used
    {
      if j >= i + |ns| {
        assert cs[j] == bs[j - |ns| + k] && cs[j + 1] == bs[j - |ns| + k + 1];
      } else if i <= j < i + |ns| - 1 {
        assert cs[j] == ns[j - i] && cs[j + 1] == ns[j - i + 1];
      } else if j == i + |ns| - 1 {
        assert cs[j] == ns[|ns| - 1] && cs[j + 1] == bs[i + k];
      }
    }
  }

  lemma SpliceNoTwoFree(bs: seq<Block>, i: nat, k: nat, ns: seq<Block>)
    requires NoTwoFree(bs) && i + k <= |bs| && |ns| > 0 && NoTwoFree(ns)
    requires i > 0 ==> bs[i - 1].used || ns[0].used
    requires i + k < |bs| ==> bs[i + k].used || ns[|ns| - 1].used
    ensures NoTwoFree(Splice(bs, i, k, ns))
  {
    SpliceIndex(bs, i, k, ns);
    SplicedNoTwoFree(bs, Splice(bs, i, k, ns), i, k, ns);
  }

  lemma TotalShort(ns: seq<Block>)
    ensures |ns| == 1 ==> Total(ns) == ns[0].size + HDR
    ensures |ns| == 2 ==> Total(ns) == ns[0].size + ns[1].size + 2 * HDR
  {
    if |ns| == 2 {
      assert Total(ns[1..]) == ns[1].size + HDR + Total(ns[1..][1..]);
    }
  }

  lemma SpliceTotal(bs: seq<Block>, i: nat, k: nat, ns: seq<Block>)
    requires i + k <= |bs|
    ensures Total(Splice(bs, i, k, ns)) == Total(bs) - Total(bs[i..i + k]) + Total(ns)
    ensures |ns| == 1 ==> Total(ns) == ns[0].size + HDR
    ensures |ns| == 2 ==> Total(ns) == ns[0].size + ns[1].size + 2 * HDR
    ensures k == 1 ==> Total(bs[i..i + k]) == bs[i].size + HDR
    ensures k == 2 ==> Total(bs[i..i + k]) == bs[i].size + bs[i + 1].size + 2 * HDR
  {
    TotalSplice(bs[..i], bs[i..i + k], bs[i + k..]);
    TotalSplice(bs[..i], ns, bs[i + k..]);
    assert bs == bs[..i] + bs[i..i + k] + bs[i + k..];
    TotalShort(ns);
    TotalShort(bs[i..i + k]);
  }

  lemma SpliceKeeps(bs: seq<Block>, lo: int, hi: int, i: nat, k: nat, ns: seq<Block>)
    requires Laid(bs, lo, hi) && NoTwoFree(bs) && InPlace(bs, hi, i, k, ns) && k <= 2
    requires ns[0].used && (|ns| == 2 && i + k < |bs| ==> ns[1].used || bs[i + k].used)
    ensures Laid(Splice(bs, i, k, ns), lo, hi) && NoTwoFree(Splice(bs, i, k, ns))
    ensures Total(Splice(bs, i, k, ns)) ==
      Total(bs) - (bs[i].size + HDR + if k == 2 then bs[i + 1].size + HDR else 0)
      + ns[0].size + HDR + if |ns| == 2 then ns[1].size + HDR else 0
  {
    hide Laid, NoTwoFree, Splice, Total;
    SpliceLaid(bs, lo, hi, i, k, ns);
    SpliceNoTwoFree(bs, i, k, ns);
    SpliceTotal(bs, i, k, ns);
  }

  lemma AllocKeeps(bs: seq<Block>, lo: int, hi: int, i: nat, count: int)
    requires Laid(bs, lo, hi) && NoTwoFree(bs) && i < |bs| && Fits(bs[i], count) && 0 <= count
    ensures Laid(Alloc(bs, i, count), lo, hi) && NoTwoFree(Alloc(bs, i, count))
    ensures Total(Alloc(bs, i, count)) == Total(bs) - if bs[i].size < count + HDR then bs[i].size - count else 0
  {
    AllocInPlace(bs, lo, hi, i, count);
    hide Laid, NoTwoFree, InPlace, Splice, Total;
    SpliceKeeps(bs, lo, hi, i, 1, AllocNew(bs[i], count));
  }

  lemma MergeTotal(bs: seq<Block>, i: nat)
    requires i + 1 < |bs|
    ensures Total(Merge(bs, i)) == Total(bs)
  {
    SpliceTotal(bs, i, 2, [Block(bs[i].addr, bs[i].size + HDR + bs[i + 1].size, bs[i].used)]);
  }

  lemma MergedPair(bs: seq<Block>, ds: seq<Block>, i: nat, b: Block)
    requires 0 < i < |bs| && forall j :: 0 <= j < |bs| - 1 && j != i - 1 ==> bs[j].used || bs[j + 1].used
    requires !bs[i - 1].used && !bs[i].used && Spliced(bs, ds, i - 1, 2, [b])
    ensures NoTwoFree(ds)
  {
    forall j | 0 <= j < |ds| - 1
      ensures ds[j].used || ds[j + 1].used
    {
      if j >= i - 1 {
        assert ds[j + 1] == bs[j + 2] && (bs[j + 1].used || bs[j + 2].used);
      } else {
        assert ds[j] == bs[j] && (bs[j].used || bs[j + 1].used);
      }
    }
  }

  lemma MergePair(bs: seq<Block>, i: nat)
    requires 0 < i < |bs| && forall j :: 0 <= j < |bs| - 1 && j != i - 1 ==> bs[j].used || bs[j + 1].used
    requires !bs[i - 1].used && !bs[i].used
    ensures NoTwoFree(Merge(bs, i - 1))
  {
    var b := Block(bs[i - 1].addr, bs[i - 1].size + HDR + bs[i].size, bs[i - 1].used);
    SpliceIndex(bs, i - 1, 2, [b]);
    MergedPair(bs, Merge(bs, i - 1), i, b);
  }

  lemma MergedNext(bs: seq<Block>, cs: seq<Block>, i: nat, b: Block)
    requires i + 1 < |bs| && forall j :: 0 <= j < |bs| - 1 && j != i - 1 && j != i ==> bs[j].used || bs[j + 1].used
    requires !bs[i + 1].used && Spliced(bs, cs, i, 2, [b]) && b.used == bs[i].used
    ensures forall j :: 0 <= j < |cs| - 1 && j != i - 1 ==> cs[j].used || cs[j + 1].used
    ensures cs[i].used == bs[i].used && forall j :: 0 <= j < i ==> cs[j] == bs[j]
  {
    forall j | 0 <= j < |cs| - 1 && j != i - 1
      ensures cs[j].used || cs[j + 1].used
    {
      if j >= i {
        assert cs[j + 1] == bs[j + 2] && (bs[j + 1].used || bs[j + 2].used);
        assert j > i ==> cs[j] == bs[j + 1];
      } else {
        assert cs[j] == bs[j] && cs[j + 1] == bs[j + 1];
      }
    }
  }

  /** Only the pair in front of block i can still be free twice. */
  lemma MergeIfFreeKeeps(bs: seq<Block>, i: nat)
    requires i < |bs| && forall j :: 0 <= j < |bs| - 1 && j != i - 1 && j != i ==> bs[j].used || bs[j + 1].used
    ensures var cs := MergeIfFree(bs, i);
      && i < |cs| && Total(cs) == Total(bs) && cs[i].used == bs[i].used && (forall j :: 0 <= j < i ==> cs[j] == bs[j])
      && (forall j :: 0 <= j < |cs| - 1 && j != i - 1 ==> cs[j].used || cs[j + 1].used)
  {
    if i + 1 < |bs| && !bs[i + 1].used {
      MergeTotal(bs, i);
      var b := Block(bs[i].addr, bs[i].size + HDR + bs[i + 1].size, bs[i].used);
      SpliceIndex(bs, i, 2, [b]);
      MergedNext(bs, Merge(bs, i), i, b);
    }
  }

  lemma FreeKeeps(bs: seq<Block>, i: nat)
    requires NoTwoFree(bs) && i < |bs| && bs[i].used
    ensures NoTwoFree(Free(bs, i)) && Total(Free(bs, i)) == Total(bs)
  {
    hide Splice, Total, Merge, MergeIfFree;
    var b0 := bs[i := bs[i].(used := false)];
    SpliceHere(bs, i, bs[i].(used := false));
    SpliceTotal(bs, i, 1, [bs[i].(used := false)]);
    var cs := MergeIfFree(b0, i);
    MergeIfFreeKeeps(b0, i);
    if i > 0 && !cs[i - 1].used {
      MergeTotal(cs, i - 1);
      assert cs[i - 1] == bs[i - 1];
      MergePair(cs, i);
    }
  }

  /** With everything freed there is one block left. */
  lemma AllFreeIsOne(bs: seq<Block>)
    requires NoTwoFree(bs) && |bs| > 0
    ensures |bs| == 1 || exists i :: 0 <= i < |bs| && bs[i].used
  {
    if |bs| > 1 {
      assert bs[0].used || bs[1].used;
    }
  }

  lemma SplitConfined(m: Mem, bs: seq<Block>, lo: int, hi: int, i: nat, count: int)
    requires Spells(m, bs) && Laid(bs, lo, hi) && i < |bs| && Fits(bs[i], count) && 0 <= count && bs[i].size >= count + HDR
    ensures var newb := bs[i].addr + HDR + count;
      Confined(m, Relinked(SplitAsWritten(m, bs[i].addr, count), newb), bs, bs[i].addr + HDR, bs[i].addr + HDR + bs[i].size)
  {
    var it, newb := bs[i].addr, bs[i].addr + HDR + count;
    assert HeaderIs(m, bs, i);
    var m1 := SplitAsWritten(m, it, count);
    assert Next(m1, newb) == NextAddr(bs, i);
    forall a
      ensures Rd(Relinked(m1, newb), a) == Rd(m, a) || InHeaders(bs, a) || it + HDR <= a < it + HDR + bs[i].size
    {
      assert it <= a <= it + 12 ==> HeaderWord(bs[i], a);
      if i + 1 < |bs| {
        assert a == bs[i + 1].addr + 8 ==> HeaderWord(bs[i + 1], a);
      }
    }
  }

  lemma WholeConfined(m: Mem, bs: seq<Block>, i: nat, count: int)
    requires i < |bs|
    ensures Confined(m, m[bs[i].addr := FlagWord(true)][bs[i].addr + 4 := count], bs, 0, 0)
  {
    assert HeaderWord(bs[i], bs[i].addr) && HeaderWord(bs[i], bs[i].addr + 4);
  }

  // ---- the blocks in use

  ghost function InUse(bs: seq<Block>): set<Block> { set b | b in bs && b.used }

  lemma LaidApart(bs: seq<Block>, lo: int, hi: int, i: nat, j: nat)
    requires Laid(bs, lo, hi) && i < j < |bs|
    ensures bs[i] != bs[j]
  {
    assert bs[i].addr + HDR + bs[i].size <= bs[j].addr;
  }

  lemma InSplice(bs: seq<Block>, i: nat, k: nat, ns: seq<Block>, b: Block)
    requires i + k <= |bs|
    ensures b in Splice(bs, i, k, ns) <==> b in bs[..i] || b in ns || b in bs[i + k..]
    ensures b in bs <==> b in bs[..i] || b in bs[i..i + k] || b in bs[i + k..]
  {
    assert bs == bs[..i] + bs[i..i + k] + bs[i + k..];
  }

  lemma OnlyInside(bs: seq<Block>, lo: int, hi: int, i: nat, k: nat, b: Block)
    requires Laid(bs, lo, hi) && i + k <= |bs| && b in bs[i..i + k]
    ensures b !in bs[..i] && b !in bs[i + k..]
  {
    hide Laid;
    var n :| i <= n < i + k && bs[n] == b;
    forall j | 0 <= j < i
      ensures bs[j] != b
    {
      LaidApart(bs, lo, hi, j, n);
    }
    forall j | i + k <= j < |bs|
      ensures bs[j] != b
    {
      LaidApart(bs, lo, hi, n, j);
    }
  }

  /** A splice takes the blocks it replaces out of use and puts the new ones in. */
  lemma SpliceUsed(bs: seq<Block>, lo: int, hi: int, i: nat, k: nat, ns: seq<Block>)
    requires Laid(bs, lo, hi) && i + k <= |bs|
    ensures InUse(Splice(bs, i, k, ns)) == InUse(bs) - InUse(bs[i..i + k]) + InUse(ns)
  {
    hide Laid, Splice;
    forall b
      ensures b in InUse(Splice(bs, i, k, ns)) <==> b in InUse(bs) - InUse(bs[i..i + k]) + InUse(ns)
    {
      InSplice(bs, i, k, ns, b);
      if b in bs[i..i + k] {
        OnlyInside(bs, lo, hi, i, k, b);
      }
    }
  }

  /** Handing out a free block puts one of exactly count bytes into use, at its address, and
      leaves all others alone. */
  lemma AllocUsed(bs: seq<Block>, lo: int, hi: int, i: nat, count: int)
    requires Laid(bs, lo, hi) && i < |bs| && !bs[i].used
    ensures InUse(Alloc(bs, i, count)) == InUse(bs) + {Block(bs[i].addr, count, true)}
  {
    hide Laid, Splice;
    SpliceUsed(bs, lo, hi, i, 1, AllocNew(bs[i], count));
    assert bs[i..i + 1] == [bs[i]];
  }

  lemma MergeUsed(bs: seq<Block>, lo: int, hi: int, i: nat)
    requires Laid(bs, lo, hi) && i + 1 < |bs| && !bs[i].used && !bs[i + 1].used
    ensures InUse(Merge(bs, i)) == InUse(bs)
  {
    hide Laid, Splice;
    SpliceUsed(bs, lo, hi, i, 2, [Block(bs[i].addr, bs[i].size + HDR + bs[i + 1].size, false)]);
    assert bs[i..i + 2] == [bs[i], bs[i + 1]];
  }

  lemma FreedInUse(bs: seq<Block>, lo: int, hi: int, i: nat)
    requires Laid(bs, lo, hi) && i < |bs| && bs[i].used
    ensures var cs := bs[i := bs[i].(used := false)]; Laid(cs, lo, hi) && InUse(cs) == InUse(bs) - {bs[i]}
  {
    var f := bs[i].(used := false);
    SpliceHere(bs, i, f);
    SpliceLaid(bs, lo, hi, i, 1, [f]);
    hide Laid, Splice;
    SpliceUsed(bs, lo, hi, i, 1, [f]);
    assert bs[i..i + 1] == [bs[i]];
  }

  lemma MergeIfFreeUsed(bs: seq<Block>, lo: int, hi: int, i: nat)
    requires Laid(bs, lo, hi) && i < |bs| && !bs[i].used
    ensures var cs := MergeIfFree(bs, i);
      && Laid(cs, lo, hi) && InUse(cs) == InUse(bs)
      && i < |cs| && !cs[i].used && (i > 0 ==> cs[i - 1] == bs[i - 1])
  {
    hide Laid, InUse;
    if i + 1 < |bs| && !bs[i + 1].used {
      MergeUsed(bs, lo, hi, i);
      MergeLaid(bs, lo, hi, i);
    }
  }

  /** A free takes the block out of use and leaves all others alone. */
  lemma FreeUsed(bs: seq<Block>, lo: int, hi: int, i: nat)
    requires Laid(bs, lo, hi) && i < |bs| && bs[i].used
    ensures InUse(Free(bs, i)) == InUse(bs) - {bs[i]}
  {
    hide Laid, Merge, MergeIfFree, InUse;
    var cs := bs[i := bs[i].(used := false)];
    FreedInUse(bs, lo, hi, i);
    MergeIfFreeUsed(cs, lo, hi, i);
    var ds := MergeIfFree(cs, i);
    if i > 0 && !ds[i - 1].used {
      MergeUsed(ds, lo, hi, i - 1);
    }
  }
}
