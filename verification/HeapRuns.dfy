/** Runs of one heap region's operations, src/sys/heap.c:135-336, in memory and on the
    list of blocks that memory spells. */
module HeapRuns {
  import opened HeapBlocks
  import opened HeapRealloc
  import Heap

  /** Block i handed out for count bytes, freed, or resized to count bytes. */
  datatype Op = Take(i: nat, count: int) | Give(i: nat) | Change(i: nat, count: int)

  /** Memory, and the list of blocks in it. */
  datatype State = State(m: Mem, bs: seq<Block>)

  /** What the operations are called on: a free block that fits, a used block, and a used
      block with a resize that does not panic and that the writes carry out right. */
  predicate Allowed(bs: seq<Block>, op: Op) {
    op.i < |bs| &&
    match op
    case Take(i, count) => Fits(bs[i], count) && 0 <= count
    case Give(i) => bs[i].used
    case Change(i, count) => bs[i].used && 0 <= count && !Resize(bs, i, count).Panics? && Sound(bs, i, count)
  }

  function StepList(bs: seq<Block>, op: Op): seq<Block>
    requires Allowed(bs, op)
  {
    match op
    case Take(i, count) => Alloc(bs, i, count)
    case Give(i) => Free(bs, i)
    case Change(i, count) => Realloc(bs, i, count)
  }

  /** The writes of the operation, at the block's address. */
  function StepMemory(m: Mem, bs: seq<Block>, op: Op): Mem
    requires Allowed(bs, op)
  {
    var it := bs[op.i].addr;
    match op
    case Take(_, count) => Heap.AllocWrites(m, it, count)
    case Give(_) => FreeWrites(m, it)
    case Change(_, count) => ReallocWrites(m, it, count)
  }

  function Step(s: State, op: Op): State
    requires Allowed(s.bs, op)
  {
    State(StepMemory(s.m, s.bs, op), StepList(s.bs, op))
  }

  /** Bytes of the region that no block accounts for afterwards. */
  function Cost(bs: seq<Block>, op: Op): int
    requires Allowed(bs, op)
  {
    match op
    case Take(i, count) => Heap.Slack(bs[i], count)
    case Give(_) => 0
    case Change(i, count) => Lost(bs, i, count)
  }

  ghost predicate Legal(s: State, ops: seq<Op>)
    decreases |ops|
  {
    ops == [] || (Allowed(s.bs, ops[0]) && Legal(Step(s, ops[0]), ops[1..]))
  }

  ghost function Run(s: State, ops: seq<Op>): State
    requires Legal(s, ops)
    decreases |ops|
  {
    if ops == [] then s else Run(Step(s, ops[0]), ops[1..])
  }

  ghost function Costs(s: State, ops: seq<Op>): int
    requires Legal(s, ops)
    decreases |ops|
  {
    if ops == [] then 0 else Cost(s.bs, ops[0]) + Costs(Step(s, ops[0]), ops[1..])
  }

  /** One operation: the writes leave memory spelling the new list, inside the region; every
      other used block keeps its bytes, and the block itself those a resize keeps, or all when
      it is freed. */
  lemma StepKeeps(s: State, lo: int, hi: int, op: Op)
    requires Region(s.m, s.bs, lo, hi) && Allowed(s.bs, op)
    ensures var t := Step(s, op);
      && Region(t.m, t.bs, lo, hi) && Within(s.m, t.m, lo, hi) && Total(t.bs) == Total(s.bs) - Cost(s.bs, op)
      && (forall j :: 0 <= j < |s.bs| && j != op.i && s.bs[j].used ==> PayloadKept(s.m, t.m, s.bs[j]))
      && (op.Give? ==> PayloadKept(s.m, t.m, s.bs[op.i]))
      && (op.Change? ==> PayloadKept(s.m, t.m, s.bs[op.i].(size := Heap.Min(s.bs[op.i].size, op.count))))
    ensures var b, used := s.bs[op.i], InUse(Step(s, op).bs);
      match op
      case Take(_, count) => used == InUse(s.bs) + {Block(b.addr, count, true)}
      case Give(_) => used == InUse(s.bs) - {b}
      case Change(_, count) => used == InUse(s.bs) - {b} + {Block(b.addr, if 0 < b.size - count < 16 then b.size else count, true)}
  {
    assert Laid(s.bs, lo, hi);
    hide Region, Laid, InUse, Within, PayloadKept, Total, Alloc, Free, Realloc, Lost, Resize, Sound, Heap.Slack, Heap.AllocWrites, FreeWrites, ReallocWrites;
    match op
    case Take(i, count) =>
      Heap.AllocStep(s.m, s.bs, lo, hi, i, count);
      AllocUsed(s.bs, lo, hi, i, count);
    case Give(i) =>
      Heap.FreeStep(s.m, s.bs, lo, hi, i);
      FreeUsed(s.bs, lo, hi, i);
    case Change(i, count) =>
      Heap.ReallocStep(s.m, s.bs, lo, hi, i, count);
      ReallocUsed(s.bs, lo, hi, i, count);
  }

  /** Over every run memory stays a doubly linked list of blocks in address order, disjoint,
      no two neighbours free, and the region's space is what it was less the costs. When
      everything has been given back it is one free block. */
  lemma {:induction false} RunKeeps(s: State, lo: int, hi: int, ops: seq<Op>)
    requires Region(s.m, s.bs, lo, hi) && Legal(s, ops)
    ensures var t := Run(s, ops);
      && Region(t.m, t.bs, lo, hi) && Within(s.m, t.m, lo, hi) && Total(t.bs) == Total(s.bs) - Costs(s, ops)
      && ((forall i :: 0 <= i < |t.bs| ==> !t.bs[i].used) ==>
            |t.bs| == 1 && t.bs[0].addr == lo && t.bs[0].size + HDR == Total(s.bs) - Costs(s, ops))
    decreases |ops|
  {
    if ops == [] {
      if forall i :: 0 <= i < |s.bs| ==> !s.bs[i].used {
        AllFreeIsOne(s.bs);
        TotalShort(s.bs);
      }
    } else {
      hide Region, Total, Step, Cost, Allowed;
      StepKeeps(s, lo, hi, ops[0]);
      RunKeeps(Step(s, ops[0]), lo, hi, ops[1..]);
    }
  }

  /** A resize the source gets wrong is one of a block with slack behind it to its own size:
      28 bytes handed out whole for 20, before a free block. Memory no longer spells the list,
      though the list itself allows the resize. */
  lemma SlackResizeGoesWrong(m: Mem, bs: seq<Block>)
    requires bs == [Block(0x1000, 20, true), Block(0x102C, 100, false)] && Spells(m, bs)
    ensures Laid(bs, 0x1000, 0x10A0) && NoTwoFree(bs) && Resize(bs, 0, 20).Change? && !Sound(bs, 0, 20)
    ensures Realloc(bs, 0, 20) == GrownList(bs, 0, 20) && ReallocWrites(m, 0x1000, 20) == GrowSplit(m, 0x1000, 20)
    ensures !Spells(ReallocWrites(m, 0x1000, 20), Realloc(bs, 0, 20))
  {
    assert HeaderIs(m, bs, 0) && HeaderIs(m, bs, 1);
    hide GrowSplit, Spells;
    GrowSplitExact(m, bs, 0x1000, 0x10A0, 0, 20);
  }

  /** A block taken whole costs less than a header. A resize costs a header at most exactly
      where it does not cut more than one off the last block, and then it costs the whole
      cut. */
  lemma CostBound(bs: seq<Block>, op: Op)
    requires Allowed(bs, op)
    ensures 0 <= Cost(bs, op)
    ensures op.Take? ==> Cost(bs, op) < HDR
    ensures op.Change? ==> (Cost(bs, op) <= HDR <==> !(op.i + 1 == |bs| && bs[op.i].size - op.count > HDR))
    ensures op.Change? && op.i + 1 == |bs| && bs[op.i].size - op.count >= HDR ==> Cost(bs, op) == bs[op.i].size - op.count
  {
  }
}
