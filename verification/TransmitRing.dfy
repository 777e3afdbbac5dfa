/** The RTL8139's four-slot transmit ring, src/dev/pci/net/rtl8139.c. */
module TransmitRing {

  const SLOTS := 4
  const SLOT_SIZE := 1024

  /** Bits 0 to 3 of the status byte: the slot is taken; bit 7: an operation is in flight. */
  const TXOP := 7

  datatype Isr = ROK | RER | TOK | TER

  /** The queue the ring stands for: packets in the order they were accepted, how many of
      them the hardware was given, and how many it has completed. */
  datatype Fifo = Fifo(accepted: seq<seq<int>>, handed: nat, done: nat)

  ghost predicate Orderly(f: Fifo) {
    && f.done <= f.handed <= |f.accepted| <= f.done + SLOTS
    && f.handed <= f.done + 1
    && (f.handed == f.done ==> f.handed == |f.accepted|)
  }

  /** A send: refused when too long or when four packets are on their way. */
  function Send(f: Fifo, packet: seq<int>): Fifo {
    if |packet| > SLOT_SIZE || |f.accepted| >= f.done + SLOTS then f
    else f.(accepted := f.accepted + [packet], handed := if f.handed == f.done then f.handed + 1 else f.handed)
  }

  /** A transmit-OK: the packet in flight is done and the next, if any, is handed over. */
  function Complete(f: Fifo): Fifo {
    f.(done := f.done + 1, handed := if f.handed < |f.accepted| then f.handed + 1 else f.handed)
  }

  /** The queue, and how many packets the hardware is through with: for each it was given it
      raises a transmit-OK or a transmit error. */
  datatype Ring = Ring(fifo: Fifo, raised: nat)

  ghost predicate InOrder(r: Ring) {
    Orderly(r.fifo) && r.fifo.done <= r.raised <= r.fifo.handed
  }

  /** A send; a transmit-OK; one that comes together with a receive-OK, or while a receive-OK
      or error is being acknowledged, which the handler acknowledges as well and does nothing
      about; and a transmit error, for which it has no branch. */
  datatype Op = Post(packet: seq<int>) | Ok | OkUnseen | Error

  /** An interrupt for a packet after which the handler leaves the ring as it was. */
  predicate IsLost(op: Op) { op.OkUnseen? || op.Error? }

  function Step(r: Ring, op: Op): Ring {
    match op
    case Post(packet) => r.(fifo := Send(r.fifo, packet))
    case Ok => Ring(Complete(r.fifo), r.raised + 1)
    case _ => r.(raised := r.raised + 1)
  }

  /** The hardware raises one of these interrupts at most for every packet it was given. */
  predicate Legal(r: Ring, ops: seq<Op>)
    decreases |ops|
  {
    ops == [] || ((!ops[0].Post? ==> r.raised < r.fifo.handed) && Legal(Step(r, ops[0]), ops[1..]))
  }

  function Run(r: Ring, ops: seq<Op>): Ring
    decreases |ops|
  {
    if ops == [] then r else Run(Step(r, ops[0]), ops[1..])
  }

  function Oks(ops: seq<Op>): nat {
    if ops == [] then 0 else (if ops[0].Ok? then 1 else 0) + Oks(ops[1..])
  }

  /** Over every run packets stay in the order of acceptance, at most one is in flight and
      none waits while nothing is; every transmit-OK that is seen completes one. */
  lemma {:induction false} RunOrderly(r: Ring, ops: seq<Op>)
    requires InOrder(r) && Legal(r, ops)
    ensures var t := Run(r, ops);
      && InOrder(t) && r.fifo.accepted <= t.fifo.accepted && r.fifo.handed <= t.fifo.handed
      && t.fifo.done == r.fifo.done + Oks(ops)
    decreases |ops|
  {
    if ops == [] {
    } else {
      RunOrderly(Step(r, ops[0]), ops[1..]);
    }
  }

  /** As many transmit-OKs seen as packets are on their way hand all of them over, in order,
      each once, and complete them. */
  lemma Drains(r: Ring, ops: seq<Op>)
    requires InOrder(r) && Legal(r, ops) && Oks(ops) >= |r.fifo.accepted| - r.fifo.done
    ensures var f, g := r.fifo, Run(r, ops).fifo;
      |f.accepted| <= g.done <= g.handed <= |g.accepted| && f.accepted <= g.accepted[..g.handed]
  {
    RunOrderly(r, ops);
  }

  /** Every interrupt raised for a packet has completed it. */
  predicate AllSeen(r: Ring) { r.raised == r.fifo.done }

  /** A packet whose interrupt has not completed it stops the ring for good: over every run
      after it the hardware raises no other, nothing more is handed over or completed, and the
      ring fills up and refuses. */
  lemma {:induction false} StallsForGood(r: Ring, ops: seq<Op>)
    requires InOrder(r) && !AllSeen(r) && Legal(r, ops)
    ensures var t := Run(r, ops);
      && t.fifo.handed == r.fifo.handed && t.fifo.done == r.fifo.done && t.raised == r.raised && !AllSeen(t)
      && r.fifo.accepted <= t.fifo.accepted && |t.fifo.accepted| <= r.fifo.done + SLOTS
    ensures forall i :: 0 <= i < |ops| ==> ops[i].Post?
    decreases |ops|
  {
    if ops == [] {
    } else {
      assert ops[0].Post?;
      StallsForGood(Step(r, ops[0]), ops[1..]);
      assert forall i :: 1 <= i < |ops| ==> ops[i] == ops[1..][i - 1];
    }
  }

  /** The ring can go on: after some more sends and interrupts another packet is handed over. */
  ghost predicate GoesOn(r: Ring) {
    exists ops :: Legal(r, ops) && Run(r, ops).fifo.handed > r.fifo.handed
  }

  /** How it goes on: with a send when nothing is in flight, and with a transmit-OK, behind a
      send if nothing waits, when something is. */
  function NextOps(r: Ring): seq<Op> {
    var f := r.fifo;
    if f.handed == f.done then [Post([])] else if f.handed < |f.accepted| then [Ok] else [Post([]), Ok]
  }

  lemma CanGoOn(r: Ring)
    requires InOrder(r) && AllSeen(r)
    ensures Legal(r, NextOps(r)) && Run(r, NextOps(r)).fifo.handed > r.fifo.handed
  {
    var t := Step(r, NextOps(r)[0]);
    assert Run(t, []) == t && Legal(t, []);
    if r.fifo.handed == |r.fifo.accepted| != r.fifo.done {
      assert NextOps(r)[1..] == [Ok] && [Ok][1..] == [];
      assert Run(Step(t, Ok), []) == Step(t, Ok);
    } else {
      assert NextOps(r)[1..] == [];
    }
  }

  lemma GoesOnExactly(r: Ring)
    requires InOrder(r)
    ensures GoesOn(r) <==> AllSeen(r)
  {
    if AllSeen(r) {
      CanGoOn(r);
    } else {
      forall ops | Legal(r, ops)
        ensures Run(r, ops).fifo.handed == r.fifo.handed
      {
        StallsForGood(r, ops);
      }
    }
  }

  lemma {:induction false} SeenExactly(r: Ring, ops: seq<Op>)
    requires InOrder(r) && AllSeen(r) && Legal(r, ops)
    ensures AllSeen(Run(r, ops)) <==> forall i :: 0 <= i < |ops| ==> !IsLost(ops[i])
    decreases |ops|
  {
    if ops == [] {
    } else {
      var t := Step(r, ops[0]);
      if IsLost(ops[0]) {
        StallsForGood(t, ops[1..]);
      } else {
        SeenExactly(t, ops[1..]);
        assert forall i :: 1 <= i < |ops| ==> ops[i] == ops[1..][i - 1];
      }
    }
  }

  /** After a run the ring can hand over another packet if and only if no transmit-OK of the
      run was acknowledged unseen and no packet failed. */
  lemma KeepsGoingExactly(r: Ring, ops: seq<Op>)
    requires InOrder(r) && AllSeen(r) && Legal(r, ops)
    ensures GoesOn(Run(r, ops)) <==> forall i :: 0 <= i < |ops| ==> !IsLost(ops[i])
  {
    hide GoesOn, AllSeen, IsLost;
    RunOrderly(r, ops);
    SeenExactly(r, ops);
    GoesOnExactly(Run(r, ops));
  }

  /** One packet, and its transmit error: the next send is accepted and never handed over. */
  lemma ErrorStops(p: seq<int>, q: seq<int>, ops: seq<Op>)
    requires |p| <= SLOT_SIZE && |q| <= SLOT_SIZE
    ensures var r := Ring(Fifo([], 0, 0), 0); var t := Run(r, [Post(p), Error, Post(q)]);
      && Legal(r, [Post(p), Error, Post(q)]) && t.fifo == Fifo([p, q], 1, 0)
      && (Legal(t, ops) ==> Run(t, ops).fifo.handed == 1)
  {
    var r := Ring(Fifo([], 0, 0), 0);
    var r1 := Step(r, Post(p));
    var r2 := Step(r1, Error);
    var t := Step(r2, Post(q));
    assert [Post(p), Error, Post(q)][1..] == [Error, Post(q)] && [Error, Post(q)][1..] == [Post(q)] && [Post(q)][1..] == [];
    assert Run(t, []) == t && Run(r2, [Post(q)]) == t && Run(r1, [Error, Post(q)]) == t;
    assert Legal(t, []) && Legal(r2, [Post(q)]) && Legal(r1, [Error, Post(q)]);
    assert t.fifo.accepted == [p, q];
    if Legal(t, ops) {
      StallsForGood(t, ops);
    }
  }

  ghost predicate SlotsTaken(status: set<int>, f: Fifo) {
    forall i :: 0 <= i < SLOTS ==> (i in status <==> (i - f.done) % SLOTS < |f.accepted| - f.done)
  }

  lemma SlotTaken(status: set<int>, f: Fifo, k: nat)
    requires SlotsTaken(status, f) && f.done <= k < f.done + SLOTS
    ensures k % SLOTS in status <==> k < |f.accepted|
  {
  }

  lemma SlotAdded(status: set<int>, f: Fifo, packet: seq<int>)
    requires SlotsTaken(status, f) && f.done <= |f.accepted| < f.done + SLOTS
    ensures SlotsTaken(status + {|f.accepted| % SLOTS}, f.(accepted := f.accepted + [packet]))
  {
    forall i | 0 <= i < SLOTS
      ensures i in status + {|f.accepted| % SLOTS} <==> (i - f.done) % SLOTS < |f.accepted| + 1 - f.done
    {
    }
  }

  lemma Wraps(h: int, d: int)
    ensures (h % SLOTS + d) % SLOTS == (h + d) % SLOTS && (h + SLOTS) % SLOTS == h % SLOTS
  {
  }

  /** Slot d places on from txRegNum. */
  lemma Probe(status: set<int>, f: Fifo, d: nat)
    requires SlotsTaken(status, f) && Orderly(f) && d < SLOTS
    ensures (f.handed % SLOTS + d) % SLOTS == (f.handed + d) % SLOTS
    ensures (f.handed + d) % SLOTS in status <==> f.handed + d < |f.accepted| || f.handed + d == f.done + SLOTS
  {
    Wraps(f.handed, d);
    Wraps(f.done, 0);
    hide SlotsTaken;
    if f.handed + d < f.done + SLOTS {
      SlotTaken(status, f, f.handed + d);
    } else {
      SlotTaken(status, f, f.done);
    }
  }

  lemma SlotsLeft(status: set<int>, f: Fifo)
    requires SlotsTaken(status, f) && f.done < |f.accepted| <= f.done + SLOTS
    ensures SlotsTaken(status - {f.done % SLOTS, TXOP}, f.(done := f.done + 1))
  {
    forall i | 0 <= i < SLOTS
      ensures i in status - {f.done % SLOTS, TXOP} <==> (i - (f.done + 1)) % SLOTS < |f.accepted| - (f.done + 1)
    {
    }
  }

  /** The slot of the packet just done, and the one that is next. */
  lemma SlotFreed(status: set<int>, f: Fifo)
    requires SlotsTaken(status, f) && f.done < |f.accepted| <= f.done + SLOTS && f.handed == f.done + 1
    ensures (f.handed % SLOTS - 1) % SLOTS == f.done % SLOTS && f.done % SLOTS in status
    ensures SlotsTaken(status - {f.done % SLOTS, TXOP}, f.(done := f.done + 1))
    ensures f.handed % SLOTS in status - {f.done % SLOTS, TXOP} <==> f.handed < |f.accepted|
  {
    Wraps(f.handed, -1);
    SlotTaken(status, f, f.done);
    SlotsLeft(status, f);
    hide SlotsTaken;
    SlotTaken(status - {f.done % SLOTS, TXOP}, f.(done := f.done + 1), f.handed);
  }

  lemma OtherSlot(was: seq<int>, now: seq<int>, slot: int, i: int, len: nat)
    requires |was| == |now| == SLOTS * SLOT_SIZE && 0 <= i < SLOTS && i != slot && len <= SLOT_SIZE
    requires forall a :: 0 <= a < |was| && !(SLOT_SIZE * slot <= a < SLOT_SIZE * (slot + 1)) ==> now[a] == was[a]
    ensures now[SLOT_SIZE * i..SLOT_SIZE * i + len] == was[SLOT_SIZE * i..SLOT_SIZE * i + len]
  {
  }

  class Nic {
    /** Bits set in the status byte. */
    var status: set<int>
    var txRegNum: int
    var buflen: array<int>
    var txbuf: array<int>
    /** What was written to the tsd registers, as the bytes it points the hardware at. */
    ghost var wire: seq<seq<int>>
    ghost var fifo: Fifo
    ghost var raised: nat

    /** Slot i holds the packet, length and bytes. */
    ghost predicate InSlot(i: int, packet: seq<int>)
      requires 0 <= i < SLOTS && buflen.Length == SLOTS && txbuf.Length == SLOTS * SLOT_SIZE
      reads this`buflen, this`txbuf, buflen, txbuf
    {
      |packet| <= SLOT_SIZE && buflen[i] == |packet| && txbuf[SLOT_SIZE * i..SLOT_SIZE * i + |packet|] == packet
    }

    ghost predicate Counted(f: Fifo)
      reads this`status, this`txRegNum, this`wire
    {
      && f.done <= f.handed <= |f.accepted| <= f.done + SLOTS && f.handed <= f.done + 1
      && txRegNum == f.handed % SLOTS
      && (TXOP in status <==> f.handed == f.done + 1)
      && SlotsTaken(status, f)
      && wire == f.accepted[..f.handed]
    }

    ghost predicate Contents(f: Fifo)
      reads this`buflen, this`txbuf, buflen, txbuf
    {
      && buflen.Length == SLOTS && txbuf.Length == SLOTS * SLOT_SIZE
      && forall k :: f.done <= k < |f.accepted| ==> InSlot(k % SLOTS, f.accepted[k])
    }

    /** The ring holds the queue: packet k lies in slot k mod 4 from its acceptance until its
        transmit-OK; the slots taken are those of the packets on their way, the one in flight
        and then a run from txRegNum; and the hardware got the packets in order, each once. */
    ghost predicate Filled(f: Fifo)
      reads this, buflen, txbuf
    {
      && Counted(f) && Contents(f)
    }

    ghost function Value(): Ring
      reads this`fifo, this`raised
    {
      Ring(fifo, raised)
    }

    ghost predicate Valid()
      reads this, buflen, txbuf
    {
      Filled(fifo) && InOrder(Value())
    }

    constructor ()
      ensures Valid() && Value() == Ring(Fifo([], 0, 0), 0) && fresh(buflen) && fresh(txbuf)
    {
      status, txRegNum, wire, fifo, raised := {}, 0, [], Fifo([], 0, 0), 0;
      buflen := new int[SLOTS];
      txbuf := new int[SLOTS * SLOT_SIZE];
    }

    /** rtl8139_alloc_txbuf: the first free slot from txRegNum on. */
    method AllocTxbuf() returns (res: int)
      requires Valid()
      modifies this`status
      ensures res == if |fifo.accepted| < fifo.done + SLOTS then |fifo.accepted| % SLOTS else -1
      ensures status == if res == -1 then old(status) else old(status) + {res}
      ensures res != -1 ==> forall p :: Counted(fifo.(accepted := fifo.accepted + [p]))
    {
      hide SlotsTaken;
      var d, i := 0, txRegNum;
      while d < SLOTS
        invariant 0 <= d <= SLOTS && i == (fifo.handed + d) % SLOTS && status == old(status)
        invariant fifo.handed + d <= |fifo.accepted| || |fifo.accepted| == fifo.done + SLOTS
      {
        Probe(status, fifo, d);
        if i !in status {
          forall p
            ensures SlotsTaken(status + {i}, fifo.(accepted := fifo.accepted + [p]))
          {
            SlotAdded(status, fifo, p);
          }
          status := status + {i};
          return i;
        }
        Wraps(fifo.handed + d, 1);
        i, d := (i + 1) % SLOTS, d + 1;
      }
      res := -1;
    }

    /** rtl8139_tx_sched: the packet in slot txRegNum goes out unless one is in flight. */
    method TxSched(ghost f: Fifo) returns (ghost f': Fifo)
      requires Filled(f) && (f.handed == f.done ==> f.handed < |f.accepted|)
      modifies this`status, this`txRegNum, this`wire
      ensures Filled(f') && Orderly(f')
      ensures f' == if f.handed == f.done then f.(handed := f.handed + 1) else f
    {
      f' := f;
      if TXOP !in status {
        assert txRegNum in status;
        assert InSlot(f.handed % SLOTS, f.accepted[f.handed]);
        wire := wire + [txbuf[SLOT_SIZE * txRegNum..SLOT_SIZE * txRegNum + buflen[txRegNum]]];
        txRegNum := (txRegNum + 1) % SLOTS;
        status := status + {TXOP};
        f' := f.(handed := f.handed + 1);
      }
    }

    /** The memcpy of line 143. */
    method Copy(slot: int, packet: seq<int>)
      requires 0 <= slot < SLOTS && txbuf.Length == SLOTS * SLOT_SIZE && |packet| <= SLOT_SIZE
      modifies txbuf
      ensures txbuf[SLOT_SIZE * slot..SLOT_SIZE * slot + |packet|] == packet
      ensures forall a :: 0 <= a < txbuf.Length && !(SLOT_SIZE * slot <= a < SLOT_SIZE * (slot + 1)) ==> txbuf[a] == old(txbuf[a])
    {
      var j := 0;
      while j < |packet|
        invariant 0 <= j <= |packet|
        invariant txbuf[SLOT_SIZE * slot..SLOT_SIZE * slot + j] == packet[..j]
        invariant forall a :: 0 <= a < txbuf.Length && !(SLOT_SIZE * slot <= a < SLOT_SIZE * (slot + 1)) ==> txbuf[a] == old(txbuf[a])
      {
        txbuf[SLOT_SIZE * slot + j] := packet[j];
        j := j + 1;
      }
    }

    /** Lines 140-143: the packet goes into the free slot; the others are not touched. */
    method Fill(slot: int, packet: seq<int>, ghost f: Fifo)
      requires Contents(f) && f.done <= |f.accepted| < f.done + SLOTS && slot == |f.accepted| % SLOTS && |packet| <= SLOT_SIZE
      modifies buflen, txbuf
      ensures Contents(f.(accepted := f.accepted + [packet]))
    {
      buflen[slot] := |packet| % 0x1000;
      Copy(slot, packet);
      ghost var f1 := f.(accepted := f.accepted + [packet]);
      forall k | f1.done <= k < |f1.accepted|
        ensures InSlot(k % SLOTS, f1.accepted[k])
      {
        if k < |f.accepted| {
          assert old(InSlot(k % SLOTS, f.accepted[k]));
          OtherSlot(old(txbuf[..]), txbuf[..], slot, k % SLOTS, |f.accepted[k]|);
        }
      }
    }

    /** rtl8139_tx. */
    method Tx(packet: seq<int>) returns (res: int)
      requires Valid()
      modifies this`status, this`txRegNum, this`wire, this`fifo, buflen, txbuf
      ensures Valid() && Value() == Step(old(Value()), Post(packet))
      ensures res == if |packet| > 1024 || |old(fifo.accepted)| == old(fifo.done) + 4 then -1 else 0
      ensures fifo.accepted == old(fifo.accepted) + (if res == 0 then [packet] else []) && fifo.done == old(fifo.done)
      ensures wire == old(wire) + (if res == 0 && old(fifo.handed == fifo.done) then [packet] else [])
    {
      if |packet| > SLOT_SIZE {
        return -1;
      }
      var slot := AllocTxbuf();
      if slot == -1 {
        return -1;
      }
      status := status + {slot};
      Fill(slot, packet, fifo);
      ghost var f := fifo.(accepted := fifo.accepted + [packet]);
      if txRegNum == slot {
        f := TxSched(f);
      }
      fifo := f;
      res := 0;
    }

    /** The interrupt handler. late are the bits that come up before it writes the status
        register; what it writes back holds every bit up by then, so that a transmit-OK among
        them, or one read with a receive-OK, is acknowledged without being seen. A transmit
        error is in the interrupt mask and has no branch; its bit can still be up when there is
        nothing in flight that it could be about. */
    method Irq(isr: set<Isr>, late: set<Isr>) returns (res: int, written: set<Isr>)
      requires Valid() && (TOK in isr + late ==> raised < fifo.handed && TER !in isr + late)
      modifies this`status, this`txRegNum, this`wire, this`fifo, this`raised
      ensures Valid()
      ensures Value() ==
        var seen := if ROK in isr || TOK in isr || RER in isr then isr + late else isr;
        if TOK in isr && ROK !in isr then Step(old(Value()), Ok)
        else if TOK in seen then Step(old(Value()), OkUnseen)
        else if TER in seen && old(raised < fifo.handed) then Step(old(Value()), Error)
        else old(Value())
      ensures res == if ROK in isr || TOK in isr || RER in isr then 0 else -1
      ensures written == if res == 0 then isr + late else {}
      ensures fifo.accepted == old(fifo.accepted)
      ensures var next := old(fifo.handed);
        if TOK in isr && ROK !in isr then
          && fifo.done == old(fifo.done) + 1
          && wire == old(wire) + (if next < |old(fifo.accepted)| then [old(fifo.accepted)[next]] else [])
        else fifo.done == old(fifo.done) && wire == old(wire)
    {
      res, written := 0, {};
      ghost var seen := if ROK in isr || TOK in isr || RER in isr then isr + late else isr;
      raised := raised + if TOK in seen || (TER in seen && raised < fifo.handed) then 1 else 0;
      if ROK in isr {
        written := isr + late + {ROK};
      } else if TOK in isr {
        ghost var f := fifo.(done := fifo.done + 1);
        var txop := (txRegNum - 1) % SLOTS;
        SlotFreed(status, fifo);
        hide SlotsTaken;
        status := status - {txop, TXOP};
        written := isr + late + {TOK};
        if txRegNum in status {
          f := TxSched(f);
        }
        fifo := f;
      } else if RER in isr {
        written := isr + late + {RER};
      } else {
        res := -1;
      }
    }
  }
}
