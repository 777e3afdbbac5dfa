/** A read from the terminal that completes later: the read branch of
    src/arch/x86/syscall.c, vfs_read and vfs_send_read_res in src/sys/vfs.c, and tty_read
    and tty_type in src/dev/tty.c. */
module TerminalRead {

  datatype Outcome = Returned(value: int) | Panicked

  const VFS_READ_ASYNC := -2

  // ---- the protocol on values

  /** A pending read: where to, how much, and the keys it has been given. */
  datatype State = Idle | Reading(buf: int, len: nat, got: seq<int>)

  /** One key. */
  function Key(s: State, c: int): State {
    match s
    case Idle => Idle
    case Reading(buf, len, got) =>
      if len == 0 || |got| + 1 == len then Idle else Reading(buf, len, got + [c])
  }

  function Keys(s: State, cs: seq<int>): State
    decreases |cs|
  {
    if cs == [] then s else Keys(Key(s, cs[0]), cs[1..])
  }

  /** Keys to completion; a read of nothing waits for one as well. */
  function Needed(len: nat): nat { if len == 0 then 1 else len }

  lemma {:induction false} IdleStays(cs: seq<int>)
    ensures Keys(Idle, cs) == Idle
    decreases |cs|
  {
    if cs == [] {
    } else {
      IdleStays(cs[1..]);
    }
  }

  /** A read is pending until exactly its last key, and has the keys typed so far. */
  lemma {:induction false} CompletesExactly(buf: int, len: nat, got: seq<int>, cs: seq<int>)
    requires |got| < Needed(len)
    ensures Keys(Reading(buf, len, got), cs) == if |got| + |cs| < Needed(len) then Reading(buf, len, got + cs) else Idle
    decreases |cs|
  {
    if cs == [] {
      assert got + cs == got;
    } else if len == 0 || |got| + 1 == len {
      IdleStays(cs[1..]);
    } else {
      assert got + cs == got + [cs[0]] + cs[1..];
      CompletesExactly(buf, len, got + [cs[0]], cs[1..]);
    }
  }

  function Min(a: int, b: int): int { if a < b then a else b }

  /** What vfs_send_read_res makes of the count so far: each piece is cut to the whole
      length and not to what is left of it. */
  function Advance(res: int, len: nat, count: nat): int { res + Min(count, len) }

  /** So a piece ends the read exactly when it fills it to the byte; one that is larger than
      what is left runs past the buffer's end. The one caller, tty.c:94, delivers single
      bytes, which never do: the overrun is latent. */
  lemma Overruns(res: int, len: nat, count: nat)
    requires 0 <= res < len
    ensures Advance(res, len, count) == len <==> count == len - res || (res == 0 && count >= len)
    ensures Advance(res, len, count) > len <==> res > 0 && count > len - res
  {
  }

  function Total(res: int, len: nat, counts: seq<nat>): int
    decreases |counts|
  {
    if counts == [] then res else Total(Advance(res, len, counts[0]), len, counts[1..])
  }

  /** The count never shrinks, so a read that has run past its length does not end. */
  lemma {:induction false} NeverEnds(res: int, len: nat, counts: seq<nat>)
    requires res > len
    ensures Total(res, len, counts) > len
    decreases |counts|
  {
    if counts == [] {
    } else {
      NeverEnds(Advance(res, len, counts[0]), len, counts[1..]);
    }
  }

  // ---- the code

  class Task {
    var busy: bool
    /** Its memory, by address. */
    var mem: map<int, int>

    constructor ()
      ensures !busy
    {
      busy, mem := false, map[];
    }
  }

  /** Bytes copied to an address. */
  function Stored(m: map<int, int>, a: int, bytes: seq<int>): map<int, int>
    decreases |bytes|
  {
    if bytes == [] then m else Stored(m[a := bytes[0]], a + 1, bytes[1..])
  }

  ghost predicate HasBytes(m: map<int, int>, a: int, bytes: seq<int>) {
    forall x :: a <= x < a + |bytes| ==> x in m && m[x] == bytes[x - a]
  }

  /** From a on there are n bytes that may differ. */
  ghost predicate SameBut(m: map<int, int>, m': map<int, int>, a: int, n: nat) {
    forall x :: !(a <= x < a + n) ==> (x in m <==> x in m') && (x in m ==> m'[x] == m[x])
  }

  /** Byte k goes to address a + k, and nothing anywhere else. */
  lemma {:induction false} StoredIs(m: map<int, int>, a: int, bytes: seq<int>)
    ensures HasBytes(Stored(m, a, bytes), a, bytes) && SameBut(m, Stored(m, a, bytes), a, |bytes|)
    decreases |bytes|
  {
    if bytes == [] {
    } else {
      StoredIs(m[a := bytes[0]], a + 1, bytes[1..]);
    }
  }

  /** An open file on the terminal; op_res points at the saved register of the task. */
  class File {
    const canRead: bool
    const task: Task
    var opBuf: int
    var opRes: int
    var opLen: nat

    constructor (canRead: bool, task: Task)
      ensures opBuf == 0 && this.canRead == canRead && this.task == task
    {
      this.canRead, this.task, opBuf, opRes, opLen := canRead, task, 0, 0, 0;
    }

    /** vfs_send_read_res. */
    method SendReadRes(src: seq<int>) returns (res: int)
      requires opBuf != 0 && 0 <= opRes + 1
      modifies this`opBuf, this`opRes, task`busy, task`mem
      ensures old(opRes) == -1 ==> res == 1 && opBuf == 0 && opRes == -1 && task.mem == old(task.mem) && task.busy == old(task.busy)
      ensures old(opRes) >= 0 ==>
        && opRes == Advance(old(opRes), opLen, |src|)
        && task.mem == Stored(old(task.mem), old(opBuf) + old(opRes), src[..Min(|src|, opLen)])
        && HasBytes(task.mem, old(opBuf) + old(opRes), src[..Min(|src|, opLen)])
        && SameBut(old(task.mem), task.mem, old(opBuf) + old(opRes), Min(|src|, opLen))
        && (res == 1 <==> opRes == opLen) && (res == 0 <==> opRes != opLen)
        && opBuf == (if res == 1 then 0 else old(opBuf)) && task.busy == (old(task.busy) && res == 0)
    {
      if opRes == -1 {
        opBuf := 0;
        return 1;
      }
      var sz := if |src| > opLen then opLen else |src|;
      StoredIs(task.mem, opBuf + opRes, src[..sz]);
      task.mem := Stored(task.mem, opBuf + opRes, src[..sz]);
      opRes := opRes + sz;
      if opRes == opLen {
        opBuf := 0;
        task.busy := false;
        return 1;
      }
      res := 0;
    }
  }

  lemma StoredOne(m: map<int, int>, a: int, src: seq<int>, len: nat)
    requires |src| == 1
    ensures Stored(m, a, src[..Min(|src|, len)]) == if len == 0 then m else m[a := src[0]]
  {
    if len > 0 {
      assert src[..1][1..] == [];
      assert Stored(m, a, src[..1]) == Stored(m[a := src[0]], a + 1, src[..1][1..]);
    }
  }

  class Terminal {
    var pending: File?
    /** Every file on the terminal, and the keys typed since the pending read began. */
    ghost var files: set<File>
    ghost var typed: seq<int>

    ghost function Footprint(): set<object>
      reads this, files
    {
      {this} + files + (set f | f in files :: f.task)
    }

    ghost function Value(): State
      reads this, pending
    {
      if pending == null then Idle else Reading(pending.opBuf, pending.opLen, typed)
    }

    /** The pending file, its lock and its task's busy flag go together, and the buffer
        holds the keys typed since the read. */
    ghost predicate Valid()
      reads Footprint()
    {
      && (pending != null ==> pending in files)
      && (forall f :: f in files ==> (f.opBuf != 0 <==> f == pending))
      && (forall f :: f in files ==> (f.task.busy <==> pending != null && f.task == pending.task))
      && (pending != null ==>
            && pending.opRes == |typed| < Needed(pending.opLen)
            && (pending.opLen > 0 ==> HasBytes(pending.task.mem, pending.opBuf, typed)))
    }

    constructor ()
      ensures Valid() && Value() == Idle && files == {}
    {
      pending, files, typed := null, {}, [];
    }

    /** Another file on the terminal, as fork and execve open them. */
    ghost method Attach(f: File)
      requires Valid() && f !in files && f.opBuf == 0 && f.task.busy == (pending != null && f.task == pending.task)
      modifies this`files
      ensures Valid() && Value() == old(Value()) && files == old(files) + {f}
    {
      files := files + {f};
    }

    /** The read branch of x86_syscall, through vfs_read and tty_read. A second reader
        panics; so does, at its first key, a read into address 0. */
    method Read(f: File, buf: int, len: nat) returns (res: Outcome)
      requires Valid() && f in files
      modifies this`pending, this`typed, f`opBuf, f`opRes, f`opLen, f.task`busy
      ensures !f.canRead ==> res == Returned(-1) && Valid() && Value() == old(Value())
      ensures f.canRead ==> (res.Panicked? <==> old(pending) != null)
      ensures f.canRead && res.Returned? ==>
        && res.value == VFS_READ_ASYNC && pending == f && f.task.busy && Value() == Reading(buf, len, [])
        && (buf != 0 ==> Valid())
    {
      if !f.canRead {
        return Returned(-1);
      }
      if f.opBuf != 0 {
        return Panicked;
      }
      f.opBuf, f.opRes, f.opLen := buf, 0, len;
      if pending != null {
        return Panicked;
      }
      pending, typed := f, [];
      f.task.busy := true;
      res := Returned(VFS_READ_ASYNC);
    }

    /** tty_type. */
    method Type(c: int) returns (res: Outcome)
      requires Valid()
      modifies this`pending, this`typed, pending, if pending != null then {pending.task} else {}
      ensures res.Returned? && Valid() && Value() == Key(old(Value()), c)
      ensures old(pending) != null ==> var f, keys := old(pending), old(typed) + [c];
        && (pending == null <==> |keys| == Needed(f.opLen)) && f.opLen == old(pending.opLen)
        && (pending == null ==> !f.task.busy && f.opBuf == 0 && f.opRes == f.opLen)
        && (f.opLen > 0 ==> HasBytes(f.task.mem, old(pending.opBuf), keys))
    {
      if pending != null {
        assert pending.opBuf != 0;
        var src := [c];
        StoredOne(pending.task.mem, pending.opBuf + pending.opRes, src, pending.opLen);
        var r := pending.SendReadRes(src);
        typed := typed + [c];
        if r == 1 {
          pending := null;
        }
      }
      res := Returned(0);
    }
  }
}
