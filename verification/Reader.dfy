/**
 The incremental reply reader: an input buffer with a cursor in front of the task
 stack.

 `pending` is the ghost record of every byte fed since the last emitted reply.
 The contracts of `Feed` and `GetReply` speak only of `pending` and of the
 grammar, so that chunk boundaries, the task stack, the trimming of the buffer
 and its replacement are invisible to a caller.
 */
module Reader {
  import opened Bytes
  import opened Resp
  import opened ReaderMachine
  import opened ReplyObjects
  import opened Scan
  import opened TaskStack
  import Sds

  const MAX_UNUSED: nat := 1024 * 16
  const TRIM_AT: nat := 1024

  class Reader {
    var err: Option<Resp.Fault>
    var buf: bytes
    var avail: nat       // unused capacity of the buffer
    var pos: nat
    var len: nat
    var maxbuf: nat
    const tasks: TaskStack
    ghost var pending: bytes

    ghost function Unread(): bytes
      reads this`buf, this`pos
      requires pos <= |buf|
    {
      buf[pos..]
    }

    ghost predicate BufferOk()
      reads this`buf, this`pos, this`len
    {
      pos <= len == |buf|
    }

    /** The invariant between calls. With a reply under way, whatever bytes come
        next, going on from the current stack gives what parsing all pending bytes
        afresh would give. */
    ghost predicate Valid()
      reads this, tasks, tasks.rstack
    {
      && BufferOk()
      && tasks.Valid()
      && match (err, tasks.state)
         case (Some(_), st) => st.None? && buf == [] && pending == []
         case (None, None) => pending == Unread()
         case (None, Some(st)) => st.Working? && Ok(st) && Tracks(pending, st, Unread())
    }

    constructor ()
      ensures Valid() && fresh(tasks) && fresh(tasks.rstack)
      ensures err.None? && pending == [] && tasks.store == []
    {
      err, buf, avail, pos, len, maxbuf := None, [], 0, 0, 0, MAX_UNUSED;
      tasks := new TaskStack();
      pending := [];
    }

    /** Appends a chunk to the buffer, replacing an empty oversized buffer first. */
    method Feed(chunk: bytes) returns (ok: bool)
      requires Valid()
      modifies this`buf, this`avail, this`pos, this`len, this`pending
      ensures Valid()
      ensures ok == err.None?
      ensures pending == if ok then old(pending) + chunk else old(pending)
    {
      if err.Some? {
        return false;
      }
      if |chunk| >= 1 {
        if len == 0 && maxbuf != 0 && avail > maxbuf {
          buf, avail, pos := [], 0, 0;
        }
        if tasks.state.Some? {
          TracksFeed(pending, tasks.state.value, Unread(), chunk);
        }
        assert (buf + chunk)[pos..] == Unread() + chunk;
        avail := Sds.RoomFor(|buf|, avail, |chunk|) - |buf| - |chunk|;
        buf := buf + chunk;
        len := |buf|;
        pending := pending + chunk;
      } else {
        assert pending + chunk == pending;
      }
      return true;
    }

    /** Consumes `n` bytes. */
    method Skip(n: nat)
      requires BufferOk() && n <= |Unread()|
      modifies this`pos
      ensures BufferOk() && Unread() == old(Unread())[n..]
    {
      pos := pos + n;
    }

    /** Drops the consumed part of the buffer once it is large enough. */
    method Trim()
      requires BufferOk()
      modifies this`buf, this`avail, this`pos, this`len
      ensures BufferOk() && Unread() == old(Unread())
    {
      if pos >= TRIM_AT {
        avail := avail + pos;
        buf, pos := buf[pos..], 0;
        len := |buf|;
      }
    }

    method SetError(fault: Resp.Fault)
      requires tasks.Valid()
      modifies this`err, this`buf, this`avail, this`pos, this`len, tasks`reply, tasks`ridx, tasks`state
      ensures err == Some(fault) && BufferOk() && buf == []
      ensures tasks.Valid() && tasks.state.None?
    {
      tasks.Reset();
      buf, avail, pos, len := [], 0, 0, 0;
      err := Some(fault);
    }

    /** The fields agree with the outcome `r` of a machine step. */
    ghost predicate Took(r: StepResult, ok: bool)
      reads this, tasks, tasks.rstack
    {
      && BufferOk()
      && tasks.Valid()
      && match r
         case Next(st, rest) => ok && err.None? && tasks.state == Some(st) && Unread() == rest
         case Stall(st, rest) => !ok && err.None? && tasks.state == Some(st) && Unread() == rest
         case Fault(fault) => !ok && err == Some(fault) && tasks.state.None? && buf == []
    }

    method ProcessScalarItem(kind: Kind) returns (ok: bool)
      requires BufferOk() && tasks.Valid() && tasks.Reading() && err.None?
      requires tasks.state.value.kind == Some(kind) && kind != ArrayKind
      modifies this`pos, tasks, tasks.rstack
      ensures Took(StepBody(old(tasks.state.value.frames), kind, old(Unread())), ok)
      ensures Keeps(old(tasks.store), tasks.store)
    {
      var p := buf[pos..];
      var v: Option<Sized<Reply>>;
      if kind == BulkKind {
        v := ReadBulkItem(p);
      } else {
        v := ReadLineItem(kind, p);
      }
      if v.None? {
        return false;
      }
      Skip(v.value.size);
      tasks.Complete(Leaf(v.value.value), v.value.value);
      return true;
    }

    method ProcessMultiBulkItem() returns (ok: bool)
      requires BufferOk() && tasks.Valid() && tasks.Reading() && err.None?
      requires tasks.state.value.kind == Some(ArrayKind)
      modifies this, tasks, tasks.rstack
      ensures Took(StepBody(old(tasks.state.value.frames), ArrayKind, old(Unread())), ok)
      ensures Keeps(old(tasks.store), tasks.store) && pending == old(pending)
    {
      if tasks.ridx == MAX_DEPTH {
        SetError(TooDeep);
        return false;
      }
      var h := ReadHeader(buf[pos..]);
      if h.None? {
        return false;
      }
      StartArray(h.value);
      return true;
    }

    method StartArray(h: Sized<int>)
      requires BufferOk() && tasks.Valid() && tasks.Reading() && err.None?
      requires tasks.state.value.kind == Some(ArrayKind) && |tasks.state.value.frames| < MAX_DEPTH
      requires Header(Unread()) == Some(h)
      modifies this`pos, tasks, tasks.rstack
      ensures Took(StepBody(old(tasks.state.value.frames), ArrayKind, old(Unread())), true)
      ensures Keeps(old(tasks.store), tasks.store)
    {
      Skip(h.size);
      tasks.StartArray(h.value);
    }

    /** Reads the type byte of the current item if needed, then the item. */
    method ProcessItem() returns (ok: bool)
      requires BufferOk() && tasks.Valid() && tasks.Reading() && Ok(tasks.state.value) && err.None?
      modifies this, tasks, tasks.rstack
      ensures Took(Step(old(tasks.state.value), old(Unread())), ok)
      ensures Keeps(old(tasks.store), tasks.store) && pending == old(pending)
    {
      var kind := tasks.rstack[tasks.ridx].kind;
      if kind.None? {
        if pos == len {
          return false;
        }
        var b := buf[pos];
        Skip(1);
        kind := KindOf(b);
        if kind.None? {
          SetError(BadType(b));
          return false;
        }
        tasks.SetKind(kind.value);
      }
      if kind.value == ArrayKind {
        ok := ProcessMultiBulkItem();
      } else {
        ok := ProcessScalarItem(kind.value);
      }
    }

    /** A reply is under way or finished, and agrees with the pending bytes. */
    ghost predicate Underway()
      reads this, tasks, tasks.rstack
    {
      && BufferOk()
      && tasks.Valid()
      && err.None?
      && tasks.state.Some?
      && Ok(tasks.state.value)
      && Tracks(pending, tasks.state.value, Unread())
    }

    /** The pending bytes are malformed; the buffer and the stack are dropped. */
    ghost predicate Broken(fault: Resp.Fault)
      reads this, tasks, tasks.rstack
    {
      err == Some(fault) && BufferOk() && tasks.Valid() && tasks.state.None? && buf == []
    }

    /** The reply `v` is complete and `rest` follows it. */
    ghost predicate Ready(v: Reply, rest: bytes)
      reads this, tasks, tasks.rstack
    {
      err.None? && BufferOk() && tasks.Valid() && tasks.state == Some(Finished(v)) && Unread() == rest
    }

    method TryItem() returns (ok: bool)
      requires Underway() && tasks.Reading()
      modifies this, tasks, tasks.rstack
      ensures Keeps(old(tasks.store), tasks.store) && pending == old(pending)
      ensures ok ==> Underway() && |Unread()| < old(|Unread()|)
      ensures !ok ==> ParseItem(pending, 0).Incomplete? || ParseItem(pending, 0).Failed?
      ensures !ok && ParseItem(pending, 0).Incomplete? ==> Underway() && tasks.Reading()
      ensures !ok && ParseItem(pending, 0).Failed? ==> Broken(ParseItem(pending, 0).fault)
    {
      ghost var r := Step(tasks.state.value, Unread());
      StepTracks(pending, tasks.state.value, Unread());
      ok := ProcessItem();
      assert r.Next? ==> ok;
      assert r.Stall? ==> !ok && tasks.Reading();
    }

    /** Processes items until the reply is complete, the input runs out or the
        stream turns out to be malformed. */
    method ProcessItems()
      requires Underway() && tasks.Reading()
      modifies this, tasks, tasks.rstack
      ensures Keeps(old(tasks.store), tasks.store) && pending == old(pending)
      ensures
        match ParseItem(pending, 0)
        case Done(v, rest) => Ready(v, rest)
        case Incomplete => Underway() && tasks.Reading()
        case Failed(fault) => Broken(fault)
    {
      while tasks.ridx >= 0
        invariant Keeps(old(tasks.store), tasks.store) && pending == old(pending)
        invariant Underway()
        decreases |Unread()|
      {
        var ok := TryItem();
        if !ok {
          return;
        }
      }
      TracksNow(pending, tasks.state.value, Unread());
      assert ParseItem(pending, 0) == Done(tasks.state.value.reply, Unread());
    }

    /** What asking for a reply does to a reader without error: it emits the first
        reply of the pending bytes, or waits for more, or breaks. */
    ghost predicate Answered(p: Parse, was: bytes, ok: bool, out: Option<nat>)
      reads this, tasks, tasks.rstack
    {
      match p
      case Done(v, rest) =>
        ok && err.None? && pending == rest && out.Some? && Represents(tasks.store, out.value, v)
      case Incomplete =>
        ok && err.None? && pending == was && out.None?
      case Failed(fault) =>
        !ok && err == Some(fault) && out.None?
    }

    method NextReply() returns (ok: bool, out: Option<nat>)
      requires Underway() && tasks.Reading()
      modifies this, tasks, tasks.rstack
      ensures Valid() && Keeps(old(tasks.store), tasks.store)
      ensures Answered(ParseItem(old(pending), 0), old(pending), ok, out)
    {
      ProcessItems();
      if err.Some? {
        pending := [];
        return false, None;
      }
      Trim();
      if tasks.ridx == -1 {
        out := tasks.Take();
        pending := Unread();
      } else {
        out := None;
      }
      return true, out;
    }

    /** Emits the next reply of the stream, if the pending bytes hold one. */
    method GetReply() returns (ok: bool, out: Option<nat>)
      requires Valid()
      modifies this, tasks, tasks.rstack
      ensures Valid() && Keeps(old(tasks.store), tasks.store)
      ensures old(err).Some? ==> !ok && out.None? && err == old(err)
      ensures old(err).None? ==> Answered(ParseItem(old(pending), 0), old(pending), ok, out)
    {
      if err.Some? {
        return false, None;
      }
      if len == 0 {
        if tasks.state.Some? {
          TracksNothing(pending, tasks.state.value);
        }
        return true, None;
      }
      if tasks.ridx == -1 {
        tasks.Begin();
        TracksStart(pending);
      }
      ok, out := NextReply();
    }
  }

  ghost predicate Agrees(pending: bytes, st: State, unread: bytes, x: bytes)
    requires Ok(st)
  {
    ParseItem(pending + x, 0) == Denote(st, unread + x)
  }

  /** Continuing from `st` on the unread bytes agrees with parsing the pending
      bytes from the start, for every continuation of the input. */
  ghost predicate Tracks(pending: bytes, st: State, unread: bytes)
    requires Ok(st)
  {
    forall x: bytes :: Agrees(pending, st, unread, x)
  }

  lemma TracksStart(pending: bytes)
    ensures Tracks(pending, START, pending)
  {
  }

  /** With no more input than the pending bytes, the state decides them. */
  lemma TracksNow(pending: bytes, st: State, unread: bytes)
    requires Ok(st) && Tracks(pending, st, unread)
    ensures ParseItem(pending, 0) == Denote(st, unread)
  {
    assert Agrees(pending, st, unread, []);
    assert pending + [] == pending && unread + [] == unread;
  }

  lemma TracksNothing(pending: bytes, st: State)
    requires st.Working? && Ok(st) && Tracks(pending, st, [])
    ensures ParseItem(pending, 0) == Incomplete
  {
    TracksNow(pending, st, []);
    DenoteEmpty(st);
  }

  lemma TracksFeed(pending: bytes, st: State, unread: bytes, chunk: bytes)
    requires Ok(st) && Tracks(pending, st, unread)
    ensures Tracks(pending + chunk, st, unread + chunk)
  {
    forall x: bytes
      ensures Agrees(pending + chunk, st, unread + chunk, x)
    {
      assert Agrees(pending, st, unread, chunk + x);
      assert pending + chunk + x == pending + (chunk + x);
      assert unread + chunk + x == unread + (chunk + x);
    }
  }

  /** A step keeps track of the pending bytes; at a stall or a fault it decides them. */
  lemma StepTracks(pending: bytes, st: State, u: bytes)
    requires st.Working? && Ok(st) && Tracks(pending, st, u)
    ensures !Step(st, u).Fault? ==> Tracks(pending, Step(st, u).state, Step(st, u).rest)
    ensures Step(st, u).Stall? ==> ParseItem(pending, 0) == Incomplete
    ensures Step(st, u).Fault? ==> ParseItem(pending, 0) == Failed(Step(st, u).fault)
  {
    var r := Step(st, u);
    TracksNow(pending, st, u);
    StepSound(st, u, []);
    assert u + [] == u;
    if !r.Fault? {
      forall x: bytes
        ensures Agrees(pending, r.state, r.rest, x)
      {
        assert Agrees(pending, st, u, x);
        StepSound(st, u, x);
      }
    }
  }
}
