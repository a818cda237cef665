/**
 The reader's task stack as a pure machine. An open array is a frame holding the
 elements read so far; `Step` processes one item and `Deliver` hands a finished
 item to the innermost open array, closing arrays that become full.

 `Denote` says what a machine state is going to make of the bytes it has not yet
 seen, in terms of the recursive grammar. `StepSound` is the heart of the
 refinement: a step never changes what the state denotes, for any continuation
 of the input.
 */
module ReaderMachine {
  import opened Bytes
  import opened Resp

  datatype Frame = Frame(total: nat, done: seq<Reply>)

  datatype State =
    | Working(frames: seq<Frame>, kind: Option<Kind>)
    | Finished(reply: Reply)

  datatype StepResult =
    | Next(state: State, rest: bytes)
    | Stall(state: State, rest: bytes)
    | Fault(fault: Fault)

  const START := Working([], None)

  ghost predicate OpenFrames(frames: seq<Frame>) {
    |frames| <= MAX_DEPTH && forall i :: 0 <= i < |frames| ==> |frames[i].done| < frames[i].total
  }

  ghost predicate Ok(st: State) {
    st.Working? ==> OpenFrames(st.frames) && (st.kind == Some(ArrayKind) ==> |st.frames| < MAX_DEPTH)
  }

  /** A finished item goes to the innermost open array; a full array is itself a
      finished item of the array around it. */
  ghost function Deliver(frames: seq<Frame>, reply: Reply): (st: State)
    requires OpenFrames(frames)
    ensures Ok(st)
  {
    if frames == [] then Finished(reply)
    else
      var outer, top := frames[..|frames| - 1], frames[|frames| - 1];
      if |top.done| + 1 == top.total then Deliver(outer, Array(top.total, top.done + [reply]))
      else Working(outer + [Frame(top.total, top.done + [reply])], None)
  }

  ghost function StepBody(frames: seq<Frame>, kind: Kind, u: bytes): (r: StepResult)
    requires OpenFrames(frames)
    ensures !r.Fault? ==> Ok(r.state)
    ensures r.Next? ==> |r.rest| < |u|
  {
    if kind == ArrayKind then
      if |frames| == MAX_DEPTH then Fault(TooDeep)
      else match Header(u)
        case None => Stall(Working(frames, Some(kind)), u)
        case Some(h) =>
          if h.value == -1 then Next(Deliver(frames, Nil), u[h.size..])
          else if h.value <= 0 then Next(Deliver(frames, Array(h.value, [])), u[h.size..])
          else Next(Working(frames + [Frame(h.value, [])], None), u[h.size..])
    else match Scalar(kind, u)
      case None => Stall(Working(frames, Some(kind)), u)
      case Some(v) => Next(Deliver(frames, v.value), u[v.size..])
  }

  /** One call of processItem. */
  ghost function Step(st: State, u: bytes): (r: StepResult)
    requires st.Working? && Ok(st)
    ensures !r.Fault? ==> Ok(r.state)
    ensures r.Next? ==> |r.rest| < |u|
  {
    match st.kind
    case Some(kind) => StepBody(st.frames, kind, u)
    case None =>
      if u == [] then Stall(st, u)
      else match KindOf(u[0])
        case None => Fault(BadType(u[0]))
        case Some(kind) => StepBody(st.frames, kind, u[1..])
  }

  // ---- Meaning ----

  /** What the open arrays make of the parse of the current item. */
  ghost function Unwind(frames: seq<Frame>, p: Parse): Parse
    requires OpenFrames(frames)
  {
    if frames == [] || !p.Done? then p
    else
      var outer, top := frames[..|frames| - 1], frames[|frames| - 1];
      Unwind(outer, ParseItems(p.rest, top.total, top.done + [p.reply], |frames|))
  }

  ghost function Denote(st: State, s: bytes): Parse
    requires st.Working? ==> OpenFrames(st.frames)
  {
    match st
    case Finished(reply) => Done(reply, s)
    case Working(frames, None) => Unwind(frames, ParseItem(s, |frames|))
    case Working(frames, Some(kind)) => Unwind(frames, ParseBody(kind, s, |frames|))
  }

  lemma {:induction false} DeliverSound(frames: seq<Frame>, reply: Reply, s: bytes)
    requires OpenFrames(frames)
    ensures Denote(Deliver(frames, reply), s) == Unwind(frames, Done(reply, s))
    decreases |frames|
  {
    if frames != [] {
      var outer, top := frames[..|frames| - 1], frames[|frames| - 1];
      var done := top.done + [reply];
      if |done| == top.total {
        DeliverSound(outer, Array(top.total, done), s);
      } else {
        var frames' := outer + [Frame(top.total, done)];
        assert frames'[..|frames'| - 1] == outer;
        match ParseItem(s, |frames|)
        case Done(r, rest) =>
        case _ =>
          UnwindUndone(outer, ParseItem(s, |frames|));
      }
    }
  }

  lemma UnwindUndone(frames: seq<Frame>, p: Parse)
    requires OpenFrames(frames) && !p.Done?
    ensures Unwind(frames, p) == p
  {
  }

  /** What a result of processing `u` denotes when `x` follows. */
  ghost function DenoteResult(r: StepResult, x: bytes): Parse
    requires !r.Fault? ==> Ok(r.state)
  {
    match r
    case Fault(fault) => Failed(fault)
    case _ => Denote(r.state, r.rest + x)
  }

  ghost predicate BodySound(frames: seq<Frame>, kind: Kind, u: bytes, x: bytes)
    requires OpenFrames(frames)
  {
    && DenoteResult(StepBody(frames, kind, u), x) == Denote(Working(frames, Some(kind)), u + x)
    && (StepBody(frames, kind, u).Stall? ==> Denote(Working(frames, Some(kind)), u) == Incomplete)
  }

  /** Opening an array of `n` elements is what the grammar does after its header. */
  lemma OpenArraySound(frames: seq<Frame>, n: nat, s: bytes)
    requires OpenFrames(frames) && |frames| < MAX_DEPTH && 0 < n
    ensures OpenFrames(frames + [Frame(n, [])])
    ensures Denote(Working(frames + [Frame(n, [])], None), s) == Unwind(frames, ParseItems(s, n, [], |frames| + 1))
  {
    var frames' := frames + [Frame(n, [])];
    assert frames'[..|frames'| - 1] == frames;
    UnfoldFirst(s, n, |frames'|);
    var p := ParseItem(s, |frames'|);
    if p.Done? {
      assert frames'[|frames'| - 1].done + [p.reply] == [p.reply];
    } else {
      UnwindUndone(frames, p);
    }
  }

  lemma StepBodySound(frames: seq<Frame>, kind: Kind, u: bytes, x: bytes)
    requires OpenFrames(frames)
    ensures BodySound(frames, kind, u, x)
  {
    if kind == ArrayKind && |frames| == MAX_DEPTH {
      UnwindUndone(frames, Failed(TooDeep));
    } else if StepBody(frames, kind, u).Stall? {
      UnwindUndone(frames, Incomplete);
    } else if kind == ArrayKind {
      HeaderExtends(u, x);
      var n, s := Header(u).value.value, u[Header(u).value.size..] + x;
      if n <= 0 {
        DeliverSound(frames, if n == -1 then Nil else Array(n, []), s);
      } else {
        OpenArraySound(frames, n, s);
      }
    } else {
      ScalarExtends(kind, u, x);
      var v := Scalar(kind, u).value;
      DeliverSound(frames, v.value, u[v.size..] + x);
    }
  }

  lemma UnfoldFirst(s: bytes, total: nat, depth: nat)
    requires 0 < total
    ensures
      var p := ParseItem(s, depth);
      ParseItems(s, total, [], depth) == if p.Done? then ParseItems(p.rest, total, [p.reply], depth) else p
  {
    var p := ParseItem(s, depth);
    if p.Done? { assert [] + [p.reply] == [p.reply]; }
  }

  /** A step keeps what the state denotes, whatever input follows; a step that
      stalls does so exactly because the input seen so far is incomplete. */
  lemma {:induction false} StepSound(st: State, u: bytes, x: bytes)
    requires st.Working? && Ok(st)
    ensures DenoteResult(Step(st, u), x) == Denote(st, u + x)
    ensures Step(st, u).Stall? ==> Denote(st, u) == Incomplete
  {
    match st.kind
    case Some(kind) => StepBodySound(st.frames, kind, u, x);
    case None =>
      if u != [] {
        assert (u + x)[1..] == u[1..] + x;
        if KindOf(u[0]).Some? {
          StepBodySound(st.frames, KindOf(u[0]).value, u[1..], x);
        } else {
          UnwindUndone(st.frames, Failed(BadType(u[0])));
        }
      } else {
        UnwindUndone(st.frames, Incomplete);
      }
  }

  /** With nothing left to read, a working machine can only wait. */
  lemma DenoteEmpty(st: State)
    requires st.Working? && Ok(st)
    ensures Denote(st, []) == Incomplete
  {
    UnwindUndone(st.frames, Incomplete);
  }
}
