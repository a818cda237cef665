/**
 The bounded buffer with one mutex and one condition variable, used by one writer and
 one reader. A critical section, from locking the mutex to a wait or to the return, is
 one step; a thread that waits runs again after a notification or for no reason at all.
 */
module RingBuffer {

  const BUF_SIZE: nat := 10

  /** A thread is outside the buffer, waits on the condition variable, or was woken and
      has yet to take the mutex again. */
  datatype Thread = Outside | Waiting | Woken

  /** The slot behind the used ones is none of them. */
  lemma SlotIsFree(a: nat, b: nat)
    requires a <= b < a + BUF_SIZE
    ensures forall i :: a <= i < b ==> i % BUF_SIZE != b % BUF_SIZE
  {
  }

  lemma SlotNext(n: nat)
    ensures (n % BUF_SIZE + 1) % BUF_SIZE == (n + 1) % BUF_SIZE
  {
  }

  class Buffer {
    const buf: array<int>
    var p: nat
    var c: nat
    var full: nat
    var writer: Thread
    var reader: Thread
    ghost var sent: seq<int>
    ghost var received: seq<int>

    /** The ring holds what was sent and not yet received, each at its place, and a thread
        that waits does so for a reason. */
    ghost predicate Valid()
      reads this, buf
    {
      && buf.Length == BUF_SIZE
      && received <= sent && |sent| == |received| + full && full <= BUF_SIZE
      && p == |sent| % BUF_SIZE && c == |received| % BUF_SIZE
      && (forall i :: |received| <= i < |sent| ==> buf[i % BUF_SIZE] == sent[i])
      && (writer == Waiting ==> full == BUF_SIZE)
      && (reader == Waiting ==> full == 0)
    }

    constructor ()
      ensures Valid() && fresh(buf) && sent == received == [] && writer == reader == Outside
    {
      buf := new int[BUF_SIZE];
      p, c, full := 0, 0, 0;
      writer, reader := Outside, Outside;
      sent, received := [], [];
    }

    /** One turn of `put` with the mutex held: it waits, or it stores the value and wakes
        the reader if that waits. */
    method Put(m: int) returns (done: bool)
      requires Valid() && writer != Waiting
      modifies this, buf
      ensures Valid() && received == old(received)
      ensures done == (old(full) < BUF_SIZE)
      ensures sent == old(sent) + if done then [m] else []
      ensures writer == if done then Outside else Waiting
      ensures reader == if done && old(reader) == Waiting then Woken else old(reader)
    {
      if full == BUF_SIZE {
        writer := Waiting;
        return false;
      }
      SlotIsFree(|received|, |sent|);
      SlotNext(|sent|);
      buf[p] := m;
      p := (p + 1) % BUF_SIZE;
      full := full + 1;
      sent := sent + [m];
      writer := Outside;
      if reader == Waiting {
        reader := Woken;
      }
      return true;
    }

    /** One turn of `get` with the mutex held. */
    method Get() returns (done: bool, m: int)
      requires Valid() && reader != Waiting
      modifies this
      ensures Valid() && sent == old(sent)
      ensures done == (old(full) > 0)
      ensures received == old(received) + if done then [m] else []
      ensures reader == if done then Outside else Waiting
      ensures writer == if done && old(writer) == Waiting then Woken else old(writer)
    {
      if full == 0 {
        reader := Waiting;
        return false, 0;
      }
      SlotNext(|received|);
      m := buf[c];
      c := (c + 1) % BUF_SIZE;
      full := full - 1;
      received := received + [m];
      reader := Outside;
      if writer == Waiting {
        writer := Woken;
      }
      return true, m;
    }

    /** A wait may end without a notification. */
    method WakeSpuriously(wakeWriter: bool)
      requires Valid()
      modifies this`writer, this`reader
      ensures Valid()
      ensures writer == if wakeWriter && old(writer) == Waiting then Woken else old(writer)
      ensures reader == if !wakeWriter && old(reader) == Waiting then Woken else old(reader)
    {
      if wakeWriter && writer == Waiting {
        writer := Woken;
      } else if !wakeWriter && reader == Waiting {
        reader := Woken;
      }
    }

    /** The three counters agree, and the two threads never wait for each other. */
    lemma Counters()
      requires Valid()
      ensures p == (c + full) % BUF_SIZE
      ensures !(writer == Waiting && reader == Waiting)
    {
    }
  }

  /** Who takes the mutex next, or which wait ends for no reason. */
  datatype Turn = WriterRuns | ReaderRuns | Spurious(wakeWriter: bool)

  /** A thread with work left that does not wait can take the mutex. */
  predicate CanRun(t: Thread, left: int) {
    left > 0 && t != Waiting
  }

  // ---- Schedules ----

  /** A run without its values: how many are to be sent, were sent and were received, and
      what the threads do. */
  datatype World = World(total: nat, sent: nat, got: nat, writer: Thread, reader: Thread) {
    predicate Moves(turn: Turn) {
      || (turn.WriterRuns? && CanRun(writer, total - sent))
      || (turn.ReaderRuns? && CanRun(reader, total - got))
    }

    ghost predicate Safe() {
      && got <= sent <= total && sent - got <= BUF_SIZE
      && (writer == Waiting ==> sent - got == BUF_SIZE && sent < total)
      && (reader == Waiting ==> sent == got && got < total)
    }
  }

  function Wake(t: Thread): Thread {
    if t == Waiting then Woken else t
  }

  function Turned(w: World, turn: Turn): World {
    if turn.Spurious? then
      if turn.wakeWriter then w.(writer := Wake(w.writer)) else w.(reader := Wake(w.reader))
    else if !w.Moves(turn) then w
    else if turn.WriterRuns? then
      if w.sent - w.got == BUF_SIZE then w.(writer := Waiting)
      else w.(sent := w.sent + 1, writer := Outside, reader := Wake(w.reader))
    else
      if w.sent == w.got then w.(reader := Waiting)
      else w.(got := w.got + 1, reader := Outside, writer := Wake(w.writer))
  }

  function RunFrom(w: World, turns: seq<Turn>): World
    decreases |turns|
  {
    if turns == [] then w else RunFrom(Turned(w, turns[0]), turns[1..])
  }

  function Begin(total: nat): World {
    World(total, 0, 0, Outside, Outside)
  }

  lemma {:induction false} RunAppend(w: World, a: seq<Turn>, b: seq<Turn>)
    ensures RunFrom(w, a + b) == RunFrom(RunFrom(w, a), b)
    decreases |a|
  {
    if a == [] {
      assert a + b == b;
    } else {
      assert (a + b)[1..] == a[1..] + b;
      RunAppend(Turned(w, a[0]), a[1..], b);
    }
  }

  lemma RunOne(w: World, turns: seq<Turn>, i: nat)
    requires i < |turns|
    ensures RunFrom(w, turns[..i + 1]) == Turned(RunFrom(w, turns[..i]), turns[i])
  {
    assert turns[..i + 1] == turns[..i] + [turns[i]];
    RunAppend(w, turns[..i], [turns[i]]);
    assert [turns[i]][1..] == [];
  }

  lemma TurnIsSafe(w: World, turn: Turn)
    requires w.Safe()
    ensures Turned(w, turn).Safe() && Turned(w, turn).total == w.total && Turned(w, turn).got >= w.got
  {
  }

  lemma {:induction false} RunIsSafe(w: World, turns: seq<Turn>)
    requires w.Safe()
    ensures RunFrom(w, turns).Safe() && RunFrom(w, turns).total == w.total && RunFrom(w, turns).got >= w.got
    decreases |turns|
  {
    if turns != [] {
      TurnIsSafe(w, turns[0]);
      RunIsSafe(Turned(w, turns[0]), turns[1..]);
    }
  }

  /** While not everything was received, one of the threads can run. */
  lemma NoDeadlock(w: World)
    requires w.Safe() && w.got < w.total
    ensures w.Moves(WriterRuns) || w.Moves(ReaderRuns)
  {
  }

  // ---- Progress ----

  /** How many turns were taken by a thread that could run. */
  function MovesIn(w: World, turns: seq<Turn>): nat
    decreases |turns|
  {
    if turns == [] then 0 else (if w.Moves(turns[0]) then 1 else 0) + MovesIn(Turned(w, turns[0]), turns[1..])
  }

  function SpuriousIn(turns: seq<Turn>): nat {
    if turns == [] then 0 else (if turns[0].Spurious? then 1 else 0) + SpuriousIn(turns[1..])
  }

  function Measure(w: World): int {
    3 * (2 * w.total - w.sent - w.got) + (if w.writer == Waiting then 0 else 1) + if w.reader == Waiting then 0 else 1
  }

  lemma TurnLowers(w: World, turn: Turn)
    requires w.Safe()
    ensures Measure(Turned(w, turn)) + (if w.Moves(turn) then 1 else 0) <= Measure(w) + if turn.Spurious? then 1 else 0
  {
  }

  lemma MeasureIsNatural(w: World)
    requires w.Safe()
    ensures Measure(w) >= 0
  {
  }

  /** Each turn of a thread that can run lowers the measure; only a spurious wake-up raises
      it, by one. */
  lemma {:induction false} MovesAreBounded(w: World, turns: seq<Turn>)
    requires w.Safe()
    ensures Measure(RunFrom(w, turns)) + MovesIn(w, turns) <= Measure(w) + SpuriousIn(turns)
    ensures MovesIn(w, turns) <= Measure(w) + SpuriousIn(turns)
    decreases |turns|
  {
    RunIsSafe(w, turns);
    MeasureIsNatural(RunFrom(w, turns));
    if turns != [] {
      TurnIsSafe(w, turns[0]);
      TurnLowers(w, turns[0]);
      MovesAreBounded(Turned(w, turns[0]), turns[1..]);
    }
  }

  lemma {:induction false} MovesAppend(w: World, a: seq<Turn>, b: seq<Turn>)
    ensures MovesIn(w, a + b) == MovesIn(w, a) + MovesIn(RunFrom(w, a), b)
    decreases |a|
  {
    if a == [] {
      assert a + b == b;
    } else {
      assert (a + b)[1..] == a[1..] + b;
      MovesAppend(Turned(w, a[0]), a[1..], b);
    }
  }

  /** A thread that can run still can when its turn comes, unless the other one ran before. */
  lemma {:induction false} SomeoneMoves(w: World, turns: seq<Turn>, turn: Turn)
    requires w.Safe() && w.Moves(turn) && turn in turns
    ensures MovesIn(w, turns) > 0
    decreases |turns|
  {
    if !w.Moves(turns[0]) {
      TurnIsSafe(w, turns[0]);
      SomeoneMoves(Turned(w, turns[0]), turns[1..], turn);
    }
  }

  predicate Fair(round: seq<Turn>) {
    WriterRuns in round && ReaderRuns in round
  }

  function Flatten(rounds: seq<seq<Turn>>): seq<Turn> {
    if rounds == [] then [] else rounds[0] + Flatten(rounds[1..])
  }

  /** In every round in which both threads get a turn, one of them moves, until everything
      was received. */
  lemma {:induction false} RoundsMove(w: World, rounds: seq<seq<Turn>>)
    requires w.Safe() && forall i :: 0 <= i < |rounds| ==> Fair(rounds[i])
    ensures RunFrom(w, Flatten(rounds)).got == w.total || MovesIn(w, Flatten(rounds)) >= |rounds|
    decreases |rounds|
  {
    if rounds != [] {
      var first, rest := rounds[0], Flatten(rounds[1..]);
      var next := RunFrom(w, first);
      RunIsSafe(w, first);
      RunIsSafe(w, Flatten(rounds));
      if w.got < w.total {
        NoDeadlock(w);
        assert Fair(first);
        SomeoneMoves(w, first, if w.Moves(WriterRuns) then WriterRuns else ReaderRuns);
      }
      RoundsMove(next, rounds[1..]);
      RunAppend(w, first, rest);
      MovesAppend(w, first, rest);
    }
  }

  /** Every fair schedule delivers everything: six rounds for each value, three more, and one
      for each spurious wake-up are enough. */
  lemma FairSchedulesDeliver(total: nat, rounds: seq<seq<Turn>>)
    requires forall i :: 0 <= i < |rounds| ==> Fair(rounds[i])
    requires |rounds| > 6 * total + 2 + SpuriousIn(Flatten(rounds))
    ensures RunFrom(Begin(total), Flatten(rounds)).got == total
  {
    RoundsMove(Begin(total), rounds);
    MovesAreBounded(Begin(total), Flatten(rounds));
  }

  // ---- Running the buffer ----

  /** The buffer in a world, with the values that were sent and received. */
  ghost predicate Shows(b: Buffer, input: seq<int>, output: seq<int>, w: World)
    reads b
  {
    && w.total == |input| && w.got <= w.sent <= w.total
    && b.sent == input[..w.sent] && b.received == output == input[..w.got]
    && b.writer == w.writer && b.reader == w.reader
  }

  /** Runs the writer's loop over `input` against the reader's loop for as many values,
      under any schedule. */
  method Run(input: seq<int>, schedule: seq<Turn>) returns (b: Buffer, output: seq<int>)
    ensures b.Valid() && fresh(b) && Shows(b, input, output, RunFrom(Begin(|input|), schedule))
    ensures output <= b.sent <= input
    ensures
      output == input <==>
        && !CanRun(b.writer, |input| - |b.sent|)
        && !CanRun(b.reader, |input| - |output|)
  {
    b := new Buffer();
    var n := 0;
    output := [];
    ghost var w := Begin(|input|);
    for k := 0 to |schedule|
      invariant b.Valid() && fresh(b) && fresh(b.buf)
      invariant w == RunFrom(Begin(|input|), schedule[..k]) && w.Safe()
      invariant Shows(b, input, output, w) && n == w.sent
    {
      RunOne(Begin(|input|), schedule, k);
      n, output, w := TakeTurn(b, input, n, output, schedule[k], w);
    }
    assert schedule[..|schedule|] == schedule;
    b.Counters();
  }

  /** One turn of the schedule. */
  method TakeTurn(b: Buffer, input: seq<int>, n: nat, output: seq<int>, turn: Turn, ghost w: World)
    returns (n': nat, output': seq<int>, ghost w': World)
    requires b.Valid() && w.Safe() && Shows(b, input, output, w) && n == w.sent
    modifies b, b.buf
    ensures b.Valid() && w' == Turned(w, turn) && w'.Safe() && Shows(b, input, output', w') && n' == w'.sent
  {
    n', output', w' := n, output, Turned(w, turn);
    match turn
    case WriterRuns =>
      if n < |input| && b.writer != Waiting {
        var done := b.Put(input[n]);
        if done {
          n' := n + 1;
        }
      }
    case ReaderRuns =>
      if |output| < |input| && b.reader != Waiting {
        var done, m := b.Get();
        if done {
          output' := output + [m];
        }
      }
    case Spurious(wakeWriter) =>
      b.WakeSpuriously(wakeWriter);
  }
}
