/**
 The event thread: producers append tasks under a mutex and write a byte to a pipe when
 the queue was empty; the loop thread reads the pipe, swaps the queue out and runs it.
 A byte for a full pipe is lost, and one read takes up to 128 bytes.

 Every access under the mutex, every send, every recv and every task is one step; any
 interleaving of the steps is a run.
 */
module EventThread {

  const RECV_SIZE: nat := 128

  /** Which handler the loop thread is in. */
  datatype Caller = ByTask | ByStop

  /** Where the loop thread is: in the event loop, in HandleTask before the swap, running
      the batch it swapped out, at the test of HandleStop, or out of the event loop. */
  datatype Loop = Idle | Woken(caller: Caller) | Running(caller: Caller) | StopTest | Exited

  /** `notifying` producers have appended to an empty queue and not yet sent their byte.
      `accepted` and `ran` record what the producers were promised and what was run. */
  datatype State<T> = State(queueSize: nat, capacity: nat, tasks: seq<T>, notifying: nat, pipe: nat, stopPipe: nat,
                            loop: Loop, batch: seq<T>, accepted: seq<T>, ran: seq<T>)

  datatype Step<T> =
    | AddTask(task: T)  // the critical section of AddTask
    | Notify            // the send that follows it
    | Recv              // the read of the task pipe
    | Swap              // the critical section of HandleTask
    | RunTask           // one task of the batch
    | Return            // the end of HandleTask
    | Stop              // the send of Stop
    | RecvStop          // the read of the stop pipe
    | Test              // the test of HandleStop

  function Min(a: nat, b: nat): nat {
    if a < b then a else b
  }

  predicate Accepts<T>(s: State<T>) {
    |s.tasks| == 0 || |s.tasks| < s.queueSize
  }

  predicate Enabled<T>(s: State<T>, step: Step<T>) {
    match step
    case AddTask(_) => true
    case Notify => s.notifying > 0
    case Recv => s.loop == Idle && s.pipe > 0
    case Swap => s.loop.Woken?
    case RunTask => s.loop.Running? && s.batch != []
    case Return => s.loop.Running? && s.batch == []
    case Stop => true
    case RecvStop => s.loop == Idle && s.stopPipe > 0
    case Test => s.loop == StopTest
  }

  function Take<T>(s: State<T>, step: Step<T>): State<T>
    requires Enabled(s, step)
  {
    match step
    case AddTask(task) =>
      if !Accepts(s) then s else
        s.(tasks := s.tasks + [task], accepted := s.accepted + [task],
           notifying := s.notifying + if s.tasks == [] then 1 else 0)
    case Notify => s.(notifying := s.notifying - 1, pipe := Min(s.pipe + 1, s.capacity))
    case Recv => s.(pipe := s.pipe - Min(s.pipe, RECV_SIZE), loop := Woken(ByTask))
    case Swap => s.(tasks := [], batch := s.tasks, loop := Running(s.loop.caller))
    case RunTask => s.(batch := s.batch[1..], ran := s.ran + [s.batch[0]])
    case Return => s.(loop := if s.loop.caller == ByTask then Idle else StopTest)
    case Stop => s.(stopPipe := Min(s.stopPipe + 1, s.capacity))
    case RecvStop => s.(stopPipe := s.stopPipe - Min(s.stopPipe, RECV_SIZE), loop := StopTest)
    case Test => s.(loop := if s.tasks == [] then Exited else Woken(ByStop))
  }

  function Start<T>(queueSize: nat, capacity: nat): State<T> {
    State(queueSize, capacity, [], 0, 0, 0, Idle, [], [], [])
  }

  /** The two critical sections, on the vector that they share. */
  class TaskQueue<T> {
    var tasks: seq<T>
    const queueSize: nat

    constructor (queueSize: nat)
      ensures tasks == [] && this.queueSize == queueSize
    {
      tasks := [];
      this.queueSize := queueSize;
    }

    /** AddTask: refuses exactly when the queue is full, and wants a Notify to follow exactly
        when it was empty, which is never full. */
    method AddTask(task: T) returns (added: bool, needNotify: bool)
      modifies this
      ensures added <==> old(tasks) == [] || |old(tasks)| < queueSize
      ensures needNotify <==> old(tasks) == []
      ensures tasks == old(tasks) + if added then [task] else []
      ensures forall s: State<T> :: s.tasks == old(tasks) && s.queueSize == queueSize ==>
        var s' := Take(s, Step.AddTask(task));
        && s'.tasks == tasks && s'.accepted == s.accepted + (if added then [task] else [])
        && s'.notifying == s.notifying + if needNotify then 1 else 0
    {
      needNotify := false;
      if tasks == [] {
        needNotify := true;
      } else if |tasks| >= queueSize {
        return false, false;
      }
      tasks := tasks + [task];
      added := true;
    }

    /** HandleTask, with its loop over the tasks that it swapped out; `ran` is what was
        run before. */
    method HandleTask(ran: seq<T>) returns (ran': seq<T>)
      modifies this
      ensures tasks == [] && ran' == ran + old(tasks)
    {
      var batch: seq<T> := [];
      batch, tasks := tasks, batch;
      ran' := ran;
      var i := 0;
      while i < |batch|
        invariant 0 <= i <= |batch| && tasks == []
        invariant ran' == ran + batch[..i]
      {
        ran' := ran' + [batch[i]];
        i := i + 1;
      }
      assert batch[..|batch|] == batch;
    }
  }

  // ---- Safety ----

  /** A wake-up is outstanding: a byte in the pipe, a producer about to send one, or the
      consumer between its read and its swap. */
  predicate WakeUp<T>(s: State<T>) {
    s.pipe > 0 || s.notifying > 0 || s.loop.Woken?
  }

  ghost predicate Inv<T>(s: State<T>) {
    && s.capacity >= 1
    && (s.tasks != [] ==> WakeUp(s))
    && s.accepted == s.ran + s.batch + s.tasks
    && (s.batch != [] ==> s.loop.Running?)
    && (|s.tasks| <= s.queueSize || |s.tasks| == 1)
    && s.pipe <= s.capacity && s.stopPipe <= s.capacity
  }

  lemma StartInv<T>(queueSize: nat, capacity: nat)
    requires capacity >= 1
    ensures Inv<T>(Start(queueSize, capacity))
  {
  }

  /** Every step of every thread keeps the invariant. */
  lemma StepInv<T>(s: State<T>, step: Step<T>)
    requires Inv(s) && Enabled(s, step)
    ensures Inv(Take(s, step))
  {
    var s' := Take(s, step);
    assert s'.accepted == s'.ran + s'.batch + s'.tasks;
  }

  ghost predicate IsRun<T>(s: State<T>, steps: seq<Step<T>>, s': State<T>)
    decreases |steps|
  {
    if steps == [] then s' == s
    else Enabled(s, steps[0]) && IsRun(Take(s, steps[0]), steps[1..], s')
  }

  /** In every reachable state no accepted task waits without a wake-up, the tasks that
      ran are the first accepted ones in their order, and the queue is bounded. */
  lemma {:induction false} RunSafe<T>(s: State<T>, steps: seq<Step<T>>, s': State<T>)
    requires Inv(s) && IsRun(s, steps, s')
    ensures Inv(s') && s'.ran <= s'.accepted && s.accepted <= s'.accepted && s.ran <= s'.ran
    decreases |steps|
  {
    if steps != [] {
      StepInv(s, steps[0]);
      RunSafe(Take(s, steps[0]), steps[1..], s');
    }
  }

  // ---- Progress ----

  predicate Internal<T>(step: Step<T>) {
    !step.AddTask? && !step.Stop?
  }

  /** Only a producer or a call of Stop can do anything. */
  ghost predicate Quiescent<T(!new)>(s: State<T>) {
    forall step: Step<T> :: Internal(step) ==> !Enabled(s, step)
  }

  /** A quiet event loop has run every task that was accepted. */
  lemma QuiescentHasRun<T(!new)>(s: State<T>)
    requires Inv(s) && Quiescent(s) && s.loop != Exited
    ensures s.ran == s.accepted
  {
    assert !Enabled<T>(s, Notify) && !Enabled<T>(s, Recv) && !Enabled<T>(s, Swap) && !Enabled<T>(s, RunTask);
    assert !Enabled<T>(s, Return) && !Enabled<T>(s, Test);
    assert s.loop == Idle;
  }

  /** How far the loop thread is from its next rest. */
  function Distance<T>(s: State<T>): nat {
    match s.loop
    case Idle => 0
    case Exited => 0
    case Woken(_) => 5
    case Running(_) => |s.batch| + if s.tasks == [] then 2 else 7
    case StopTest => if s.tasks == [] then 1 else 6
  }

  ghost predicate Closer<T>(s': State<T>, s: State<T>) {
    || s'.notifying < s.notifying
    || (s'.notifying == s.notifying && s'.pipe + s'.stopPipe < s.pipe + s.stopPipe)
    || (s'.notifying == s.notifying && s'.pipe + s'.stopPipe == s.pipe + s.stopPipe && |s'.tasks| < |s.tasks|)
    || (s'.notifying == s.notifying && s'.pipe + s'.stopPipe == s.pipe + s.stopPipe && |s'.tasks| == |s.tasks|
        && Distance(s') < Distance(s))
  }

  /** Each internal step comes closer to quiescence, so there is no endless run of them. */
  lemma StepCloser<T>(s: State<T>, step: Step<T>)
    requires Enabled(s, step) && Internal(step)
    ensures Closer(Take(s, step), s)
  {
  }

  /** Left alone, with its steps taken in whatever order, the system reaches a quiescent
      state; it accepts nothing on the way, and unless the loop had been left before,
      everything accepted has run by then. */
  lemma {:induction false} Settles<T(!new)>(s: State<T>, choose: State<T> -> Step<T>)
    returns (steps: seq<Step<T>>, s': State<T>)
    requires Inv(s)
    requires forall s: State<T> :: !Quiescent(s) ==> Internal(choose(s)) && Enabled(s, choose(s))
    ensures IsRun(s, steps, s') && Quiescent(s') && Inv(s') && s'.accepted == s.accepted
    ensures s.loop != Exited ==> s'.ran == s.accepted
    decreases s.notifying, s.pipe + s.stopPipe, |s.tasks|, Distance(s)
  {
    if Quiescent(s) {
      steps, s' := [], s;
      if s.loop != Exited {
        QuiescentHasRun(s);
      }
    } else {
      var step := choose(s);
      StepInv(s, step);
      StepCloser(s, step);
      if s.loop != Exited && Take(s, step).loop == Exited {
        ExitDrains(s);
      }
      var more;
      more, s' := Settles(Take(s, step), choose);
      if Take(s, step).loop == Exited {
        NothingRunsAfterExit(Take(s, step), more, s');
      }
      steps := [step] + more;
      assert steps[1..] == more;
    }
  }

  // ---- Stopping ----

  /** When the loop thread leaves its loop, everything accepted so far has run. */
  lemma ExitDrains<T>(s: State<T>)
    requires Inv(s) && Enabled<T>(s, Test) && Take<T>(s, Test).loop == Exited
    ensures Take<T>(s, Test).ran == s.accepted
  {
  }

  /** After that, nothing runs any more: in every run, what has run is exactly what had
      been accepted when the loop was left, whatever AddTask still accepts. */
  lemma {:induction false} NothingRunsAfterExit<T>(s: State<T>, steps: seq<Step<T>>, s': State<T>)
    requires Inv(s) && s.loop == Exited && IsRun(s, steps, s')
    ensures s'.loop == Exited && s'.ran == s.ran
    ensures s'.accepted == s.ran + s'.tasks
    decreases |steps|
  {
    if steps != [] {
      StepInv(s, steps[0]);
      NothingRunsAfterExit(Take(s, steps[0]), steps[1..], s');
    }
  }

  /** Whatever was accepted while the loop thread was still in its loop has run once the
      system is at rest or the loop was left. */
  lemma {:induction false} AcceptedInLoopRuns<T(!new)>(s: State<T>, steps: seq<Step<T>>, s': State<T>)
    requires Inv(s) && s.loop != Exited && IsRun(s, steps, s') && (s'.loop == Exited || Quiescent(s'))
    ensures s.accepted <= s'.ran
    decreases |steps|
  {
    if steps == [] {
      QuiescentHasRun(s);
    } else {
      var next := Take(s, steps[0]);
      StepInv(s, steps[0]);
      RunSafe(next, steps[1..], s');
      if next.loop == Exited {
        ExitDrains(s);
      } else {
        AcceptedInLoopRuns(next, steps[1..], s');
      }
    }
  }

  /** A task is accepted exactly when the queue is empty or has room, and then it is the last
      in the queue and wakes the loop thread if it is the first; otherwise nothing happens. */
  lemma AcceptedExactlyWhen<T>(s: State<T>, task: T)
    ensures Take(s, AddTask(task)) ==
      if s.tasks != [] && |s.tasks| >= s.queueSize then s
      else if s.tasks != [] then s.(tasks := s.tasks + [task], accepted := s.accepted + [task])
      else s.(tasks := [task], accepted := s.accepted + [task], notifying := s.notifying + 1)
  {
    assert s.tasks == [] ==> s.tasks + [task] == [task];
  }

  /** The fate of a task is decided when it is accepted: in every run from there to rest or
      to the end of the loop, it runs if and only if the loop had not been left. */
  lemma AcceptedRunsExactlyWhen<T(!new)>(s: State<T>, task: T, steps: seq<Step<T>>, s': State<T>)
    requires Inv(s) && (s.tasks == [] || |s.tasks| < s.queueSize)
    requires IsRun(Take(s, AddTask(task)), steps, s') && (s'.loop == Exited || Quiescent(s'))
    ensures |s.accepted| < |s'.accepted| && s'.accepted[|s.accepted|] == task
    ensures |s.accepted| < |s'.ran| <==> s.loop != Exited
    ensures s.loop != Exited ==> s'.ran[|s.accepted|] == task
  {
    var next := Take(s, AddTask(task));
    AcceptedExactlyWhen(s, task);
    StepInv(s, AddTask(task));
    RunSafe(next, steps, s');
    if s.loop != Exited {
      AcceptedInLoopRuns(next, steps, s');
    } else {
      NothingRunsAfterExit(next, steps, s');
    }
  }

  lemma RunCons<T>(s: State<T>, step: Step<T>, steps: seq<Step<T>>, s': State<T>)
    requires Enabled(s, step) && IsRun(Take(s, step), steps, s')
    ensures IsRun(s, [step] + steps, s')
  {
    assert ([step] + steps)[1..] == steps;
  }

  /** So a task accepted after the drain is lost, although AddTask promised to run it. */
  lemma AcceptedTaskLost<T(!new)>(task: T) returns (steps: seq<Step<T>>, s: State<T>)
    ensures IsRun(Start(1, 1), steps, s) && Quiescent(s) && s.accepted == [task] && s.ran == []
  {
    var left, more := ReachesExit<T>();
    var s4 := Take(left, AddTask(task));
    s := Take(s4, Notify);
    RunCons(s4, Notify, [], s);
    RunCons(left, AddTask(task), [Notify] + [], s);
    steps := more + ([AddTask(task)] + ([Notify] + []));
    RunAppend(Start(1, 1), more, left, [AddTask(task)] + ([Notify] + []), s);
  }

  /** A stop before anything was added. */
  lemma ReachesExit<T>() returns (s: State<T>, steps: seq<Step<T>>)
    ensures IsRun(Start(1, 1), steps, s) && s == Start<T>(1, 1).(loop := Exited)
  {
    var s0 := Start<T>(1, 1);
    var s1 := Take(s0, Stop);
    var s2 := Take(s1, RecvStop);
    s := Take(s2, Test);
    RunCons(s2, Test, [], s);
    RunCons(s1, RecvStop, [Test] + [], s);
    steps := [Stop] + ([RecvStop] + ([Test] + []));
    RunCons(s0, Stop, [RecvStop] + ([Test] + []), s);
  }

  lemma {:induction false} RunAppend<T>(s: State<T>, a: seq<Step<T>>, m: State<T>, b: seq<Step<T>>, s': State<T>)
    requires IsRun(s, a, m) && IsRun(m, b, s')
    ensures IsRun(s, a + b, s')
    decreases |a|
  {
    if a == [] {
      assert a + b == b;
    } else {
      RunAppend(Take(s, a[0]), a[1..], m, b, s');
      assert (a + b)[1..] == a[1..] + b;
    }
  }
}
