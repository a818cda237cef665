/** The history of callback invocations that an asynchronous context owes its user. */
module AsyncLog {
  import opened Bytes
  import opened Resp

  /** A callback as the user registered it: the function, if any, and its private data. */
  datatype Callback = Callback(fn: Option<nat>, privdata: nat)

  /** A callback was run as that of a command, with its reply or with none. */
  datatype Invocation = Invocation(command: nat, callback: Callback, reply: Option<Reply>)

  /** The invocations due once these commands are settled: in command order, one for
      each command with a function, with its own reply or, beyond the replies that
      came, with none. */
  function Log(settled: seq<Callback>, received: seq<Reply>): seq<Invocation> {
    if settled == [] then []
    else
      var k := |settled| - 1;
      Log(settled[..k], received) + Due(k, settled[k], received)
  }

  function Due(k: nat, cb: Callback, received: seq<Reply>): seq<Invocation> {
    if cb.fn.Some? then [Invocation(k, cb, if k < |received| then Some(received[k]) else None)] else []
  }

  /** Later replies do not change the invocations of earlier commands. */
  lemma {:induction false} LogStable(settled: seq<Callback>, received: seq<Reply>, more: seq<Reply>)
    requires |settled| <= |received|
    ensures Log(settled, received + more) == Log(settled, received)
    decreases |settled|
  {
    if settled != [] {
      LogStable(settled[..|settled| - 1], received, more);
    }
  }

  lemma LogStep(commands: seq<Callback>, k: nat, received: seq<Reply>)
    requires k < |commands|
    ensures Log(commands[..k + 1], received) == Log(commands[..k], received) + Due(k, commands[k], received)
  {
    assert commands[..k + 1][..k] == commands[..k];
  }

  /** The callback of command `k` was run. */
  predicate Logged(log: seq<Invocation>, k: nat) {
    exists i :: 0 <= i < |log| && log[i].command == k
  }

  predicate Increasing(log: seq<Invocation>) {
    forall i, j :: 0 <= i < j < |log| ==> log[i].command < log[j].command
  }

  /** The callback that was run is the one registered with the command, and it was given the
      reply to that command, or none if there was none. */
  predicate Answers(inv: Invocation, accepted: seq<Callback>, received: seq<Reply>) {
    && inv.command < |accepted| && inv.callback == accepted[inv.command]
    && inv.reply == if inv.command < |received| then Some(received[inv.command]) else None
  }

  /** In order, and hence at most once: the logged commands increase strictly. */
  lemma {:induction false} LogIncreases(settled: seq<Callback>, received: seq<Reply>)
    ensures Increasing(Log(settled, received))
    ensures forall i :: 0 <= i < |Log(settled, received)| ==> Log(settled, received)[i].command < |settled|
    decreases |settled|
  {
    if settled != [] {
      LogIncreases(settled[..|settled| - 1], received);
    }
  }

  /** A settled command is logged if and only if it has a function. */
  lemma {:induction false} LogComplete(settled: seq<Callback>, received: seq<Reply>, c: nat)
    requires c < |settled|
    ensures settled[c].fn.Some? <==> Logged(Log(settled, received), c)
    decreases |settled|
  {
    var k := |settled| - 1;
    var before, log := Log(settled[..k], received), Log(settled, received);
    LogIncreases(settled[..k], received);
    assert forall i :: 0 <= i < |before| ==> log[i] == before[i];
    if c < k {
      LogComplete(settled[..k], received, c);
    } else if settled[c].fn.Some? {
      assert log[|before|].command == c;
    }
  }

  /** Each invocation is that of its own command's callback, with its own reply. */
  lemma {:induction false} LogAnswers(settled: seq<Callback>, received: seq<Reply>)
    ensures forall i :: 0 <= i < |Log(settled, received)| ==> Answers(Log(settled, received)[i], settled, received)
    decreases |settled|
  {
    if settled != [] {
      LogAnswers(settled[..|settled| - 1], received);
    }
  }

  /** What the user is owed when so many of the accepted commands are settled. */
  ghost predicate Exact(accepted: seq<Callback>, received: seq<Reply>, settled: nat, ran: seq<Invocation>) {
    && settled <= |accepted|
    && Increasing(ran)
    && (forall i :: 0 <= i < |ran| ==> Answers(ran[i], accepted, received))
    && (forall c: nat :: c < |accepted| ==> (Logged(ran, c) <==> accepted[c].fn.Some? && c < settled))
  }

  lemma LogIsExact(accepted: seq<Callback>, received: seq<Reply>, settled: nat)
    requires settled <= |accepted|
    ensures Exact(accepted, received, settled, Log(accepted[..settled], received))
  {
    var done := accepted[..settled];
    var log := Log(done, received);
    LogIncreases(done, received);
    LogAnswers(done, received);
    forall c: nat | c < |accepted|
      ensures Logged(log, c) <==> accepted[c].fn.Some? && c < settled
    {
      if c < settled {
        LogComplete(done, received, c);
      }
    }
  }

  /** With callbacks that are told apart, each callback that ran was given the reply to the
      one command it was registered with. */
  lemma EachCallbackItsReply(accepted: seq<Callback>, received: seq<Reply>, settled: nat, ran: seq<Invocation>, i: nat,
                             c: nat)
    requires Exact(accepted, received, settled, ran) && i < |ran| && c < |accepted| && ran[i].callback == accepted[c]
    requires forall a, b :: 0 <= a < b < |accepted| ==> accepted[a] != accepted[b]
    ensures ran[i].reply == if c < |received| then Some(received[c]) else None
    ensures forall j :: 0 <= j < |ran| && ran[j].callback == accepted[c] ==> j == i
  {
    assert Answers(ran[i], accepted, received);
    forall j | 0 <= j < |ran| && ran[j].callback == accepted[c]
      ensures j == i
    {
      assert Answers(ran[j], accepted, received);
      OncePerCommand(ran, i, j);
    }
  }

  lemma OncePerCommand(ran: seq<Invocation>, i: nat, j: nat)
    requires Increasing(ran) && i < |ran| && j < |ran| && ran[i].command == ran[j].command
    ensures i == j
  {
  }
}
