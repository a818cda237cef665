/**
 The asynchronous context in request/reply mode: a list of callbacks, four flags and user
 callbacks that may call back into the context. Its ghost `s` is what the run so far comes
 to, and the fields show it.

 Memory safety is part of the model: every method requires that the context has
 not been freed, just as the C code dereferences it, so verifying a body shows
 that nothing touches the context after it was freed and that it is freed once.
 */
module Async {
  import opened Bytes
  import opened Resp
  import opened AsyncCommands
  import opened AsyncLog
  import opened AsyncSpec

  /** The disconnect callbacks that are run, with their status. */
  function Told(onDisconnect: bool, s: State): seq<bool> {
    if s.gone && onDisconnect && s.connected then [s.freeing || !s.acErr] else []
  }

  class AsyncContext {
    var connected: bool
    var disconnecting: bool
    var freeing: bool
    var inCallback: bool
    var err: bool                     // c->err
    var acErr: bool                   // ac->err
    var replies: seq<Callback>
    var obuf: bytes
    const onDisconnect: bool          // a disconnect callback is installed
    const script: Script              // what the user's callbacks do
    var invoked: nat                  // how many callbacks were invoked

    var freed: bool                   // the memory has been released
    ghost var s: State
    ghost var ran: seq<Invocation>    // every callback run, in order
    ghost var notified: seq<bool>     // disconnect callbacks run, with their status

    /** The fields show the state, and the list is what is left of the accepted commands. */
    ghost predicate Linked()
      reads this
    {
      && s == State(connected, disconnecting, freeing, err, acErr, freed, obuf,
                    s.accepted, s.received, s.settled, invoked, s.texts, s.sent)
      && |s.received| <= s.settled <= |s.accepted|
      && replies == s.accepted[s.settled..]
    }

    /** And exactly the callbacks of the other commands have run. */
    ghost predicate Consistent()
      reads this
    {
      Linked() && ran == Log(s.accepted[..s.settled], s.received)
    }

    /** Between events: alive, or freed with the user told. */
    ghost predicate Valid()
      reads this
    {
      Consistent() && Sound(s) && !inCallback && notified == Told(onDisconnect, s)
    }

    /** Outside of callbacks, and not freed. */
    ghost predicate Outside()
      reads this
    {
      Consistent() && Buffered(s) && !freed && !inCallback && notified == []
    }

    /** Inside a callback, which does not free the context. */
    ghost predicate Inside()
      reads this
    {
      Consistent() && Buffered(s) && !freed && inCallback && notified == []
    }

    /** No more commands are taken on, or there is nothing left to run. */
    ghost predicate TearingDown()
      reads this
    {
      Outside() && (s.Closing() || replies == [])
    }

    constructor (onDisconnect: bool, script: Script)
      ensures Valid() && s == FRESH && this.onDisconnect == onDisconnect && this.script == script
    {
      connected, disconnecting, freeing, inCallback := false, false, false, false;
      err, acErr, replies, obuf := false, false, [], [];
      this.onDisconnect, this.script, invoked := onDisconnect, script, 0;
      freed, s, ran, notified := false, FRESH, [], [];
    }

    /** __redisAsyncCommand in request/reply mode, with the text of the command. */
    method AsyncCommand(cmd: bytes, cb: Callback) returns (ok: bool)
      requires Consistent() && !freed
      requires Classified(cmd) in {Some(Regular), Some(Cancellation)}
      modifies this`replies, this`obuf, this`s
      ensures Consistent() && ok == (!s.Closing() && Classified(cmd) == Some(Regular))
      ensures s == Act(old(s), if Classified(cmd) == Some(Regular) then Command(cmd, cb) else Unsubscribe(cmd, cb))
    {
      ok := Submit(cmd, Classified(cmd).value, cb);
    }

    /** The same once it is known what the text is for. There is no subscription to cancel. */
    method Submit(cmd: bytes, purpose: Purpose, cb: Callback) returns (ok: bool)
      requires Consistent() && !freed && purpose in {Regular, Cancellation}
      modifies this`replies, this`obuf, this`s
      ensures Consistent() && ok == (!s.Closing() && purpose == Regular)
      ensures s == Act(old(s), if purpose == Regular then Command(cmd, cb) else Unsubscribe(cmd, cb))
    {
      if disconnecting || freeing {
        return false;
      }
      if purpose == Cancellation {
        return false;
      }
      PushCallback(cb);
      obuf, s := obuf + cmd, s.(obuf := s.obuf + cmd, texts := s.texts + [cmd]);
      return true;
    }

    /** __redisPushCallback: puts a callback at the end of the list. */
    method PushCallback(cb: Callback)
      requires Consistent()
      modifies this`replies, this`s
      ensures Consistent() && s == old(s).(accepted := old(s).accepted + [cb])
    {
      ghost var all := s.accepted + [cb];
      assert all[..s.settled] == s.accepted[..s.settled];
      assert all[s.settled..] == s.accepted[s.settled..] + [cb];
      replies := replies + [cb];
      s := s.(accepted := all);
    }

    /** __redisShiftCallback: takes the oldest callback off the list. */
    method ShiftCallback() returns (cb: Callback)
      requires Linked() && !freed && replies != []
      modifies this`replies, this`s
      ensures Linked() && s == old(s).(settled := old(s).settled + 1) && cb == s.accepted[old(s).settled]
    {
      cb := replies[0];
      replies := replies[1..];
      s := s.(settled := s.settled + 1);
    }

    /** __redisRunCallback: runs the callback of the command that was just taken off,
        with the reply it got, if any. */
    method RunCallback(cb: Callback, reply: Option<Reply>)
      requires Linked() && Buffered(s) && !freed && !inCallback && notified == []
      requires 0 < s.settled && cb == s.accepted[s.settled - 1] && reply == ReplyTo(s, s.settled - 1)
      requires ran == Log(s.accepted[..s.settled - 1], s.received)
      modifies this
      ensures Outside() && s == Called(script, old(s), cb, reply)
      decreases 1, |replies|, 1
    {
      Record(cb, reply);
      if cb.fn.Some? {
        Invoke(cb, reply);
      }
    }

    /** Notes that the callback just taken off is run, if it has a function. */
    ghost method Record(cb: Callback, reply: Option<Reply>)
      requires Linked()
      requires 0 < s.settled && cb == s.accepted[s.settled - 1] && reply == ReplyTo(s, s.settled - 1)
      requires ran == Log(s.accepted[..s.settled - 1], s.received)
      modifies this`ran
      ensures Consistent()
    {
      LogStep(s.accepted, s.settled - 1, s.received);
      ran := ran + if cb.fn.Some? then [Invocation(s.settled - 1, cb, reply)] else [];
    }

    /** Calls the user's function. */
    method Invoke(cb: Callback, reply: Option<Reply>)
      requires Outside()
      modifies this
      ensures Outside() && s == Acts(old(s).(invoked := old(s).invoked + 1), script(old(s).invoked + 1, cb, reply))
      decreases 1, |replies|, 0
    {
      inCallback := true;
      invoked, s := invoked + 1, s.(invoked := s.invoked + 1);
      UserCallback(script(invoked, cb, reply));
      inCallback := false;
    }

    /** The user code of one callback. */
    method UserCallback(actions: seq<Action>)
      requires Inside()
      modifies this
      ensures Inside() && s == Acts(old(s), actions)
      decreases 0, 0, 6
    {
      for i := 0 to |actions|
        invariant Inside() && s == Acts(old(s), actions[..i])
      {
        assert actions[..i + 1][..i] == actions[..i];
        ActKeeps(s, actions[i]);
        match actions[i]
        case Command(cmd, cb) =>
          var _ := Submit(cmd, Regular, cb);
        case Unsubscribe(cmd, cb) =>
          var _ := Submit(cmd, Cancellation, cb);
        case Disconnect =>
          AsyncDisconnect();
        case Free =>
          AsyncFree();
      }
      assert actions[..|actions|] == actions;
    }

    /** Runs the oldest callback without a reply. */
    method Abandon()
      requires TearingDown() && replies != []
      modifies this
      ensures TearingDown() && |replies| == old(|replies|) - 1 && s == Settle(script, old(s))
      decreases 1, |replies|, 0
    {
      SettleKeeps(script, s, s.settled + 1);
      var cb := ShiftCallback();
      RunCallback(cb, None);
    }

    /** __redisAsyncFree: runs what is left in the list without a reply, tells the user
        and releases the context. */
    method FreeContext()
      requires TearingDown()
      modifies this
      ensures Valid() && s == Teardown(script, old(s))
      decreases 1, |replies|, 3
    {
      TeardownIs(script, s, |replies|);
      Drain(|replies|);
      Release();
    }

    /** The loop over what is left in the list. */
    method Drain(ghost all: nat)
      requires TearingDown() && all == |replies|
      modifies this
      ensures TearingDown() && replies == [] && s == Drop(script, old(s), all)
      decreases 1, |replies|, 2
    {
      ghost var n := 0;
      while replies != []
        invariant TearingDown() && |replies| + n == all
        invariant s == Drop(script, old(s), n)
        decreases |replies|
      {
        Abandon();
        n := n + 1;
      }
    }

    /** Tells the user and releases the context. */
    method Release()
      requires TearingDown() && replies == []
      modifies this`notified, this`freed, this`s
      ensures Valid() && s == old(s).(gone := true)
    {
      if onDisconnect && connected {
        if freeing {
          notified := notified + [true];
        } else {
          notified := notified + [!acErr];
        }
      }
      freed, s := true, s.(gone := true);
    }

    /** redisAsyncFree: from inside a callback only the flag is set. */
    method AsyncFree()
      requires Inside() || Outside()
      modifies this
      ensures if old(inCallback) then Inside() && s == Act(old(s), Free)
              else Valid() && s == Call(script, old(s), Free)
      decreases if inCallback then 0 else 1, if inCallback then 0 else |replies|, 5
    {
      freeing, s := true, s.(freeing := true);
      if !inCallback {
        FreeContext();
      }
    }

    /** __redisAsyncDisconnect. Without an error the list must be empty: the assertion in
        the source shifts a callback, so it would also lose one if it ever failed. */
    method DisconnectNow()
      requires Outside() && (!err ==> replies == [])
      modifies this
      ensures Valid() && s == Close(script, old(s))
      decreases 1, |replies|, 4
    {
      acErr, s := err, s.(acErr := err);
      if !acErr {
        assert replies == [];
      } else {
        disconnecting, s := true, s.(disconnecting := true);
      }
      FreeContext();
    }

    /** redisAsyncDisconnect: no new commands; the rest waits for the last reply. */
    method AsyncDisconnect()
      requires Inside() || Outside()
      modifies this
      ensures if old(inCallback) then Inside() && s == Act(old(s), Disconnect)
              else
                && s == Call(script, old(s), Disconnect)
                && if old(replies) == [] then Valid() else Outside()
      decreases if inCallback then 0 else 1, if inCallback then 0 else |replies|, 5
    {
      disconnecting, s := true, s.(disconnecting := true);
      if !inCallback && replies == [] {
        DisconnectNow();
      }
    }

    /** Hands one reply to the oldest callback. A reply that nobody asked for is the
        server refusing the connection. */
    method Dispatch(reply: Reply) returns (stop: bool)
      requires Valid() && !freed && (replies == [] ==> reply.Error?)
      modifies this
      ensures Valid() && s == Hand(script, old(s), reply) && stop == freed == Goes(script, old(s), reply)
    {
      HandKeeps(script, s, reply);
      if replies == [] {
        assert reply.Error?;
        SetError();
        DisconnectNow();
        return true;
      }
      var cb := Answer(reply);
      if cb.fn.Some? && freeing {
        FreeContext();
        return true;
      }
      return false;
    }

    method SetError()
      requires Outside()
      modifies this`err, this`s
      ensures Outside() && s == old(s).(err := true)
    {
      err, s := true, s.(err := true);
    }

    /** Runs the oldest callback with a reply. */
    method Answer(reply: Reply) returns (cb: Callback)
      requires Valid() && !freed && replies != []
      modifies this
      ensures Outside() && cb == old(s).accepted[old(s).settled]
      ensures s == Settle(script, old(s).(received := old(s).received + [reply]))
    {
      cb := TakeFor(reply);
      RunCallback(cb, Some(reply));
    }

    /** Matches the next reply with the oldest command. */
    method TakeFor(reply: Reply) returns (cb: Callback)
      requires Consistent() && !freed && replies != [] && |s.received| == s.settled
      modifies this`replies, this`s
      ensures s == old(s).(settled := old(s).settled + 1, received := old(s).received + [reply])
      ensures Linked() && cb == s.accepted[s.settled - 1]
      ensures ran == Log(s.accepted[..s.settled - 1], s.received)
    {
      LogStable(s.accepted[..s.settled], s.received, [reply]);
      cb := ShiftCallback();
      s := s.(received := s.received + [reply]);
    }

    /** redisProcessCallbacks: hands the replies that arrived to the callbacks in order,
        then disconnects if the stream is malformed or nothing more is expected. */
    method ProcessCallbacks(arrived: seq<Reply>, malformed: bool)
      requires Valid() && !freed
      requires forall i :: |replies| <= i < |arrived| ==> arrived[i].Error?
      modifies this
      ensures Valid() && s == Finish(script, HandAll(script, old(s), arrived), malformed)
      ensures freed <==> Ends(script, old(s), arrived, malformed)
    {
      TakeInKeeps(script, s, arrived, malformed);
      HandOver(arrived);
      if freed {
        return;
      }
      if malformed {
        SetError();
        DisconnectNow();
      } else if disconnecting && obuf == [] && replies == [] {
        DisconnectNow();
      }
    }

    /** The loop over the replies, until the context is gone. */
    method HandOver(arrived: seq<Reply>)
      requires Valid() && !freed
      requires forall i :: |replies| <= i < |arrived| ==> arrived[i].Error?
      modifies this
      ensures Valid() && s == HandAll(script, old(s), arrived)
    {
      var k := 0;
      while k < |arrived|
        invariant 0 <= k <= |arrived| && Valid() && !freed
        invariant s == HandAll(script, old(s), arrived[..k])
      {
        HandAllKeeps(script, old(s), arrived[..k]);
        NextReply(script, old(s), arrived, k);
        var stop := Dispatch(arrived[k]);
        if stop {
          StaysGone(script, old(s), arrived, k + 1);
          return;
        }
        k := k + 1;
      }
      assert arrived[..k] == arrived;
    }

    /** __redisAsyncHandleConnect: the first event tells whether the connection stands. */
    method HandleConnect(socket: Socket) returns (ok: bool)
      requires Valid() && !freed && !connected
      modifies this
      ensures Valid() && s == Connect(script, old(s), socket) && ok == !freed
    {
      match socket
      case Refused =>
        SetError();
        DisconnectNow();
        return false;
      case InProgress =>
        SetError();
        return true;
      case Connected =>
        connected, s := true, s.(connected := true);
        return true;
    }

    /** redisAsyncHandleRead, in an environment where the server answers each command at
        most once and may add error replies nobody asked for. */
    method HandleRead(socket: Socket, arrival: Arrival)
      requires Valid() && !freed
      requires arrival.Replies? ==> forall i :: |replies| <= i < |arrival.replies| ==> arrival.replies[i].Error?
      modifies this
      ensures Valid() && s == Read(script, old(s), socket, arrival)
      ensures freed <==> ReadEnds(script, old(s), socket, arrival)
    {
      ReadKeeps(script, s, socket, arrival);
      if !connected {
        var ok := HandleConnect(socket);
        if !ok || !connected {
          return;
        }
      }
      if err {
        DisconnectNow();
        return;
      }
      match arrival
      case Lost =>
        SetError();
        DisconnectNow();
      case Replies(arrived, malformed) =>
        ProcessCallbacks(arrived, malformed);
    }

    /** redisAsyncHandleWrite. */
    method HandleWrite(socket: Socket, sent: Sent)
      requires Valid() && !freed
      modifies this
      ensures Valid() && s == Write(script, old(s), socket, sent)
      ensures freed <==> WriteEnds(old(s), socket, sent)
    {
      WriteKeeps(script, s, socket, sent);
      if !connected {
        var ok := HandleConnect(socket);
        if !ok || !connected {
          return;
        }
      }
      if err {
        DisconnectNow();
        return;
      }
      match sent
      case Broken =>
        SetError();
        DisconnectNow();
      case Bytes(n) =>
        TakeOff(n);
    }

    method TakeOff(n: nat)
      requires Valid() && !freed
      modifies this`obuf, this`s
      ensures Valid() && s == Written(old(s), n)
    {
      WrittenKeeps(s, n);
      s := Written(s, n);
      obuf := if n <= |obuf| then obuf[n..] else [];
    }

    /** The program calls the context from outside of any callback. */
    method CallFromOutside(action: Action)
      requires Valid() && !freed
      modifies this
      ensures Valid() && s == Call(script, old(s), action)
      ensures freed <==> action.Free? || (action.Disconnect? && old(replies) == [])
    {
      CallKeeps(script, s, action);
      match action
      case Command(cmd, cb) =>
        var _ := Submit(cmd, Regular, cb);
      case Unsubscribe(cmd, cb) =>
        var _ := Submit(cmd, Cancellation, cb);
      case Disconnect =>
        AsyncDisconnect();
      case Free =>
        AsyncFree();
    }

    /** One event or call. */
    method React(event: Event)
      requires Valid() && !freed
      modifies this
      ensures Valid() && s == Handle(script, old(s), event)
    {
      match event
      case Readable(socket, arrival) =>
        HandleRead(socket, Permitted(arrival, |replies|));
      case Writable(socket, sent) =>
        HandleWrite(socket, sent);
      case Program(action) =>
        CallFromOutside(action);
    }
  }

  lemma TeardownIs(script: Script, s: State, n: nat)
    requires n == s.Pending()
    ensures Teardown(script, s) == Drop(script, s, n).(gone := true)
  {
  }

  lemma NextReply(script: Script, s: State, arrived: seq<Reply>, k: nat)
    requires k < |arrived|
    ensures
      var m := HandAll(script, s, arrived[..k]);
      HandAll(script, s, arrived[..k + 1]) == if m.gone then m else Hand(script, m, arrived[k])
  {
    assert arrived[..k + 1][..k] == arrived[..k];
  }

  lemma {:induction false} StaysGone(script: Script, s: State, arrived: seq<Reply>, k: nat)
    requires k <= |arrived| && HandAll(script, s, arrived[..k]).gone
    ensures HandAll(script, s, arrived) == HandAll(script, s, arrived[..k])
    decreases |arrived| - k
  {
    if k == |arrived| {
      assert arrived[..k] == arrived;
    } else {
      NextReply(script, s, arrived, k);
      StaysGone(script, s, arrived, k + 1);
    }
  }

  /** Any run of the context: events and calls in any order, with any user callbacks,
      until it is freed. The fields and histories at the end are what the events and the
      scripts come to; callbacks have run in command order, at most once, each as that of its
      own command and with its own reply; and all of them have run once the context is gone. */
  method Run(events: seq<Event>, onDisconnect: bool, script: Script) returns (ac: AsyncContext)
    ensures fresh(ac) && ac.Consistent() && ac.s == After(script, events)
    ensures ac.s.sent + ac.obuf == Concat(ac.s.texts) && |ac.s.texts| == |ac.s.accepted|
    ensures Sound(ac.s) && Exact(ac.s.accepted, ac.s.received, ac.s.settled, ac.ran)
    ensures ac.freed ==> ac.s.settled == |ac.s.accepted|
    ensures ac.notified == if ac.freed && onDisconnect && ac.connected then [ac.freeing || !ac.acErr] else []
  {
    ac := new AsyncContext(onDisconnect, script);
    for k := 0 to |events|
      invariant fresh(ac) && ac.Valid() && ac.onDisconnect == onDisconnect && ac.script == script
      invariant ac.s == After(script, events[..k])
    {
      assert events[..k + 1][..k] == events[..k];
      if !ac.freed {
        ac.React(events[k]);
      }
    }
    assert events[..|events|] == events;
    LogIsExact(ac.s.accepted, ac.s.received, ac.s.settled);
  }
}
