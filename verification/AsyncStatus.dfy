/** What the status means with which an asynchronous context ends. */
module AsyncStatus {
  import opened Resp
  import opened AsyncSpec

  /** A context that ended neither in an error nor because it was freed was asked to disconnect
      and had the answer to every command. */
  ghost predicate Answered(s: State) {
    && (!s.gone ==> !s.acErr)
    && (s.gone && !s.freeing && !s.acErr ==> s.disconnecting && |s.received| == |s.accepted|)
  }

  ghost predicate NoError(s: State) {
    !s.err && !s.acErr
  }

  /** Nothing is wrong with an event: a socket that is connected, a write that does not fail, and
      well-formed replies that were asked for. */
  predicate Smooth(s: State, event: Event) {
    match event
    case Readable(socket, arrival) =>
      && (s.connected || socket.Connected?)
      && arrival.Replies? && !arrival.malformed && |arrival.replies| <= s.Pending()
    case Writable(socket, sent) => (s.connected || socket.Connected?) && !sent.Broken?
    case Program(_) => true
  }

  lemma CloseStatus(script: Script, s: State)
    requires Sound(s) && !s.gone && (s.err || (s.disconnecting && s.Pending() == 0))
    ensures Answered(Close(script, s)) && (NoError(s) ==> NoError(Close(script, s)))
  {
    TeardownKeeps(script, s.(acErr := s.err, disconnecting := s.disconnecting || s.err));
  }

  lemma HandStatus(script: Script, s: State, reply: Reply)
    requires Sound(s) && !s.gone && Answered(s)
    ensures Answered(Hand(script, s, reply))
    ensures NoError(s) && s.Pending() > 0 ==> NoError(Hand(script, s, reply))
  {
    if s.Pending() == 0 {
      CloseStatus(script, s.(err := true));
    } else {
      var m := s.(received := s.received + [reply]);
      SettleKeeps(script, m, m.settled + 1);
      var s' := Settle(script, m);
      if s.accepted[s.settled].fn.Some? && s'.freeing {
        TeardownKeeps(script, s');
      }
    }
  }

  lemma {:induction false} HandAllStatus(script: Script, s: State, replies: seq<Reply>)
    requires Sound(s) && !s.gone && Answered(s)
    ensures Answered(HandAll(script, s, replies))
    ensures NoError(s) && |replies| <= s.Pending() ==> NoError(HandAll(script, s, replies))
    decreases |replies|
  {
    if replies != [] {
      var init, last := replies[..|replies| - 1], replies[|replies| - 1];
      HandAllStatus(script, s, init);
      HandAllKeeps(script, s, init);
      var m := HandAll(script, s, init);
      if !m.gone {
        HandStatus(script, m, last);
      }
    }
  }

  lemma FinishStatus(script: Script, s: State, malformed: bool)
    requires Sound(s) && Answered(s)
    ensures Answered(Finish(script, s, malformed))
    ensures NoError(s) && !malformed ==> NoError(Finish(script, s, malformed))
  {
    if !s.gone && malformed {
      CloseStatus(script, s.(err := true));
    } else if !s.gone && s.disconnecting && s.obuf == [] && s.Pending() == 0 {
      CloseStatus(script, s);
    }
  }

  lemma ReadyStatus(script: Script, s: State, socket: Socket)
    requires Sound(s) && !s.gone && Answered(s)
    ensures Answered(Ready(script, s, socket))
  {
    if !s.connected && socket.Refused? {
      CloseStatus(script, s.(err := true));
    }
  }

  lemma ReadStatus(script: Script, s: State, socket: Socket, arrival: Arrival)
    requires Sound(s) && !s.gone && Answered(s)
    ensures Answered(Read(script, s, socket, arrival))
    ensures NoError(s) && Smooth(s, Readable(socket, arrival)) ==> NoError(Read(script, s, socket, arrival))
  {
    ReadyStatus(script, s, socket);
    ReadyKeeps(script, s, socket);
    var c := Ready(script, s, socket);
    if !c.gone && c.connected {
      if c.err || arrival.Lost? {
        CloseStatus(script, c.(err := true));
      } else {
        HandAllStatus(script, c, arrival.replies);
        HandAllKeeps(script, c, arrival.replies);
        FinishStatus(script, HandAll(script, c, arrival.replies), arrival.malformed);
      }
    }
  }

  lemma WriteStatus(script: Script, s: State, socket: Socket, sent: Sent)
    requires Sound(s) && !s.gone && Answered(s)
    ensures Answered(Write(script, s, socket, sent))
    ensures NoError(s) && Smooth(s, Writable(socket, sent)) ==> NoError(Write(script, s, socket, sent))
  {
    ReadyStatus(script, s, socket);
    ReadyKeeps(script, s, socket);
    var c := Ready(script, s, socket);
    if !c.gone && c.connected && (c.err || sent.Broken?) {
      CloseStatus(script, c.(err := true));
    }
  }

  lemma CallStatus(script: Script, s: State, action: Action)
    requires Sound(s) && !s.gone && Answered(s)
    ensures Answered(Call(script, s, action)) && (NoError(s) ==> NoError(Call(script, s, action)))
  {
    if action.Free? {
      TeardownKeeps(script, s.(freeing := true));
    } else if action.Disconnect? && s.Pending() == 0 {
      CloseStatus(script, s.(disconnecting := true));
    }
  }

  lemma HandleStatus(script: Script, s: State, event: Event)
    requires Sound(s) && Answered(s)
    ensures Answered(Handle(script, s, event))
    ensures NoError(s) && Smooth(s, event) ==> NoError(Handle(script, s, event))
  {
    if !s.gone {
      match event
      case Readable(socket, arrival) => ReadStatus(script, s, socket, Permitted(arrival, s.Pending()));
      case Writable(socket, sent) => WriteStatus(script, s, socket, sent);
      case Program(action) => CallStatus(script, s, action);
    }
  }

  /** Over every run: an end without error, other than by freeing, means that a disconnect was asked for
      and every command had its reply; and an error means that something was wrong with an event. */
  lemma {:induction false} EndStatus(script: Script, events: seq<Event>)
    ensures
      var s := After(script, events);
      s.gone && !s.freeing && !s.acErr ==> s.disconnecting && |s.received| == |s.accepted|
    ensures Answered(After(script, events))
    ensures (forall k :: 0 <= k < |events| ==> Smooth(After(script, events[..k]), events[k])) ==>
              NoError(After(script, events))
    decreases |events|
  {
    if events != [] {
      var n := |events| - 1;
      var init := events[..n];
      EndStatus(script, init);
      RunKeeps(script, init, 0);
      HandleStatus(script, After(script, init), events[n]);
      if forall k :: 0 <= k < |events| ==> Smooth(After(script, events[..k]), events[k]) {
        forall k | 0 <= k < n ensures Smooth(After(script, init[..k]), init[k]) {
          assert init[..k] == events[..k];
        }
      }
    }
  }
}
