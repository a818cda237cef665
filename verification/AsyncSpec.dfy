/**
 What a run of an asynchronous context comes to, without its list, its re-entrant calls
 and its memory: a fold over the events, with the user's callbacks as scripts.
 */
module AsyncSpec {
  import opened Bytes
  import opened Resp
  import opened AsyncLog
  import Sequences

  /** What a user callback, or the program outside of callbacks, may do. The text of a
      command is that of one with one reply, or that of the end of a subscription. */
  datatype Action =
    | Command(cmd: bytes, callback: Callback)
    | Unsubscribe(cancel: bytes, callback: Callback)
    | Disconnect
    | Free

  /** What the n-th invocation does, with the callback that is run and the reply it is given. */
  type Script = (nat, Callback, Option<Reply>) -> seq<Action>

  /** The state of the socket when it first becomes ready. */
  datatype Socket = Connected | InProgress | Refused

  /** What came of reading from the socket: some replies, possibly followed by
      malformed bytes; or nothing, because the connection is gone. */
  datatype Arrival = Replies(replies: seq<Reply>, malformed: bool) | Lost

  /** What came of writing: some bytes went out, or the connection is gone. */
  datatype Sent = Bytes(n: nat) | Broken

  datatype Event =
    | Readable(socket: Socket, arrival: Arrival)
    | Writable(socket: Socket, sent: Sent)
    | Program(action: Action)

  /** Commands are accepted in order; the first `settled` of them had their callbacks run,
      the first |received| of these with a reply. `texts` are those of the accepted commands,
      and `sent` is what was written to the socket. */
  datatype State = State(connected: bool, disconnecting: bool, freeing: bool, err: bool, acErr: bool, gone: bool,
                         obuf: bytes, accepted: seq<Callback>, received: seq<Reply>, settled: nat, invoked: nat,
                         texts: seq<bytes>, sent: bytes) {
    predicate Closing() {
      disconnecting || freeing
    }

    function Pending(): int {
      |accepted| - settled
    }
  }

  const FRESH := State(false, false, false, false, false, false, [], [], [], 0, 0, [], [])

  // ---- User code ----

  /** An action inside a callback: nothing is freed there, and a context that is closing
      takes no commands. Without a subscription, none can be cancelled. */
  function Act(s: State, action: Action): State {
    match action
    case Command(cmd, cb) =>
      if s.Closing() then s else s.(accepted := s.accepted + [cb], obuf := s.obuf + cmd, texts := s.texts + [cmd])
    case Unsubscribe(_, _) => s
    case Disconnect => s.(disconnecting := true)
    case Free => s.(freeing := true)
  }

  function Acts(s: State, actions: seq<Action>): State {
    if actions == [] then s else Act(Acts(s, actions[..|actions| - 1]), actions[|actions| - 1])
  }

  function Called(script: Script, s: State, cb: Callback, reply: Option<Reply>): State {
    if cb.fn.None? then s else Acts(s.(invoked := s.invoked + 1), script(s.invoked + 1, cb, reply))
  }

  /** The reply to a command, if it came. */
  function ReplyTo(s: State, k: nat): Option<Reply> {
    if k < |s.received| then Some(s.received[k]) else None
  }

  /** The callback of the oldest pending command runs. */
  function Settle(script: Script, s: State): State {
    if s.settled >= |s.accepted| then s
    else Called(script, s.(settled := s.settled + 1), s.accepted[s.settled], ReplyTo(s, s.settled))
  }

  // ---- The end of a context ----

  function Drop(script: Script, s: State, n: nat): State {
    if n == 0 then s else Settle(script, Drop(script, s, n - 1))
  }

  /** Whatever is pending is settled without a reply. */
  function Teardown(script: Script, s: State): State {
    Drop(script, s, if s.Pending() > 0 then s.Pending() else 0).(gone := true)
  }

  /** A disconnect; one because of an error takes no more commands from the callbacks. */
  function Close(script: Script, s: State): State {
    Teardown(script, s.(acErr := s.err, disconnecting := s.disconnecting || s.err))
  }

  // ---- Events ----

  /** A reply for the oldest pending command; one that nobody asked for ends the context. */
  function Hand(script: Script, s: State, reply: Reply): State {
    if s.Pending() <= 0 then Close(script, s.(err := true))
    else
      var s' := Settle(script, s.(received := s.received + [reply]));
      if s.accepted[s.settled].fn.Some? && s'.freeing then Teardown(script, s') else s'
  }

  function HandAll(script: Script, s: State, replies: seq<Reply>): State {
    if replies == [] then s
    else
      var m := HandAll(script, s, replies[..|replies| - 1]);
      if m.gone then m else Hand(script, m, replies[|replies| - 1])
  }

  /** Behind the replies: the stream may be malformed, or nothing more may be expected. */
  function Finish(script: Script, s: State, malformed: bool): State {
    if s.gone then s
    else if malformed then Close(script, s.(err := true))
    else if s.disconnecting && s.obuf == [] && s.Pending() == 0 then Close(script, s)
    else s
  }

  function Connect(script: Script, s: State, socket: Socket): State {
    match socket
    case Refused => Close(script, s.(err := true))
    case InProgress => s.(err := true)
    case Connected => s.(connected := true)
  }

  /** Looks at the socket unless it is known to be connected. */
  function Ready(script: Script, s: State, socket: Socket): State {
    if s.connected then s else Connect(script, s, socket)
  }

  function Read(script: Script, s: State, socket: Socket, arrival: Arrival): State {
    var c := Ready(script, s, socket);
    if c.gone || !c.connected then c
    else if c.err || arrival.Lost? then Close(script, c.(err := true))
    else Finish(script, HandAll(script, c, arrival.replies), arrival.malformed)
  }

  /** So many bytes, or all there are, go out from the front of the buffer. */
  function Written(s: State, n: nat): State {
    var k := if n <= |s.obuf| then n else |s.obuf|;
    s.(obuf := s.obuf[k..], sent := s.sent + s.obuf[..k])
  }

  function Write(script: Script, s: State, socket: Socket, sent: Sent): State {
    var c := Ready(script, s, socket);
    if c.gone || !c.connected then c
    else if c.err || sent.Broken? then Close(script, c.(err := true))
    else Written(c, sent.n)
  }

  /** A call from outside of any callback. */
  function Call(script: Script, s: State, action: Action): State {
    match action
    case Command(_, _) => Act(s, action)
    case Unsubscribe(_, _) => s
    case Disconnect => if s.Pending() == 0 then Close(script, s.(disconnecting := true)) else s.(disconnecting := true)
    case Free => Teardown(script, s.(freeing := true))
  }

  /** The replies of a server that does not answer more than it was asked, except by
      errors. */
  function Permitted(arrival: Arrival, outstanding: int): (r: Arrival)
    ensures r.Replies? ==> forall i :: 0 <= i < |r.replies| && outstanding <= i ==> r.replies[i].Error?
  {
    if arrival.Replies? && 0 <= outstanding < |arrival.replies| &&
       exists i :: outstanding <= i < |arrival.replies| && !arrival.replies[i].Error?
    then arrival.(replies := arrival.replies[..outstanding])
    else if arrival.Replies? && outstanding < 0 then arrival.(replies := [])
    else arrival
  }

  function Handle(script: Script, s: State, event: Event): State {
    if s.gone then s
    else match event
      case Readable(socket, arrival) => Read(script, s, socket, Permitted(arrival, s.Pending()))
      case Writable(socket, sent) => Write(script, s, socket, sent)
      case Program(action) => Call(script, s, action)
  }

  function After(script: Script, events: seq<Event>): State {
    if events == [] then FRESH else Handle(script, After(script, events[..|events| - 1]), events[|events| - 1])
  }

  // ---- What user code keeps ----

  /** Only the flags, the commands and the count of callbacks may differ: flags are only
      set, commands only added, and none when closing. */
  ghost predicate UserStep(s: State, s': State) {
    && s' == s.(disconnecting := s'.disconnecting, freeing := s'.freeing, accepted := s'.accepted,
                obuf := s'.obuf, invoked := s'.invoked, texts := s'.texts)
    && (s.disconnecting ==> s'.disconnecting) && (s.freeing ==> s'.freeing)
    && s.accepted <= s'.accepted && s.texts <= s'.texts && (Buffered(s) ==> Buffered(s'))
    && (s.Closing() ==> s'.accepted == s.accepted && s'.obuf == s.obuf)
  }

  function Concat(texts: seq<bytes>): bytes {
    if texts == [] then [] else Concat(texts[..|texts| - 1]) + texts[|texts| - 1]
  }

  /** What was written and what is still to be written are the texts of the accepted commands,
      in the order in which they were accepted. */
  ghost predicate Buffered(s: State) {
    |s.texts| == |s.accepted| && s.sent + s.obuf == Concat(s.texts)
  }

  lemma ActKeeps(s: State, action: Action)
    ensures UserStep(s, Act(s, action))
    ensures Act(s, action).freeing <==> s.freeing || action == Free
  {
    if action.Command? && !s.Closing() {
      ConcatSnoc(s.texts, action.cmd);
      Sequences.Associate(s.sent, s.obuf, action.cmd);
    }
  }

  lemma ConcatSnoc(texts: seq<bytes>, text: bytes)
    ensures Concat(texts + [text]) == Concat(texts) + text
  {
    assert (texts + [text])[..|texts|] == texts;
  }

  lemma UserSteps(a: State, b: State, c: State)
    requires UserStep(a, b) && UserStep(b, c)
    ensures UserStep(a, c)
  {
  }

  lemma {:induction false} ActsKeep(s: State, actions: seq<Action>)
    ensures UserStep(s, Acts(s, actions))
    ensures Acts(s, actions).freeing <==> s.freeing || Free in actions
    decreases |actions|
  {
    if actions != [] {
      var init, last := actions[..|actions| - 1], actions[|actions| - 1];
      ActsKeep(s, init);
      ActKeeps(Acts(s, init), last);
      UserSteps(s, Acts(s, init), Acts(s, actions));
      assert actions == init + [last];
    }
  }

  /** The callback of command `k` frees the context. */
  predicate Frees(script: Script, s: State, k: nat, reply: Option<Reply>)
    requires k < |s.accepted|
  {
    s.accepted[k].fn.Some? && Free in script(s.invoked + 1, s.accepted[k], reply)
  }

  lemma CalledKeeps(script: Script, s: State, cb: Callback, reply: Option<Reply>)
    ensures UserStep(s, Called(script, s, cb, reply))
    ensures Called(script, s, cb, reply).freeing <==>
      s.freeing || (cb.fn.Some? && Free in script(s.invoked + 1, cb, reply))
  {
    if cb.fn.Some? {
      ActsKeep(s.(invoked := s.invoked + 1), script(s.invoked + 1, cb, reply));
    }
  }

  lemma SettleKeeps(script: Script, s: State, n: nat)
    requires s.settled < |s.accepted| && n == s.settled + 1
    ensures UserStep(s.(settled := n), Settle(script, s))
    ensures Settle(script, s).freeing <==> s.freeing || Frees(script, s, s.settled, ReplyTo(s, s.settled))
  {
    CalledKeeps(script, s.(settled := n), s.accepted[s.settled], ReplyTo(s, s.settled));
  }

  lemma UserStepFrom(a: State, b: State, n: nat)
    requires UserStep(a, b)
    ensures UserStep(a.(settled := n), b.(settled := n))
  {
  }

  /** Dropping commands from a context that is closing adds none. */
  lemma {:induction false} DropKeeps(script: Script, s: State, n: nat, to: nat)
    requires to == s.settled + n <= |s.accepted| && (s.Closing() || n == 0)
    ensures UserStep(s.(settled := to), Drop(script, s, n))
    ensures Drop(script, s, n).accepted == s.accepted
  {
    if n > 0 {
      DropKeeps(script, s, n - 1, to - 1);
      var m := Drop(script, s, n - 1);
      SettleKeeps(script, m, to);
      UserStepFrom(s.(settled := to - 1), m, to);
      UserSteps(s.(settled := to), m.(settled := to), Settle(script, m));
    }
  }

  lemma TeardownKeeps(script: Script, s: State)
    requires s.settled <= |s.accepted| && (s.Closing() || s.Pending() == 0)
    ensures
      var s' := Teardown(script, s);
      && s'.gone && s'.accepted == s.accepted && s'.settled == |s.accepted| && s'.received == s.received
      && s'.connected == s.connected && s'.err == s.err && s'.acErr == s.acErr
      && s'.sent == s.sent && s.texts <= s'.texts && (Buffered(s) ==> Buffered(s'))
      && (s.disconnecting ==> s'.disconnecting) && (s.freeing ==> s'.freeing)
  {
    DropKeeps(script, s, s.Pending(), |s.accepted|);
  }

  // ---- What runs keep ----

  /** A context between events: alive, with a reply for every settled command; or gone, with
      every command settled. */
  ghost predicate Sound(s: State) {
    && |s.received| <= s.settled <= |s.accepted| && Buffered(s)
    && (s.gone ==> s.settled == |s.accepted|)
    && (!s.gone ==> s.settled == |s.received| && !s.freeing)
  }

  /** Commands, replies and written bytes are only added, flags only set, and a context that is
      closing takes on no command. */
  ghost predicate Later(s: State, s': State) {
    && s.accepted <= s'.accepted && s.received <= s'.received && s.texts <= s'.texts && s.sent <= s'.sent
    && (s.gone ==> s'.gone)
    && (s.disconnecting ==> s'.disconnecting) && (s.freeing ==> s'.freeing)
    && (s.Closing() ==> s'.accepted == s.accepted)
  }

  lemma CloseKeeps(script: Script, s: State)
    requires Sound(s) && !s.gone && (s.err || s.Pending() == 0)
    ensures
      var s' := Close(script, s);
      && Sound(s') && s'.gone && Later(s, s') && s'.connected == s.connected
      && s'.accepted == s.accepted && s'.received == s.received && s'.acErr == s.err
  {
    TeardownKeeps(script, s.(acErr := s.err, disconnecting := s.disconnecting || s.err));
  }

  /** The next reply ends the context: nobody asked for it, or the callback that it is given
      to frees the context. */
  predicate Goes(script: Script, s: State, reply: Reply) {
    s.settled >= |s.accepted| || Frees(script, s, s.settled, Some(reply))
  }

  lemma HandKeeps(script: Script, s: State, reply: Reply)
    requires Sound(s) && !s.gone
    ensures
      var s' := Hand(script, s, reply);
      && Sound(s') && Later(s, s')
      && (s'.gone <==> Goes(script, s, reply))
      && s'.received == s.received + (if s.Pending() == 0 then [] else [reply])
      && s'.connected == s.connected && (!s'.gone ==> s'.err == s.err)
  {
    if s.Pending() == 0 {
      CloseKeeps(script, s.(err := true));
    } else {
      var m := s.(received := s.received + [reply]);
      SettleKeeps(script, m, m.settled + 1);
      var s' := Settle(script, m);
      if s.accepted[s.settled].fn.Some? && s'.freeing {
        TeardownKeeps(script, s');
      }
    }
  }

  /** The context goes at reply `i`. */
  ghost predicate GoesAt(script: Script, s: State, replies: seq<Reply>, i: nat)
    requires i < |replies|
  {
    var m := HandAll(script, s, replies[..i]);
    !m.gone && Goes(script, m, replies[i])
  }

  lemma LaterTwice(a: State, b: State, c: State)
    requires Later(a, b) && Later(b, c)
    ensures Later(a, c)
  {
  }

  lemma {:induction false} HandAllKeeps(script: Script, s: State, replies: seq<Reply>)
    requires Sound(s) && !s.gone
    ensures
      var s' := HandAll(script, s, replies);
      && Sound(s') && Later(s, s') && s'.connected == s.connected
      && s.received <= s'.received <= s.received + replies
      && (!s'.gone ==> s'.received == s.received + replies && s'.err == s.err)
    decreases |replies|
  {
    if replies != [] {
      var init, last := replies[..|replies| - 1], replies[|replies| - 1];
      HandAllKeeps(script, s, init);
      var m := HandAll(script, s, init);
      assert s.received + replies == s.received + init + [last];
      if !m.gone {
        HandKeeps(script, m, last);
        LaterTwice(s, m, Hand(script, m, last));
      }
    }
  }

  lemma GoesAtInit(script: Script, s: State, replies: seq<Reply>, init: seq<Reply>, i: nat)
    requires i < |init| && init <= replies
    ensures GoesAt(script, s, replies, i) == GoesAt(script, s, init, i)
  {
    assert replies[..i] == init[..i];
  }

  lemma GoesAtLast(script: Script, s: State, replies: seq<Reply>, init: seq<Reply>, k: nat)
    requires Sound(s) && !s.gone && replies != [] && k == |replies| - 1 && init == replies[..k]
    ensures GoesAt(script, s, replies, k) == (!HandAll(script, s, init).gone && HandAll(script, s, replies).gone)
    ensures HandAll(script, s, init).gone ==> HandAll(script, s, replies).gone
  {
    HandAllKeeps(script, s, init);
    var m := HandAll(script, s, init);
    if !m.gone {
      HandKeeps(script, m, replies[k]);
    }
  }

  lemma {:induction false} GoneWentAt(script: Script, s: State, replies: seq<Reply>) returns (i: nat)
    requires Sound(s) && !s.gone && HandAll(script, s, replies).gone
    ensures i < |replies| && GoesAt(script, s, replies, i)
    decreases |replies|
  {
    var k := |replies| - 1;
    var init := replies[..k];
    if HandAll(script, s, init).gone {
      i := GoneWentAt(script, s, init);
      GoesAtInit(script, s, replies, init, i);
    } else {
      GoesAtLast(script, s, replies, init, k);
      i := k;
    }
  }

  /** Once gone, the context stays gone over more replies. */
  lemma GoneAtLast(script: Script, s: State, replies: seq<Reply>, init: seq<Reply>)
    requires replies != [] && init == replies[..|replies| - 1] && HandAll(script, s, init).gone
    ensures HandAll(script, s, replies).gone
  {
  }

  lemma {:induction false} WentAtGone(script: Script, s: State, replies: seq<Reply>, i: nat)
    requires Sound(s) && !s.gone && i < |replies| && GoesAt(script, s, replies, i)
    ensures HandAll(script, s, replies).gone
    decreases |replies|
  {
    var init := replies[..|replies| - 1];
    if i == |replies| - 1 {
      GoesAtLast(script, s, replies, init, i);
    } else {
      GoesAtInit(script, s, replies, init, i);
      WentAtGone(script, s, init, i);
      GoneAtLast(script, s, replies, init);
    }
  }

  /** Handing over replies ends the context exactly when it goes at one of them. */
  lemma HandAllGoes(script: Script, s: State, replies: seq<Reply>)
    requires Sound(s) && !s.gone
    ensures HandAll(script, s, replies).gone <==> exists i :: 0 <= i < |replies| && GoesAt(script, s, replies, i)
  {
    if HandAll(script, s, replies).gone {
      var i := GoneWentAt(script, s, replies);
    }
    if i: nat :| i < |replies| && GoesAt(script, s, replies, i) {
      WentAtGone(script, s, replies, i);
    }
  }

  lemma FinishKeeps(script: Script, s: State, malformed: bool)
    requires Sound(s)
    ensures
      var s' := Finish(script, s, malformed);
      && Sound(s') && Later(s, s') && s'.received == s.received && s'.connected == s.connected
      && (s'.gone <==> s.gone || malformed || (s.disconnecting && s.obuf == [] && s.Pending() == 0))
      && (!s'.gone ==> s' == s)
  {
    if !s.gone && malformed {
      CloseKeeps(script, s.(err := true));
    } else if !s.gone && s.disconnecting && s.obuf == [] && s.Pending() == 0 {
      CloseKeeps(script, s);
    }
  }

  lemma ReadyKeeps(script: Script, s: State, socket: Socket)
    requires Sound(s) && !s.gone
    ensures
      var c := Ready(script, s, socket);
      && Sound(c) && Later(s, c) && c.received == s.received && c.accepted == s.accepted
      && (c.gone <==> !s.connected && socket.Refused?)
      && (c.connected <==> s.connected || socket.Connected?)
      && (!c.gone ==>
           && c == s.(connected := c.connected, err := c.err)
           && (c.err <==> s.err || (!s.connected && socket.InProgress?)))
  {
    if !s.connected && socket.Refused? {
      CloseKeeps(script, s.(err := true));
    }
  }

  // ---- When the context goes ----

  ghost predicate Ends(script: Script, c: State, replies: seq<Reply>, malformed: bool) {
    var m := HandAll(script, c, replies);
    || (exists i :: 0 <= i < |replies| && GoesAt(script, c, replies, i))
    || malformed
    || (m.disconnecting && m.obuf == [] && m.Pending() == 0)
  }

  /** The replies that arrived are handed over, and then the end of the stream is looked at. */
  lemma TakeInKeeps(script: Script, c: State, replies: seq<Reply>, malformed: bool)
    requires Sound(c) && !c.gone
    ensures
      var s' := Finish(script, HandAll(script, c, replies), malformed);
      && Sound(s') && Later(c, s')
      && (s'.gone <==> Ends(script, c, replies, malformed))
      && s'.received <= c.received + replies
      && (!s'.gone ==> s'.received == c.received + replies)
  {
    HandAllKeeps(script, c, replies);
    HandAllGoes(script, c, replies);
    var m := HandAll(script, c, replies);
    FinishKeeps(script, m, malformed);
    LaterTwice(c, m, Finish(script, m, malformed));
  }

  /** A readable socket ends the context exactly when the connection is refused; or, once it
      stands, when an error is left from before, nothing can be read, a reply ends it, the
      stream is malformed, or a disconnect has nothing left to wait for. */
  ghost predicate ReadEnds(script: Script, s: State, socket: Socket, arrival: Arrival) {
    if !s.connected && !socket.Connected? then socket.Refused?
    else s.err || arrival.Lost? || Ends(script, s.(connected := true), arrival.replies, arrival.malformed)
  }

  lemma ReadKeeps(script: Script, s: State, socket: Socket, arrival: Arrival)
    requires Sound(s) && !s.gone
    ensures
      var c, s' := Ready(script, s, socket), Read(script, s, socket, arrival);
      && Sound(s') && Later(s, s')
      && (s'.gone <==> ReadEnds(script, s, socket, arrival))
      && s'.received <= s.received + (if arrival.Replies? then arrival.replies else [])
      && (!s'.gone && c.connected ==> s'.received == s.received + arrival.replies)
      && (!s'.gone && !c.connected ==> s' == c)
  {
    ReadyKeeps(script, s, socket);
    var c := Ready(script, s, socket);
    if !c.gone && c.connected {
      if c.err || arrival.Lost? {
        CloseKeeps(script, c.(err := true));
      } else {
        TakeInKeeps(script, c, arrival.replies, arrival.malformed);
      }
    }
  }

  /** A writable socket ends the context exactly when the connection is refused; or, once it
      stands, when an error is left from before or the write fails. */
  predicate WriteEnds(s: State, socket: Socket, sent: Sent) {
    if !s.connected && !socket.Connected? then socket.Refused? else s.err || sent.Broken?
  }

  lemma WrittenKeeps(s: State, n: nat)
    requires Sound(s)
    ensures Sound(Written(s, n)) && Later(s, Written(s, n))
  {
    var k := if n <= |s.obuf| then n else |s.obuf|;
    Sequences.Associate(s.sent, s.obuf[..k], s.obuf[k..]);
    assert s.obuf[..k] + s.obuf[k..] == s.obuf;
  }

  lemma WriteKeeps(script: Script, s: State, socket: Socket, sent: Sent)
    requires Sound(s) && !s.gone
    ensures
      var s' := Write(script, s, socket, sent);
      && Sound(s') && Later(s, s') && s'.accepted == s.accepted && s'.received == s.received
      && (s'.gone <==> WriteEnds(s, socket, sent))
  {
    ReadyKeeps(script, s, socket);
    var c := Ready(script, s, socket);
    if !c.gone && c.connected {
      if c.err || sent.Broken? {
        CloseKeeps(script, c.(err := true));
      } else {
        WrittenKeeps(c, sent.n);
      }
    }
  }

  /** A call ends the context exactly when it frees it, or disconnects with nothing pending. */
  lemma CallKeeps(script: Script, s: State, action: Action)
    requires Sound(s) && !s.gone
    ensures
      var s' := Call(script, s, action);
      && Sound(s') && Later(s, s') && s'.received == s.received
      && (s'.gone <==> action.Free? || (action.Disconnect? && s.Pending() == 0))
      && s'.accepted == s.accepted + (if action.Command? && !s.Closing() then [action.callback] else [])
      && s'.texts == s.texts + (if action.Command? && !s.Closing() then [action.cmd] else [])
  {
    ActKeeps(s, action);
    if action.Free? {
      TeardownKeeps(script, s.(freeing := true));
    } else if action.Disconnect? && s.Pending() == 0 {
      CloseKeeps(script, s.(disconnecting := true));
    }
  }

  // ---- Whole runs ----

  lemma HandleKeeps(script: Script, s: State, event: Event)
    requires Sound(s)
    ensures Sound(Handle(script, s, event)) && Later(s, Handle(script, s, event))
  {
    if !s.gone {
      match event
      case Readable(socket, arrival) => ReadKeeps(script, s, socket, Permitted(arrival, s.Pending()));
      case Writable(socket, sent) => WriteKeeps(script, s, socket, sent);
      case Program(action) => CallKeeps(script, s, action);
    }
  }

  /** Between any two points of a run commands and replies are only added; once a closing
      flag is set no later event, and no callback that it runs, adds a command; and a
      context that is gone stays as it is. */
  lemma {:induction false} RunKeeps(script: Script, events: seq<Event>, k: nat)
    requires k <= |events|
    ensures
      var s, s' := After(script, events[..k]), After(script, events);
      && Sound(s) && Sound(s') && Later(s, s') && Buffered(s')
      && (s.Closing() ==> s'.Closing() && s'.accepted == s.accepted)
      && (s.gone ==> s' == s)
    decreases |events|
  {
    if k == |events| {
      assert events[..k] == events;
      if events != [] {
        RunKeeps(script, events[..k - 1], 0);
        HandleKeeps(script, After(script, events[..k - 1]), events[k - 1]);
      }
    } else {
      var init, last := events[..|events| - 1], events[|events| - 1];
      RunKeeps(script, init, k);
      assert init[..k] == events[..k];
      HandleKeeps(script, After(script, init), last);
      LaterTwice(After(script, events[..k]), After(script, init), After(script, events));
    }
  }

  // ---- Where the replies come from ----

  /** What an event brings: the replies that are read from a connection that stands. */
  function Brings(s: State, event: Event): seq<Reply> {
    if s.gone || !event.Readable? || !(s.connected || event.socket.Connected?) then []
    else
      var arrival := Permitted(event.arrival, s.Pending());
      if arrival.Replies? then arrival.replies else []
  }

  /** All that the events of a run bring, one after the other. */
  function Brought(script: Script, events: seq<Event>): seq<Reply> {
    if events == [] then []
    else
      var init := events[..|events| - 1];
      Brought(script, init) + Brings(After(script, init), events[|events| - 1])
  }

  lemma HandleReceives(script: Script, s: State, event: Event)
    requires Sound(s)
    ensures
      var s' := Handle(script, s, event);
      && s.received <= s'.received <= s.received + Brings(s, event)
      && (!s'.gone ==> s'.received == s.received + Brings(s, event))
  {
    if !s.gone {
      match event
      case Readable(socket, arrival) =>
        ReadKeeps(script, s, socket, Permitted(arrival, s.Pending()));
        ReadyKeeps(script, s, socket);
      case Writable(socket, sent) => WriteKeeps(script, s, socket, sent);
      case Program(action) => CallKeeps(script, s, action);
    }
  }

  /** The replies of a run are the first of those that its events brought, and all of them as
      long as the context is not gone. */
  lemma {:induction false} RunReceives(script: Script, events: seq<Event>)
    ensures
      var s := After(script, events);
      && s.received <= Brought(script, events)
      && (!s.gone ==> s.received == Brought(script, events))
    decreases |events|
  {
    if events != [] {
      var init, last := events[..|events| - 1], events[|events| - 1];
      RunReceives(script, init);
      RunKeeps(script, init, 0);
      HandleReceives(script, After(script, init), last);
    }
  }

  /** The replies that an event carries, without a look at the context. */
  function Carries(event: Event): seq<Reply> {
    if event.Readable? && event.arrival.Replies? then event.arrival.replies else []
  }

  function Carried(events: seq<Event>): seq<Reply> {
    if events == [] then [] else Carried(events[..|events| - 1]) + Carries(events[|events| - 1])
  }

  /** Nothing is read before the connection stands, and the server does not answer more than
      it was asked, except by errors. */
  ghost predicate Orderly(s: State, event: Event) {
    !s.gone && event.Readable? && Carries(event) != [] ==>
      && (s.connected || event.socket.Connected?)
      && forall i :: 0 <= i < |Carries(event)| && s.Pending() <= i ==> Carries(event)[i].Error?
  }

  /** What was received is the first of what came, and all of it unless the context is gone. */
  ghost predicate Follows(s: State, came: seq<Reply>) {
    s.received <= came && (!s.gone ==> s.received == came)
  }

  lemma OrderlyStep(script: Script, s: State, event: Event, came: seq<Reply>)
    requires Sound(s) && Orderly(s, event) && Follows(s, came)
    ensures Follows(Handle(script, s, event), came + Carries(event))
  {
    HandleReceives(script, s, event);
    assert !s.gone ==> Brings(s, event) == Carries(event);
  }

  lemma OrderlyBefore(script: Script, events: seq<Event>, init: seq<Event>)
    requires init <= events && forall k :: 0 <= k < |events| ==> Orderly(After(script, events[..k]), events[k])
    ensures forall k :: 0 <= k < |init| ==> Orderly(After(script, init[..k]), init[k])
  {
    forall k | 0 <= k < |init|
      ensures Orderly(After(script, init[..k]), init[k])
    {
      assert events[..k] == init[..k];
    }
  }

  /** In an orderly run the replies are the first of those that the events carry, and all of
      them as long as the context is not gone. */
  lemma {:induction false} OrderlyRunReceives(script: Script, events: seq<Event>)
    requires forall k :: 0 <= k < |events| ==> Orderly(After(script, events[..k]), events[k])
    ensures Follows(After(script, events), Carried(events))
    decreases |events|
  {
    if events != [] {
      var n := |events| - 1;
      var init := events[..n];
      OrderlyBefore(script, events, init);
      OrderlyRunReceives(script, init);
      RunKeeps(script, init, 0);
      OrderlyStep(script, After(script, init), events[n], Carried(init));
    }
  }
}
