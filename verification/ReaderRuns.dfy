/**
 Whole runs of the reader. However a byte stream is cut into Feed calls and
 wherever GetReply calls are interleaved, the replies emitted are the first ones
 of a single recursive parse of the whole stream, and all of them once a GetReply
 has nothing more to give.
 */
module ReaderRuns {
  import opened Bytes
  import opened Resp
  import opened ReplyObjects
  import Reader
  import ReplyTexts
  import Wire

  datatype Call = Feed(chunk: bytes) | GetReply

  /** What is left to parse, the error state and the replies emitted so far. */
  datatype Session = Session(pending: bytes, fault: Option<Fault>, emitted: seq<Reply>)

  const FRESH := Session([], None, [])

  function Serve(s: Session, call: Call): Session {
    if s.fault.Some? then s
    else match call
      case Feed(chunk) => s.(pending := s.pending + chunk)
      case GetReply =>
        match ParseItem(s.pending, 0)
        case Done(v, rest) => s.(pending := rest, emitted := s.emitted + [v])
        case Incomplete => s
        case Failed(fault) => s.(pending := [], fault := Some(fault))
  }

  function Run(calls: seq<Call>): Session {
    if calls == [] then FRESH else Serve(Run(calls[..|calls| - 1]), calls[|calls| - 1])
  }

  /** All bytes fed during a run. */
  function Fed(calls: seq<Call>): bytes {
    if calls == [] then []
    else
      var before, last := Fed(calls[..|calls| - 1]), calls[|calls| - 1];
      if last.Feed? then before + last.chunk else before
  }

  /** The emitted replies followed by what the session still holds are the stream `all`. */
  ghost predicate Accounts(s: Session, all: Stream) {
    if s.fault.Some? then s.pending == [] && all == Stream(s.emitted, [], s.fault)
    else all == Prepend(s.emitted, ParseStream(s.pending))
  }

  lemma {:induction false} RunAccounts(calls: seq<Call>)
    ensures Accounts(Run(calls), ParseStream(Fed(calls)))
    decreases |calls|
  {
    if calls != [] {
      var before, last := calls[..|calls| - 1], calls[|calls| - 1];
      RunAccounts(before);
      var s := Run(before);
      match last
      case Feed(chunk) =>
        if s.fault.None? {
          FeedAccounts(s, Fed(before), chunk);
        } else {
          ParseStreamExtends(Fed(before), chunk);
        }
      case GetReply =>
        if s.fault.None? && ParseItem(s.pending, 0).Done? {
          var p := ParseItem(s.pending, 0);
          assert s.emitted + ([p.reply] + ParseStream(p.rest).replies) ==
                 s.emitted + [p.reply] + ParseStream(p.rest).replies;
        }
    }
  }

  lemma FeedAccounts(s: Session, fed: bytes, chunk: bytes)
    requires s.fault.None? && Accounts(s, ParseStream(fed))
    ensures Accounts(s.(pending := s.pending + chunk), ParseStream(fed + chunk))
  {
    var rest := ParseStream(s.pending);
    ParseStreamExtends(fed, chunk);
    ParseStreamExtends(s.pending, chunk);
    PrependContinue(s.emitted, rest, ParseStream(rest.tail + chunk));
  }

  /** The next GetReply has nothing to emit and nothing to report. */
  predicate Drained(s: Session) {
    s.fault.Some? || ParseItem(s.pending, 0).Incomplete?
  }

  /** A run emits a prefix of the stream's replies; a drained one emits all of them
      and ends in the stream's error state. */
  lemma RunMatchesStream(calls: seq<Call>)
    ensures Run(calls).emitted <= ParseStream(Fed(calls)).replies
    ensures Run(calls).fault.Some? ==> Run(calls).fault == ParseStream(Fed(calls)).fault
    ensures Drained(Run(calls)) ==>
      ParseStream(Fed(calls)) == Stream(Run(calls).emitted, Run(calls).pending, Run(calls).fault)
  {
    RunAccounts(calls);
  }

  /** Chunking and interleaving are invisible: two drained runs over the same bytes
      have emitted the same replies and are in the same error state. */
  lemma ChunkingIsInvisible(a: seq<Call>, b: seq<Call>)
    requires Fed(a) == Fed(b) && Drained(Run(a)) && Drained(Run(b))
    ensures Run(a).emitted == Run(b).emitted && Run(a).fault == Run(b).fault
  {
    RunMatchesStream(a);
    RunMatchesStream(b);
  }

  /** What a server writes, fed in any chunks, comes out as the replies that are meant. */
  lemma TextsThroughReader(calls: seq<Call>, texts: seq<ReplyTexts.Text>)
    requires forall i :: 0 <= i < |texts| ==> ReplyTexts.WellFormed(texts[i]) && ReplyTexts.Depth(texts[i]) <= 8
    requires Fed(calls) == ReplyTexts.PrintAll(texts) && Drained(Run(calls))
    ensures Run(calls) == Session([], None, ReplyTexts.MeansAll(texts))
  {
    RunMatchesStream(calls);
    ReplyTexts.StreamReads(texts);
  }

  /** Commands fed back to the reader, in any chunks, come out as the arrays of their
      arguments, with nothing left over. */
  lemma CommandsThroughReader(calls: seq<Call>, commands: seq<seq<bytes>>)
    requires Fed(calls) == Wire.Pipeline(commands) && Drained(Run(calls))
    ensures Run(calls) == Session([], None, Wire.CommandReplies(commands))
  {
    RunMatchesStream(calls);
    Wire.PipelineReads(commands);
  }

  /** The replies behind the emitted pointers. */
  ghost predicate AllRepresent(store: Store, out: seq<nat>, replies: seq<Reply>) {
    |out| == |replies| && forall i :: 0 <= i < |out| ==> Represents(store, out[i], replies[i])
  }

  /** Any sequence of calls on a new reader. At the end every emitted object still
      stands for the reply it was emitted as. */
  method Drive(calls: seq<Call>) returns (reader: Reader.Reader, out: seq<nat>)
    ensures reader.Valid()
    ensures reader.err == Run(calls).fault
    ensures reader.pending == Run(calls).pending
    ensures AllRepresent(reader.tasks.store, out, Run(calls).emitted)
  {
    reader := new Reader.Reader();
    out := [];
    for n := 0 to |calls|
      invariant reader.Valid() && fresh(reader) && fresh(reader.tasks) && fresh(reader.tasks.rstack)
      invariant reader.err == Run(calls[..n]).fault
      invariant reader.pending == Run(calls[..n]).pending
      invariant AllRepresent(reader.tasks.store, out, Run(calls[..n]).emitted)
    {
      assert calls[..n + 1][..n] == calls[..n];
      match calls[n]
      case Feed(chunk) =>
        var _ := reader.Feed(chunk);
      case GetReply =>
        var _, p := reader.GetReply();
        if p.Some? {
          out := out + [p.value];
        }
    }
    assert calls[..|calls|] == calls;
  }
}
