/** The output buffer of a connection: commands are appended whole and leave in
    whatever pieces the socket accepts. */
module Output {
  import opened Bytes
  import opened Resp
  import opened Wire
  import Sds
  import Sequences

  /** What a write to the socket came to. */
  datatype Outcome = Wrote(n: nat) | TryLater | Broke

  class Output {
    var err: bool
    var obuf: Sds.Sds
    ghost var appended: bytes
    ghost var written: bytes

    ghost predicate Valid()
      reads this, obuf, obuf.buf
    {
      obuf.Valid() && written + obuf.Contents() == appended
    }

    constructor ()
      ensures Valid() && fresh(obuf) && fresh(obuf.buf)
      ensures appended == [] && written == [] && !err
    {
      err := false;
      obuf := new Sds.Sds([]);
      appended, written := [], [];
    }

    /** __redisAppendCommand. */
    method AppendCommand(cmd: bytes)
      requires Valid()
      modifies this`appended, obuf, obuf.buf
      ensures Valid() && appended == old(appended) + cmd && obuf == old(obuf)
      ensures obuf.buf == old(obuf.buf) || fresh(obuf.buf)
    {
      ghost var before := obuf.Contents();
      obuf.CatLen(cmd);
      appended := appended + cmd;
      assert written + (before + cmd) == written + before + cmd;
    }

    /** redisBufferWrite: offers the buffer to the socket once. */
    method BufferWrite(outcome: Outcome) returns (ok: bool, done: bool)
      requires Valid() && (outcome.Wrote? ==> outcome.n <= obuf.len)
      modifies this`err, this`obuf, this`written, obuf, obuf.buf
      ensures Valid() && ok == !err && err == (old(err) || (outcome.Broke? && old(obuf.len) > 0))
      ensures written == old(written) + if ok && outcome.Wrote? then old(obuf.Contents())[..outcome.n] else []
      ensures ok ==> done == (obuf.len == 0)
      ensures (obuf == old(obuf) && obuf.buf == old(obuf.buf)) || (fresh(obuf) && fresh(obuf.buf))
    {
      if err {
        return false, false;
      }
      if obuf.len > 0 {
        match outcome
        case TryLater =>
        case Broke =>
          err := true;
          return false, false;
        case Wrote(n) =>
          TakeOff(n);
      }
      return true, obuf.len == 0;
    }

    /** Takes what was written off the buffer. */
    method TakeOff(n: nat)
      requires Valid() && n <= obuf.len
      modifies this`obuf, this`written, obuf, obuf.buf
      ensures Valid() && written == old(written) + old(obuf.Contents())[..n]
      ensures (obuf == old(obuf) && obuf.buf == old(obuf.buf)) || (fresh(obuf) && fresh(obuf.buf))
    {
      ghost var text := obuf.Contents();
      assert text[..n] + text[n..] == text;
      Sequences.Associate(written, text[..n], text[n..]);
      if n == obuf.len {
        obuf := new Sds.Sds([]);
      } else if n > 0 {
        obuf.Range(n, -1);
      }
      written := written + text[..n];
    }
  }

  /** However the buffer was flushed, the bytes on the wire parse into the first of
      the appended commands, in order, with no malformed byte. */
  lemma WrittenIsCommands(commands: seq<seq<bytes>>, written: bytes)
    requires written <= Pipeline(commands)
    ensures ParseStream(written).fault.None?
    ensures ParseStream(written).replies <= CommandReplies(commands)
  {
    var rest := Pipeline(commands)[|written|..];
    PipelineReads(commands);
    assert written + rest == Pipeline(commands);
    ParseStreamExtends(written, rest);
    ContinuePrefix(ParseStream(written), ParseStream(ParseStream(written).tail + rest));
  }

  lemma ContinuePrefix(a: Stream, c: Stream)
    requires Continue(a, c).fault.None?
    ensures a.fault.None? && a.replies <= Continue(a, c).replies
  {
  }

  datatype Step = Append(args: seq<bytes>) | Flush(outcome: Outcome)

  function Appended(steps: seq<Step>): seq<seq<bytes>> {
    if steps == [] then []
    else
      var before, last := Appended(steps[..|steps| - 1]), steps[|steps| - 1];
      if last.Append? then before + [last.args] else before
  }

  lemma {:induction false} PipelineSnoc(commands: seq<seq<bytes>>, args: seq<bytes>)
    ensures Pipeline(commands + [args]) == Pipeline(commands) + Encode(args)
    decreases |commands|
  {
    if commands == [] {
      assert ([] + [args])[1..] == [];
    } else {
      assert (commands + [args])[1..] == commands[1..] + [args];
      PipelineSnoc(commands[1..], args);
      assert Encode(commands[0]) + (Pipeline(commands[1..]) + Encode(args))
          == Encode(commands[0]) + Pipeline(commands[1..]) + Encode(args);
    }
  }

  /** Any sequence of appends and partial writes. */
  method Drive(steps: seq<Step>) returns (out: Output)
    ensures out.Valid()
    ensures out.appended == Pipeline(Appended(steps)) && out.written <= out.appended
  {
    out := new Output();
    for k := 0 to |steps|
      invariant out.Valid() && fresh(out) && fresh(out.obuf) && fresh(out.obuf.buf)
      invariant out.appended == Pipeline(Appended(steps[..k]))
    {
      assert steps[..k + 1][..k] == steps[..k];
      match steps[k]
      case Append(args) =>
        PipelineSnoc(Appended(steps[..k]), args);
        out.AppendCommand(Encode(args));
      case Flush(outcome) =>
        // the socket cannot take more than it is offered
        var offered := if outcome.Wrote? && outcome.n > out.obuf.len then Wrote(out.obuf.len) else outcome;
        var _, _ := out.BufferWrite(offered);
    }
    assert steps[..|steps|] == steps;
  }
}
