/** What the server gets to read from an asynchronous context. */
module AsyncOutput {
  import opened Bytes
  import opened Resp
  import opened Wire
  import AsyncSpec
  import Output

  function Encodings(commands: seq<seq<bytes>>): seq<bytes> {
    seq(|commands|, i requires 0 <= i < |commands| => Encode(commands[i]))
  }

  lemma {:induction false} PipelineSnoc(commands: seq<seq<bytes>>, args: seq<bytes>)
    ensures Pipeline(commands + [args]) == Pipeline(commands) + Encode(args)
    decreases |commands|
  {
    var all := commands + [args];
    if commands == [] {
      assert all[1..] == [];
    } else {
      assert all[1..] == commands[1..] + [args];
      PipelineSnoc(commands[1..], args);
    }
  }

  lemma {:induction false} ConcatIsPipeline(commands: seq<seq<bytes>>)
    ensures AsyncSpec.Concat(Encodings(commands)) == Pipeline(commands)
    decreases |commands|
  {
    if commands != [] {
      var n := |commands| - 1;
      assert commands == commands[..n] + [commands[n]];
      assert Encodings(commands)[..n] == Encodings(commands[..n]);
      ConcatIsPipeline(commands[..n]);
      PipelineSnoc(commands[..n], commands[n]);
    }
  }

  /** In every run, what was written is a part of the accepted commands in their order, and is
      read as the first of them, without a fault; so the replies come in that order. */
  lemma RunWritesCommands(script: AsyncSpec.Script, events: seq<AsyncSpec.Event>, commands: seq<seq<bytes>>)
    requires AsyncSpec.After(script, events).texts == Encodings(commands)
    ensures
      var s := AsyncSpec.After(script, events);
      && s.sent + s.obuf == Pipeline(commands) && |s.accepted| == |commands|
      && ParseStream(s.sent).fault.None? && ParseStream(s.sent).replies <= CommandReplies(commands)
  {
    AsyncSpec.RunKeeps(script, events, 0);
    ConcatIsPipeline(commands);
    Output.WrittenIsCommands(commands, AsyncSpec.After(script, events).sent);
  }
}
