/**
 How the asynchronous context tells commands apart: it looks at the text of a formatted
 command, and finds what the name of the command says.
 */
module AsyncCommands {
  import opened Bytes
  import opened Numerals
  import opened Wire

  const LOWER_P: byte := 112
  const SUBSCRIBE: bytes := [115, 117, 98, 115, 99, 114, 105, 98, 101]
  const UNSUBSCRIBE: bytes := [117, 110] + SUBSCRIBE
  const MONITOR: bytes := [109, 111, 110, 105, 116, 111, 114]

  /** A subscription, its end and monitoring do not have one reply for each command. */
  datatype Purpose = Subscription | Cancellation | Monitoring | Regular

  /** tolower in the C locale. */
  function Lower(b: byte): byte {
    if 65 <= b <= 90 then b + 32 else b
  }

  /** strncasecmp of a text at `at` with a word in lower case, over its length. */
  predicate CaseMatches(memory: bytes, at: nat, word: bytes) {
    at + |word| <= |memory| && forall i :: 0 <= i < |word| ==> Lower(memory[at + i]) == word[i]
  }

  function Peek(memory: bytes, p: int): byte {
    if 0 <= p < |memory| then memory[p] else NUL
  }

  // ---- What the context sees ----

  /** The tests of __redisAsyncCommand over the text of a command; nothing when there is no
      argument, which the source asserts not to be. */
  function Classified(cmd: bytes): Option<Purpose> {
    var memory := cmd + [NUL];
    var a := NextArgument(memory, 0);
    if a.None? then None else Some(ClassifiedFrom(memory, a.value))
  }

  function ClassifiedFrom(memory: bytes, a: Argument): Purpose {
    var hasnext := Peek(memory, a.next) == DOLLAR;
    var cstr := a.start + if Lower(Peek(memory, a.start)) == LOWER_P then 1 else 0;
    if hasnext && CaseMatches(memory, cstr, SUBSCRIBE + CRLF) then Subscription
    else if CaseMatches(memory, cstr, UNSUBSCRIBE + CRLF) then Cancellation
    else if CaseMatches(memory, cstr, MONITOR + CRLF) then Monitoring
    else Regular
  }

  // ---- What the name of a command says ----

  /** The first argument without the letter that marks the pattern variant. */
  function NameOf(arg: bytes): bytes {
    if arg != [] && Lower(arg[0]) == LOWER_P then arg[1..] else arg
  }

  /** A word in any case, alone or with a line break behind it. */
  predicate Is(name: bytes, word: bytes) {
    CaseMatches(name + CRLF, 0, word + CRLF)
  }

  function PurposeOf(args: seq<bytes>): Purpose
    requires args != []
  {
    var name := NameOf(args[0]);
    if |args| > 1 && Is(name, SUBSCRIBE) then Subscription
    else if Is(name, UNSUBSCRIBE) then Cancellation
    else if Is(name, MONITOR) then Monitoring
    else Regular
  }

  /** In the text of a command the context sees the purpose that its name says, whatever bytes
      the arguments hold. */
  lemma SeesFormatted(args: seq<bytes>)
    ensures Classified(Encode(args)) == if args == [] then None else Some(PurposeOf(args))
  {
    var memory := Encode(args) + [NUL];
    NoneIsEmpty(args, memory);
    var a := NextArgument(memory, 0);
    if a.Some? {
      FirstArgument(args, memory, a.value);
      SeesPurpose(memory, a.value, args);
    }
  }

  /** What is compared in the text is the name, whatever stands behind it. */
  lemma SeesPurpose(memory: bytes, a: Argument, args: seq<bytes>)
    requires args != [] && Stands(memory, a, args[0], |args| > 1)
    ensures ClassifiedFrom(memory, a) == PurposeOf(args)
  {
    var cstr := a.start + if Lower(Peek(memory, a.start)) == LOWER_P then 1 else 0;
    var name := NameOf(args[0]);
    NameAt(memory, a, args[0], |args| > 1, cstr);
    SeesWord(memory, cstr, name, SUBSCRIBE);
    SeesWord(memory, cstr, name, UNSUBSCRIBE);
    SeesWord(memory, cstr, name, MONITOR);
  }

  lemma NoneIsEmpty(args: seq<bytes>, memory: bytes)
    requires memory == Encode(args) + [NUL]
    ensures args == [] <==> NextArgument(memory, 0).None?
  {
    NextArgumentFirst(args);
    if args == [] {
      NextArgumentEnd(args);
    } else {
      NextArgumentAt(args, 0);
    }
  }

  /** Behind the first argument are a line break and then another argument or the end. */
  ghost predicate Stands(memory: bytes, a: Argument, arg: bytes, more: bool) {
    && a.next == a.start + |arg| + 2 < |memory| && memory[a.start..a.next] == arg + CRLF
    && memory[a.next] == if more then DOLLAR else NUL
  }

  lemma FirstArgument(args: seq<bytes>, memory: bytes, a: Argument)
    requires args != [] && memory == Encode(args) + [NUL] && NextArgument(memory, 0) == Some(a)
    ensures Stands(memory, a, args[0], |args| > 1)
  {
    var p, end := FirstFound(args, memory);
    FirstEnds(args, memory, end);
    FoundStands(memory, p, a, args[0], end, |args| > 1);
  }

  lemma FirstFound(args: seq<bytes>, memory: bytes) returns (p: nat, end: nat)
    requires args != [] && memory == Encode(args) + [NUL]
    ensures p < |memory| && NextArgument(memory, 0) == NextArgument(memory, p) && Finds(memory, p, args[0], end)
    ensures end == |Prefix(args, 1)|
  {
    NextArgumentFirst(args);
    NextArgumentAt(args, 0);
    return |Prefix(args, 0)|, |Prefix(args, 1)|;
  }

  lemma FirstEnds(args: seq<bytes>, memory: bytes, end: nat)
    requires args != [] && memory == Encode(args) + [NUL] && end == |Prefix(args, 1)|
    ensures 2 <= end < |memory| && memory[end - 2..end] == CRLF && memory[end] == if |args| > 1 then DOLLAR else NUL
  {
    LineBreakBehind(args);
    BehindFirst(args);
  }

  lemma FoundStands(memory: bytes, p: nat, a: Argument, arg: bytes, end: nat, more: bool)
    requires
      && p < |memory|
      && memory[|memory| - 1] == NUL
      && NextArgument(memory, p) == Some(a)
      && Finds(memory, p, arg, end)
    requires 2 <= end < |memory| && memory[end - 2..end] == CRLF && memory[end] == if more then DOLLAR else NUL
    ensures Stands(memory, a, arg, more)
  {
    NextIs(memory, p, a);
    JoinParts(memory, a.start, end - 2, end, arg, CRLF);
  }

  lemma JoinParts(memory: bytes, i: nat, j: nat, k: nat, a: bytes, b: bytes)
    requires i <= j <= k <= |memory| && memory[i..j] == a && memory[j..k] == b
    ensures memory[i..k] == a + b
  {
  }

  lemma NextIs(memory: bytes, p: nat, a: Argument)
    requires p < |memory| && memory[|memory| - 1] == NUL && NextArgument(memory, p) == Some(a)
    ensures a.next == a.start + a.len + 2
  {
  }

  lemma LineBreakBehind(args: seq<bytes>)
    requires args != []
    ensures 2 <= |Prefix(args, 1)| <= |Encode(args)|
    ensures (Encode(args) + [NUL])[|Prefix(args, 1)| - 2..|Prefix(args, 1)|] == CRLF
  {
    PrefixStep(args, 0);
    PrefixOf(args, 1);
    var before := Prefix(args, 0) + ([DOLLAR] + Decimal(|args[0]|) + CRLF + args[0]);
    assert Prefix(args, 1) == before + CRLF;
  }

  lemma BehindFirst(args: seq<bytes>)
    requires args != []
    ensures |Prefix(args, 1)| <= |Encode(args)|
    ensures (Encode(args) + [NUL])[|Prefix(args, 1)|] == if |args| > 1 then DOLLAR else NUL
  {
    PrefixOf(args, 1);
    if |args| > 1 {
      PrefixStep(args, 1);
      PrefixOf(args, 2);
      assert Prefix(args, 2)[|Prefix(args, 1)|] == DOLLAR;
    } else {
      NextArgumentEnd(args);
    }
  }

  lemma NameAt(memory: bytes, a: Argument, arg: bytes, more: bool, cstr: nat)
    requires Stands(memory, a, arg, more)
    requires cstr == a.start + if Lower(Peek(memory, a.start)) == LOWER_P then 1 else 0
    ensures cstr + |NameOf(arg)| + 2 == a.next && memory[cstr..a.next] == NameOf(arg) + CRLF
  {
    var line := memory[a.start..a.next];
    assert memory[a.start] == line[0];
    assert memory[cstr..a.next] == line[cstr - a.start..];
  }

  lemma SeesWord(memory: bytes, at: nat, name: bytes, word: bytes)
    requires at + |name| + 2 <= |memory| && memory[at..at + |name| + 2] == name + CRLF && CR !in word
    ensures CaseMatches(memory, at, word + CRLF) <==> Is(name, word)
  {
    var line, text := name + CRLF, word + CRLF;
    assert forall i :: 0 <= i < |line| ==> line[i] == memory[at + i];
    if |name| < |word| {
      assert Lower(memory[at + |name|]) == CR != text[|name|];
    }
  }

  // ---- Names by their letters ----

  /** A word in any case. */
  predicate Spelled(name: bytes, word: string) {
    |name| == |word| && forall i :: 0 <= i < |word| ==>
      name[i] as int == word[i] as int || name[i] as int + 32 == word[i] as int
  }

  /** A word in any case, which may have a line break and more behind it. */
  predicate Named(name: bytes, word: string) {
    || Spelled(name, word)
    || (|name| >= |word| + 2 && Spelled(name[..|word|], word) && name[|word|] == 13 && name[|word| + 1] == 10)
  }

  predicate Letters(code: bytes, word: string) {
    |code| == |word| && forall i :: 0 <= i < |word| ==> 97 <= code[i] <= 122 && code[i] as int == word[i] as int
  }

  lemma SpelledAt(text: bytes, code: bytes, word: string)
    requires Letters(code, word) && |text| >= |word|
    ensures CaseMatches(text, 0, code) <==> Spelled(text[..|word|], word)
  {
    forall i | 0 <= i < |word|
      ensures Lower(text[i]) == code[i] <==>
        text[..|word|][i] as int == word[i] as int || text[..|word|][i] as int + 32 == word[i] as int
    {
    }
  }

  lemma MatchesBreak(text: bytes, code: bytes)
    ensures CaseMatches(text, 0, code + CRLF) <==>
      |code| + 2 <= |text| && CaseMatches(text, 0, code) && text[|code|] == 13 && text[|code| + 1] == 10
  {
    var word, n := code + CRLF, |code|;
    assert word[n] == 13 && word[n + 1] == 10;
    assert forall i :: 0 <= i < n ==> word[i] == code[i];
    if |code| + 2 <= |text| {
      assert Lower(text[0 + n]) == 13 <==> text[n] == 13;
      assert Lower(text[0 + (n + 1)]) == 10 <==> text[n + 1] == 10;
    }
  }

  lemma IsNamed(name: bytes, code: bytes, word: string)
    requires Letters(code, word)
    ensures Is(name, code) <==> Named(name, word)
  {
    var text, n := name + CRLF, |word|;
    MatchesBreak(text, code);
    if |name| >= n {
      SpelledAt(text, code, word);
      assert text[..n] == name[..n];
      assert |name| == n ==> name[..n] == name;
    }
  }

  lemma WordsAre()
    ensures Letters(SUBSCRIBE, "subscribe") && Letters(UNSUBSCRIBE, "unsubscribe") && Letters(MONITOR, "monitor")
  {
  }

  /** The names are subscribe, unsubscribe and monitor in any case, with a p before them or not;
      a subscription needs another argument. */
  lemma PurposeIs(args: seq<bytes>)
    requires args != []
    ensures
      var name := if args[0] != [] && (args[0][0] == 112 || args[0][0] == 80) then args[0][1..] else args[0];
      PurposeOf(args) ==
        if |args| > 1 && Named(name, "subscribe") then Subscription
        else if Named(name, "unsubscribe") then Cancellation
        else if Named(name, "monitor") then Monitoring
        else Regular
  {
    WordsAre();
    var name := NameOf(args[0]);
    IsNamed(name, SUBSCRIBE, "subscribe");
    IsNamed(name, UNSUBSCRIBE, "unsubscribe");
    IsNamed(name, MONITOR, "monitor");
  }
}
