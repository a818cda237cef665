/**
 The request format: a command is an array of bulk strings. Commands of arbitrary
 bytes are read back exactly by the grammar, and by the argument walker that
 async.c runs over a formatted command.
 */
module Wire {
  import opened Bytes
  import opened Resp
  import opened Numerals

  function BulkText(arg: bytes): bytes {
    [DOLLAR] + Decimal(|arg|) + CRLF + arg + CRLF
  }

  function BulkTexts(args: seq<bytes>): bytes {
    if args == [] then [] else BulkTexts(args[..|args| - 1]) + BulkText(args[|args| - 1])
  }

  function CountText(n: nat): bytes {
    [STAR] + Decimal(n) + CRLF
  }

  /** The command with the given arguments. */
  function Encode(args: seq<bytes>): bytes {
    CountText(|args|) + BulkTexts(args)
  }

  function Bulks(args: seq<bytes>): seq<Reply> {
    seq(|args|, i requires 0 <= i < |args| => Bulk(args[i]))
  }

  // ---- Reading with the grammar ----

  /** A printed number is a header line. */
  lemma HeaderReads(n: nat, rest: bytes)
    ensures
      var s := Decimal(n) + CRLF + rest;
      && FindCrlf(s) == Some(|Decimal(n)|)
      && s[..|Decimal(n)|] == Decimal(n)
      && LineNumber(s[..|Decimal(n)|]) == n
      && s[|Decimal(n)| + 2..] == rest
  {
    var d := Decimal(n);
    var s := d + CRLF + rest;
    LineEnds(d, s);
    assert s[|d| + 2..] == rest;
    LineNumberDecimal(n);
  }

  /** The first line break is where a text without CR ends. */
  lemma LineEnds(line: bytes, s: bytes)
    requires CR !in line && line + CRLF <= s
    ensures FindCrlf(s) == Some(|line|) && s[..|line|] == line
  {
    var i := |line|;
    assert s[i] == (line + CRLF)[i] && s[i + 1] == (line + CRLF)[i + 1];
    assert IsCrlf(s, i);
    forall k | 0 <= k < i
      ensures !IsCrlf(s, k)
    {
      assert s[k] == (line + CRLF)[k] == line[k];
      assert line[k] in line;
    }
  }

  /** The payload behind a header, and what follows its line break. */
  lemma PayloadSlices(body: bytes, i: nat, arg: bytes, rest: bytes)
    requires i <= |body| && body[i..] == arg + (CRLF + rest)
    ensures i + |arg| + 2 <= |body|
    ensures body[i..i + |arg|] == arg && body[i + |arg| + 2..] == rest
  {
    var tail, n := arg + (CRLF + rest), |arg|;
    assert |body| == i + |tail|;
    SliceOfDrop(body, i, 0, n);
    DropOfDrop(body, i, n + 2);
    assert tail[..n] == arg;
    assert tail[n + 2..] == rest;
  }

  /** A bulk item whose header line takes `i` bytes. */
  lemma BulkBodyReads(body: bytes, i: nat, arg: bytes, rest: bytes)
    requires FindCrlf(body) == Some(i) && LineNumber(body[..i]) == |arg|
    requires body[i + 2..] == arg + (CRLF + rest)
    ensures Scalar(BulkKind, body) == Some(Sized(Bulk(arg), i + 2 + |arg| + 2))
    ensures body[i + 2 + |arg| + 2..] == rest
  {
    PayloadSlices(body, i + 2, arg, rest);
  }

  lemma BulkReads(arg: bytes, rest: bytes, depth: nat)
    ensures ParseItem(BulkText(arg) + rest, depth) == Done(Bulk(arg), rest)
  {
    var d := Decimal(|arg|);
    var s := BulkText(arg) + rest;
    var body := d + CRLF + (arg + (CRLF + rest));
    assert s == [DOLLAR] + body;
    assert s[1..] == body;
    HeaderReads(|arg|, arg + (CRLF + rest));
    BulkBodyReads(body, |d|, arg, rest);
  }

  /** The first bulk text and what follows it. */
  lemma {:induction false} BulkTextsFirst(args: seq<bytes>)
    requires args != []
    ensures BulkTexts(args) == BulkText(args[0]) + BulkTexts(args[1..])
    decreases |args|
  {
    var n := |args|;
    if n == 1 {
      assert args[..0] == [] && args[1..] == [];
    } else {
      BulkTextsFirst(args[..n - 1]);
      var first, mid, last := BulkText(args[0]), BulkTexts(args[1..n - 1]), BulkText(args[n - 1]);
      assert args[..n - 1][1..] == args[1..n - 1] == args[1..][..n - 2];
      assert BulkTexts(args[..n - 1]) == first + mid;
      assert BulkTexts(args[1..]) == mid + last;
      assert first + mid + last == first + (mid + last);
    }
  }

  lemma BulkTextsAt(args: seq<bytes>, k: nat, rest: bytes)
    requires k < |args|
    ensures BulkTexts(args[k..]) + rest == BulkText(args[k]) + (BulkTexts(args[k + 1..]) + rest)
  {
    BulkTextsFirst(args[k..]);
    assert args[k..][1..] == args[k + 1..];
    var text, texts := BulkText(args[k]), BulkTexts(args[k + 1..]);
    assert text + texts + rest == text + (texts + rest);
  }

  lemma BulksSnoc(args: seq<bytes>, k: nat)
    requires k < |args|
    ensures Bulks(args[..k]) + [Bulk(args[k])] == Bulks(args[..k + 1])
  {
  }

  lemma {:induction false} BulksRead(args: seq<bytes>, k: nat, rest: bytes, depth: nat)
    requires k <= |args|
    ensures ParseItems(BulkTexts(args[k..]) + rest, |args|, Bulks(args[..k]), depth) ==
            Done(Array(|args|, Bulks(args)), rest)
    decreases |args| - k
  {
    if k == |args| {
      assert args[..k] == args && args[k..] == [];
      assert [] + rest == rest;
    } else {
      BulkTextsAt(args, k, rest);
      BulkReads(args[k], BulkTexts(args[k + 1..]) + rest, depth);
      BulksSnoc(args, k);
      BulksRead(args, k + 1, rest, depth);
    }
  }

  /** A command, whatever bytes its arguments hold and whatever follows it, is read
      as one array of exactly those arguments. */
  lemma EncodeReads(args: seq<bytes>, rest: bytes)
    ensures ParseItem(Encode(args) + rest, 0) == Done(Array(|args|, Bulks(args)), rest)
  {
    var s := Encode(args) + rest;
    var texts := BulkTexts(args) + rest;
    assert s[1..] == Decimal(|args|) + CRLF + texts;
    HeaderReads(|args|, texts);
    if args == [] {
      assert texts == rest && Bulks(args) == [];
    } else {
      AllBulksRead(args, rest, texts);
    }
  }

  lemma AllBulksRead(args: seq<bytes>, rest: bytes, texts: bytes)
    requires texts == BulkTexts(args) + rest
    ensures ParseItems(texts, |args|, [], 1) == Done(Array(|args|, Bulks(args)), rest)
  {
    assert args[0..] == args && Bulks(args[..0]) == [];
    BulksRead(args, 0, rest, 1);
  }

  /** No command is a proper prefix of another, and different commands have different texts. */
  lemma EncodeIsPrefixFree(a: seq<bytes>, b: seq<bytes>, x: bytes, y: bytes)
    requires Encode(a) + x == Encode(b) + y
    ensures a == b && x == y
  {
    EncodeReads(a, x);
    EncodeReads(b, y);
    assert Bulks(a) == Bulks(b);
    forall i | 0 <= i < |a|
      ensures a[i] == b[i]
    {
      assert Bulks(a)[i] == Bulk(a[i]) && Bulks(b)[i] == Bulk(b[i]);
    }
  }

  /** The output buffer after appending several commands. */
  function Pipeline(commands: seq<seq<bytes>>): bytes {
    if commands == [] then [] else Encode(commands[0]) + Pipeline(commands[1..])
  }

  function CommandReply(args: seq<bytes>): Reply {
    Array(|args|, Bulks(args))
  }

  function CommandReplies(commands: seq<seq<bytes>>): seq<Reply> {
    seq(|commands|, i requires 0 <= i < |commands| => CommandReply(commands[i]))
  }

  lemma CommandRepliesFirst(commands: seq<seq<bytes>>)
    requires commands != []
    ensures [CommandReply(commands[0])] + CommandReplies(commands[1..]) == CommandReplies(commands)
  {
  }

  /** Pipelined commands come out one by one, in order, with nothing left over. */
  lemma {:induction false} PipelineReads(commands: seq<seq<bytes>>)
    ensures ParseStream(Pipeline(commands)) == Stream(CommandReplies(commands), [], None)
    decreases |commands|
  {
    if commands != [] {
      var tail := commands[1..];
      EncodeReads(commands[0], Pipeline(tail));
      PipelineReads(tail);
      CommandRepliesFirst(commands);
    }
  }

  // ---- Walking the arguments of a formatted command ----

  /** strchr: the first `c` at or after `p`, not looking past the terminating NUL. */
  function Strchr(memory: bytes, p: nat, c: byte): (r: Option<nat>)
    requires p < |memory| && memory[|memory| - 1] == NUL && c != NUL
    ensures r.Some? ==> p <= r.value < |memory| - 1 && memory[r.value] == c
    ensures r.Some? ==> forall k :: p <= k < r.value ==> memory[k] != c && memory[k] != NUL
    decreases |memory| - p
  {
    if memory[p] == c then Some(p)
    else if memory[p] == NUL then None
    else Strchr(memory, p + 1, c)
  }

  function DigitsPrefix(s: bytes): (t: bytes)
    ensures t <= s && AllDigits(t)
    ensures |t| < |s| ==> !IsDigit(s[|t|])
  {
    if s == [] || !IsDigit(s[0]) then [] else [s[0]] + DigitsPrefix(s[1..])
  }

  /** strtol in base ten: blanks, an optional sign, then as many digits as there are. */
  function Strtol(s: bytes): int {
    if s != [] && IsSpace(s[0]) then Strtol(s[1..])
    else if s != [] && s[0] == MINUS then 0 - DigitsValue(DigitsPrefix(s[1..]))
    else if s != [] && s[0] == PLUS then DigitsValue(DigitsPrefix(s[1..]))
    else DigitsValue(DigitsPrefix(s))
  }

  datatype Argument = Argument(start: nat, len: int, next: int)

  /** The argument that starts at or after `p` in a NUL-terminated command: where its
      bytes start, how many they are, and where to go on. */
  function NextArgument(memory: bytes, p: nat): Option<Argument>
    requires p < |memory| && memory[|memory| - 1] == NUL
  {
    var dollar := Strchr(memory, p, DOLLAR);
    if dollar.None? then None else ArgumentAt(memory, dollar.value)
  }

  /** The argument whose length line starts with the dollar sign at `dollar`. */
  function ArgumentAt(memory: bytes, dollar: nat): Option<Argument>
    requires dollar < |memory| && memory[|memory| - 1] == NUL
  {
    var len := Strtol(memory[dollar + 1..]);
    var cr := Strchr(memory, dollar, CR);
    if cr.None? then None else Some(Argument(cr.value + 2, len, cr.value + 2 + len + 2))
  }

  /** The bytes of a command that come before argument `k`. */
  function Prefix(args: seq<bytes>, k: nat): bytes
    requires k <= |args|
  {
    CountText(|args|) + BulkTexts(args[..k])
  }

  lemma PrefixStep(args: seq<bytes>, k: nat)
    requires k < |args|
    ensures Prefix(args, k + 1) == Prefix(args, k) + BulkText(args[k])
  {
    assert args[..k + 1][..k] == args[..k];
    var count, texts, text := CountText(|args|), BulkTexts(args[..k]), BulkText(args[k]);
    assert count + (texts + text) == count + texts + text;
  }

  lemma {:induction false} PrefixOf(args: seq<bytes>, k: nat)
    requires k <= |args|
    ensures Prefix(args, k) <= Encode(args)
    decreases |args| - k
  {
    if k == |args| {
      assert args[..k] == args;
    } else {
      PrefixStep(args, k);
      PrefixOf(args, k + 1);
    }
  }

  lemma {:induction false} DigitsPrefixIs(s: bytes, k: nat)
    requires k < |s| && AllDigits(s[..k]) && !IsDigit(s[k])
    ensures DigitsPrefix(s) == s[..k]
  {
    var t := DigitsPrefix(s);
    assert forall j :: 0 <= j < k ==> s[..k][j] == s[j];
    assert |t| == k;
  }

  /** strtol reads digits that a non-digit follows. */
  lemma StrtolReads(memory: bytes, i: nat, end: nat, digits: bytes)
    requires digits != [] && AllDigits(digits) && i + |digits| == end < |memory|
    requires memory[i..end] == digits && !IsDigit(memory[end])
    ensures Strtol(memory[i..]) == DigitsValue(digits)
  {
    var s := memory[i..];
    SliceOfDrop(memory, i, 0, |digits|);
    assert s[0] == digits[0] && IsDigit(digits[0]);
    assert s[|digits|] == memory[end];
    DigitsPrefixIs(s, |digits|);
  }

  /** The walker, started at `p`, finds the argument `arg` and goes on at `next`. */
  ghost predicate Finds(memory: bytes, p: nat, arg: bytes, next: nat)
    requires p < |memory| && memory[|memory| - 1] == NUL
  {
    var a := NextArgument(memory, p);
    && a.Some?
    && a.value.len == |arg| && a.value.next == next
    && a.value.start + |arg| <= |memory|
    && memory[a.value.start..a.value.start + |arg|] == arg
  }

  /** The layout of a bulk text: the digits of its length, then the bytes of the argument. */
  ghost predicate Layout(text: bytes, arg: bytes, digits: bytes) {
    var d := |digits|;
    && |text| == 1 + d + 2 + |arg| + 2
    && text[0] == DOLLAR
    && text[1..1 + d] == digits
    && text[1 + d] == CR
    && text[d + 3..d + 3 + |arg|] == arg
  }

  lemma BulkTextLayout(arg: bytes)
    ensures Layout(BulkText(arg), arg, Decimal(|arg|))
  {
    LayoutOf(arg, Decimal(|arg|));
  }

  lemma LayoutOf(arg: bytes, digits: bytes)
    ensures Layout([DOLLAR] + digits + CRLF + arg + CRLF, arg, digits)
  {
    var d, n := |digits|, |arg|;
    var a := [DOLLAR] + digits;
    var b := a + CRLF;
    var c := b + arg;
    assert a[1..1 + d] == digits;
    TakeExtends(a, CRLF, 1, 1 + d);
    TakeExtends(b, arg, 1, 1 + d);
    TakeExtends(c, CRLF, 1, 1 + d);
    assert c[d + 3..d + 3 + n] == arg;
    TakeExtends(c, CRLF, d + 3, d + 3 + n);
  }

  lemma ArgumentHere(memory: bytes, p: nat, q: nat, cr: nat, digits: bytes, n: nat)
    requires
      && digits != []
      && AllDigits(digits)
      && q == p + 1
      && cr == q + |digits| < |memory|
      && memory[|memory| - 1] == NUL
    requires memory[p] == DOLLAR && memory[q..cr] == digits && memory[cr] == CR
    requires DigitsValue(digits) == n
    ensures NextArgument(memory, p) == Some(Argument(cr + 2, n, cr + 2 + n + 2))
  {
    StrtolReads(memory, q, cr, digits);
    SliceDigits(memory, q, cr);
    StrchrFinds(memory, p, CR, cr);
    NextArgumentIs(memory, p, n, cr);
  }

  lemma NextArgumentIs(memory: bytes, p: nat, len: int, cr: nat)
    requires p < |memory| && memory[|memory| - 1] == NUL && memory[p] == DOLLAR
    requires Strtol(memory[p + 1..]) == len && Strchr(memory, p, CR) == Some(cr)
    ensures NextArgument(memory, p) == Some(Argument(cr + 2, len, cr + 2 + len + 2))
  {
  }

  lemma SliceDigits(s: bytes, i: nat, j: nat)
    requires i <= j <= |s| && AllDigits(s[i..j])
    ensures forall k :: i <= k < j ==> IsDigit(s[k])
  {
    forall k | i <= k < j
      ensures IsDigit(s[k])
    {
      assert s[k] == s[i..j][k - i];
    }
  }

  lemma CountTextPlain(n: nat)
    ensures forall j :: 0 <= j < |CountText(n)| ==> CountText(n)[j] != DOLLAR && CountText(n)[j] != NUL
  {
  }

  lemma ArgumentInside(memory: bytes, before: bytes, text: bytes, arg: bytes, digits: bytes)
    requires digits != [] && AllDigits(digits) && DigitsValue(digits) == |arg|
    requires Layout(text, arg, digits) && before + text <= memory
    requires |before| + |text| < |memory| && memory[|memory| - 1] == NUL
    ensures Finds(memory, |before|, arg, |before| + |text|)
  {
    var p := |before|;
    var q, cr, start := PartsInside(memory, before, text, arg, digits);
    ArgumentHere(memory, p, q, cr, digits, |arg|);
  }

  lemma PartsInside(memory: bytes, before: bytes, text: bytes, arg: bytes, digits: bytes)
    returns (q: nat, cr: nat, start: nat)
    requires Layout(text, arg, digits) && before + text <= memory
    ensures
      && q == |before| + 1
      && cr == q + |digits|
      && start == cr + 2
      && start + |arg| + 2 == |before| + |text| <= |memory|
    ensures
      && memory[|before|] == DOLLAR
      && memory[q..cr] == digits
      && memory[cr] == CR
      && memory[start..start + |arg|] == arg
  {
    q, cr, start := |before| + 1, |before| + 1 + |digits|, |before| + 1 + |digits| + 2;
    InsidePrefix(memory, before, text, 0, 1);
    InsidePrefix(memory, before, text, 1, 1 + |digits|);
    InsidePrefix(memory, before, text, 1 + |digits|, 1 + |digits| + 1);
    InsidePrefix(memory, before, text, |digits| + 3, |digits| + 3 + |arg|);
  }

  lemma InsidePrefix(memory: bytes, before: bytes, text: bytes, i: nat, j: nat)
    requires before + text <= memory && i <= j <= |text|
    ensures memory[|before| + i..|before| + j] == text[i..j]
    ensures i < j ==> memory[|before| + i] == text[i]
  {
    var whole := before + text;
    assert whole[|before| + i..|before| + j] == text[i..j];
    assert whole[|before| + i..|before| + j] == memory[|before| + i..|before| + j];
    assert i < j ==> whole[|before| + i] == text[i];
  }

  /** At the start of argument `k` the walker finds exactly that argument, even when
      its bytes hold dollar signs, line breaks or NULs. */
  lemma NextArgumentAt(args: seq<bytes>, k: nat)
    requires k < |args|
    ensures |Prefix(args, k)| < |Prefix(args, k + 1)| <= |Encode(args)|
    ensures Finds(Encode(args) + [NUL], |Prefix(args, k)|, args[k], |Prefix(args, k + 1)|)
  {
    var before, text, memory := Prefix(args, k), BulkText(args[k]), Encode(args) + [NUL];
    PrefixStep(args, k);
    PrefixOf(args, k + 1);
    BulkTextLayout(args[k]);
    DecimalValue(|args[k]|);
    ArgumentInside(memory, before, text, args[k], Decimal(|args[k]|));
  }

  /** Behind the last argument there is none. */
  lemma NextArgumentEnd(args: seq<bytes>)
    ensures |Prefix(args, |args|)| == |Encode(args)|
    ensures NextArgument(Encode(args) + [NUL], |Encode(args)|).None?
  {
    assert args[..|args|] == args;
  }

  /** strchr stops at the first match when nothing before it matches or ends the string. */
  lemma {:induction false} StrchrFinds(memory: bytes, p: nat, c: byte, q: nat)
    requires memory != [] && memory[|memory| - 1] == NUL && c != NUL
    requires p <= q < |memory| && memory[q] == c
    requires forall k :: p <= k < q ==> memory[k] != c && memory[k] != NUL
    ensures Strchr(memory, p, c) == Some(q)
    decreases q - p
  {
    if p < q {
      StrchrFinds(memory, p + 1, c, q);
    }
  }

  /** From the very start of the command the walker skips the count line. */
  lemma NextArgumentFirst(args: seq<bytes>)
    ensures |Prefix(args, 0)| <= |Encode(args)|
    ensures NextArgument(Encode(args) + [NUL], 0) == NextArgument(Encode(args) + [NUL], |Prefix(args, 0)|)
  {
    var head, memory := CountText(|args|), Encode(args) + [NUL];
    assert args[..0] == [] && Prefix(args, 0) == head;
    CountTextPlain(|args|);
    assert head <= memory;
    StrchrSkips(memory, 0, DOLLAR, |head|);
    NextArgumentSkips(memory, 0, |head|, Strchr(memory, 0, DOLLAR));
  }

  lemma NextArgumentSkips(memory: bytes, p: nat, q: nat, dollar: Option<nat>)
    requires p < |memory| && q < |memory| && memory[|memory| - 1] == NUL
    requires dollar == Strchr(memory, p, DOLLAR) && dollar == Strchr(memory, q, DOLLAR)
    ensures NextArgument(memory, p) == NextArgument(memory, q)
  {
  }

  lemma {:induction false} StrchrSkips(memory: bytes, p: nat, c: byte, q: nat)
    requires memory != [] && memory[|memory| - 1] == NUL && c != NUL
    requires p <= q < |memory|
    requires forall k :: p <= k < q ==> memory[k] != c && memory[k] != NUL
    ensures Strchr(memory, p, c) == Strchr(memory, q, c)
    decreases q - p
  {
    if p < q {
      StrchrSkips(memory, p + 1, c, q);
    }
  }

  /** The stops of the walker on a formatted command. */
  ghost predicate Stops(memory: bytes, args: seq<bytes>, stops: seq<nat>) {
    && |stops| == |args| + 1
    && memory != [] && memory[|memory| - 1] == NUL
    && (forall k :: 0 <= k < |stops| ==> stops[k] < |memory|)
    && NextArgument(memory, 0) == NextArgument(memory, stops[0])
    && (forall k :: 0 <= k < |args| ==> Finds(memory, stops[k], args[k], stops[k + 1]))
    && NextArgument(memory, stops[|args|]).None?
  }

  lemma WalkerStops(args: seq<bytes>) returns (stops: seq<nat>)
    ensures Stops(Encode(args) + [NUL], args, stops)
  {
    stops := seq(|args| + 1, k requires 0 <= k <= |args| => |Prefix(args, k)|);
    NextArgumentFirst(args);
    NextArgumentEnd(args);
    forall k | 0 <= k < |args|
      ensures stops[k] <= |Encode(args)| && Finds(Encode(args) + [NUL], stops[k], args[k], stops[k + 1])
    {
      NextArgumentAt(args, k);
    }
  }

  /** What the walker sees at its stop `k`: the next argument, or the end. */
  ghost predicate Sees(memory: bytes, args: seq<bytes>, stops: seq<nat>, k: nat, a: Option<Argument>)
    requires k <= |args| && |stops| == |args| + 1
  {
    match a
    case None => k == |args|
    case Some(found) =>
      && k < |args|
      && found.next == stops[k + 1]
      && found.len == |args[k]|
      && found.start + found.len <= |memory|
      && memory[found.start..found.start + found.len] == args[k]
  }

  lemma AtStop(memory: bytes, args: seq<bytes>, stops: seq<nat>, k: nat)
    requires Stops(memory, args, stops) && k <= |args|
    ensures Sees(memory, args, stops, k, NextArgument(memory, stops[k]))
  {
    if k < |args| {
      assert Finds(memory, stops[k], args[k], stops[k + 1]);
    }
  }

  /** Walking a formatted command visits exactly its arguments, in order, and stops. */
  method VisitArguments(cmd: bytes, ghost args: seq<bytes>) returns (visited: seq<bytes>)
    requires cmd == Encode(args)
    ensures visited == args
  {
    var memory := cmd + [NUL];
    ghost var stops := WalkerStops(args);
    visited := WalkFrom(memory, args, stops);
  }

  lemma TakeSnoc(args: seq<bytes>, k: nat)
    requires k < |args|
    ensures args[..k + 1] == args[..k] + [args[k]]
  {
  }

  method WalkFrom(memory: bytes, ghost args: seq<bytes>, ghost stops: seq<nat>) returns (visited: seq<bytes>)
    requires Stops(memory, args, stops)
    ensures visited == args
  {
    visited := [];
    ghost var k := 0;
    var a := NextArgument(memory, 0);
    AtStop(memory, args, stops, 0);
    while a.Some?
      invariant 0 <= k <= |args| && visited == args[..k]
      invariant Sees(memory, args, stops, k, a)
      decreases |args| - k
    {
      var arg := memory[a.value.start..a.value.start + a.value.len];
      TakeSnoc(args, k);
      visited := visited + [arg];
      AtStop(memory, args, stops, k + 1);
      a := NextArgument(memory, a.value.next);
      k := k + 1;
    }
    assert args[..k] == args;
  }
}
