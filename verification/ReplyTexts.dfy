/**
 Replies as a server writes them, byte for byte, and what the grammar makes of them. The
 texts are defined by the codes of their characters, without the functions that read them.
 */
module ReplyTexts {
  import opened Bytes
  import opened Resp
  import opened Numerals
  import Sequences
  import Wire

  /** The line of a number: a sign or none, digits, and what is behind them. Any line without a
      line break is such a line. */
  datatype Numeral = Numeral(sign: bytes, digits: bytes, tail: bytes) {
    function Text(): bytes {
      sign + digits + tail
    }

    predicate WellFormed() {
      && (sign == [] || sign == [43] || sign == [45]) && AllCodes(digits) && Unbroken(Text())
      && (tail != [] ==> !(48 <= tail[0] <= 57))
      && (tail != [] && sign + digits == [] ==> tail[0] != 43 && tail[0] != 45)
    }

    /** The number, up to a carriage return; anything else behind the digits makes it -1. */
    function Value(): int {
      if tail != [] && tail[0] != 13 then -1 else if sign == [45] then -Places(digits) else Places(digits)
    }
  }

  predicate AllCodes(digits: bytes) {
    forall i :: 0 <= i < |digits| ==> 48 <= digits[i] <= 57
  }

  datatype Text =
    | StatusLine(line: bytes)
    | ErrorLine(line: bytes)
    | IntegerLine(x: Numeral)
    | BulkString(length: Numeral, data: bytes, end: bytes)
    | NilBulk(length: Numeral)
    | NilArray(length: Numeral)
    | HollowArray(length: Numeral)
    | ArrayOf(length: Numeral, items: seq<Text>)

  /** The text: a sign for the kind, a line, and what belongs to it. */
  function Print(t: Text): bytes {
    match t
    case StatusLine(line) => [43] + (line + [13, 10])
    case ErrorLine(line) => [45] + (line + [13, 10])
    case IntegerLine(x) => [58] + (x.Text() + [13, 10])
    case BulkString(length, data, end) => [36] + (length.Text() + [13, 10] + (data + end))
    case NilBulk(length) => [36] + (length.Text() + [13, 10])
    case NilArray(length) => [42] + (length.Text() + [13, 10])
    case HollowArray(length) => [42] + (length.Text() + [13, 10])
    case ArrayOf(length, items) => [42] + (length.Text() + [13, 10] + PrintAll(items))
  }

  function PrintAll(items: seq<Text>): bytes {
    if items == [] then [] else Print(items[0]) + PrintAll(items[1..])
  }

  /** Lines hold no line break, lengths are right, and two bytes end a payload, whatever they
      are. A negative length means nil for a payload, and -1 does for an array. */
  predicate WellFormed(t: Text) {
    match t
    case StatusLine(line) => Unbroken(line)
    case ErrorLine(line) => Unbroken(line)
    case IntegerLine(x) => x.WellFormed()
    case BulkString(length, data, end) => length.WellFormed() && length.Value() == |data| && |end| == 2
    case NilBulk(length) => length.WellFormed() && length.Value() < 0
    case NilArray(length) => length.WellFormed() && length.Value() == -1
    case HollowArray(length) => length.WellFormed() && length.Value() <= 0 && length.Value() != -1
    case ArrayOf(length, items) =>
      && length.WellFormed() && length.Value() == |items| > 0
      && forall i :: 0 <= i < |items| ==> WellFormed(items[i])
  }

  predicate Unbroken(line: bytes) {
    forall k :: 0 <= k < |line| - 1 ==> !(line[k] == 13 && line[k + 1] == 10)
  }

  /** The reply that is meant. */
  function Means(t: Text): Reply {
    match t
    case StatusLine(line) => Status(line)
    case ErrorLine(line) => Error(line)
    case IntegerLine(x) => Integer(x.Value())
    case BulkString(_, data, _) => Bulk(data)
    case NilBulk(_) => Nil
    case NilArray(_) => Nil
    case HollowArray(length) => Array(length.Value(), [])
    case ArrayOf(_, items) => Array(|items|, MeansAll(items))
  }

  function MeansAll(items: seq<Text>): (replies: seq<Reply>)
    ensures |replies| == |items|
  {
    if items == [] then [] else [Means(items[0])] + MeansAll(items[1..])
  }

  /** How many arrays there are within each other. */
  function Depth(t: Text): nat {
    match t
    case NilArray(_) => 1
    case HollowArray(_) => 1
    case ArrayOf(_, items) => 1 + DepthAll(items)
    case _ => 0
  }

  function DepthAll(items: seq<Text>): nat {
    if items == [] then 0 else
      var first, rest := Depth(items[0]), DepthAll(items[1..]);
      if first > rest then first else rest
  }

  // ---- Lines ----

  lemma LineReads(line: bytes, rest: bytes)
    requires Unbroken(line)
    ensures
      var s := line + [13, 10] + rest;
      FindCrlf(s) == Some(|line|) && s[..|line|] == line && s[|line| + 2..] == rest
  {
    var s := line + [13, 10] + rest;
    assert IsCrlf(s, |line|);
    forall k | 0 <= k < |line|
      ensures !IsCrlf(s, k)
    {
      assert s[k] == line[k] && s[k + 1] == if k + 1 < |line| then line[k + 1] else 13;
    }
  }

  /** A line on which a number is written. */
  ghost predicate Numbers(line: bytes, n: int) {
    Unbroken(line) && LineNumber(line) == n
  }

  lemma {:induction false} UpToCrBehind(t: bytes, more: bytes)
    requires 13 !in t
    ensures UpToCr(t + more) == t + UpToCr(more)
  {
    if t == [] {
      assert t + more == more;
    } else {
      assert (t + more)[1..] == t[1..] + more;
      UpToCrBehind(t[1..], more);
    }
  }

  lemma {:induction false} PlacesAre(digits: bytes)
    requires AllCodes(digits)
    ensures AllDigits(digits) && Places(digits) == DigitsValue(digits)
  {
    if digits != [] {
      PlacesAre(digits[..|digits| - 1]);
    }
  }

  lemma NumberReads(sign: bytes, digits: bytes)
    requires (sign == [] || sign == [43] || sign == [45]) && AllCodes(digits)
    ensures Number(sign + digits) == if sign == [45] then -Places(digits) else Places(digits)
  {
    PlacesAre(digits);
    var t := sign + digits;
    assert t[|sign|..] == digits;
    assert sign == [] && t != [] ==> t[0] == digits[0];
    assert t[0..] == t;
  }

  lemma JunkReads(sign: bytes, digits: bytes, junk: bytes, t: bytes)
    requires (sign == [] || sign == [43] || sign == [45]) && AllCodes(digits) && t == sign + digits + junk
    requires junk != [] && !(48 <= junk[0] <= 57) && (sign + digits == [] ==> junk[0] != 43 && junk[0] != 45)
    ensures Number(t) == -1
  {
    var k := |sign| + |digits|;
    assert t[k] == junk[0] && !IsDigit(t[k]);
    assert sign == [] && digits != [] ==> t[0] == digits[0];
    var signed := t[0] == MINUS || t[0] == PLUS;
    if signed {
      assert t[1..][k - 1] == t[k];
    }
  }

  lemma NumeralReads(x: Numeral)
    requires x.WellFormed()
    ensures Numbers(x.Text(), x.Value())
  {
    var t := x.sign + x.digits;
    UpToCrBehind(t, x.tail);
    if x.tail == [] || x.tail[0] == 13 {
      assert t + UpToCr(x.tail) == t;
      NumberReads(x.sign, x.digits);
    } else {
      JunkReads(x.sign, x.digits, UpToCr(x.tail), t + UpToCr(x.tail));
    }
  }

  // ---- What the grammar reads ----

  /** What reading a text is to give: its meaning, or the error when arrays are too deep. */
  function Reads(t: Text, rest: bytes, depth: nat): Parse {
    if Depth(t) + depth <= 8 then Done(Means(t), rest) else Failed(TooDeep)
  }

  /** The five signs. */
  lemma SignReads(b: byte, body: bytes, depth: nat)
    ensures b == 43 ==> ParseItem([b] + body, depth) == ParseBody(StatusKind, body, depth)
    ensures b == 45 ==> ParseItem([b] + body, depth) == ParseBody(ErrorKind, body, depth)
    ensures b == 58 ==> ParseItem([b] + body, depth) == ParseBody(IntegerKind, body, depth)
    ensures b == 36 ==> ParseItem([b] + body, depth) == ParseBody(BulkKind, body, depth)
    ensures b == 42 ==> ParseItem([b] + body, depth) == ParseBody(ArrayKind, body, depth)
  {
    assert ([b] + body)[1..] == body;
  }

  lemma Regroup(b: byte, line: bytes, more: bytes, rest: bytes)
    ensures [b] + (line + [13, 10]) + rest == [b] + (line + [13, 10] + rest)
    ensures [b] + (line + [13, 10] + more) + rest == [b] + (line + [13, 10] + (more + rest))
  {
  }

  lemma LineItem(line: bytes, rest: bytes, depth: nat)
    requires Unbroken(line)
    ensures ParseItem([43] + (line + [13, 10]) + rest, depth) == Done(Status(line), rest)
    ensures ParseItem([45] + (line + [13, 10]) + rest, depth) == Done(Error(line), rest)
  {
    var body := line + [13, 10] + rest;
    Regroup(43, line, [], rest);
    Regroup(45, line, [], rest);
    SignReads(43, body, depth);
    SignReads(45, body, depth);
    LineReads(line, rest);
  }

  lemma NumberItem(line: bytes, n: int, rest: bytes, depth: nat)
    requires Numbers(line, n)
    ensures ParseItem([58] + (line + [13, 10]) + rest, depth) == Done(Integer(n), rest)
    ensures n < 0 ==> ParseItem([36] + (line + [13, 10]) + rest, depth) == Done(Nil, rest)
  {
    var body := line + [13, 10] + rest;
    Regroup(58, line, [], rest);
    Regroup(36, line, [], rest);
    SignReads(58, body, depth);
    SignReads(36, body, depth);
    LineReads(line, rest);
  }

  lemma PayloadItem(line: bytes, data: bytes, end: bytes, rest: bytes, depth: nat)
    requires Numbers(line, |data|) && |end| == 2
    ensures ParseItem([36] + (line + [13, 10] + (data + end)) + rest, depth) == Done(Bulk(data), rest)
  {
    var tail := data + end + rest;
    Regroup(36, line, data + end, rest);
    SignReads(36, line + [13, 10] + tail, depth);
    PayloadBody(line, data, end, rest, tail, line + [13, 10] + tail, depth);
  }

  lemma PayloadBody(line: bytes, data: bytes, end: bytes, rest: bytes, tail: bytes, body: bytes, depth: nat)
    requires Numbers(line, |data|) && |end| == 2 && tail == data + end + rest && body == line + [13, 10] + tail
    ensures ParseBody(BulkKind, body, depth) == Done(Bulk(data), rest)
  {
    LineReads(line, tail);
    PayloadParts(body, |line| + 2, tail, data, end, rest);
  }

  lemma PayloadParts(body: bytes, i: nat, tail: bytes, data: bytes, end: bytes, rest: bytes)
    requires i <= |body| && body[i..] == tail == data + end + rest && |end| == 2
    ensures i + |data| + 2 <= |body| && body[i..i + |data|] == data && body[i + |data| + 2..] == rest
  {
    var n := |data|;
    assert |body| == i + |tail|;
    assert tail[..n] == data && tail[n + 2..] == rest;
    assert body[i..i + n] == body[i..][..n];
    assert body[i + n + 2..] == body[i..][n + 2..];
  }

  /** The header of an array, and what follows it. */
  lemma ArrayItem(line: bytes, n: int, texts: bytes, rest: bytes, depth: nat)
    requires Numbers(line, n)
    ensures ParseItem([42] + (line + [13, 10] + texts) + rest, depth) ==
      if depth == 8 then Failed(TooDeep)
      else if n == -1 then Done(Nil, texts + rest)
      else if n <= 0 then Done(Array(n, []), texts + rest)
      else ParseItems(texts + rest, n, [], depth + 1)
  {
    Regroup(42, line, texts, rest);
    SignReads(42, line + [13, 10] + (texts + rest), depth);
    LineReads(line, texts + rest);
  }

  lemma ScalarReads(t: Text, rest: bytes, depth: nat)
    requires WellFormed(t) && Depth(t) == 0
    ensures ParseItem(Print(t) + rest, depth) == Done(Means(t), rest)
  {
    match t
    case StatusLine(line) => LineItem(line, rest, depth);
    case ErrorLine(line) => LineItem(line, rest, depth);
    case IntegerLine(x) =>
      NumeralReads(x);
      NumberItem(x.Text(), x.Value(), rest, depth);
    case NilBulk(length) =>
      NumeralReads(length);
      NumberItem(length.Text(), length.Value(), rest, depth);
    case BulkString(length, data, end) =>
      NumeralReads(length);
      PayloadItem(length.Text(), data, end, rest, depth);
  }

  lemma HollowReads(t: Text, rest: bytes, depth: nat)
    requires WellFormed(t) && (t.NilArray? || t.HollowArray?) && depth <= 8
    ensures ParseItem(Print(t) + rest, depth) == Reads(t, rest, depth)
  {
    var length := t.length;
    assert Print(t) == [42] + (length.Text() + [13, 10] + []);
    assert [] + rest == rest;
    NumeralReads(length);
    ArrayItem(length.Text(), length.Value(), [], rest, depth);
  }

  lemma ArrayReads(t: Text, rest: bytes, depth: nat)
    requires WellFormed(t) && t.ArrayOf? && depth <= 8
    requires depth < 8 ==>
      ParseItems(PrintAll(t.items) + rest, |t.items|, [], depth + 1) ==
      ReadsAll(t.items, rest, [], depth + 1, |t.items|)
    ensures ParseItem(Print(t) + rest, depth) == Reads(t, rest, depth)
  {
    NumeralReads(t.length);
    ArrayItem(t.length.Text(), |t.items|, PrintAll(t.items), rest, depth);
    assert [] + MeansAll(t.items) == MeansAll(t.items);
  }

  /** Every text is read as what it means, and nothing more is read; or, exactly when more
      than eight arrays are within each other, as an error. */
  lemma {:induction false} TextReads(t: Text, rest: bytes, depth: nat)
    requires WellFormed(t) && depth <= 8
    ensures ParseItem(Print(t) + rest, depth) == Reads(t, rest, depth)
    decreases t
  {
    if t.ArrayOf? {
      if depth < 8 {
        TextsRead(t.items, rest, [], depth + 1, |t.items|);
      }
      ArrayReads(t, rest, depth);
    } else if t.NilArray? || t.HollowArray? {
      HollowReads(t, rest, depth);
    } else {
      ScalarReads(t, rest, depth);
    }
  }

  /** The outcome for the elements of an array of which some were read before. */
  function ReadsAll(items: seq<Text>, rest: bytes, done: seq<Reply>, depth: nat, total: nat): Parse {
    if DepthAll(items) + depth <= 8 then Done(Array(total, done + MeansAll(items)), rest) else Failed(TooDeep)
  }

  lemma {:induction false} TextsRead(items: seq<Text>, rest: bytes, done: seq<Reply>, depth: nat, total: nat)
    requires (forall i :: 0 <= i < |items| ==> WellFormed(items[i])) && depth <= 8 && total == |done| + |items|
    ensures ParseItems(PrintAll(items) + rest, total, done, depth) == ReadsAll(items, rest, done, depth, total)
    decreases items
  {
    if items == [] {
      assert PrintAll(items) + rest == rest && done + MeansAll(items) == done;
    } else {
      var first, texts := Print(items[0]), PrintAll(items[1..]);
      assert first + texts + rest == first + (texts + rest);
      TextReads(items[0], texts + rest, depth);
      NextItem(first + (texts + rest), texts + rest, total, done, depth, items[0]);
      ReadsNext(items, rest, done, depth, total);
      if Depth(items[0]) + depth <= 8 {
        TextsRead(items[1..], rest, done + [Means(items[0])], depth, total);
      }
    }
  }

  lemma NextItem(s: bytes, more: bytes, total: nat, done: seq<Reply>, depth: nat, t: Text)
    requires |done| < total && ParseItem(s, depth) == Reads(t, more, depth)
    ensures ParseItems(s, total, done, depth) ==
      if Depth(t) + depth <= 8 then ParseItems(more, total, done + [Means(t)], depth) else Failed(TooDeep)
  {
  }

  lemma ReadsNext(items: seq<Text>, rest: bytes, done: seq<Reply>, depth: nat, total: nat)
    requires items != []
    ensures ReadsAll(items, rest, done, depth, total) ==
      if Depth(items[0]) + depth <= 8 then ReadsAll(items[1..], rest, done + [Means(items[0])], depth, total)
      else Failed(TooDeep)
  {
    assert done + MeansAll(items) == done + [Means(items[0])] + MeansAll(items[1..]);
  }

  /** Anything but the five signs is refused. */
  lemma OtherSignFails(b: byte, rest: bytes, depth: nat)
    requires b !in {43, 45, 58, 36, 42}
    ensures ParseItem([b] + rest, depth) == Failed(BadType(b))
  {
  }

  /** As long as bytes are missing, the reader waits. */
  lemma PrefixWaits(t: Text, s: bytes, x: bytes)
    requires WellFormed(t) && Depth(t) <= 8 && s + x == Print(t) && x != []
    ensures ParseItem(s, 0) == Incomplete
  {
    TextReads(t, [], 0);
    assert Print(t) + [] == s + x;
    ParseItemExtends(s, x, 0);
  }

  /** Texts one after the other are read one by one, in order, with nothing left over. */
  lemma {:induction false} StreamReads(texts: seq<Text>)
    requires forall i :: 0 <= i < |texts| ==> WellFormed(texts[i]) && Depth(texts[i]) <= 8
    ensures ParseStream(PrintAll(texts)) == Stream(MeansAll(texts), [], None)
  {
    if texts != [] {
      TextReads(texts[0], PrintAll(texts[1..]), 0);
      StreamReads(texts[1..]);
    }
  }

  // ---- Nothing else is read ----

  /** The digits at the start. */
  function LeadingCodes(s: bytes): (t: bytes)
    ensures t <= s && AllCodes(t) && (|t| < |s| ==> !(48 <= s[|t|] <= 57))
  {
    if s == [] || !(48 <= s[0] <= 57) then [] else [s[0]] + LeadingCodes(s[1..])
  }

  lemma NumeralOf(line: bytes) returns (x: Numeral)
    requires Unbroken(line)
    ensures x.WellFormed() && x.Text() == line
  {
    var sign := if line != [] && (line[0] == 43 || line[0] == 45) then [line[0]] else [];
    var body := line[|sign|..];
    var digits := LeadingCodes(body);
    var tail := body[|digits|..];
    ThreeParts(line, sign, body, digits, tail);
    x := Numeral(sign, digits, tail);
  }

  lemma ThreeParts(line: bytes, sign: bytes, body: bytes, digits: bytes, tail: bytes)
    requires sign <= line && body == line[|sign|..] && digits <= body && tail == body[|digits|..]
    ensures sign + digits + tail == line
    ensures tail != [] ==> |digits| < |body| && tail[0] == body[|digits|]
    ensures tail != [] && sign + digits == [] ==> line != [] && tail[0] == line[0]
  {
    assert line == sign + body && body == digits + tail;
  }

  lemma LineOf(s: bytes, i: nat) returns (line: bytes, rest: bytes)
    requires FindCrlf(s) == Some(i)
    ensures Unbroken(line) && line == s[..i] && rest == s[i + 2..] && s == line + [13, 10] + rest
  {
    line, rest := s[..i], s[i + 2..];
    assert IsCrlf(s, i);
    forall k | 0 <= k < |line| - 1 ensures !(line[k] == 13 && line[k + 1] == 10) {
      assert !IsCrlf(s, k);
    }
  }

  /** Without a line, or without the bytes that it announces, an item is not finished. */
  lemma BodyNeeds(kind: Kind, body: bytes, depth: nat)
    requires ParseBody(kind, body, depth).Done?
    ensures FindCrlf(body).Some?
    ensures
      var i := FindCrlf(body).value;
      kind == BulkKind && LineNumber(body[..i]) >= 0 ==> i + 2 + LineNumber(body[..i]) + 2 <= |body|
  {
  }

  lemma BulkOf(x: Numeral, body: bytes) returns (t: Text, rest: bytes)
    requires x.WellFormed() && 0 <= x.Value() <= |body| - 2
    ensures WellFormed(t) && Print(t) + rest == [36] + (x.Text() + [13, 10] + body)
  {
    var n := x.Value();
    var data, end := body[..n], body[n..n + 2];
    rest := body[n + 2..];
    t := BulkString(x, data, end);
    assert body == (data + end) + rest;
    Regroup(36, x.Text(), data + end, rest);
  }

  lemma ScalarOf(b: byte, line: bytes, body: bytes) returns (t: Text, rest: bytes)
    requires Unbroken(line) && (b == 43 || b == 45 || b == 58 || b == 36)
    requires b == 36 && LineNumber(line) >= 0 ==> LineNumber(line) + 2 <= |body|
    ensures WellFormed(t) && Print(t) + rest == [b] + (line + [13, 10] + body)
  {
    rest := body;
    Regroup(b, line, [], rest);
    var x := NumeralOf(line);
    NumeralReads(x);
    if b == 43 {
      t := StatusLine(line);
    } else if b == 45 {
      t := ErrorLine(line);
    } else if b == 58 {
      t := IntegerLine(x);
    } else if x.Value() < 0 {
      t := NilBulk(x);
    } else {
      t, rest := BulkOf(x, body);
    }
  }

  /** Whatever is read as a reply is the text of one, and what is left is behind it. */
  lemma {:induction false} ReadIsText(s: bytes, depth: nat) returns (t: Text, rest: bytes)
    requires depth <= 8 && ParseItem(s, depth).Done?
    ensures WellFormed(t) && Depth(t) + depth <= 8 && s == Print(t) + rest
    ensures ParseItem(s, depth) == Done(Means(t), rest)
    decreases |s|, 0
  {
    var b, body := s[0], s[1..];
    assert s == [b] + body;
    SignReads(b, body, depth);
    if b == 42 {
      t, rest := ArrayIsText(body, depth);
    } else {
      BodyNeeds(KindOf(b).value, body, depth);
      var line, more := LineOf(body, FindCrlf(body).value);
      t, rest := ScalarOf(b, line, more);
    }
    TextReads(t, rest, depth);
  }

  /** An array is finished when its elements are. */
  lemma ArrayNeeds(body: bytes, line: bytes, more: bytes, n: int, depth: nat)
    requires ParseBody(ArrayKind, body, depth).Done? && body == line + [13, 10] + more && Numbers(line, n)
    ensures depth != 8 && (n > 0 ==> ParseItems(more, n, [], depth + 1).Done?)
  {
    LineReads(line, more);
  }

  lemma ArrayOfTexts(x: Numeral, items: seq<Text>, rest: bytes, more: bytes)
    requires more == PrintAll(items) + rest
    ensures Print(ArrayOf(x, items)) + rest == [42] + (x.Text() + [13, 10] + more)
  {
    Regroup(42, x.Text(), PrintAll(items), rest);
  }

  lemma {:induction false} ArrayIsText(body: bytes, depth: nat) returns (t: Text, rest: bytes)
    requires depth <= 8 && ParseBody(ArrayKind, body, depth).Done?
    ensures WellFormed(t) && [42] + body == Print(t) + rest
    decreases |body|, 1
  {
    BodyNeeds(ArrayKind, body, depth);
    var line, more := LineOf(body, FindCrlf(body).value);
    var x := NumeralOf(line);
    NumeralReads(x);
    var n := x.Value();
    ArrayNeeds(body, line, more, n, depth);
    if n > 0 {
      var items;
      items, rest := ItemsAreTexts(more, n, [], depth + 1);
      t := ArrayOf(x, items);
      ArrayOfTexts(x, items, rest, more);
    } else {
      t, rest := if n == -1 then NilArray(x) else HollowArray(x), more;
      Regroup(42, line, [], rest);
    }
  }

  lemma FirstDone(s: bytes, total: nat, done: seq<Reply>, depth: nat)
    requires |done| < total && ParseItems(s, total, done, depth).Done?
    ensures ParseItem(s, depth).Done?
    ensures ParseItems(ParseItem(s, depth).rest, total, done + [ParseItem(s, depth).reply], depth).Done?
  {
  }

  lemma FirstText(t: Text, others: seq<Text>, rest: bytes)
    ensures PrintAll([t] + others) + rest == Print(t) + (PrintAll(others) + rest)
  {
    assert ([t] + others)[1..] == others;
    Sequences.Associate(Print(t), PrintAll(others), rest);
  }

  lemma {:induction false} ItemsAreTexts(s: bytes, total: nat, done: seq<Reply>, depth: nat)
    returns (items: seq<Text>, rest: bytes)
    requires depth <= 8 && |done| <= total && ParseItems(s, total, done, depth).Done?
    ensures |items| == total - |done| && (forall i :: 0 <= i < |items| ==> WellFormed(items[i]))
    ensures s == PrintAll(items) + rest
    decreases |s|, 1
  {
    if |done| == total {
      items, rest := [], s;
    } else {
      FirstDone(s, total, done, depth);
      var t, more := ReadIsText(s, depth);
      var others;
      others, rest := ItemsAreTexts(more, total, done + [Means(t)], depth);
      items := [t] + others;
      FirstText(t, others, rest);
    }
  }

  // ---- Commands ----

  function PayloadOf(arg: bytes): Text {
    BulkString(Numeral([], Decimal(|arg|), []), arg, [13, 10])
  }

  function PayloadsOf(args: seq<bytes>): seq<Text> {
    seq(|args|, i requires 0 <= i < |args| => PayloadOf(args[i]))
  }

  /** The text of a command: an array of its arguments. */
  function CommandText(args: seq<bytes>): bytes {
    [42] + (Decimal(|args|) + [13, 10] + PrintAll(PayloadsOf(args)))
  }

  lemma {:induction false} PrintAllSnoc(items: seq<Text>, last: Text)
    ensures PrintAll(items + [last]) == PrintAll(items) + Print(last)
    decreases |items|
  {
    var all := items + [last];
    if items == [] {
      assert all[1..] == [];
    } else {
      assert all[1..] == items[1..] + [last];
      PrintAllSnoc(items[1..], last);
    }
  }

  lemma FiveParts(a: bytes, b: bytes, c: bytes, d: bytes, e: bytes)
    ensures a + b + c + d + e == a + (b + c + (d + e))
  {
  }

  lemma {:induction false} PayloadsAre(args: seq<bytes>)
    ensures PrintAll(PayloadsOf(args)) == Wire.BulkTexts(args)
    decreases |args|
  {
    if args != [] {
      var n := |args| - 1;
      PayloadsAre(args[..n]);
      assert PayloadsOf(args) == PayloadsOf(args[..n]) + [PayloadOf(args[n])];
      PrintAllSnoc(PayloadsOf(args[..n]), PayloadOf(args[n]));
      assert PayloadOf(args[n]).length.Text() == Decimal(|args[n]|);
      FiveParts([36], Decimal(|args[n]|), [13, 10], args[n], [13, 10]);
    }
  }

  /** What is sent for a command, byte for byte. */
  lemma CommandIs(args: seq<bytes>)
    ensures Wire.Encode(args) == CommandText(args)
  {
    PayloadsAre(args);
  }
}
