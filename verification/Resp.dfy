/**
 The Redis serialization protocol (RESP2) as hiredis 0.11.0 reads it: a plain
 recursive grammar over byte strings, with no buffer, no cursor and no stack.

 `ParseItem` answers for a whole byte string; `Incomplete` means that some
 extension of the string is needed to decide.
 */
module Resp {
  import opened Bytes

  datatype Kind = ErrorKind | StatusKind | IntegerKind | BulkKind | ArrayKind

  /** A decoded reply. An array header with a count below -1 is accepted by the
      reader and yields an array object with that count and no elements. */
  datatype Reply =
    | Error(text: bytes)
    | Status(text: bytes)
    | Integer(n: int)
    | Bulk(data: bytes)
    | Nil
    | Array(count: int, items: seq<Reply>)

  datatype Fault = BadType(b: byte) | TooDeep

  datatype Parse =
    | Done(reply: Reply, rest: bytes)
    | Incomplete
    | Failed(fault: Fault)

  /** Items below this many enclosing arrays cannot be arrays themselves. */
  const MAX_DEPTH: nat := 8

  function KindOf(b: byte): Option<Kind> {
    if b == MINUS then Some(ErrorKind)
    else if b == PLUS then Some(StatusKind)
    else if b == COLON then Some(IntegerKind)
    else if b == DOLLAR then Some(BulkKind)
    else if b == STAR then Some(ArrayKind)
    else None
  }

  predicate IsCrlf(s: bytes, i: int) {
    0 <= i && i + 1 < |s| && s[i] == CR && s[i + 1] == LF
  }

  /** The position of the first CR LF pair. */
  function FindCrlf(s: bytes): (r: Option<nat>)
    ensures r.Some? ==> IsCrlf(s, r.value) && forall k :: 0 <= k < r.value ==> !IsCrlf(s, k)
    ensures r.None? ==> forall k :: !IsCrlf(s, k)
  {
    if |s| < 2 then None
    else if s[0] == CR && s[1] == LF then Some(0)
    else
      var t := FindCrlf(s[1..]);
      assert forall k :: 0 < k ==> (IsCrlf(s, k) <==> IsCrlf(s[1..], k - 1));
      if t.None? then None else Some(t.value + 1)
  }

  /** Everything before the first CR. */
  function UpToCr(s: bytes): (t: bytes)
    ensures t <= s && CR !in t
    ensures |t| < |s| ==> s[|t|] == CR
  {
    if s == [] || s[0] == CR then [] else [s[0]] + UpToCr(s[1..])
  }

  predicate AllDigits(s: bytes) {
    forall i :: 0 <= i < |s| ==> IsDigit(s[i])
  }

  function DigitsValue(s: bytes): nat
    requires AllDigits(s)
  {
    if s == [] then 0 else 10 * DigitsValue(s[..|s| - 1]) + (s[|s| - 1] - ZERO) as int
  }

  /** An optional sign followed by decimal digits; anything else reads as -1. */
  function Number(t: bytes): int {
    var signed := t != [] && (t[0] == MINUS || t[0] == PLUS);
    var digits := if signed then t[1..] else t;
    if !AllDigits(digits) then -1
    else if signed && t[0] == MINUS then 0 - DigitsValue(digits)
    else DigitsValue(digits)
  }

  /** The number a header line holds: what stands before its first CR. */
  function LineNumber(line: bytes): int {
    Number(UpToCr(line))
  }

  /** A value found at the start of some bytes, and how many bytes it takes up. */
  datatype Sized<T> = Sized(value: T, size: nat)

  /** The number on a header line. */
  function Header(s: bytes): (r: Option<Sized<int>>)
    ensures r.Some? ==> 2 <= r.value.size <= |s|
  {
    match FindCrlf(s)
    case None => None
    case Some(i) => Some(Sized(LineNumber(s[..i]), i + 2))
  }

  /** An item other than an array, after its type byte. The two bytes behind a
      bulk payload are skipped unseen. */
  function Scalar(kind: Kind, s: bytes): (r: Option<Sized<Reply>>)
    requires kind != ArrayKind
    ensures r.Some? ==> 2 <= r.value.size <= |s|
  {
    match FindCrlf(s)
    case None => None
    case Some(i) =>
      match kind
      case ErrorKind => Some(Sized(Error(s[..i]), i + 2))
      case StatusKind => Some(Sized(Status(s[..i]), i + 2))
      case IntegerKind => Some(Sized(Integer(LineNumber(s[..i])), i + 2))
      case BulkKind =>
        var n := LineNumber(s[..i]);
        if n < 0 then Some(Sized(Nil, i + 2))
        else if i + 2 + n + 2 <= |s| then Some(Sized(Bulk(s[i + 2..i + 2 + n]), i + 2 + n + 2))
        else None
  }

  /** One item at the given nesting depth. */
  function ParseItem(s: bytes, depth: nat): (p: Parse)
    ensures p.Done? ==> |p.rest| < |s|
    decreases |s|, 0
  {
    if s == [] then Incomplete
    else match KindOf(s[0])
      case None => Failed(BadType(s[0]))
      case Some(kind) => ParseBody(kind, s[1..], depth)
  }

  /** One item whose type byte has been read. */
  function ParseBody(kind: Kind, s: bytes, depth: nat): (p: Parse)
    ensures p.Done? ==> |p.rest| < |s|
    decreases |s|, 0
  {
    if kind == ArrayKind then
      if depth == MAX_DEPTH then Failed(TooDeep)
      else match Header(s)
        case None => Incomplete
        case Some(h) =>
          if h.value == -1 then Done(Nil, s[h.size..])
          else if h.value <= 0 then Done(Array(h.value, []), s[h.size..])
          else ParseItems(s[h.size..], h.value, [], depth + 1)
    else match Scalar(kind, s)
      case None => Incomplete
      case Some(v) => Done(v.value, s[v.size..])
  }

  /** The elements of an array of `total`, of which `done` have been read. */
  function ParseItems(s: bytes, total: nat, done: seq<Reply>, depth: nat): (p: Parse)
    requires |done| <= total
    ensures p.Done? ==> |p.rest| <= |s|
    decreases |s|, 1
  {
    if |done| == total then Done(Array(total, done), s)
    else match ParseItem(s, depth)
      case Done(reply, rest) => ParseItems(rest, total, done + [reply], depth)
      case p => p
  }

  /** All the replies of a byte stream, the unfinished tail, and the fault that
      stopped the reading, if any. */
  datatype Stream = Stream(replies: seq<Reply>, tail: bytes, fault: Option<Fault>)

  function ParseStream(s: bytes): Stream
    decreases |s|
  {
    match ParseItem(s, 0)
    case Done(reply, rest) =>
      Prepend([reply], ParseStream(rest))
    case Incomplete => Stream([], s, None)
    case Failed(fault) => Stream([], [], Some(fault))
  }

  // ---- What more input can and cannot change ----

  /** `q` is what `p` becomes when `x` is appended to the input, unless `p` was undecided. */
  predicate Extends(p: Parse, q: Parse, x: bytes) {
    match p
    case Done(reply, rest) => q == Done(reply, rest + x)
    case Failed(fault) => q == p
    case Incomplete => true
  }

  lemma FindCrlfExtends(s: bytes, x: bytes)
    ensures FindCrlf(s).Some? ==> FindCrlf(s + x) == FindCrlf(s)
  {
    var a, b := FindCrlf(s), FindCrlf(s + x);
    if a.Some? {
      assert IsCrlf(s + x, a.value);
      assert b.Some?;
      if b.value < a.value {
        assert IsCrlf(s, b.value);
      }
    }
  }

  lemma HeaderExtends(s: bytes, x: bytes)
    ensures Header(s).Some? ==>
      Header(s + x) == Header(s) && (s + x)[Header(s).value.size..] == s[Header(s).value.size..] + x
  {
    FindCrlfExtends(s, x);
    if FindCrlf(s).Some? {
      assert (s + x)[..FindCrlf(s).value] == s[..FindCrlf(s).value];
    }
  }

  lemma ScalarExtends(kind: Kind, s: bytes, x: bytes)
    requires kind != ArrayKind
    ensures Scalar(kind, s).Some? ==>
      && Scalar(kind, s + x) == Scalar(kind, s)
      && (s + x)[Scalar(kind, s).value.size..] == s[Scalar(kind, s).value.size..] + x
  {
    if Scalar(kind, s).Some? {
      ScalarStays(kind, s, x);
      DropExtends(s, x, Scalar(kind, s).value.size);
    }
  }

  lemma ScalarStays(kind: Kind, s: bytes, x: bytes)
    requires kind != ArrayKind && Scalar(kind, s).Some?
    ensures Scalar(kind, s + x) == Scalar(kind, s)
  {
    FindCrlfExtends(s, x);
    var i := FindCrlf(s).value;
    TakeExtends(s, x, 0, i);
    if kind == BulkKind && LineNumber(s[..i]) >= 0 {
      TakeExtends(s, x, i + 2, i + 2 + LineNumber(s[..i]));
    }
  }

  lemma TakeExtends(s: bytes, x: bytes, i: nat, j: nat)
    requires i <= j <= |s|
    ensures (s + x)[i..j] == s[i..j] && (i == 0 ==> (s + x)[..j] == s[..j])
  {
  }

  lemma DropExtends(s: bytes, x: bytes, i: nat)
    requires i <= |s|
    ensures (s + x)[i..] == s[i..] + x
  {
  }

  /** A decided item stays decided, with the same value, however the input goes on. */
  lemma {:induction false} ParseItemExtends(s: bytes, x: bytes, depth: nat)
    ensures Extends(ParseItem(s, depth), ParseItem(s + x, depth), x)
    decreases |s|, 0
  {
    if s != [] {
      assert (s + x)[1..] == s[1..] + x;
      if KindOf(s[0]).Some? {
        ParseBodyExtends(KindOf(s[0]).value, s[1..], x, depth);
      }
    }
  }

  lemma {:induction false} ParseBodyExtends(kind: Kind, s: bytes, x: bytes, depth: nat)
    ensures Extends(ParseBody(kind, s, depth), ParseBody(kind, s + x, depth), x)
    decreases |s|, 0
  {
    if kind != ArrayKind {
      ScalarExtends(kind, s, x);
    } else if depth != MAX_DEPTH && Header(s).Some? {
      HeaderExtends(s, x);
      var h := Header(s).value;
      if 0 < h.value {
        ParseItemsExtends(s[h.size..], x, h.value, [], depth + 1);
      }
    }
  }

  lemma {:induction false} ParseItemsExtends(s: bytes, x: bytes, total: nat, done: seq<Reply>, depth: nat)
    requires |done| <= total
    ensures Extends(ParseItems(s, total, done, depth), ParseItems(s + x, total, done, depth), x)
    decreases |s|, 1
  {
    if |done| < total {
      ParseItemExtends(s, x, depth);
      var p := ParseItem(s, depth);
      if p.Done? {
        ParseItemsExtends(p.rest, x, total, done + [p.reply], depth);
      }
    }
  }

  /** Replies already read, followed by a stream. */
  function Prepend(replies: seq<Reply>, s: Stream): Stream {
    s.(replies := replies + s.replies)
  }

  /** The stream `a`, continued by `c`, which starts with the tail of `a`. */
  function Continue(a: Stream, c: Stream): Stream {
    if a.fault.Some? then a else Prepend(a.replies, c)
  }

  lemma PrependContinue(replies: seq<Reply>, a: Stream, c: Stream)
    ensures Continue(Prepend(replies, a), c) == Prepend(replies, Continue(a, c))
  {
    assert replies + (a.replies + c.replies) == replies + a.replies + c.replies;
  }

  /** Reading a longer stream only adds to what a shorter one gave: first its
      replies, then what the unfinished tail and the new bytes give together. */
  lemma {:induction false} ParseStreamExtends(s: bytes, x: bytes)
    ensures ParseStream(s + x) == Continue(ParseStream(s), ParseStream(ParseStream(s).tail + x))
    decreases |s|
  {
    ParseItemExtends(s, x, 0);
    var p := ParseItem(s, 0);
    if p.Done? {
      ParseStreamExtends(p.rest, x);
      var t := ParseStream(p.rest);
      PrependContinue([p.reply], t, ParseStream(t.tail + x));
    }
  }
}
