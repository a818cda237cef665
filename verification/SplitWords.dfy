/**
 Lines of words as a user types them, with quotes or without, and what the line splitter
 makes of them. The texts are defined by the codes of their characters.
 */
module SplitWords {
  import opened Bytes
  import Sequences
  import opened SplitArgs

  /** What may follow the unquoted part of a word: nothing, or one part in quotes. */
  datatype Tail = NoTail | Double(x: bytes) | Single(x: bytes)

  datatype Word = Word(plain: bytes, tail: Tail) {
    function Text(): bytes {
      match tail
      case NoTail => plain
      case Double(x) => plain + ([34] + (Escapes(x) + [34]))
      case Single(x) => plain + ([39] + (SingleText(x) + [39]))
    }

    function Value(): bytes {
      if tail.NoTail? then plain else plain + tail.x
    }

    /** Unquoted bytes are no blanks, quotes or NULs, and the first one is no other white space
        either. Between single quotes there is no NUL, and no backslash before the end. */
    predicate WellFormed() {
      && (plain != [] || !tail.NoTail?)
      && AllPlain(plain)
      && (plain != [] ==> !IsSpace(plain[0]))
      && (tail.Single? ==> Quotable(tail.x))
    }

    /** What must stand behind it: the end, or a blank. A word without quotes does not end at
        other white space. */
    ghost predicate EndsAt(s: bytes, p: nat) {
      if tail.NoTail? then Peek(s, p) == 0 || IsGap(Peek(s, p)) else Separated(s, p)
    }
  }

  predicate PlainByte(b: byte) {
    b != 0 && !IsGap(b) && b != 34 && b != 39
  }

  predicate IsGap(b: byte) {
    b == 32 || b == 10 || b == 13 || b == 9
  }

  /** Only the apostrophe is escaped between single quotes. */
  function SingleText(x: bytes): bytes {
    if x == [] then [] else (if x[0] == 39 then [92, 39] else [x[0]]) + SingleText(x[1..])
  }

  predicate Quotable(x: bytes) {
    0 !in x && (x != [] ==> x[|x| - 1] != 92)
  }

  // ---- One word ----

  lemma {:induction false} PlainReads(x: bytes, s: bytes, p: nat, current: bytes)
    requires Has(s, p, x) && AllPlain(x)
    ensures Token(Plain, s, p, current) == Token(Plain, s, p + |x|, current + x)
    decreases |x|
  {
    if x == [] {
      assert current + x == current;
    } else {
      HasAt(s, p, x, 0);
      assert x == [x[0]] + x[1..];
      HasSplits(s, p, [x[0]], x[1..]);
      TokenChar(Plain, s, p, current, x[0], p + 1);
      PlainReads(x[1..], s, p + 1, current + [x[0]]);
      Sequences.Associate(current, [x[0]], x[1..]);
    }
  }

  lemma SingleUnit(b: byte, s: bytes, p: nat)
    requires b != 0
    requires if b == 39 then Has(s, p, [92, 39]) else Has(s, p, [b]) && (b == 92 ==> Peek(s, p + 1) != 39)
    ensures ReadUnit(SingleQuoted, s, p) == Char(b, if b == 39 then 2 else 1)
  {
    if b == 39 {
      HasAt(s, p, [92, 39], 0);
      HasAt(s, p, [92, 39], 1);
    } else {
      HasAt(s, p, [b], 0);
    }
  }

  lemma {:induction false} SingleReads(x: bytes, s: bytes, p: nat, current: bytes, end: nat)
    requires 0 !in x && Has(s, p, SingleText(x)) && end == p + |SingleText(x)|
    requires x != [] && x[|x| - 1] == 92 ==> Peek(s, end) != 39
    ensures Token(SingleQuoted, s, p, current) == Token(SingleQuoted, s, end, current + x)
    decreases |x|
  {
    if x == [] {
      assert current + x == current;
    } else {
      var next := SingleStep(x, s, p, current, end);
      SingleReads(x[1..], s, next, current + [x[0]], end);
      Sequences.Associate(current, [x[0]], x[1..]);
      assert x == [x[0]] + x[1..];
    }
  }

  lemma SingleStep(x: bytes, s: bytes, p: nat, current: bytes, end: nat) returns (next: nat)
    requires x != [] && 0 !in x && Has(s, p, SingleText(x)) && end == p + |SingleText(x)|
    requires x[|x| - 1] == 92 ==> Peek(s, end) != 39
    ensures p < next && next + |SingleText(x[1..])| == end && Has(s, next, SingleText(x[1..]))
    ensures Token(SingleQuoted, s, p, current) == Token(SingleQuoted, s, next, current + [x[0]])
  {
    var first := if x[0] == 39 then [92, 39] else [x[0]];
    next := p + |first|;
    HasSplits(s, p, first, SingleText(x[1..]));
    SingleFollows(x, s, next, end);
    SingleUnit(x[0], s, p);
    TokenChar(SingleQuoted, s, p, current, x[0], next);
  }

  /** Behind a byte that is not an apostrophe stands none. */
  lemma SingleFollows(x: bytes, s: bytes, p: nat, end: nat)
    requires x != [] && Has(s, p, SingleText(x[1..])) && end == p + |SingleText(x[1..])|
    requires x[|x| - 1] == 92 ==> Peek(s, end) != 39
    ensures x[0] == 92 ==> Peek(s, p) != 39
  {
    if x[0] == 92 && |x| > 1 {
      HasAt(s, p, SingleText(x[1..]), 0);
    }
  }

  lemma SingleEnds(s: bytes, p: nat, current: bytes)
    requires Has(s, p, [39]) && Separated(s, p + 1)
    ensures Token(SingleQuoted, s, p, current) == Got(current, p + 1)
  {
    HasAt(s, p, [39], 0);
    assert ReadUnit(SingleQuoted, s, p) == End(1);
  }

  lemma Opens(quote: byte, s: bytes, p: nat, current: bytes)
    requires (quote == 34 || quote == 39) && Has(s, p, [quote])
    ensures Token(Plain, s, p, current) == Token(if quote == 34 then Quoted else SingleQuoted, s, p + 1, current)
  {
    HasAt(s, p, [quote], 0);
  }

  predicate AllPlain(plain: bytes) {
    forall i :: 0 <= i < |plain| ==> PlainByte(plain[i])
  }

  lemma PlainFrom(plain: bytes, s: bytes, p: nat, q: nat)
    requires Has(s, p, plain) && AllPlain(plain) && q == p + |plain|
    ensures q <= |s| && Token(Plain, s, p, []) == Token(Plain, s, q, plain)
  {
    PlainReads(plain, s, p, []);
    assert [] + plain == plain;
  }

  lemma PlainWord(plain: bytes, s: bytes, p: nat, end: nat) returns (n: nat)
    requires Has(s, p, plain) && AllPlain(plain) && end == p + |plain|
    requires Peek(s, end) == 0 || IsGap(Peek(s, end))
    ensures n <= |s| && Token(Plain, s, p, []) == Got(plain, n) && Args(s, n) == Args(s, end)
  {
    PlainFrom(plain, s, p, end);
    n := if Peek(s, end) == 0 then end else end + 1;
  }

  lemma TailHas(plain: bytes, quote: byte, rest: bytes, s: bytes, p: nat)
    requires Has(s, p, plain + ([quote] + rest))
    ensures Has(s, p, plain) && Has(s, p + |plain|, [quote]) && Has(s, p + |plain| + 1, rest)
  {
    HasSplits(s, p, plain, [quote] + rest);
    HasSplits(s, p + |plain|, [quote], rest);
  }

  lemma DoubleWord(plain: bytes, x: bytes, s: bytes, p: nat, q: nat, end: nat)
    requires AllPlain(plain) && Has(s, p, plain) && Has(s, q, [34]) && Has(s, q + 1, Escapes(x) + [34])
    requires q == p + |plain| && end == q + 1 + |Escapes(x)| + 1 && Separated(s, end)
    ensures end <= |s| && Token(Plain, s, p, []) == Got(plain + x, end)
  {
    PlainFrom(plain, s, p, q);
    Opens(34, s, q, plain);
    QuotedReads(x, s, q + 1, plain, end);
  }

  lemma SingleWord(plain: bytes, x: bytes, s: bytes, p: nat, q: nat, end: nat)
    requires AllPlain(plain) && Has(s, p, plain) && Has(s, q, [39]) && Has(s, q + 1, SingleText(x) + [39])
    requires q == p + |plain| && end == q + 1 + |SingleText(x)| + 1 && Separated(s, end) && Quotable(x)
    ensures end <= |s| && Token(Plain, s, p, []) == Got(plain + x, end)
  {
    HasSplits(s, q + 1, SingleText(x), [39]);
    PlainFrom(plain, s, p, q);
    Opens(39, s, q, plain);
    SingleReads(x, s, q + 1, plain, end - 1);
    SingleEnds(s, end - 1, plain + x);
  }

  /** A word is read as its bytes, up to where it ends or behind the blank there. */
  lemma WordReads(w: Word, s: bytes, p: nat, end: nat) returns (n: nat)
    requires w.WellFormed() && Has(s, p, w.Text()) && end == p + |w.Text()| && w.EndsAt(s, end)
    ensures n <= |s| && Token(Plain, s, p, []) == Got(w.Value(), n) && Args(s, n) == Args(s, end)
  {
    n := end;
    match w.tail
    case NoTail => n := PlainWord(w.plain, s, p, end);
    case Double(x) =>
      TailHas(w.plain, 34, Escapes(x) + [34], s, p);
      DoubleWord(w.plain, x, s, p, p + |w.plain|, end);
    case Single(x) =>
      TailHas(w.plain, 39, SingleText(x) + [39], s, p);
      SingleWord(w.plain, x, s, p, p + |w.plain|, end);
  }

  lemma WordFirst(w: Word, s: bytes, p: nat, end: nat)
    requires w.WellFormed() && Has(s, p, w.Text()) && end == p + |w.Text()| && w.EndsAt(s, end)
    ensures Args(s, p) == Prepend([w.Value()], Args(s, end))
  {
    var n := WordReads(w, s, p, end);
    var text := w.Text();
    HasAt(s, p, text, 0);
    assert text[0] == if w.plain != [] then w.plain[0] else if w.tail.Double? then 34 else 39;
  }

  // ---- Lines ----

  /** Words with what stands behind each. */
  function LineText(words: seq<Word>, gaps: seq<bytes>): bytes
    requires |words| == |gaps|
  {
    if words == [] then [] else words[0].Text() + (gaps[0] + LineText(words[1..], gaps[1..]))
  }

  function Values(words: seq<Word>): seq<bytes> {
    if words == [] then [] else [words[0].Value()] + Values(words[1..])
  }

  /** White space, which begins with a blank behind a word without quotes. */
  ghost predicate Gap(w: Word, gap: bytes) {
    gap != [] && Blank(gap) && (w.tail.NoTail? ==> IsGap(gap[0]))
  }

  lemma {:induction false} WordsRead(words: seq<Word>, gaps: seq<bytes>, s: bytes, p: nat, end: nat)
    requires |words| == |gaps| && forall i :: 0 <= i < |words| ==> words[i].WellFormed() && Gap(words[i], gaps[i])
    requires Has(s, p, LineText(words, gaps)) && end == p + |LineText(words, gaps)|
    ensures end <= |s| && Args(s, p) == Prepend(Values(words), Args(s, end))
    decreases |words|
  {
    if words == [] {
      PrependAgain([], [], Args(s, end));
    } else {
      var q := WordAndGap(words[0], words[0].Text(), gaps[0], LineText(words[1..], gaps[1..]), s, p);
      WordsRead(words[1..], gaps[1..], s, q, end);
      PrependAgain([words[0].Value()], Values(words[1..]), Args(s, end));
    }
  }

  lemma WordAndGap(w: Word, text: bytes, gap: bytes, more: bytes, s: bytes, p: nat) returns (q: nat)
    requires w.WellFormed() && Gap(w, gap) && text == w.Text() && Has(s, p, text + (gap + more))
    ensures q == p + |text| + |gap| && Has(s, q, more) && Args(s, p) == Prepend([w.Value()], Args(s, q))
  {
    var end := p + |text|;
    q := end + |gap|;
    HasSplits(s, p, text, gap + more);
    HasSplits(s, end, gap, more);
    HasAt(s, end, gap, 0);
    WordFirst(w, s, p, end);
    BlanksSkipped(gap, s, end);
  }

  /** Words and white space in front of them, and behind each. */
  ghost predicate Line(lead: bytes, words: seq<Word>, gaps: seq<bytes>) {
    && Blank(lead) && |words| == |gaps|
    && forall i :: 0 <= i < |words| ==> words[i].WellFormed() && Gap(words[i], gaps[i])
  }

  lemma LineFrom(lead: bytes, words: seq<Word>, gaps: seq<bytes>, s: bytes, p: nat, q: nat)
    requires Line(lead, words, gaps) && Has(s, 0, lead) && p == |lead|
    requires Has(s, p, LineText(words, gaps)) && q == p + |LineText(words, gaps)|
    ensures q <= |s| && Args(s, 0) == Prepend(Values(words), Args(s, q))
  {
    BlanksSkipped(lead, s, 0);
    WordsRead(words, gaps, s, p, q);
  }

  /** The words before the last part of a line. */
  lemma LineBefore(lead: bytes, words: seq<Word>, gaps: seq<bytes>, last: bytes, s: bytes, q: nat)
    requires Line(lead, words, gaps)
    requires s == lead + (LineText(words, gaps) + last) && q == |lead| + |LineText(words, gaps)|
    ensures q + |last| == |s| && Has(s, q, last) && Args(s, 0) == Prepend(Values(words), Args(s, q))
  {
    assert Has(s, q, last) && Has(s, 0, lead) && Has(s, |lead|, LineText(words, gaps)) by {
      LaidOut(lead, LineText(words, gaps), last);
    }
    LineFrom(lead, words, gaps, s, |lead|, q);
  }

  /** A string in three parts. */
  ghost predicate Laid(s: bytes, a: bytes, b: bytes, c: bytes) {
    Has(s, 0, a) && Has(s, |a|, b) && Has(s, |a| + |b|, c)
  }

  lemma LaidOut(a: bytes, b: bytes, c: bytes)
    ensures Laid(a + (b + c), a, b, c)
  {
    var s := a + (b + c);
    HasWhole(s, 0);
    assert s[0..] == s;
    HasSplits(s, 0, a, b + c);
    HasSplits(s, |a|, b, c);
  }

  lemma LastWord(w: Word, s: bytes, q: nat)
    requires w.WellFormed() && Has(s, q, w.Text()) && q + |w.Text()| == |s|
    ensures Args(s, q) == Some([w.Value()])
  {
    WordFirst(w, s, q, |s|);
    assert [w.Value()] + [] == [w.Value()];
  }

  lemma LaidSplits(s: bytes, lead: bytes, words: seq<Word>, gaps: seq<bytes>, last: Word, q: nat)
    requires last.WellFormed() && Has(s, q, last.Text()) && q + |last.Text()| == |s|
    requires Args(s, 0) == Prepend(Values(words), Args(s, q))
    ensures Args(s, 0) == Some(Values(words) + [last.Value()])
  {
    LastWord(last, s, q);
  }

  /** Words with white space around them, the last one at the end of the line, are split into
      exactly the words. */
  lemma LineSplits(lead: bytes, words: seq<Word>, gaps: seq<bytes>, last: Word)
    requires Line(lead, words, gaps) && last.WellFormed()
    ensures Args(lead + (LineText(words, gaps) + last.Text()), 0) == Some(Values(words) + [last.Value()])
  {
    var s, q := lead + (LineText(words, gaps) + last.Text()), |lead| + |LineText(words, gaps)|;
    LineBefore(lead, words, gaps, last.Text(), s, q);
    LaidSplits(s, lead, words, gaps, last, q);
  }

  lemma LaidSplitsAll(s: bytes, lead: bytes, words: seq<Word>, gaps: seq<bytes>)
    requires Line(lead, words, gaps) && Laid(s, lead, LineText(words, gaps), [])
    requires |lead| + |LineText(words, gaps)| == |s|
    ensures Args(s, 0) == Some(Values(words))
  {
    LineFrom(lead, words, gaps, s, |lead|, |s|);
    assert Values(words) + [] == Values(words);
  }

  /** The same with white space behind the last word. */
  lemma SpacedLineSplits(lead: bytes, words: seq<Word>, gaps: seq<bytes>)
    requires Line(lead, words, gaps)
    ensures Args(lead + LineText(words, gaps), 0) == Some(Values(words))
  {
    LaidOut(lead, LineText(words, gaps), []);
    assert LineText(words, gaps) + [] == LineText(words, gaps);
    LaidSplitsAll(lead + LineText(words, gaps), lead, words, gaps);
  }

  // ---- Other ways to write a byte between double quotes ----

  /** A byte that is no quote, backslash or NUL stands for itself. */
  lemma RawReads(b: byte, s: bytes, p: nat)
    requires Has(s, p, [b]) && b != 0 && b != 34 && b != 92
    ensures ReadUnit(Quoted, s, p) == Char(b, 1)
  {
    HasAt(s, p, [b], 0);
  }

  /** Behind a backslash five letters stand for control characters, and other bytes for
      themselves. */
  lemma BackslashReads(b: byte, s: bytes, p: nat)
    requires Has(s, p, [92, b]) && b != 0 && b != 120
    ensures ReadUnit(Quoted, s, p) ==
      Char(if b == 110 then 10 else if b == 114 then 13 else if b == 116 then 9 else if b == 98 then 8
           else if b == 97 then 7 else b, 2)
  {
    HasAt(s, p, [92, b], 0);
    HasAt(s, p, [92, b], 1);
  }

  /** The value of a digit in base sixteen, in either case. */
  function SixteenValue(c: byte): Option<byte> {
    if 48 <= c <= 57 then Some(c - 48)
    else if 97 <= c <= 102 then Some(c - 87)
    else if 65 <= c <= 70 then Some(c - 55)
    else None
  }

  /** Behind a backslash and an x, two digits in base sixteen stand for the byte they mean;
      otherwise the x stands for itself. */
  lemma HexReads(c: byte, d: byte, s: bytes, p: nat)
    requires Has(s, p, [92, 120]) && c == Peek(s, p + 2) && d == Peek(s, p + 3)
    ensures ReadUnit(Quoted, s, p) ==
      if SixteenValue(c).Some? && SixteenValue(d).Some?
      then Char(SixteenValue(c).value * 16 + SixteenValue(d).value, 4)
      else Char(120, 2)
  {
    HasAt(s, p, [92, 120], 0);
    HasAt(s, p, [92, 120], 1);
  }

  // ---- Wrong quotes ----

  lemma {:induction false} QuotedThrough(x: bytes, s: bytes, p: nat, current: bytes, end: nat)
    requires Has(s, p, Escapes(x)) && end == p + |Escapes(x)|
    ensures Token(Quoted, s, p, current) == Token(Quoted, s, end, current + x)
    decreases |x|
  {
    if x == [] {
      assert current + x == current;
    } else {
      var next := p + |Escape(x[0])|;
      HasSplits(s, p, Escape(x[0]), Escapes(x[1..]));
      EscapeReads(x[0], s, p);
      TokenChar(Quoted, s, p, current, x[0], next);
      QuotedThrough(x[1..], s, next, current + [x[0]], end);
      Sequences.Associate(current, [x[0]], x[1..]);
      assert x == [x[0]] + x[1..];
    }
  }

  /** The line ends before the quote is closed, or something else than white space stands
      behind it. */
  ghost predicate Wrong(s: bytes, p: nat, quote: byte) {
    p == |s| || (Has(s, p, [quote]) && p + 1 < |s| && s[p + 1] != 0 && !IsSpace(s[p + 1]))
  }

  lemma WrongIsBad(s: bytes, p: nat, quote: byte, current: bytes)
    requires (quote == 34 || quote == 39) && p <= |s| && Wrong(s, p, quote)
    ensures Token(if quote == 34 then Quoted else SingleQuoted, s, p, current) == Unbalanced
  {
    if p < |s| {
      HasAt(s, p, [quote], 0);
    }
  }

  /** What is written before the point where a quote turns out to be wrong. */
  function Begun(plain: bytes, tail: Tail): bytes
    requires !tail.NoTail?
  {
    plain + if tail.Double? then [34] + Escapes(tail.x) else [39] + SingleText(tail.x)
  }

  predicate Open(plain: bytes, tail: Tail) {
    !tail.NoTail? && AllPlain(plain) && (plain != [] ==> !IsSpace(plain[0])) && (tail.Single? ==> Quotable(tail.x))
  }

  lemma WrongDouble(x: bytes, s: bytes, m: nat, q: nat, current: bytes)
    requires Has(s, m, [34]) && Has(s, m + 1, Escapes(x)) && q == m + 1 + |Escapes(x)| && Wrong(s, q, 34)
    ensures m <= |s| && Token(Plain, s, m, current) == Unbalanced
  {
    Opens(34, s, m, current);
    QuotedThrough(x, s, m + 1, current, q);
    WrongIsBad(s, q, 34, current + x);
  }

  lemma WrongSingle(x: bytes, s: bytes, m: nat, q: nat, current: bytes)
    requires Has(s, m, [39]) && Has(s, m + 1, SingleText(x)) && q == m + 1 + |SingleText(x)| && Wrong(s, q, 39)
    requires Quotable(x)
    ensures m <= |s| && Token(Plain, s, m, current) == Unbalanced
  {
    Opens(39, s, m, current);
    SingleReads(x, s, m + 1, current, q);
    WrongIsBad(s, q, 39, current + x);
  }

  lemma WrongWord(plain: bytes, tail: Tail, s: bytes, p: nat, q: nat)
    requires Open(plain, tail) && Has(s, p, Begun(plain, tail)) && q == p + |Begun(plain, tail)|
    requires Wrong(s, q, if tail.Double? then 34 else 39)
    ensures Args(s, p) == None
  {
    var m := p + |plain|;
    WrongToken(plain, tail, s, p, m, q);
    PlainFrom(plain, s, p, m);
    HasAt(s, p, Begun(plain, tail), 0);
  }

  lemma WrongToken(plain: bytes, tail: Tail, s: bytes, p: nat, m: nat, q: nat)
    requires Open(plain, tail) && Has(s, p, Begun(plain, tail)) && m == p + |plain| && q == p + |Begun(plain, tail)|
    requires Wrong(s, q, if tail.Double? then 34 else 39)
    ensures Has(s, p, plain) && m <= |s| && Token(Plain, s, m, plain) == Unbalanced
  {
    if tail.Double? {
      TailHas(plain, 34, Escapes(tail.x), s, p);
      WrongDouble(tail.x, s, m, q, plain);
    } else {
      TailHas(plain, 39, SingleText(tail.x), s, p);
      WrongSingle(tail.x, s, m, q, plain);
    }
  }

  /** Nothing, or the quote with something else than white space behind it. */
  predicate Spoils(after: bytes, quote: byte) {
    after == [] || (|after| > 1 && after[0] == quote && after[1] != 0 && !IsSpace(after[1]))
  }

  lemma SpoilsIsWrong(s: bytes, q: nat, after: bytes, quote: byte)
    requires Has(s, q, after) && q + |after| == |s| && Spoils(after, quote)
    ensures Wrong(s, q, quote)
  {
    if after != [] {
      HasAt(s, q, after, 0);
      HasAt(s, q, after, 1);
    }
  }

  lemma EndsWrong(s: bytes, p: nat, plain: bytes, tail: Tail, after: bytes)
    requires Open(plain, tail) && Spoils(after, if tail.Double? then 34 else 39)
    requires Has(s, p, Begun(plain, tail) + after) && p + |Begun(plain, tail)| + |after| == |s|
    ensures p <= |s| && Args(s, p) == None
  {
    var q := p + |Begun(plain, tail)|;
    HasSplits(s, p, Begun(plain, tail), after);
    SpoilsIsWrong(s, q, after, if tail.Double? then 34 else 39);
    WrongWord(plain, tail, s, p, q);
  }

  /** A line is refused as a whole when a quote in it is left open, or closed right before
      something else, whatever words stand before. */
  lemma WrongLine(lead: bytes, words: seq<Word>, gaps: seq<bytes>, plain: bytes, tail: Tail, after: bytes)
    requires Line(lead, words, gaps) && Open(plain, tail) && Spoils(after, if tail.Double? then 34 else 39)
    ensures Args(lead + (LineText(words, gaps) + (Begun(plain, tail) + after)), 0) == None
  {
    var last, p := Begun(plain, tail) + after, |lead| + |LineText(words, gaps)|;
    var s := lead + (LineText(words, gaps) + last);
    LineBefore(lead, words, gaps, last, s, p);
    EndsWrong(s, p, plain, tail, after);
  }

  // ---- Single quotes ----

  lemma {:induction false} SingleTextConcat(a: bytes, b: bytes)
    ensures SingleText(a + b) == SingleText(a) + SingleText(b)
    decreases |a|
  {
    if a == [] {
      assert a + b == b;
    } else {
      assert (a + b)[1..] == a[1..] + b;
      SingleTextConcat(a[1..], b);
    }
  }

  /** Between single quotes with only the apostrophe escaped, exactly the strings without a NUL
      and without a backslash at the end are read back; for others the line is refused. */
  lemma SingleQuotedExactlyWhen(x: bytes)
    ensures Args([39] + (SingleText(x) + [39]), 0) == if Quotable(x) then Some([x]) else None
  {
    var s := [39] + (SingleText(x) + [39]);
    if Quotable(x) {
      var w := Word([], Single(x));
      assert w.Text() == s && w.Value() == x;
      HasWhole(s, 0);
      assert s[0..] == s;
      LastWord(w, s, 0);
    } else if 0 in x {
      NulStops(x, s);
    } else {
      BackslashKeepsOpen(x, s);
    }
  }

  lemma BackslashKeepsOpen(x: bytes, s: bytes)
    requires 0 !in x && x != [] && x[|x| - 1] == 92 && s == [39] + (SingleText(x) + [39])
    ensures Args(s, 0) == None
  {
    var y := x[..|x| - 1];
    assert x == y + [92];
    SingleBackslash(y);
    LeftOpen(y + [39], s);
  }

  /** A backslash before the closing quote makes it an apostrophe. */
  lemma SingleBackslash(y: bytes)
    ensures SingleText(y + [92]) + [39] == SingleText(y + [39])
  {
    SingleTextConcat(y, [92]);
    SingleTextConcat(y, [39]);
    assert SingleText([92]) == [92] && SingleText([39]) == [92, 39];
  }

  lemma LeftOpen(x: bytes, s: bytes)
    requires Quotable(x) && s == [39] + SingleText(x)
    ensures Args(s, 0) == None
  {
    LaidOut([39], SingleText(x), []);
    assert s == [39] + (SingleText(x) + []);
    WrongSingle(x, s, 0, |s|, []);
    Refused(s);
  }

  lemma Refused(s: bytes)
    requires Has(s, 0, [39]) && Token(Plain, s, 0, []) == Unbalanced
    ensures Args(s, 0) == None
  {
    HasAt(s, 0, [39], 0);
  }

  lemma NulStops(x: bytes, s: bytes)
    requires 0 in x && s == [39] + (SingleText(x) + [39])
    ensures Args(s, 0) == None
  {
    var k := FirstNul(x);
    var a, b := x[..k], x[k + 1..];
    assert x == a + ([0] + b);
    SingleTextConcat(a, [0] + b);
    assert SingleText([0] + b) == [0] + SingleText(b);
    var more := [0] + SingleText(b) + [39];
    LaidOut([39], SingleText(a), more);
    assert s == [39] + (SingleText(a) + more);
    NulInside(a, more, s);
    Refused(s);
  }

  lemma NulInside(a: bytes, more: bytes, s: bytes)
    requires 0 !in a && more != [] && more[0] == 0 && Laid(s, [39], SingleText(a), more)
    ensures Token(Plain, s, 0, []) == Unbalanced
  {
    var end := 1 + |SingleText(a)|;
    HasAt(s, end, more, 0);
    Opens(39, s, 0, []);
    SingleReads(a, s, 1, [], end);
  }

  lemma {:induction false} FirstNul(x: bytes) returns (k: nat)
    requires 0 in x
    ensures k < |x| && x[k] == 0 && 0 !in x[..k]
  {
    if x[0] == 0 {
      k := 0;
    } else {
      k := FirstNul(x[1..]);
      k := k + 1;
      assert x[..k] == [x[0]] + x[1..][..k - 1];
    }
  }

  // ---- The printed form ----

  const HEX_DIGITS := "0123456789abcdef"

  /** How each byte is printed: quotes and backslashes behind a backslash, five control characters
      by their letters, printable bytes as they are, all others by two digits in lower case. */
  lemma EscapeIs(b: byte)
    ensures b == 34 || b == 92 ==> Escape(b) == [92, b]
    ensures b == 10 ==> Escape(b) == [92, 110]
    ensures b == 13 ==> Escape(b) == [92, 114]
    ensures b == 9 ==> Escape(b) == [92, 116]
    ensures b == 7 ==> Escape(b) == [92, 97]
    ensures b == 8 ==> Escape(b) == [92, 98]
    ensures 32 <= b <= 126 && b != 34 && b != 92 ==> Escape(b) == [b]
    ensures !(7 <= b <= 10) && b != 13 && !(32 <= b <= 126) ==>
      && |Escape(b)| == 4 && Escape(b)[..2] == [92, 120]
      && Escape(b)[2] as int == HEX_DIGITS[b / 16] as int && Escape(b)[3] as int == HEX_DIGITS[b % 16] as int
  {
    DigitIs(b / 16);
    DigitIs(b % 16);
  }

  lemma DigitIs(d: byte)
    requires d < 16
    ensures |HEX_DIGITS| == 16 && HexChar(d) as int == HEX_DIGITS[d] as int
  {
  }
}
