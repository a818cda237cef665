/**
 Formats as a program writes them, word by word, and the arguments that they stand for. The
 texts are defined by the codes of their characters, without the functions that read them.
 */
module FormatWords {
  import opened Bytes
  import Sequences
  import opened Format

  /** A conversion of a number: flags, width, precision, size and letter. */
  datatype Conversion = Conversion(flags: bytes, width: bytes, precision: Option<bytes>, size: bytes, letter: byte) {
    function Head(): bytes {
      flags + (width + if precision.Some? then [46] + precision.value else [])
    }

    function Text(): bytes {
      [37] + (Head() + (size + [letter]))
    }

    predicate WellFormed() {
      && (forall i :: 0 <= i < |flags| ==> IsFlag(flags[i]))
      && (forall i :: 0 <= i < |width| ==> 48 <= width[i] <= 57)
      && (precision.Some? ==> forall i :: 0 <= i < |precision.value| ==> 48 <= precision.value[i] <= 57)
      && (size == [] || size == [104] || size == [104, 104] || size == [108] || size == [108, 108])
      && (IsInteger(letter) || (IsDouble(letter) && size == []))
    }
  }

  /** One of #, 0, -, + and blank. */
  predicate IsFlag(b: byte) {
    b == 35 || b == 48 || b == 45 || b == 43 || b == 32
  }

  /** One of d, i, o, u, x and X. */
  predicate IsInteger(b: byte) {
    b == 100 || b == 105 || b == 111 || b == 117 || b == 120 || b == 88
  }

  /** One of e, f, g and a, in either case. */
  predicate IsDouble(b: byte) {
    b == 101 || b == 69 || b == 102 || b == 70 || b == 103 || b == 71 || b == 97 || b == 65
  }

  /** What a word is made of: bytes, C strings and sized bytes with something behind them in
      memory, percent signs and numbers. */
  datatype Item =
    | Literal(b: byte)
    | Str(text: bytes, behind: bytes)
    | Bytes(data: bytes, behind: bytes)
    | Percent
    | Printed(conversion: Conversion, printed: bytes -> bytes)
  {
    function Text(): bytes {
      match this
      case Literal(b) => [b]
      case Str(_, _) => [37, 115]
      case Bytes(_, _) => [37, 98]
      case Percent => [37, 37]
      case Printed(c, _) => c.Text()
    }

    function Args(): seq<VarArg> {
      match this
      case Str(text, behind) => [CStr(text + ([0] + behind))]
      case Bytes(data, behind) => [Bin(data + behind, |data|)]
      case Printed(_, printed) => [Number(printed)]
      case _ => []
    }

    function Value(): bytes {
      match this
      case Literal(b) => [b]
      case Str(text, _) => text
      case Bytes(data, _) => data
      case Percent => [37]
      case Printed(c, printed) => printed(c.Text())
    }

    /** A literal byte is no blank, percent sign or NUL, a C string holds no NUL, and the text of
        a conversion fits the buffer it is copied to. */
    predicate WellFormed() {
      match this
      case Literal(b) => b != 0 && b != 32 && b != 37
      case Str(text, _) => 0 !in text
      case Printed(c, _) => c.WellFormed() && |c.Text()| < 14
      case _ => true
    }
  }

  /** A word, and how many blanks stand behind it. */
  datatype Part = Part(word: seq<Item>, gap: nat)

  function Blanks(n: nat): bytes {
    if n == 0 then [] else [32] + Blanks(n - 1)
  }

  function WordText(word: seq<Item>): bytes {
    if word == [] then [] else word[0].Text() + WordText(word[1..])
  }

  function WordArgs(word: seq<Item>): seq<VarArg> {
    if word == [] then [] else word[0].Args() + WordArgs(word[1..])
  }

  function WordValue(word: seq<Item>): bytes {
    if word == [] then [] else WordValue(word[..|word| - 1]) + word[|word| - 1].Value()
  }

  function PartsText(parts: seq<Part>): bytes {
    if parts == [] then [] else WordText(parts[0].word) + (Blanks(parts[0].gap) + PartsText(parts[1..]))
  }

  function PartsArgs(parts: seq<Part>): seq<VarArg> {
    if parts == [] then [] else WordArgs(parts[0].word) + PartsArgs(parts[1..])
  }

  function PartsValues(parts: seq<Part>): seq<bytes> {
    if parts == [] then [] else [WordValue(parts[0].word)] + PartsValues(parts[1..])
  }

  /** Words are not empty, and blanks divide them. */
  predicate WellFormed(parts: seq<Part>) {
    forall i :: 0 <= i < |parts| ==>
      && parts[i].word != [] && (i < |parts| - 1 ==> parts[i].gap > 0)
      && forall k :: 0 <= k < |parts[i].word| ==> parts[i].word[k].WellFormed()
  }

  // ---- Items ----

  /** The first step over a format takes this text and these arguments, for this value. */
  ghost predicate Takes(text: bytes, args: seq<VarArg>, value: bytes, rest: bytes, more: seq<VarArg>) {
    text + rest != [] && NextToken(text + rest, args + more) == Token(Text(value), |text|, |args|)
  }

  lemma SimpleTaken(item: Item, rest: bytes, more: seq<VarArg>)
    requires item.WellFormed() && !item.Printed?
    ensures Takes(item.Text(), item.Args(), item.Value(), rest, more)
  {
    match item
    case Literal(b) =>
    case Str(text, behind) => CStringEnds(text, behind);
    case Bytes(data, behind) => assert (data + behind)[..|data|] == data;
    case Percent =>
  }

  // ---- Conversions of numbers ----

  lemma {:induction false} FlagsPassed(fmt: bytes, p: nat, a: nat)
    requires p <= a <= |fmt| && forall i :: p <= i < a ==> IsFlag(fmt[i])
    ensures SkipFlags(fmt, p) == SkipFlags(fmt, a)
    decreases a - p
  {
    if p < a {
      assert FLAGS[0] == 35 && FLAGS[1] == 48 && FLAGS[2] == 45 && FLAGS[3] == 43 && FLAGS[4] == 32;
      assert IsFlag(fmt[p]);
      FlagsPassed(fmt, p + 1, a);
    }
  }

  /** The flags may take the first zeros of the width, but nothing behind it. */
  lemma {:induction false} FlagsEnd(fmt: bytes, p: nat, b: nat)
    requires p <= b < |fmt| && !IsFlag(fmt[b])
    ensures SkipFlags(fmt, p) <= b
    decreases b - p
  {
    if p < b {
      FlagsEnd(fmt, p + 1, b);
    }
  }

  lemma {:induction false} DigitsPassed(fmt: bytes, p: nat, b: nat)
    requires p <= b < |fmt| && (forall i :: p <= i < b ==> 48 <= fmt[i] <= 57) && !(48 <= fmt[b] <= 57)
    ensures SkipDigits(fmt, p) == b
    decreases b - p
  {
    if p < b {
      DigitsPassed(fmt, p + 1, b);
    }
  }

  /** Where the parts of a conversion are in a format: flags up to `a`, width up to `b`, precision
      up to `e`, and the letter at `q`. */
  ghost predicate Spelled(fmt: bytes, c: Conversion, a: nat, b: nat, e: nat, q: nat) {
    && 1 <= a <= b <= e <= q < |fmt|
    && (forall i :: 1 <= i < a ==> IsFlag(fmt[i]))
    && (forall i :: a <= i < b ==> 48 <= fmt[i] <= 57)
    && (if c.precision.Some? then b < e && fmt[b] == 46 && forall i :: b < i < e ==> 48 <= fmt[i] <= 57 else b == e)
    && fmt[e..q] == c.size && fmt[q] == c.letter
  }

  lemma ConversionSpelled(c: Conversion, rest: bytes, fmt: bytes) returns (a: nat, b: nat, e: nat, q: nat)
    requires c.WellFormed() && fmt == c.Text() + rest
    ensures Spelled(fmt, c, a, b, e, q) && fmt[0] == 37 && q + 1 == |c.Text()| && fmt[..q + 1] == c.Text()
  {
    var third := if c.precision.Some? then [46] + c.precision.value else [];
    a, b, e := 1 + |c.flags|, 1 + |c.flags| + |c.width|, 1 + |c.Head()|;
    q := e + |c.size|;
    Flat(c.flags, c.width, third, c.size, [c.letter], rest, fmt);
    FourParts(c.flags, c.width, third, c.size, [c.letter] + rest, fmt, a, b, e, q);
    assert fmt[..q + 1] == c.Text();
  }

  lemma Flat(f: bytes, w: bytes, t: bytes, z: bytes, l: bytes, rest: bytes, s: bytes)
    requires s == [37] + ((f + (w + t)) + (z + l)) + rest
    ensures s == [37] + (f + (w + (t + (z + (l + rest)))))
  {
  }

  /** Four parts, one behind the other. */
  lemma FourParts(f: bytes, w: bytes, t: bytes, z: bytes, rest: bytes, s: bytes, a: nat, b: nat, e: nat, q: nat)
    requires s == [37] + (f + (w + (t + (z + rest))))
    requires a == 1 + |f| && b == a + |w| && e == b + |t| && q == e + |z|
    ensures q <= |s| && s[1..a] == f && s[a..b] == w && s[b..e] == t && s[e..q] == z && s[q..] == rest
    ensures forall i :: 1 <= i < a ==> s[i] == f[i - 1]
    ensures forall i :: a <= i < b ==> s[i] == w[i - a]
    ensures forall i :: b <= i < e ==> s[i] == t[i - b]
  {
    PartIs(s, 1, f, w + (t + (z + rest)));
    PartIs(s, a, w, t + (z + rest));
    PartIs(s, b, t, z + rest);
    PartIs(s, e, z, rest);
  }

  lemma PartIs(s: bytes, p: nat, t: bytes, behind: bytes)
    requires p <= |s| && s[p..] == t + behind
    ensures p + |t| <= |s| && s[p..p + |t|] == t && s[p + |t|..] == behind
    ensures forall k :: p <= k < p + |t| ==> s[k] == t[k - p]
  {
    assert s[p..p + |t|] == s[p..][..|t|];
    assert s[p + |t|..] == s[p..][|t|..];
    assert forall k :: p <= k < p + |t| ==> s[k] == s[p..][k - p];
  }

  lemma SliceIs(s: bytes, i: nat, j: nat, t: bytes)
    requires i <= j <= |s| && s[i..j] == t
    ensures forall k :: i <= k < j ==> s[k] == t[k - i]
  {
  }

  lemma PrefixPassed(fmt: bytes, c: Conversion, a: nat, b: nat, e: nat, q: nat)
    requires c.WellFormed() && Spelled(fmt, c, a, b, e, q)
    ensures Prefixed(fmt, 1) == e
  {
    SizeStarts(fmt, c, e, q);
    FlagsPassed(fmt, 1, a);
    FlagsEnd(fmt, a, b);
    DigitsPassed(fmt, SkipFlags(fmt, a), b);
    if c.precision.Some? {
      DigitsPassed(fmt, b + 1, e);
    }
  }

  /** Behind the precision is a letter, of the size or the last one. */
  lemma SizeStarts(fmt: bytes, c: Conversion, e: nat, q: nat)
    requires c.WellFormed() && e <= q < |fmt| && fmt[e..q] == c.size && fmt[q] == c.letter
    ensures if c.size == [] then q == e else q > e && fmt[e] == c.size[0] && (fmt[e] == 104 || fmt[e] == 108)
    ensures |c.size| == 2 ==> q == e + 2 && fmt[e + 1] == fmt[e]
    ensures |c.size| == 1 ==> q == e + 1
  {
    SliceIs(fmt, e, q, c.size);
  }

  lemma LetterFound(fmt: bytes, c: Conversion, e: nat, q: nat)
    requires c.WellFormed() && e <= q < |fmt| && fmt[e..q] == c.size && fmt[q] == c.letter
    ensures Letter(fmt, e) == Some(q)
  {
    SizeStarts(fmt, c, e, q);
    LetterCodes(c.letter);
    LetterCodes(104);
    LetterCodes(108);
  }

  lemma LetterCodes(b: byte)
    ensures b in INTEGERS <==> IsInteger(b)
    ensures b in DOUBLES <==> IsDouble(b)
  {
    assert INTEGERS == [100, 105, 111, 117, 120, 88];
    assert DOUBLES == [101, 69, 102, 70, 103, 71, 97, 65];
  }

  lemma NumberAt(c: Conversion, text: bytes, rest: bytes, args: seq<VarArg>)
    requires c.WellFormed() && text == c.Text() && |text| < 14 && args != [] && args[0].Number?
    ensures NextToken(text + rest, args) == Token(Text(args[0].printed(text)), |text|, 1)
  {
    var fmt := text + rest;
    var a, b, e, q := ConversionSpelled(c, rest, fmt);
    NumberNext(fmt, c, a, b, e, q, args);
  }

  lemma NumberNext(fmt: bytes, c: Conversion, a: nat, b: nat, e: nat, q: nat, args: seq<VarArg>)
    requires c.WellFormed() && Spelled(fmt, c, a, b, e, q) && fmt[0] == 37
    requires args != [] && args[0].Number?
    ensures NextToken(fmt, args) ==
      if q + 1 < 14 then Token(Text(args[0].printed(fmt[..q + 1])), q + 1, 1) else Token(Text([]), 2, 1)
  {
    PrefixPassed(fmt, c, a, b, e, q);
    LetterFound(fmt, c, e, q);
    NotSimple(fmt, c, a, b, e, q);
  }

  lemma NotSimple(fmt: bytes, c: Conversion, a: nat, b: nat, e: nat, q: nat)
    requires c.WellFormed() && Spelled(fmt, c, a, b, e, q)
    ensures fmt[1] != 115 && fmt[1] != 98 && fmt[1] != 37
  {
    SizeStarts(fmt, c, e, q);
  }

  /** A conversion that does not fit the buffer takes its argument, but prints nothing; what is
      behind its second byte is read again. */
  lemma LongConversion(c: Conversion, number: VarArg, rest: bytes, more: seq<VarArg>)
    requires c.WellFormed() && number.Number? && |c.Text()| >= 14
    ensures Pieces(c.Text() + rest, [number] + more) == Format.After([Text([])], Pieces(c.Text()[2..] + rest, more))
  {
    var fmt, args := c.Text() + rest, [number] + more;
    var a, b, e, q := ConversionSpelled(c, rest, fmt);
    NumberNext(fmt, c, a, b, e, q, args);
    assert fmt[2..] == c.Text()[2..] + rest && args[1..] == more;
    PiecesFirst(fmt, args, Token(Text([]), 2, 1), fmt[2..], more);
  }

  lemma ItemTaken(item: Item, rest: bytes, more: seq<VarArg>)
    requires item.WellFormed()
    ensures Takes(item.Text(), item.Args(), item.Value(), rest, more)
  {
    if item.Printed? {
      NumberAt(item.conversion, item.conversion.Text(), rest, [Number(item.printed)] + more);
    } else {
      SimpleTaken(item, rest, more);
    }
  }

  // ---- Words ----

  function Texts(word: seq<Item>): seq<Piece> {
    if word == [] then [] else [Text(word[0].Value())] + Texts(word[1..])
  }

  function Gap(n: nat): seq<Piece> {
    if n == 0 then [] else [Blank] + Gap(n - 1)
  }

  lemma AfterTwice(a: seq<Piece>, b: seq<Piece>, p: Parsed)
    ensures Format.After(a, Format.After(b, p)) == Format.After(a + b, p)
    ensures Format.After([], p) == p
  {
    if p.Parsed? {
      Sequences.Associate(a, b, p.pieces);
      assert [] + p.pieces == p.pieces;
    }
  }

  lemma {:induction false} WordPieces(word: seq<Item>, rest: bytes, more: seq<VarArg>)
    requires forall k :: 0 <= k < |word| ==> word[k].WellFormed()
    ensures Pieces(WordText(word) + rest, WordArgs(word) + more) == Format.After(Texts(word), Pieces(rest, more))
    decreases |word|
  {
    if word == [] {
      assert [] + rest == rest && [] + more == more;
      AfterTwice([], [], Pieces(rest, more));
    } else {
      var item, rest', more' := word[0], WordText(word[1..]) + rest, WordArgs(word[1..]) + more;
      WordPieces(word[1..], rest, more);
      Sequences.Associate(item.Text(), WordText(word[1..]), rest);
      Sequences.Associate(item.Args(), WordArgs(word[1..]), more);
      ItemPieces(item, rest', more');
      AfterTwice([Text(item.Value())], Texts(word[1..]), Pieces(rest, more));
    }
  }

  lemma ItemPieces(item: Item, rest: bytes, more: seq<VarArg>)
    requires item.WellFormed()
    ensures Pieces(item.Text() + rest, item.Args() + more) == Format.After([Text(item.Value())], Pieces(rest, more))
  {
    ItemTaken(item, rest, more);
    var fmt, args, t := item.Text() + rest, item.Args() + more, Token(Text(item.Value()), |item.Text()|, |item.Args()|);
    assert fmt[t.width..] == rest && args[t.used..] == more;
    PiecesFirst(fmt, args, t, rest, more);
  }

  lemma {:induction false} GapPieces(n: nat, rest: bytes, args: seq<VarArg>)
    ensures Pieces(Blanks(n) + rest, args) == Format.After(Gap(n), Pieces(rest, args))
  {
    if n == 0 {
      assert [] + rest == rest;
      AfterTwice([], [], Pieces(rest, args));
    } else {
      GapPieces(n - 1, rest, args);
      Sequences.Associate([32], Blanks(n - 1), rest);
      BlankPieces(Blanks(n - 1) + rest, args);
      AfterTwice([Blank], Gap(n - 1), Pieces(rest, args));
    }
  }

  lemma BlankPieces(rest: bytes, args: seq<VarArg>)
    ensures Pieces([32] + rest, args) == Format.After([Blank], Pieces(rest, args))
  {
    var fmt := [32] + rest;
    assert fmt[1..] == rest && args[0..] == args;
    PiecesFirst(fmt, args, Token(Blank, 1, 0), rest, args);
  }

  function PartsPieces(parts: seq<Part>): seq<Piece> {
    if parts == [] then [] else Texts(parts[0].word) + (Gap(parts[0].gap) + PartsPieces(parts[1..]))
  }

  lemma {:induction false} LinePieces(parts: seq<Part>, rest: bytes, more: seq<VarArg>)
    requires WellFormed(parts)
    ensures Pieces(PartsText(parts) + rest, PartsArgs(parts) + more) ==
            Format.After(PartsPieces(parts), Pieces(rest, more))
    decreases |parts|
  {
    if parts == [] {
      assert [] + rest == rest && [] + more == more;
      AfterTwice([], [], Pieces(rest, more));
    } else {
      LinePieces(parts[1..], rest, more);
      FirstPart(parts[0], PartsText(parts[1..]), PartsArgs(parts[1..]), rest, more);
      AfterTwice(Gap(parts[0].gap), PartsPieces(parts[1..]), Pieces(rest, more));
      AfterTwice(Texts(parts[0].word), Gap(parts[0].gap) + PartsPieces(parts[1..]), Pieces(rest, more));
    }
  }

  lemma FirstPart(part: Part, text: bytes, args: seq<VarArg>, rest: bytes, more: seq<VarArg>)
    requires forall k :: 0 <= k < |part.word| ==> part.word[k].WellFormed()
    ensures Pieces(WordText(part.word) + (Blanks(part.gap) + text) + rest, WordArgs(part.word) + args + more) ==
            Format.After(Texts(part.word), Format.After(Gap(part.gap), Pieces(text + rest, args + more)))
  {
    var word, gap := WordText(part.word), Blanks(part.gap);
    assert word + (gap + text) + rest == word + (gap + (text + rest));
    Sequences.Associate(WordArgs(part.word), args, more);
    WordPieces(part.word, gap + (text + rest), args + more);
    GapPieces(part.gap, text + rest, args + more);
  }

  // ---- The arguments ----

  lemma {:induction false} TextsShape(word: seq<Item>)
    ensures |Texts(word)| == |word| && forall k :: 0 <= k < |word| ==> Texts(word)[k] == Text(word[k].Value())
  {
    if word != [] {
      TextsShape(word[1..]);
    }
  }

  lemma {:induction false} TextsValue(word: seq<Item>)
    ensures Interpolate(Texts(word)) == WordValue(word)
    decreases |word|
  {
    TextsShape(word);
    if word != [] {
      var init := word[..|word| - 1];
      TextsShape(init);
      assert Texts(word)[..|word| - 1] == Texts(init);
      TextsValue(init);
    }
  }

  lemma {:induction false} GapSkipped(n: nat, pieces: seq<Piece>)
    ensures Words(Gap(n) + pieces) == Words(pieces)
  {
    if n == 0 {
      assert [] + pieces == pieces;
    } else {
      assert (Gap(n) + pieces)[1..] == Gap(n - 1) + pieces;
      GapSkipped(n - 1, pieces);
    }
  }

  lemma RunIs(pieces: seq<Piece>, n: nat)
    requires n <= |pieces| && (forall k :: 0 <= k < n ==> pieces[k].Text?) && (n < |pieces| ==> pieces[n].Blank?)
    ensures Run(pieces) == n
  {
  }

  lemma WordFirst(word: seq<Item>, gap: nat, pieces: seq<Piece>)
    requires word != [] && (pieces != [] ==> gap > 0)
    ensures Words(Texts(word) + (Gap(gap) + pieces)) == [Texts(word)] + Words(pieces)
  {
    var all, rest := Texts(word) + (Gap(gap) + pieces), Gap(gap) + pieces;
    TextsShape(word);
    RunIs(all, |word|);
    assert all[..|word|] == Texts(word) && all[|word|..] == rest;
    FirstWord(all, |word|, Texts(word), rest);
    GapSkipped(gap, pieces);
  }

  lemma {:induction false} PartsWords(parts: seq<Part>)
    requires WellFormed(parts)
    ensures InterpolateAll(Words(PartsPieces(parts))) == PartsValues(parts)
    decreases |parts|
  {
    if parts != [] {
      var word, more := parts[0].word, PartsPieces(parts[1..]);
      PartsWords(parts[1..]);
      if parts[0].gap == 0 {
        assert parts[1..] == [];
      }
      WordFirst(word, parts[0].gap, more);
      TextsValue(word);
      InterpolateFirst(Texts(word), Words(more));
    }
  }

  lemma InterpolateFirst(word: seq<Piece>, words: seq<seq<Piece>>)
    ensures InterpolateAll([word] + words) == [Interpolate(word)] + InterpolateAll(words)
  {
  }

  /** A format of words between blanks stands for exactly the words, each put together from its
      own bytes and arguments. */
  lemma FormatStandsFor(lead: nat, parts: seq<Part>)
    requires WellFormed(parts)
    ensures Accepted(Blanks(lead) + PartsText(parts), PartsArgs(parts))
    ensures FormatArgs(Blanks(lead) + PartsText(parts), PartsArgs(parts)) == PartsValues(parts)
  {
    var text, args := PartsText(parts), PartsArgs(parts);
    LinePieces(parts, [], []);
    assert text + [] == text && args + [] == args && PartsPieces(parts) + [] == PartsPieces(parts);
    GapPieces(lead, text, args);
    GapSkipped(lead, PartsPieces(parts));
    PartsWords(parts);
  }

  /** Whatever words stand before, a conversion with another letter is refused. */
  lemma OtherLetterRefused(lead: nat, parts: seq<Part>, b: byte, rest: bytes, more: seq<VarArg>)
    requires WellFormed(parts) && b !in {37, 46, 98, 104, 108, 115} && !IsFlag(b) && !(48 <= b <= 57)
    requires !IsInteger(b) && !IsDouble(b)
    ensures Pieces(Blanks(lead) + (PartsText(parts) + ([37, b] + rest)), PartsArgs(parts) + more) == Invalid
  {
    var fmt := [37, b] + rest;
    LetterCodes(b);
    assert Prefixed(fmt, 1) == 1;
    LinePieces(parts, fmt, more);
    GapPieces(lead, PartsText(parts) + fmt, PartsArgs(parts) + more);
  }

  // ---- Arguments given as an array ----

  /** Memory that holds an argument with a NUL and more behind it. */
  function Terminated(args: seq<bytes>, behind: seq<bytes>): seq<bytes>
    requires |args| == |behind|
  {
    seq(|args|, i requires 0 <= i < |args| => args[i] + ([0] + behind[i]))
  }

  function Lengths(args: seq<bytes>): seq<nat> {
    seq(|args|, i requires 0 <= i < |args| => |args[i]|)
  }

  /** Without lengths arguments end at their NULs; with lengths they may hold NULs themselves. */
  lemma ArgvStandsFor(args: seq<bytes>, behind: seq<bytes>)
    requires |args| == |behind|
    ensures (forall i :: 0 <= i < |args| ==> 0 !in args[i]) ==> Args(Terminated(args, behind), None) == args
    ensures Args(Terminated(args, behind), Some(Lengths(args))) == args
  {
    if forall i :: 0 <= i < |args| ==> 0 !in args[i] {
      forall i | 0 <= i < |args| ensures Args(Terminated(args, behind), None)[i] == args[i] {
        CStringEnds(args[i], behind[i]);
      }
    }
  }
}
