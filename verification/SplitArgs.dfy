/**
 The escape printer and the quote-aware line splitter of the dynamic strings, and that
 the second reads back what the first prints.
 */
module SplitArgs {
  import opened Bytes
  import Sds
  import Sequences
  import opened Split

  const LOWER_A: byte := 97
  const LOWER_B: byte := 98
  const LOWER_F: byte := 102
  const LOWER_N: byte := 110
  const LOWER_R: byte := 114
  const LOWER_T: byte := 116
  const LOWER_X: byte := 120
  const UPPER_A: byte := 65
  const UPPER_F: byte := 70

  // ---- Printing ----

  /** isprint in the C locale. */
  predicate IsPrint(b: byte) {
    32 <= b <= 126
  }

  function HexChar(d: byte): (c: byte)
    requires d < 16
    ensures IsHexDigit(c) && HexValue(c) == d
  {
    if d < 10 then ZERO + d else LOWER_A + (d - 10)
  }

  /** How one byte is printed between quotes. */
  function Escape(b: byte): bytes {
    if b == BACKSLASH || b == QUOTE then [BACKSLASH, b]
    else if b == LF then [BACKSLASH, LOWER_N]
    else if b == CR then [BACKSLASH, LOWER_R]
    else if b == TAB then [BACKSLASH, LOWER_T]
    else if b == BEL then [BACKSLASH, LOWER_A]
    else if b == BS then [BACKSLASH, LOWER_B]
    else if IsPrint(b) then [b]
    else [BACKSLASH, LOWER_X, HexChar(b / 16), HexChar(b % 16)]
  }

  function Escapes(x: bytes): bytes {
    if x == [] then [] else Escape(x[0]) + Escapes(x[1..])
  }

  function Repr(x: bytes): bytes {
    [QUOTE] + (Escapes(x) + [QUOTE])
  }

  lemma {:induction false} EscapesSnoc(x: bytes, b: byte)
    ensures Escapes(x + [b]) == Escapes(x) + Escape(b)
  {
    if x == [] {
      assert ([b])[1..] == [];
    } else {
      EscapesSnoc(x[1..], b);
      assert (x + [b])[1..] == x[1..] + [b];
      Sequences.Associate(Escape(x[0]), Escapes(x[1..]), Escape(b));
    }
  }

  /** sdscatrepr. */
  method CatRepr(s: Sds.Sds, p: bytes)
    requires s.Valid()
    modifies s, s.buf
    ensures s.Valid() && s.Contents() == old(s.Contents()) + Repr(p)
    ensures s.buf == old(s.buf) || fresh(s.buf)
  {
    ghost var before := s.Contents();
    s.CatLen([QUOTE]);
    var i := 0;
    assert ReprPrefix(before, p, 0) == before + [QUOTE];
    while i < |p|
      invariant 0 <= i <= |p| && s.Valid() && (s.buf == old(s.buf) || fresh(s.buf))
      invariant s.Contents() == ReprPrefix(before, p, i)
    {
      ReprStep(before, p, i);
      CatEscape(s, p[i]);
      i := i + 1;
    }
    s.CatLen([QUOTE]);
    ReprDone(before, p);
  }

  /** The content while a representation is appended. */
  ghost function ReprPrefix(before: bytes, p: bytes, i: nat): bytes
    requires i <= |p|
  {
    before + [QUOTE] + Escapes(p[..i])
  }

  lemma ReprStep(before: bytes, p: bytes, i: nat)
    requires i < |p|
    ensures ReprPrefix(before, p, i + 1) == ReprPrefix(before, p, i) + Escape(p[i])
  {
    assert p[..i + 1] == p[..i] + [p[i]];
    EscapesSnoc(p[..i], p[i]);
    Sequences.Associate(before + [QUOTE], Escapes(p[..i]), Escape(p[i]));
  }

  lemma ReprDone(before: bytes, p: bytes)
    ensures ReprPrefix(before, p, |p|) + [QUOTE] == before + Repr(p)
  {
    assert p[..|p|] == p;
    Sequences.Associate(before + [QUOTE], Escapes(p), [QUOTE]);
    Sequences.Associate(before, [QUOTE], Escapes(p) + [QUOTE]);
  }

  method CatEscape(s: Sds.Sds, b: byte)
    requires s.Valid()
    modifies s, s.buf
    ensures s.Valid() && s.Contents() == old(s.Contents()) + Escape(b)
    ensures s.buf == old(s.buf) || fresh(s.buf)
  {
    match b {
      case 92 => s.CatLen([BACKSLASH, b]);
      case 34 => s.CatLen([BACKSLASH, b]);
      case 10 => s.CatLen([BACKSLASH, LOWER_N]);
      case 13 => s.CatLen([BACKSLASH, LOWER_R]);
      case 9 => s.CatLen([BACKSLASH, LOWER_T]);
      case 7 => s.CatLen([BACKSLASH, LOWER_A]);
      case 8 => s.CatLen([BACKSLASH, LOWER_B]);
      case _ =>
        if IsPrint(b) {
          s.CatLen([b]);
        } else {
          s.CatLen([BACKSLASH, LOWER_X, HexChar(b / 16), HexChar(b % 16)]);
        }
    }
  }

  // ---- Reading ----

  predicate IsHexDigit(c: byte) {
    IsDigit(c) || LOWER_A <= c <= LOWER_F || UPPER_A <= c <= UPPER_F
  }

  function HexValue(c: byte): (v: byte)
    ensures v < 16
  {
    if IsDigit(c) then c - ZERO
    else if LOWER_A <= c <= LOWER_F then c - LOWER_A + 10
    else if UPPER_A <= c <= UPPER_F then c - UPPER_A + 10
    else 0
  }

  /** The byte that a backslash and `c` stand for between double quotes. */
  function Unescape(c: byte): byte {
    if c == LOWER_N then LF
    else if c == LOWER_R then CR
    else if c == LOWER_T then TAB
    else if c == LOWER_B then BS
    else if c == LOWER_A then BEL
    else c
  }

  /** The line is a C string: what is behind its end reads as NUL. */
  function Peek(s: bytes, k: nat): byte {
    if k < |s| then s[k] else NUL
  }

  datatype Mode = Plain | Quoted | SingleQuoted

  /** What is read at one place of a token: a byte, an opening quote, the end of the
      token, or an error. */
  datatype Unit = Char(b: byte, used: nat) | Open(mode: Mode) | End(used: nat) | Bad

  /** A closing quote must be followed by a blank or by nothing. */
  function Closing(s: bytes, p: nat): Unit {
    if Peek(s, p + 1) != NUL && !IsSpace(Peek(s, p + 1)) then Bad else End(1)
  }

  /** What ends a word without quotes. */
  predicate IsBlank(b: byte) {
    b == SPACE || b == LF || b == CR || b == TAB
  }

  function ReadUnit(mode: Mode, s: bytes, p: nat): (u: Unit)
    requires p <= |s|
    ensures u.Char? ==> 1 <= u.used && p + u.used <= |s|
    ensures u.Open? ==> p < |s| && mode == Plain && u.mode != Plain
    ensures u.End? ==> p + u.used <= |s|
  {
    match mode
    case Quoted =>
      if && Peek(s, p) == BACKSLASH && Peek(s, p + 1) == LOWER_X
         && IsHexDigit(Peek(s, p + 2)) && IsHexDigit(Peek(s, p + 3))
      then
        Char(HexValue(Peek(s, p + 2)) * 16 + HexValue(Peek(s, p + 3)), 4)
      else if Peek(s, p) == BACKSLASH && Peek(s, p + 1) != NUL then Char(Unescape(Peek(s, p + 1)), 2)
      else if Peek(s, p) == QUOTE then Closing(s, p)
      else if Peek(s, p) == NUL then Bad
      else Char(Peek(s, p), 1)
    case SingleQuoted =>
      if Peek(s, p) == BACKSLASH && Peek(s, p + 1) == APOSTROPHE then Char(APOSTROPHE, 2)
      else if Peek(s, p) == APOSTROPHE then Closing(s, p)
      else if Peek(s, p) == NUL then Bad
      else Char(Peek(s, p), 1)
    case Plain =>
      if Peek(s, p) == NUL then End(0)
      else if IsBlank(Peek(s, p)) then End(1)
      else if Peek(s, p) == QUOTE then Open(Quoted)
      else if Peek(s, p) == APOSTROPHE then Open(SingleQuoted)
      else Char(Peek(s, p), 1)
  }

  datatype TokenResult = Got(token: bytes, next: nat) | Unbalanced

  /** One token from `p` on: its bytes, behind those read so far, and where it ends. */
  function Token(mode: Mode, s: bytes, p: nat, current: bytes): (r: TokenResult)
    requires p <= |s|
    ensures r.Got? ==> p <= r.next <= |s| && (!ReadUnit(mode, s, p).End? ==> p < r.next)
    decreases |s| - p
  {
    var u := ReadUnit(mode, s, p);
    if u.Char? then Token(mode, s, p + u.used, current + [u.b])
    else if u.Open? then Token(u.mode, s, p + 1, current)
    else if u.End? then Got(current, p + u.used)
    else Unbalanced
  }

  /** The tokens of a line from `p` on, or nothing when a quote is wrong. */
  function Args(s: bytes, p: nat): Option<seq<bytes>>
    requires p <= |s|
    decreases |s| - p
  {
    if p < |s| && IsSpace(s[p]) then Args(s, p + 1)
    else if Peek(s, p) == NUL then Some([])
    else
      var t := Token(Plain, s, p, []);
      if t.Unbalanced? then None else Prepend([t.token], Args(s, t.next))
  }

  function Prepend(ts: seq<bytes>, more: Option<seq<bytes>>): Option<seq<bytes>> {
    if more.None? then None else Some(ts + more.value)
  }

  lemma PrependAgain(ts: seq<bytes>, us: seq<bytes>, more: Option<seq<bytes>>)
    ensures Prepend(ts, Prepend(us, more)) == Prepend(ts + us, more)
    ensures Prepend([], more) == more
  {
    assert more.Some? ==> ts + (us + more.value) == (ts + us) + more.value;
    assert more.Some? ==> [] + more.value == more.value;
  }

  // ---- Reading what was printed ----

  /** `t` is in `s` at position `p`. */
  ghost predicate Has(s: bytes, p: nat, t: bytes)
    decreases |t|
  {
    p + |t| <= |s| && (t != [] ==> s[p] == t[0] && Has(s, p + 1, t[1..]))
  }

  lemma {:induction false} HasAt(s: bytes, p: nat, t: bytes, i: nat)
    requires Has(s, p, t) && i < |t|
    ensures p + i < |s| && s[p + i] == t[i]
    decreases |t|
  {
    if i > 0 {
      HasAt(s, p + 1, t[1..], i - 1);
    }
  }

  lemma {:induction false} HasSplits(s: bytes, p: nat, a: bytes, b: bytes)
    requires Has(s, p, a + b)
    ensures Has(s, p, a) && Has(s, p + |a|, b)
    decreases |a|
  {
    if a == [] {
      assert a + b == b;
    } else {
      assert (a + b)[1..] == a[1..] + b;
      HasSplits(s, p + 1, a[1..], b);
    }
  }

  lemma {:induction false} HasWhole(s: bytes, p: nat)
    requires p <= |s|
    ensures Has(s, p, s[p..])
    decreases |s| - p
  {
    if p < |s| {
      HasWhole(s, p + 1);
    }
  }

  /** Whatever follows, a printed byte reads as that byte. */
  lemma EscapeReads(b: byte, s: bytes, p: nat)
    requires Has(s, p, Escape(b))
    ensures ReadUnit(Quoted, s, p) == Char(b, |Escape(b)|)
  {
    HasAt(s, p, Escape(b), 0);
    if |Escape(b)| > 1 {
      HasAt(s, p, Escape(b), 1);
    }
    if |Escape(b)| == 4 {
      HasAt(s, p, Escape(b), 2);
      HasAt(s, p, Escape(b), 3);
    }
  }

  lemma TokenChar(mode: Mode, s: bytes, p: nat, current: bytes, b: byte, next: nat)
    requires p <= next <= |s| && ReadUnit(mode, s, p) == Char(b, next - p)
    ensures Token(mode, s, p, current) == Token(mode, s, next, current + [b])
  {
  }

  predicate Separated(s: bytes, p: nat) {
    Peek(s, p) == NUL || IsSpace(Peek(s, p))
  }

  lemma {:induction false} QuotedReads(x: bytes, s: bytes, p: nat, current: bytes, end: nat)
    requires Has(s, p, Escapes(x) + [QUOTE]) && end == p + |Escapes(x)| + 1 && Separated(s, end)
    ensures Token(Quoted, s, p, current) == Got(current + x, end)
    decreases |x|
  {
    if x == [] {
      QuotedEnd(s, p, current);
      assert current + x == current;
    } else {
      var more := Escapes(x[1..]) + [QUOTE];
      Sequences.Associate(Escape(x[0]), Escapes(x[1..]), [QUOTE]);
      var next := QuotedStep(x[0], more, s, p, current);
      QuotedReads(x[1..], s, next, current + [x[0]], end);
      Sequences.Associate(current, [x[0]], x[1..]);
      assert x == [x[0]] + x[1..];
    }
  }

  lemma QuotedEnd(s: bytes, p: nat, current: bytes)
    requires Has(s, p, [] + [QUOTE]) && Separated(s, p + 1)
    ensures Token(Quoted, s, p, current) == Got(current, p + 1)
  {
    HasAt(s, p, [] + [QUOTE], 0);
    assert ReadUnit(Quoted, s, p) == End(1);
  }

  lemma QuotedStep(b: byte, more: bytes, s: bytes, p: nat, current: bytes) returns (next: nat)
    requires Has(s, p, Escape(b) + more)
    ensures next == p + |Escape(b)| && Has(s, next, more)
    ensures Token(Quoted, s, p, current) == Token(Quoted, s, next, current + [b])
  {
    HasSplits(s, p, Escape(b), more);
    EscapeReads(b, s, p);
    next := p + |Escape(b)|;
    TokenChar(Quoted, s, p, current, b, next);
  }

  lemma ReprReads(x: bytes, s: bytes, p: nat)
    requires Has(s, p, Repr(x)) && Separated(s, p + |Repr(x)|)
    ensures Token(Plain, s, p, []) == Got(x, p + |Repr(x)|)
  {
    HasSplits(s, p, [QUOTE], Escapes(x) + [QUOTE]);
    HasAt(s, p, Repr(x), 0);
    assert ReadUnit(Plain, s, p) == Open(Quoted);
    QuotedReads(x, s, p + 1, [], p + |Repr(x)|);
    assert [] + x == x;
  }

  function Reprs(xs: seq<bytes>): seq<bytes> {
    seq(|xs|, i requires 0 <= i < |xs| => Repr(xs[i]))
  }

  predicate Blank(t: bytes) {
    forall i :: 0 <= i < |t| ==> IsSpace(t[i])
  }

  lemma {:induction false} BlanksSkipped(blanks: bytes, s: bytes, p: nat)
    requires Has(s, p, blanks) && Blank(blanks)
    ensures Args(s, p) == Args(s, p + |blanks|)
  {
    if blanks != [] {
      HasAt(s, p, blanks, 0);
      assert blanks == [blanks[0]] + blanks[1..];
      HasSplits(s, p, [blanks[0]], blanks[1..]);
      BlanksSkipped(blanks[1..], s, p + 1);
    }
  }

  lemma ArgsFirst(x: bytes, s: bytes, p: nat)
    requires Has(s, p, Repr(x)) && Separated(s, p + |Repr(x)|)
    ensures Args(s, p) == Prepend([x], Args(s, p + |Repr(x)|))
  {
    ReprReads(x, s, p);
    HasAt(s, p, Repr(x), 0);
  }

  lemma {:induction false} LineReads(xs: seq<bytes>, blanks: bytes, s: bytes, p: nat)
    requires blanks != [] && Blank(blanks)
    requires Has(s, p, Join(Reprs(xs), blanks)) && p + |Join(Reprs(xs), blanks)| == |s|
    ensures Args(s, p) == Some(xs)
    decreases |xs|
  {
    if |xs| == 1 {
      ArgsFirst(xs[0], s, p);
      assert xs == [xs[0]] + [];
    } else if xs != [] {
      var more := Join(Reprs(xs[1..]), blanks);
      assert Reprs(xs)[1..] == Reprs(xs[1..]);
      var next := p + |Repr(xs[0])| + |blanks|;
      StepOver(xs[0], blanks, more, s, p, next);
      LineReads(xs[1..], blanks, s, next);
      assert xs == [xs[0]] + xs[1..];
    }
  }

  lemma StepOver(x: bytes, blanks: bytes, more: bytes, s: bytes, p: nat, next: nat)
    requires blanks != [] && Blank(blanks) && Has(s, p, Repr(x) + (blanks + more)) && next == p + |Repr(x)| + |blanks|
    ensures Has(s, next, more) && Args(s, p) == Prepend([x], Args(s, next))
  {
    var q := p + |Repr(x)|;
    HasSplits(s, p, Repr(x), blanks + more);
    HasSplits(s, q, blanks, more);
    HasAt(s, q, blanks, 0);
    BlanksSkipped(blanks, s, q);
    ArgsFirst(x, s, p);
  }

  /** The round trip: any list of byte strings, printed and joined with blanks, is split
      into exactly that list. */
  lemma SplitUndoesRepr(xs: seq<bytes>, blanks: bytes)
    requires blanks != [] && Blank(blanks)
    ensures Args(Join(Reprs(xs), blanks), 0) == Some(xs)
  {
    var line := Join(Reprs(xs), blanks);
    HasWhole(line, 0);
    assert line[0..] == line;
    LineReads(xs, blanks, line, 0);
  }

  // ---- The methods ----

  function ModeOf(inq: bool, insq: bool): Mode {
    if inq then Quoted else if insq then SingleQuoted else Plain
  }

  /** sdssplitargs. */
  method SplitLine(line: bytes) returns (vector: Option<seq<bytes>>)
    ensures vector == Args(line, 0)
  {
    var p, tokens: seq<bytes> := 0, [];
    PrependAgain([], [], Args(line, 0));
    while true
      invariant p <= |line|
      invariant Args(line, 0) == Prepend(tokens, Args(line, p))
      decreases |line| - p
    {
      p := SkipBlanks(line, p);
      if Peek(line, p) == NUL {
        assert tokens + [] == tokens;
        return Some(tokens);
      }
      var current, q := GetToken(line, p);
      if current.None? {
        return None;
      }
      PrependAgain(tokens, [current.value], Args(line, q));
      tokens := tokens + [current.value];
      p := q;
    }
  }

  method SkipBlanks(line: bytes, start: nat) returns (p: nat)
    requires start <= |line|
    ensures start <= p <= |line| && Args(line, p) == Args(line, start)
    ensures Peek(line, p) == NUL || !IsSpace(line[p])
  {
    p := start;
    while Peek(line, p) != NUL && IsSpace(Peek(line, p))
      invariant start <= p <= |line| && Args(line, p) == Args(line, start)
      decreases |line| - p
    {
      p := p + 1;
    }
  }

  /** The cursor is at the last byte of the unit that was at `p`, which is a byte or the
      closing quote. */
  ghost predicate Consumed(u: Unit, line: bytes, p: nat, cur: bytes, done: bool, p': nat, cur': bytes) {
    && p <= p' < |line| && line[p'] != NUL
    && if done then u.End? && p' + 1 == p + u.used && cur' == cur
       else u.Char? && p' + 1 == p + u.used && cur' == cur + [u.b]
  }

  method InQuotes(line: bytes, p: nat, cur: bytes) returns (ok: bool, done: bool, p': nat, cur': bytes)
    requires p <= |line|
    ensures if ok then Consumed(ReadUnit(Quoted, line, p), line, p, cur, done, p', cur')
            else ReadUnit(Quoted, line, p) == Bad && p' <= |line|
  {
    ok, done, p', cur' := true, false, p, cur;
    if Peek(line, p) == BACKSLASH && Peek(line, p + 1) == LOWER_X
       && IsHexDigit(Peek(line, p + 2)) && IsHexDigit(Peek(line, p + 3))
    {
      cur' := cur + [HexValue(line[p + 2]) * 16 + HexValue(line[p + 3])];
      p' := p + 3;
    } else if Peek(line, p) == BACKSLASH && Peek(line, p + 1) != NUL {
      p' := p + 1;
      cur' := cur + [Unescape(line[p'])];
    } else if Peek(line, p) == QUOTE {
      if Peek(line, p + 1) != NUL && !IsSpace(Peek(line, p + 1)) {
        ok := false;
      }
      done := true;
    } else if Peek(line, p) == NUL {
      ok := false;
    } else {
      cur' := cur + [line[p]];
    }
  }

  method InSingleQuotes(line: bytes, p: nat, cur: bytes) returns (ok: bool, done: bool, p': nat, cur': bytes)
    requires p <= |line|
    ensures if ok then Consumed(ReadUnit(SingleQuoted, line, p), line, p, cur, done, p', cur')
            else ReadUnit(SingleQuoted, line, p) == Bad && p' <= |line|
  {
    ok, done, p', cur' := true, false, p, cur;
    if Peek(line, p) == BACKSLASH && Peek(line, p + 1) == APOSTROPHE {
      p' := p + 1;
      cur' := cur + [APOSTROPHE];
    } else if Peek(line, p) == APOSTROPHE {
      if Peek(line, p + 1) != NUL && !IsSpace(Peek(line, p + 1)) {
        ok := false;
      }
      done := true;
    } else if Peek(line, p) == NUL {
      ok := false;
    } else {
      cur' := cur + [line[p]];
    }
  }

  /** The loop over one token. */
  method GetToken(line: bytes, start: nat) returns (current: Option<bytes>, p: nat)
    requires start <= |line|
    ensures p <= |line|
    ensures Token(Plain, line, start, []) == if current.None? then Unbalanced else Got(current.value, p)
  {
    var inq, insq, done, cur := false, false, false, [];
    p := start;
    while !done
      invariant start <= p <= |line| && !(inq && insq)
      invariant Token(Plain, line, start, []) == if done then Got(cur, p) else Token(ModeOf(inq, insq), line, p, cur)
      decreases !done, |line| - p
    {
      if inq || insq {
        var ok;
        if inq {
          ok, done, p, cur := InQuotes(line, p, cur);
        } else {
          ok, done, p, cur := InSingleQuotes(line, p, cur);
        }
        if !ok {
          return None, p;
        }
      } else {
        match Peek(line, p) {
          case 32 => done := true;
          case 10 => done := true;
          case 13 => done := true;
          case 9 => done := true;
          case 0 => done := true;
          case 34 => inq := true;
          case 39 => insq := true;
          case _ => cur := cur + [line[p]];
        }
      }
      if Peek(line, p) != NUL {
        p := p + 1;
      }
    }
    return Some(cur), p;
  }
}
