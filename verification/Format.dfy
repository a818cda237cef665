/**
 The command formatters of hiredis.c. Each computes the length of its output in
 advance and then fills a buffer of that length; all of them produce the wire
 format of the arguments they are given.
 */
module Format {
  import opened Bytes
  import opened Numerals
  import opened Wire
  import Sds

  // ---- Arguments given as an array ----

  /** The arguments meant by argv and argvlen: with lengths, that many bytes of each;
      without, the bytes before the first NUL. */
  function Args(argv: seq<bytes>, argvlen: Option<seq<nat>>): (args: seq<bytes>)
    requires argvlen.Some? ==>
      |argvlen.value| == |argv| && forall j :: 0 <= j < |argv| ==> argvlen.value[j] <= |argv[j]|
    ensures |args| == |argv|
  {
    match argvlen
    case Some(lens) => seq(|argv|, j requires 0 <= j < |argv| => argv[j][..lens[j]])
    case None => seq(|argv|, j requires 0 <= j < |argv| => CString(argv[j]))
  }

  /** bulklen: the length of a bulk text. */
  method BulkLen(len: nat) returns (n: nat)
    ensures forall arg: bytes :: |arg| == len ==> |BulkText(arg)| == n
  {
    var digits := CountDigits(len);
    n := 1 + digits + 2 + len + 2;
  }

  lemma BulkTextsSnoc(args: seq<bytes>, k: nat)
    requires k < |args|
    ensures BulkTexts(args[..k + 1]) == BulkTexts(args[..k]) + BulkText(args[k])
  {
    assert args[..k + 1][..k] == args[..k];
  }

  /** The exact size of a command, before any of it is written. */
  method CommandLength(args: seq<bytes>) returns (totlen: nat)
    ensures totlen == |Encode(args)|
  {
    var digits := CountDigits(|args|);
    totlen := 1 + digits + 2;
    for j := 0 to |args|
      invariant totlen == |CountText(|args|)| + |BulkTexts(args[..j])|
    {
      BulkTextsSnoc(args, j);
      var n := BulkLen(|args[j]|);
      totlen := totlen + n;
    }
    assert args[..|args|] == args;
  }

  /** Appends `t` to the first `pos` bytes of the buffer. */
  method Emit(cmd: array<byte>, pos: nat, t: bytes) returns (pos': nat)
    requires pos + |t| <= cmd.Length
    modifies cmd
    ensures pos' == pos + |t| && cmd[..pos'] == old(cmd[..pos]) + t
  {
    Sds.CopyInto(cmd, pos, t);
    pos' := pos + |t|;
    assert cmd[..pos'] == cmd[..pos] + cmd[pos..pos'];
  }

  /** Fills a buffer of the precomputed length; the length is exactly used up. */
  method WriteCommand(args: seq<bytes>, totlen: nat) returns (cmd: array<byte>)
    requires totlen == |Encode(args)|
    ensures fresh(cmd) && cmd.Length == totlen + 1
    ensures cmd[..totlen] == Encode(args) && cmd[totlen] == NUL
  {
    cmd := new byte[totlen + 1];
    PrefixOf(args, 0);
    assert args[..0] == [];
    var pos := Emit(cmd, 0, CountText(|args|));
    assert cmd[..pos] == Prefix(args, 0);
    for j := 0 to |args|
      invariant 0 <= pos <= totlen && cmd[..pos] == Prefix(args, j)
    {
      PrefixStep(args, j);
      PrefixOf(args, j + 1);
      pos := EmitBulk(cmd, pos, args[j]);
    }
    assert args[..|args|] == args;
    assert pos == totlen;
    cmd[pos] := NUL;
  }

  method EmitBulk(cmd: array<byte>, pos: nat, arg: bytes) returns (pos': nat)
    requires pos + |BulkText(arg)| <= cmd.Length
    modifies cmd
    ensures pos' == pos + |BulkText(arg)| && cmd[..pos'] == old(cmd[..pos]) + BulkText(arg)
  {
    ghost var before := cmd[..pos];
    var head := [DOLLAR] + Decimal(|arg|) + CRLF;
    pos' := Emit(cmd, pos, head);
    pos' := Emit(cmd, pos', arg);
    pos' := Emit(cmd, pos', CRLF);
    assert before + head + arg + CRLF == before + BulkText(arg);
  }

  /** redisFormatCommandArgv. */
  method FormatCommandArgv(argv: seq<bytes>, argvlen: Option<seq<nat>>) returns (cmd: array<byte>, totlen: nat)
    requires argvlen.Some? ==>
      |argvlen.value| == |argv| && forall j :: 0 <= j < |argv| ==> argvlen.value[j] <= |argv[j]|
    ensures fresh(cmd) && cmd.Length == totlen + 1
    ensures cmd[..totlen] == Encode(Args(argv, argvlen)) && cmd[totlen] == NUL
  {
    var args := Args(argv, argvlen);
    totlen := CommandLength(args);
    cmd := WriteCommand(args, totlen);
  }

  // ---- The same command in a dynamic string ----

  const COUNT_FORMAT: bytes := [STAR, PERCENT, Sds.LOWER_I, CR, LF]
  const LENGTH_FORMAT: bytes := [DOLLAR, PERCENT, Sds.UPPER_T, CR, LF]

  lemma RenderTail(args: seq<Sds.Arg>)
    ensures Sds.Render(CRLF, args) == Some(CRLF)
  {
    assert CRLF[1..] == [LF] && [LF][1..] == [];
    assert Sds.Render([], args) == Some([]);
    assert Sds.Render([LF], args) == Some([LF] + []);
    assert [CR] + ([LF] + []) == CRLF;
  }

  /** The two formats print a sign, a number and a line break. */
  lemma RenderNumber(sign: byte, conversion: byte, n: nat)
    requires sign != PERCENT
    requires
      || (conversion == Sds.LOWER_I && n < 0x8000_0000)
      || (conversion == Sds.UPPER_T && n < 0x1_0000_0000_0000_0000)
    ensures Sds.Render([sign, PERCENT, conversion, CR, LF], [Sds.Num(n)]) == Some([sign] + Decimal(n) + CRLF)
  {
    var fmt, args := [sign, PERCENT, conversion, CR, LF], [Sds.Num(n)];
    var tail := fmt[1..];
    assert tail == [PERCENT, conversion, CR, LF] && tail[2..] == CRLF;
    RenderTail(Sds.Remaining(conversion, args));
    assert Sds.Render(tail, args) == Some(Decimal(n) + CRLF);
    assert [sign] + (Decimal(n) + CRLF) == [sign] + Decimal(n) + CRLF;
  }

  /** redisFormatSdsCommandArgv: numbers are printed by digit reversal, and the
      precomputed length is again exact. The limits are those of int and size_t. */
  method FormatSdsCommandArgv(argv: seq<bytes>, argvlen: Option<seq<nat>>) returns (cmd: Sds.Sds, totlen: nat)
    requires argvlen.Some? ==>
      |argvlen.value| == |argv| && forall j :: 0 <= j < |argv| ==> argvlen.value[j] <= |argv[j]|
    requires |argv| < 0x8000_0000
    requires forall j :: 0 <= j < |argv| ==> |argv[j]| < 0x1_0000_0000_0000_0000
    ensures fresh(cmd) && cmd.Valid() && cmd.len == totlen
    ensures cmd.Contents() == Encode(Args(argv, argvlen))
  {
    var args := Args(argv, argvlen);
    totlen := CommandLength(args);
    cmd := new Sds.Sds([]);
    cmd.MakeRoomFor(totlen);
    RenderNumber(STAR, Sds.LOWER_I, |args|);
    cmd.CatFmt(COUNT_FORMAT, [Sds.Num(|args|)]);
    assert args[..0] == [];
    assert cmd.Contents() == Prefix(args, 0);
    for j := 0 to |args|
      invariant fresh(cmd) && fresh(cmd.buf) && cmd.Valid()
      invariant cmd.Contents() == Prefix(args, j)
    {
      PrefixStep(args, j);
      CatBulk(cmd, args[j]);
    }
    assert args[..|args|] == args;
    assert cmd.len == totlen by { assert |cmd.Contents()| == cmd.len; }
  }

  method CatBulk(cmd: Sds.Sds, arg: bytes)
    requires cmd.Valid() && |arg| < 0x1_0000_0000_0000_0000
    modifies cmd, cmd.buf
    ensures cmd.Valid() && cmd.Contents() == old(cmd.Contents()) + BulkText(arg)
    ensures cmd.buf == old(cmd.buf) || fresh(cmd.buf)
  {
    ghost var before, head := cmd.Contents(), [DOLLAR] + Decimal(|arg|) + CRLF;
    RenderNumber(DOLLAR, Sds.UPPER_T, |arg|);
    cmd.CatFmt(LENGTH_FORMAT, [Sds.Num(|arg|)]);
    cmd.CatLen(arg);
    cmd.CatLen(CRLF);
    assert before + head + arg + CRLF == before + BulkText(arg);
  }

  // ---- Commands given as a printf-like format ----

  /** An argument of the format: a C string for %s, a pointer with a size for %b, or a
      number, of which only matters what vsnprintf prints for it under a conversion. */
  datatype VarArg = CStr(memory: bytes) | Bin(memory: bytes, size: nat) | Number(printed: bytes -> bytes)

  /** A format is read as bytes, blanks and interpolated texts. */
  datatype Piece = Blank | Text(text: bytes)

  const LOWER_B: byte := 98
  const LOWER_H: byte := 104
  const LOWER_L: byte := 108

  /** The bytes of "diouxX", "eEfFgGaA" and "#0-+ ". */
  const INTEGERS: bytes := [100, 105, 111, 117, 120, 88]
  const DOUBLES: bytes := [101, 69, 102, 70, 103, 71, 97, 65]
  const FLAGS: bytes := [HASH, ZERO, MINUS, PLUS, SPACE]

  /** Conversions shorter than this are printed. */
  const CONVERSION_LIMIT: nat := 14

  function SkipFlags(fmt: bytes, p: nat): (q: nat)
    requires p <= |fmt|
    ensures p <= q <= |fmt|
    decreases |fmt| - p
  {
    if p < |fmt| && fmt[p] in FLAGS then SkipFlags(fmt, p + 1) else p
  }

  function SkipDigits(fmt: bytes, p: nat): (q: nat)
    requires p <= |fmt|
    ensures p <= q <= |fmt|
    decreases |fmt| - p
  {
    if p < |fmt| && IsDigit(fmt[p]) then SkipDigits(fmt, p + 1) else p
  }

  /** Where the flags, the width and the precision behind a percent sign end. */
  function Prefixed(fmt: bytes, p: nat): (q: nat)
    requires p <= |fmt|
    ensures p <= q <= |fmt|
  {
    var w := SkipDigits(fmt, SkipFlags(fmt, p));
    if w < |fmt| && fmt[w] == DOT then SkipDigits(fmt, w + 1) else w
  }

  /** The letter of a number's conversion, from where its flags, width and precision end. */
  function Letter(fmt: bytes, p: nat): (q: Option<nat>)
    requires p < |fmt|
    ensures q.Some? ==> p <= q.value < |fmt|
  {
    if fmt[p] in INTEGERS || fmt[p] in DOUBLES then Some(p)
    else if fmt[p] == LOWER_H || fmt[p] == LOWER_L then
      var q := if p + 1 < |fmt| && fmt[p + 1] == fmt[p] then p + 2 else p + 1;
      if q < |fmt| && fmt[q] in INTEGERS then Some(q) else None
    else None
  }

  /** One step over a format: the piece, how many format bytes and how many arguments it
      takes; a conversion that is refused; or one that has no meaning, because its argument
      is missing or of another kind, or the format ends inside it. */
  datatype Token = Token(piece: Piece, width: nat, used: nat) | Refused | Meaningless

  /** A conversion that is too long is not printed; its first two bytes are skipped, and the
      others are read again as text. */
  function NumberToken(fmt: bytes, args: seq<VarArg>, q: nat): (t: Token)
    requires 2 <= q + 1 <= |fmt|
    ensures t.Token? ==> 1 <= t.width <= |fmt| && t.used <= |args|
  {
    if args == [] || !args[0].Number? then Meaningless
    else if q + 1 < CONVERSION_LIMIT then Token(Text(args[0].printed(fmt[..q + 1])), q + 1, 1)
    else Token(Text([]), 2, 1)
  }

  function NextToken(fmt: bytes, args: seq<VarArg>): (t: Token)
    requires fmt != []
    ensures t.Token? ==> 1 <= t.width <= |fmt| && t.used <= |args|
  {
    if fmt[0] != PERCENT || |fmt| == 1 then
      Token(if fmt[0] == SPACE then Blank else Text([fmt[0]]), 1, 0)
    else if fmt[1] == Sds.LOWER_S then
      if args != [] && args[0].CStr? then Token(Text(CString(args[0].memory)), 2, 1) else Meaningless
    else if fmt[1] == LOWER_B then
      if args != [] && args[0].Bin? && args[0].size <= |args[0].memory|
      then Token(Text(args[0].memory[..args[0].size]), 2, 1) else Meaningless
    else if fmt[1] == PERCENT then Token(Text([PERCENT]), 2, 0)
    else
      var p := Prefixed(fmt, 1);
      if p == |fmt| then Meaningless
      else
        var q := Letter(fmt, p);
        if q.None? then Refused else NumberToken(fmt, args, q.value)
  }

  datatype Parsed = Parsed(pieces: seq<Piece>) | Invalid | Undefined

  function After(done: seq<Piece>, rest: Parsed): Parsed {
    if rest.Parsed? then Parsed(done + rest.pieces) else rest
  }

  function Pieces(fmt: bytes, args: seq<VarArg>): Parsed
    decreases |fmt|
  {
    if fmt == [] then Parsed([])
    else
      var t := NextToken(fmt, args);
      if t.Refused? then Invalid
      else if t.Meaningless? then Undefined
      else After([t.piece], Pieces(fmt[t.width..], args[t.used..]))
  }

  /** The length of the leading run of pieces without a blank. */
  function Run(pieces: seq<Piece>): (n: nat)
    ensures n <= |pieces|
    ensures forall k :: 0 <= k < n ==> pieces[k].Text?
    ensures n < |pieces| ==> pieces[n].Blank?
  {
    if pieces == [] || pieces[0].Blank? then 0 else 1 + Run(pieces[1..])
  }

  /** The format split on blanks: its maximal non-empty runs. */
  function Words(pieces: seq<Piece>): seq<seq<Piece>>
    decreases |pieces|
  {
    if pieces == [] then []
    else if pieces[0].Blank? then Words(pieces[1..])
    else [pieces[..Run(pieces)]] + Words(pieces[Run(pieces)..])
  }

  function Interpolate(word: seq<Piece>): bytes {
    if word == [] then []
    else
      var last := word[|word| - 1];
      Interpolate(word[..|word| - 1]) + if last.Text? then last.text else []
  }

  function InterpolateAll(words: seq<seq<Piece>>): seq<bytes> {
    seq(|words|, i requires 0 <= i < |words| => Interpolate(words[i]))
  }

  /** The arguments fit the format, up to a conversion that is refused. */
  predicate Supported(fmt: bytes, args: seq<VarArg>) {
    !Pieces(fmt, args).Undefined?
  }

  predicate Accepted(fmt: bytes, args: seq<VarArg>) {
    Pieces(fmt, args).Parsed?
  }

  /** The arguments a format stands for: split on blanks first, interpolate afterwards. */
  function FormatArgs(fmt: bytes, args: seq<VarArg>): seq<bytes>
    requires Accepted(fmt, args)
  {
    InterpolateAll(Words(Pieces(fmt, args).pieces))
  }

  // ---- Splitting piece by piece ----

  predicate EndsInWord(pieces: seq<Piece>) {
    pieces != [] && pieces[|pieces| - 1].Text?
  }

  lemma {:induction false} WordsBlank(pieces: seq<Piece>)
    ensures Words(pieces + [Blank]) == Words(pieces)
    decreases |pieces|
  {
    var all := pieces + [Blank];
    if pieces == [] {
      assert all[1..] == [];
    } else if pieces[0].Blank? {
      assert all[1..] == pieces[1..] + [Blank];
      WordsBlank(pieces[1..]);
    } else {
      var n := Run(pieces);
      RunSnoc(pieces, Blank);
      assert all[..n] == pieces[..n] && all[n..] == pieces[n..] + [Blank];
      WordsBlank(pieces[n..]);
    }
  }

  lemma {:induction false} RunSnoc(pieces: seq<Piece>, p: Piece)
    ensures Run(pieces + [p]) ==
      if Run(pieces) == |pieces| && p.Text? then |pieces| + 1 else Run(pieces)
    decreases |pieces|
  {
    var all := pieces + [p];
    if pieces == [] {
      assert all[1..] == [];
    } else if pieces[0].Text? {
      assert all[1..] == pieces[1..] + [p];
      RunSnoc(pieces[1..], p);
    }
  }

  /** The words `w'` after a text piece was added to pieces with the words `w`: it extends
      the current word, or starts a new one. */
  ghost predicate TextAdded(ends: bool, w: seq<seq<Piece>>, w': seq<seq<Piece>>, p: Piece) {
    if ends then w != [] && w' == w[..|w| - 1] + [w[|w| - 1] + [p]] else w' == w + [[p]]
  }

  lemma {:induction false} WordsText(pieces: seq<Piece>, p: Piece)
    requires p.Text?
    ensures TextAdded(EndsInWord(pieces), Words(pieces), Words(pieces + [p]), p)
    decreases |pieces|
  {
    var all := pieces + [p];
    if pieces == [] {
      OneText(all, p);
    } else if pieces[0].Blank? {
      assert all[1..] == pieces[1..] + [p];
      WordsText(pieces[1..], p);
    } else {
      var n := Run(pieces);
      RunSnoc(pieces, p);
      if n == |pieces| {
        OneWord(pieces);
        OneWord(all);
      } else {
        WordsText(pieces[n..], p);
        TextBehindWord(pieces, all, n, pieces[..n], pieces[n..], p);
      }
    }
  }

  lemma TextBehindWord(pieces: seq<Piece>, all: seq<Piece>, n: nat, first: seq<Piece>, rest: seq<Piece>, p: Piece)
    requires pieces != [] && !pieces[0].Blank? && all == pieces + [p] && n == Run(pieces) == Run(all) < |pieces|
    requires first == pieces[..n] && rest == pieces[n..]
    requires TextAdded(EndsInWord(rest), Words(rest), Words(rest + [p]), p)
    ensures TextAdded(EndsInWord(pieces), Words(pieces), Words(all), p)
  {
    assert all[..n] == first && all[n..] == rest + [p];
    FirstWord(pieces, n, first, rest);
    FirstWord(all, n, first, rest + [p]);
    Extended(EndsInWord(rest), first, Words(rest), Words(rest + [p]), p);
  }

  lemma OneText(all: seq<Piece>, p: Piece)
    requires all == [] + [p] && p.Text?
    ensures Words(all) == [] + [[p]]
  {
    RunSnoc([], p);
    OneWord(all);
    assert all == [p];
  }

  lemma FirstWord(pieces: seq<Piece>, n: nat, first: seq<Piece>, rest: seq<Piece>)
    requires pieces != [] && !pieces[0].Blank? && n == Run(pieces) && first == pieces[..n] && rest == pieces[n..]
    ensures Words(pieces) == [first] + Words(rest)
  {
  }

  lemma OneWord(pieces: seq<Piece>)
    requires pieces != [] && !pieces[0].Blank? && Run(pieces) == |pieces|
    ensures Words(pieces) == [pieces]
  {
    assert pieces[..|pieces|] == pieces && pieces[|pieces|..] == [];
  }

  lemma Extended(ends: bool, first: seq<Piece>, w: seq<seq<Piece>>, w': seq<seq<Piece>>, p: Piece)
    requires TextAdded(ends, w, w', p)
    ensures TextAdded(ends, [first] + w, [first] + w', p)
  {
    if ends {
      assert [first] + (w[..|w| - 1] + [w[|w| - 1] + [p]]) == ([first] + w)[..|w|] + [([first] + w)[|w|] + [p]];
    } else {
      assert [first] + (w + [[p]]) == [first] + w + [[p]];
    }
  }

  // ---- redisvFormatCommand ----

  /** The arguments finished so far and the one being built, after reading `done`. */
  ghost predicate Built(done: seq<Piece>, argv: seq<bytes>, cur: bytes, touched: bool) {
    var w := Words(done);
    && touched == EndsInWord(done)
    && if touched then w != [] && argv == InterpolateAll(w[..|w| - 1]) && cur == Interpolate(w[|w| - 1])
       else argv == InterpolateAll(w) && cur == []
  }

  lemma BuiltBlank(done: seq<Piece>, argv: seq<bytes>, cur: bytes, touched: bool)
    requires Built(done, argv, cur, touched)
    ensures Built(done + [Blank], if touched then argv + [cur] else argv, [], false)
  {
    WordsBlank(done);
    var w := Words(done);
    if touched {
      assert InterpolateAll(w) == InterpolateAll(w[..|w| - 1]) + [Interpolate(w[|w| - 1])];
    }
  }

  lemma BuiltText(done: seq<Piece>, argv: seq<bytes>, cur: bytes, touched: bool, p: Piece)
    requires Built(done, argv, cur, touched) && p.Text?
    ensures Built(done + [p], argv, cur + p.text, true)
  {
    WordsText(done, p);
    var w := Words(done);
    var w' := Words(done + [p]);
    if touched {
      var word := w[|w| - 1] + [p];
      assert w' == w[..|w| - 1] + [word];
      assert w'[..|w'| - 1] == w[..|w| - 1] && w'[|w'| - 1] == word;
      assert word[..|word| - 1] == w[|w| - 1];
    } else {
      assert w'[..|w'| - 1] == w && w'[|w'| - 1] == [p];
      assert [p][..0] == [];
      assert cur + p.text == [] + p.text;
    }
  }

  /** The pieces `done` have been read; the rest are those of the format from `c` with
      the arguments from `a`. */
  ghost predicate ReadUpTo(fmt: bytes, args: seq<VarArg>, c: nat, a: nat, done: seq<Piece>) {
    && c <= |fmt| && a <= |args|
    && Supported(fmt, args)
    && Pieces(fmt, args) == After(done, Pieces(fmt[c..], args[a..]))
  }

  lemma ReadStep(fmt: bytes, args: seq<VarArg>, c: nat, a: nat, done: seq<Piece>, t: Token,
                 c': nat, a': nat, done': seq<Piece>)
    requires ReadUpTo(fmt, args, c, a, done) && c < |fmt| && t == NextToken(fmt[c..], args[a..]) && t.Token?
    requires c' == c + t.width && a' == a + t.used && done' == done + [t.piece]
    ensures ReadUpTo(fmt, args, c', a', done')
  {
    assert fmt[c..][t.width..] == fmt[c'..];
    assert args[a..][t.used..] == args[a'..];
    var rest := Pieces(fmt[c'..], args[a'..]);
    assert rest.Parsed? ==> done + ([t.piece] + rest.pieces) == done' + rest.pieces;
  }

  lemma ReadStop(fmt: bytes, args: seq<VarArg>, c: nat, a: nat, done: seq<Piece>)
    requires ReadUpTo(fmt, args, c, a, done) && c < |fmt|
    ensures !NextToken(fmt[c..], args[a..]).Meaningless?
    ensures NextToken(fmt[c..], args[a..]).Refused? ==> Pieces(fmt, args) == Invalid
  {
  }

  /** Looks for the end of the flags, the width and the precision. */
  method SkipPrefix(fmt: bytes, start: nat) returns (p: nat)
    requires start <= |fmt|
    ensures p == Prefixed(fmt, start)
  {
    p := start;
    while p < |fmt| && fmt[p] in FLAGS
      invariant start <= p <= |fmt| && SkipFlags(fmt, start) == SkipFlags(fmt, p)
    {
      p := p + 1;
    }
    p := PassDigits(fmt, p);
    if p < |fmt| && fmt[p] == DOT {
      p := PassDigits(fmt, p + 1);
    }
  }

  method PassDigits(fmt: bytes, start: nat) returns (p: nat)
    requires start <= |fmt|
    ensures p == SkipDigits(fmt, start)
  {
    p := start;
    while p < |fmt| && IsDigit(fmt[p])
      invariant start <= p <= |fmt| && SkipDigits(fmt, start) == SkipDigits(fmt, p)
    {
      p := p + 1;
    }
  }

  /** Tries to detect a printf conversion. */
  method DetectConversion(fmt: bytes, start: nat) returns (q: Option<nat>)
    requires start <= |fmt| && Prefixed(fmt, start) < |fmt|
    ensures q == Letter(fmt, Prefixed(fmt, start))
  {
    var p := SkipPrefix(fmt, start);
    if fmt[p] in INTEGERS || fmt[p] in DOUBLES {
      return Some(p);
    }
    if fmt[p] == LOWER_H && p + 1 < |fmt| && fmt[p + 1] == LOWER_H {
      p := p + 2;
    } else if fmt[p] == LOWER_H {
      p := p + 1;
    } else if fmt[p] == LOWER_L && p + 1 < |fmt| && fmt[p + 1] == LOWER_L {
      p := p + 2;
    } else if fmt[p] == LOWER_L {
      p := p + 1;
    } else {
      return None;
    }
    return if p < |fmt| && fmt[p] in INTEGERS then Some(p) else None;
  }

  /** Reads one conversion or byte at the start of a format. */
  method ReadToken(fmt: bytes, args: seq<VarArg>) returns (t: Token)
    requires fmt != [] && !NextToken(fmt, args).Meaningless?
    ensures t == NextToken(fmt, args)
  {
    if fmt[0] != PERCENT || |fmt| == 1 {
      return Token(if fmt[0] == SPACE then Blank else Text([fmt[0]]), 1, 0);
    }
    if fmt[1] == Sds.LOWER_S {
      return Token(Text(CString(args[0].memory)), 2, 1);
    }
    if fmt[1] == LOWER_B {
      return Token(Text(args[0].memory[..args[0].size]), 2, 1);
    }
    if fmt[1] == PERCENT {
      return Token(Text([PERCENT]), 2, 0);
    }
    var q := DetectConversion(fmt, 1);
    if q.None? {
      return Refused;
    }
    var l := q.value + 1;
    return if l < CONVERSION_LIMIT then Token(Text(args[0].printed(fmt[..l])), l, 1) else Token(Text([]), 2, 1);
  }

  method TakeToken(fmt: bytes, c: nat, args: seq<VarArg>, a: nat, ghost done: seq<Piece>)
    returns (piece: Option<Piece>, c': nat, a': nat)
    requires ReadUpTo(fmt, args, c, a, done) && c < |fmt|
    ensures piece.None? ==> Pieces(fmt, args) == Invalid
    ensures piece.Some? ==> c < c' <= |fmt| && a' <= |args| && ReadUpTo(fmt, args, c', a', done + [piece.value])
  {
    ReadStop(fmt, args, c, a, done);
    var t := ReadToken(fmt[c..], args[a..]);
    if t.Refused? {
      return None, c, a;
    }
    piece, c', a' := Some(t.piece), c + t.width, a + t.used;
    ReadStep(fmt, args, c, a, done, t, c', a', done + [t.piece]);
  }

  /** Collects the arguments of a format and the length of their bulk texts; nothing when a
      conversion is refused. */
  method CollectArgs(fmt: bytes, args: seq<VarArg>) returns (ok: bool, curargv: seq<bytes>, totlen: nat)
    requires Supported(fmt, args)
    ensures ok == Accepted(fmt, args)
    ensures ok ==> curargv == FormatArgs(fmt, args) && totlen == |BulkTexts(curargv)|
  {
    var c, a, curarg, touched := 0, 0, [], false;
    curargv, totlen := [], 0;
    ghost var done: seq<Piece> := [];
    ReadStart(fmt, args);
    while c < |fmt|
      invariant 0 <= c <= |fmt| && 0 <= a <= |args|
      invariant ReadUpTo(fmt, args, c, a, done)
      invariant Built(done, curargv, curarg, touched)
      invariant totlen == |BulkTexts(curargv)|
    {
      var piece: Option<Piece>;
      piece, c, a := TakeToken(fmt, c, args, a, done);
      if piece.None? {
        return false, [], 0;
      }
      curargv, totlen, curarg, touched := AddPiece(done, curargv, totlen, curarg, touched, piece.value);
      done := done + [piece.value];
    }
    ReadEnd(fmt, args, c, a, done);
    curargv, totlen := LastArg(done, curargv, totlen, curarg, touched);
    return true, curargv, totlen;
  }

  lemma ReadStart(fmt: bytes, args: seq<VarArg>)
    requires Supported(fmt, args)
    ensures ReadUpTo(fmt, args, 0, 0, [])
  {
    assert fmt[0..] == fmt && args[0..] == args;
    var all := Pieces(fmt, args);
    assert all.Parsed? ==> [] + all.pieces == all.pieces;
  }

  lemma ReadEnd(fmt: bytes, args: seq<VarArg>, c: nat, a: nat, done: seq<Piece>)
    requires ReadUpTo(fmt, args, c, a, done) && c == |fmt|
    ensures Pieces(fmt, args) == Parsed(done)
  {
    assert done + [] == done;
  }

  /** Adds the last argument if it was touched. */
  method LastArg(ghost done: seq<Piece>, argv: seq<bytes>, totlen: nat, cur: bytes, touched: bool)
    returns (argv': seq<bytes>, totlen': nat)
    requires Built(done, argv, cur, touched) && totlen == |BulkTexts(argv)|
    ensures argv' == InterpolateAll(Words(done)) && totlen' == |BulkTexts(argv')|
  {
    BuiltBlank(done, argv, cur, touched);
    WordsBlank(done);
    argv', totlen' := argv, totlen;
    if touched {
      argv', totlen' := PushArg(argv, totlen, cur);
    }
  }

  /** A blank ends the current argument; anything else extends it. */
  method AddPiece(ghost done: seq<Piece>, argv: seq<bytes>, totlen: nat, cur: bytes, touched: bool, piece: Piece)
    returns (argv': seq<bytes>, totlen': nat, cur': bytes, touched': bool)
    requires Built(done, argv, cur, touched) && totlen == |BulkTexts(argv)|
    ensures Built(done + [piece], argv', cur', touched') && totlen' == |BulkTexts(argv')|
  {
    argv', totlen' := argv, totlen;
    if piece.Blank? {
      BuiltBlank(done, argv, cur, touched);
      if touched {
        argv', totlen' := PushArg(argv, totlen, cur);
      }
      cur', touched' := [], false;
    } else {
      BuiltText(done, argv, cur, touched, piece);
      cur', touched' := cur + piece.text, true;
    }
  }

  method PushArg(argv: seq<bytes>, totlen: nat, arg: bytes) returns (argv': seq<bytes>, totlen': nat)
    requires totlen == |BulkTexts(argv)|
    ensures argv' == argv + [arg] && totlen' == |BulkTexts(argv')|
  {
    argv' := argv + [arg];
    assert argv'[..|argv|] == argv;
    var n := BulkLen(|arg|);
    totlen' := totlen + n;
  }

  /** redisvFormatCommand: the length, or -2 for a conversion that is refused. The format is
      a C string. */
  method FormatCommand(format: bytes, args: seq<VarArg>) returns (cmd: array?<byte>, totlen: int)
    requires Supported(CString(format), args)
    ensures
      var fmt := CString(format);
      if Accepted(fmt, args) then
        && cmd != null && fresh(cmd) && totlen >= 0 && cmd.Length == totlen + 1
        && cmd[..totlen] == Encode(FormatArgs(fmt, args)) && cmd[totlen] == NUL
      else
        cmd == null && totlen == -2
  {
    var ok, argv, len := CollectArgs(CString(format), args);
    if !ok {
      return null, -2;
    }
    var digits := CountDigits(|argv|);
    totlen := len + 1 + digits + 2;
    cmd := WriteCommand(argv, totlen);
  }

  // ---- Interpolated bytes never split an argument ----

  ghost predicate SameShape(a: seq<Piece>, b: seq<Piece>) {
    |a| == |b| && forall i :: 0 <= i < |a| ==> a[i].Blank? == b[i].Blank?
  }

  /** What is read of a format, and whether it is a blank, does not depend on the arguments. */
  lemma TokenShape(fmt: bytes, a: seq<VarArg>, b: seq<VarArg>)
    requires fmt != [] && !NextToken(fmt, a).Meaningless? && !NextToken(fmt, b).Meaningless?
    ensures
      var s, t := NextToken(fmt, a), NextToken(fmt, b);
      && s.Token? == t.Token?
      && (s.Token? ==> s.width == t.width && s.used == t.used && s.piece.Blank? == t.piece.Blank?)
  {
  }

  lemma PiecesFirst(fmt: bytes, args: seq<VarArg>, t: Token, fmt': bytes, args': seq<VarArg>)
    requires fmt != [] && t == NextToken(fmt, args) && t.Token? && fmt' == fmt[t.width..] && args' == args[t.used..]
    ensures Pieces(fmt, args) == After([t.piece], Pieces(fmt', args'))
  {
  }

  lemma {:induction false} PiecesShape(fmt: bytes, a: seq<VarArg>, b: seq<VarArg>)
    requires Supported(fmt, a) && Supported(fmt, b)
    ensures Accepted(fmt, a) == Accepted(fmt, b)
    ensures Accepted(fmt, a) ==> SameShape(Pieces(fmt, a).pieces, Pieces(fmt, b).pieces)
    decreases |fmt|
  {
    if fmt != [] {
      var s, t := NextToken(fmt, a), NextToken(fmt, b);
      TokenShape(fmt, a, b);
      if s.Token? {
        var fmt', a', b' := fmt[s.width..], a[s.used..], b[s.used..];
        PiecesFirst(fmt, a, s, fmt', a');
        PiecesFirst(fmt, b, t, fmt', b');
        PiecesShape(fmt', a', b');
      }
    }
  }

  lemma {:induction false} WordsShape(a: seq<Piece>, b: seq<Piece>)
    requires SameShape(a, b)
    ensures |Words(a)| == |Words(b)|
    decreases |a|
  {
    if a != [] {
      if a[0].Blank? {
        WordsShape(a[1..], b[1..]);
      } else {
        var n, m := Run(a), Run(b);
        assert n == m by {
          assert n < |a| ==> b[n].Blank?;
          assert m < |b| ==> a[m].Blank?;
        }
        WordsShape(a[n..], b[n..]);
      }
    }
  }

  /** How many arguments a command has depends on its format alone: no interpolated
      bytes, blanks among them or none at all, can add or remove one. */
  lemma ArgumentCountIsFixed(fmt: bytes, a: seq<VarArg>, b: seq<VarArg>)
    requires Supported(fmt, a) && Supported(fmt, b)
    ensures Accepted(fmt, a) == Accepted(fmt, b)
    ensures Accepted(fmt, a) ==> |FormatArgs(fmt, a)| == |FormatArgs(fmt, b)|
  {
    PiecesShape(fmt, a, b);
    if Accepted(fmt, a) {
      WordsShape(Pieces(fmt, a).pieces, Pieces(fmt, b).pieces);
    }
  }
}
