/**
 The text of a configuration file: how it is cut into lines, what a line says, and how an
 entry is written as a line.

 The blanks that surround a key or a value are tab, space, carriage return and newline.
 */
module ConfigText {
  import opened Bytes

  const MAX_LINE: nat := 4096

  predicate IsBlank(b: byte) {
    b == TAB || b == SPACE || b == CR || b == LF
  }

  predicate AllBlank(s: bytes) {
    forall i :: 0 <= i < |s| ==> IsBlank(s[i])
  }

  // ---- Trimming ----

  function TrimLeft(s: bytes): bytes {
    if s != [] && IsBlank(s[0]) then TrimLeft(s[1..]) else s
  }

  function TrimRight(s: bytes): bytes {
    if s != [] && IsBlank(s[|s| - 1]) then TrimRight(s[..|s| - 1]) else s
  }

  function Trim(s: bytes): bytes {
    TrimRight(TrimLeft(s))
  }

  predicate Trimmed(s: bytes) {
    s == [] || (!IsBlank(s[0]) && !IsBlank(s[|s| - 1]))
  }

  /** A trimmed string is a slice of the string that begins and ends with no blank. */
  lemma {:induction false} TrimLeftIs(s: bytes)
    ensures |TrimLeft(s)| <= |s| && TrimLeft(s) == s[|s| - |TrimLeft(s)|..]
    ensures TrimLeft(s) == [] || !IsBlank(TrimLeft(s)[0])
  {
    if s != [] && IsBlank(s[0]) {
      TrimLeftIs(s[1..]);
    }
  }

  lemma {:induction false} TrimRightIs(s: bytes)
    ensures TrimRight(s) <= s
    ensures TrimRight(s) == [] || !IsBlank(TrimRight(s)[|TrimRight(s)| - 1])
  {
    if s != [] && IsBlank(s[|s| - 1]) {
      TrimRightIs(s[..|s| - 1]);
    }
  }

  lemma TrimIs(s: bytes) returns (i: nat, j: nat)
    ensures i <= j <= |s| && Trim(s) == s[i..j] && Trimmed(Trim(s))
    ensures s != [] && !IsBlank(s[0]) ==> i == 0
  {
    TrimLeftIs(s);
    TrimRightIs(TrimLeft(s));
    i := |s| - |TrimLeft(s)|;
    j := i + |Trim(s)|;
  }

  /** Trimming what is trimmed, and what has one blank before it. */
  lemma TrimAgain(s: bytes)
    requires Trimmed(s)
    ensures Trim(s) == s && Trim([SPACE] + s) == s
  {
    assert ([SPACE] + s)[1..] == s;
  }

  // ---- Lines ----

  /** How many bytes one call of fgets takes: up to a newline, to the end, or as many as
      fit the buffer before its NUL. */
  function ChunkLength(text: bytes, limit: nat): (n: nat)
    requires text != [] && limit > 0
    ensures 1 <= n <= |text| && n <= limit
    decreases limit
  {
    if text[0] == LF || |text| == 1 || limit == 1 then 1 else 1 + ChunkLength(text[1..], limit - 1)
  }

  /** What is left of a piece when its last byte is cut off, be it a newline or not. The
      buffer is a C string, so that a NUL ends it. */
  function LineOf(chunk: bytes): bytes {
    var s := CString(chunk);
    if s == [] then [] else s[..|s| - 1]
  }

  function Lines(text: bytes): seq<bytes>
    decreases |text|
  {
    if text == [] then []
    else
      var n := ChunkLength(text, MAX_LINE - 1);
      [LineOf(text[..n])] + Lines(text[n..])
  }

  /** No piece begins with a NUL, where cutting off the last byte is undefined. */
  predicate Readable(text: bytes)
    decreases |text|
  {
    text == [] || (text[0] != NUL && Readable(text[ChunkLength(text, MAX_LINE - 1)..]))
  }

  predicate Plain(s: bytes) {
    forall i :: 0 <= i < |s| ==> s[i] != LF && s[i] != NUL
  }

  lemma {:induction false} ChunkHasNoNewline(text: bytes, limit: nat, i: nat)
    requires text != [] && limit > 0 && i < ChunkLength(text, limit) - 1
    ensures text[i] != LF
    decreases limit
  {
    if i > 0 {
      ChunkHasNoNewline(text[1..], limit - 1, i - 1);
    }
  }

  lemma {:induction false} LinesArePlain(text: bytes, k: nat)
    requires k < |Lines(text)|
    ensures Plain(Lines(text)[k])
    decreases |text|
  {
    var n := ChunkLength(text, MAX_LINE - 1);
    if k > 0 {
      LinesArePlain(text[n..], k - 1);
    } else {
      var line := LineOf(text[..n]);
      forall i | 0 <= i < |line|
        ensures line[i] != LF && line[i] != NUL
      {
        ChunkHasNoNewline(text, MAX_LINE - 1, i);
        assert line[i] == CString(text[..n])[i] == text[i];
      }
    }
  }

  /** A line that fits the buffer with its newline is one piece. */
  lemma {:induction false} ChunkOfLine(line: bytes, rest: bytes, limit: nat)
    requires Plain(line) && limit > 0
    ensures ChunkLength(line + [LF] + rest, limit) == if |line| < limit then |line| + 1 else limit
    decreases |line|
  {
    var text := line + [LF] + rest;
    if line != [] {
      assert text[1..] == line[1..] + [LF] + rest;
      if limit > 1 {
        ChunkOfLine(line[1..], rest, limit - 1);
      }
    }
  }

  lemma {:induction false} CStringOf(s: bytes)
    requires NUL !in s
    ensures CString(s) == s
  {
    if s != [] {
      CStringOf(s[1..]);
    }
  }

  lemma LinesOfLine(line: bytes, rest: bytes)
    requires Plain(line) && |line| < MAX_LINE - 1
    ensures Lines(line + [LF] + rest) == [line] + Lines(rest)
    ensures Readable(line + [LF] + rest) <==> Readable(rest)
  {
    var text := line + [LF] + rest;
    ChunkOfLine(line, rest, MAX_LINE - 1);
    assert text[..|line| + 1] == line + [LF];
    CStringOf(line + [LF]);
    assert (line + [LF])[..|line|] == line;
    assert text[|line| + 1..] == rest;
  }

  /** How a line that is at most one byte too long is read. The newline is left over, and
      reads as an empty line. */
  function Pieces(line: bytes): seq<bytes> {
    if |line| < MAX_LINE - 1 then [line] else [line[..MAX_LINE - 2], []]
  }

  lemma LinesOfPieces(line: bytes, rest: bytes)
    requires Plain(line) && |line| <= MAX_LINE - 1
    ensures Lines(line + [LF] + rest) == Pieces(line) + Lines(rest)
    ensures Readable(line + [LF] + rest) <==> Readable(rest)
  {
    if |line| < MAX_LINE - 1 {
      LinesOfLine(line, rest);
    } else {
      LinesOfFullLine(line, rest, [] + [LF] + rest);
      ReadableFullLine(line, rest, [] + [LF] + rest);
    }
  }

  lemma LinesOfFullLine(line: bytes, rest: bytes, end: bytes)
    requires Plain(line) && |line| == MAX_LINE - 1 && end == [] + [LF] + rest
    ensures Lines(line + [LF] + rest) == [line[..MAX_LINE - 2], []] + Lines(rest)
  {
    LinesOfLongLine(line, rest);
    LinesOfLine([], rest);
    assert line[MAX_LINE - 1..] + [LF] + rest == end;
  }

  lemma ReadableFullLine(line: bytes, rest: bytes, end: bytes)
    requires Plain(line) && |line| == MAX_LINE - 1 && end == [] + [LF] + rest
    ensures Readable(line + [LF] + rest) <==> Readable(rest)
  {
    LinesOfLine([], rest);
    ChunkOfLine(line, rest, MAX_LINE - 1);
    assert (line + [LF] + rest)[|line|..] == end;
  }

  /** A longer line is cut: the last byte of the first piece is lost, and what follows is
      read as further lines. */
  lemma LinesOfLongLine(line: bytes, rest: bytes)
    requires Plain(line) && |line| >= MAX_LINE - 1
    ensures Lines(line + [LF] + rest) == [line[..MAX_LINE - 2]] + Lines(line[MAX_LINE - 1..] + [LF] + rest)
  {
    var text, n := line + [LF] + rest, MAX_LINE - 1;
    ChunkOfLine(line, rest, n);
    assert text[..n] == line[..n];
    assert text[n..] == line[n..] + [LF] + rest;
    FullPiece(line[..n], line[..n - 1]);
  }

  /** A piece that fills the buffer loses its last byte. */
  lemma FullPiece(piece: bytes, kept: bytes)
    requires NUL !in piece && LF !in piece && |piece| == MAX_LINE - 1 && kept == piece[..MAX_LINE - 2]
    ensures LineOf(piece) == kept
  {
    CStringOf(piece);
  }

  lemma {:induction false} LinesAreShort(text: bytes, k: nat)
    requires k < |Lines(text)|
    ensures |Lines(text)[k]| <= MAX_LINE - 2
    decreases |text|
  {
    if k > 0 {
      LinesAreShort(text[ChunkLength(text, MAX_LINE - 1)..], k - 1);
    }
  }

  // ---- What a line says ----

  predicate IsSeparator(b: byte) {
    b == EQUALS || b == COLON
  }

  datatype Line = Blank | Comment(val: bytes) | Item(indent: nat, key: bytes, val: bytes) | Bad

  function CountTabs(s: bytes): (n: nat)
    ensures n <= |s|
    ensures n < |s| ==> s[n] != TAB
  {
    if s == [] || s[0] != TAB then 0 else 1 + CountTabs(s[1..])
  }

  /** The position of the first separator, or the length. */
  function KeyLength(s: bytes): (n: nat)
    ensures n <= |s|
    ensures forall i :: 0 <= i < n ==> !IsSeparator(s[i])
    ensures n < |s| ==> IsSeparator(s[n])
  {
    if s == [] || IsSeparator(s[0]) then 0 else 1 + KeyLength(s[1..])
  }

  /** What is behind the indentation of an entry. */
  function ParseEntry(indent: nat, s: bytes): Line
    requires s != []
  {
    if s[0] == HASH then Comment(s[1..])
    else if IsSpace(s[0]) then Bad
    else
      var n := KeyLength(s);
      if n == |s| then Bad else Item(indent, Trim(s[..n]), Trim(s[n + 1..]))
  }

  function Parse(line: bytes): Line {
    if AllBlank(line) then Blank
    else
      var indent := CountTabs(line);
      if indent == |line| then Bad else ParseEntry(indent, line[indent..])
  }

  /** What every key and value that was read has: they can be written and read again. */
  predicate GoodKey(key: bytes) {
    && Trimmed(key) && Plain(key)
    && (forall i :: 0 <= i < |key| ==> !IsSeparator(key[i]))
    && (key != [] ==> key[0] != HASH && !IsSpace(key[0]))
  }

  predicate GoodValue(val: bytes) {
    Trimmed(val) && Plain(val)
  }

  lemma KeyIsGood(s: bytes)
    requires Plain(s) && s != [] && s[0] != HASH && !IsSpace(s[0])
    ensures GoodKey(Trim(s[..KeyLength(s)]))
  {
    var n := KeyLength(s);
    var i, j := TrimIs(s[..n]);
    assert s[..n][i..j] == s[i..j];
    if n > 0 {
      assert !IsBlank(s[..n][0]);
    }
  }

  lemma ValueIsGood(s: bytes)
    requires Plain(s)
    ensures GoodValue(Trim(s))
  {
    var i, j := TrimIs(s);
  }

  lemma ParseGives(line: bytes)
    requires Plain(line)
    ensures Parse(line).Item? ==> GoodKey(Parse(line).key) && GoodValue(Parse(line).val)
    ensures Parse(line).Comment? ==> Plain(Parse(line).val)
  {
    if Parse(line).Item? {
      var s := line[CountTabs(line)..];
      KeyIsGood(s);
      ValueIsGood(s[KeyLength(s) + 1..]);
    }
  }

  // ---- Writing ----

  function Tabs(n: nat): (t: bytes)
    ensures |t| == n && forall i :: 0 <= i < n ==> t[i] == TAB
  {
    seq(n, _ => TAB)
  }

  function CommentLine(depth: nat, val: bytes): bytes {
    Tabs(depth) + ([HASH] + val)
  }

  function ItemLine(depth: nat, key: bytes, val: bytes): bytes {
    Tabs(depth) + (key + ([COLON, SPACE] + val))
  }

  lemma {:induction false} CountTabsOf(n: nat, s: bytes)
    requires s != [] && s[0] != TAB
    ensures CountTabs(Tabs(n) + s) == n
  {
    if n > 0 {
      assert (Tabs(n) + s)[1..] == Tabs(n - 1) + s;
      CountTabsOf(n - 1, s);
    } else {
      assert Tabs(0) + s == s;
    }
  }

  lemma ParseIndented(n: nat, s: bytes)
    requires s != [] && !IsBlank(s[0])
    ensures Parse(Tabs(n) + s) == ParseEntry(n, s)
  {
    var line := Tabs(n) + s;
    CountTabsOf(n, s);
    assert line[n] == s[0] && !AllBlank(line);
    assert line[n..] == s;
  }

  lemma {:induction false} KeyLengthOf(key: bytes, c: byte, rest: bytes)
    requires IsSeparator(c) && forall i :: 0 <= i < |key| ==> !IsSeparator(key[i])
    ensures KeyLength(key + ([c] + rest)) == |key|
  {
    var s := key + ([c] + rest);
    if key != [] {
      assert s[1..] == key[1..] + ([c] + rest);
      KeyLengthOf(key[1..], c, rest);
    }
  }

  lemma EntryReads(depth: nat, key: bytes, rest: bytes, s: bytes)
    requires GoodKey(key) && s == key + ([COLON] + rest)
    ensures ParseEntry(depth, s) == Item(depth, key, Trim(rest)) && !IsBlank(s[0])
  {
    KeyLengthOf(key, COLON, rest);
    assert s[0] == if key == [] then COLON else key[0];
    assert s[..|key|] == key && s[|key| + 1..] == rest;
    TrimAgain(key);
  }

  /** What is written is read as it was. */
  lemma WrittenItemReads(depth: nat, key: bytes, val: bytes)
    requires GoodKey(key) && GoodValue(val)
    ensures Parse(ItemLine(depth, key, val)) == Item(depth, key, val)
  {
    var s := key + ([COLON, SPACE] + val);
    assert [COLON, SPACE] + val == [COLON] + ([SPACE] + val);
    EntryReads(depth, key, [SPACE] + val, s);
    TrimAgain(val);
    ParseIndented(depth, s);
  }

  lemma WrittenItemIsPlain(depth: nat, key: bytes, val: bytes)
    requires GoodKey(key) && GoodValue(val)
    ensures Plain(ItemLine(depth, key, val))
  {
  }

  /** An entry with an empty value needs no blank behind its separator. */
  lemma CutItemReads(depth: nat, key: bytes, line: bytes)
    requires GoodKey(key) && line == ItemLine(depth, key, [])
    ensures Parse(line[..|line| - 1]) == Item(depth, key, [])
  {
    var s := key + ([COLON] + []);
    assert line[..|line| - 1] == Tabs(depth) + s;
    EntryReads(depth, key, [], s);
    ParseIndented(depth, s);
  }

  lemma WrittenCommentReads(depth: nat, val: bytes)
    requires Plain(val)
    ensures Parse(CommentLine(depth, val)) == Comment(val) && Plain(CommentLine(depth, val))
  {
    var s := [HASH] + val;
    ParseIndented(depth, s);
    assert s[1..] == val;
  }

  // ---- Lines that were cut ----

  lemma {:induction false} NoSeparator(s: bytes)
    requires forall i :: 0 <= i < |s| ==> !IsSeparator(s[i])
    ensures KeyLength(s) == |s|
  {
    if s != [] {
      NoSeparator(s[1..]);
    }
  }

  lemma TrimShortens(w: bytes)
    ensures |Trim(w)| <= |w| && (w != [] && w[0] == SPACE ==> |Trim(w)| < |w|)
  {
    var i, j := TrimIs(w);
    if w != [] && w[0] == SPACE {
      TrimLeftIs(w[1..]);
      TrimRightIs(TrimLeft(w[1..]));
    }
  }

  /** An entry that is cut inside its key is wrong. */
  lemma CutInKey(depth: nat, key: bytes, val: bytes, m: nat)
    requires GoodKey(key) && depth < m <= depth + |key|
    ensures Parse(ItemLine(depth, key, val)[..m]) == Bad
  {
    var s := key[..m - depth];
    assert ItemLine(depth, key, val)[..m] == Tabs(depth) + s;
    assert s[0] == key[0];
    ParseIndented(depth, s);
    NoSeparator(s);
  }

  lemma CutLine(depth: nat, key: bytes, rest: bytes, m: nat)
    requires depth + |key| < m <= depth + |key| + 1 + |rest|
    ensures (Tabs(depth) + (key + ([COLON] + rest)))[..m] ==
            Tabs(depth) + (key + ([COLON] + rest[..m - depth - |key| - 1]))
  {
  }

  /** An entry that is cut behind its separator has a shorter value. */
  lemma CutInValue(depth: nat, key: bytes, val: bytes, m: nat)
    requires GoodKey(key) && depth + |key| < m < |ItemLine(depth, key, val)|
    ensures
      var w := ([SPACE] + val)[..m - depth - |key| - 1];
      Parse(ItemLine(depth, key, val)[..m]) == Item(depth, key, Trim(w))
  {
    var rest := [SPACE] + val;
    var w := rest[..m - depth - |key| - 1];
    assert [COLON, SPACE] + val == [COLON] + rest;
    CutLine(depth, key, rest, m);
    EntryReads(depth, key, w, key + ([COLON] + w));
    ParseIndented(depth, key + ([COLON] + w));
  }

  /** What is cut off is lost, unless it is only the blank before an empty value. */
  lemma CutItem(depth: nat, key: bytes, val: bytes, m: nat)
    requires GoodKey(key) && depth < m < |ItemLine(depth, key, val)|
    requires !(val == [] && |ItemLine(depth, key, val)| == m + 1)
    ensures
      var line := Parse(ItemLine(depth, key, val)[..m]);
      line == Bad || (line.Item? && line.val != val)
  {
    if m <= depth + |key| {
      CutInKey(depth, key, val, m);
    } else {
      CutInValue(depth, key, val, m);
      TrimShortens(([SPACE] + val)[..m - depth - |key| - 1]);
    }
  }
}
