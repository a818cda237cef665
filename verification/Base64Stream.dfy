/**
 The codec of helper/util/base64.cpp, with the alphabet of section 4 of RFC 4648. Its
 decoder reads character after character and or-s bits into the output as they come.
 */
module Base64Stream {
  import opened Bits
  import opened Bytes
  import opened Groups
  import opened Base64
  import Sequences

  function EncodeStandard(x: bytes): bytes {
    Encode(EncoderOf(STANDARD), x)
  }

  // ---- Packing sextets ----

  /** How three bytes are split into four sextets and put together again. */
  datatype Splitting = Splitting(first: byte -> sextet, second: (byte, byte) -> sextet,
                                 third: (byte, byte) -> sextet, fourth: byte -> sextet,
                                 byte0: (sextet, sextet) -> byte, byte1: (sextet, sextet) -> byte,
                                 byte2: (sextet, sextet) -> byte)

  const SPLITTING := Splitting(First, Second, Third, Fourth, Byte0, Byte1, Byte2)

  ghost predicate Rejoins(k: Splitting, a: byte, b: byte, c: byte) {
    && k.byte0(k.first(a), k.second(a, b)) == a
    && k.byte1(k.second(a, b), k.third(b, c)) == b
    && k.byte2(k.third(b, c), k.fourth(c)) == c
  }

  ghost predicate Lossless(k: Splitting) {
    forall a, b, c {:trigger Rejoins(k, a, b, c)} :: Rejoins(k, a, b, c)
  }

  lemma SplittingIsLossless()
    ensures Lossless(SPLITTING)
  {
    forall a, b, c ensures Rejoins(SPLITTING, a, b, c) { BytesFromSextets(a, b, c); }
  }

  /** The bytes that sextets stand for, four for three; of an incomplete group, the whole
      bytes. */
  function Pack(k: Splitting, s: seq<sextet>): bytes {
    if |s| < 2 then []
    else if |s| == 2 then [k.byte0(s[0], s[1])]
    else if |s| == 3 then [k.byte0(s[0], s[1]), k.byte1(s[1], s[2])]
    else PackFour(k, s) + Pack(k, s[4..])
  }

  /** The byte that is complete once `w` follows `v`, which had place `r` in its group. */
  function Completed(k: Splitting, v: sextet, w: sextet, r: nat): byte {
    if r == 1 then k.byte0(v, w) else if r == 2 then k.byte1(v, w) else k.byte2(v, w)
  }

  /** What one more sextet adds: a byte, unless it starts a group. */
  function Added(k: Splitting, s: seq<sextet>, w: sextet): bytes {
    if |s| % 4 == 0 then [] else [Completed(k, s[|s| - 1], w, |s| % 4)]
  }

  lemma PackShort(k: Splitting, s: seq<sextet>, w: sextet)
    requires |s| < 4
    ensures Pack(k, s + [w]) == Pack(k, s) + Added(k, s, w)
  {
    assert (s + [w])[|s|] == w;
  }

  function PackFour(k: Splitting, s: seq<sextet>): bytes
    requires |s| >= 4
  {
    [k.byte0(s[0], s[1]), k.byte1(s[1], s[2]), k.byte2(s[2], s[3])]
  }

  lemma PackGroup(k: Splitting, s: seq<sextet>, rest: seq<sextet>, g: bytes)
    requires |s| >= 4 && rest == s[4..] && g == PackFour(k, s)
    ensures Pack(k, s) == g + Pack(k, rest)
  {
  }

  lemma SameGroup(k: Splitting, s: seq<sextet>, w: sextet)
    requires |s| >= 4
    ensures PackFour(k, s + [w]) == PackFour(k, s) && (s + [w])[4..] == s[4..] + [w]
    ensures Added(k, s[4..], w) == Added(k, s, w)
  {
  }

  lemma {:induction false} PackSnoc(k: Splitting, s: seq<sextet>, w: sextet)
    ensures Pack(k, s + [w]) == Pack(k, s) + Added(k, s, w)
  {
    if |s| < 4 {
      PackShort(k, s, w);
    } else {
      var g := PackFour(k, s);
      SameGroup(k, s, w);
      PackSnoc(k, s[4..], w);
      PackGroup(k, s, s[4..], g);
      PackGroup(k, s + [w], s[4..] + [w], g);
      Sequences.Associate(g, Pack(k, s[4..]), Added(k, s, w));
    }
  }

  function PackedLength(n: nat): nat {
    n / 4 * 3 + if n % 4 == 0 then 0 else n % 4 - 1
  }

  lemma {:induction false} PackLength(k: Splitting, s: seq<sextet>)
    ensures |Pack(k, s)| == PackedLength(|s|)
  {
    if |s| >= 4 {
      PackLength(k, s[4..]);
    }
  }

  // ---- Reading characters ----

  type Table = byte -> Option<sextet>

  const TABLE: Table := (c: byte) => Value(STANDARD, c)

  datatype Scanned = Scanned(ok: bool, s: seq<sextet>)

  /** The values of the characters. Padding is skipped wherever it is, except after the
      first character of a group when something else follows. */
  function Scan(table: Table, t: bytes, p: nat, s: seq<sextet>): Scanned
    requires p <= |t|
    decreases |t| - p
  {
    if p == |t| then Scanned(true, s)
    else if t[p] == EQUALS then
      if p + 1 < |t| && t[p + 1] != EQUALS && |s| % 4 == 1 then Scanned(false, s) else Scan(table, t, p + 1, s)
    else if table(t[p]).None? then Scanned(false, s)
    else Scan(table, t, p + 1, s + [table(t[p]).value])
  }

  /** The last character was the padding, or had its code as a value. */
  predicate EndsPadded(table: Table, t: bytes) {
    t != [] && (t[|t| - 1] == EQUALS || table(t[|t| - 1]) == Some(61))
  }

  function Decoded(table: Table, t: bytes): Option<bytes> {
    var r := Scan(table, t, 0, []);
    if !r.ok || (EndsPadded(table, t) && |r.s| % 4 == 1) then None else Some(Pack(SPLITTING, r.s))
  }

  /** The bits of a sextet that are stored before the rest of their byte is known. */
  function Stored(v: sextet, r: nat): byte {
    if r == 1 then v as byte * 4 else if r == 2 then v as byte % 16 * 16 else v as byte % 4 * 64
  }

  function Begun(s: seq<sextet>): bytes {
    if |s| % 4 == 0 then [] else [Stored(s[|s| - 1], |s| % 4)]
  }

  /** What is in the output after some sextets: whole bytes, and the one that was begun. */
  function Written(s: seq<sextet>): bytes {
    Pack(SPLITTING, s) + Begun(s)
  }

  /** Everything that decoding a text writes, from the start of the output on. */
  function Output(table: Table, t: bytes): bytes {
    var r := Scan(table, t, 0, []);
    if r.ok && EndsPadded(table, t) && |r.s| % 4 == 2 then Written(r.s) + [0]
    else if r.ok && EndsPadded(table, t) && |r.s| % 4 == 3 then Pack(SPLITTING, r.s) + [0]
    else Written(r.s)
  }

  // ---- The round trip ----

  /** The sextets of some bytes. */
  function Sextets(k: Splitting, x: bytes): seq<sextet> {
    if |x| == 0 then []
    else if |x| == 1 then [k.first(x[0]), k.second(x[0], 0)]
    else if |x| == 2 then [k.first(x[0]), k.second(x[0], x[1]), k.third(x[1], 0)]
    else [k.first(x[0]), k.second(x[0], x[1]), k.third(x[1], x[2]), k.fourth(x[2])] + Sextets(k, x[3..])
  }

  lemma {:induction false} PackSextets(k: Splitting, x: bytes)
    requires Lossless(k)
    ensures Pack(k, Sextets(k, x)) == x && |Sextets(k, x)| % 4 != 1
  {
    if |x| == 1 {
      assert Rejoins(k, x[0], 0, 0);
    } else if |x| == 2 {
      assert Rejoins(k, x[0], x[1], 0);
    } else if |x| > 2 {
      assert Rejoins(k, x[0], x[1], x[2]);
      PackSextets(k, x[3..]);
      assert Sextets(k, x)[4..] == Sextets(k, x[3..]);
    }
  }

  lemma ScanChar(table: Table, t: bytes, p: nat, s: seq<sextet>, v: sextet)
    requires p < |t| && t[p] != EQUALS && table(t[p]) == Some(v)
    ensures Scan(table, t, p, s) == Scan(table, t, p + 1, s + [v])
  {
  }

  lemma ScanSkip(table: Table, t: bytes, p: nat, s: seq<sextet>)
    requires p < |t| && t[p] == EQUALS && !(p + 1 < |t| && t[p + 1] != EQUALS && |s| % 4 == 1)
    ensures Scan(table, t, p, s) == Scan(table, t, p + 1, s)
  {
  }

  lemma ScanPadding(table: Table, t: bytes, p: nat, s: seq<sextet>)
    requires p <= |t| && |s| % 4 != 1 && forall i :: p <= i < |t| ==> t[i] == EQUALS
    ensures Scan(table, t, p, s) == Scanned(true, s)
    decreases |t| - p
  {
    if p < |t| {
      ScanPadding(table, t, p + 1, s);
    }
  }

  /** At `p`, four characters with these values and then padding. */
  ghost predicate Reads(table: Table, t: bytes, p: nat, v: seq<sextet>) {
    && p + 4 <= |t| && |v| <= 4
    && (forall i :: 0 <= i < |v| ==> CharReads(table, t[p + i], v[i]))
    && (forall i :: p + |v| <= i < p + 4 ==> t[i] == EQUALS)
  }

  ghost predicate CharReads(table: Table, c: byte, v: sextet) {
    c != EQUALS && table(c) == Some(v)
  }

  lemma {:induction false} ScanChars(table: Table, t: bytes, p: nat, s: seq<sextet>, v: seq<sextet>)
    requires p + |v| <= |t| && forall i :: 0 <= i < |v| ==> CharReads(table, t[p + i], v[i])
    ensures Scan(table, t, p, s) == Scan(table, t, p + |v|, s + v)
    decreases |v|
  {
    if v == [] {
      assert s + v == s;
    } else {
      assert CharReads(table, t[p + 0], v[0]);
      ScanChar(table, t, p, s, v[0]);
      forall i | 0 <= i < |v[1..]|
        ensures CharReads(table, t[p + 1 + i], v[1..][i])
      {
        assert CharReads(table, t[p + (i + 1)], v[i + 1]);
      }
      ScanChars(table, t, p + 1, s + [v[0]], v[1..]);
      assert (s + [v[0]]) + v[1..] == s + v;
    }
  }

  /** A text that reads, group by group, as the sextets of some bytes. */
  ghost predicate ReadsAs(table: Table, k: Splitting, t: bytes, x: bytes) {
    && |t| == EncodedLength(|x|)
    && forall g: nat :: 3 * g < |x| ==> Reads(table, t, 4 * g, Sextets(k, Group(x, g)))
  }

  lemma {:induction false} ScanFrom(table: Table, k: Splitting, t: bytes, x: bytes, g: nat, s: seq<sextet>)
    requires ReadsAs(table, k, t, x) && 3 * g <= |x| && |s| % 4 == 0
    ensures Scan(table, t, 4 * g, s) == Scanned(true, s + Sextets(k, x[3 * g..]))
    decreases |x| - 3 * g
  {
    if 3 * g == |x| {
      assert s + Sextets(k, []) == s;
    } else if 3 * g + 3 <= |x| {
      var v, rest := Sextets(k, Group(x, g)), Sextets(k, x[3 * (g + 1)..]);
      SextetsFirst(k, x, g);
      assert Reads(table, t, 4 * g, v);
      ScanGroup(table, t, 4 * g, s, v, 4 * (g + 1));
      ScanFrom(table, k, t, x, g + 1, s + v);
      Sequences.Associate(s, v, rest);
    } else {
      assert Reads(table, t, 4 * g, Sextets(k, Group(x, g)));
      ScanLast(table, t, 4 * g, s, Sextets(k, Group(x, g)));
    }
  }

  lemma ScanGroup(table: Table, t: bytes, p: nat, s: seq<sextet>, v: seq<sextet>, next: nat)
    requires Reads(table, t, p, v) && |v| == 4 && next == p + 4
    ensures Scan(table, t, p, s) == Scan(table, t, next, s + v)
  {
    ScanChars(table, t, p, s, v);
  }

  lemma ScanLast(table: Table, t: bytes, p: nat, s: seq<sextet>, v: seq<sextet>)
    requires Reads(table, t, p, v) && p + 4 == |t| && |s| % 4 == 0 && 2 <= |v| <= 3
    ensures Scan(table, t, p, s) == Scanned(true, s + v)
  {
    ScanChars(table, t, p, s, v);
    ScanPadding(table, t, p + |v|, s + v);
  }

  lemma SextetsFirst(k: Splitting, x: bytes, g: nat)
    requires 3 * g + 3 <= |x|
    ensures |Sextets(k, Group(x, g))| == 4
    ensures Sextets(k, x[3 * g..]) == Sextets(k, Group(x, g)) + Sextets(k, x[3 * (g + 1)..])
  {
    assert x[3 * g..][3..] == x[3 * (g + 1)..];
    assert Group(x, g)[3..] == [];
  }

  lemma CharReadsBack(v: sextet)
    ensures CharReads(TABLE, Char(STANDARD, v), v)
  {
    TablesInvert(STANDARD, v, 0);
  }

  lemma ReadsAt(table: Table, t: bytes, p: nat, v: seq<sextet>, c: bytes)
    requires p + 4 <= |t| && t[p..p + 4] == c && |v| <= 4
    requires forall i :: 0 <= i < |v| ==> CharReads(table, c[i], v[i])
    requires forall i :: |v| <= i < 4 ==> c[i] == EQUALS
    ensures Reads(table, t, p, v)
  {
    forall i | 0 <= i < 4
      ensures t[p + i] == c[i]
    {
    }
    forall i | p + |v| <= i < p + 4
      ensures t[i] == EQUALS
    {
      assert t[p + (i - p)] == c[i - p];
    }
  }

  lemma GroupReads(g: bytes, t: bytes, p: nat)
    requires 1 <= |g| <= 3 && p + 4 <= |t| && t[p..p + 4] == EncodeGroup(STANDARD, g)
    ensures Reads(TABLE, t, p, Sextets(SPLITTING, g))
  {
    var v, c := GroupChars(g);
    ReadsAt(TABLE, t, p, v, c);
  }

  lemma GroupChars(g: bytes) returns (v: seq<sextet>, c: bytes)
    requires 1 <= |g| <= 3
    ensures v == Sextets(SPLITTING, g) && c == EncodeGroup(STANDARD, g) && |v| <= 4 && |c| == 4
    ensures forall i :: 0 <= i < |v| ==> CharReads(TABLE, c[i], v[i])
    ensures forall i :: |v| <= i < 4 ==> c[i] == EQUALS
  {
    v, c := Sextets(SPLITTING, g), EncodeGroup(STANDARD, g);
    assert |g| == 3 ==> g[3..] == [];
    forall i | 0 <= i < |v|
      ensures CharReads(TABLE, c[i], v[i])
    {
      assert c[i] == Char(STANDARD, v[i]);
      CharReadsBack(v[i]);
    }
  }

  lemma EncodingReads(x: bytes)
    ensures ReadsAs(TABLE, SPLITTING, EncodeStandard(x), x)
  {
    var t := EncodeStandard(x);
    EncodingIs(STANDARD, x);
    forall g: nat | 3 * g < |x|
      ensures Reads(TABLE, t, 4 * g, Sextets(SPLITTING, Group(x, g)))
    {
      GroupReadsAt(x, t, g);
    }
  }

  lemma GroupReadsAt(x: bytes, t: bytes, g: nat)
    requires IsEncoding(STANDARD, t, x) && 3 * g < |x|
    ensures Reads(TABLE, t, 4 * g, Sextets(SPLITTING, Group(x, g)))
  {
    assert HasGroup(STANDARD, t, x, g);
    GroupReads(Group(x, g), t, 4 * g);
  }

  /** The round trip: every byte string comes back. */
  lemma StandardRoundTrip(x: bytes)
    ensures Decoded(TABLE, EncodeStandard(x)) == Some(x)
  {
    var t := EncodeStandard(x);
    EncodingReads(x);
    ScanFrom(TABLE, SPLITTING, t, x, 0, []);
    assert x[0..] == x;
    assert [] + Sextets(SPLITTING, x) == Sextets(SPLITTING, x);
    SplittingIsLossless();
    PackSextets(SPLITTING, x);
  }

  // ---- Where the decoder writes ----

  lemma {:induction false} ScanCount(table: Table, t: bytes, p: nat, s: seq<sextet>)
    requires p <= |t|
    ensures |s| <= |Scan(table, t, p, s).s| <= |s| + |t| - p
    ensures (forall i :: p <= i < |t| ==> t[i] != EQUALS && table(t[i]).Some?) ==>
      Scan(table, t, p, s).ok && |Scan(table, t, p, s).s| == |s| + |t| - p
    decreases |t| - p
  {
    if p < |t| {
      if t[p] == EQUALS {
        ScanCount(table, t, p + 1, s);
      } else if table(t[p]).Some? {
        ScanCount(table, t, p + 1, s + [table(t[p]).value]);
      }
    }
  }

  lemma OutputLength(table: Table, t: bytes)
    ensures
      var r := Scan(table, t, 0, []);
      |Output(table, t)| == |r.s| / 4 * 3 + |r.s| % 4 + if r.ok && EndsPadded(table, t) && |r.s| % 4 == 2 then 1 else 0
  {
    PackLength(SPLITTING, Scan(table, t, 0, []).s);
  }

  /** Three bytes for every four characters are enough when the characters are groups; for
      any text, two more are. */
  lemma OutputFits(table: Table, t: bytes)
    ensures |t| % 4 == 0 ==> |Output(table, t)| <= |t| * 3 / 4
    ensures |Output(table, t)| <= |t| * 3 / 4 + 2
  {
    OutputLength(table, t);
    ScanCount(table, t, 0, []);
    LengthFits(|Scan(table, t, 0, []).s|, |t|);
  }

  lemma LengthFits(n: nat, m: nat)
    requires n <= m
    ensures m % 4 == 0 ==> n / 4 * 3 + n % 4 + (if n % 4 == 2 then 1 else 0) <= m * 3 / 4
    ensures n / 4 * 3 + n % 4 + (if n % 4 == 2 then 1 else 0) <= m * 3 / 4 + 2
  {
    var a, b := m / 4, m % 4;
    assert m * 3 / 4 == 3 * a + b * 3 / 4;
  }

  /** Decoding an encoding keeps within every buffer that the decoder accepts. */
  lemma EncodingOutputFits(x: bytes)
    ensures |Output(TABLE, EncodeStandard(x))| <= |EncodeStandard(x)| * 3 / 4
  {
    EncoderIsProper(STANDARD);
    EncodeLength(EncoderOf(STANDARD), x);
    WholeGroupsFit(TABLE, EncodeStandard(x), (|x| + 2) / 3);
  }

  lemma WholeGroupsFit(table: Table, t: bytes, k: nat)
    requires |t| == k * 4
    ensures |Output(table, t)| <= |t| * 3 / 4
  {
    WholeGroups(|t|, k);
    OutputFits(table, t);
  }

  lemma WholeGroups(n: nat, k: nat)
    requires n == k * 4
    ensures n % 4 == 0
  {
  }

  /** How many of the first `p` characters are not padding. */
  function CharsBefore(t: bytes, p: nat): nat
    requires p <= |t|
  {
    if p == 0 then 0 else CharsBefore(t, p - 1) + if t[p - 1] == EQUALS then 0 else 1
  }

  /** The decoder gives up at `p`: a character without a value, or padding behind the first
      character of a group that something else follows. */
  predicate Offends(table: Table, t: bytes, p: nat)
    requires p < |t|
  {
    if t[p] == EQUALS then p + 1 < |t| && t[p + 1] != EQUALS && CharsBefore(t, p) % 4 == 1 else table(t[p]).None?
  }

  /** The first place from `p` on where the decoder gives up, or the end of the text. */
  function StopAt(table: Table, t: bytes, p: nat): (e: nat)
    requires p <= |t|
    ensures p <= e <= |t| && (e < |t| ==> Offends(table, t, e))
    ensures forall q :: p <= q < e ==> !Offends(table, t, q)
    decreases |t| - p
  {
    if p == |t| || Offends(table, t, p) then p else StopAt(table, t, p + 1)
  }

  lemma {:induction false} ScanStops(table: Table, t: bytes, p: nat, s: seq<sextet>)
    requires p <= |t| && |s| == CharsBefore(t, p)
    ensures
      var e := StopAt(table, t, p);
      Scan(table, t, p, s).ok == (e == |t|) && |Scan(table, t, p, s).s| == CharsBefore(t, e)
    decreases |t| - p
  {
    if p < |t| && !Offends(table, t, p) {
      if t[p] == EQUALS {
        ScanStops(table, t, p + 1, s);
      } else {
        ScanStops(table, t, p + 1, s + [table(t[p]).value]);
      }
    }
  }

  /** The room that decoding a text takes: three bytes for each group of characters that
      are not padding up to where the decoder gives up, one for each further character, and
      one more to clear when two characters and padding end the text. */
  function Room(table: Table, t: bytes): nat {
    var e := StopAt(table, t, 0);
    var n := CharsBefore(t, e);
    n / 4 * 3 + n % 4 + if e == |t| && EndsPadded(table, t) && n % 4 == 2 then 1 else 0
  }

  /** For every text and every declared length: the writes stay within it exactly when it
      is no less than that room, and it may be less although the decoder accepts it. */
  lemma OutputFitsExactlyWhen(table: Table, t: bytes, outlen: nat)
    ensures |Output(table, t)| <= outlen <==> Room(table, t) <= outlen
    ensures |t| % 4 == 0 && outlen >= |t| * 3 / 4 ==> Room(table, t) <= outlen
  {
    ScanStops(table, t, 0, []);
    OutputLength(table, t);
    OutputFits(table, t);
  }

  lemma ScanTwo(table: Table, t: bytes, v: sextet, w: sextet)
    requires |t| == 3 && CharReads(table, t[0], v) && CharReads(table, t[1], w) && t[2] == EQUALS
    ensures Scan(table, t, 0, []) == Scanned(true, [v, w])
  {
    ScanChar(table, t, 0, [], v);
    ScanChar(table, t, 1, [] + [v], w);
    ScanPadding(table, t, 2, [] + [v] + [w]);
  }

  /** Two characters and one padding: room for two bytes is accepted, and three are
      written. */
  lemma AcceptedBufferOverrun(t: bytes, v: sextet, w: sextet)
    requires t == [Char(STANDARD, v), Char(STANDARD, w), EQUALS]
    ensures |t| * 3 / 4 == 2 && Decoded(TABLE, t).Some? && |Output(TABLE, t)| == 3
  {
    CharReadsBack(v);
    CharReadsBack(w);
    ScanTwo(TABLE, t, v, w);
    OutputLength(TABLE, t);
  }

  // ---- The decoder ----

  lemma PatchOver(buffer: bytes, a: bytes, b: bytes, c: bytes)
    requires |b| <= |c| && |a + c| <= |buffer|
    ensures Patch(Patch(buffer, 0, a + b), |a|, c) == Patch(buffer, 0, a + c)
  {
  }

  /** What storing one more sextet does to the output. */
  lemma WrittenNext(buffer: bytes, s: seq<sextet>, w: sextet, packed: bytes, change: bytes)
    requires packed == Pack(SPLITTING, s) && change == Added(SPLITTING, s, w) + Begun(s + [w])
    requires |packed + change| <= |buffer|
    ensures |Written(s)| <= |buffer| && |Written(s + [w])| <= |buffer|
    ensures Patch(Patch(buffer, 0, Written(s)), |packed|, change) == Patch(buffer, 0, Written(s + [w]))
  {
    PackSnoc(SPLITTING, s, w);
    Sequences.Associate(packed, Added(SPLITTING, s, w), Begun(s + [w]));
    PatchOver(buffer, packed, Begun(s), change);
  }

  lemma Completed1(v: sextet, w: sextet)
    ensures Or(Stored(v, 1) as nat, w as nat / 16) == Completed(SPLITTING, v, w, 1) as nat
  {
    OrMakes0(v, w);
    assert Stored(v, 1) as nat == v as nat * 4;
  }

  lemma Completed2(v: sextet, w: sextet)
    ensures Or(Stored(v, 2) as nat, w as nat / 4) == Completed(SPLITTING, v, w, 2) as nat
  {
    OrMakes1(v, w);
    assert Stored(v, 2) as nat == v as nat % 16 * 16;
  }

  lemma Completed3(v: sextet, w: sextet)
    ensures Or(Stored(v, 3) as nat, w as nat) == Completed(SPLITTING, v, w, 3) as nat
  {
    OrMakes2(v, w);
    assert Stored(v, 3) as nat == v as nat % 4 * 64;
  }

  method OrInto(result: array<byte>, j: nat, low: nat, ghost b: byte)
    requires j < result.Length && Or(result[j] as nat, low) == b as nat
    modifies result
    ensures result[..] == old(result[..])[j := b]
  {
    result[j] := Or(result[j] as nat, low) as byte;
  }

  method Put(result: array<byte>, j: nat, b: byte)
    requires j < result.Length
    modifies result
    ensures result[..] == old(result[..])[j := b]
  {
    result[j] := b;
  }

  /** The switch of the loop: completes the byte `b` and begins the next one. */
  method StoreSextet(result: array<byte>, i: nat, j: nat, ch: sextet, ghost v: sextet, ghost b: byte, ghost next: byte)
    returns (j': nat)
    requires j + (if i % 4 == 1 || i % 4 == 2 then 2 else 1) <= result.Length
    requires i % 4 != 0 ==> result[j] == Stored(v, i % 4) && b == Completed(SPLITTING, v, ch, i % 4)
    requires i % 4 != 3 ==> next == Stored(ch, i % 4 + 1)
    modifies result
    ensures j' == if i % 4 == 0 then j else j + 1
    ensures result[..] ==
      if i % 4 == 0 then old(result[..])[j := next]
      else if i % 4 == 3 then old(result[..])[j := b]
      else old(result[..])[j := b][j + 1 := next]
  {
    match i % 4 {
      case 0 =>
        Put(result, j, ch as byte * 4);
        j' := j;
      case 1 =>
        Completed1(v, ch);
        OrInto(result, j, ch as nat / 16, b);
        j' := j + 1;
        Put(result, j', ch as byte % 16 * 16);
      case 2 =>
        Completed2(v, ch);
        OrInto(result, j, ch as nat / 4, b);
        j' := j + 1;
        Put(result, j', ch as byte % 4 * 64);
      case _ =>
        Completed3(v, ch);
        OrInto(result, j, ch as nat, b);
        j' := j + 1;
    }
  }

  lemma StoreIsPatch(b: bytes, i: nat, j: nat, done: byte, next: byte, change: bytes, b': bytes)
    requires change == (if i % 4 == 0 then [] else [done]) + (if i % 4 == 3 then [] else [next])
    requires j + |change| <= |b|
    requires b' == if i % 4 == 0 then b[j := next] else if i % 4 == 3 then b[j := done] else b[j := done][j + 1 := next]
    ensures b' == Patch(b, j, change)
  {
  }

  lemma BegunAt(buffer: bytes, s: seq<sextet>, j: nat)
    requires j == |Pack(SPLITTING, s)| && |Written(s)| <= |buffer| && |s| % 4 != 0
    ensures j < |buffer| && Patch(buffer, 0, Written(s))[j] == Stored(s[|s| - 1], |s| % 4)
  {
  }

  lemma WrittenLength(s: seq<sextet>, n: nat)
    requires |s| <= n
    ensures |Written(s)| <= n * 3 / 4 + 2 && |Pack(SPLITTING, s)| == PackedLength(|s|) <= n * 3 / 4
  {
    PackLength(SPLITTING, s);
    LengthFits(|s|, n);
  }

  /** One character with a value, added to the output. */
  method AddSextet(result: array<byte>, i: nat, j: nat, ch: sextet, ghost buffer: bytes, ghost s: seq<sextet>)
    returns (j': nat)
    requires i == |s| && j == |Pack(SPLITTING, s)| && |Written(s)| <= |buffer| && |Written(s + [ch])| <= |buffer|
    requires result[..] == Patch(buffer, 0, Written(s))
    modifies result
    ensures j' == |Pack(SPLITTING, s + [ch])| && result[..] == Patch(buffer, 0, Written(s + [ch]))
  {
    ghost var b, packed := result[..], Pack(SPLITTING, s);
    ghost var v := if i % 4 == 0 then ch else s[i - 1];
    ghost var done, next := Completed(SPLITTING, v, ch, i % 4), Stored(ch, i % 4 + 1);
    ghost var change := Change(s, ch, v, done, next, packed);
    if i % 4 != 0 {
      BegunAt(buffer, s, j);
    }
    j' := StoreSextet(result, i, j, ch, v, done, next);
    StoreIsPatch(b, i, j, done, next, change, result[..]);
    WrittenNext(buffer, s, ch, packed, change);
  }

  lemma Change(s: seq<sextet>, ch: sextet, v: sextet, done: byte, next: byte, packed: bytes) returns (change: bytes)
    requires v == (if |s| % 4 == 0 then ch else s[|s| - 1]) && packed == Pack(SPLITTING, s)
    requires done == Completed(SPLITTING, v, ch, |s| % 4) && next == Stored(ch, |s| % 4 + 1)
    ensures change == Added(SPLITTING, s, ch) + Begun(s + [ch])
    ensures change == (if |s| % 4 == 0 then [] else [done]) + (if |s| % 4 == 3 then [] else [next])
    ensures |packed + change| == |Written(s + [ch])|
    ensures |Pack(SPLITTING, s + [ch])| == |packed| + if |s| % 4 == 0 then 0 else 1
  {
    change := Added(SPLITTING, s, ch) + Begun(s + [ch]);
    BegunNext(s, ch, next);
    PackLength(SPLITTING, s);
    PackLength(SPLITTING, s + [ch]);
  }

  lemma BegunNext(s: seq<sextet>, ch: sextet, next: byte)
    requires next == Stored(ch, |s| % 4 + 1)
    ensures Begun(s + [ch]) == if |s| % 4 == 3 then [] else [next]
  {
    assert (s + [ch])[|s|] == ch;
  }

  /** The code of the padding, or the value of the character: what `ch` is left with. */
  function Seen(table: Table, c: byte): int {
    if c == EQUALS then 61 else if table(c).Some? then table(c).value as int else -1
  }

  lemma SeenPadded(table: Table, t: bytes)
    requires t != []
    ensures Seen(table, t[|t| - 1]) == 61 <==> EndsPadded(table, t)
  {
  }

  /** The decoder before character `p`: what was counted, what was written, and what is
      still to be scanned. */
  ghost predicate Reading(table: Table, enc: bytes, r: Scanned, buffer: bytes, cells: bytes, p: nat, i: nat, j: nat,
                          ch: int, s: seq<sextet>)
  {
    && p <= |enc| && i == |s| <= p && j == |Pack(SPLITTING, s)|
    && |Written(s)| <= |buffer| && cells == Patch(buffer, 0, Written(s))
    && r == Scan(table, enc, p, s)
    && ch == if p == 0 then 0 else Seen(table, enc[p - 1])
  }

  /** The loop over the characters. It may write two bytes more than the text has room for
      by the check before it. */
  method ReadAll(table: Table, enc: bytes, result: array<byte>, ghost r: Scanned)
    returns (ok: bool, i: nat, j: nat, ch: int, ghost s: seq<sextet>)
    requires r == Scan(table, enc, 0, []) && result.Length >= |enc| * 3 / 4 + 2
    modifies result
    ensures r == Scanned(ok, s) && i == |s| <= |enc| && j == |Pack(SPLITTING, s)|
    ensures |Written(s)| <= result.Length && result[..] == Patch(old(result[..]), 0, Written(s))
    ensures ok ==> ch == if enc == [] then 0 else Seen(table, enc[|enc| - 1])
  {
    ghost var buffer := result[..];
    s := [];
    ch, i, j := 0, 0, 0;
    var p := 0;
    while p < |enc|
      invariant Reading(table, enc, r, buffer, result[..], p, i, j, ch, s)
    {
      ok, i, j, ch, s := ReadOne(table, enc, result, r, buffer, p, i, j, ch, s);
      if !ok {
        return;
      }
      p := p + 1;
    }
    return true, i, j, ch, s;
  }

  /** One turn of the loop. */
  method ReadOne(table: Table, enc: bytes, result: array<byte>, ghost r: Scanned, ghost buffer: bytes,
                 p: nat, i: nat, j: nat, ch: int, ghost s: seq<sextet>)
    returns (ok: bool, i': nat, j': nat, ch': int, ghost s': seq<sextet>)
    requires Reading(table, enc, r, buffer, result[..], p, i, j, ch, s)
    requires p < |enc| && |buffer| == result.Length >= |enc| * 3 / 4 + 2
    modifies result
    ensures ok ==> Reading(table, enc, r, buffer, result[..], p + 1, i', j', ch', s')
    ensures !ok ==>
      && r == Scanned(false, s') && i' == |s'| <= |enc| && j' == |Pack(SPLITTING, s')|
      && |Written(s')| <= |buffer| && result[..] == Patch(buffer, 0, Written(s'))
  {
    var c := enc[p];
    ok, i', j', ch', s' := false, i, j, ch, s;
    if c == EQUALS {
      if p + 1 < |enc| && enc[p + 1] != EQUALS && i % 4 == 1 {
        return;
      }
      ScanSkip(table, enc, p, s);
      return true, i, j, 61, s;
    }
    var v := table(c);
    if v.None? {
      return;
    }
    ScanChar(table, enc, p, s, v.value);
    s' := s + [v.value];
    WrittenLength(s', |enc|);
    j' := AddSextet(result, i, j, v.value, buffer, s);
    return true, i + 1, j', v.value as int, s';
  }

  /** Clears what is behind the last whole byte when the text ended with padding. */
  method MopUp(result: array<byte>, i: nat, j: nat, ch: int, ghost buffer: bytes, ghost s: seq<sextet>)
    returns (ok: bool)
    requires
      && i == |s|
      && j == |Pack(SPLITTING, s)|
      && |Written(s)| <= |buffer|
      && (i % 4 == 2 ==> |Written(s)| < |buffer|)
    requires result[..] == Patch(buffer, 0, Written(s))
    modifies result
    ensures ok == !(ch == 61 && i % 4 == 1)
    ensures |Cleared(s, ch == 61)| <= |buffer| && result[..] == Patch(buffer, 0, Cleared(s, ch == 61))
  {
    var k := j;
    if ch == 61 {
      match i % 4 {
        case 1 =>
          return false;
        case 2 =>
          k := k + 1;
          result[k] := 0;
        case 3 =>
          result[k] := 0;
        case _ =>
      }
    }
    return true;
  }

  function Cleared(s: seq<sextet>, padded: bool): bytes {
    if padded && |s| % 4 == 2 then Written(s) + [0]
    else if padded && |s| % 4 == 3 then Pack(SPLITTING, s) + [0]
    else Written(s)
  }

  /** Base64::decode. `result` is the memory that starts at the buffer, with the two bytes
      behind the declared length. */
  method DecodeBuffer(enc: bytes, result: array<byte>, outlen: nat) returns (ok: bool, outlen': nat)
    requires outlen + 2 <= result.Length
    modifies result
    ensures outlen < |enc| * 3 / 4 ==> !ok && result[..] == old(result[..])
    ensures outlen >= |enc| * 3 / 4 ==>
      && ok == Decoded(TABLE, enc).Some?
      && |Output(TABLE, enc)| <= result.Length && result[..] == Patch(old(result[..]), 0, Output(TABLE, enc))
    ensures ok ==> outlen' <= outlen && result[..outlen'] == Decoded(TABLE, enc).value
    ensures !ok ==> outlen' == outlen
  {
    if outlen < |enc| * 3 / 4 {
      return false, outlen;
    }
    ghost var buffer, r := result[..], Scan(TABLE, enc, 0, []);
    ghost var s;
    var i, j, ch;
    ok, i, j, ch, s := ReadAll(TABLE, enc, result, r);
    if !ok {
      return false, outlen;
    }
    if |enc| > 0 {
      SeenPadded(TABLE, enc);
    }
    WrittenLength(s, |enc|);
    ok := MopUp(result, i, j, ch, buffer, s);
    assert j <= outlen;
    OutputIs(enc, r, s, ch == 61);
    CutOutput(buffer, s, ch == 61, j);
    return ok, if ok then j else outlen;
  }

  lemma OutputIs(enc: bytes, r: Scanned, s: seq<sextet>, padded: bool)
    requires r == Scan(TABLE, enc, 0, []) && r == Scanned(true, s) && padded == EndsPadded(TABLE, enc)
    ensures Output(TABLE, enc) == Cleared(s, padded)
    ensures Decoded(TABLE, enc) == if padded && |s| % 4 == 1 then None else Some(Pack(SPLITTING, s))
  {
  }

  lemma CutOutput(buffer: bytes, s: seq<sextet>, padded: bool, j: nat)
    requires |Cleared(s, padded)| <= |buffer| && j == |Pack(SPLITTING, s)|
    ensures j <= |buffer| && Patch(buffer, 0, Cleared(s, padded))[..j] == Pack(SPLITTING, s)
  {
  }

  // ---- The encoder ----

  /** Base64::encode. */
  method EncodeBuffer(src: bytes, out: array<byte>, outlen: nat) returns (ok: bool, outlen': nat)
    requires outlen <= out.Length
    modifies out
    ensures ok == (outlen >= EncodedLength(|src|))
    ensures ok ==> outlen' == |EncodeStandard(src)| <= outlen && out[..] == Patch(old(out[..]), 0, EncodeStandard(src))
    ensures !ok ==> outlen' == outlen && out[..] == old(out[..])
  {
    if outlen < (|src| + 2) / 3 * 4 {
      return false, outlen;
    }
    EncodingIs(STANDARD, src);
    outlen' := EncodeAll(src, out, EncodeStandard(src));
    return true, outlen';
  }

  lemma GroupAt(t: bytes, src: bytes, i: nat, n: nat)
    requires IsEncoding(STANDARD, t, src) && 3 * i < |src| && n == if 3 * i + 3 <= |src| then 3 else |src| - 3 * i
    ensures 4 * i + 4 <= |t| && t[4 * i..4 * i + 4] == EncodeGroup(STANDARD, src[3 * i..3 * i + n])
  {
    assert HasGroup(STANDARD, t, src, i);
    assert src[3 * i..3 * i + n] == Group(src, i);
  }

  lemma GroupsEnd(n: nat, i: nat)
    requires 3 * i <= n <= 3 * i + 2
    ensures EncodedLength(n) == 4 * i + if 3 * i < n then 4 else 0
  {
  }

  /** The characters of group `i`, and the buffer with them. */
  lemma NextPart(buffer: bytes, t: bytes, src: bytes, i: nat, n: nat, p: nat) returns (g: bytes)
    requires IsEncoding(STANDARD, t, src) && 3 * i < |src| && n == (if 3 * i + 3 <= |src| then 3 else |src| - 3 * i)
    requires p == 4 * i <= |t| <= |buffer|
    ensures p + 4 <= |t| && g == EncodeGroup(STANDARD, src[3 * i..3 * i + n]) && |g| == 4
    ensures |Partly(buffer, t, p)| == |buffer| && Patch(Partly(buffer, t, p), p, g) == Partly(buffer, t, p + 4)
  {
    GroupAt(t, src, i, n);
    g := t[p..p + 4];
    PartlyNext(buffer, t, p, g);
  }

  /** The loop over whole groups, and the tail. */
  method EncodeAll(src: bytes, out: array<byte>, ghost t: bytes) returns (p: nat)
    requires IsEncoding(STANDARD, t, src) && |t| <= out.Length
    modifies out
    ensures p == |t| && out[..] == Patch(old(out[..]), 0, t)
  {
    ghost var buffer, i, g: bytes := out[..], 0, [];
    var current := 0;
    p := 0;
    assert buffer == Partly(buffer, t, 0);
    while |src| - current > 2
      invariant 0 <= current == 3 * i <= |src| && p == 4 * i <= |t|
      invariant out[..] == Partly(buffer, t, p)
      decreases |src| - current
    {
      g := NextPart(buffer, t, src, i, 3, p);
      EncodeThree(src, current, out, p, g);
      current, p, i := current + 3, p + 4, i + 1;
    }
    GroupsEnd(|src|, i);
    if current < |src| {
      g := NextPart(buffer, t, src, i, |src| - current, p);
      EncodeTail(src, current, out, p, g);
      p := p + 4;
    }
    assert t[..|t|] == t;
  }

  /** A group of three bytes. */
  method EncodeThree(src: bytes, at: nat, out: array<byte>, p: nat, ghost g: bytes)
    requires at + 3 <= |src| && p + 4 <= out.Length && g == EncodeGroup(STANDARD, src[at..at + 3])
    modifies out
    ensures |g| == 4 && out[..] == Patch(old(out[..]), p, g)
  {
    Write4(out, p, Char(STANDARD, First(src[at])), Char(STANDARD, Second(src[at], src[at + 1])),
           Char(STANDARD, Third(src[at + 1], src[at + 2])), Char(STANDARD, Fourth(src[at + 2])));
  }

  /** The last one or two bytes. */
  method EncodeTail(src: bytes, at: nat, out: array<byte>, p: nat, ghost g: bytes)
    requires at < |src| <= at + 2 && p + 4 <= out.Length && g == EncodeGroup(STANDARD, src[at..|src|])
    modifies out
    ensures |g| == 4 && out[..] == Patch(old(out[..]), p, g)
  {
    var first := Char(STANDARD, First(src[at]));
    if |src| - at > 1 {
      Write4(out, p, first, Char(STANDARD, Second(src[at], src[at + 1])), Char(STANDARD, Third(src[at + 1], 0)),
             EQUALS);
    } else {
      Write4(out, p, first, Char(STANDARD, Second(src[at], 0)), EQUALS, EQUALS);
    }
  }
}
