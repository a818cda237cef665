/**
 The base64 encoding of RFC 4648 for any alphabet of its kind (sections 4 and 5), as the
 two codecs of the repository share it. Shifts and masks are written as arithmetic.
 */
module Base64 {
  import opened Bits
  import opened Bytes
  import opened Groups

  /** The last two characters of an alphabet; the first 62 are letters and digits. */
  datatype Alphabet = Alphabet(c62: byte, c63: byte)

  const STANDARD := Alphabet(PLUS, SLASH)
  const URL := Alphabet(MINUS, 95)

  predicate Alphanumeric(c: byte) {
    65 <= c <= 90 || 97 <= c <= 122 || IsDigit(c)
  }

  predicate IsAlphabet(al: Alphabet) {
    && !Alphanumeric(al.c62) && !Alphanumeric(al.c63) && al.c62 != al.c63
    && al.c62 != EQUALS && al.c63 != EQUALS
  }

  newtype sextet = x: int | 0 <= x < 64

  function Char(al: Alphabet, v: sextet): byte {
    if v < 26 then 65 + v as byte
    else if v < 52 then 97 + (v as byte - 26)
    else if v < 62 then ZERO + (v as byte - 52)
    else if v == 62 then al.c62
    else al.c63
  }

  function Value(al: Alphabet, c: byte): Option<sextet> {
    if 65 <= c <= 90 then Some((c - 65) as sextet)
    else if 97 <= c <= 122 then Some((c - 97 + 26) as sextet)
    else if IsDigit(c) then Some((c - ZERO + 52) as sextet)
    else if c == al.c62 then Some(62)
    else if c == al.c63 then Some(63)
    else None
  }

  /** The two tables are inverse to each other, and the padding has no value. */
  lemma TablesInvert(al: Alphabet, v: sextet, c: byte)
    requires IsAlphabet(al)
    ensures Value(al, Char(al, v)) == Some(v) && Char(al, v) != EQUALS
    ensures Value(al, c) == Some(v) ==> c == Char(al, v)
    ensures Value(al, EQUALS) == None
  {
  }

  /** The 64 characters of the two codecs, in the order of their values. */
  const LETTERS_AND_DIGITS := "ABCDEFGHIJKLMNOPQRSTUVWXYZ" + "abcdefghijklmnopqrstuvwxyz" + "0123456789"
  const STANDARD_CHARACTERS := LETTERS_AND_DIGITS + "+/"
  const URL_CHARACTERS := LETTERS_AND_DIGITS + "-_"

  lemma LettersAndDigits(al: Alphabet, v: sextet)
    requires v < 62
    ensures |LETTERS_AND_DIGITS| == 62 && Char(al, v) as int == LETTERS_AND_DIGITS[v] as int
  {
  }

  /** The character of a value is the one at its place, and a byte has that value exactly when it
      is that character. */
  lemma StandardIs(v: sextet, c: byte)
    ensures |STANDARD_CHARACTERS| == 64 && Char(STANDARD, v) as int == STANDARD_CHARACTERS[v] as int
    ensures Value(STANDARD, c) == Some(v) <==> c as int == STANDARD_CHARACTERS[v] as int
  {
    TablesInvert(STANDARD, v, c);
    LettersAndDigits(STANDARD, if v < 62 then v else 0);
  }

  lemma UrlIs(v: sextet, c: byte)
    ensures |URL_CHARACTERS| == 64 && Char(URL, v) as int == URL_CHARACTERS[v] as int
    ensures Value(URL, c) == Some(v) <==> c as int == URL_CHARACTERS[v] as int
  {
    TablesInvert(URL, v, c);
    LettersAndDigits(URL, if v < 62 then v else 0);
  }

  // ---- Groups ----

  function First(a: byte): sextet { (a / 4) as sextet }
  function Second(a: byte, b: byte): sextet { ((a % 4) * 16 + b / 16) as sextet }
  function Third(b: byte, c: byte): sextet { ((b % 16) * 4 + c / 64) as sextet }
  function Fourth(c: byte): sextet { (c % 64) as sextet }

  /** The four digits in base 64 of the number that three bytes are in base 256. */
  lemma GroupIsNumber(a: byte, b: byte, c: byte)
    ensures ((First(a) as int * 64 + Second(a, b) as int) * 64 + Third(b, c) as int) * 64 + Fourth(c) as int
         == (a as int * 256 + b as int) * 256 + c as int
  {
  }

  function Byte0(u: sextet, v: sextet): byte { u as byte * 4 + v as byte / 16 }
  function Byte1(v: sextet, w: sextet): byte { (v as byte % 16) * 16 + w as byte / 4 }
  function Byte2(w: sextet, x: sextet): byte { (w as byte % 4) * 64 + x as byte }

  lemma BytesFromSextets(a: byte, b: byte, c: byte)
    ensures Byte0(First(a), Second(a, b)) == a
    ensures Byte1(Second(a, b), Third(b, c)) == b
    ensures Byte2(Third(b, c), Fourth(c)) == c
  {
  }

  /** One group of up to three bytes, padded. */
  function EncodeGroup(al: Alphabet, g: bytes): bytes {
    if |g| == 3 then
      [Char(al, First(g[0])), Char(al, Second(g[0], g[1])), Char(al, Third(g[1], g[2])), Char(al, Fourth(g[2]))]
    else if |g| == 2 then
      [Char(al, First(g[0])), Char(al, Second(g[0], g[1])), Char(al, Third(g[1], 0)), EQUALS]
    else if |g| == 1 then
      [Char(al, First(g[0])), Char(al, Second(g[0], 0)), EQUALS, EQUALS]
    else []
  }

  /** A last group is that of its bytes with zeros behind them, with an equals sign for each
      missing byte. */
  lemma PaddingIs(al: Alphabet, a: byte, b: byte)
    ensures EncodeGroup(al, [a]) == EncodeGroup(al, [a, 0, 0])[..2] + [61, 61]
    ensures EncodeGroup(al, [a, b]) == EncodeGroup(al, [a, b, 0])[..3] + [61]
  {
  }

  function EncoderOf(al: Alphabet): Encoder {
    (g: bytes) => EncodeGroup(al, g)
  }

  lemma EncoderIsProper(al: Alphabet)
    ensures Groups.Proper(EncoderOf(al))
  {
    forall g ensures FourChars(EncoderOf(al), g) {}
  }

  /** A text group by group: four characters at 4k for the bytes at 3k. */
  ghost predicate IsEncoding(al: Alphabet, t: bytes, x: bytes) {
    && |t| == EncodedLength(|x|)
    && forall k: nat :: 3 * k < |x| ==> HasGroup(al, t, x, k)
  }

  ghost predicate HasGroup(al: Alphabet, t: bytes, x: bytes, k: nat)
    requires 3 * k < |x| && |t| == EncodedLength(|x|)
  {
    t[4 * k..4 * k + 4] == EncodeGroup(al, Group(x, k))
  }

  lemma EncodingIs(al: Alphabet, x: bytes)
    ensures IsEncoding(al, Encode(EncoderOf(al), x), x)
  {
    EncoderIsProper(al);
    EncodeLength(EncoderOf(al), x);
    forall k: nat | 3 * k < |x|
      ensures HasGroup(al, Encode(EncoderOf(al), x), x, k)
    {
      EncodeAt(EncoderOf(al), x, k);
    }
  }

  /** The buffer with the first `n` characters of a text. */
  ghost function Partly(buffer: bytes, t: bytes, n: nat): bytes
    requires n <= |t| <= |buffer|
  {
    Patch(buffer, 0, t[..n])
  }

  lemma PartlyNext(buffer: bytes, t: bytes, n: nat, g: bytes)
    requires n + 4 <= |t| <= |buffer| && g == t[n..n + 4]
    ensures |Partly(buffer, t, n)| == |buffer|
    ensures Patch(Partly(buffer, t, n), n, g) == Partly(buffer, t, n + 4)
  {
    PatchTwice(buffer, t[..n], g);
    assert t[..n] + g == t[..n + 4];
  }

  method Write4(output: array<byte>, pos: nat, a: byte, b: byte, c: byte, d: byte)
    requires pos + 4 <= output.Length
    modifies output
    ensures output[..] == Patch(old(output[..]), pos, [a, b, c, d])
  {
    output[pos] := a;
    output[pos + 1] := b;
    output[pos + 2] := c;
    output[pos + 3] := d;
  }

  // ---- Bitwise or ----

  // The bytes as the decoders compute them: a shifted sextet, cut to a byte, or-ed with
  // the high bits of the next one.

  lemma OrSum(a: nat, k: nat, x: nat, b: nat, y: nat)
    requires x == ShiftLeft(a, k) && b < Pow2(k) && y == x + b
    ensures Or(x, b) == y
  {
    OrIsSum(a, k, b);
  }

  lemma OrMakes0(u: sextet, v: sextet)
    ensures Or(u as nat * 4, v as nat / 16) == Byte0(u, v) as nat
  {
    var a, b := u as nat, v as nat / 16;
    Shifts(a);
    OrSum(a, 2, a * 4, b, Byte0(u, v) as nat);
  }

  lemma OrMakes1(u: sextet, v: sextet)
    ensures Or(u as nat % 16 * 16, v as nat / 4) == Byte1(u, v) as nat
  {
    var a, b := u as nat % 16, v as nat / 4;
    Shifts(a);
    OrSum(a, 4, a * 16, b, Byte1(u, v) as nat);
  }

  lemma OrMakes2(u: sextet, v: sextet)
    ensures Or(u as nat % 4 * 64, v as nat) == Byte2(u, v) as nat
  {
    var a, b := u as nat % 4, v as nat;
    Shifts(a);
    OrSum(a, 6, a * 64, b, Byte2(u, v) as nat);
  }

  /** A left shift of a byte drops the bits that leave it. */
  lemma CutToByte(u: sextet)
    ensures u as nat * 4 % 256 == u as nat * 4
    ensures u as nat * 16 % 256 == u as nat % 16 * 16
    ensures u as nat * 64 % 256 == u as nat % 4 * 64
  {
  }

  lemma Shifts(a: nat)
    ensures ShiftLeft(a, 2) == 4 * a && ShiftLeft(a, 4) == 16 * a && ShiftLeft(a, 6) == 64 * a
    ensures Pow2(2) == 4 && Pow2(4) == 16 && Pow2(6) == 64
  {
    assert ShiftLeft(a, 2) == 4 * a by { assert ShiftLeft(a, 1) == 2 * a; }
    assert ShiftLeft(a, 4) == 16 * a by { assert ShiftLeft(a, 3) == 8 * a; }
    assert ShiftLeft(a, 6) == 64 * a by { assert ShiftLeft(a, 5) == 32 * a; }
    assert Pow2(2) == 4 by { assert Pow2(1) == 2; }
    assert Pow2(4) == 16 by { assert Pow2(3) == 8; }
    assert Pow2(6) == 64 by { assert Pow2(5) == 32; }
  }
}
