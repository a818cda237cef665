/**
 Codecs that turn each group of up to three bytes into four characters: encoding and
 decoding whole buffers, for any coding of a single group.
 */
module Groups {
  import opened Bytes

  type Encoder = bytes -> bytes
  type Decoder = bytes -> Option<bytes>

  ghost predicate FourChars(enc: Encoder, g: bytes) {
    1 <= |g| <= 3 ==> |enc(g)| == 4
  }

  ghost predicate Undoes(dec: Decoder, enc: Encoder, g: bytes) {
    1 <= |g| <= 3 ==> dec(enc(g)) == Some(g)
  }

  ghost predicate Proper(enc: Encoder) {
    forall g {:trigger FourChars(enc, g)} :: FourChars(enc, g)
  }

  ghost predicate Inverse(dec: Decoder, enc: Encoder) {
    forall g {:trigger Undoes(dec, enc, g)} :: Undoes(dec, enc, g)
  }

  // ---- Encoding ----

  /** The bytes of group `k`. */
  function Group(x: bytes, k: nat): (g: bytes)
    requires 3 * k < |x|
    ensures 1 <= |g| <= 3
  {
    if 3 * k + 3 <= |x| then x[3 * k..3 * k + 3] else x[3 * k..]
  }

  function Encode(enc: Encoder, x: bytes): bytes {
    if |x| == 0 then [] else if |x| <= 3 then enc(x) else enc(x[..3]) + Encode(enc, x[3..])
  }

  function EncodedLength(n: nat): nat {
    (n + 2) / 3 * 4
  }

  lemma {:induction false} EncodeLength(enc: Encoder, x: bytes)
    requires Proper(enc)
    ensures |Encode(enc, x)| == EncodedLength(|x|)
  {
    if |x| > 3 {
      EncodeLength(enc, x[3..]);
      assert FourChars(enc, x[..3]);
    } else {
      assert FourChars(enc, x);
    }
  }

  /** Group by group: the text at 4k is the group of the bytes at 3k. */
  lemma {:induction false} EncodeAt(enc: Encoder, x: bytes, k: nat)
    requires Proper(enc) && 3 * k < |x|
    ensures 4 * k + 4 <= |Encode(enc, x)|
    ensures Encode(enc, x)[4 * k..4 * k + 4] == enc(Group(x, k))
  {
    if |x| <= 3 {
      assert FourChars(enc, x);
      assert Group(x, 0) == x;
    } else if k == 0 {
      assert FourChars(enc, x[..3]);
      assert Group(x, 0) == x[..3];
    } else {
      assert FourChars(enc, x[..3]);
      EncodeAt(enc, x[3..], k - 1);
      GroupBehind(x, k);
      SliceBehind(enc(x[..3]), Encode(enc, x[3..]), 4 * (k - 1), 4 * k);
    }
  }

  lemma GroupBehind(x: bytes, k: nat)
    requires k > 0 && 3 * k < |x|
    ensures Group(x[3..], k - 1) == Group(x, k)
  {
  }

  lemma SliceBehind(g: bytes, t: bytes, i: nat, j: nat)
    requires |g| == 4 && j == i + 4 && j <= |t|
    ensures (g + t)[j..j + 4] == t[i..i + 4]
  {
  }

  // ---- Writing groups into a buffer ----

  /** A buffer with `t` written at `pos`. */
  function Patch(buffer: bytes, pos: nat, t: bytes): bytes
    requires pos + |t| <= |buffer|
  {
    buffer[..pos] + t + buffer[pos + |t|..]
  }

  lemma PatchTwice(buffer: bytes, a: bytes, b: bytes)
    requires |a + b| <= |buffer|
    ensures Patch(Patch(buffer, 0, a), |a|, b) == Patch(buffer, 0, a + b)
  {
  }

  // ---- Decoding ----

  /** Whether a decoder succeeded, and what it had written by then. */
  datatype Outcome = Outcome(ok: bool, written: bytes)

  /** Decodes a text of whole groups, one after the other; before each one it asks only whether the output is full. */
  function Decode(dec: Decoder, t: bytes, p: nat, written: bytes, size: int): (r: Outcome)
    requires p <= |t|
    decreases |t| - p
  {
    if p + 4 > |t| then Outcome(true, written)
    else if |written| >= size then Outcome(false, written)
    else
      var g := dec(t[p..p + 4]);
      if g.None? then Outcome(false, written) else Decode(dec, t, p + 4, written + g.value, size)
  }

  lemma DecodeOnce(dec: Decoder, t: bytes, p: nat, written: bytes, size: int, r: Option<bytes>)
    requires p + 4 <= |t| && |written| < size && dec(t[p..p + 4]) == r
    ensures Decode(dec, t, p, written, size) ==
      if r.None? then Outcome(false, written) else Decode(dec, t, p + 4, written + r.value, size)
  {
  }

  /** The first `k` groups of some bytes. */
  function Before(x: bytes, k: nat): bytes {
    if 3 * k <= |x| then x[..3 * k] else x
  }

  lemma BeforeNext(x: bytes, k: nat)
    requires 3 * k < |x|
    ensures Before(x, k) + Group(x, k) == Before(x, k + 1) && |Before(x, k)| == 3 * k
  {
  }

  /** How the loop ends on the encoding of `n` bytes, from group `k` on. */
  function Count(n: nat, k: nat, size: int): (r: (bool, nat))
    ensures r.1 <= n
    decreases n - 3 * k
  {
    if 3 * k >= n then (true, n)
    else if 3 * k >= size then (false, 3 * k)
    else Count(n, k + 1, size)
  }

  lemma {:induction false} DecodeEncodedFrom(enc: Encoder, dec: Decoder, x: bytes, t: bytes, k: nat, size: int)
    requires Proper(enc) && Inverse(dec, enc)
    requires t == Encode(enc, x) && |t| == EncodedLength(|x|) && k <= (|x| + 2) / 3
    ensures Decode(dec, t, 4 * k, Before(x, k), size) == Outcome(Count(|x|, k, size).0, x[..Count(|x|, k, size).1])
    decreases |x| + 3 - 3 * k
  {
    if 3 * k < |x| {
      BeforeNext(x, k);
      if 3 * k < size {
        EncodeAt(enc, x, k);
        assert Undoes(dec, enc, Group(x, k));
        DecodeEncodedFrom(enc, dec, x, t, k + 1, size);
      }
    } else {
      assert x[..|x|] == x == Before(x, k);
    }
  }

  lemma {:induction false} CountIs(n: nat, k: nat, size: int)
    ensures
      Count(n, k, size) ==
        if size >= n || 3 * k >= n then (true, n)
        else if 3 * k >= size then (false, 3 * k)
        else if (size + 2) / 3 * 3 >= n then (true, n)
        else (false, (size + 2) / 3 * 3)
    decreases n - 3 * k
  {
    if 3 * k < n && 3 * k < size {
      CountIs(n, k + 1, size);
    }
  }

  /** The round trip: with room for the bytes, decoding returns them and writes no more. */
  lemma DecodeEncoded(enc: Encoder, dec: Decoder, x: bytes, size: int)
    requires Proper(enc) && Inverse(dec, enc) && |x| <= size
    ensures Decode(dec, Encode(enc, x), 0, [], size) == Outcome(true, x)
  {
    EncodeLength(enc, x);
    DecodeEncodedFrom(enc, dec, x, Encode(enc, x), 0, size);
    CountIs(|x|, 0, size);
    assert x[..|x|] == x;
  }

  /** Without room, whole groups are written until the size is reached. On an encoding
      every write stays within the declared size exactly when that is large enough or a
      number of whole groups. */
  lemma WritesInBounds(enc: Encoder, dec: Decoder, x: bytes, size: nat)
    requires Proper(enc) && Inverse(dec, enc)
    ensures |Decode(dec, Encode(enc, x), 0, [], size).written| <= size <==> |x| <= size || size % 3 == 0
  {
    EncodeLength(enc, x);
    DecodeEncodedFrom(enc, dec, x, Encode(enc, x), 0, size);
    CountIs(|x|, 0, size);
  }

  // ---- Decoding any text ----

  ghost predicate SmallGroup(dec: Decoder, c: bytes) {
    dec(c).Some? ==> 1 <= |dec(c).value| <= 3
  }

  ghost predicate Small(dec: Decoder) {
    forall c {:trigger SmallGroup(dec, c)} :: SmallGroup(dec, c)
  }

  /** How many bytes there are after the groups before the first bad one, `n` of them
      being there at `p`. */
  function GoodLength(dec: Decoder, t: bytes, p: nat, n: nat): nat
    requires p <= |t|
    decreases |t| - p
  {
    if p + 4 > |t| || dec(t[p..p + 4]).None? then n
    else GoodLength(dec, t, p + 4, n + |dec(t[p..p + 4]).value|)
  }

  /** Some groups before the first bad one make up exactly `size` bytes. */
  predicate AtBoundary(dec: Decoder, t: bytes, p: nat, n: nat, size: nat)
    requires p <= |t|
    decreases |t| - p
  {
    || n == size
    || (p + 4 <= |t| && dec(t[p..p + 4]).Some? && AtBoundary(dec, t, p + 4, n + |dec(t[p..p + 4]).value|, size))
  }

  lemma {:induction false} NoBoundaryBelow(dec: Decoder, t: bytes, p: nat, n: nat, size: nat)
    requires Small(dec) && p <= |t|
    ensures n > size ==> !AtBoundary(dec, t, p, n, size)
    ensures n <= GoodLength(dec, t, p, n) <= n + 3 * ((|t| - p) / 4)
    decreases |t| - p
  {
    if p + 4 <= |t| && dec(t[p..p + 4]).Some? {
      assert SmallGroup(dec, t[p..p + 4]);
      NoBoundaryBelow(dec, t, p + 4, n + |dec(t[p..p + 4]).value|, size);
    }
  }

  /** On any text, every write stays within the declared size exactly when that holds all
      the groups before a bad one, or ends with one of them. */
  lemma {:induction false} WritesInBoundsFrom(dec: Decoder, t: bytes, p: nat, written: bytes, size: nat)
    requires Small(dec) && p <= |t| && |written| <= size
    ensures |Decode(dec, t, p, written, size).written| <= size
      <==> GoodLength(dec, t, p, |written|) <= size || AtBoundary(dec, t, p, |written|, size)
    decreases |t| - p
  {
    if p + 4 <= |t| && |written| < size && dec(t[p..p + 4]).Some? {
      var g := dec(t[p..p + 4]).value;
      assert SmallGroup(dec, t[p..p + 4]);
      NoBoundaryBelow(dec, t, p + 4, |written + g|, size);
      if |written + g| <= size {
        WritesInBoundsFrom(dec, t, p + 4, written + g, size);
      } else {
        DecodeGrows(dec, t, p + 4, written + g, size);
      }
    }
  }

  lemma {:induction false} DecodeGrows(dec: Decoder, t: bytes, p: nat, written: bytes, size: int)
    requires p <= |t|
    ensures written <= Decode(dec, t, p, written, size).written
    decreases |t| - p
  {
    if p + 4 <= |t| && |written| < size && dec(t[p..p + 4]).Some? {
      DecodeGrows(dec, t, p + 4, written + dec(t[p..p + 4]).value, size);
    }
  }

  /** In particular three bytes for every four characters are enough. */
  lemma ThreePerFour(dec: Decoder, t: bytes, size: nat)
    requires Small(dec) && size >= 3 * (|t| / 4)
    ensures |Decode(dec, t, 0, [], size).written| <= size
  {
    NoBoundaryBelow(dec, t, 0, 0, size);
    WritesInBoundsFrom(dec, t, 0, [], size);
  }
}
