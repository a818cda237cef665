/**
 The codec of util/base64.cc, with the alphabet of section 5 of RFC 4648: an encoder and
 a decoder that work group by group on buffers of the caller.
 */
module Base64Url {
  import opened Bits
  import opened Bytes
  import opened Groups
  import opened Base64

  function EncodeUrl(x: bytes): bytes {
    Encode(EncoderOf(URL), x)
  }

  // ---- Encoding ----

  /** base64_encode_group. */
  method EncodeGroupInto(input: bytes, at: nat, groupLength: nat, output: array<byte>, pos: nat, ghost g: bytes)
    requires 1 <= groupLength <= 3 && at + groupLength <= |input| && pos + 4 <= output.Length
    requires g == EncodeGroup(URL, input[at..at + groupLength])
    modifies output
    ensures |g| == 4 && output[..] == Patch(old(output[..]), pos, g)
  {
    var first := Char(URL, First(input[at]));
    if groupLength == 3 {
      Write4(output, pos, first, Char(URL, Second(input[at], input[at + 1])),
             Char(URL, Third(input[at + 1], input[at + 2])), Char(URL, Fourth(input[at + 2])));
    } else if groupLength == 2 {
      Write4(output, pos, first, Char(URL, Second(input[at], input[at + 1])), Char(URL, Third(input[at + 1], 0)),
             EQUALS);
    } else {
      Write4(output, pos, first, Char(URL, Second(input[at], 0)), EQUALS, EQUALS);
    }
  }

  /** The five-argument base64_encode. The result length is left alone on failure. */
  method EncodeBuffer(input: bytes, output: array?<byte>, outputSize: int, oldLength: int)
    returns (status: int, resultLength: int)
    requires output != null ==> outputSize <= output.Length
    modifies output
    ensures status == if output == null || outputSize < EncodedLength(|input|) then -1 else 0
    ensures status == 0 ==>
      && resultLength == |EncodeUrl(input)| <= outputSize
      && output[..] == Patch(old(output[..]), 0, EncodeUrl(input))
    ensures status != 0 ==> resultLength == oldLength && (output != null ==> output[..] == old(output[..]))
  {
    if output == null {
      return -1, oldLength;
    }
    var encodeLength := (|input| + 2) / 3 * 4;
    if outputSize < encodeLength {
      return -1, oldLength;
    }
    EncodingIs(URL, input);
    EncodeGroups(input, output, EncodeUrl(input));
    return 0, encodeLength;
  }

  method EncodeGroups(input: bytes, output: array<byte>, ghost t: bytes)
    requires IsEncoding(URL, t, input) && |t| <= output.Length
    modifies output
    ensures output[..] == Patch(old(output[..]), 0, t)
  {
    ghost var buffer := output[..];
    var count := (|input| + 2) / 3;
    var i := 0;
    assert buffer == Partly(buffer, t, 0);
    while i < count
      invariant 0 <= i <= count && output[..] == Partly(buffer, t, 4 * i)
    {
      var n := if i == count - 1 then |input| - 3 * i else 3;
      NextGroup(input, t, i, n);
      ghost var g := t[4 * i..4 * i + 4];
      PartlyNext(buffer, t, 4 * i, g);
      EncodeGroupInto(input, 3 * i, n, output, 4 * i, g);
      i := i + 1;
    }
    assert t[..|t|] == t;
  }

  lemma NextGroup(input: bytes, t: bytes, i: nat, n: nat)
    requires IsEncoding(URL, t, input) && i < (|input| + 2) / 3
    requires n == if i == (|input| + 2) / 3 - 1 then |input| - 3 * i else 3
    ensures 1 <= n <= 3 && 3 * i + n <= |input| && t[4 * i..4 * i + 4] == EncodeGroup(URL, input[3 * i..3 * i + n])
  {
    assert HasGroup(URL, t, input, i);
    assert input[3 * i..3 * i + n] == Group(input, i);
  }

  // ---- Decoding ----

  const XX: nat := 127

  /** The decoding table. */
  function Char64(c: byte): nat {
    var v := Value(URL, c);
    if v.Some? then v.value as nat else XX
  }

  /** What four characters decode to; nothing when one of them is bad. */
  function DecodeGroup(c: bytes): Option<bytes> {
    if |c| != 4 then None
    else
      var u, v, w, x := Value(URL, c[0]), Value(URL, c[1]), Value(URL, c[2]), Value(URL, c[3]);
      if c[2] == EQUALS && c[3] == EQUALS then
        if u.None? || v.None? then None else Some([Byte0(u.value, v.value)])
      else if c[3] == EQUALS then
        if u.None? || v.None? || w.None? then None
        else Some([Byte0(u.value, v.value), Byte1(v.value, w.value)])
      else
        if u.None? || v.None? || w.None? || x.None? then None
        else Some([Byte0(u.value, v.value), Byte1(v.value, w.value), Byte2(w.value, x.value)])
  }

  const DECODER: Decoder := DecodeGroup

  lemma DecodeChars(u: sextet, v: sextet, w: sextet, x: sextet, a: byte, b: byte, c: byte)
    requires a == Byte0(u, v) && b == Byte1(v, w) && c == Byte2(w, x)
    ensures DecodeGroup([Char(URL, u), Char(URL, v), Char(URL, w), Char(URL, x)]) == Some([a, b, c])
    ensures DecodeGroup([Char(URL, u), Char(URL, v), Char(URL, w), EQUALS]) == Some([a, b])
    ensures DecodeGroup([Char(URL, u), Char(URL, v), EQUALS, EQUALS]) == Some([a])
  {
    TablesInvert(URL, u, 0);
    TablesInvert(URL, v, 0);
    TablesInvert(URL, w, 0);
    TablesInvert(URL, x, 0);
  }

  /** The characters of a group, with the padding. */
  function Padded(n: nat, u: sextet, v: sextet, w: sextet, x: sextet): bytes {
    if n == 3 then [Char(URL, u), Char(URL, v), Char(URL, w), Char(URL, x)]
    else if n == 2 then [Char(URL, u), Char(URL, v), Char(URL, w), EQUALS]
    else [Char(URL, u), Char(URL, v), EQUALS, EQUALS]
  }

  lemma DecodePadded(n: nat, u: sextet, v: sextet, w: sextet, x: sextet, a: byte, b: byte, c: byte)
    requires 1 <= n <= 3 && a == Byte0(u, v) && b == Byte1(v, w) && c == Byte2(w, x)
    ensures DecodeGroup(Padded(n, u, v, w, x)) == Some([a, b, c][..n])
  {
    DecodeChars(u, v, w, x, a, b, c);
    assert [a, b, c][..3] == [a, b, c] && [a, b, c][..2] == [a, b] && [a, b, c][..1] == [a];
  }

  lemma EncodesAs(g: bytes) returns (u: sextet, v: sextet, w: sextet, x: sextet)
    requires 1 <= |g| <= 3
    ensures EncodeGroup(URL, g) == Padded(|g|, u, v, w, x)
    ensures Byte0(u, v) == g[0] && (|g| > 1 ==> Byte1(v, w) == g[1]) && (|g| > 2 ==> Byte2(w, x) == g[2])
  {
    var a, b, c := g[0], if |g| > 1 then g[1] else 0, if |g| > 2 then g[2] else 0;
    u, v, w, x := First(a), Second(a, b), Third(b, c), Fourth(c);
    BytesFromSextets(a, b, c);
  }

  lemma GroupRoundTrip(g: bytes)
    requires 1 <= |g| <= 3
    ensures DecodeGroup(EncodeGroup(URL, g)) == Some(g)
  {
    var u, v, w, x := EncodesAs(g);
    var a, b, c := Byte0(u, v), Byte1(v, w), Byte2(w, x);
    DecodePadded(|g|, u, v, w, x, a, b, c);
    assert [a, b, c][..|g|] == g;
  }

  lemma CodecLaws()
    ensures Groups.Proper(EncoderOf(URL)) && Inverse(DECODER, EncoderOf(URL)) && Small(DECODER)
  {
    EncoderIsProper(URL);
    forall g ensures Undoes(DECODER, EncoderOf(URL), g) {
      if 1 <= |g| <= 3 {
        GroupRoundTrip(g);
      }
    }
    forall c ensures SmallGroup(DECODER, c) {}
  }

  /** The round trip: every byte string comes back, with no write behind its end. */
  lemma UrlRoundTrip(x: bytes, size: int)
    requires |x| <= size
    ensures Decode(DECODER, EncodeUrl(x), 0, [], size) == Outcome(true, x)
  {
    CodecLaws();
    DecodeEncoded(EncoderOf(URL), DECODER, x, size);
  }

  /** The decoder keeps within a declared size exactly when an encoding fits or the size
      is a number of whole groups. */
  lemma UrlWritesInBounds(x: bytes, size: nat)
    ensures |Decode(DECODER, EncodeUrl(x), 0, [], size).written| <= size <==> |x| <= size || size % 3 == 0
  {
    CodecLaws();
    WritesInBounds(EncoderOf(URL), DECODER, x, size);
  }

  /** For instance two bytes decoded into a buffer of one: it succeeds and writes both. */
  lemma WritesBehindTheEnd(a: byte, b: byte)
    ensures Decode(DECODER, EncodeUrl([a, b]), 0, [], 1) == Outcome(true, [a, b])
  {
    CodecLaws();
    var enc := EncoderOf(URL);
    EncodeLength(enc, [a, b]);
    DecodeEncodedFrom(enc, DECODER, [a, b], EncodeUrl([a, b]), 0, 1);
    CountIs(2, 0, 1);
    assert [a, b][..2] == [a, b];
  }

  /** The checks of one group. */
  method BadData(t: bytes, p: nat) returns (bad: bool)
    requires p + 4 <= |t|
    ensures bad == DecodeGroup(t[p..p + 4]).None?
  {
    var c := t[p..p + 4];
    if c[2] == EQUALS && c[3] == EQUALS {
      bad := Char64(c[0]) == XX || Char64(c[1]) == XX;
    } else if c[3] == EQUALS {
      bad := Char64(c[0]) == XX || Char64(c[1]) == XX || Char64(c[2]) == XX;
    } else {
      bad := false;
      var i := 0;
      while i < 4 && !bad
        invariant 0 <= i <= 4
        invariant bad == exists k :: 0 <= k < i && Value(URL, c[k]).None?
      {
        bad := Char64(c[i]) == XX || c[i] == EQUALS;
        i := i + 1;
      }
      assert (exists k :: 0 <= k < 4 && Value(URL, c[k]).None?) <==>
        Value(URL, c[0]).None? || Value(URL, c[1]).None? || Value(URL, c[2]).None? || Value(URL, c[3]).None?;
    }
  }

  // The bytes of a good group, as they are put together.

  lemma FirstByte(c: bytes, g: bytes)
    requires |c| == 4 && DecodeGroup(c) == Some(g)
    ensures |g| >= 1 && Or(Char64(c[0]) * 4 % 256, Char64(c[1]) / 16) == g[0] as nat
  {
    CutToByte(Value(URL, c[0]).value);
    OrMakes0(Value(URL, c[0]).value, Value(URL, c[1]).value);
  }

  lemma SecondByte(c: bytes, g: bytes)
    requires |c| == 4 && DecodeGroup(c) == Some(g) && |g| >= 2
    ensures Or(Char64(c[1]) * 16 % 256, Char64(c[2]) / 4) == g[1] as nat
  {
    CutToByte(Value(URL, c[1]).value);
    OrMakes1(Value(URL, c[1]).value, Value(URL, c[2]).value);
  }

  lemma ThirdByte(c: bytes, g: bytes)
    requires |c| == 4 && DecodeGroup(c) == Some(g) && |g| == 3
    ensures Or(Char64(c[2]) * 64 % 256, Char64(c[3])) == g[2] as nat
  {
    CutToByte(Value(URL, c[2]).value);
    OrMakes2(Value(URL, c[2]).value, Value(URL, c[3]).value);
  }

  lemma GroupSize(c: bytes, g: bytes)
    requires |c| == 4 && DecodeGroup(c) == Some(g)
    ensures |g| == if c[2] == EQUALS && c[3] == EQUALS then 1 else if c[3] == EQUALS then 2 else 3
  {
  }

  /** Stores the high part of a byte and or-s the low part into it. */
  method StoreOr(output: array<byte>, at: nat, high: nat, low: nat, ghost b: byte)
    requires at < output.Length && high < 256 && Or(high, low) == b as nat
    modifies output
    ensures output[..] == old(output[..])[at := b]
  {
    output[at] := high as byte;
    output[at] := Or(output[at] as nat, low) as byte;
  }

  /** base64_decode_group, for characters that were checked. */
  method DecodeGroupInto(c: bytes, output: array<byte>, at: nat, ghost g: bytes) returns (written: nat)
    requires |c| == 4 && DecodeGroup(c) == Some(g) && at + |g| <= output.Length
    modifies output
    ensures written == |g| && output[..] == Patch(old(output[..]), at, g)
  {
    ghost var buffer := output[..];
    GroupSize(c, g);
    FirstByte(c, g);
    StoreOr(output, at, Char64(c[0]) * 4 % 256, Char64(c[1]) / 16, g[0]);
    written := 1;
    if c[2] != EQUALS || c[3] != EQUALS {
      SecondByte(c, g);
      StoreOr(output, at + 1, Char64(c[1]) * 16 % 256, Char64(c[2]) / 4, g[1]);
      written := 2;
      if c[3] != EQUALS {
        ThirdByte(c, g);
        StoreOr(output, at + 2, Char64(c[2]) * 64 % 256, Char64(c[3]), g[2]);
        written := 3;
      }
    }
    PatchIs(buffer, at, g, output[..]);
  }

  lemma PatchIs(buffer: bytes, at: nat, g: bytes, b: bytes)
    requires 1 <= |g| <= 3 && at + |g| <= |buffer|
    requires b == if |g| == 1 then buffer[at := g[0]]
                  else if |g| == 2 then buffer[at := g[0]][at + 1 := g[1]]
                  else buffer[at := g[0]][at + 1 := g[1]][at + 2 := g[2]]
    ensures b == Patch(buffer, at, g)
  {
  }

  /** The five-argument base64_decode. `output` is the memory that starts at the buffer,
      with the two bytes behind the declared size. */
  method DecodeBuffer(input: bytes, output: array?<byte>, outputSize: int, oldLength: int)
    returns (status: int, resultLength: int)
    requires output != null ==> outputSize + 2 <= output.Length
    modifies output
    ensures output == null || |input| % 4 != 0 ==>
      status == -1 && resultLength == oldLength && (output != null ==> output[..] == old(output[..]))
    ensures output != null && |input| % 4 == 0 ==>
      var r := Decode(DECODER, input, 0, [], outputSize);
      && status == (if r.ok then 0 else -1) && resultLength == |r.written| <= output.Length
      && output[..] == Patch(old(output[..]), 0, r.written)
  {
    if output == null {
      return -1, oldLength;
    }
    if |input| % 4 != 0 {
      return -1, oldLength;
    }
    ghost var r := Decode(DECODER, input, 0, [], outputSize);
    var ok;
    ok, resultLength := DecodeGroups(input, output, outputSize, DECODER, r);
    return if ok then 0 else -1, resultLength;
  }

  /** The loop over the groups. */
  method DecodeGroups(input: bytes, output: array<byte>, outputSize: int, ghost dec: Decoder, ghost r: Outcome)
    returns (ok: bool, resultLength: nat)
    requires |input| % 4 == 0 && outputSize + 2 <= output.Length
    requires dec == DECODER && r == Decode(dec, input, 0, [], outputSize)
    modifies output
    ensures
      && ok == r.ok
      && resultLength == |r.written| <= output.Length
      && output[..] == Patch(old(output[..]), 0, r.written)
  {
    ghost var buffer, w: bytes := output[..], [];
    var count := 0;
    resultLength := 0;
    while count < |input|
      invariant Reached(dec, input, outputSize, r, buffer, output[..], count, w) && resultLength == |w|
      decreases |input| - count
    {
      if resultLength >= outputSize {
        return false, resultLength;
      }
      var bad;
      bad, resultLength, w := DecodeNext(input, count, output, resultLength, outputSize, dec, r, buffer, w);
      if bad {
        return false, resultLength;
      }
      count := count + 4;
    }
    return true, resultLength;
  }

  /** The groups before `count` are decoded. */
  ghost predicate Reached(dec: Decoder, input: bytes, outputSize: int, r: Outcome, buffer: bytes, now: bytes,
                          count: nat, w: bytes)
  {
    && count <= |input| && (|input| - count) % 4 == 0 && r == Decode(dec, input, count, w, outputSize)
    && |w| <= |buffer| == |now| && now == Patch(buffer, 0, w)
  }

  /** One round of the loop: checks a group and decodes it behind what was written. */
  method DecodeNext(input: bytes, count: nat, output: array<byte>, at: nat, outputSize: int, ghost dec: Decoder,
                    ghost r: Outcome, ghost buffer: bytes, ghost w: bytes)
    returns (bad: bool, at': nat, ghost w': bytes)
    requires Reached(dec, input, outputSize, r, buffer, output[..], count, w) && dec == DECODER
    requires count < |input| && at == |w| < outputSize && outputSize + 2 <= output.Length
    modifies output
    ensures at' == |w'| <= output.Length && output[..] == Patch(buffer, 0, w')
    ensures if bad then r == Outcome(false, w')
            else Reached(dec, input, outputSize, r, buffer, output[..], count + 4, w')
  {
    assert count + 4 <= |input|;
    var c := input[count..count + 4];
    ghost var d := Decoded(dec, c);
    DecodeOnce(dec, input, count, w, outputSize, d);
    bad := BadData(input, count);
    if bad {
      return bad, at, w;
    }
    var written := DecodeGroupInto(c, output, at, d.value);
    PatchTwice(buffer, w, d.value);
    return bad, at + written, w + d.value;
  }

  lemma Decoded(dec: Decoder, c: bytes) returns (d: Option<bytes>)
    requires dec == DECODER
    ensures d == dec(c) == DecodeGroup(c) && (d.Some? ==> 1 <= |d.value| <= 3)
  {
    d := dec(c);
  }
}
