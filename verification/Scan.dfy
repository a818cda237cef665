/** The two scanning loops of the reader, against their meaning in the grammar. */
module Scan {
  import opened Bytes
  import opened Resp

  /** A byte of a dynamic string; the byte at its length is always NUL. */
  function At(s: bytes, i: nat): byte
    requires i <= |s|
  {
    if i < |s| then s[i] else NUL
  }

  /** Finds the first CR LF, never looking beyond the terminator. */
  method SeekNewline(s: bytes) returns (r: Option<nat>)
    ensures r == FindCrlf(s)
  {
    var pos, last := 0, |s| - 1;
    while pos < last
      invariant 0 <= pos
      invariant pos <= |s|
      invariant forall k :: 0 <= k < pos ==> !IsCrlf(s, k)
    {
      while pos < last && s[pos] != CR
        invariant 0 <= pos <= last
        invariant forall k :: 0 <= k < pos ==> !IsCrlf(s, k)
      {
        pos := pos + 1;
      }
      if s[pos] != CR {
        return None;
      } else if At(s, pos + 1) == LF {
        assert IsCrlf(s, pos);
        return Some(pos);
      } else {
        pos := pos + 1;
      }
    }
    return None;
  }

  lemma AllDigitsSnoc(s: bytes, b: byte)
    ensures AllDigits(s + [b]) <==> AllDigits(s) && IsDigit(b)
    ensures AllDigits(s + [b]) ==> DigitsValue(s + [b]) == 10 * DigitsValue(s) + (b - ZERO) as int
  {
    var t := s + [b];
    assert t[..|t| - 1] == s;
    assert AllDigits(t) ==> AllDigits(s) by {
      assert forall i :: 0 <= i < |s| ==> t[i] == s[i];
    }
    assert t[|s|] == b;
  }

  /** Reads a number that starts at `s` and ends before the first CR. */
  method ReadLongLong(s: bytes) returns (v: int)
    requires CR in s
    ensures v == LineNumber(s)
  {
    ghost var t := UpToCr(s);
    assert |t| < |s|;
    var p, mult := 0, 1;
    if s[0] == MINUS {
      mult, p := -1, 1;
    } else if s[0] == PLUS {
      p := 1;
    }
    ghost var start := p;
    ghost var digits := t[start..];
    v := 0;
    while s[p] != CR
      invariant start <= p <= |t|
      invariant AllDigits(t[start..p])
      invariant v == DigitsValue(t[start..p])
      decreases |t| - p
    {
      var c := s[p];
      p := p + 1;
      assert p - 1 < |t| by { assert s[|t|] == CR; }
      assert t[start..p] == t[start..p - 1] + [c];
      AllDigitsSnoc(t[start..p - 1], c);
      if IsDigit(c) {
        v := v * 10 + (c - ZERO) as int;
      } else {
        assert digits[p - 1 - start] == c;
        return -1;
      }
    }
    assert t[start..p] == digits;
    v := mult * v;
  }

  /** A number ends at the first CR, so cutting the text at a later CR LF does not matter. */
  lemma LineNumberCut(s: bytes, i: nat)
    requires i < |s| && s[i] == CR
    ensures LineNumber(s[..i]) == LineNumber(s)
  {
    var a, b := UpToCr(s[..i]), UpToCr(s);
    assert |b| <= i;
    assert |a| < i ==> s[|a|] == CR;
    assert |b| < i ==> s[..i][|b|] == CR;
    assert a == b;
  }

  /** Reads the line of an error, a status or an integer. */
  method ReadLineItem(kind: Kind, p: bytes) returns (r: Option<Sized<Reply>>)
    requires kind == ErrorKind || kind == StatusKind || kind == IntegerKind
    ensures r == Scalar(kind, p)
  {
    var s := SeekNewline(p);
    if s.None? {
      return None;
    }
    var i := s.value;
    if kind == IntegerKind {
      var n := ReadLongLong(p);
      LineNumberCut(p, i);
      return Some(Sized(Integer(n), i + 2));
    }
    return Some(Sized(if kind == ErrorKind then Error(p[..i]) else Status(p[..i]), i + 2));
  }

  /** Reads an array header. */
  method ReadHeader(p: bytes) returns (r: Option<Sized<int>>)
    ensures r == Header(p)
  {
    var s := SeekNewline(p);
    if s.None? {
      return None;
    }
    var n := ReadLongLong(p);
    LineNumberCut(p, s.value);
    return Some(Sized(n, s.value + 2));
  }

  /** Reads a bulk header and, when all of it is there, the payload. */
  method ReadBulkItem(p: bytes) returns (r: Option<Sized<Reply>>)
    ensures r == Scalar(BulkKind, p)
  {
    var h := ReadHeader(p);
    if h.None? {
      return None;
    }
    var n, bytelen := h.value.value, h.value.size;
    if n < 0 {
      return Some(Sized(Nil, bytelen));
    }
    var start := bytelen;
    bytelen := bytelen + n + 2;
    if bytelen <= |p| {
      return Some(Sized(Bulk(p[start..start + n]), bytelen));
    }
    return None;
  }
}
