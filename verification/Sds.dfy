/**
 Dynamic strings (sds): a buffer with its length, its spare bytes and one byte for
 the terminating NUL, rewritten in place and reallocated when it must grow.
 */
module Sds {
  import opened Bytes
  import opened Numerals
  import Sequences

  const MAX_PREALLOC: nat := 1024 * 1024

  /** The capacity a string of `len` bytes with `free` spare ones has after room
      for `add` more has been made: unchanged when it suffices, else twice the
      need, or one mebibyte more than the need for long strings. */
  function RoomFor(len: nat, free: nat, add: nat): (capacity: nat)
    ensures capacity >= len + add && capacity >= len + free
  {
    if free >= add then len + free
    else if len + add < MAX_PREALLOC then 2 * (len + add)
    else len + add + MAX_PREALLOC
  }

  /** A string that must grow gets as much spare room as it needs, but no more than one mebibyte. */
  lemma RoomIs(len: nat, free: nat, add: nat)
    ensures RoomFor(len, free, add) - (len + add) ==
            if free >= add then free - add else if len + add < 1048576 then len + add else 1048576
  {
  }

  /** The bytes from position `start` to position `end`, both included, where negative
      positions count from the end and positions before the start mean the first byte. */
  function Slice(s: bytes, start: int, end: int): bytes {
    var n := |s|;
    var a := if start >= 0 then start else if n + start < 0 then 0 else n + start;
    var b := if end >= 0 then end else if n + end < 0 then 0 else n + end;
    if a > b || a >= n then [] else s[a..if b < n then b + 1 else n]
  }

  /** Positions mean the same counted from the front and from the back; those behind the end mean
      the last byte, and those before the start the first one. */
  lemma SliceIs(s: bytes, i: nat, j: nat, more: nat)
    requires i <= j < |s|
    ensures Slice(s, i, j) == Slice(s, i - |s|, j - |s|) == s[i..j + 1]
    ensures Slice(s, i, |s| + more) == Slice(s, i, -1) == s[i..]
    ensures Slice(s, -|s| - more, j) == Slice(s, 0, j) == s[..j + 1]
    ensures Slice(s, j + 1, i) == [] && Slice(s, |s| + more, j) == []
  {
  }

  /** What strchr accepts when it is asked for a byte of `cset`: its bytes, and NUL. */
  predicate Trimmed(cset: bytes, b: byte) {
    b == NUL || b in CString(cset)
  }

  /** `t` is `s` without the trimmed bytes at either end. */
  ghost predicate IsTrimOf(t: bytes, s: bytes, cset: bytes) {
    exists i, j ::
      && 0 <= i <= j <= |s| && t == s[i..j]
      && (forall k :: 0 <= k < i ==> Trimmed(cset, s[k]))
      && (forall k :: j <= k < |s| ==> Trimmed(cset, s[k]))
      && (i < j ==> !Trimmed(cset, s[i]) && !Trimmed(cset, s[j - 1]))
  }

  // ---- sdscatfmt formats ----

  datatype Arg = Str(s: bytes) | Num(n: int)

  const LOWER_S: byte := 115
  const UPPER_S: byte := 83
  const LOWER_I: byte := 105
  const UPPER_I: byte := 73
  const LOWER_U: byte := 117
  const UPPER_U: byte := 85
  const UPPER_T: byte := 84

  datatype Conversion = CText | SdsText | SignedNumber | UnsignedNumber | Verbatim

  function ConversionOf(c: byte): Conversion {
    if c == LOWER_S then CText
    else if c == UPPER_S then SdsText
    else if c == LOWER_I || c == UPPER_I then SignedNumber
    else if c == LOWER_U || c == UPPER_U || c == UPPER_T then UnsignedNumber
    else Verbatim
  }

  /** What one conversion prints. */
  function Convert(c: byte, args: seq<Arg>): Option<bytes> {
    match ConversionOf(c)
    case CText => if args != [] && args[0].Str? then Some(CString(args[0].s)) else None
    case SdsText => if args != [] && args[0].Str? then Some(args[0].s) else None
    case SignedNumber =>
      if args != [] && args[0].Num? && -0x8000_0000_0000_0000 < args[0].n < 0x8000_0000_0000_0000
      then Some(Signed(args[0].n)) else None
    case UnsignedNumber =>
      if args != [] && args[0].Num? && 0 <= args[0].n < 0x1_0000_0000_0000_0000
      then Some(Decimal(args[0].n)) else None
    case Verbatim => Some([c])
  }

  /** The arguments that one conversion leaves. */
  function Remaining(c: byte, args: seq<Arg>): seq<Arg> {
    if ConversionOf(c).Verbatim? || args == [] then args else args[1..]
  }

  /** The text of a format; `None` when the arguments do not fit it or it ends in a
      lone percent sign. */
  function Render(fmt: bytes, args: seq<Arg>): Option<bytes> {
    if fmt == [] then Some([])
    else if fmt[0] != PERCENT then
      match Render(fmt[1..], args)
      case None => None
      case Some(t) => Some([fmt[0]] + t)
    else if |fmt| == 1 then None
    else match (Convert(fmt[1], args), Render(fmt[2..], Remaining(fmt[1], args)))
      case (Some(text), Some(t)) => Some(text + t)
      case _ => None
  }

  /** memcpy: writes `t` into `a` at position `at`. */
  method CopyInto(a: array<byte>, at: nat, t: bytes)
    requires at + |t| <= a.Length
    modifies a
    ensures a[..at] == old(a[..at])
    ensures a[at..at + |t|] == t
    ensures a[at + |t|..] == old(a[at + |t|..])
  {
    forall i | 0 <= i < |t| {
      a[at + i] := t[i];
    }
  }

  class Sds {
    var buf: array<byte>
    var len: nat
    var free: nat

    /** The header agrees with the allocation. */
    ghost predicate Sized()
      reads this, buf
    {
      buf.Length == len + free + 1
    }

    ghost predicate Valid()
      reads this, buf
    {
      Sized() && buf[len] == NUL
    }

    ghost function Contents(): bytes
      reads this, buf
      requires len <= buf.Length
    {
      buf[..len]
    }

    /** sdsnewlen with an initial content. */
    constructor (init: bytes)
      ensures Valid() && Contents() == init && free == 0 && fresh(buf)
    {
      var b := new byte[|init| + 1](i => if 0 <= i < |init| then init[i] else NUL);
      assert b[..|init|] == init;
      buf, len, free := b, |init|, 0;
    }

    /** Makes room for `add` more bytes without changing the content. */
    method MakeRoomFor(add: nat)
      requires Sized()
      modifies this`buf, this`free
      ensures Sized() && Contents() == old(Contents()) && buf[len] == old(buf[len])
      ensures len + free == RoomFor(len, old(free), add)
      ensures buf == old(buf) || fresh(buf)
    {
      if free >= add {
        return;
      }
      var newlen := len + add;
      if newlen < MAX_PREALLOC {
        newlen := newlen * 2;
      } else {
        newlen := newlen + MAX_PREALLOC;
      }
      var b := new byte[newlen + 1](i requires 0 <= i reads this, buf => if i < buf.Length then buf[i] else NUL);
      assert b[..len] == buf[..len];
      buf, free := b, newlen - len;
    }

    /** Appends `t`. */
    method CatLen(t: bytes)
      requires Valid()
      modifies this, buf
      ensures Valid() && Contents() == old(Contents()) + t
      ensures len + free == RoomFor(old(len), old(free), |t|)
      ensures buf == old(buf) || fresh(buf)
    {
      var curlen := len;
      MakeRoomFor(|t|);
      CopyInto(buf, curlen, t);
      len, free := curlen + |t|, free - |t|;
      buf[len] := NUL;
      assert buf[..len] == buf[..curlen] + buf[curlen..len];
    }

    /** Replaces the content by `t`. */
    method CpyLen(t: bytes)
      requires Valid()
      modifies this, buf
      ensures Valid() && Contents() == t
      ensures buf == old(buf) || fresh(buf)
    {
      var totlen := free + len;
      if totlen < |t| {
        MakeRoomFor(|t| - len);
        totlen := free + len;
      }
      CopyInto(buf, 0, t);
      buf[|t|] := NUL;
      len, free := |t|, totlen - |t|;
      assert buf[..len] == buf[0..|t|];
    }

    /** Grows the content with NULs to `n` bytes, or leaves it alone when it is longer. */
    method GrowZero(n: nat)
      requires Valid()
      modifies this, buf
      ensures Valid()
      ensures Contents() == if n <= old(len) then old(Contents()) else old(Contents()) + seq(n - old(len), _ => NUL)
      ensures buf == old(buf) || fresh(buf)
    {
      var curlen := len;
      if n <= curlen {
        return;
      }
      MakeRoomFor(n - curlen);
      CopyInto(buf, curlen, seq(n - curlen + 1, _ => NUL));
      var totlen := len + free;
      len := n;
      free := totlen - len;
      assert buf[..len] == buf[..curlen] + buf[curlen..curlen + (n - curlen + 1)][..n - curlen];
    }

    /** Moves `n` bytes from position `from` to the front and cuts the content there. */
    method KeepFrom(from: nat, n: nat)
      requires Valid() && from + n <= len
      modifies this`len, this`free, buf
      ensures Valid() && Contents() == old(Contents())[from..from + n]
      ensures len + free == old(len + free)
    {
      ghost var s := buf[..len];
      var kept := buf[from..from + n];
      CopyInto(buf, 0, kept);
      buf[n] := NUL;
      free := free + (len - n);
      len := n;
      assert buf[..n] == buf[0..0 + |kept|];
      assert s[from..from + n] == kept;
    }

    /** Keeps a slice of the content. */
    method Range(start: int, end: int)
      requires Valid()
      modifies this`len, this`free, buf
      ensures Valid() && Contents() == Slice(old(Contents()), start, end)
      ensures len + free == old(len + free)
    {
      if len == 0 {
        return;
      }
      var a, b := start, end;
      if a < 0 {
        a := len + a;
        if a < 0 { a := 0; }
      }
      if b < 0 {
        b := len + b;
        if b < 0 { b := 0; }
      }
      var newlen := if a > b then 0 else b - a + 1;
      if newlen != 0 {
        if a >= len {
          newlen := 0;
        } else if b >= len {
          b := len - 1;
          newlen := if a > b then 0 else b - a + 1;
        }
      } else {
        a := 0;
      }
      KeepFrom(if newlen == 0 then 0 else a, newlen);
    }

    /** Cuts the bytes of `cset`, and NULs, off both ends. */
    method Trim(cset: bytes)
      requires Valid()
      modifies this`len, this`free, buf
      ensures Valid() && IsTrimOf(Contents(), old(Contents()), cset)
      ensures len + free == old(len + free)
    {
      ghost var s := buf[..len];
      var sp, ep := 0, len - 1;
      while sp <= len - 1 && Trimmed(cset, buf[sp])
        invariant 0 <= sp <= len
        invariant forall k :: 0 <= k < sp ==> Trimmed(cset, s[k])
      {
        sp := sp + 1;
      }
      while ep > 0 && Trimmed(cset, buf[ep])
        invariant -1 <= ep < len && (len > 0 ==> ep >= 0)
        invariant forall k :: ep < k < len ==> Trimmed(cset, s[k])
      {
        ep := ep - 1;
      }
      var n := if sp > ep then 0 else ep - sp + 1;
      if n == 0 {
        KeepFrom(0, 0);
        assert [] == s[|s|..|s|];
        assert sp == |s| ==> forall k :: 0 <= k < |s| ==> Trimmed(cset, s[k]);
      } else {
        assert s[sp..ep + 1] == s[sp..sp + n];
        KeepFrom(sp, n);
      }
    }

    /** Appends `t` without terminating the string, growing it first if needed. */
    method Put(t: bytes)
      requires Sized()
      modifies this, buf
      ensures Sized() && Contents() == old(Contents()) + t
      ensures buf == old(buf) || fresh(buf)
    {
      if free < |t| {
        MakeRoomFor(|t|);
      }
      var i := len;
      CopyInto(buf, i, t);
      len, free := len + |t|, free - |t|;
      assert buf[..len] == buf[..i] + buf[i..len];
    }

    /** The text of one conversion, with numbers printed by digit reversal. */
    method ConversionText(c: byte, args: seq<Arg>) returns (text: bytes)
      requires Convert(c, args).Some?
      ensures text == Convert(c, args).value
    {
      match ConversionOf(c)
      case CText => text := CString(args[0].s);
      case SdsText => text := args[0].s;
      case SignedNumber =>
        var digits := new byte[LLSTR_SIZE];
        var l := SignedText(digits, args[0].n);
        text := digits[..l];
      case UnsignedNumber =>
        var digits := new byte[LLSTR_SIZE];
        var l := UnsignedText(digits, args[0].n);
        text := digits[..l];
      case Verbatim => text := [c];
    }

    /** The next piece of a format: its text, and where the format and its arguments go on. */
    method NextPiece(fmt: bytes, f: nat, args: seq<Arg>) returns (text: bytes, f': nat, args': seq<Arg>)
      requires f < |fmt| && Render(fmt[f..], args).Some?
      ensures f < f' <= |fmt| && Render(fmt[f'..], args').Some?
      ensures Render(fmt[f..], args).value == text + Render(fmt[f'..], args').value
    {
      if fmt[f] == PERCENT {
        text := ConversionText(fmt[f + 1], args);
        args' := Remaining(fmt[f + 1], args);
        f' := f + 2;
        assert fmt[f..][2..] == fmt[f'..];
      } else {
        text, f', args' := [fmt[f]], f + 1, args;
        assert fmt[f..][1..] == fmt[f'..];
      }
    }

    /** sdscatfmt: appends the text of a format, one byte or conversion at a time. */
    method CatFmt(fmt: bytes, args: seq<Arg>)
      requires Valid() && Render(fmt, args).Some?
      modifies this, buf
      ensures Valid() && Contents() == old(Contents()) + Render(fmt, args).value
      ensures buf == old(buf) || fresh(buf)
    {
      var f, rest := 0, args;
      ghost var start, out := Contents(), [];
      assert fmt[0..] == fmt;
      while f < |fmt|
        invariant Sized() && (buf == old(buf) || fresh(buf))
        invariant Contents() == start + out
        invariant Rendered(fmt, args, f, rest, out)
      {
        var text, f', rest' := NextPiece(fmt, f, rest);
        RenderStep(fmt, args, f, rest, out, text, f', rest');
        Sequences.Associate(start, out, text);
        CatPiece(text);
        out, f, rest := out + text, f', rest';
      }
      RenderEnd(fmt, args, rest, out);
      buf[len] := NUL;
    }

    method CatPiece(text: bytes)
      requires Sized()
      modifies this, buf
      ensures Sized() && Contents() == old(Contents()) + text && (buf == old(buf) || fresh(buf))
    {
      if free == 0 {
        MakeRoomFor(1);
      }
      Put(text);
    }
  }

  /** The format up to `f` is rendered, with the arguments up to `rest`. */
  ghost predicate Rendered(fmt: bytes, args: seq<Arg>, f: int, rest: seq<Arg>, out: bytes) {
    && 0 <= f <= |fmt| && Render(fmt, args).Some? && Render(fmt[f..], rest).Some?
    && Render(fmt, args).value == out + Render(fmt[f..], rest).value
  }

  lemma RenderStep(fmt: bytes, args: seq<Arg>, f: nat, rest: seq<Arg>, out: bytes, text: bytes, f': nat,
                   rest': seq<Arg>)
    requires Rendered(fmt, args, f, rest, out) && f' <= |fmt| && Render(fmt[f'..], rest').Some?
    requires Render(fmt[f..], rest).value == text + Render(fmt[f'..], rest').value
    ensures Rendered(fmt, args, f', rest', out + text)
  {
    Sequences.Associate(out, text, Render(fmt[f'..], rest').value);
  }

  lemma RenderEnd(fmt: bytes, args: seq<Arg>, rest: seq<Arg>, out: bytes)
    requires Rendered(fmt, args, |fmt|, rest, out)
    ensures Render(fmt, args).value == out
  {
  }
}
