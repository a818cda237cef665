/** Bytes, byte strings and the few character codes the modelled programs mention. */
module Bytes {

  newtype byte = x: int | 0 <= x < 256

  type bytes = seq<byte>

  datatype Option<+T> = None | Some(value: T) {
    function GetOr(default: T): T {
      if Some? then value else default
    }
  }

  const NUL: byte := 0
  const BEL: byte := 7
  const BS: byte := 8
  const TAB: byte := 9
  const LF: byte := 10
  const CR: byte := 13
  const SPACE: byte := 32
  const QUOTE: byte := 34      // "
  const HASH: byte := 35
  const DOLLAR: byte := 36
  const PERCENT: byte := 37
  const APOSTROPHE: byte := 39
  const STAR: byte := 42
  const PLUS: byte := 43
  const MINUS: byte := 45
  const DOT: byte := 46
  const SLASH: byte := 47
  const ZERO: byte := 48
  const NINE: byte := 57
  const COLON: byte := 58
  const EQUALS: byte := 61
  const BACKSLASH: byte := 92

  const CRLF: bytes := [CR, LF]

  predicate IsDigit(b: byte) {
    ZERO <= b <= NINE
  }

  /** isspace in the C locale. */
  predicate IsSpace(b: byte) {
    b == SPACE || TAB <= b <= CR
  }

  /** The bytes of a C string: everything before the first NUL. */
  function CString(memory: bytes): (s: bytes)
    ensures s <= memory
    ensures NUL !in s
    ensures |s| < |memory| ==> memory[|s|] == NUL
  {
    if memory == [] || memory[0] == NUL then [] else [memory[0]] + CString(memory[1..])
  }

  /** A string ends at its first NUL, whatever lies behind. */
  lemma {:induction false} CStringEnds(text: bytes, behind: bytes)
    requires 0 !in text
    ensures CString(text + ([0] + behind)) == text
  {
    var memory := text + ([0] + behind);
    if text != [] {
      assert memory[1..] == text[1..] + ([0] + behind);
      CStringEnds(text[1..], behind);
      assert text == [text[0]] + text[1..];
    }
  }

  // ---- Slices of slices ----

  lemma SliceOfDrop(s: bytes, i: nat, a: nat, b: nat)
    requires a <= b && i + b <= |s|
    ensures s[i..][a..b] == s[i + a..i + b]
    ensures a == 0 ==> s[i..][..b] == s[i..i + b]
  {
  }

  lemma DropOfDrop(s: bytes, i: nat, j: nat)
    requires i + j <= |s|
    ensures s[i..][j..] == s[i + j..]
  {
  }
}
