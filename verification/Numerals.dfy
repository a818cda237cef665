/** Decimal text: its value, its length, and the digit-reversing printer of sds.c. */
module Numerals {
  import opened Bytes
  import opened Resp

  function Digit(d: nat): byte
    requires d < 10
  {
    (48 + d) as byte
  }

  function Decimal(n: nat): (s: bytes)
    ensures s != [] && AllDigits(s)
  {
    if n < 10 then [Digit(n)] else Decimal(n / 10) + [Digit(n % 10)]
  }

  function Signed(n: int): (s: bytes)
    ensures s != []
  {
    if n < 0 then [MINUS] + Decimal(-n) else Decimal(n)
  }

  // ---- Digits by their codes ----

  /** The number that decimal digits stand for. */
  function Places(digits: bytes): int {
    if digits == [] then 0 else 10 * Places(digits[..|digits| - 1]) + (digits[|digits| - 1] as int - 48)
  }

  /** The digits of a number without needless zeros. */
  predicate Digits(digits: bytes) {
    && digits != [] && (|digits| > 1 ==> digits[0] != 48)
    && forall i :: 0 <= i < |digits| ==> 48 <= digits[i] <= 57
  }

  /** A number is printed by its digits. */
  lemma {:induction false} DecimalIs(digits: bytes)
    requires Digits(digits)
    ensures Places(digits) >= 0 && Decimal(Places(digits)) == digits
    ensures digits[0] != 48 ==> Places(digits) > 0
  {
    var n := |digits| - 1;
    var init := digits[..n];
    assert digits == init + [digits[n]];
    if n > 0 {
      DecimalIs(init);
      assert Places(digits) / 10 == Places(init);
    }
  }

  // ---- Reading back ----

  lemma {:induction false} DecimalValue(n: nat)
    ensures DigitsValue(Decimal(n)) == n
  {
    if n >= 10 {
      DecimalValue(n / 10);
      var s := Decimal(n);
      assert s[..|s| - 1] == Decimal(n / 10);
    } else {
      assert Decimal(n)[..0] == [];
    }
  }

  lemma NoCr(s: bytes)
    requires CR !in s
    ensures UpToCr(s) == s
  {
  }

  /** The reader takes a printed number for the number it is. */
  lemma LineNumberDecimal(n: nat)
    ensures LineNumber(Decimal(n)) == n
  {
    var s := Decimal(n);
    assert CR !in s;
    NoCr(s);
    assert IsDigit(s[0]);
    DecimalValue(n);
  }

  // ---- Length ----

  function Pow10(k: nat): nat {
    if k == 0 then 1 else 10 * Pow10(k - 1)
  }

  /** A number below 10^k has at most k digits. */
  lemma {:induction false} DecimalLength(n: nat, k: nat)
    requires 0 < k && n < Pow10(k)
    ensures |Decimal(n)| <= k
  {
    if n >= 10 {
      DecimalLength(n / 10, k - 1);
    }
  }

  lemma {:induction false} SixtyFourBits(n: nat)
    requires n < 0x1_0000_0000_0000_0000
    ensures |Decimal(n)| <= 20
  {
    assert Pow10(5) == 10_0000;
    assert Pow10(10) == 100_0000_0000;
    assert Pow10(15) == 1000_0000_0000_0000;
    assert Pow10(20) == 1_0000_0000_0000_0000_0000;
    DecimalLength(n, 20);
  }

  lemma SixtyThreeBits(n: nat)
    requires n < 0x8000_0000_0000_0000
    ensures |Decimal(n)| <= 19
  {
    assert Pow10(5) == 10_0000;
    assert Pow10(10) == 100_0000_0000;
    assert Pow10(15) == 1000_0000_0000_0000;
    assert Pow10(19) == 1000_0000_0000_0000_0000;
    DecimalLength(n, 19);
  }

  lemma FourDigits(n: nat)
    requires n >= 10000
    ensures |Decimal(n)| == |Decimal(n / 10000)| + 4
  {
    assert n / 10 / 10 / 10 / 10 == n / 10000;
    assert |Decimal(n)| == |Decimal(n / 10)| + 1;
    assert |Decimal(n / 10)| == |Decimal(n / 10 / 10)| + 1;
    assert |Decimal(n / 10 / 10)| == |Decimal(n / 10 / 10 / 10)| + 1;
    assert |Decimal(n / 10 / 10 / 10)| == |Decimal(n / 10 / 10 / 10 / 10)| + 1;
  }

  lemma UpToFour(n: nat)
    requires n < 10000
    ensures |Decimal(n)| == if n < 10 then 1 else if n < 100 then 2 else if n < 1000 then 3 else 4
  {
    assert n >= 10 ==> |Decimal(n)| == |Decimal(n / 10)| + 1;
    assert n >= 100 ==> |Decimal(n / 10)| == |Decimal(n / 10 / 10)| + 1;
    assert n >= 1000 ==> |Decimal(n / 10 / 10)| == |Decimal(n / 10 / 10 / 10)| + 1;
  }

  /** Counts digits four at a time. */
  method CountDigits(n: nat) returns (result: nat)
    ensures result == |Decimal(n)|
  {
    var v := n;
    result := 1;
    while true
      invariant result - 1 + |Decimal(v)| == |Decimal(n)|
      decreases v
    {
      if v < 10000 { UpToFour(v); }
      if v < 10 { return result; }
      if v < 100 { return result + 1; }
      if v < 1000 { return result + 2; }
      if v < 10000 { return result + 3; }
      FourDigits(v);
      v := v / 10000;
      result := result + 4;
    }
  }

  // ---- Printing by reversal ----

  function Reversed(s: bytes): bytes {
    seq(|s|, i requires 0 <= i < |s| => s[|s| - 1 - i])
  }

  lemma ReversedSnoc(s: bytes, b: byte)
    ensures Reversed(s + [b]) == [b] + Reversed(s)
  {
  }

  lemma ReversedTwice(s: bytes)
    ensures Reversed(Reversed(s)) == s
  {
  }

  /** Reverses the first `n` bytes of `a` in place. */
  method ReverseInPlace(a: array<byte>, n: nat)
    requires n <= a.Length
    modifies a
    ensures a[..n] == Reversed(old(a[..n]))
    ensures a[n..] == old(a[n..])
  {
    var s, p := 0, n - 1;
    while s < p
      invariant 0 <= s <= p + 1 && s + p == n - 1
      invariant forall k :: 0 <= k < s ==> a[k] == old(a[n - 1 - k]) && a[n - 1 - k] == old(a[k])
      invariant forall k :: s <= k <= p ==> a[k] == old(a[k])
      invariant forall k :: n <= k < a.Length ==> a[k] == old(a[k])
    {
      a[s], a[p] := a[p], a[s];
      s, p := s + 1, p - 1;
    }
    assert forall k :: 0 <= k < n ==> a[k] == old(a[n - 1 - k]) by {
      forall k | 0 <= k < n ensures a[k] == old(a[n - 1 - k]) {
        if k >= s && k > p { assert a[n - 1 - (n - 1 - k)] == old(a[n - 1 - k]); }
      }
    }
    assert a[..n] == Reversed(old(a[..n]));
  }

  const LLSTR_SIZE: nat := 21

  /** Emits the digits of `n` in reverse at the start of `a`. */
  method EmitReversed(a: array<byte>, n: nat) returns (p: nat)
    requires |Decimal(n)| < a.Length
    modifies a
    ensures p == |Decimal(n)| && a[..p] == Reversed(Decimal(n))
  {
    var v := n;
    p := 0;
    while true
      invariant 0 <= p
      invariant p + |Decimal(v)| == |Decimal(n)|
      invariant Decimal(n) == Decimal(v) + Reversed(a[..p])
      decreases v
    {
      ghost var before := a[..p];
      a[p] := Digit(v % 10);
      p := p + 1;
      assert a[..p] == before + [Digit(v % 10)];
      ReversedSnoc(before, Digit(v % 10));
      ghost var high := v / 10;
      if v / 10 == 0 {
        assert Decimal(v) == [Digit(v % 10)];
        assert Decimal(n) == Reversed(a[..p]);
        ReversedTwice(a[..p]);
        return;
      }
      assert Decimal(v) + Reversed(before) == Decimal(high) + ([Digit(v % 10)] + Reversed(before));
      v := v / 10;
    }
  }

  /** sdsll2str: the text of a signed 64-bit number, in a buffer of 21 bytes. */
  method SignedText(a: array<byte>, value: int) returns (l: nat)
    requires a.Length == LLSTR_SIZE && -0x8000_0000_0000_0000 < value < 0x8000_0000_0000_0000
    modifies a
    ensures l < a.Length && a[..l] == Signed(value) && a[l] == NUL
  {
    var v := if value < 0 then -value else value;
    SixtyThreeBits(v);
    l := EmitReversed(a, v);
    if value < 0 {
      ghost var digits := a[..l];
      a[l] := MINUS;
      l := l + 1;
      assert a[..l] == digits + [MINUS];
      ReversedSnoc(digits, MINUS);
    }
    ReversedTwice(Decimal(v));
    a[l] := NUL;
    assert Reversed(a[..l]) == Signed(value);
    ReverseInPlace(a, l);
    assert a[l] == a[l..][0] == NUL;
  }

  /** sdsull2str: the same for an unsigned 64-bit number. */
  method UnsignedText(a: array<byte>, v: nat) returns (l: nat)
    requires a.Length == LLSTR_SIZE && v < 0x1_0000_0000_0000_0000
    modifies a
    ensures l < a.Length && a[..l] == Decimal(v) && a[l] == NUL
  {
    SixtyFourBits(v);
    l := EmitReversed(a, v);
    ReversedTwice(Decimal(v));
    a[l] := NUL;
    ReverseInPlace(a, l);
    assert a[l] == a[l..][0] == NUL;
  }
}
