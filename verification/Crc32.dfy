/**
 The table-driven CRC-32 with the reflected polynomial 0xEDB88320 and no complement
 before or after, against the division that it stands for.

 A register is a polynomial of degree below 32 over GF(2) with its coefficient of x^31
 in the lowest bit.
 */
module Crc32 {
  import opened Division

  const POLYNOMIAL: bv32 := 0xEDB8_8320

  function Xor(a: bv32, b: bv32): bv32 { a ^ b }

  function Odd(c: bv32): bool { c & 1 == 1 }

  function Half(c: bv32): bv32 { c >> 1 }

  const REGISTER: Register<bv32> := Register(0, 1, POLYNOMIAL, Xor, Odd, Half)

  // ---- The laws ----

  lemma XorAssoc(a: bv32, b: bv32, c: bv32)
    ensures Xor(Xor(a, b), c) == Xor(a, Xor(b, c))
  {
  }

  lemma XorComm(a: bv32, b: bv32)
    ensures Xor(a, b) == Xor(b, a)
  {
  }

  lemma XorSelf(a: bv32)
    ensures Xor(a, a) == 0 && Xor(a, 0) == a
  {
  }

  lemma OddXor(a: bv32, b: bv32)
    ensures Odd(Xor(a, b)) == (Odd(a) != Odd(b))
  {
  }

  lemma HalfXor(a: bv32, b: bv32)
    ensures Half(Xor(a, b)) == Xor(Half(a), Half(b))
  {
  }

  lemma Units()
    ensures Odd(1) && Half(1) == 0 && !Odd(0) && Half(0) == 0
  {
  }

  lemma RegisterLaws()
    ensures Laws(REGISTER)
  {
    var r := REGISTER;
    forall a, b, c ensures Assoc(r, a, b, c) { XorAssoc(a, b, c); }
    forall a, b ensures Comm(r, a, b) { XorComm(a, b); }
    forall a ensures Cancel(r, a) { XorSelf(a); }
    forall a, b ensures OddLinear(r, a, b) { OddXor(a, b); }
    forall a, b ensures HalfLinear(r, a, b) { HalfXor(a, b); }
    Units();
  }

  // The operations of the register on named values.

  lemma AddIs(a: bv32, b: bv32, x: bv32)
    requires x == a ^ b
    ensures REGISTER.add(a, b) == x
  {
  }

  lemma TimesIs(c: bv32, x: bv32)
    requires x == if c & 1 == 1 then POLYNOMIAL ^ (c >> 1) else c >> 1
    ensures REGISTER.TimesX(c) == x
  {
  }

  // ---- The polynomial ----

  /** The polynomial 1. */
  const ONE: bv32 := 0x8000_0000

  /** The power x^k of a register. */
  function X(k: nat): bv32 {
    Power(REGISTER, ONE, k)
  }

  lemma PowerNext(i: bv32, j: nat, c: bv32, c': bv32)
    requires c == Power(REGISTER, i, j) && c' == if c & 1 == 1 then POLYNOMIAL ^ (c >> 1) else c >> 1
    ensures Power(REGISTER, i, j + 1) == c'
  {
    TimesIs(c, c');
  }

  lemma NextPower(k: nat, c: bv32, d: bv32)
    requires X(k) == c && c & 1 == 0 && c >> 1 == d
    ensures X(k + 1) == d
  {
    PowerNext(ONE, k, c, d);
  }

  lemma NextPowers(k: nat, c: bv32, d: bv32, e: bv32, f: bv32)
    requires X(k) == c && c & 1 == 0 && c >> 1 == d && d & 1 == 0 && d >> 1 == e && e & 1 == 0 && e >> 1 == f
    ensures X(k + 1) == d && X(k + 2) == e && X(k + 3) == f
  {
    NextPower(k, c, d);
    NextPower(k + 1, d, e);
    NextPower(k + 2, e, f);
  }

  /** The register holds polynomials modulo that of IEEE 802.3. */
  lemma PolynomialIs()
    ensures X(32) ==
            X(26) ^ X(23) ^ X(22) ^ X(16) ^ X(12) ^ X(11) ^ X(10) ^ X(8) ^ X(7) ^ X(5) ^ X(4) ^ X(2) ^ X(1) ^ X(0)
  {
    NextPowers(0, 0x8000_0000, 0x4000_0000, 0x2000_0000, 0x1000_0000);
    NextPowers(3, 0x1000_0000, 0x0800_0000, 0x0400_0000, 0x0200_0000);
    NextPowers(6, 0x0200_0000, 0x0100_0000, 0x0080_0000, 0x0040_0000);
    NextPowers(9, 0x0040_0000, 0x0020_0000, 0x0010_0000, 0x0008_0000);
    NextPowers(12, 0x0008_0000, 0x0004_0000, 0x0002_0000, 0x0001_0000);
    NextPowers(15, 0x0001_0000, 0x0000_8000, 0x0000_4000, 0x0000_2000);
    NextPowers(18, 0x0000_2000, 0x0000_1000, 0x0000_0800, 0x0000_0400);
    NextPowers(21, 0x0000_0400, 0x0000_0200, 0x0000_0100, 0x0000_0080);
    NextPowers(24, 0x0000_0080, 0x0000_0040, 0x0000_0020, 0x0000_0010);
    NextPowers(27, 0x0000_0010, 0x0000_0008, 0x0000_0004, 0x0000_0002);
    NextPower(30, 2, 1);
    PowerNext(ONE, 31, 1, POLYNOMIAL);
  }

  // ---- Bytes ----

  /** The bits of a byte, lowest first. */
  function Bits(b: bv8): seq<bool> {
    LowBits(REGISTER, b as bv32, 8)
  }

  function BitsOf(data: seq<bv8>): seq<bool> {
    if data == [] then [] else Bits(data[0]) + BitsOf(data[1..])
  }

  lemma {:induction false} BitsOfAppend(a: seq<bv8>, b: seq<bv8>)
    ensures BitsOf(a + b) == BitsOf(a) + BitsOf(b)
  {
    if a == [] {
      assert a + b == b;
    } else {
      assert (a + b)[1..] == a[1..] + b;
      BitsOfAppend(a[1..], b);
    }
  }

  /** The checksum of a message from a starting value: the remainder of the division. */
  function Crc(data: seq<bv8>, crc: bv32): bv32 {
    Divide(REGISTER, BitsOf(data), crc)
  }

  /** The remainder has a closed form: powers of x times the bits that are set. */
  lemma CrcIsRemainder(data: seq<bv8>, crc: bv32)
    ensures Crc(data, crc) == Power(REGISTER, crc, 8 * |data|) ^ Message(REGISTER, BitsOf(data))
  {
    RegisterLaws();
    BitsOfLength(data);
    DivideIsRemainder(REGISTER, BitsOf(data), crc);
  }

  /** The checksum of a concatenation continues the checksum of its first part. */
  lemma CrcComposes(a: seq<bv8>, b: seq<bv8>, crc: bv32)
    ensures Crc(a + b, crc) == Crc(b, Crc(a, crc))
  {
    BitsOfAppend(a, b);
    DivideAppend(REGISTER, BitsOf(a), BitsOf(b), crc);
  }

  function XorBytes(a: seq<bv8>, b: seq<bv8>): seq<bv8>
    requires |a| == |b|
  {
    seq(|a|, i requires 0 <= i < |a| => a[i] ^ b[i])
  }

  lemma BitsXor(a: bv8, b: bv8)
    ensures Bits(a ^ b) == XorBits(Bits(a), Bits(b))
  {
    assert (a ^ b) as bv32 == (a as bv32) ^ (b as bv32);
    RegisterLaws();
    LowBitsXor(REGISTER, a as bv32, b as bv32, 8);
  }

  lemma {:induction false} BitsOfLength(a: seq<bv8>)
    ensures |BitsOf(a)| == 8 * |a|
  {
    if a != [] {
      BitsOfLength(a[1..]);
    }
  }

  lemma XorBitsAppend(a: seq<bool>, b: seq<bool>, c: seq<bool>, d: seq<bool>)
    requires |a| == |b| && |c| == |d|
    ensures XorBits(a + c, b + d) == XorBits(a, b) + XorBits(c, d)
  {
  }

  lemma {:induction false} BitsOfXor(a: seq<bv8>, b: seq<bv8>)
    requires |a| == |b|
    ensures |BitsOf(a)| == |BitsOf(b)| && BitsOf(XorBytes(a, b)) == XorBits(BitsOf(a), BitsOf(b))
  {
    BitsOfLength(a);
    BitsOfLength(b);
    if a != [] {
      BitsOfXor(a[1..], b[1..]);
      assert XorBytes(a, b)[1..] == XorBytes(a[1..], b[1..]);
      BitsXor(a[0], b[0]);
      XorBitsAppend(Bits(a[0]), Bits(b[0]), BitsOf(a[1..]), BitsOf(b[1..]));
    }
  }

  /** The checksum is linear: that of a sum is the sum of the checksums. */
  lemma CrcLinear(a: seq<bv8>, b: seq<bv8>, c: bv32, d: bv32)
    requires |a| == |b|
    ensures Crc(XorBytes(a, b), c ^ d) == Crc(a, c) ^ Crc(b, d)
  {
    BitsOfXor(a, b);
    RegisterLaws();
    DivideLinear(REGISTER, BitsOf(a), BitsOf(b), c, d);
  }

  // ---- A byte at a time ----

  /** x^8 times a word: what the table holds for each byte. */
  function TimesX8(w: bv32): bv32 {
    Power(REGISTER, w, 8)
  }

  lemma HalfEight(w: bv32)
    ensures Half(Half(Half(Half(Half(Half(Half(Half(w)))))))) == w >> 8
  {
  }

  lemma DownByte(w: bv32)
    ensures Down(REGISTER, w, 8) == w >> 8
  {
    DownEight(REGISTER, w);
    HalfEight(w);
  }

  /** One byte of the message is one multiplication by x^8. */
  lemma ByteDivides(b: bv8, c: bv32, w: bv32, x: bv32)
    requires w == b as bv32 && x == c ^ w
    ensures Divide(REGISTER, Bits(b), c) == TimesX8(x)
  {
    RegisterLaws();
    WordDivides(REGISTER, w, 8, c);
    AddIs(c, w, x);
    DownByte(w);
    assert w >> 8 == 0;
    AddZero(REGISTER, Divide(REGISTER, Bits(b), c));
  }

  lemma OneByte(b: bv8)
    ensures BitsOf([b]) == Bits(b)
  {
    assert [b][1..] == [];
    assert BitsOf([b]) == Bits(b) + [];
  }

  /** The lowest `n` bits. */
  function Mask(n: nat): bv32 {
    if n == 0 then 0 else (Mask(n - 1) << 1) | 1
  }

  lemma MaskByte()
    ensures Mask(8) == 0xFF
  {
    assert Mask(2) == 3 by { assert Mask(1) == 1; }
    assert Mask(4) == 15 by { assert Mask(3) == 7; }
    assert Mask(6) == 63 by { assert Mask(5) == 31; }
    assert Mask(8) == 255 by { assert Mask(7) == 127; }
  }

  lemma MaskStep(w: bv32, m: bv32)
    requires w & ((m << 1) | 1) == 0
    ensures !REGISTER.odd(w) && REGISTER.half(w) & m == 0
  {
  }

  lemma {:induction false} LowBitsClear(w: bv32, n: nat, r: Register<bv32>)
    requires w & Mask(n) == 0 && r == REGISTER
    ensures forall i :: 0 <= i < n ==> !LowBits(r, w, n)[i]
  {
    if n > 0 {
      var h := r.half(w);
      MaskStep(w, Mask(n - 1));
      LowBitsClear(h, n - 1, r);
    }
  }

  lemma SplitLow(x: bv32, low: bv32, high: bv32)
    requires low == x & 0xFF && high == x & 0xFFFF_FF00
    ensures x == low ^ high && high & 0xFF == 0 && high >> 8 == x >> 8
  {
  }

  lemma ByteIsLow(c: bv32, b: bv8, x: bv32)
    requires x == c ^ (b as bv32)
    ensures x >> 8 == c >> 8
  {
    assert (b as bv32) >> 8 == 0;
  }

  lemma HighBytes(low: bv32, high: bv32, x: bv32, h: bv32, t: bv32, t': bv32)
    requires high & 0xFF == 0 && x == low ^ high && h == high >> 8 && t == TimesX8(low) && t' == t ^ h
    ensures TimesX8(x) == t'
  {
    RegisterLaws();
    MaskByte();
    LowBitsClear(high, 8, REGISTER);
    HighPart(REGISTER, low, high, 8);
    DownByte(high);
    AddIs(low, high, x);
    AddIs(t, h, t');
  }

  /** The low byte of a register goes through the table, the rest moves down. */
  lemma TableStep(c: bv32, b: bv8, x: bv32, low: bv32, high: bv32, h: bv32, t: bv32, t': bv32)
    requires x == c ^ (b as bv32) && low == x & 0xFF && high == x & 0xFFFF_FF00 && h == c >> 8
    requires t == TimesX8(low) && t' == t ^ h
    ensures TimesX8(x) == t'
  {
    ByteIsLow(c, b, x);
    SplitLow(x, low, high);
    HighBytes(low, high, x, h, t, t');
  }

  /** One turn of the loop divides by one more byte. */
  lemma NextByte(before: seq<bv8>, b: bv8, start: bv32, c: bv32, x: bv32, low: bv32, h: bv32, t: bv32, t': bv32)
    requires c == Crc(before, start)
    requires x == c ^ (b as bv32) && low == x & 0xFF && h == c >> 8 && t == TimesX8(low) && t' == t ^ h
    ensures Crc(before + [b], start) == t'
  {
    CrcComposes(before, [b], start);
    OneByte(b);
    ByteDivides(b, c, b as bv32, x);
    TableStep(c, b, x, low, x & 0xFFFF_FF00, h, t, t');
  }

  // ---- The program ----

  /** The table is right for a byte. */
  ghost predicate Filled(tab: seq<bv32>, i: bv8)
    requires |tab| == 256
  {
    tab[i as int] == TimesX8(i as bv32)
  }

  lemma FillOne(tab: seq<bv32>, i: bv8, c: bv32, k: bv8)
    requires |tab| == 256 && c == TimesX8(i as bv32) && (k == i || Filled(tab, k))
    ensures Filled(tab[i as int := c], k)
  {
  }

  /** The inner loop over the bits of a table index. */
  method TableEntry(i: bv32) returns (c: bv32)
    ensures c == TimesX8(i)
  {
    c := i;
    var j := 0;
    while j < 8
      invariant 0 <= j <= 8 && c == Power(REGISTER, i, j)
    {
      ghost var before := c;
      if c & 1 == 1 {
        c := POLYNOMIAL ^ (c >> 1);
      } else {
        c := c >> 1;
      }
      PowerNext(i, j, before, c);
      j := j + 1;
    }
  }

  /** The static members. */
  class Crc32 {
    const table: array<bv32>
    var initTable: bool

    ghost predicate Valid()
      reads this, table
    {
      table.Length == 256 && (!initTable ==> forall i :: Filled(table[..], i))
    }

    constructor ()
      ensures Valid() && fresh(table)
    {
      table := new bv32[256](_ => 0);
      initTable := true;
    }

    method InitCrcTable()
      requires table.Length == 256
      modifies table
      ensures forall i :: Filled(table[..], i)
    {
      var i: bv32 := 0;
      while i < 256
        invariant i <= 256
        invariant forall k :: k as bv32 < i ==> Filled(table[..], k)
        decreases 256 - i
      {
        var c := TableEntry(i);
        var b := i as bv8;
        ghost var tab := table[..];
        table[b as int] := c;
        assert table[..] == tab[b as int := c];
        forall k: bv8 | k as bv32 < i + 1
          ensures Filled(table[..], k)
        {
          assert k == b || k as bv32 < i;
          FillOne(tab, b, c, k);
        }
        i := i + 1;
      }
    }

    /** crc32: the table is filled on the first call. */
    method Checksum(buffer: seq<bv8>, start: bv32) returns (crc: bv32)
      requires Valid()
      modifies this, table
      ensures Valid() && crc == Crc(buffer, start)
    {
      if initTable {
        InitCrcTable();
        initTable := false;
      }
      crc := start;
      var i := 0;
      while i < |buffer|
        invariant 0 <= i <= |buffer| && Valid() && !initTable
        invariant crc == Crc(buffer[..i], start)
      {
        var b := buffer[i];
        assert buffer[..i + 1] == buffer[..i] + [b];
        var x := crc ^ (b as bv32);
        var index := x & 0xFF;
        var t, h := table[(index as bv8) as int], crc >> 8;
        assert Filled(table[..], index as bv8);
        NextByte(buffer[..i], b, start, crc, x, index, h, t, t ^ h);
        crc := t ^ h;
        i := i + 1;
      }
      assert buffer[..|buffer|] == buffer;
    }
  }
}
