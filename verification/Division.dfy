/**
 Division of a bit string in a shift register, for any register whose addition and
 multiplication by x obey a few laws. The checksum is one such register.
 */
module Division {

  /** Addition, the polynomial to reduce by, and the two ways of looking at a word: its
      lowest bit, and the word moved down by one. */
  datatype Register<!W> = Register(zero: W, one: W, poly: W, add: (W, W) -> W, odd: W -> bool, half: W -> W) {
    function Bit(b: bool): W {
      if b then one else zero
    }

    /** Multiplies by x and reduces. */
    function TimesX(c: W): W {
      if odd(c) then add(poly, half(c)) else half(c)
    }
  }

  // ---- Laws ----

  // Each law is a predicate of its own, so that it is used only where it is named.

  ghost predicate Assoc<W>(r: Register<W>, a: W, b: W, c: W) {
    r.add(r.add(a, b), c) == r.add(a, r.add(b, c))
  }

  ghost predicate Comm<W>(r: Register<W>, a: W, b: W) {
    r.add(a, b) == r.add(b, a)
  }

  ghost predicate Cancel<W>(r: Register<W>, a: W) {
    r.add(a, a) == r.zero && r.add(a, r.zero) == a
  }

  ghost predicate OddLinear<W>(r: Register<W>, a: W, b: W) {
    r.odd(r.add(a, b)) == (r.odd(a) != r.odd(b))
  }

  ghost predicate HalfLinear<W>(r: Register<W>, a: W, b: W) {
    r.half(r.add(a, b)) == r.add(r.half(a), r.half(b))
  }

  ghost predicate Laws<W(!new)>(r: Register<W>) {
    && (forall a, b, c {:trigger Assoc(r, a, b, c)} :: Assoc(r, a, b, c))
    && (forall a, b {:trigger Comm(r, a, b)} :: Comm(r, a, b))
    && (forall a {:trigger Cancel(r, a)} :: Cancel(r, a))
    && (forall a, b {:trigger OddLinear(r, a, b)} :: OddLinear(r, a, b))
    && (forall a, b {:trigger HalfLinear(r, a, b)} :: HalfLinear(r, a, b))
    && r.odd(r.one) && r.half(r.one) == r.zero
    && !r.odd(r.zero) && r.half(r.zero) == r.zero
  }

  lemma AddZero<W(!new)>(r: Register<W>, a: W)
    requires Laws(r)
    ensures r.add(a, r.zero) == a && r.add(r.zero, a) == a
  {
    assert Cancel(r, a) && Comm(r, a, r.zero);
  }

  lemma Swap<W(!new)>(r: Register<W>, a: W, b: W, c: W, d: W)
    requires Laws(r)
    ensures r.add(r.add(a, b), r.add(c, d)) == r.add(r.add(a, c), r.add(b, d))
  {
    assert Assoc(r, a, b, r.add(c, d)) && Assoc(r, b, c, d) && Comm(r, b, c);
    assert Assoc(r, c, b, d) && Assoc(r, a, c, r.add(b, d));
  }

  lemma TimesLinear<W(!new)>(r: Register<W>, a: W, b: W)
    requires Laws(r)
    ensures r.TimesX(r.add(a, b)) == r.add(r.TimesX(a), r.TimesX(b))
  {
    var p, ha, hb := r.poly, r.half(a), r.half(b);
    assert OddLinear(r, a, b) && HalfLinear(r, a, b);
    if r.odd(a) && r.odd(b) {
      Swap(r, p, ha, p, hb);
      assert Cancel(r, p);
      AddZero(r, r.add(ha, hb));
    } else if r.odd(a) {
      assert Assoc(r, p, ha, hb);
    } else if r.odd(b) {
      assert Assoc(r, ha, p, hb) && Comm(r, ha, p) && Assoc(r, p, ha, hb);
    }
  }

  lemma Exchange<W(!new)>(r: Register<W>, a: W, b: W, p: bool, q: bool)
    requires Laws(r)
    ensures r.add(r.add(a, b), r.Bit(p != q)) == r.add(r.add(a, r.Bit(p)), r.add(b, r.Bit(q)))
  {
    Swap(r, a, r.Bit(p), b, r.Bit(q));
    assert Cancel(r, r.one);
    AddZero(r, r.zero);
    AddZero(r, r.one);
  }

  /** Of a word that is added to the register, only the lowest bit is needed at once. */
  lemma BitIn<W(!new)>(r: Register<W>, c: W, w: W)
    requires Laws(r)
    ensures r.TimesX(r.add(c, w)) == r.add(r.TimesX(r.add(c, r.Bit(r.odd(w)))), r.half(w))
  {
    var bit, hc := r.Bit(r.odd(w)), r.half(c);
    assert OddLinear(r, c, w) && HalfLinear(r, c, w) && OddLinear(r, c, bit) && HalfLinear(r, c, bit);
    AddZero(r, hc);
    assert Assoc(r, r.poly, hc, r.half(w));
  }

  // ---- Powers of x ----

  /** x^n times a word. */
  function Power<W>(r: Register<W>, c: W, n: nat): W {
    if n == 0 then c else r.TimesX(Power(r, c, n - 1))
  }

  lemma {:induction false} PowerLinear<W(!new)>(r: Register<W>, a: W, b: W, n: nat)
    requires Laws(r)
    ensures Power(r, r.add(a, b), n) == r.add(Power(r, a, n), Power(r, b, n))
  {
    if n > 0 {
      PowerLinear(r, a, b, n - 1);
      TimesLinear(r, Power(r, a, n - 1), Power(r, b, n - 1));
    }
  }

  lemma {:induction false} PowerFirst<W>(r: Register<W>, c: W, n: nat)
    requires n > 0
    ensures Power(r, c, n) == Power(r, r.TimesX(c), n - 1)
  {
    if n > 1 {
      PowerFirst(r, c, n - 1);
    } else {
      assert Power(r, c, 0) == c;
    }
  }

  // ---- Division ----

  /** One message bit at a time, from a register `c`. */
  function Divide<W>(r: Register<W>, bits: seq<bool>, c: W): W {
    if bits == [] then c else Divide(r, bits[1..], r.TimesX(r.add(c, r.Bit(bits[0]))))
  }

  /** The message as a polynomial, moved up by the width of the register and reduced: each
      bit that is set contributes its own power of x. */
  function Message<W>(r: Register<W>, bits: seq<bool>): W {
    if bits == [] then r.zero else r.add(Power(r, r.Bit(bits[0]), |bits|), Message(r, bits[1..]))
  }

  /** Bit by bit, the register becomes the remainder of x^n times the register plus the
      message. */
  lemma {:induction false} DivideIsRemainder<W(!new)>(r: Register<W>, bits: seq<bool>, c: W)
    requires Laws(r)
    ensures Divide(r, bits, c) == r.add(Power(r, c, |bits|), Message(r, bits))
  {
    if bits != [] {
      var n, bit, rest := |bits|, r.Bit(bits[0]), Message(r, bits[1..]);
      DivideIsRemainder(r, bits[1..], r.TimesX(r.add(c, bit)));
      PowerFirst(r, r.add(c, bit), n);
      PowerLinear(r, c, bit, n);
      assert Assoc(r, Power(r, c, n), Power(r, bit, n), rest);
    } else {
      AddZero(r, c);
    }
  }

  lemma {:induction false} DivideAppend<W>(r: Register<W>, a: seq<bool>, b: seq<bool>, c: W)
    ensures Divide(r, a + b, c) == Divide(r, b, Divide(r, a, c))
  {
    if a == [] {
      assert a + b == b;
    } else {
      assert (a + b)[1..] == a[1..] + b;
      DivideAppend(r, a[1..], b, r.TimesX(r.add(c, r.Bit(a[0]))));
    }
  }

  function XorBits(a: seq<bool>, b: seq<bool>): seq<bool>
    requires |a| == |b|
  {
    seq(|a|, i requires 0 <= i < |a| => a[i] != b[i])
  }

  lemma {:induction false} DivideLinear<W(!new)>(r: Register<W>, a: seq<bool>, b: seq<bool>, c: W, d: W)
    requires Laws(r) && |a| == |b|
    ensures Divide(r, XorBits(a, b), r.add(c, d)) == r.add(Divide(r, a, c), Divide(r, b, d))
  {
    if a != [] {
      var c', d' := r.add(c, r.Bit(a[0])), r.add(d, r.Bit(b[0]));
      assert XorBits(a, b)[1..] == XorBits(a[1..], b[1..]);
      Exchange(r, c, d, a[0], b[0]);
      TimesLinear(r, c', d');
      DivideLinear(r, a[1..], b[1..], r.TimesX(c'), r.TimesX(d'));
    }
  }

  // ---- Words as messages ----

  /** The lowest `n` bits of a word, lowest first. */
  function LowBits<W>(r: Register<W>, w: W, n: nat): (bits: seq<bool>)
    ensures |bits| == n
  {
    if n == 0 then [] else [r.odd(w)] + LowBits(r, r.half(w), n - 1)
  }

  /** What is left of a word after `n` of its bits were taken. */
  function Down<W>(r: Register<W>, w: W, n: nat): W {
    if n == 0 then w else Down(r, r.half(w), n - 1)
  }

  lemma {:induction false} LowBitsXor<W(!new)>(r: Register<W>, a: W, b: W, n: nat)
    requires Laws(r)
    ensures LowBits(r, r.add(a, b), n) == XorBits(LowBits(r, a, n), LowBits(r, b, n))
  {
    if n > 0 {
      assert OddLinear(r, a, b) && HalfLinear(r, a, b);
      LowBitsXor(r, r.half(a), r.half(b), n - 1);
    }
  }

  /** Adding a word to the register and multiplying is dividing by its bits. */
  lemma {:induction false} WordDivides<W(!new)>(r: Register<W>, w: W, n: nat, c: W)
    requires Laws(r)
    ensures Power(r, r.add(c, w), n) == r.add(Divide(r, LowBits(r, w, n), c), Down(r, w, n))
  {
    if n > 0 {
      BitIn(r, c, w);
      var c' := r.TimesX(r.add(c, r.Bit(r.odd(w))));
      WordDivides(r, r.half(w), n - 1, c');
      PowerFirst(r, r.add(c, w), n);
      assert LowBits(r, w, n)[1..] == LowBits(r, r.half(w), n - 1);
    }
  }

  /** Zeros divide nothing. */
  lemma {:induction false} DivideZeros<W(!new)>(r: Register<W>, bits: seq<bool>)
    requires Laws(r) && forall i :: 0 <= i < |bits| ==> !bits[i]
    ensures Divide(r, bits, r.zero) == r.zero
  {
    if bits != [] {
      AddZero(r, r.zero);
      DivideZeros(r, bits[1..]);
    }
  }

  /** A word without its lowest `n` bits is only moved down. */
  lemma HighPart<W(!new)>(r: Register<W>, low: W, high: W, n: nat)
    requires Laws(r) && forall i :: 0 <= i < n ==> !LowBits(r, high, n)[i]
    ensures Power(r, r.add(low, high), n) == r.add(Power(r, low, n), Down(r, high, n))
  {
    PowerLinear(r, low, high, n);
    WordDivides(r, high, n, r.zero);
    DivideZeros(r, LowBits(r, high, n));
    AddZero(r, high);
    AddZero(r, Down(r, high, n));
  }

  lemma DownEight<W>(r: Register<W>, w: W)
    ensures Down(r, w, 8) == r.half(r.half(r.half(r.half(r.half(r.half(r.half(r.half(w))))))))
  {
    var w2 := r.half(r.half(w));
    var w4 := r.half(r.half(w2));
    var w6 := r.half(r.half(w4));
    assert Down(r, w, 8) == Down(r, w2, 6) by { assert Down(r, r.half(w), 7) == Down(r, w2, 6); }
    assert Down(r, w2, 6) == Down(r, w4, 4) by { assert Down(r, r.half(w2), 5) == Down(r, w4, 4); }
    assert Down(r, w4, 4) == Down(r, w6, 2) by { assert Down(r, r.half(w4), 3) == Down(r, w6, 2); }
    assert Down(r, r.half(w6), 1) == r.half(r.half(w6)) by {
      assert Down(r, r.half(r.half(w6)), 0) == r.half(r.half(w6));
    }
  }
}
