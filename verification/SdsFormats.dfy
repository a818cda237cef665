/**
 Formats of sdscatfmt as a caller writes them, and the text that they stand for. Formats, digits
 and signs are defined by the codes of their characters.
 */
module SdsFormats {
  import opened Bytes
  import opened Numerals
  import opened Sds

  // ---- Pieces of a format ----

  datatype Piece =
    | Byte(b: byte)
    | CText(text: bytes, behind: bytes)
    | SdsText(data: bytes)
    | Plus(letter: byte, digits: bytes)
    | Minus(letter: byte, digits: bytes)
    | Unsigned(letter: byte, digits: bytes)
    | Other(letter: byte)
  {
    function Text(): bytes {
      match this
      case Byte(b) => [b]
      case CText(_, _) => [37, 115]
      case SdsText(_) => [37, 83]
      case Plus(letter, _) => [37, letter]
      case Minus(letter, _) => [37, letter]
      case Unsigned(letter, _) => [37, letter]
      case Other(letter) => [37, letter]
    }

    /** The arguments behind the format; the memory of a C string goes on behind its end. */
    function Args(): seq<Arg> {
      match this
      case Byte(_) => []
      case CText(text, behind) => [Str(text + ([0] + behind))]
      case SdsText(data) => [Str(data)]
      case Plus(_, digits) => [Num(Places(digits))]
      case Minus(_, digits) => [Num(-Places(digits))]
      case Unsigned(_, digits) => [Num(Places(digits))]
      case Other(_) => []
    }

    function Value(): bytes {
      match this
      case Byte(b) => [b]
      case CText(text, _) => text
      case SdsText(data) => data
      case Plus(_, digits) => digits
      case Minus(_, digits) => [45] + digits
      case Unsigned(_, digits) => digits
      case Other(letter) => [letter]
    }

    predicate WellFormed() {
      match this
      case Byte(b) => b != 37
      case CText(text, _) => 0 !in text
      case SdsText(_) => true
      case Plus(letter, digits) => IsSigned(letter) && Digits(digits) && Places(digits) < 0x8000_0000_0000_0000
      case Minus(letter, digits) =>
        IsSigned(letter) && Digits(digits) && digits[0] != 48 && Places(digits) < 0x8000_0000_0000_0000
      case Unsigned(letter, digits) =>
        IsUnsigned(letter) && Digits(digits) && Places(digits) < 0x1_0000_0000_0000_0000
      case Other(letter) => letter != 115 && letter != 83 && !IsSigned(letter) && !IsUnsigned(letter)
    }
  }

  /** The letters i and I. */
  predicate IsSigned(letter: byte) {
    letter == 105 || letter == 73
  }

  /** The letters u, U and T. */
  predicate IsUnsigned(letter: byte) {
    letter == 117 || letter == 85 || letter == 84
  }

  function TextOf(pieces: seq<Piece>): bytes {
    if pieces == [] then [] else pieces[0].Text() + TextOf(pieces[1..])
  }

  function ArgsOf(pieces: seq<Piece>): seq<Arg> {
    if pieces == [] then [] else pieces[0].Args() + ArgsOf(pieces[1..])
  }

  function ValueOf(pieces: seq<Piece>): bytes {
    if pieces == [] then [] else pieces[0].Value() + ValueOf(pieces[1..])
  }

  predicate WellFormed(pieces: seq<Piece>) {
    forall i :: 0 <= i < |pieces| ==> pieces[i].WellFormed()
  }

  // ---- What they stand for ----

  lemma Prints(piece: Piece, more: seq<Arg>)
    requires piece.WellFormed() && (piece.Plus? || piece.Minus? || piece.Unsigned?)
    ensures Convert(piece.Text()[1], piece.Args() + more) == Some(piece.Value())
  {
    DecimalIs(piece.digits);
  }

  /** One conversion, and the arguments that it leaves. */
  lemma Converts(piece: Piece, more: seq<Arg>)
    requires piece.WellFormed() && !piece.Byte?
    ensures Convert(piece.Text()[1], piece.Args() + more) == Some(piece.Value())
    ensures Remaining(piece.Text()[1], piece.Args() + more) == more
  {
    if piece.CText? {
      CStringEnds(piece.text, piece.behind);
    } else if !piece.SdsText? && !piece.Other? {
      Prints(piece, more);
    }
  }

  lemma RendersFirst(piece: Piece, rest: bytes, more: seq<Arg>)
    requires piece.WellFormed() && Render(rest, more).Some?
    ensures Render(piece.Text() + rest, piece.Args() + more) == Some(piece.Value() + Render(rest, more).value)
  {
    var fmt := piece.Text() + rest;
    if piece.Byte? {
      assert fmt[1..] == rest && piece.Args() + more == more;
    } else {
      assert fmt[2..] == rest;
      Converts(piece, more);
    }
  }

  /** A format prints its plain bytes, C strings up to their ends, sds strings whole, numbers in
      decimal, and of any other conversion the letter. */
  lemma {:induction false} FormatStandsFor(pieces: seq<Piece>)
    requires WellFormed(pieces)
    ensures Render(TextOf(pieces), ArgsOf(pieces)) == Some(ValueOf(pieces))
  {
    if pieces != [] {
      FormatStandsFor(pieces[1..]);
      RendersFirst(pieces[0], TextOf(pieces[1..]), ArgsOf(pieces[1..]));
    }
  }
}
