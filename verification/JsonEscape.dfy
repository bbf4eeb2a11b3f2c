/**
 What the strings of JSON texts say: the escapes of section 7 of RFC 8259, and what jsonParseString
 (lib/Lightnet/Utils/SimpleJson.hpp) makes of them.
 */
module JsonEscapes {
  import opened Json

  /** A piece of a string: a character as it is, a two-character escape, or one with four hexadecimal digits. */
  datatype Piece = Raw(c: char) | Short(letter: char) | Unicode(h0: char, h1: char, h2: char, h3: char)

  predicate Legal(piece: Piece) {
    match piece
    case Raw(c) => c != '"' && c != '\\'
    case Short(letter) => letter != 'u'
    case Unicode(_, _, _, _) => true
  }

  function Spelled(piece: Piece): (s: string)
    ensures s != []
  {
    match piece
    case Raw(c) => [c]
    case Short(letter) => ['\\', letter]
    case Unicode(h0, h1, h2, h3) => ['\\', 'u', h0, h1, h2, h3]
  }

  function SpelledAll(pieces: seq<Piece>): string {
    if pieces == [] then [] else Spelled(pieces[0]) + SpelledAll(pieces[1..])
  }

  /** The code point of a two-character escape, by the grammar of the standard. */
  function ShortCode(letter: int): Option<int> {
    if letter == 0x22 then Some(0x22)       // quotation mark
    else if letter == 0x5C then Some(0x5C)  // reverse solidus
    else if letter == 0x2F then Some(0x2F)  // solidus
    else if letter == 0x62 then Some(0x08)  // backspace
    else if letter == 0x66 then Some(0x0C)  // form feed
    else if letter == 0x6E then Some(0x0A)  // line feed
    else if letter == 0x72 then Some(0x0D)  // carriage return
    else if letter == 0x74 then Some(0x09)  // tab
    else None
  }

  /** HEXDIG of appendix B.1 of RFC 5234, in either case. */
  function Nibble(code: int): Option<int> {
    if 0x30 <= code <= 0x39 then Some(code - 0x30)
    else if 0x41 <= code <= 0x46 then Some(code - 0x41 + 10)
    else if 0x61 <= code <= 0x66 then Some(code - 0x61 + 10)
    else None
  }

  function UnicodeCode(h0: char, h1: char, h2: char, h3: char): Option<int> {
    match (Nibble(h0 as int), Nibble(h1 as int), Nibble(h2 as int), Nibble(h3 as int))
    case (Some(a), Some(b), Some(c), Some(d)) => Some(a * 4096 + b * 256 + c * 16 + d)
    case _ => None
  }

  /** What a piece says; of the four-digit escapes the reader knows those up to U+007F. */
  function Said(piece: Piece): Option<char> {
    match piece
    case Raw(c) => Some(c)
    case Short(letter) => (
      match ShortCode(letter as int)
      case None => None
      case Some(code) => Some(code as char)
    )
    case Unicode(h0, h1, h2, h3) =>
      match UnicodeCode(h0, h1, h2, h3)
      case None => None
      case Some(code) => if 0 <= code <= 0x7F then Some(code as char) else None
  }

  function SaidAll(pieces: seq<Piece>): Option<string> {
    if pieces == [] then Some([])
    else match (Said(pieces[0]), SaidAll(pieces[1..]))
      case (Some(c), Some(rest)) => Some([c] + rest)
      case _ => None
  }

  lemma UnescapeIsCode(letter: char)
    ensures Unescape(letter).None? <==> ShortCode(letter as int).None?
    ensures Unescape(letter).Some? ==> Unescape(letter).value as int == ShortCode(letter as int).value
  {
  }

  lemma HexValIsNibble(c: char)
    ensures HexVal(c) < 0 <==> Nibble(c as int).None?
    ensures HexVal(c) >= 0 ==> HexVal(c) == Nibble(c as int).value
  {
  }

  lemma UnicodeIsDecoded(t: string, p: nat, h0: char, h1: char, h2: char, h3: char)
    requires p + 5 <= |t| && t[p] == 'u' && t[p + 1] == h0 && t[p + 2] == h1 && t[p + 3] == h2 && t[p + 4] == h3
    ensures DecodeEscape(t, p)
         == if Said(Unicode(h0, h1, h2, h3)).None? then None else Some((Said(Unicode(h0, h1, h2, h3)).value, p + 5))
  {
    hide HexVal, Nibble;
    UnescapeIsCode('u');
    HexValIsNibble(h0);
    HexValIsNibble(h1);
    HexValIsNibble(h2);
    HexValIsNibble(h3);
  }

  lemma PieceStands(t: string, p: nat, s: string)
    requires HasAt(t, p, s)
    ensures p + |s| <= |t| && t[p..p + |s|] == s
  {
    forall i: nat | i < |s| ensures t[p + i] == s[i] {
      assert CharAt(t, p, s, i);
    }
  }

  lemma PieceIsDecoded(t: string, p: nat, piece: Piece)
    requires HasAt(t, p, Spelled(piece)) && Legal(piece)
    ensures var e := p + |Spelled(piece)|;
      e <= |t| && DecodeBody(t, p) == if Said(piece).None? then None else Prepend(Said(piece).value, DecodeBody(t, e))
  {
    hide DecodeEscape, UnicodeCode;
    var s := Spelled(piece);
    PieceStands(t, p, s);
    var cut := t[p..p + |s|];
    assert t[p] == cut[0] == s[0];
    match piece
    case Raw(c) =>
    case Short(letter) =>
      assert t[p + 1] == cut[1] == letter;
      ShortIsDecoded(t, p + 1, letter);
    case Unicode(h0, h1, h2, h3) =>
      assert t[p + 1] == cut[1] && t[p + 2] == cut[2] && t[p + 3] == cut[3] && t[p + 4] == cut[4] && t[p + 5] == cut[5];
      UnicodeIsDecoded(t, p + 1, h0, h1, h2, h3);
  }

  lemma ShortIsDecoded(t: string, p: nat, letter: char)
    requires p < |t| && t[p] == letter && letter != 'u'
    ensures DecodeEscape(t, p) == if Said(Short(letter)).None? then None else Some((Said(Short(letter)).value, p + 1))
  {
    UnescapeIsCode(letter);
  }

  lemma {:induction false} PiecesAreDecoded(t: string, p: nat, pieces: seq<Piece>)
    requires forall i :: 0 <= i < |pieces| ==> Legal(pieces[i])
    requires HasAt(t, p, SpelledAll(pieces)) && p + |SpelledAll(pieces)| < |t| && t[p + |SpelledAll(pieces)|] == '"'
    ensures DecodeBody(t, p)
         == if SaidAll(pieces).None? then None else Some((SaidAll(pieces).value, p + |SpelledAll(pieces)|))
    decreases |pieces|
  {
    hide HasAt, Said, Spelled;
    if pieces != [] {
      var s := Spelled(pieces[0]);
      HasAtParts(t, p, s, SpelledAll(pieces[1..]));
      PieceIsDecoded(t, p, pieces[0]);
      PiecesAreDecoded(t, p + |s|, pieces[1..]);
    }
  }

  /**
   A string of any characters and escapes gives what its pieces say, exactly if every one of them
   says something and the whole fits the buffer with its NUL.
   */
  lemma StringSays(t: string, p: nat, pieces: seq<Piece>, outLen: nat)
    requires forall i :: 0 <= i < |pieces| ==> Legal(pieces[i])
    requires HasAt(t, p, "\"" + (SpelledAll(pieces) + "\""))
    ensures p <= |t|
    ensures ParseString(t, p, outLen)
         == if SaidAll(pieces).Some? && |SaidAll(pieces).value| < outLen then SaidAll(pieces) else None
  {
    hide SpelledAll, SaidAll, Legal;
    var s := SpelledAll(pieces);
    HasAtParts(t, p, "\"", s + "\"");
    HasAtParts(t, p + 1, s, "\"");
    assert CharAt(t, p, "\"", 0) && CharAt(t, p + 1 + |s|, "\"", 0);
    PiecesAreDecoded(t, p + 1, pieces);
  }
}
