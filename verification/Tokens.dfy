/** String tokens told piece by piece, by section 7 of RFC 8259: what one stands for, and how one is written. */
module Tokens {
  import opened Units
  import opened Strings

  /** What stands behind a backslash for one unit, and the units they are for. */
  const LETTERS: Text := [34, 92, 47, 98, 102, 110, 114, 116]
  const MEANT: Text := [34, 92, 47, 8, 12, 10, 13, 9]

  const LOWER: Text := [48, 49, 50, 51, 52, 53, 54, 55, 56, 57, 97, 98, 99, 100, 101, 102]
  const UPPER: Text := [48, 49, 50, 51, 52, 53, 54, 55, 56, 57, 65, 66, 67, 68, 69, 70]

  datatype Nibble = Nibble(value: nat, upper: bool)

  /** A unit as it is, an escape of one letter, or one of four hexadecimal digits. */
  datatype Piece = Raw(u: Unit) | Short(which: nat) | Coded(a: Nibble, b: Nibble, c: Nibble, d: Nibble)

  predicate IsPiece(piece: Piece) {
    match piece
    case Raw(u) => u >= 0x20 && u != 34 && u != 92
    case Short(which) => which < 8
    case Coded(a, b, c, d) => a.value < 16 && b.value < 16 && c.value < 16 && d.value < 16
  }

  function NibbleUnit(d: Nibble): Unit
    requires d.value < 16
  {
    if d.upper then UPPER[d.value] else LOWER[d.value]
  }

  function PieceText(piece: Piece): (text: Text)
    requires IsPiece(piece)
    ensures text != []
  {
    match piece
    case Raw(u) => [u]
    case Short(which) => [92, LETTERS[which]]
    case Coded(a, b, c, d) => [92, 117, NibbleUnit(a), NibbleUnit(b), NibbleUnit(c), NibbleUnit(d)]
  }

  function Meaning(piece: Piece): Unit
    requires IsPiece(piece)
  {
    match piece
    case Raw(u) => u
    case Short(which) => MEANT[which]
    case Coded(a, b, c, d) => a.value * 4096 + b.value * 256 + c.value * 16 + d.value
  }

  predicate ArePieces(pieces: seq<Piece>) {
    forall i :: 0 <= i < |pieces| ==> IsPiece(pieces[i])
  }

  function Spelling(pieces: seq<Piece>): Text
    requires ArePieces(pieces)
  {
    if pieces == [] then [] else PieceText(pieces[0]) + Spelling(pieces[1..])
  }

  function Meanings(pieces: seq<Piece>): Text
    requires ArePieces(pieces)
  {
    seq(|pieces|, i requires 0 <= i < |pieces| => Meaning(pieces[i]))
  }

  // ----- What a token stands for -----

  lemma NibbleReads(d: Nibble)
    requires d.value < 16
    ensures HexValue(NibbleUnit(d)) == Some(d.value)
  {
  }

  lemma NibbleOf(u: Unit) returns (d: Nibble)
    requires HexValue(u).Some?
    ensures d.value == HexValue(u).value && NibbleUnit(d) == u
  {
    d := Nibble(HexValue(u).value, 65 <= u <= 70);
  }

  lemma ShortReads(which: nat)
    requires which < 8
    ensures ShortEscape(LETTERS[which]) == Some(MEANT[which])
  {
  }

  lemma ShortOf(u: Unit) returns (which: nat)
    requires ShortEscape(u).Some?
    ensures which < 8 && LETTERS[which] == u
  {
    which := if u == 34 then 0 else if u == 92 then 1 else if u == 47 then 2 else if u == 98 then 3
      else if u == 102 then 4 else if u == 110 then 5 else if u == 114 then 6 else 7;
  }

  lemma PieceReads(piece: Piece, rest: Text)
    requires IsPiece(piece)
    ensures Unescape(PieceText(piece) + rest) == Cons(Meaning(piece), Unescape(rest))
  {
    hide HexValue, NibbleUnit, ShortEscape;
    var text := PieceText(piece) + rest;
    if piece.Raw? {
      assert text[1..] == rest;
    } else if piece.Short? {
      ShortReads(piece.which);
      assert text[1] == LETTERS[piece.which] && text[2..] == rest;
    } else {
      NibbleReads(piece.a);
      NibbleReads(piece.b);
      NibbleReads(piece.c);
      NibbleReads(piece.d);
      NoShort();
      assert text[2..6] == [NibbleUnit(piece.a), NibbleUnit(piece.b), NibbleUnit(piece.c), NibbleUnit(piece.d)];
      assert text[6..] == rest;
    }
  }

  lemma NoShort()
    ensures ShortEscape(117).None?
  {
  }

  lemma {:induction false} PiecesRead(pieces: seq<Piece>)
    requires ArePieces(pieces)
    ensures Unescape(Spelling(pieces)) == Some(Meanings(pieces))
  {
    hide PieceText, Meaning, IsPiece, Unescape;
    if pieces == [] {
      NothingRead();
    } else {
      PieceReads(pieces[0], Spelling(pieces[1..]));
      PiecesRead(pieces[1..]);
      assert Meanings(pieces) == [Meaning(pieces[0])] + Meanings(pieces[1..]);
    }
  }

  lemma NothingRead()
    ensures Unescape([]) == Some([])
  {
  }

  /** The first piece of a body that stands for something, and what is left. */
  lemma FirstPiece(body: Text) returns (piece: Piece, rest: Text)
    requires body != [] && Unescape(body).Some?
    ensures IsPiece(piece) && body == PieceText(piece) + rest && |rest| < |body| && Unescape(rest).Some?
  {
    hide HexValue, NibbleUnit, ShortEscape;
    if body[0] != BACKSLASH {
      piece, rest := Raw(body[0]), body[1..];
    } else if ShortEscape(body[1]).Some? {
      var which := ShortOf(body[1]);
      piece, rest := Short(which), body[2..];
    } else {
      var a := NibbleOf(body[2]);
      var b := NibbleOf(body[3]);
      var c := NibbleOf(body[4]);
      var d := NibbleOf(body[5]);
      piece, rest := Coded(a, b, c, d), body[6..];
    }
  }

  lemma {:induction false} PiecesOf(body: Text) returns (pieces: seq<Piece>)
    requires Unescape(body).Some?
    ensures ArePieces(pieces) && Spelling(pieces) == body
    decreases |body|
  {
    hide IsPiece, PieceText, Unescape;
    if body == [] {
      pieces := [];
    } else {
      var piece, rest := FirstPiece(body);
      var more := PiecesOf(rest);
      pieces := [piece] + more;
      assert pieces[1..] == more;
    }
  }

  ghost predicate IsSpelling(token: Text, s: Text, pieces: seq<Piece>) {
    ArePieces(pieces) && token == [34] + Spelling(pieces) + [34] && Meanings(pieces) == s
  }

  /** A token stands for a string exactly when it is pieces that stand for its units, in order, between two quotes. */
  lemma TokenIs(token: Text, s: Text)
    ensures IsString(token) && Unquote(token) == s <==> exists pieces :: IsSpelling(token, s, pieces)
  {
    hide Spelling, Meanings, ArePieces, Unescape;
    if IsString(token) && Unquote(token) == s {
      var body := token[1..|token| - 1];
      var pieces := PiecesOf(body);
      PiecesRead(pieces);
      assert token == [34] + body + [34];
      assert IsSpelling(token, s, pieces);
    }
    if pieces :| IsSpelling(token, s, pieces) {
      PiecesRead(pieces);
      assert token[1..|token| - 1] == Spelling(pieces);
    }
  }

  // ----- How a token is written -----

  predicate Paired(s: Text, i: nat)
    requires i < |s|
  {
    || (0xD800 <= s[i] < 0xDC00 && i + 1 < |s| && 0xDC00 <= s[i + 1] < 0xE000)
    || (0xDC00 <= s[i] < 0xE000 && i > 0 && 0xD800 <= s[i - 1] < 0xDC00)
  }

  /** How unit `i` of a string is written: the short way where there is one but for `/`, and in lower-case digits where it has to be. */
  function PieceAt(s: Text, i: nat): (piece: Piece)
    requires i < |s|
  {
    var u := s[i];
    if u == 34 then Short(0)
    else if u == 92 then Short(1)
    else if u == 8 then Short(3)
    else if u == 12 then Short(4)
    else if u == 10 then Short(5)
    else if u == 13 then Short(6)
    else if u == 9 then Short(7)
    else if u < 32 || (0xD800 <= u < 0xE000 && !Paired(s, i)) then InDigits(u)
    else Raw(u)
  }

  function InDigits(u: Unit): (piece: Piece)
    ensures IsPiece(piece)
  {
    Coded(Nibble(u / 4096, false), Nibble(u / 256 % 16, false), Nibble(u / 16 % 16, false), Nibble(u % 16, false))
  }

  function Written(s: Text): (pieces: seq<Piece>)
    ensures ArePieces(pieces) && |pieces| == |s|
  {
    seq(|s|, i requires 0 <= i < |s| => PieceAt(s, i))
  }

  lemma NibbleWritten(n: nat)
    requires n < 16
    ensures NibbleUnit(Nibble(n, false)) == HexDigit(n)
  {
  }

  lemma CodedIs(u: Unit)
    ensures PieceText(InDigits(u)) == [BACKSLASH, LOWER_U] + Hex4(u)
  {
    hide NibbleUnit, HexDigit;
    NibbleWritten(u / 4096);
    NibbleWritten(u / 256 % 16);
    NibbleWritten(u / 16 % 16);
    NibbleWritten(u % 16);
  }

  lemma UnitWritten(s: Text, i: nat)
    requires i < |s|
    ensures PieceText(PieceAt(s, i)) == if Paired(s, i) then [s[i]] else EscapeUnit(s[i])
  {
    hide Hex4, InDigits;
    CodedIs(s[i]);
  }

  lemma {:induction false} EscapeIs(s: Text)
    ensures Escape(s) == Spelling(Written(s))
    decreases |s|
  {
    hide PieceText, PieceAt, EscapeUnit;
    if s != [] {
      UnitWritten(s, 0);
      if |s| >= 2 && IsLead(s[0]) && IsTrail(s[1]) {
        UnitWritten(s, 1);
        EscapeIs(s[2..]);
        WrittenPast(s, 2);
        SpellingOfTwo(s);
      } else {
        EscapeIs(s[1..]);
        WrittenPast(s, 1);
      }
    }
  }

  lemma SpellingOfTwo(s: Text)
    requires |s| >= 2 && Written(s)[2..] == Written(s[2..])
    requires PieceText(PieceAt(s, 0)) == [s[0]] && PieceText(PieceAt(s, 1)) == [s[1]]
    ensures Spelling(Written(s)) == s[..2] + Spelling(Written(s[2..]))
  {
    hide PieceText, PieceAt;
    var pieces := Written(s);
    assert pieces[1..][1..] == pieces[2..] && pieces[1..][0] == pieces[1];
    assert Spelling(pieces[1..]) == [s[1]] + Spelling(pieces[2..]);
    assert s[..2] == [s[0]] + [s[1]];
  }

  /** What follows is written as if it stood alone, where no pair is cut. */
  lemma WrittenPast(s: Text, n: nat)
    requires 1 <= n <= |s| && (n < |s| && IsTrail(s[n]) ==> !IsLead(s[n - 1]))
    ensures Written(s)[n..] == Written(s[n..])
  {
    hide PieceText, InDigits;
    forall i | 0 <= i < |s| - n ensures PieceAt(s, n + i) == PieceAt(s[n..], i) {
    }
  }

  /** A quoted string is its units, each written as it has to be. */
  lemma QuoteIs(s: Text)
    ensures Quote(s) == [34] + Spelling(Written(s)) + [34]
  {
    EscapeIs(s);
  }
}
