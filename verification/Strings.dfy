/**
 * String tokens, by section 7 of RFC 8259: how JSON.stringify quotes a string, how JSON.parse
 * reads one back, and how the closing quote is found by hand.
 */
module Strings {
  import opened Units

  const LOWER_B: Unit := 98
  const LOWER_F: Unit := 102
  const LOWER_N: Unit := 110
  const LOWER_R: Unit := 114
  const LOWER_T: Unit := 116
  const LOWER_U: Unit := 117
  const BACKSPACE: Unit := 8
  const FORM_FEED: Unit := 12

  predicate IsLead(u: Unit) { 0xD800 <= u < 0xDC00 }
  predicate IsTrail(u: Unit) { 0xDC00 <= u < 0xE000 }

  function HexDigit(n: nat): (u: Unit)
    requires n < 16
  {
    if n < 10 then ZERO + n else 87 + n
  }

  function HexValue(u: Unit): (n: Option<nat>)
    ensures n.Some? ==> n.value < 16
  {
    if ZERO <= u <= NINE then Some(u - ZERO)
    else if 97 <= u <= 102 then Some(u - 87)
    else if 65 <= u <= 70 then Some(u - 55)
    else None
  }

  function Hex4(u: Unit): (h: Text)
    ensures |h| == 4
  {
    [HexDigit(u / 0x1000), HexDigit(u / 0x100 % 0x10), HexDigit(u / 0x10 % 0x10), HexDigit(u % 0x10)]
  }

  function ReadHex4(h: Text): (u: Option<Unit>)
    requires |h| == 4
  {
    match (HexValue(h[0]), HexValue(h[1]), HexValue(h[2]), HexValue(h[3]))
    case (Some(a), Some(b), Some(c), Some(d)) => Some(a * 0x1000 + b * 0x100 + c * 0x10 + d)
    case _ => None
  }

  lemma HexDigitReadsBack(n: nat)
    requires n < 16
    ensures HexValue(HexDigit(n)) == Some(n)
  {
  }

  lemma Hex4ReadsBack(u: Unit)
    ensures ReadHex4(Hex4(u)) == Some(u)
  {
    var a, b, c, d := u / 0x1000, u / 0x100 % 0x10, u / 0x10 % 0x10, u % 0x10;
    HexDigitReadsBack(a);
    HexDigitReadsBack(b);
    HexDigitReadsBack(c);
    HexDigitReadsBack(d);
    NibblesMakeUnit(u);
  }

  lemma NibblesMakeUnit(u: Unit)
    ensures u / 0x1000 * 0x1000 + u / 0x100 % 0x10 * 0x100 + u / 0x10 % 0x10 * 0x10 + u % 0x10 == u
  {
    var x := u / 0x10;
    var y := x / 0x10;
    assert u / 0x100 == y && u / 0x1000 == y / 0x10;
  }

  /** The unit a one-letter escape stands for. */
  function ShortEscape(u: Unit): Option<Unit> {
    if u == QUOTE || u == BACKSLASH || u == SLASH then Some(u)
    else if u == LOWER_B then Some(BACKSPACE)
    else if u == LOWER_F then Some(FORM_FEED)
    else if u == LOWER_N then Some(LF)
    else if u == LOWER_R then Some(CR)
    else if u == LOWER_T then Some(TAB)
    else None
  }

  /** One unit as JSON.stringify writes it when it is not half of a surrogate pair. */
  function EscapeUnit(u: Unit): Text {
    if u == QUOTE || u == BACKSLASH then [BACKSLASH, u]
    else if u == BACKSPACE then [BACKSLASH, LOWER_B]
    else if u == FORM_FEED then [BACKSLASH, LOWER_F]
    else if u == LF then [BACKSLASH, LOWER_N]
    else if u == CR then [BACKSLASH, LOWER_R]
    else if u == TAB then [BACKSLASH, LOWER_T]
    else if u < 0x20 || IsLead(u) || IsTrail(u) then [BACKSLASH, LOWER_U] + Hex4(u)
    else [u]
  }

  function Escape(s: Text): Text {
    if s == [] then []
    else if |s| >= 2 && IsLead(s[0]) && IsTrail(s[1]) then s[..2] + Escape(s[2..])
    else EscapeUnit(s[0]) + Escape(s[1..])
  }

  function Cons(u: Unit, rest: Option<Text>): Option<Text> {
    match rest case None => None case Some(r) => Some([u] + r)
  }

  /** The string a body between two quotes stands for; None when section 7 of RFC 8259 does not allow it. */
  function Unescape(body: Text): Option<Text> {
    if body == [] then Some([])
    else if body[0] == BACKSLASH then
      if |body| >= 2 && ShortEscape(body[1]).Some? then
        Cons(ShortEscape(body[1]).value, Unescape(body[2..]))
      else if |body| >= 6 && body[1] == LOWER_U && ReadHex4(body[2..6]).Some? then
        Cons(ReadHex4(body[2..6]).value, Unescape(body[6..]))
      else None
    else if body[0] == QUOTE || body[0] < 0x20 then None
    else Cons(body[0], Unescape(body[1..]))
  }

  /** A string token as JSON.stringify writes it. */
  function Quote(s: Text): (token: Text) {
    [QUOTE] + Escape(s) + [QUOTE]
  }

  predicate IsString(token: Text) {
    && |token| >= 2 && token[0] == QUOTE && token[|token| - 1] == QUOTE
    && Unescape(token[1..|token| - 1]).Some?
  }

  function Unquote(token: Text): Text
    requires IsString(token)
  {
    Unescape(token[1..|token| - 1]).value
  }

  /** How far the closing quote reaches in what follows an opening one, stepping over escaped units. */
  function ScanLen(s: Text): (n: Option<nat>)
    ensures n.Some? ==> 0 < n.value <= |s| && s[n.value - 1] == QUOTE
  {
    if s == [] then None
    else if s[0] == QUOTE then Some(1)
    else if s[0] == BACKSLASH then
      if |s| < 2 then None else
      Add(2, ScanLen(s[2..]))
    else
      Add(1, ScanLen(s[1..]))
  }

  /** The length of the string token `s` begins with, if it begins with one. */
  function StringLen(s: Text): (n: Option<nat>)
    requires s != [] && s[0] == QUOTE
    ensures n.Some? ==> 2 <= n.value <= |s|
  {
    match ScanLen(s[1..])
    case None => None
    case Some(n) => if Unescape(s[1..n]).Some? then Some(n + 1) else None
  }

  lemma UnescapeUnit(u: Unit, rest: Text)
    ensures Unescape(EscapeUnit(u) + rest) == Cons(u, Unescape(rest))
  {
    var b := EscapeUnit(u) + rest;
    if |EscapeUnit(u)| == 1 {
      assert b[1..] == rest;
    } else if |EscapeUnit(u)| == 2 {
      assert b[2..] == rest;
    } else {
      Hex4ReadsBack(u);
      assert b[2..6] == Hex4(u) && b[6..] == rest;
    }
  }

  lemma UnescapePair(a: Unit, b: Unit, rest: Text)
    requires IsLead(a) && IsTrail(b)
    ensures Unescape([a, b] + rest) == Cons(a, Cons(b, Unescape(rest)))
  {
    var s := [a, b] + rest;
    assert s[1..] == [b] + rest && s[1..][1..] == rest;
  }

  /** Whatever JSON.stringify quotes, JSON.parse reads back. */
  lemma {:induction false} UnescapeEscape(s: Text)
    ensures Unescape(Escape(s)) == Some(s)
  {
    hide EscapeUnit;
    if s == [] {
    } else if |s| >= 2 && IsLead(s[0]) && IsTrail(s[1]) {
      UnescapeEscape(s[2..]);
      UnescapePair(s[0], s[1], Escape(s[2..]));
      assert s[..2] == [s[0], s[1]];
      assert [s[0]] + ([s[1]] + s[2..]) == s;
    } else {
      UnescapeEscape(s[1..]);
      UnescapeUnit(s[0], Escape(s[1..]));
      assert [s[0]] + s[1..] == s;
    }
  }

  lemma QuoteReadsBack(s: Text)
    ensures IsString(Quote(s)) && Unquote(Quote(s)) == s
  {
    UnescapeEscape(s);
    assert Quote(s)[1..|Quote(s)| - 1] == Escape(s);
  }

  /** The scan from inside a token stops exactly at the quote that ends its body. */
  lemma {:induction false} ScanBody(body: Text, rest: Text)
    requires Unescape(body).Some?
    ensures ScanLen(body + [QUOTE] + rest) == Some(|body| + 1)
  {
    hide ScanLen, ReadHex4, ShortEscape;
    if body == [] {
      ScanStep(body + [QUOTE] + rest);
    } else if body[0] != BACKSLASH {
      ScanBody(body[1..], rest);
      assert (body + [QUOTE] + rest)[1..] == body[1..] + [QUOTE] + rest;
      ScanStep(body + [QUOTE] + rest);
    } else if ShortEscape(body[1]).Some? {
      ScanBody(body[2..], rest);
      ScanEscape(body + [QUOTE] + rest);
      assert (body + [QUOTE] + rest)[2..] == body[2..] + [QUOTE] + rest;
    } else {
      ScanBody(body[6..], rest);
      HexIsPlain(body[2..6]);
      ScanPlain(body[2..6], body[6..] + [QUOTE] + rest);
      ScanEscape(body + [QUOTE] + rest);
      assert (body + [QUOTE] + rest)[2..] == body[2..6] + (body[6..] + [QUOTE] + rest);
    }
  }

  lemma ScanStep(s: Text)
    requires s != [] && s[0] != BACKSLASH
    ensures ScanLen(s) == if s[0] == QUOTE then Some(1) else Add(1, ScanLen(s[1..]))
  {
  }

  lemma ScanEscape(s: Text)
    requires |s| >= 2 && s[0] == BACKSLASH
    ensures ScanLen(s) == Add(2, ScanLen(s[2..]))
  {
  }

  /** Units that are neither quotes nor backslashes are stepped over one by one. */
  lemma {:induction false} ScanPlain(plain: Text, rest: Text)
    requires QUOTE !in plain && BACKSLASH !in plain && ScanLen(rest).Some?
    ensures ScanLen(plain + rest) == Some(|plain| + ScanLen(rest).value)
  {
    if plain == [] {
      assert plain + rest == rest;
    } else {
      assert (plain + rest)[1..] == plain[1..] + rest;
      ScanPlain(plain[1..], rest);
    }
  }

  lemma HexIsPlain(h: Text)
    requires |h| == 4 && ReadHex4(h).Some?
    ensures QUOTE !in h && BACKSLASH !in h
  {
    assert h == [h[0], h[1], h[2], h[3]];
  }

  /**
   * The quote found by hand is exactly the end of the string token: a text that opens with a
   * quote yields length `n` if and only if its first `n` units are a token.
   */
  lemma ScanFindsToken(s: Text, n: nat)
    requires s != [] && s[0] == QUOTE && n <= |s|
    ensures StringLen(s) == Some(n) <==> IsString(s[..n])
  {
    var p := s[..n];
    if IsString(p) {
      var body := p[1..n - 1];
      ScanBody(body, s[n..]);
      assert s[1..] == body + [QUOTE] + s[n..];
      assert s[1..n - 1] == body;
    }
    if StringLen(s) == Some(n) {
      assert s[1..n - 1] == p[1..n - 1];
      assert p[n - 1] == s[1..][n - 2];
    }
  }
}
