/** Number tokens told part by part, by section 6 of RFC 8259. */
module Numbers {
  import opened Units
  import opened Scalars

  datatype Exponent = Exponent(upper: bool, sign: Option<bool>, digits: Text)

  /** A minus or none, the whole part, and the parts behind a point and an `e`, where there are any. */
  datatype Parts = Parts(minus: bool, whole: Text, fraction: Option<Text>, exponent: Option<Exponent>)

  predicate AreDigits(s: Text) {
    s != [] && forall i :: 0 <= i < |s| ==> 48 <= s[i] <= 57
  }

  /** No part is empty, and the whole part starts with a zero only when that is all of it. */
  predicate IsParts(p: Parts) {
    && AreDigits(p.whole) && (p.whole[0] == 48 ==> |p.whole| == 1)
    && (p.fraction.Some? ==> AreDigits(p.fraction.value))
    && (p.exponent.Some? ==> AreDigits(p.exponent.value.digits))
  }

  function FractionText(fraction: Option<Text>): Text {
    match fraction case None => [] case Some(digits) => [46] + digits
  }

  function SignText(sign: Option<bool>): Text {
    match sign case None => [] case Some(plus) => [if plus then 43 else 45]
  }

  function ExponentText(exponent: Option<Exponent>): Text {
    match exponent
    case None => []
    case Some(e) => [if e.upper then 69 else 101] + (SignText(e.sign) + e.digits)
  }

  function PartsText(p: Parts): Text {
    (if p.minus then [45] else []) + (p.whole + (FractionText(p.fraction) + ExponentText(p.exponent)))
  }

  // ----- Parts are read as a number -----

  lemma {:induction false} DigitsOf(s: Text, rest: Text)
    requires (forall i :: 0 <= i < |s| ==> 48 <= s[i] <= 57) && (rest == [] || !IsDigit(rest[0]))
    ensures Digits(s + rest) == |s|
  {
    if s == [] {
      assert s + rest == rest;
    } else {
      assert (s + rest)[1..] == s[1..] + rest;
      DigitsOf(s[1..], rest);
    }
  }

  lemma SignIs(sign: Option<bool>, digits: Text)
    requires AreDigits(digits)
    ensures var t := SignText(sign) + digits;
      SignLen(t) == |SignText(sign)| && t[SignLen(t)..] == digits && Digits(digits) == |digits| > 0
  {
    DigitsOf(digits, []);
    assert digits + [] == digits;
  }

  lemma ExponentIs(exponent: Option<Exponent>)
    requires exponent.Some? ==> AreDigits(exponent.value.digits)
    ensures var t := ExponentText(exponent); ExpLen(t) == |t| && (t == [] || (!IsDigit(t[0]) && t[0] != DOT))
  {
    hide Digits, SignText, SignLen, AreDigits;
    if exponent.Some? {
      var e, t := exponent.value, ExponentText(exponent);
      SignIs(e.sign, e.digits);
      assert t[1..] == SignText(e.sign) + e.digits;
    }
  }

  lemma FractionIs(fraction: Option<Text>, rest: Text)
    requires (fraction.Some? ==> AreDigits(fraction.value)) && (rest == [] || (!IsDigit(rest[0]) && rest[0] != DOT))
    ensures var t := FractionText(fraction); FracLen(t + rest) == |t| && (t + rest)[|t|..] == rest
    ensures var t := FractionText(fraction) + rest; t == [] || !IsDigit(t[0])
  {
    var t := FractionText(fraction);
    if fraction.Some? {
      assert (t + rest)[1..] == fraction.value + rest;
      DigitsOf(fraction.value, rest);
    } else {
      assert t + rest == rest;
    }
  }

  lemma UnsignedIs(p: Parts)
    requires IsParts(p)
    ensures var t := p.whole + (FractionText(p.fraction) + ExponentText(p.exponent)); UnsignedLen(t) == Some(|t|)
  {
    hide FracLen, ExpLen, FractionText, ExponentText;
    var tail := FractionText(p.fraction) + ExponentText(p.exponent);
    var t := p.whole + tail;
    ExponentIs(p.exponent);
    FractionIs(p.fraction, ExponentText(p.exponent));
    DigitsOf(p.whole, tail);
    assert t[|p.whole|..] == tail;
  }

  lemma PartsRead(p: Parts)
    requires IsParts(p)
    ensures IsNumber(PartsText(p))
  {
    hide UnsignedLen, FractionText, ExponentText;
    var t := p.whole + (FractionText(p.fraction) + ExponentText(p.exponent));
    UnsignedIs(p);
    assert PartsText(p)[if p.minus then 1 else 0..] == t;
    assert t[0] == p.whole[0];
  }

  // ----- A number has parts -----

  lemma {:induction false} DigitsAre(s: Text)
    ensures forall i :: 0 <= i < Digits(s) ==> 48 <= s[i] <= 57
  {
    if s != [] && IsDigit(s[0]) {
      DigitsAre(s[1..]);
    }
  }

  lemma ExponentOf(s: Text) returns (exponent: Option<Exponent>)
    requires ExpLen(s) == |s|
    ensures (exponent.Some? ==> AreDigits(exponent.value.digits)) && ExponentText(exponent) == s
  {
    hide Digits, SignLen, SignText;
    if s == [] {
      exponent := None;
    } else {
      var t := s[1..];
      var n := SignLen(t);
      DigitsAre(t[n..]);
      var sign := SignOf(t);
      exponent := Some(Exponent(s[0] == UPPER_E, sign, t[n..]));
      assert s == [s[0]] + t && t == t[..n] + t[n..];
    }
  }

  lemma SignOf(t: Text) returns (sign: Option<bool>)
    ensures SignText(sign) == t[..SignLen(t)]
  {
    sign := if SignLen(t) == 0 then None else Some(t[0] == PLUS);
  }

  lemma FractionOf(s: Text) returns (fraction: Option<Text>)
    ensures (fraction.Some? ==> AreDigits(fraction.value)) && FractionText(fraction) == s[..FracLen(s)]
  {
    var n := FracLen(s);
    if n == 0 {
      fraction := None;
    } else {
      DigitsAre(s[1..]);
      fraction := Some(s[1..][..n - 1]);
      assert s[..n] == [s[0]] + s[1..][..n - 1];
    }
  }

  lemma UnsignedOf(t: Text, minus: bool) returns (p: Parts)
    requires UnsignedLen(t) == Some(|t|)
    ensures IsParts(p) && p.minus == minus && t == p.whole + (FractionText(p.fraction) + ExponentText(p.exponent))
  {
    hide FracLen, ExpLen, FractionText, ExponentText;
    var i := IntLen(t).value;
    var tail := t[i..];
    DigitsAre(t);
    var f := FracLen(tail);
    var fraction := FractionOf(tail);
    var exponent := ExponentOf(tail[f..]);
    p := Parts(minus, t[..i], fraction, exponent);
    assert t == t[..i] + tail && tail == tail[..f] + tail[f..];
  }

  /** A text is a number exactly when it is such parts. */
  lemma NumberIs(token: Text)
    ensures IsNumber(token) <==> exists p :: IsParts(p) && PartsText(p) == token
  {
    hide UnsignedLen, IsParts;
    if IsNumber(token) {
      var minus := token[0] == MINUS;
      var t := token[if minus then 1 else 0..];
      var p := UnsignedOf(t, minus);
      assert token == (if minus then [MINUS] else []) + t;
      assert IsParts(p) && PartsText(p) == token;
    }
    if p :| IsParts(p) && PartsText(p) == token {
      PartsRead(p);
    }
  }

  /** And the other tokens are the three words. */
  lemma ScalarIs(token: Text)
    ensures IsScalar(token) <==>
      IsNumber(token) || token == [116, 114, 117, 101] || token == [102, 97, 108, 115, 101] || token == [110, 117, 108, 108]
  {
    hide UnsignedLen;
  }
}
