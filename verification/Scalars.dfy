/** Number and literal tokens, by sections 3 and 6 of RFC 8259. */
module Scalars {
  import opened Units

  const TRUE: Text := [116, 114, 117, 101]
  const FALSE: Text := [102, 97, 108, 115, 101]
  const NULL: Text := [110, 117, 108, 108]

  predicate IsDigit(u: Unit) { ZERO <= u <= NINE }

  /** How many digits `s` begins with. */
  function Digits(s: Text): (n: nat)
    ensures n <= |s|
  {
    if s == [] || !IsDigit(s[0]) then 0 else 1 + Digits(s[1..])
  }

  function IntLen(s: Text): (n: Option<nat>)
    ensures n.Some? ==> 0 < n.value <= |s|
  {
    if s == [] || !IsDigit(s[0]) then None
    else if s[0] == ZERO then Some(1)
    else Some(Digits(s))
  }

  function FracLen(s: Text): (n: nat)
    ensures n <= |s|
  {
    if s == [] || s[0] != DOT || Digits(s[1..]) == 0 then 0 else 1 + Digits(s[1..])
  }

  function SignLen(s: Text): (n: nat)
    ensures n <= |s|
  {
    if s != [] && (s[0] == PLUS || s[0] == MINUS) then 1 else 0
  }

  function ExpLen(s: Text): (n: nat)
    ensures n <= |s|
  {
    if s == [] || (s[0] != LOWER_E && s[0] != UPPER_E) then 0 else
      var t := s[1..];
      var sign := SignLen(t);
      var digits := Digits(t[sign..]);
      if digits == 0 then 0 else 1 + sign + digits
  }

  /** How many units a fraction and an exponent take up at the start of `s`. */
  function TailLen(s: Text): (n: nat)
    ensures n <= |s|
  {
    FracLen(s) + ExpLen(s[FracLen(s)..])
  }

  function UnsignedLen(s: Text): (n: Option<nat>)
    ensures n.Some? ==> 0 < n.value <= |s|
  {
    match IntLen(s)
    case None => None
    case Some(i) => Some(i + TailLen(s[i..]))
  }

  /** The length of the number or literal `s` begins with, if it begins with one. */
  function ScalarLen(s: Text): (n: Option<nat>)
    ensures n.Some? ==> 0 < n.value <= |s|
  {
    if s == [] then None
    else if s[0] == MINUS then
      match UnsignedLen(s[1..]) case None => None case Some(n) => Some(n + 1)
    else if IsDigit(s[0]) then UnsignedLen(s)
    else if TRUE <= s || NULL <= s then Some(4)
    else if FALSE <= s then Some(5)
    else None
  }

  predicate IsScalar(token: Text) {
    ScalarLen(token) == Some(|token|)
  }

  predicate IsNumber(token: Text) {
    token != [] && (token[0] == MINUS || IsDigit(token[0])) && IsScalar(token)
  }

  type Number = n: Text | IsNumber(n) witness [ZERO]

  /** Nothing `s` begins with could go on a number. */
  predicate EndsNumber(s: Text) {
    s == [] || (!IsDigit(s[0]) && s[0] != DOT && s[0] != LOWER_E && s[0] != UPPER_E && s[0] != PLUS && s[0] != MINUS)
  }

  lemma {:induction false} DigitsBefore(a: Text, b: Text)
    requires EndsNumber(b)
    ensures Digits(a + b) == Digits(a)
  {
    if a == [] {
      assert a + b == b;
    } else {
      assert (a + b)[1..] == a[1..] + b;
      DigitsBefore(a[1..], b);
    }
  }

  lemma FracBefore(a: Text, b: Text)
    requires EndsNumber(b)
    ensures FracLen(a + b) == FracLen(a)
  {
    if a == [] {
      assert a + b == b;
    } else {
      assert (a + b)[1..] == a[1..] + b;
      DigitsBefore(a[1..], b);
    }
  }

  lemma ExpBefore(a: Text, b: Text)
    requires EndsNumber(b)
    ensures ExpLen(a + b) == ExpLen(a)
  {
    if a == [] {
      assert a + b == b;
    } else {
      var t := a[1..];
      assert (a + b)[1..] == t + b;
      assert t == [] ==> t + b == b;
      var sign := SignLen(t);
      assert (t + b)[sign..] == t[sign..] + b;
      DigitsBefore(t[sign..], b);
    }
  }

  lemma IntBefore(a: Text, b: Text)
    requires a != [] && EndsNumber(b)
    ensures IntLen(a + b) == IntLen(a)
  {
    DigitsBefore(a, b);
  }

  lemma TailBefore(a: Text, b: Text)
    requires EndsNumber(b)
    ensures TailLen(a + b) == TailLen(a)
  {
    hide FracLen, ExpLen;
    FracBefore(a, b);
    var f := FracLen(a);
    assert (a + b)[f..] == a[f..] + b;
    ExpBefore(a[f..], b);
  }

  lemma UnsignedBefore(a: Text, b: Text)
    requires a != [] && EndsNumber(b)
    ensures UnsignedLen(a + b) == UnsignedLen(a)
  {
    hide TailLen, IntLen;
    IntBefore(a, b);
    if IntLen(a).Some? {
      var i := IntLen(a).value;
      assert (a + b)[i..] == a[i..] + b;
      TailBefore(a[i..], b);
    }
  }

  /** A token is read whole in front of anything that could not go on a number. */
  lemma ScalarBefore(token: Text, rest: Text)
    requires IsScalar(token) && EndsNumber(rest)
    ensures ScalarLen(token + rest) == Some(|token|)
  {
    hide UnsignedLen;
    var s := token + rest;
    assert s[0] == token[0];
    if token[0] == MINUS {
      assert s[1..] == token[1..] + rest;
      UnsignedBefore(token[1..], rest);
    } else if IsDigit(token[0]) {
      UnsignedBefore(token, rest);
    } else {
      assert token <= s;
    }
  }

  lemma {:induction false} DigitsWithin(s: Text, n: nat)
    requires Digits(s) <= n <= |s|
    ensures Digits(s[..n]) == Digits(s)
  {
    if s != [] && IsDigit(s[0]) {
      assert s[..n][1..] == s[1..][..n - 1];
      DigitsWithin(s[1..], n - 1);
    }
  }

  lemma FracWithin(s: Text, n: nat)
    requires FracLen(s) <= n <= |s|
    ensures FracLen(s[..n]) == FracLen(s)
  {
    if n > 0 {
      assert s[..n][1..] == s[1..][..n - 1];
      if Digits(s[1..]) <= n - 1 {
        DigitsWithin(s[1..], n - 1);
      }
    }
  }

  lemma ExpWithin(s: Text, n: nat)
    requires ExpLen(s) <= n <= |s|
    ensures ExpLen(s[..n]) == ExpLen(s)
  {
    if n > 0 && (s[0] == LOWER_E || s[0] == UPPER_E) {
      var t, u := s[1..], s[..n][1..];
      assert u == t[..n - 1];
      var sign := SignLen(t);
      if sign <= n - 1 {
        assert u[sign..] == t[sign..][..n - 1 - sign];
        assert SignLen(u) == sign;
        DigitsWithin(t[sign..], n - 1 - sign);
      }
    }
  }

  lemma IntWithin(s: Text, n: nat)
    requires IntLen(s).Some? && IntLen(s).value <= n <= |s|
    ensures IntLen(s[..n]) == IntLen(s)
  {
    if s[0] != ZERO {
      DigitsWithin(s, n);
    }
  }

  lemma TailWithin(s: Text, n: nat)
    requires TailLen(s) <= n <= |s|
    ensures TailLen(s[..n]) == TailLen(s)
  {
    hide FracLen, ExpLen;
    var f := FracLen(s);
    FracWithin(s, n);
    assert s[..n][f..] == s[f..][..n - f];
    ExpWithin(s[f..], n - f);
  }

  lemma UnsignedWithin(s: Text, n: nat)
    requires UnsignedLen(s) == Some(n)
    ensures UnsignedLen(s[..n]) == Some(n)
  {
    hide TailLen, IntLen;
    var i := IntLen(s).value;
    IntWithin(s, n);
    assert s[..n][i..] == s[i..][..n - i];
    TailWithin(s[i..], n - i);
  }

  /** What is read as a token is one on its own. */
  lemma ScalarWithin(s: Text)
    requires ScalarLen(s).Some?
    ensures IsScalar(s[..ScalarLen(s).value])
  {
    hide UnsignedLen;
    var n := ScalarLen(s).value;
    if s[0] == MINUS {
      UnsignedWithin(s[1..], n - 1);
      assert s[..n][1..] == s[1..][..n - 1];
    } else if IsDigit(s[0]) {
      UnsignedWithin(s, n);
    }
  }
}
