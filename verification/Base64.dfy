/** The bytes a write's base64 content stands for: sections 3.5, 4 and 5 of RFC 4648. */
module Base64 {
  import opened Units

  type Byte = b: int | 0 <= b < 256
  type Six = v: int | 0 <= v < 64

  const PAD: Unit := 61

  // ----- The alphabet -----

  function Digit(v: Six): Unit {
    if v < 26 then 65 + v
    else if v < 52 then 97 + (v - 26)
    else if v < 62 then 48 + (v - 52)
    else if v == 62 then PLUS
    else SLASH
  }

  function ValueOf(u: Unit): Option<Six> {
    if 65 <= u <= 90 then Some(u - 65)
    else if 97 <= u <= 122 then Some(u - 97 + 26)
    else if 48 <= u <= 57 then Some(u - 48 + 52)
    else if u == PLUS then Some(62)
    else if u == SLASH then Some(63)
    else None
  }

  // ----- The encoder -----

  /** The digits for three bytes each and for what is left. */
  function SixesFor(n: nat): nat {
    4 * (n / 3) + (if n % 3 == 0 then 0 else n % 3 + 1)
  }

  function Sixes(bytes: seq<Byte>): (sixes: seq<Six>)
    ensures |sixes| == SixesFor(|bytes|)
  {
    if |bytes| == 0 then []
    else if |bytes| == 1 then [bytes[0] / 4, bytes[0] % 4 * 16]
    else if |bytes| == 2 then [bytes[0] / 4, bytes[0] % 4 * 16 + bytes[1] / 16, bytes[1] % 16 * 4]
    else
      [bytes[0] / 4, bytes[0] % 4 * 16 + bytes[1] / 16, bytes[1] % 16 * 4 + bytes[2] / 64, bytes[2] % 64]
      + Sixes(bytes[3..])
  }

  function Digits(sixes: seq<Six>): (text: Text)
    ensures |text| == |sixes|
  {
    seq(|sixes|, i requires 0 <= i < |sixes| => Digit(sixes[i]))
  }

  function Pads(n: nat): (text: Text)
    ensures |text| == n && forall u <- text :: u == PAD
  {
    seq(n, _ => PAD)
  }

  function Encode(bytes: seq<Byte>): Text {
    Digits(Sixes(bytes)) + Pads((3 - |bytes| % 3) % 3)
  }

  // ----- Node's lenient decoder -----

  /** What is not base64 is skipped, and nothing from the first padding on is read. */
  function SixesRead(text: Text): seq<Six> {
    if text == [] || text[0] == PAD then []
    else
      var rest := SixesRead(text[1..]);
      match ValueOf(text[0])
      case None => rest
      case Some(v) => [v] + rest
  }

  function HighByte(a: int, b: int): int {
    a * 4 + b / 16
  }

  function MiddleByte(b: int, c: int): int {
    b % 16 * 16 + c / 4
  }

  function LowByte(c: int, d: int): int {
    c % 4 * 64 + d
  }

  /** A single value left over at the end makes no byte. */
  function Bytes(sixes: seq<Six>): seq<Byte> {
    if |sixes| < 2 then []
    else if |sixes| == 2 then [HighByte(sixes[0], sixes[1])]
    else if |sixes| == 3 then [HighByte(sixes[0], sixes[1]), MiddleByte(sixes[1], sixes[2])]
    else
      [HighByte(sixes[0], sixes[1]), MiddleByte(sixes[1], sixes[2]), LowByte(sixes[2], sixes[3])] + Bytes(sixes[4..])
  }

  // ----- decodeContent -----

  /** The content without blanks, in the standard alphabet. */
  function Compact(content: Text): Text {
    if content == [] then []
    else if IsSpace(content[0]) then Compact(content[1..])
    else [if content[0] == MINUS then PLUS else if content[0] == 95 then SLASH else content[0]] + Compact(content[1..])
  }

  /** Digits, then two paddings at most. */
  predicate WellFormed(text: Text) {
    exists n :: 0 <= n <= |text| <= n + 2 && AllDigits(text[..n]) && AllPads(text[n..])
  }

  predicate AllDigits(text: Text) {
    forall i :: 0 <= i < |text| ==> ValueOf(text[i]).Some?
  }

  predicate AllPads(text: Text) {
    forall i :: 0 <= i < |text| ==> text[i] == PAD
  }

  function DecodeContent(content: Text): Option<seq<Byte>> {
    var compact := Compact(content);
    var decoded := Bytes(SixesRead(compact));
    var padded := compact + Pads((|compact| + 3) / 4 * 4 - |compact|);
    if !WellFormed(compact) || Encode(decoded) != padded then None else Some(decoded)
  }

  // ----- Proofs -----

  lemma BytesBack(x: Byte, y: Byte, z: Byte)
    ensures HighByte(x / 4, x % 4 * 16 + y / 16) == x
    ensures MiddleByte(x % 4 * 16 + y / 16, y % 16 * 4 + z / 64) == y
    ensures LowByte(y % 16 * 4 + z / 64, z % 64) == z
  {
  }

  lemma {:induction false} BytesOfSixes(bytes: seq<Byte>)
    ensures Bytes(Sixes(bytes)) == bytes
  {
    hide HighByte, MiddleByte, LowByte;
    if |bytes| == 1 {
      BytesBack(bytes[0], 0, 0);
    } else if |bytes| == 2 {
      BytesBack(bytes[0], bytes[1], 0);
    } else if |bytes| >= 3 {
      BytesBack(bytes[0], bytes[1], bytes[2]);
      BytesOfSixes(bytes[3..]);
      assert Sixes(bytes)[4..] == Sixes(bytes[3..]);
    }
  }

  /** Digits are read back as the values they are for, up to the padding. */
  lemma {:induction false} DigitsRead(sixes: seq<Six>, rest: Text)
    requires AllPads(rest)
    ensures SixesRead(Digits(sixes) + rest) == sixes
  {
    var text := Digits(sixes) + rest;
    if sixes == [] {
      assert text == rest;
    } else {
      assert text[1..] == Digits(sixes[1..]) + rest;
      assert ValueOf(Digit(sixes[0])) == Some(sixes[0]);
      DigitsRead(sixes[1..], rest);
    }
  }

  /** `content` is the canonical encoding of `bytes`, blanks and the URL-safe alphabet aside, `omitted` paddings left off. */
  predicate IsEncoding(content: Text, bytes: seq<Byte>, omitted: nat) {
    Encode(bytes) == Compact(content) + Pads(omitted)
  }

  lemma DigitsThenPads(data: Text, pads: Text, compact: Text, omitted: nat)
    requires data + pads == compact + Pads(omitted) && AllDigits(data) && AllPads(pads)
    ensures |data| <= |compact| && compact[..|data|] == data && AllPads(compact[|data|..])
  {
    assert forall i :: 0 <= i < |data| ==> (data + pads)[i] == data[i];
    assert forall i :: |compact| <= i < |compact| + omitted ==> (compact + Pads(omitted))[i] == PAD;
    assert forall i :: 0 <= i < |compact| ==> (compact + Pads(omitted))[i] == compact[i];
    assert omitted > 0 ==> (data + pads)[|compact|] == PAD;
  }

  /** Leaving off paddings leaves the digits and the other paddings. */
  lemma Omitted(compact: Text, bytes: seq<Byte>, omitted: nat)
    requires Encode(bytes) == compact + Pads(omitted)
    ensures var n := |Sixes(bytes)|;
      n <= |compact| <= n + 2 && compact[..n] == Digits(Sixes(bytes)) && AllPads(compact[n..])
    ensures (|compact| + 3) / 4 * 4 - |compact| == omitted
  {
    hide Sixes, Digits, AllDigits, AllPads;
    var data, pads := Digits(Sixes(bytes)), Pads((3 - |bytes| % 3) % 3);
    DigitsAreDigits(Sixes(bytes));
    PadsArePads((3 - |bytes| % 3) % 3);
    assert |data + pads| == |compact + Pads(omitted)|;
    DigitsThenPads(data, pads, compact, omitted);
  }

  lemma PadsArePads(n: nat)
    ensures AllPads(Pads(n))
  {
  }

  lemma DigitsAreDigits(sixes: seq<Six>)
    ensures AllDigits(Digits(sixes))
  {
  }

  /** Exactly the canonical encodings, with any of the padding left off, are accepted, and decode to the bytes they encode. */
  lemma AcceptsExactly(content: Text, bytes: seq<Byte>)
    ensures DecodeContent(content) == Some(bytes) <==> exists omitted: nat :: IsEncoding(content, bytes, omitted)
  {
    hide Encode, Bytes, Sixes, SixesRead, Digits, AllDigits, AllPads, Compact;
    var compact := Compact(content);
    if DecodeContent(content) == Some(bytes) {
      assert IsEncoding(content, bytes, (|compact| + 3) / 4 * 4 - |compact|);
    }
    if omitted: nat :| IsEncoding(content, bytes, omitted) {
      var n := |Sixes(bytes)|;
      Omitted(compact, bytes, omitted);
      assert compact == compact[..n] + compact[n..];
      DigitsRead(Sixes(bytes), compact[n..]);
      BytesOfSixes(bytes);
      DigitsAreDigits(Sixes(bytes));
    }
  }

  // ----- The encoding told otherwise -----

  /** Table 1 of RFC 4648, section 4. */
  const ALPHABET: Text := seq(26, i => 65 + i) + seq(26, i => 97 + i) + seq(10, i => 48 + i) + [43, 47]

  type Bit = b: int | 0 <= b < 2

  /** The last `n` bits of `v`, the highest first. */
  function Bits(v: nat, n: nat): (bits: seq<Bit>)
    ensures |bits| == n
  {
    if n == 0 then [] else Bits(v / 2, n - 1) + [v % 2]
  }

  function AllBits(values: seq<nat>, n: nat): seq<Bit> {
    if values == [] then [] else Bits(values[0], n) + AllBits(values[1..], n)
  }

  /** Digits of the alphabet that hold the bytes' bits in order, filled up with zeros to the next digit, and paddings to the next four. */
  ghost predicate Spells(text: Text, bytes: seq<Byte>) {
    exists sixes: seq<Six>, zeros: nat, pads: nat :: SpelledBy(text, bytes, sixes, zeros, pads)
  }

  function Shown(sixes: seq<Six>): Text {
    seq(|sixes|, i requires 0 <= i < |sixes| => ALPHABET[sixes[i]])
  }

  ghost predicate SpelledBy(text: Text, bytes: seq<Byte>, sixes: seq<Six>, zeros: nat, pads: nat) {
    && text == Shown(sixes) + seq(pads, _ => 61)
    && AllBits(sixes, 6) == AllBits(bytes, 8) + seq(zeros, _ => 0)
    && Full(|sixes|, zeros, pads)
  }

  /** Fewer zeros than a digit has bits, and paddings to the next four. */
  predicate Full(sixes: nat, zeros: nat, pads: nat) {
    zeros < 6 && pads < 4 && (sixes + pads) % 4 == 0
  }

  lemma DigitIs(v: Six)
    ensures Digit(v) == ALPHABET[v]
  {
  }

  function Power(n: nat): (p: nat)
    ensures p > 0
  {
    if n == 0 then 1 else 2 * Power(n - 1)
  }

  lemma Powers()
    ensures Power(2) == 4 && Power(4) == 16 && Power(6) == 64 && Power(8) == 256
  {
    assert Power(1) == 2 && Power(3) == 8 && Power(5) == 32 && Power(7) == 128;
  }

  /** The bits of a number written from a high and a low part. */
  lemma {:induction false} BitsJoin(high: nat, m: nat, low: nat, n: nat)
    requires low < Power(n)
    ensures Bits(high * Power(n) + low, m + n) == Bits(high, m) + Bits(low, n)
  {
    if n == 0 {
      assert Bits(high, m) + [] == Bits(high, m);
    } else {
      var q := high * Power(n - 1);
      assert high * Power(n) == 2 * q;
      assert (2 * q + low) / 2 == q + low / 2 && (2 * q + low) % 2 == low % 2;
      BitsJoin(high, m, low / 2, n - 1);
      assert Bits(high, m) + Bits(low / 2, n - 1) + [low % 2] == Bits(high, m) + (Bits(low / 2, n - 1) + [low % 2]);
    }
  }

  lemma {:induction false} SameBits(v: nat, w: nat, n: nat)
    requires v < Power(n) && w < Power(n) && Bits(v, n) == Bits(w, n)
    ensures v == w
  {
    if n > 0 {
      var a, b := Bits(v, n), Bits(w, n);
      assert a[..n - 1] == Bits(v / 2, n - 1) && b[..n - 1] == Bits(w / 2, n - 1);
      assert a[n - 1] == v % 2 && b[n - 1] == w % 2;
      SameBits(v / 2, w / 2, n - 1);
    }
  }

  lemma {:induction false} NoBits(n: nat)
    ensures Bits(0, n) == seq(n, _ => 0)
  {
    if n > 0 {
      NoBits(n - 1);
    }
  }

  /** The bits of three bytes, six at a time. */
  lemma FirstSix(x: Byte)
    ensures Bits(x, 8) == Bits(x / 4, 6) + Bits(x % 4, 2)
  {
    hide Bits, Power;
    Powers();
    BitsJoin(x / 4, 6, x % 4, 2);
  }

  lemma SecondSix(x: Byte, y: Byte)
    ensures Bits(y, 8) == Bits(y / 16, 4) + Bits(y % 16, 4)
    ensures Bits(x % 4 * 16 + y / 16, 6) == Bits(x % 4, 2) + Bits(y / 16, 4)
  {
    hide Bits, Power;
    Powers();
    BitsJoin(y / 16, 4, y % 16, 4);
    BitsJoin(x % 4, 2, y / 16, 4);
  }

  lemma ThirdSix(y: Byte, z: Byte)
    ensures Bits(z, 8) == Bits(z / 64, 2) + Bits(z % 64, 6)
    ensures Bits(y % 16 * 4 + z / 64, 6) == Bits(y % 16, 4) + Bits(z / 64, 2)
  {
    hide Bits, Power;
    Powers();
    BitsJoin(z / 64, 2, z % 64, 6);
    BitsJoin(y % 16, 4, z / 64, 2);
  }

  /** How many zeros fill up the last digit. */
  function Zeros(n: nat): nat {
    if n % 3 == 0 then 0 else if n % 3 == 1 then 4 else 2
  }

  lemma {:induction false} BitsOn(a: seq<nat>, b: seq<nat>, n: nat)
    ensures AllBits(a + b, n) == AllBits(a, n) + AllBits(b, n)
  {
    hide Bits;
    if a == [] {
      assert a + b == b;
    } else {
      assert (a + b)[1..] == a[1..] + b;
      BitsOn(a[1..], b, n);
    }
  }

  lemma {:induction false} BitsSize(values: seq<nat>, n: nat)
    ensures |AllBits(values, n)| == n * |values|
  {
    if values != [] {
      BitsSize(values[1..], n);
    }
  }

  lemma BitsOfOne(a: nat, n: nat)
    ensures AllBits([a], n) == Bits(a, n)
  {
    assert [a][1..] == [];
    assert Bits(a, n) + [] == Bits(a, n);
  }

  lemma BitsOfTwo(a: nat, b: nat, n: nat)
    ensures AllBits([a, b], n) == Bits(a, n) + Bits(b, n)
  {
    hide Bits, AllBits;
    BitsOn([a], [b], n);
    BitsOfOne(a, n);
    BitsOfOne(b, n);
    assert [a] + [b] == [a, b];
  }

  lemma BitsOfThree(a: nat, b: nat, c: nat, n: nat)
    ensures AllBits([a, b, c], n) == Bits(a, n) + Bits(b, n) + Bits(c, n)
  {
    hide Bits, AllBits;
    BitsOn([a, b], [c], n);
    BitsOfTwo(a, b, n);
    BitsOfOne(c, n);
    assert [a, b] + [c] == [a, b, c];
  }

  lemma BitsOfFour(a: nat, b: nat, c: nat, d: nat, n: nat)
    ensures AllBits([a, b, c, d], n) == Bits(a, n) + Bits(b, n) + Bits(c, n) + Bits(d, n)
  {
    hide Bits, AllBits;
    BitsOn([a, b, c], [d], n);
    BitsOfThree(a, b, c, n);
    BitsOfOne(d, n);
    assert [a, b, c] + [d] == [a, b, c, d];
  }

  lemma GroupBits(x: Byte, y: Byte, z: Byte)
    ensures Bits(x / 4, 6) + Bits(x % 4 * 16 + y / 16, 6) + Bits(y % 16 * 4 + z / 64, 6) + Bits(z % 64, 6)
      == Bits(x, 8) + Bits(y, 8) + Bits(z, 8)
  {
    hide Bits;
    FirstSix(x);
    SecondSix(x, y);
    ThirdSix(y, z);
  }

  lemma LastGroup(x: Byte, y: Byte)
    ensures Bits(x / 4, 6) + Bits(x % 4 * 16, 6) == Bits(x, 8) + seq(4, _ => 0)
    ensures Bits(x / 4, 6) + Bits(x % 4 * 16 + y / 16, 6) + Bits(y % 16 * 4, 6) == Bits(x, 8) + Bits(y, 8) + seq(2, _ => 0)
  {
    hide Bits;
    FirstSix(x);
    SecondSix(x, 0);
    SecondSix(x, y);
    ThirdSix(y, 0);
    NoBits(4);
    NoBits(2);
  }

  /** The digits hold the bytes' bits in order, and zeros behind them. */
  lemma {:induction false} SixesBits(bytes: seq<Byte>)
    ensures AllBits(Sixes(bytes), 6) == AllBits(bytes, 8) + seq(Zeros(|bytes|), _ => 0)
  {
    hide Bits, AllBits;
    if |bytes| == 0 {
      NothingHeld();
    } else if |bytes| == 1 {
      LastGroup(bytes[0], 0);
      BitsOfTwo(bytes[0] / 4, bytes[0] % 4 * 16, 6);
      BitsOfOne(bytes[0], 8);
      assert bytes == [bytes[0]];
    } else if |bytes| == 2 {
      LastGroup(bytes[0], bytes[1]);
      BitsOfThree(bytes[0] / 4, bytes[0] % 4 * 16 + bytes[1] / 16, bytes[1] % 16 * 4, 6);
      BitsOfTwo(bytes[0], bytes[1], 8);
      assert bytes == [bytes[0], bytes[1]];
    } else {
      SixesBits(bytes[3..]);
      FirstGroup(bytes);
    }
  }

  lemma FirstGroup(bytes: seq<Byte>)
    requires |bytes| >= 3 && AllBits(Sixes(bytes[3..]), 6) == AllBits(bytes[3..], 8) + seq(Zeros(|bytes| - 3), _ => 0)
    ensures AllBits(Sixes(bytes), 6) == AllBits(bytes, 8) + seq(Zeros(|bytes|), _ => 0)
  {
    hide Bits, AllBits, SixesFor, Sixes, Group;
    var x, y, z, rest := bytes[0], bytes[1], bytes[2], bytes[3..];
    assert bytes == [x, y, z] + rest;
    SixesStart(bytes);
    GroupSixes(x, y, z);
    GroupThen([x, y, z], rest, Group(x, y, z), Sixes(rest), Zeros(|bytes|));
  }

  function Group(x: Byte, y: Byte, z: Byte): seq<Six> {
    [x / 4, x % 4 * 16 + y / 16, y % 16 * 4 + z / 64, z % 64]
  }

  lemma SixesStart(bytes: seq<Byte>)
    requires |bytes| >= 3
    ensures Sixes(bytes) == Group(bytes[0], bytes[1], bytes[2]) + Sixes(bytes[3..])
  {
    hide SixesFor;
  }

  lemma GroupSixes(x: Byte, y: Byte, z: Byte)
    ensures AllBits(Group(x, y, z), 6) == AllBits([x, y, z], 8)
  {
    hide Bits, AllBits;
    GroupBits(x, y, z);
    BitsOfThree(x, y, z, 8);
    BitsOfFour(x / 4, x % 4 * 16 + y / 16, y % 16 * 4 + z / 64, z % 64, 6);
  }

  lemma GroupThen(group: seq<Byte>, rest: seq<Byte>, sixes: seq<Six>, more: seq<Six>, zeros: nat)
    requires AllBits(sixes, 6) == AllBits(group, 8) && AllBits(more, 6) == AllBits(rest, 8) + seq(zeros, _ => 0)
    ensures AllBits(sixes + more, 6) == AllBits(group + rest, 8) + seq(zeros, _ => 0)
  {
    hide AllBits;
    BitsOn(group, rest, 8);
    BitsOn(sixes, more, 6);
  }

  lemma NothingHeld()
    ensures AllBits([], 6) == [] && AllBits([], 8) == []
  {
  }

  lemma SameSix(v: Six, w: Six)
    requires Bits(v, 6) == Bits(w, 6)
    ensures v == w
  {
    Powers();
    SameBits(v, w, 6);
  }

  lemma {:induction false} SameSixes(a: seq<Six>, b: seq<Six>)
    requires |a| == |b| && AllBits(a, 6) == AllBits(b, 6)
    ensures a == b
  {
    hide Bits;
    if a != [] {
      assert AllBits(a, 6)[..6] == Bits(a[0], 6) && AllBits(b, 6)[..6] == Bits(b[0], 6);
      assert AllBits(a, 6)[6..] == AllBits(a[1..], 6) && AllBits(b, 6)[6..] == AllBits(b[1..], 6);
      SameSix(a[0], b[0]);
      SameSixes(a[1..], b[1..]);
      assert a == [a[0]] + a[1..] && b == [b[0]] + b[1..];
    }
  }

  function PadsFor(n: nat): nat {
    (3 - n % 3) % 3
  }

  lemma SameSize(n: nat, sixes: nat, zeros: nat, pads: nat)
    requires 6 * sixes == 8 * n + zeros && Full(sixes, zeros, pads)
    ensures zeros == Zeros(n) && pads == PadsFor(n) && sixes == SixesFor(n)
  {
    var q, r := n / 3, n % 3;
    LastSize(q, r, sixes - 4 * q, zeros, pads);
  }

  lemma LastSize(q: nat, r: nat, k: int, zeros: nat, pads: nat)
    requires r < 3 && 6 * k == 8 * r + zeros && zeros < 6 && pads < 4 && (4 * q + k + pads) % 4 == 0
    ensures k == (if r == 0 then 0 else r + 1) && zeros == (if r == 0 then 0 else if r == 1 then 4 else 2)
    ensures pads == (3 - r) % 3
  {
    assert (4 * q + k + pads) % 4 == (k + pads) % 4;
  }

  lemma FilledUp(n: nat)
    ensures Full(SixesFor(n), Zeros(n), PadsFor(n))
  {
    var q, r := n / 3, n % 3;
    assert r == 0 ==> SixesFor(n) + PadsFor(n) == 4 * q;
    assert r != 0 ==> SixesFor(n) + PadsFor(n) == 4 * q + 4;
  }

  lemma InAlphabet(sixes: seq<Six>)
    ensures Digits(sixes) == Shown(sixes)
  {
    hide Digit;
    forall i | 0 <= i < |sixes| ensures Digit(sixes[i]) == ALPHABET[sixes[i]] {
      DigitIs(sixes[i]);
    }
  }

  lemma EncodeIs(bytes: seq<Byte>)
    ensures |Sixes(bytes)| == SixesFor(|bytes|)
    ensures Encode(bytes) == Digits(Sixes(bytes)) + seq(PadsFor(|bytes|), _ => 61)
  {
    hide Sixes, Digits;
    var pads := PadsFor(|bytes|);
    assert Pads(pads) == seq(pads, _ => 61);
  }

  /** The digits the encoder writes, and how much fills them up. */
  lemma EncodedIs(bytes: seq<Byte>)
    ensures SpelledBy(Encode(bytes), bytes, Sixes(bytes), Zeros(|bytes|), PadsFor(|bytes|))
  {
    hide AllBits, Sixes, Digits, Encode, Shown, PadsFor, SixesFor, Zeros, Full;
    EncodeIs(bytes);
    SixesBits(bytes);
    InAlphabet(Sixes(bytes));
    FilledUp(|bytes|);
  }

  /** The encoder writes the bytes' bits six at a time in the standard alphabet, and nothing else spells them. */
  lemma EncodesExactly(text: Text, bytes: seq<Byte>)
    ensures Encode(bytes) == text <==> Spells(text, bytes)
  {
    hide AllBits, Sixes, Digit, Encode, PadsFor, SixesFor, Zeros, Shown;
    EncodeIs(bytes);
    var mine, n := Sixes(bytes), |bytes|;
    EncodedIs(bytes);
    BitsSize(mine, 6);
    BitsSize(bytes, 8);
    if Spells(text, bytes) {
      var sixes: seq<Six>, zeros: nat, pads: nat :| SpelledBy(text, bytes, sixes, zeros, pads);
      BitsSize(sixes, 6);
      SameSize(n, |sixes|, zeros, pads);
      SameSixes(mine, sixes);
    }
  }

  // ----- The content as it is sent -----

  /** One unit of a content: a blank put in, or a unit of the text, `+` and `/` perhaps in the URL-safe alphabet. */
  datatype Mark = Blank(blank: Unit) | Kept(unit: Unit, safe: bool)

  function Sent(mark: Mark): Unit {
    match mark
    case Blank(u) => u
    case Kept(u, safe) => if !safe then u else if u == 43 then 45 else 95
  }

  predicate IsMark(mark: Mark) {
    match mark
    case Blank(u) => IsSpace(u)
    case Kept(u, safe) => !IsSpace(u) && u != 45 && u != 95 && (safe ==> u == 43 || u == 47)
  }

  function SentText(marks: seq<Mark>): Text {
    seq(|marks|, i requires 0 <= i < |marks| => Sent(marks[i]))
  }

  function MeantText(marks: seq<Mark>): Text {
    if marks == [] then []
    else (match marks[0] case Blank(_) => [] case Kept(u, _) => [u]) + MeantText(marks[1..])
  }

  predicate AreMarks(marks: seq<Mark>) {
    forall i :: 0 <= i < |marks| ==> IsMark(marks[i])
  }

  /** `content` is `text` with blanks put in and some of it in the URL-safe alphabet. */
  ghost predicate Means(content: Text, text: Text) {
    exists marks :: AreMarks(marks) && SentText(marks) == content && MeantText(marks) == text
  }

  lemma {:induction false} CompactOf(marks: seq<Mark>)
    requires AreMarks(marks)
    ensures Compact(SentText(marks)) == MeantText(marks)
  {
    hide IsSpace;
    if marks != [] {
      CompactOf(marks[1..]);
      assert SentText(marks)[1..] == SentText(marks[1..]);
      assert IsMark(marks[0]);
      SafeIsNoSpace();
    }
  }

  lemma SafeIsNoSpace()
    ensures !IsSpace(45) && !IsSpace(95) && !IsSpace(43) && !IsSpace(47)
  {
  }

  lemma {:induction false} MarksOf(content: Text) returns (marks: seq<Mark>)
    ensures AreMarks(marks) && SentText(marks) == content && MeantText(marks) == Compact(content)
  {
    hide IsSpace;
    if content == [] {
      marks := [];
    } else {
      var rest := MarksOf(content[1..]);
      var u := content[0];
      SafeIsNoSpace();
      var mark := if IsSpace(u) then Blank(u) else if u == 45 then Kept(43, true) else if u == 95 then Kept(47, true) else Kept(u, false);
      marks := [mark] + rest;
      assert marks[1..] == rest;
      assert content == [u] + content[1..];
    }
  }

  lemma CompactIs(content: Text, text: Text)
    ensures Compact(content) == text <==> Means(content, text)
  {
    hide AreMarks, SentText, MeantText, Compact;
    var marks := MarksOf(content);
    if Means(content, text) {
      var others :| AreMarks(others) && SentText(others) == content && MeantText(others) == text;
      CompactOf(others);
    }
  }

  /** `content` stands for a spelling of the bytes with `omitted` paddings left off. */
  ghost predicate StandsFor(content: Text, bytes: seq<Byte>, text: Text, omitted: nat) {
    Means(content, text) && Spells(text + seq(omitted, _ => 61), bytes)
  }

  /** Accepted are exactly such contents, and read as the bytes they stand for. */
  lemma ReadsExactly(content: Text, bytes: seq<Byte>)
    ensures DecodeContent(content) == Some(bytes) <==> exists text, omitted: nat :: StandsFor(content, bytes, text, omitted)
  {
    hide DecodeContent, Encode, Spells, Means, Compact;
    AcceptsExactly(content, bytes);
    if DecodeContent(content) == Some(bytes) {
      var omitted: nat :| IsEncoding(content, bytes, omitted);
      CompactIs(content, Compact(content));
      assert Pads(omitted) == seq(omitted, _ => 61);
      EncodesExactly(Compact(content) + seq(omitted, _ => 61), bytes);
      assert StandsFor(content, bytes, Compact(content), omitted);
    }
    if text, omitted: nat :| StandsFor(content, bytes, text, omitted) {
      CompactIs(content, text);
      EncodesExactly(text + seq(omitted, _ => 61), bytes);
      assert Pads(omitted) == seq(omitted, _ => 61);
      assert IsEncoding(content, bytes, omitted);
    }
  }

  lemma {:induction false} CompactPlain(text: Text)
    requires forall u <- text :: !IsSpace(u) && u != MINUS && u != 95
    ensures Compact(text) == text
  {
    if text != [] {
      CompactPlain(text[1..]);
    }
  }

  /** What is encoded decodes to itself. */
  lemma DecodeInvertsEncode(bytes: seq<Byte>)
    ensures DecodeContent(Encode(bytes)) == Some(bytes)
  {
    CompactPlain(Encode(bytes));
    assert Encode(bytes) + Pads(0) == Encode(bytes);
    assert IsEncoding(Encode(bytes), bytes, 0);
    AcceptsExactly(Encode(bytes), bytes);
  }

  /** No text stands for two contents. */
  lemma OneMeaning(content: Text, a: seq<Byte>, b: seq<Byte>, omittedA: nat, omittedB: nat)
    requires IsEncoding(content, a, omittedA) && IsEncoding(content, b, omittedB)
    ensures a == b
  {
    AcceptsExactly(content, a);
    AcceptsExactly(content, b);
  }
}
