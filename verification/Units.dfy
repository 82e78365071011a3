/** Text as JavaScript has it: a sequence of UTF-16 code units. */
module Units {
  datatype Option<+T> = None | Some(value: T)

  type Unit = u: int | 0 <= u < 0x1_0000
  type Text = seq<Unit>

  const TAB: Unit := 9
  const LF: Unit := 10
  const CR: Unit := 13
  const SPACE: Unit := 32
  const QUOTE: Unit := 34
  const STAR: Unit := 42
  const PLUS: Unit := 43
  const COMMA: Unit := 44
  const MINUS: Unit := 45
  const DOT: Unit := 46
  const SLASH: Unit := 47
  const ZERO: Unit := 48
  const NINE: Unit := 57
  const COLON: Unit := 58
  const UPPER_E: Unit := 69
  const LBRACKET: Unit := 91
  const BACKSLASH: Unit := 92
  const RBRACKET: Unit := 93
  const LOWER_E: Unit := 101
  const LBRACE: Unit := 123
  const RBRACE: Unit := 125
  const BOM: Unit := 0xFEFF

  /** What `\s` matches, and what `trim` removes. */
  predicate IsSpace(u: Unit) {
    || 9 <= u <= 13 || u == 32 || u == 0xA0 || u == 0x1680 || 0x2000 <= u <= 0x200A
    || u == 0x2028 || u == 0x2029 || u == 0x202F || u == 0x205F || u == 0x3000 || u == BOM
  }

  /** What `.` does not match. */
  predicate IsBreak(u: Unit) {
    u == LF || u == CR || u == 0x2028 || u == 0x2029
  }

  function TrimStart(s: Text): (t: Text)
    ensures |t| <= |s|
  {
    if s != [] && IsSpace(s[0]) then TrimStart(s[1..]) else s
  }

  function TrimEnd(s: Text): Text {
    if s != [] && IsSpace(s[|s| - 1]) then TrimEnd(s[..|s| - 1]) else s
  }

  /** `n` more units than `m`, when there is an `m`. */
  function Add(n: nat, m: Option<nat>): (r: Option<nat>) {
    match m case None => None case Some(v) => Some(n + v)
  }

  /** Whether `s` starts with the two units `a` and `b`. */
  predicate StartsWith2(s: Text, a: Unit, b: Unit) {
    |s| >= 2 && s[0] == a && s[1] == b
  }

  /** The offset of the first `u` in `s`, or the length of `s` when there is none. */
  function Find(s: Text, u: Unit): (n: nat)
    ensures n <= |s|
    ensures u !in s[..n]
    ensures n < |s| ==> s[n] == u
  {
    if s == [] || s[0] == u then 0 else
      var n := Find(s[1..], u) + 1;
      assert s[..n] == [s[0]] + s[1..][..n - 1];
      n
  }

  lemma {:induction false} FindIn(a: Text, b: Text, u: Unit)
    ensures u in a ==> Find(a + b, u) == Find(a, u) < |a|
    ensures u !in a ==> Find(a + b, u) == |a| + Find(b, u)
  {
    if a == [] {
      assert a + b == b;
    } else {
      assert (a + b)[1..] == a[1..] + b;
      FindIn(a[1..], b, u);
    }
  }

  lemma Assoc<T>(a: seq<T>, b: seq<T>, c: seq<T>)
    ensures a + b + c == a + (b + c)
  {
  }
}
