/** What the reader of JSONC skips between tokens: blanks, line comments and block comments. */
module Trivia {
  import opened Units

  predicate IsBlank(u: Unit) {
    u == SPACE || u == TAB || u == LF || u == CR
  }

  /** The offset of the first star-slash pair in `s` at or after `from`, if there is one. */
  function CloseFrom(s: Text, from: nat): (c: Option<nat>)
    ensures c.Some? ==> from <= c.value && c.value + 2 <= |s| && s[c.value] == STAR && s[c.value + 1] == SLASH
    decreases |s| - from
  {
    if from + 2 > |s| then None
    else if s[from] == STAR && s[from + 1] == SLASH then Some(from)
    else CloseFrom(s, from + 1)
  }

  /** One blank or comment. A block comment may be unclosed. */
  datatype Piece = Nothing | Unclosed | Piece(len: nat)

  /** The blank or comment `s` begins with. A line comment stops before its line feed. */
  function FirstPiece(s: Text): (p: Piece)
    ensures p.Piece? ==> 0 < p.len <= |s|
  {
    if s == [] then Nothing
    else if IsBlank(s[0]) then Piece(1)
    else if StartsWith2(s, SLASH, SLASH) then
      assert Find(s, LF) >= 2;
      Piece(Find(s, LF))
    else if StartsWith2(s, SLASH, STAR) then
      match CloseFrom(s, 2) case None => Unclosed case Some(c) => Piece(c + 2)
    else Nothing
  }

  /**
   * How many units of `s` are trivia, up to the first unit of something else or the end;
   * None when a block comment is not closed.
   */
  function Skip(s: Text): (n: Option<nat>)
    ensures n.Some? ==> n.value <= |s|
    decreases |s|
  {
    match FirstPiece(s)
    case Nothing => Some(0)
    case Unclosed => None
    case Piece(n) => Add(n, Skip(s[n..]))
  }

  /** Whether the first piece of `s` is closed: a line comment by its line feed. */
  predicate IsClosed(s: Text, p: Piece) {
    p.Piece? && (p.len == |s| ==> !StartsWith2(s, SLASH, SLASH))
  }

  /** Whole trivia: every comment in it is closed. */
  predicate IsGap(s: Text)
    decreases |s|
  {
    s == [] || (IsClosed(s, FirstPiece(s)) && IsGap(s[FirstPiece(s).len..]))
  }

  /** No trivia starts `s`. */
  predicate StartsToken(s: Text) {
    FirstPiece(s).Nothing?
  }

  lemma {:induction false} CloseIn(a: Text, b: Text, from: nat)
    ensures CloseFrom(a, from).Some? ==> CloseFrom(a + b, from) == CloseFrom(a, from)
    decreases |a| - from
  {
    if from + 2 <= |a| && !(a[from] == STAR && a[from + 1] == SLASH) {
      CloseIn(a, b, from + 1);
    }
  }

  lemma {:induction false} CloseWithin(s: Text, n: nat, from: nat)
    requires CloseFrom(s, from).Some? && CloseFrom(s, from).value + 2 <= n <= |s|
    ensures CloseFrom(s[..n], from) == CloseFrom(s, from)
    decreases |s| - from
  {
    if !(s[from] == STAR && s[from + 1] == SLASH) {
      CloseWithin(s, n, from + 1);
    }
  }

  /** A closed piece is the first piece of every text it begins. */
  lemma PieceBefore(a: Text, b: Text)
    requires IsClosed(a, FirstPiece(a))
    ensures FirstPiece(a + b) == FirstPiece(a) && IsClosed(a + b, FirstPiece(a))
  {
    var s := a + b;
    assert s[0] == a[0];
    if !IsBlank(a[0]) {
      assert s[1] == a[1];
      FindIn(a, b, LF);
      CloseIn(a, b, 2);
    }
  }

  /** The first piece of a text is that of every start of the text that holds it whole. */
  lemma PieceWithin(s: Text, n: nat)
    requires FirstPiece(s).Piece? && FirstPiece(s).len <= n <= |s|
    ensures FirstPiece(s[..n]) == FirstPiece(s)
    ensures n < |s| && s[n - 1] == LF ==> IsClosed(s[..n], FirstPiece(s))
  {
    var t := s[..n];
    if !IsBlank(s[0]) {
      if StartsWith2(s, SLASH, SLASH) {
        assert s == t + s[n..];
        FindIn(t, s[n..], LF);
      } else {
        CloseWithin(s, n, 2);
      }
    }
  }

  /** Gaps join into gaps. */
  lemma {:induction false} GapsJoin(a: Text, b: Text)
    requires IsGap(a)
    ensures IsGap(a + b) == IsGap(b)
    decreases |a|
  {
    hide FirstPiece, IsClosed;
    if a == [] {
      assert a + b == b;
    } else {
      PieceBefore(a, b);
      var n := FirstPiece(a).len;
      assert (a + b)[n..] == a[n..] + b;
      GapsJoin(a[n..], b);
    }
  }

  /** A gap is skipped over, whatever follows it. */
  lemma {:induction false} SkipOver(gap: Text, rest: Text)
    requires IsGap(gap)
    ensures Skip(gap + rest) == Add(|gap|, Skip(rest))
    decreases |gap|
  {
    hide FirstPiece, IsClosed;
    if gap == [] {
      assert gap + rest == rest;
    } else {
      PieceBefore(gap, rest);
      var n := FirstPiece(gap).len;
      assert (gap + rest)[n..] == gap[n..] + rest;
      SkipOver(gap[n..], rest);
    }
  }

  lemma SkipUnfolds(s: Text)
    ensures Skip(s) == match FirstPiece(s)
      case Nothing => Some(0)
      case Unclosed => None
      case Piece(n) => Add(n, Skip(s[n..]))
  {
    hide FirstPiece;
  }

  lemma SkipToken(s: Text)
    requires StartsToken(s)
    ensures Skip(s) == Some(0)
  {
  }

  /** What is skipped before something else is a gap, and nothing more would be skipped after it. */
  lemma {:induction false} SkipTakesGap(s: Text, k: nat)
    requires Skip(s) == Some(k) && k < |s|
    ensures IsGap(s[..k]) && StartsToken(s[k..])
    decreases |s|
  {
    hide FirstPiece, IsClosed;
    if FirstPiece(s).Piece? {
      var n := FirstPiece(s).len;
      SkipTakesGap(s[n..], k - n);
      SkipPiece(s, k);
      assert s[n..][k - n..] == s[k..];
      assert s[..k][n..] == s[n..][..k - n];
    } else {
      assert s[0..] == s;
    }
  }

  /** A first piece that leaves something other than trivia after it is closed. */
  lemma SkipPiece(s: Text, k: nat)
    requires Skip(s) == Some(k) && k < |s| && FirstPiece(s).Piece?
    ensures FirstPiece(s).len <= k && FirstPiece(s[..k]) == FirstPiece(s) && IsClosed(s[..k], FirstPiece(s))
  {
    hide CloseFrom;
    var n := FirstPiece(s).len;
    assert Skip(s[n..]) == Some((k - n) as nat);
    PieceWithin(s, k);
    if StartsWith2(s, SLASH, SLASH) {
      assert s[n..][0] == LF;
    }
  }
}
