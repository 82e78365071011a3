/** YAML files as people write them: which names a list in them tells, and that an edit takes them. */
module YamlNames {
  import opened Units
  import Toml
  import TomlProofs
  import opened Yaml
  import opened YamlProofs

  // ----- Names as they are written -----

  /** A name, plain or in quotes. */
  datatype Name = Name(text: Text, quote: Option<Unit>)

  function NameText(name: Name): Text {
    match name.quote case None => name.text case Some(quote) => [quote] + name.text + [quote]
  }

  predicate IsName(name: Name) {
    && (forall i :: 0 <= i < |name.text| ==> !IsBreak(name.text[i]))
    && (forall i :: 0 <= i < |name.text| - 1 && IsSpace(name.text[i]) ==> name.text[i + 1] != HASH)
    && match name.quote
       case None => name.text != [] && forall i :: 0 <= i < |name.text| ==> IsPlainUnit(name.text[i])
       case Some(quote) =>
         || (quote == QUOTE && QUOTE !in name.text && BACKSLASH !in name.text)
         || (quote == APOSTROPHE && APOSTROPHE !in name.text)
  }

  predicate IsPlainUnit(u: Unit) {
    65 <= u <= 90 || 97 <= u <= 122 || 48 <= u <= 57 || u == 95 || u == DOT || u == DASH
  }

  lemma {:induction false} PlainRuns(text: Text, dollar: bool)
    requires forall i :: 0 <= i < |text| ==> IsPlainUnit(text[i])
    ensures Run(text, dollar) == |text|
  {
    if text != [] {
      PlainRuns(text[1..], dollar);
    }
  }

  lemma QuotedRuns(text: Text, quote: Unit, barred: Unit)
    requires quote !in text && barred !in text
    ensures var q := [quote] + text + [quote]; QuotedRun(q, quote, barred) == |q| && q[1..|q| - 1] == text
  {
    var q := [quote] + text + [quote];
    assert q[1..] == text + [quote];
    TomlProofs.FindPast(text, quote);
    assert q[1..][..|text|] == text;
  }

  lemma NameEnds(name: Name)
    requires IsName(name)
    ensures var t := NameText(name);
      && t != [] && !IsSpace(t[0]) && !IsSpace(t[|t| - 1]) && t[0] != HASH && Toml.NoBreaks(t)
      && forall i :: 0 <= i < |t| - 1 && IsSpace(t[i]) ==> t[i + 1] != HASH
  {
    var t := NameText(name);
    if name.quote.Some? {
      forall i | 0 <= i < |t| - 1 && IsSpace(t[i]) ensures t[i + 1] != HASH {
        assert t[i] == name.text[i - 1];
        assert i < |t| - 2 ==> t[i + 1] == name.text[i];
      }
      assert forall i :: 0 < i < |t| - 1 ==> t[i] == name.text[i - 1];
    }
  }

  /** A name is read as what is written, without its quotes. */
  lemma NameReads(name: Name)
    requires IsName(name)
    ensures Scalar(NameText(name)) == Some(name.text)
  {
    hide Run, QuotedRun;
    var t := NameText(name);
    NameEnds(name);
    TomlProofs.ShownIsTrimmed(t);
    if name.quote.None? {
      PlainRuns(t, false);
    } else {
      var quote := name.quote.value;
      QuoteIsNoRun(t);
      if quote == QUOTE {
        QuotedRuns(name.text, QUOTE, BACKSLASH);
      } else {
        OtherQuote(t);
        QuotedRuns(name.text, APOSTROPHE, APOSTROPHE);
      }
    }
  }

  lemma QuoteIsNoRun(t: Text)
    requires t != [] && (t[0] == QUOTE || t[0] == APOSTROPHE)
    ensures Run(t, false) == 0
  {
  }

  lemma OtherQuote(t: Text)
    requires t != [] && t[0] == APOSTROPHE
    ensures QuotedRun(t, QUOTE, BACKSLASH) == 0
  {
  }

  /** What a name is written as: plain units, or anything in quotes but those and, in double ones, a backslash. */
  predicate IsForm(name: Name) {
    match name.quote
    case None => name.text != [] && forall i :: 0 <= i < |name.text| ==> IsPlainUnit(name.text[i])
    case Some(quote) =>
      || (quote == 34 && 34 !in name.text && 92 !in name.text)
      || (quote == 39 && 39 !in name.text)
  }

  lemma FormReads(name: Name)
    requires IsForm(name)
    ensures var t := NameText(name);
      if name.quote.None? then Run(t, false) == |t| > 0
      else if name.quote == Some(34) then Run(t, false) == 0 && QuotedRun(t, QUOTE, BACKSLASH) == |t| > 0
      else Run(t, false) == 0 && QuotedRun(t, QUOTE, BACKSLASH) == 0 && QuotedRun(t, APOSTROPHE, APOSTROPHE) == |t| > 0
  {
    hide Run, QuotedRun;
    var t := NameText(name);
    if name.quote.None? {
      PlainRuns(t, false);
    } else {
      QuoteIsNoRun(t);
      if name.quote.value == 34 {
        QuotedRuns(name.text, QUOTE, BACKSLASH);
      } else {
        OtherQuote(t);
        QuotedRuns(name.text, APOSTROPHE, APOSTROPHE);
      }
    }
  }

  lemma {:induction false} RunIs(t: Text)
    ensures forall i :: 0 <= i < Run(t, false) ==> IsPlainUnit(t[i])
  {
    if t != [] {
      RunIs(t[1..]);
    }
  }

  lemma QuotedRunIs(t: Text, quote: Unit, barred: Unit)
    requires QuotedRun(t, quote, barred) == |t| && t != []
    ensures |t| >= 2 && t == [quote] + t[1..|t| - 1] + [quote] && quote !in t[1..|t| - 1] && barred !in t[1..|t| - 1]
  {
    var k := Find(t[1..], quote);
    assert t[1..][..k] == t[1..|t| - 1];
    FindIs(t[1..], quote);
  }

  lemma {:induction false} FindIs(s: Text, u: Unit)
    ensures u !in s[..Find(s, u)] && (Find(s, u) < |s| ==> s[Find(s, u)] == u)
  {
    if s != [] && s[0] != u {
      FindIs(s[1..], u);
      assert s[..Find(s, u)] == [s[0]] + s[1..][..Find(s[1..], u)];
    }
  }

  /** Exactly what is so written is a name. */
  lemma ScalarIs(text: Text, name: Text)
    ensures Scalar(text) == Some(name) <==> exists n :: IsForm(n) && NameText(n) == Trim(text) && n.text == name
  {
    hide Run, QuotedRun, Trim, IsForm, NameText;
    var t := Trim(text);
    if Scalar(text) == Some(name) {
      if |t| == 1 {
        OneIsNoQuote(t);
      }
      var n := ScalarForm(t, name);
    }
    if n :| IsForm(n) && NameText(n) == t && n.text == name {
      FormReads(n);
      FormInner(n);
    }
  }

  lemma OneIsNoQuote(t: Text)
    requires |t| == 1
    ensures QuotedRun(t, QUOTE, BACKSLASH) == 0 && QuotedRun(t, APOSTROPHE, APOSTROPHE) == 0
  {
  }

  lemma FormInner(name: Name)
    requires IsForm(name)
    ensures var t := NameText(name); name.text == if name.quote.None? then t else t[1..|t| - 1]
    ensures name.quote.Some? ==> name.quote == Some(34) || name.quote == Some(39)
  {
  }

  lemma ScalarForm(t: Text, name: Text) returns (n: Name)
    requires t != []
    requires
      || (Run(t, false) == |t| && name == t)
      || (QuotedRun(t, QUOTE, BACKSLASH) == |t| >= 2 && name == t[1..|t| - 1])
      || (QuotedRun(t, APOSTROPHE, APOSTROPHE) == |t| >= 2 && name == t[1..|t| - 1])
    ensures IsForm(n) && NameText(n) == t && n.text == name
  {
    hide Run, QuotedRun;
    if Run(t, false) == |t| && name == t {
      n := Name(t, None);
      RunIs(t);
    } else if QuotedRun(t, QUOTE, BACKSLASH) == |t| && |t| >= 2 && name == t[1..|t| - 1] {
      n := Name(name, Some(34));
      QuotedRunIs(t, QUOTE, BACKSLASH);
    } else {
      n := Name(name, Some(39));
      QuotedRunIs(t, APOSTROPHE, APOSTROPHE);
    }
  }

  // ----- Spaces and comments around -----

  lemma {:induction false} TrimSpaces(n: nat, s: Text)
    ensures TrimStart(Spaces(n) + s) == TrimStart(s)
  {
    if n == 0 {
      assert Spaces(n) + s == s;
    } else {
      assert (Spaces(n) + s)[1..] == Spaces(n - 1) + s;
      TrimSpaces(n - 1, s);
    }
  }

  lemma {:induction false} TrimEndSpaces(s: Text, n: nat)
    ensures TrimEnd(s + Spaces(n)) == TrimEnd(s)
  {
    if n == 0 {
      assert s + Spaces(n) == s;
    } else {
      assert (s + Spaces(n))[..|s| + n - 1] == s + Spaces(n - 1);
      TrimEndSpaces(s, n - 1);
    }
  }

  /** Between spaces stands what stands there. */
  lemma TrimBetween(m: nat, s: Text, n: nat)
    requires s == [] || (!IsSpace(s[0]) && !IsSpace(s[|s| - 1]))
    ensures Trim(Spaces(m) + s + Spaces(n)) == s
  {
    assert Spaces(m) + s + Spaces(n) == Spaces(m) + (s + Spaces(n));
    TrimSpaces(m, s + Spaces(n));
    if s == [] {
      assert s + Spaces(n) == Spaces(n) + [];
      TrimSpaces(n, []);
    } else {
      assert (s + Spaces(n))[0] == s[0];
      TrimEndSpaces(s, n);
      TomlProofs.ShownIsTrimmed(s);
    }
  }

  lemma {:induction false} TrimStartOn(a: Text, b: Text)
    requires TrimStart(a) != []
    ensures TrimStart(a + b) == TrimStart(a) + b
  {
    if IsSpace(a[0]) {
      assert (a + b)[1..] == a[1..] + b;
      TrimStartOn(a[1..], b);
    }
  }

  lemma {:induction false} TrimsToSome(s: Text)
    requires s != [] && !IsSpace(s[|s| - 1])
    ensures TrimStart(s) != []
  {
    if IsSpace(s[0]) {
      TrimsToSome(s[1..]);
    }
  }

  /** What follows a value on its line: spaces, or some and a comment. */
  datatype End = End(spaces: nat, comment: Option<Text>)

  function EndText(end: End): Text {
    Spaces(end.spaces) + match end.comment case None => [] case Some(words) => [HASH] + words
  }

  predicate IsEnd(end: End) {
    end.comment.Some? ==> end.spaces > 0 && forall i :: 0 <= i < |end.comment.value| ==> !IsBreak(end.comment.value[i])
  }

  /** No comment opens in `s`. */
  predicate Unremarked(s: Text) {
    forall i :: 0 <= i < |s| - 1 && IsSpace(s[i]) ==> s[i + 1] != HASH
  }

  lemma EndIsComment(end: End)
    requires IsEnd(end) && end.comment.Some?
    ensures CommentAt(EndText(end))
  {
    var tail := [HASH] + end.comment.value;
    TrimSpaces(end.spaces, tail);
    assert tail[1..] == end.comment.value;
  }

  lemma {:induction false} SpacesAreNoComment(n: nat)
    ensures StripComment(Spaces(n)) == Spaces(n)
  {
    if n > 0 {
      assert Spaces(n)[1..] == Spaces(n - 1);
      SpacesAreNoComment(n - 1);
      TrimSpaces(n, []);
      assert Spaces(n) + [] == Spaces(n);
      assert [SPACE] + Spaces(n - 1) == Spaces(n);
    }
  }

  lemma NoCommentYet(s: Text, rest: Text)
    requires s != [] && !IsSpace(s[|s| - 1]) && Unremarked(s)
    ensures !CommentAt(s + rest)
  {
    assert (s + rest)[0] == s[0];
    if IsSpace(s[0]) {
      TrimsToSome(s);
      TrimStartOn(s, rest);
      FirstAfterBlanks(s);
      assert (TrimStart(s) + rest)[0] == TrimStart(s)[0];
    }
  }

  /** A comment after a value is taken off, and nothing of the value. */
  lemma {:induction false} CommentGoes(s: Text, end: End)
    requires IsEnd(end) && Unremarked(s) && (s == [] || !IsSpace(s[|s| - 1]))
    ensures StripComment(s + EndText(end)) == s + if end.comment.Some? then [] else Spaces(end.spaces)
  {
    hide CommentAt;
    var rest := EndText(end);
    if s == [] {
      assert s + rest == rest;
      if end.comment.Some? {
        EndIsComment(end);
      } else {
        assert rest == Spaces(end.spaces);
        SpacesAreNoComment(end.spaces);
      }
    } else {
      NoCommentYet(s, rest);
      assert (s + rest)[1..] == s[1..] + rest;
      CommentGoes(s[1..], end);
      assert [s[0]] + s[1..] == s;
    }
  }

  /** So the value is what is left, trimmed. */
  lemma ValueLeft(pad: nat, value: Text, end: End)
    requires IsEnd(end) && Unremarked(value) && (value == [] || (!IsSpace(value[0]) && !IsSpace(value[|value| - 1]) && value[0] != HASH))
    requires value == [] ==> end.comment.None? || pad + end.spaces > 0
    ensures Trim(StripComment(Spaces(pad) + value + EndText(end))) == value
  {
    hide StripComment, Trim, Unremarked;
    if value == [] {
      NothingLeft(pad, end);
      assert Spaces(pad) + value + EndText(end) == Spaces(pad) + EndText(end);
    } else {
      var s := Spaces(pad) + value;
      PaddedUnremarked(pad, value);
      CommentGoes(s, end);
      TrimBetween(pad, value, if end.comment.Some? then 0 else end.spaces);
      assert s + [] == s + Spaces(0);
    }
  }

  lemma PaddedUnremarked(pad: nat, value: Text)
    requires Unremarked(value) && value != [] && value[0] != HASH
    ensures Unremarked(Spaces(pad) + value)
  {
    var s := Spaces(pad) + value;
    forall i | 0 <= i < |s| - 1 && IsSpace(s[i]) ensures s[i + 1] != HASH {
      if i >= pad {
        assert s[i] == value[i - pad] && s[i + 1] == value[i - pad + 1];
      } else if i + 1 == pad {
        assert s[i + 1] == value[0];
      }
    }
  }

  lemma NothingLeft(pad: nat, end: End)
    requires IsEnd(end) && (end.comment.None? || pad + end.spaces > 0)
    ensures Trim(StripComment(Spaces(pad) + EndText(end))) == []
  {
    hide StripComment, Trim;
    var whole := End(pad + end.spaces, end.comment);
    assert Spaces(pad) + EndText(end) == [] + EndText(whole);
    CommentGoes([], whole);
    TrimBetween(if end.comment.Some? then 0 else whole.spaces, [], 0);
    assert Spaces(whole.spaces) + [] + Spaces(0) == [] + Spaces(whole.spaces);
    assert Spaces(0) + [] + Spaces(0) == [] + [];
  }

  // ----- A list on one line -----

  /** Between two commas: a name, or nothing, among spaces. */
  datatype Slot = Slot(pad: nat, name: Option<Name>, gap: nat)

  function SlotText(slot: Slot): Text {
    Spaces(slot.pad) + (match slot.name case None => [] case Some(name) => NameText(name)) + Spaces(slot.gap)
  }

  predicate IsSlot(slot: Slot) {
    slot.name.Some? ==> IsName(slot.name.value) && COMMA !in slot.name.value.text
  }

  function SlotsText(slots: seq<Slot>): Text {
    if slots == [] then []
    else if |slots| == 1 then SlotText(slots[0])
    else SlotText(slots[0]) + [COMMA] + SlotsText(slots[1..])
  }

  function SlotNames(slots: seq<Slot>): seq<Text> {
    if slots == [] then []
    else (match slots[0].name case None => [] case Some(name) => [name.text]) + SlotNames(slots[1..])
  }

  function ListText(slots: seq<Slot>): Text {
    [LBRACKET] + SlotsText(slots) + [RBRACKET]
  }

  lemma {:induction false} PiecesOne(a: Text)
    requires COMMA !in a
    ensures Pieces(a) == [a]
  {
    if a != [] {
      PiecesOne(a[1..]);
      assert [a[0]] + a[1..] == a;
    }
  }

  lemma {:induction false} PiecesMore(a: Text, b: Text)
    requires COMMA !in a
    ensures Pieces(a + [COMMA] + b) == [a] + Pieces(b)
  {
    var s := a + [COMMA] + b;
    if a == [] {
      assert s[1..] == b;
    } else {
      assert s[1..] == a[1..] + [COMMA] + b;
      PiecesMore(a[1..], b);
      assert [a[0]] + a[1..] == a;
      assert ([a[1..]] + Pieces(b))[1..] == Pieces(b);
    }
  }

  lemma SlotIs(slot: Slot)
    requires IsSlot(slot)
    ensures COMMA !in SlotText(slot) && Toml.NoBreaks(SlotText(slot)) && Unremarked(SlotText(slot))
    ensures SlotText(slot) != [] ==> SlotText(slot)[0] != HASH
    ensures Trim(SlotText(slot)) == match slot.name case None => [] case Some(name) => NameText(name)
  {
    hide Trim, IsSpace;
    var value := match slot.name case None => [] case Some(name) => NameText(name);
    if slot.name.Some? {
      NameEnds(slot.name.value);
    }
    TrimBetween(slot.pad, value, slot.gap);
    assert COMMA !in value by {
      if slot.name.Some? && slot.name.value.quote.Some? {
        assert slot.name.value.quote.value != COMMA;
      }
    }
    Among(slot.pad, value, slot.gap);
  }

  /** What holds of a value holds of it among spaces. */
  lemma Among(pad: nat, value: Text, gap: nat)
    requires COMMA !in value && Toml.NoBreaks(value) && Unremarked(value) && (value != [] ==> value[0] != HASH)
    ensures var t := Spaces(pad) + value + Spaces(gap);
      COMMA !in t && Toml.NoBreaks(t) && Unremarked(t) && (t != [] ==> t[0] != HASH)
  {
    var t := Spaces(pad) + value + Spaces(gap);
    forall i | 0 <= i < |t|
      ensures t[i] == SPACE || (pad <= i < pad + |value| && t[i] == value[i - pad])
    {
    }
  }

  lemma {:induction false} SlotsRead(slots: seq<Slot>)
    requires forall i :: 0 <= i < |slots| ==> IsSlot(slots[i])
    ensures Scalars(Pieces(SlotsText(slots))) == Some(SlotNames(slots))
  {
    hide Trim, Scalar, SlotText, IsSlot;
    if slots == [] {
      NothingListed();
    } else {
      var first := SlotText(slots[0]);
      SlotIs(slots[0]);
      SlotReads(slots[0]);
      if |slots| == 1 {
        PiecesOne(first);
        var pieces: seq<Text> := [first];
        assert pieces[1..] == [] && slots[1..] == [];
        assert Scalars(pieces[1..]) == Some([]) && SlotNames(slots[1..]) == [];
        assert SlotNames(slots) + [] == SlotNames(slots);
      } else {
        PiecesMore(first, SlotsText(slots[1..]));
        SlotsRead(slots[1..]);
        var pieces := [first] + Pieces(SlotsText(slots[1..]));
        assert pieces[0] == first && pieces[1..] == Pieces(SlotsText(slots[1..]));
        assert Pieces(SlotsText(slots)) == pieces;
        assert [] + SlotNames(slots[1..]) == SlotNames(slots[1..]);
      }
    }
  }

  lemma NothingListed()
    ensures Scalars(Pieces(SlotsText([]))) == Some([]) && SlotNames([]) == []
  {
    TrimBetween(0, [], 0);
    assert Spaces(0) + [] + Spaces(0) == [];
    var pieces: seq<Text> := [[]];
    assert pieces[1..] == [];
  }

  lemma SlotReads(slot: Slot)
    requires IsSlot(slot)
    ensures slot.name.Some? ==>
      var t := Trim(SlotText(slot)); t != [] && Scalar(t) == Some(slot.name.value.text)
  {
    hide Trim, Scalar, SlotText;
    SlotIs(slot);
    if slot.name.Some? {
      NameEnds(slot.name.value);
      NameReads(slot.name.value);
    }
  }

  lemma {:induction false} SlotsAre(slots: seq<Slot>)
    requires forall i :: 0 <= i < |slots| ==> IsSlot(slots[i])
    ensures var s := SlotsText(slots); Toml.NoBreaks(s) && Unremarked(s) && (s != [] ==> s[0] != HASH)
  {
    hide SlotText, IsSlot, IsSpace;
    if slots != [] {
      SlotIs(slots[0]);
      SlotsAre(slots[1..]);
      CommaIsNothing();
      if |slots| > 1 {
        var a, b := SlotText(slots[0]), SlotsText(slots[1..]);
        var s := a + [COMMA] + b;
        assert s[|a|] == COMMA;
        forall i | 0 <= i < |s| - 1 && IsSpace(s[i]) ensures s[i + 1] != HASH {
          assert i < |a| - 1 ==> s[i] == a[i] && s[i + 1] == a[i + 1];
          assert i > |a| ==> s[i] == b[i - |a| - 1] && s[i + 1] == b[i - |a|];
        }
      }
    }
  }

  lemma CommaIsNothing()
    ensures !IsSpace(COMMA) && !IsBreak(COMMA) && !IsSpace(LBRACKET) && !IsSpace(RBRACKET)
  {
  }

  /** A list on one line is read as its names, in order. */
  lemma ListReads(slots: seq<Slot>)
    requires forall i :: 0 <= i < |slots| ==> IsSlot(slots[i])
    ensures FlowNames(ListText(slots)) == Some(SlotNames(slots))
    ensures var t := ListText(slots); t != [] && !IsSpace(t[0]) && !IsSpace(t[|t| - 1]) && t[0] != HASH && Unremarked(t)
  {
    hide Scalars, Pieces, SlotsText, IsSlot, SlotNames, IsSpace;
    var s, t := SlotsText(slots), ListText(slots);
    SlotsRead(slots);
    SlotsAre(slots);
    CommaIsNothing();
    assert t[1..|t| - 1] == s;
    forall i | 0 <= i < |t| - 1 && IsSpace(t[i]) ensures t[i + 1] != HASH {
      assert i > 0;
      assert t[i] == s[i - 1];
      assert i < |t| - 2 ==> t[i + 1] == s[i];
    }
  }
}
