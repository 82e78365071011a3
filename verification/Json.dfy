/** Values to be written, and how JSON.stringify writes them. */
module Json {
  import opened Units
  import opened Trivia
  import opened Scalars
  import Strings
  import V = Values
  import opened Syntax

  /** A plain value as a program holds it: an object's members have an order. */
  datatype Json =
    | Null
    | Bool(b: bool)
    | Num(literal: Number)
    | Str(s: Text)
    | Arr(items: seq<Json>)
    | Obj(members: seq<Field>)

  datatype Field = Field(key: Text, value: Json)

  // ----- What a value means -----

  function Meaning(j: Json): V.Value
    decreases j, 0
  {
    match j
    case Null => V.Null
    case Bool(b) => V.Bool(b)
    case Num(literal) => V.Num(literal)
    case Str(s) => V.Str(s)
    case Arr(items) => V.Arr(ItemMeanings(items))
    case Obj(members) => V.Obj(FieldMeanings(members, map[]))
  }

  function ItemMeanings(items: seq<Json>): (r: seq<V.Value>)
    decreases items, 1
  {
    if items == [] then [] else [Meaning(items[0])] + ItemMeanings(items[1..])
  }

  function FieldMeanings(members: seq<Field>, so_far: V.Fields): V.Fields
    decreases members, 1
  {
    if members == [] then so_far
    else FieldMeanings(members[1..], so_far[members[0].key := Meaning(members[0].value)])
  }

  // ----- JSON.stringify -----

  /**
   * SerializeJSONProperty of ECMA-262, section 25.5.2: `gap` is one step of indentation, and
   * `line` what starts a line at the current depth. Both are empty for the one-line form.
   */
  function Serialize(j: Json, gap: Text, line: Text): (s: Text)
    decreases j, 0
  {
    match j
    case Null => NULL
    case Bool(b) => if b then TRUE else FALSE
    case Num(literal) => literal
    case Str(s) => Strings.Quote(s)
    case Arr(items) =>
      if items == [] then [LBRACKET, RBRACKET] else [LBRACKET] + line + gap + SerializeItems(items, gap, line)
    case Obj(members) =>
      if members == [] then [LBRACE, RBRACE] else [LBRACE] + line + gap + SerializeFields(members, gap, line)
  }

  function SerializeItems(items: seq<Json>, gap: Text, line: Text): Text
    requires items != []
    decreases items, 1
  {
    Serialize(items[0], gap, line + gap) +
    if |items| == 1 then line + [RBRACKET] else [COMMA] + line + gap + SerializeItems(items[1..], gap, line)
  }

  function SerializeFields(members: seq<Field>, gap: Text, line: Text): Text
    requires members != []
    decreases members, 1
  {
    Strings.Quote(members[0].key) + [COLON] + Pad(gap) + Serialize(members[0].value, gap, line + gap) +
    if |members| == 1 then line + [RBRACE] else [COMMA] + line + gap + SerializeFields(members[1..], gap, line)
  }

  function Pad(gap: Text): Text { if gap == [] then [] else [SPACE] }

  /** JSON.stringify takes at most ten units of the indentation it is given. */
  function Gap(unit: Text): Text { if |unit| <= 10 then unit else unit[..10] }

  /** JSON.stringify(j) */
  function Compact(j: Json): Text { Serialize(j, [], []) }

  /** JSON.stringify(j, null, unit) */
  function Pretty(j: Json, unit: Text): Text { Serialize(j, Gap(unit), [LF]) }

  /** `s` with every line feed replaced by `eol`. */
  function ReplaceLines(s: Text, eol: Text): Text {
    if s == [] then [] else (if s[0] == LF then eol else [s[0]]) + ReplaceLines(s[1..], eol)
  }

  lemma {:induction false} ReplaceJoins(a: Text, b: Text, eol: Text)
    ensures ReplaceLines(a + b, eol) == ReplaceLines(a, eol) + ReplaceLines(b, eol)
  {
    if a == [] {
      assert a + b == b;
    } else {
      assert (a + b)[1..] == a[1..] + b;
      ReplaceJoins(a[1..], b, eol);
    }
  }

  lemma {:induction false} ReplaceNothing(s: Text, eol: Text)
    requires LF !in s
    ensures ReplaceLines(s, eol) == s
  {
    if s != [] {
      ReplaceNothing(s[1..], eol);
      assert s == [s[0]] + s[1..];
    }
  }

  // ----- Line feeds in what JSON.stringify writes are all its own -----

  lemma {:induction false} EscapeHasNoLine(s: Text)
    ensures LF !in Strings.Escape(s)
  {
    if s == [] {
    } else if |s| >= 2 && Strings.IsLead(s[0]) && Strings.IsTrail(s[1]) {
      EscapeHasNoLine(s[2..]);
    } else {
      EscapeHasNoLine(s[1..]);
      UnitHasNoLine(s[0]);
    }
  }

  lemma UnitHasNoLine(u: Unit)
    ensures LF !in Strings.EscapeUnit(u)
  {
    assert forall n: nat :: n < 16 ==> Strings.HexDigit(n) != LF;
  }

  /** No space, nor anything below it. */
  predicate IsVisible(s: Text) {
    forall i :: 0 <= i < |s| ==> s[i] > SPACE
  }

  lemma {:induction false} DigitsAreVisible(s: Text, n: nat)
    requires n <= Digits(s)
    ensures IsVisible(s[..n])
  {
    if n > 0 {
      DigitsAreVisible(s[1..], n - 1);
      assert s[..n] == [s[0]] + s[1..][..n - 1];
    }
  }

  lemma TailIsVisible(s: Text)
    ensures IsVisible(s[..TailLen(s)])
  {
    var f := FracLen(s);
    if f > 0 {
      DigitsAreVisible(s[1..], f - 1);
      assert s[..f] == [s[0]] + s[1..][..f - 1];
    }
    ExponentIsVisible(s[f..]);
    assert s[..TailLen(s)] == s[..f] + s[f..][..ExpLen(s[f..])];
  }

  lemma ExponentIsVisible(s: Text)
    ensures IsVisible(s[..ExpLen(s)])
  {
    var e := ExpLen(s);
    if e > 0 {
      var sign := SignLen(s[1..]);
      DigitsAreVisible(s[1..][sign..], e - 1 - sign);
      assert s[..e] == s[..1 + sign] + s[1..][sign..][..e - 1 - sign];
    }
  }

  lemma UnsignedIsVisible(s: Text)
    requires UnsignedLen(s) == Some(|s|)
    ensures IsVisible(s)
  {
    hide TailLen;
    var i := IntLen(s).value;
    DigitsAreVisible(s, if s[0] == ZERO then 1 else i);
    TailIsVisible(s[i..]);
    assert s == s[..i] + s[i..];
  }

  lemma ScalarIsVisible(token: Text)
    requires IsScalar(token)
    ensures IsVisible(token)
  {
    hide UnsignedLen;
    if token[0] == MINUS {
      UnsignedIsVisible(token[1..]);
      assert token == [MINUS] + token[1..];
    } else if IsDigit(token[0]) {
      UnsignedIsVisible(token);
    }
  }

  lemma VisibleHasNoLine(s: Text)
    requires IsVisible(s)
    ensures LF !in s
  {
  }

  lemma AtomHasNoLine(j: Json, gap: Text, line: Text)
    requires !j.Arr? && !j.Obj?
    ensures LF !in Serialize(j, gap, line)
  {
    hide Strings.Escape, ScalarLen;
    if j.Num? {
      ScalarIsVisible(j.literal);
      VisibleHasNoLine(j.literal);
    }
    if j.Str? { EscapeHasNoLine(j.s); }
  }

  lemma ReplaceJoins3(a: Text, b: Text, c: Text, eol: Text)
    ensures ReplaceLines(a + b + c, eol) == ReplaceLines(a, eol) + ReplaceLines(b, eol) + ReplaceLines(c, eol)
  {
    ReplaceJoins(a + b, c, eol);
    ReplaceJoins(a, b, eol);
  }

  lemma ReplaceNothing1(u: Unit, eol: Text)
    requires u != LF
    ensures ReplaceLines([u], eol) == [u]
  {
    ReplaceNothing([u], eol);
  }

  /**
   * Replacing the line feeds of what JSON.stringify writes is the same as writing it with those
   * lines started otherwise: none of them is inside a string or a number.
   */
  lemma {:induction false} ReplaceSerialized(j: Json, gap: Text, line: Text, eol: Text)
    requires LF !in gap
    ensures ReplaceLines(Serialize(j, gap, line), eol) == Serialize(j, gap, ReplaceLines(line, eol))
    decreases j, 0
  {
    hide SerializeItems, SerializeFields, ReplaceLines, IsNumber;
    ReplaceNothing(gap, eol);
    match j
    case Arr(items) =>
      if items == [] {
        ReplaceNothing([LBRACKET, RBRACKET], eol);
      } else {
        ReplaceItems(items, gap, line, eol);
        ReplaceNothing1(LBRACKET, eol);
        ReplaceJoins3([LBRACKET] + line, gap, SerializeItems(items, gap, line), eol);
        ReplaceJoins([LBRACKET], line, eol);
      }
    case Obj(members) =>
      if members == [] {
        ReplaceNothing([LBRACE, RBRACE], eol);
      } else {
        ReplaceFields(members, gap, line, eol);
        ReplaceNothing1(LBRACE, eol);
        ReplaceJoins3([LBRACE] + line, gap, SerializeFields(members, gap, line), eol);
        ReplaceJoins([LBRACE], line, eol);
      }
    case _ =>
      AtomHasNoLine(j, gap, line);
      ReplaceNothing(Serialize(j, gap, line), eol);
  }

  lemma ReplaceSeparator(gap: Text, line: Text, rest: Text, eol: Text)
    requires LF !in gap
    ensures ReplaceLines([COMMA] + line + gap + rest, eol) == [COMMA] + ReplaceLines(line, eol) + gap + ReplaceLines(rest, eol)
  {
    hide ReplaceLines;
    ReplaceNothing1(COMMA, eol);
    ReplaceNothing(gap, eol);
    ReplaceJoins3([COMMA] + line, gap, rest, eol);
    ReplaceJoins([COMMA], line, eol);
  }

  lemma {:induction false} ReplaceItems(items: seq<Json>, gap: Text, line: Text, eol: Text)
    requires items != [] && LF !in gap
    ensures ReplaceLines(SerializeItems(items, gap, line), eol) == SerializeItems(items, gap, ReplaceLines(line, eol))
    decreases items, 1
  {
    hide Serialize, ReplaceLines;
    var value := Serialize(items[0], gap, line + gap);
    ReplaceSerialized(items[0], gap, line + gap, eol);
    ReplaceJoins(line, gap, eol);
    ReplaceNothing(gap, eol);
    if |items| == 1 {
      ReplaceJoins(value, line + [RBRACKET], eol);
      ReplaceJoins(line, [RBRACKET], eol);
      ReplaceNothing1(RBRACKET, eol);
    } else {
      var rest := SerializeItems(items[1..], gap, line);
      ReplaceItems(items[1..], gap, line, eol);
      ReplaceJoins(value, [COMMA] + line + gap + rest, eol);
      ReplaceSeparator(gap, line, rest, eol);
    }
  }

  lemma {:induction false} ReplaceFields(members: seq<Field>, gap: Text, line: Text, eol: Text)
    requires members != [] && LF !in gap
    ensures ReplaceLines(SerializeFields(members, gap, line), eol) == SerializeFields(members, gap, ReplaceLines(line, eol))
    decreases members, 1
  {
    hide Serialize, ReplaceLines, Strings.Quote, Pad;
    var head := Strings.Quote(members[0].key) + [COLON] + Pad(gap);
    var value := Serialize(members[0].value, gap, line + gap);
    HeadHasNoLine(members[0].key, gap);
    ReplaceNothing(head, eol);
    ReplaceSerialized(members[0].value, gap, line + gap, eol);
    ReplaceJoins(line, gap, eol);
    ReplaceNothing(gap, eol);
    if |members| == 1 {
      ReplaceJoins3(head, value, line + [RBRACE], eol);
      ReplaceJoins(line, [RBRACE], eol);
      ReplaceNothing1(RBRACE, eol);
    } else {
      var rest := SerializeFields(members[1..], gap, line);
      ReplaceFields(members[1..], gap, line, eol);
      ReplaceJoins3(head, value, [COMMA] + line + gap + rest, eol);
      ReplaceSeparator(gap, line, rest, eol);
    }
  }

  lemma HeadHasNoLine(key: Text, gap: Text)
    ensures LF !in Strings.Quote(key) + [COLON] + Pad(gap)
  {
    EscapeHasNoLine(key);
  }

  // ----- The tree a value is written as -----

  function Printed(j: Json, gap: Text, line: Text): Tree
    decreases j, 0
  {
    match j
    case Arr(items) => Branch(false, if items == [] then [] else line + gap, PrintedItems(items, gap, line))
    case Obj(members) => Branch(true, if members == [] then [] else line + gap, PrintedFields(members, gap, line))
    case _ => Leaf(Serialize(j, gap, line))
  }

  function PrintedTail(last: bool, gap: Text, line: Text): Tail {
    if last then Plain(line) else Comma([], line + gap)
  }

  function PrintedItems(items: seq<Json>, gap: Text, line: Text): Elems
    decreases items, 1
  {
    if items == [] then End else
      More(
        Elem(Bare, Printed(items[0], gap, line + gap), PrintedTail(|items| == 1, gap, line)),
        PrintedItems(items[1..], gap, line))
  }

  function PrintedFields(members: seq<Field>, gap: Text, line: Text): Elems
    decreases members, 1
  {
    if members == [] then End else
      More(
        Elem(
          Keyed(Strings.Quote(members[0].key), [], Pad(gap)),
          Printed(members[0].value, gap, line + gap),
          PrintedTail(|members| == 1, gap, line)),
        PrintedFields(members[1..], gap, line))
  }

  /** Indentation: blanks only. */
  predicate IsBlanks(s: Text) {
    forall i :: 0 <= i < |s| ==> IsBlank(s[i])
  }

  lemma {:induction false} BlanksAreGap(s: Text)
    requires IsBlanks(s)
    ensures IsGap(s)
  {
    if s != [] {
      BlanksAreGap(s[1..]);
    }
  }

  /** The tree shows exactly the text JSON.stringify writes, is well formed, and has the value's meaning. */
  lemma {:induction false} PrintedIsSerialized(j: Json, gap: Text, line: Text)
    requires IsBlanks(gap) && IsBlanks(line)
    ensures Show(Printed(j, gap, line)) == Serialize(j, gap, line)
    ensures Formed(Printed(j, gap, line))
    ensures ValueOf(Printed(j, gap, line)) == Meaning(j)
    decreases j, 0
  {
    hide ShowElems, FormedElems, FormedLeaf, LeafValue, SerializeItems, SerializeFields, PrintedItems, PrintedFields;
    hide ItemMeanings, FieldMeanings, ItemsOf, FieldsOf, IsGap;
    match j
    case Arr(items) =>
      HeadIsGap(gap, line);
      if items == [] {
        EmptyPrints(gap, line);
      } else {
        ItemsAreSerialized(items, gap, line);
        BracketOpens(LBRACKET, line, gap, SerializeItems(items, gap, line));
      }
    case Obj(members) =>
      HeadIsGap(gap, line);
      if members == [] {
        EmptyPrints(gap, line);
      } else {
        FieldsAreSerialized(members, gap, line, map[]);
        BracketOpens(LBRACE, line, gap, SerializeFields(members, gap, line));
      }
    case _ => AtomIsSerialized(j, gap, line);
  }

  lemma HeadIsGap(gap: Text, line: Text)
    requires IsBlanks(gap) && IsBlanks(line)
    ensures IsGap(line + gap) && IsGap([])
  {
    BlanksAreGap(line + gap);
    BlanksAreGap([]);
  }

  lemma BracketOpens(open: Unit, line: Text, gap: Text, rest: Text)
    ensures [open] + (line + gap) + rest == [open] + line + gap + rest
  {
  }

  lemma EmptyPrints(gap: Text, line: Text)
    ensures ShowElems(false, PrintedItems([], gap, line)) == [RBRACKET] && FormedElems(false, PrintedItems([], gap, line))
    ensures ShowElems(true, PrintedFields([], gap, line)) == [RBRACE] && FormedElems(true, PrintedFields([], gap, line))
    ensures ItemsOf(PrintedItems([], gap, line)) == [] == ItemMeanings([])
    ensures FieldsOf(PrintedFields([], gap, line), map[]) == map[] == FieldMeanings([], map[])
  {
  }

  lemma AtomIsSerialized(j: Json, gap: Text, line: Text)
    requires !j.Arr? && !j.Obj?
    ensures var token := Serialize(j, gap, line); FormedLeaf(token) && LeafValue(token) == Meaning(j)
  {
    if j.Str? { Strings.QuoteReadsBack(j.s); }
  }

  lemma TailIsPrinted(last: bool, gap: Text, line: Text)
    requires IsBlanks(gap) && IsBlanks(line)
    ensures FormedTail(PrintedTail(last, gap, line)) && PrintedTail(last, gap, line).Plain? == last
    ensures ShowTail(PrintedTail(last, gap, line)) == if last then line else [COMMA] + line + gap
  {
    BlanksAreGap(line + gap);
    BlanksAreGap(line);
  }

  lemma {:induction false} ItemsAreSerialized(items: seq<Json>, gap: Text, line: Text)
    requires items != [] && IsBlanks(gap) && IsBlanks(line)
    ensures ShowElems(false, PrintedItems(items, gap, line)) == SerializeItems(items, gap, line)
    ensures FormedElems(false, PrintedItems(items, gap, line))
    ensures ItemsOf(PrintedItems(items, gap, line)) == ItemMeanings(items)
    decreases items, 1
  {
    hide Show, Formed, ShowTail, FormedTail, PrintedTail, ValueOf, Printed, Serialize, Meaning, Strings.Quote;
    PrintedIsSerialized(items[0], gap, line + gap);
    TailIsPrinted(|items| == 1, gap, line);
    if |items| == 1 {
      assert items[1..] == [];
      ListEnds(Serialize(items[0], gap, line + gap), line, RBRACKET);
    } else {
      ItemsAreSerialized(items[1..], gap, line);
      ListGoesOn(Serialize(items[0], gap, line + gap), [COMMA] + line + gap, SerializeItems(items[1..], gap, line));
    }
  }

  lemma ListEnds(value: Text, line: Text, closer: Unit)
    ensures [] + value + line + [closer] == value + (line + [closer])
  {
  }

  lemma ListGoesOn(value: Text, separator: Text, rest: Text)
    ensures [] + value + separator + rest == value + (separator + rest)
  {
  }

  lemma {:induction false} FieldsAreSerialized(members: seq<Field>, gap: Text, line: Text, so_far: V.Fields)
    requires members != [] && IsBlanks(gap) && IsBlanks(line)
    ensures ShowElems(true, PrintedFields(members, gap, line)) == SerializeFields(members, gap, line)
    ensures FormedElems(true, PrintedFields(members, gap, line))
    ensures FieldsOf(PrintedFields(members, gap, line), so_far) == FieldMeanings(members, so_far)
    decreases members, 1
  {
    hide Show, Formed, ShowTail, FormedTail, PrintedTail, ValueOf, Printed, Serialize, Meaning, Strings.Quote;
    hide Strings.IsString, Strings.Unquote, IsGap, Pad;
    var member := members[0];
    PrintedIsSerialized(member.value, gap, line + gap);
    TailIsPrinted(|members| == 1, gap, line);
    KeyIsPrinted(member.key, gap);
    var head := Strings.Quote(member.key) + [COLON] + Pad(gap);
    var value := Serialize(member.value, gap, line + gap);
    assert so_far[KeyOf(Keyed(Strings.Quote(member.key), [], Pad(gap))) := Meaning(member.value)]
        == so_far[member.key := Meaning(member.value)];
    if |members| == 1 {
      assert members[1..] == [];
      FieldEnds(head, value, line);
    } else {
      FieldsAreSerialized(members[1..], gap, line, so_far[member.key := Meaning(member.value)]);
      FieldGoesOn(head, value, [COMMA] + line + gap, SerializeFields(members[1..], gap, line));
    }
  }

  lemma KeyIsPrinted(key: Text, gap: Text)
    ensures var lead := Keyed(Strings.Quote(key), [], Pad(gap));
      FormedLead(true, lead) && KeyOf(lead) == key && ShowLead(lead) == Strings.Quote(key) + [COLON] + Pad(gap)
  {
    Strings.QuoteReadsBack(key);
    BlanksAreGap(Pad(gap));
    BlanksAreGap([]);
  }

  lemma FieldEnds(head: Text, value: Text, line: Text)
    ensures head + value + line + [RBRACE] == head + value + (line + [RBRACE])
  {
  }

  lemma FieldGoesOn(head: Text, value: Text, separator: Text, rest: Text)
    ensures head + value + separator + rest == head + value + (separator + rest)
  {
  }
}
