/** Edits of whole JSONC files, and the client settings made of them. */
module JsonEdits {
  import opened Units
  import opened Json
  import opened Values
  import opened Syntax
  import opened Nodes
  import Parser
  import opened Editor
  import opened Layout
  import opened Commutes
  import opened Documents
  import opened Unions

  /** The value a file holds, if it parses. */
  function ParsedValue(text: Text): Option<Value> {
    match ParseSpec(text) case None => None case Some(root) => Some(root.value)
  }

  /** The guard of an edit of a file: the place of an added member is not inside a comment. */
  predicate Lands(text: Text, path: seq<Text>) {
    match ParseSpec(text) case None => true case Some(root) => ClearAlong(text, root, path)
  }

  /**
   * `next` is `text` with its object edited: the text around the object stays, the object's fields
   * become the merge, and nothing in it changes but what `path` names.
   */
  ghost predicate IsEdited(text: Text, next: Text, path: seq<Text>, value: Value, keep: bool) {
    && ReadDocument(text).Some? && ReadDocument(next).Some?
    && var start, before, after := ReadDocument(text).value.start, ReadDocument(text).value.tree, ReadDocument(next).value.tree;
    && ReadDocument(next).value.start == start && start + |Show(before)| <= |text|
    && text == text[..start] + Show(before) + text[start + |Show(before)|..]
    && next == text[..start] + Show(after) + text[start + |Show(before)|..]
    && before.Branch? && before.braces && after.Branch? && after.braces
    && FieldsOf(after.elems, map[]) == Merged(FieldsOf(before.elems, map[]), path, value, keep)
    && OnlyNamed(before, after, path)
    && Formed(before) && Formed(after)
  }

  /** What an edit that lands does to a whole file. */
  lemma EditIs(text: Text, path: seq<Text>, value: Json, keep: bool)
    requires Upsert(text, path, value, keep).Some? && Lands(text, path)
    ensures IsEdited(text, Upsert(text, path, value, keep).value, path, Meaning(value), keep)
  {
    hide Show, Formed, ReadDocument, UpsertIn, StyleOf, IsStyle, OnlyNamed, Merged, FieldsOf, ClearAlong, IsOpening, IsEnding, Meaning;
    var d := ReadDocument(text).value;
    DocumentIs(text, d);
    var p, e := text[..d.start], text[d.start + |Show(d.tree)|..];
    var root := NodeOf(d.tree, |p|);
    var style := StyleOf(text, root);
    StyleIsStyle(text, root);
    var after := UpsertEdits(p, d.tree, e, style, path, value, keep);
    DocumentReads(p, after, e);
  }

  /**
   * Editing the text and then parsing it is parsing the text and then merging the edit: whenever
   * an edit returns and its guard holds, the result parses, to the merge.
   */
  lemma EditCommutes(text: Text, path: seq<Text>, value: Json, keep: bool)
    requires Upsert(text, path, value, keep).Some? && Lands(text, path)
    ensures var before := ParsedValue(text);
      && before.Some? && before.value.Obj?
      && ParsedValue(Upsert(text, path, value, keep).value)
           == Some(Value.Obj(Merged(before.value.fields, path, Meaning(value), keep)))
  {
    hide Show, ReadDocument, Upsert, Merged, FieldsOf, Lands, Meaning, OnlyNamed, Formed;
    EditIs(text, path, value, keep);
  }

  // ----- Folds of edits -----

  datatype Edit = Edit(path: seq<Text>, value: Json, keep: bool)

  /** The edits applied to the text one after another. */
  function Applied(text: Text, edits: seq<Edit>): Option<Text>
    decreases |edits|
  {
    if edits == [] then Some(text) else
      match Upsert(text, edits[0].path, edits[0].value, edits[0].keep)
      case None => None
      case Some(next) => Applied(next, edits[1..])
  }

  /** The edits merged into the object one after another. */
  function MergedAll(before: Fields, edits: seq<Edit>): Fields
    decreases |edits|
  {
    if edits == [] then before
    else MergedAll(Merged(before, edits[0].path, Meaning(edits[0].value), edits[0].keep), edits[1..])
  }

  /** The guard of every edit, on the text it meets. */
  predicate AllLand(text: Text, edits: seq<Edit>)
    decreases |edits|
  {
    edits == [] ||
    (Lands(text, edits[0].path) &&
     match Upsert(text, edits[0].path, edits[0].value, edits[0].keep)
     case None => true
     case Some(next) => AllLand(next, edits[1..]))
  }

  /**
   * Edits a file member by member, then parses the result back and compares it, whole, with the
   * merge it was meant to be. None where withJsonEdits throws.
   */
  method WithJsonEdits(text: Text, edits: seq<Edit>) returns (r: Option<Text>)
    ensures r == WithEdits(text, edits)
    ensures r.Some? ==>
      && ParsedValue(text).Some? && ParsedValue(text).value.Obj?
      && ParsedValue(r.value) == Some(Value.Obj(MergedAll(ParsedValue(text).value.fields, edits)))
  {
    hide ParseSpec, Upsert, Merged;
    var root := Parser.ParseJsonc(text);
    if root.None? || !root.value.value.Obj? { return None; }
    var expected := root.value.value.fields;
    var next := text;
    for i := 0 to |edits|
      invariant Applied(next, edits[i..]) == Applied(text, edits)
      invariant MergedAll(expected, edits[i..]) == MergedAll(root.value.value.fields, edits)
    {
      var edit := edits[i];
      assert edits[i..][1..] == edits[i + 1..];
      var edited := UpsertJsonc(next, edit.path, edit.value, edit.keep);
      if edited.None? { return None; }
      next := edited.value;
      expected := Merged(expected, edit.path, Meaning(edit.value), edit.keep);
    }
    var after := Parser.ParseJsonc(next);
    if after.None? || after.value.value != Value.Obj(expected) { return None; }
    return Some(next);
  }

  function WithEdits(text: Text, edits: seq<Edit>): Option<Text> {
    match ParsedValue(text)
    case None => None
    case Some(before) =>
      if !before.Obj? || Applied(text, edits).None? then None
      else
        var next := Applied(text, edits).value;
        if ParsedValue(next) == Some(Value.Obj(MergedAll(before.fields, edits))) then Some(next) else None
  }

  /** A fold of edits that all land parses to the fold of their merges. */
  lemma {:induction false} AppliedMeans(text: Text, edits: seq<Edit>)
    requires ParsedValue(text).Some? && ParsedValue(text).value.Obj?
    requires Applied(text, edits).Some? && AllLand(text, edits)
    ensures ParsedValue(Applied(text, edits).value) == Some(Value.Obj(MergedAll(ParsedValue(text).value.fields, edits)))
    decreases |edits|
  {
    hide ParsedValue, Upsert, Merged, Lands;
    if edits != [] {
      EditCommutes(text, edits[0].path, edits[0].value, edits[0].keep);
      AppliedMeans(Upsert(text, edits[0].path, edits[0].value, edits[0].keep).value, edits[1..]);
    }
  }

  /** The comparison at the end never fails after edits that all land: every fold of them is returned. */
  lemma CheckNeverFires(text: Text, edits: seq<Edit>)
    requires ParsedValue(text).Some? && ParsedValue(text).value.Obj? && AllLand(text, edits)
    ensures WithEdits(text, edits) == Applied(text, edits)
  {
    hide ParsedValue, Applied, MergedAll, AllLand;
    if Applied(text, edits).Some? {
      AppliedMeans(text, edits);
    }
  }

  // ----- A list of names as a union -----

  function Lookup(value: Value, path: seq<Text>): Option<Value>
    decreases |path|
  {
    if path == [] then Some(value)
    else if value.Obj? && path[0] in value.fields then Lookup(value.fields[path[0]], path[1..])
    else None
  }

  predicate AreNames(items: seq<Value>) {
    forall i :: 0 <= i < |items| ==> items[i].Str?
  }

  function NamesOf(items: seq<Value>): seq<Text>
    requires AreNames(items)
  {
    seq(|items|, i requires 0 <= i < |items| => items[i].s)
  }

  /** The list of names at `path`: none when nothing, or null, is there; None when it is something else. */
  function ListedAt(value: Value, path: seq<Text>): Option<seq<Text>> {
    match Lookup(value, path)
    case None => Some([])
    case Some(found) =>
      if found.Null? then Some([])
      else if found.Arr? && AreNames(found.items) then Some(NamesOf(found.items))
      else None
  }

  function NameList(names: seq<Text>): Json {
    Json.Arr(seq(|names|, i requires 0 <= i < |names| => Json.Str(names[i])))
  }

  function WithListUnion(text: Text, path: seq<Text>, names: seq<Text>): Option<Text> {
    match ParsedValue(text)
    case None => None
    case Some(before) =>
      if !before.Obj? then None else
      match ListedAt(before, path)
      case None => None
      case Some(listed) =>
        var missing := Missing(names, listed);
        if missing == [] then Some(text) else WithEdits(text, [Edit(path, NameList(listed + missing), false)])
  }

  method WithJsonListUnion(text: Text, path: seq<Text>, names: seq<Text>) returns (r: Option<Text>)
    ensures r == WithListUnion(text, path, names)
  {
    hide ParseSpec, WithEdits, ListedAt;
    var root := Parser.ParseJsonc(text);
    if root.None? || !root.value.value.Obj? { return None; }
    var listed := ListedAt(root.value.value, path);
    if listed.None? { return None; }
    var missing := Missing(names, listed.value);
    if missing == [] { return Some(text); }
    r := WithJsonEdits(text, [Edit(path, NameList(listed.value + missing), false)]);
  }

  lemma {:induction false} LookupMerged(before: Fields, path: seq<Text>, value: Value)
    requires path != []
    ensures Lookup(Value.Obj(Merged(before, path, value, false)), path) == Some(value)
    decreases |path|
  {
    var after := Merged(before, path, value, false);
    assert path[0] in after;
    if |path| == 1 {
      assert path[1..] == [];
    } else {
      var inner := if path[0] in before && before[path[0]].Obj? then before[path[0]].fields else map[];
      LookupMerged(inner, path[1..], value);
    }
  }

  lemma {:induction false} NamesMean(items: seq<Json>)
    requires forall i :: 0 <= i < |items| ==> items[i].Str?
    ensures |ItemMeanings(items)| == |items|
    ensures forall i :: 0 <= i < |items| ==> ItemMeanings(items)[i] == Value.Str(items[i].s)
  {
    if items != [] {
      NamesMean(items[1..]);
    }
  }

  lemma NameListMeans(names: seq<Text>)
    ensures var list := Meaning(NameList(names));
      list.Arr? && AreNames(list.items) && NamesOf(list.items) == names
  {
    NamesMean(NameList(names).items);
  }

  /** Where nothing or null is, the list is made of the names; one that is there is kept in its order, before those it misses; and over anything else the union throws. */
  lemma UnionWrites(text: Text, path: seq<Text>, names: seq<Text>, listed: seq<Text>)
    requires ParsedValue(text).Some? && ParsedValue(text).value.Obj?
    ensures var found, union := Lookup(ParsedValue(text).value, path), WithListUnion(text, path, names);
      && (found.None? || found == Some(Value.Null) ==>
            union == if names == [] then Some(text) else WithEdits(text, [Edit(path, NameList(names), false)]))
      && (found == Some(Value.Arr(seq(|listed|, i requires 0 <= i < |listed| => Value.Str(listed[i])))) ==>
            var missing := Missing(names, listed);
            union == if missing == [] then Some(text) else WithEdits(text, [Edit(path, NameList(listed + missing), false)]))
      && (found.Some? && !found.value.Null? && !(found.value.Arr? && AreNames(found.value.items)) ==> union == None)
  {
    hide ParsedValue, WithEdits, Lookup;
    NothingListed(names);
    assert [] + names == names;
    var items := seq(|listed|, i requires 0 <= i < |listed| => Value.Str(listed[i]));
    assert AreNames(items) && NamesOf(items) == listed;
  }

  lemma {:induction false} NothingListed(names: seq<Text>)
    ensures Missing(names, []) == names
  {
    if names != [] {
      NothingListed(names[1..]);
    }
  }

  /**
   * The list reads back as the old names followed by the missing ones, in order, and a second
   * union returns the very same text.
   */
  lemma UnionReadsBack(text: Text, path: seq<Text>, names: seq<Text>)
    requires WithListUnion(text, path, names).Some?
    ensures var after := WithListUnion(text, path, names).value;
      && ParsedValue(text).Some? && ListedAt(ParsedValue(text).value, path).Some?
      && var listed := ListedAt(ParsedValue(text).value, path).value;
      && ParsedValue(after).Some? && ParsedValue(after).value.Obj?
      && ListedAt(ParsedValue(after).value, path) == Some(listed + Missing(names, listed))
      && WithListUnion(after, path, names) == Some(after)
  {
    hide ParsedValue, Applied, Meaning, Merged;
    var before := ParsedValue(text).value;
    var listed := ListedAt(before, path).value;
    var missing := Missing(names, listed);
    var after := WithListUnion(text, path, names).value;
    if missing != [] {
      UnionApplied(before, path, listed, missing);
    } else {
      assert listed + missing == listed;
    }
    MissingAre(names, listed);
    NoneMissing(names, listed + missing);
  }

  /** What the single edit of a union makes of the list. */
  lemma UnionApplied(before: Value, path: seq<Text>, listed: seq<Text>, missing: seq<Text>)
    requires before.Obj? && ListedAt(before, path) == Some(listed)
    ensures var edits := [Edit(path, NameList(listed + missing), false)];
      ListedAt(Value.Obj(MergedAll(before.fields, edits)), path) == Some(listed + missing)
  {
    hide Meaning, Merged, NameList;
    var edits := [Edit(path, NameList(listed + missing), false)];
    assert edits[1..] == [];
    NameListMeans(listed + missing);
    if path != [] {
      LookupMerged(before.fields, path, Meaning(NameList(listed + missing)));
    }
  }
}
