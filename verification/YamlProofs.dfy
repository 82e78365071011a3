/** What a list union writes, the reader reads: the names that were there, then the missing ones. */
module YamlProofs {
  import opened Units
  import opened Rows
  import opened Editor
  import Strings
  import Toml
  import TomlProofs
  import opened Yaml
  import opened Unions

  // ----- Reading in parts -----

  lemma {:induction false} ContentsOn(a: seq<Text>, b: seq<Text>)
    ensures Contents(a + b) == Contents(a) + Contents(b)
  {
    hide Content;
    if a == [] {
      assert a + b == b;
    } else {
      assert (a + b)[1..] == a[1..] + b;
      ContentsOn(a[1..], b);
    }
  }

  lemma {:induction false} HeadingOn(map_: Text, a: seq<Text>, b: seq<Text>)
    requires forall text <- a :: !Heads(map_, text)
    ensures Heading(map_, a + b) == |a| + Heading(map_, b)
  {
    hide Heads;
    if a == [] {
      assert a + b == b;
    } else {
      assert (a + b)[1..] == a[1..] + b;
      HeadingOn(map_, a[1..], b);
    }
  }

  lemma {:induction false} BlockOn(a: seq<Text>, b: seq<Text>)
    requires forall text <- a :: !IsTop(text)
    requires b == [] || IsTop(b[0])
    ensures Block(a + b) == a
  {
    hide IsTop;
    if a == [] {
      assert a + b == b;
    } else {
      assert (a + b)[1..] == a[1..] + b;
      BlockOn(a[1..], b);
    }
  }

  lemma {:induction false} SettingOn(key: Text, indent: int, a: seq<Text>, b: seq<Text>)
    requires forall text <- a :: !Sets(key, indent, text)
    ensures Setting(key, indent, a + b) == |a| + Setting(key, indent, b)
  {
    hide Sets;
    if a == [] {
      assert a + b == b;
    } else {
      assert (a + b)[1..] == a[1..] + b;
      SettingOn(key, indent, a[1..], b);
    }
  }

  /** A file with one heading is read in that heading's block. */
  lemma ReadsBlock(map_: Text, key: Text, before: seq<Text>, head: Text, block: seq<Text>, after: seq<Text>)
    requires (forall text <- before :: !Heads(map_, text)) && Heads(map_, head)
    requires (forall text <- block :: !IsTop(text)) && (forall text <- after :: !Heads(map_, text))
    requires after == [] || IsTop(after[0])
    ensures ListOf(before + [head] + block + after, map_, key) == NamesOf(key, block)
  {
    hide IsTop, NamesOf, Named;
    var texts := before + [head] + block + after;
    var rest := block + after;
    assert texts == before + ([head] + rest);
    HeadingOn(map_, before, [head] + rest);
    assert texts[|before| + 1..] == rest;
    assert forall text <- block :: !Heads(map_, text);
    HeadingOn(map_, rest, []);
    assert rest + [] == rest;
    BlockOn(block, after);
  }

  // ----- The entry's own lines -----

  /** A word, as a key to look for is. */
  predicate IsWord(key: Text) {
    key != [] && forall u <- key :: IsWordUnit(u)
  }

  lemma {:induction false} SpacesStripped(n: nat, s: Text)
    requires s == [] || s[0] != SPACE
    ensures StripSpaces(Spaces(n) + s) == s
    ensures (s == [] || !IsSpace(s[0])) ==> TrimStart(Spaces(n) + s) == s
  {
    if n == 0 {
      assert Spaces(n) + s == s;
    } else {
      assert (Spaces(n) + s)[1..] == Spaces(n - 1) + s;
      SpacesStripped(n - 1, s);
    }
  }

  function KeyText(indent: nat, key: Text): Text {
    Spaces(indent) + key + [COLON]
  }

  lemma KeyTextStarts(indent: nat, key: Text)
    requires IsWord(key)
    ensures var text := KeyText(indent, key);
      TrimStart(text) == key + [COLON] && StripSpaces(text) == key + [COLON] && key != [] && key[0] != HASH
  {
    var s := key + [COLON];
    assert key[0] in key && s[0] == key[0];
    assert KeyText(indent, key) == Spaces(indent) + s;
    SpacesStripped(indent, s);
  }

  lemma KeyTextIs(indent: nat, key: Text)
    requires IsWord(key)
    ensures var text := KeyText(indent, key);
      Content(text) && Indent(text) == indent && Sets(key, indent, text) && After(text) == []
  {
    hide IsWord, TrimStart, StripSpaces, Find, IsWordUnit;
    var s := key + [COLON];
    KeyTextStarts(indent, key);
    KeyNamed(key);
    assert s[0] == key[0];
    FindInKey(indent, key);
  }

  lemma KeyNamed(key: Text)
    ensures key <= key + [COLON] && Colon((key + [COLON])[|key|..])
  {
    assert (key + [COLON])[|key|..] == [COLON];
  }

  lemma FindInKey(indent: nat, key: Text)
    requires IsWord(key)
    ensures Find(KeyText(indent, key), COLON) == indent + |key|
  {
    TomlProofs.FindPast(Spaces(indent) + key, COLON);
  }

  /** A name written in quotes as it is, on one line, and taken for no comment. */
  predicate Nameable(name: Text) {
    && QUOTE !in name && BACKSLASH !in name && Strings.Escape(name) == name && Toml.NoBreaks(name)
    && forall i :: 0 <= i < |name| - 1 && IsSpace(name[i]) ==> name[i + 1] != HASH
  }

  function ItemText(indent: nat, name: Text): Text {
    Spaces(indent) + [DASH, SPACE] + Strings.Quote(name)
  }

  lemma {:induction false} NoComment(s: Text)
    requires s != [] && !IsSpace(s[|s| - 1])
    requires forall i :: 0 <= i < |s| - 1 && IsSpace(s[i]) ==> s[i + 1] != HASH
    ensures !CommentAt(s)
  {
    if IsSpace(s[0]) && TrimStart(s) != [] {
      FirstAfterBlanks(s);
    }
  }

  /** Past the blanks a text starts with stands what follows one of them. */
  lemma {:induction false} FirstAfterBlanks(s: Text)
    requires s != [] && IsSpace(s[0]) && TrimStart(s) != []
    ensures exists i :: 0 <= i < |s| - 1 && IsSpace(s[i]) && s[i + 1] == TrimStart(s)[0]
  {
    if IsSpace(s[1]) {
      FirstAfterBlanks(s[1..]);
      var i :| 0 <= i < |s[1..]| - 1 && IsSpace(s[1..][i]) && s[1..][i + 1] == TrimStart(s[1..])[0];
      assert IsSpace(s[i + 1]) && s[i + 1 + 1] == TrimStart(s)[0];
    } else {
      assert IsSpace(s[0]) && s[0 + 1] == TrimStart(s)[0];
    }
  }

  lemma {:induction false} CommentKept(s: Text)
    requires s == [] || !IsSpace(s[|s| - 1])
    requires forall i :: 0 <= i < |s| - 1 && IsSpace(s[i]) ==> s[i + 1] != HASH
    ensures StripComment(s) == s
  {
    hide CommentAt;
    if s != [] {
      NoComment(s);
      CommentKept(s[1..]);
      assert [s[0]] + s[1..] == s;
    }
  }

  lemma QuoteIsScalar(name: Text)
    requires Nameable(name)
    ensures Scalar(Strings.Quote(name)) == Some(name)
  {
    var q := Strings.Quote(name);
    assert q == [QUOTE] + name + [QUOTE];
    TomlProofs.ShownIsTrimmed(q);
    assert q[1..] == name + [QUOTE];
    TomlProofs.FindPast(name, QUOTE);
    assert q[1..][..|name|] == name;
    assert q[1..|q| - 1] == name;
  }

  lemma ItemTextIs(indent: nat, name: Text)
    requires Nameable(name)
    ensures var text := ItemText(indent, name);
      Content(text) && Indent(text) == indent && ItemName(text) == Some(name) && text[|text| - 1] == QUOTE
  {
    hide Scalar, StripComment, Strings.Quote;
    var q := Strings.Quote(name);
    assert q == [QUOTE] + name + [QUOTE] by { QuoteIs(name); }
    var s := [DASH, SPACE] + q;
    assert ItemText(indent, name) == Spaces(indent) + s;
    SpacesStripped(indent, s);
    assert s[1..] == Spaces(1) + q;
    SpacesStripped(1, q);
    QuoteNoComment(name);
    CommentKept(q);
    QuoteIsScalar(name);
  }

  lemma QuoteIs(name: Text)
    requires Nameable(name)
    ensures Strings.Quote(name) == [QUOTE] + name + [QUOTE]
  {
  }

  lemma QuoteNoComment(name: Text)
    requires Nameable(name)
    ensures var q := [QUOTE] + name + [QUOTE];
      Toml.NoBreaks(q) && forall i :: 0 <= i < |q| - 1 && IsSpace(q[i]) ==> q[i + 1] != HASH
  {
    var q := [QUOTE] + name + [QUOTE];
    forall i | 0 <= i < |q| - 1 && IsSpace(q[i]) ensures q[i + 1] != HASH {
      assert q[i] == name[i - 1];
    }
  }

  // ----- Reading the entry -----

  function ItemTexts(indent: nat, names: seq<Text>): (texts: seq<Text>)
    ensures |texts| == |names|
  {
    seq(|names|, i requires 0 <= i < |names| => ItemText(indent, names[i]))
  }

  predicate AllNameable(names: seq<Text>) {
    forall i :: 0 <= i < |names| ==> Nameable(names[i])
  }

  /** Items deeper than their key are read one by one, up to the line that ends them. */
  lemma {:induction false} ItemsRead(indent: nat, names: seq<Text>, rest: seq<Text>)
    requires AllNameable(names) && (rest == [] || Ends(indent, rest[0]))
    ensures Items(indent, ItemTexts(indent + 2, names) + rest) == Ok(names)
  {
    hide Nameable, ItemText, ItemName, Content;
    var texts := ItemTexts(indent + 2, names);
    if names == [] {
      assert texts + rest == rest;
    } else {
      assert texts[1..] == ItemTexts(indent + 2, names[1..]);
      assert (texts + rest)[1..] == texts[1..] + rest;
      ItemTextIs(indent + 2, names[0]);
      ItemsRead(indent, names[1..], rest);
      assert [names[0]] + names[1..] == names;
    }
  }

  lemma NamesAt(key: Text, indent: int, block: seq<Text>, at: nat, names: seq<Text>)
    requires at < |block| && Indent(block[0]) == indent && Setting(key, indent, block) == at
    requires Setting(key, indent, block[at + 1..]) == |block| - at - 1 && After(block[at]) == []
    requires Items(indent, block[at + 1..]) == Ok(names)
    ensures NamesOf(key, block) == Ok(Some(names))
  {
    hide Setting, Items, After, Indent;
    NothingAfter();
  }

  lemma SettingHere(key: Text, indent: int, text: Text, rest: seq<Text>)
    ensures Sets(key, indent, text) ==> Setting(key, indent, [text] + rest) == 0
    ensures Setting(key, indent, []) == 0
  {
    hide Sets;
  }

  /** Nothing but its own line sets a key. */
  lemma OnlySetting(key: Text, indent: nat, before: seq<Text>, text: Text, rest: seq<Text>)
    requires Sets(key, indent, text)
    requires (forall t <- before :: !Sets(key, indent, t)) && (forall t <- rest :: !Sets(key, indent, t))
    ensures Setting(key, indent, before + [text] + rest) == |before|
    ensures Setting(key, indent, rest) == |rest|
  {
    hide Sets, Setting;
    assert before + [text] + rest == before + ([text] + rest);
    SettingOn(key, indent, before, [text] + rest);
    SettingOn(key, indent, rest, []);
    SettingHere(key, indent, text, rest);
    assert rest + [] == rest;
  }

  lemma ItemsNotKey(key: Text, indent: nat, names: seq<Text>)
    requires AllNameable(names)
    ensures forall item <- ItemTexts(indent + 2, names) :: !Sets(key, indent, item)
  {
    hide Sets, ItemText, Nameable;
    var items := ItemTexts(indent + 2, names);
    forall item <- items ensures !Sets(key, indent, item) {
      var i :| 0 <= i < |items| && items[i] == item;
      ItemNotKey(key, indent, names[i]);
    }
  }

  /** A block with one entry under `key`, as it is rendered. */
  lemma EntryRead(key: Text, indent: nat, before: seq<Text>, names: seq<Text>, after: seq<Text>)
    requires IsWord(key) && AllNameable(names)
    requires before != [] ==> Indent(before[0]) == indent
    requires (forall text <- before :: !Sets(key, indent, text)) && (forall text <- after :: !Sets(key, indent, text))
    requires after == [] || Ends(indent, after[0])
    ensures NamesOf(key, before + [KeyText(indent, key)] + ItemTexts(indent + 2, names) + after) == Ok(Some(names))
  {
    hide Sets, ItemTexts, KeyText, Content, Ends, IsWord, AllNameable, NamesOf, Setting, Items, After, Indent;
    var text, items := KeyText(indent, key), ItemTexts(indent + 2, names);
    KeyTextIs(indent, key);
    ItemsNotKey(key, indent, names);
    var rest := items + after;
    OnlySetting(key, indent, before, text, rest);
    ItemsRead(indent, names, after);
    var block := before + [text] + rest;
    assert before + [text] + items + after == block;
    assert block[|before| + 1..] == rest;
    assert block[0] == if before == [] then text else before[0];
    NamesAt(key, indent, block, |before|, names);
  }

  lemma NothingAfter()
    ensures Trim(StripComment([])) == []
  {
  }

  lemma ItemNotKey(key: Text, indent: nat, name: Text)
    requires Nameable(name)
    ensures !Sets(key, indent, ItemText(indent + 2, name))
  {
    hide Content, ItemName;
    ItemTextIs(indent + 2, name);
  }

  // ----- The rows an edit leaves -----

  lemma {:induction false} RowsHeads(map_: Text, rows: seq<Text>)
    ensures var n := Header(map_, rows);
      && (forall i :: 0 <= i < n ==> !Heads(map_, Bare(rows[i])))
      && (n < |rows| ==> Heads(map_, Bare(rows[n])))
  {
    hide Heads;
    if rows != [] && !Heads(map_, Bare(rows[0])) {
      RowsHeads(map_, rows[1..]);
      var n := Header(map_, rows[1..]);
      assert forall i :: 0 < i < n + 1 ==> rows[i] == rows[1..][i - 1];
    }
  }

  lemma {:induction false} ContentsOf(rows: seq<Text>)
    ensures forall text <- Contents(rows) :: Content(text) && exists i :: 0 <= i < |rows| && text == Bare(rows[i])
  {
    hide Content;
    if rows != [] {
      ContentsOf(rows[1..]);
      forall text | text in Contents(rows) ensures Content(text) && exists i :: 0 <= i < |rows| && text == Bare(rows[i]) {
        if text !in Contents(rows[1..]) {
          assert text == Bare(rows[0]);
        } else {
          var i :| 0 <= i < |rows[1..]| && text == Bare(rows[1..][i]);
          assert text == Bare(rows[i + 1]);
        }
      }
    }
  }

  lemma BareOf(text: Text, cr: Text)
    requires (cr == [] || cr == [CR]) && text != [] && text[|text| - 1] != CR
    ensures Bare(text + cr) == text
  {
    assert (text + [CR])[..|text|] == text;
  }

  lemma KeyRow(indent: nat, key: Text)
    ensures Spaces(indent) + (Spaces(2) + key + [COLON])[2..] == KeyText(indent, key)
  {
    assert (Spaces(2) + key + [COLON])[2..] == key + [COLON];
  }

  lemma ItemRow(indent: nat, name: Text)
    ensures Spaces(indent) + (Spaces(4) + [DASH, SPACE] + Strings.Quote(name))[2..] == ItemText(indent + 2, name)
  {
    hide Strings.Quote;
    var q := Strings.Quote(name);
    assert (Spaces(4) + [DASH, SPACE] + q)[2..] == Spaces(2) + ([DASH, SPACE] + q);
    assert Spaces(indent) + (Spaces(2) + ([DASH, SPACE] + q)) == Spaces(indent + 2) + [DASH, SPACE] + q;
  }

  lemma {:induction false} ContentsEach(rows: seq<Text>, texts: seq<Text>)
    requires |rows| == |texts| && forall i :: 0 <= i < |rows| ==> Bare(rows[i]) == texts[i] && Content(texts[i])
    ensures Contents(rows) == texts
  {
    hide Content, Bare;
    if rows != [] {
      ContentsEach(rows[1..], texts[1..]);
      assert [texts[0]] + texts[1..] == texts;
    }
  }

  function EntryTexts(key: Text, indent: nat, names: seq<Text>): (texts: seq<Text>)
    ensures |texts| == |names| + 1
  {
    [KeyText(indent, key)] + ItemTexts(indent + 2, names)
  }

  lemma OutKey(key: Text, names: seq<Text>, indent: nat, cr: Text)
    requires IsWord(key) && (cr == [] || cr == [CR])
    ensures var rows := Out(ListEntry(key, names), indent, cr);
      rows != [] && Bare(rows[0]) == KeyText(indent, key) && Content(KeyText(indent, key))
  {
    hide Content, KeyText, IsWord, Bare, ItemRows;
    KeyRow(indent, key);
    KeyTextIs(indent, key);
    KeyTextEnds(indent, key);
    BareOf(KeyText(indent, key), cr);
  }

  lemma OutItem(key: Text, names: seq<Text>, indent: nat, cr: Text, i: nat)
    requires i < |names| && Nameable(names[i]) && (cr == [] || cr == [CR])
    ensures var rows := Out(ListEntry(key, names), indent, cr);
      i + 1 < |rows| && Bare(rows[i + 1]) == ItemText(indent + 2, names[i]) && Content(ItemText(indent + 2, names[i]))
  {
    hide Content, ItemText, Nameable, Bare, Strings.Quote;
    ItemRow(indent, names[i]);
    ItemTextIs(indent + 2, names[i]);
    ItemTextEnds(indent + 2, names[i]);
    BareOf(ItemText(indent + 2, names[i]), cr);
  }

  /** The entry's rows, wherever they are put, are its lines. */
  lemma OutIs(key: Text, names: seq<Text>, indent: nat, cr: Text)
    requires IsWord(key) && AllNameable(names) && (cr == [] || cr == [CR])
    ensures Contents(Out(ListEntry(key, names), indent, cr)) == EntryTexts(key, indent, names)
  {
    hide Nameable, Content, KeyText, ItemText, IsWord, Contents, Bare, Out, ListEntry;
    var rows, texts := Out(ListEntry(key, names), indent, cr), EntryTexts(key, indent, names);
    ListEntrySize(key, names);
    forall i | 0 <= i < |rows| ensures Bare(rows[i]) == texts[i] && Content(texts[i]) {
      if i == 0 {
        OutKey(key, names, indent, cr);
      } else {
        OutItem(key, names, indent, cr, i - 1);
      }
    }
    ContentsEach(rows, texts);
  }

  lemma KeyTextEnds(indent: nat, key: Text)
    ensures var text := KeyText(indent, key); text != [] && text[|text| - 1] == COLON
  {
  }

  lemma ItemTextEnds(indent: nat, name: Text)
    ensures var text := ItemText(indent, name); text != [] && text[|text| - 1] == QUOTE
  {
    var q := Strings.Quote(name);
    assert q[|q| - 1] == QUOTE;
  }

  // ----- What is left of a block -----

  /** The last entry line at or above row `j`. */
  lemma {:induction false} LastOld(key: Text, indent: int, block: seq<Text>, at: nat, j: nat) returns (c: nat)
    requires at <= j < |block| && IsOld(key, indent, block[at])
    ensures at <= c <= j && IsOld(key, indent, block[c]) && forall i :: c < i <= j ==> !IsOld(key, indent, block[i])
    decreases j
  {
    hide IsOld;
    if IsOld(key, indent, block[j]) {
      c := j;
    } else {
      c := LastOld(key, indent, block, at, j - 1);
    }
  }

  /** Every entry line is dropped. */
  lemma OldDropped(key: Text, indent: int, block: seq<Text>, c: nat)
    requires c < |block| && IsOld(key, indent, block[c])
    ensures Dropped(key, indent, block, c)
  {
    assert Region(key, indent, block, c, c);
  }

  /** The first child left past the entry's place is a sibling of the entry. */
  lemma LeftIsSibling(key: Text, indent: int, block: seq<Text>, at: nat, j: nat)
    requires at <= j < |block| && IsOld(key, indent, block[at])
    requires IsChildRow(block[j]) && !Dropped(key, indent, block, j)
    requires forall e :: at <= e < j && IsChildRow(block[e]) ==> Dropped(key, indent, block, e)
    ensures Sibling(indent, block[j])
  {
    hide IsOld, IsChildRow, Sibling;
    var c := LastOld(key, indent, block, at, j);
    assert !Region(key, indent, block, c, j);
    var e :| c < e <= j && Sibling(indent, block[e]);
    SiblingIsChild(indent, block[e]);
    if e < j {
      SiblingStarts(key, indent, block, e);
    }
  }

  /** A sibling that is dropped is itself an entry line. */
  lemma SiblingStarts(key: Text, indent: int, block: seq<Text>, e: nat)
    requires e < |block| && Sibling(indent, block[e]) && Dropped(key, indent, block, e)
    ensures IsOld(key, indent, block[e])
  {
    hide IsOld, IsChildRow, Sibling;
    var c, d :| 0 <= c <= e <= d < |block| && Region(key, indent, block, c, d);
  }

  lemma SiblingIsChild(indent: int, row: Text)
    requires Sibling(indent, row)
    ensures IsChildRow(row)
  {
  }

  lemma {:induction false} LeftReads(key: Text, indent: int, block: seq<Text>, at: nat, j: nat)
    requires at <= j <= |block| && at < |block| && IsOld(key, indent, block[at])
    requires forall e :: at <= e < j && IsChildRow(block[e]) ==> Dropped(key, indent, block, e)
    ensures var left := Contents(Left(key, indent, block, j));
      left == [] || (Indent(left[0]) == indent && !IsItem(left[0]))
    decreases |block| - j
  {
    hide Dropped, IsOld, IsItem, Content, Indent, Contents;
    var left := Left(key, indent, block, j);
    if j == |block| {
      ContentsNone();
    } else {
      var rest := Left(key, indent, block, j + 1);
      if Dropped(key, indent, block, j) {
        LeftReads(key, indent, block, at, j + 1);
        assert [] + rest == rest;
      } else if IsChildRow(block[j]) {
        LeftIsSibling(key, indent, block, at, j);
        ContentsFirst(block[j], rest);
      } else {
        LeftReads(key, indent, block, at, j + 1);
        ContentsFirst(block[j], rest);
      }
    }
  }

  lemma ContentsNone()
    ensures Contents([]) == []
  {
  }

  lemma ContentsFirst(row: Text, rest: seq<Text>)
    ensures Contents([row] + rest) == if IsChildRow(row) then [Bare(row)] + Contents(rest) else Contents(rest)
  {
    hide Content;
    assert ([row] + rest)[1..] == rest;
    assert [] + Contents(rest) == Contents(rest);
  }

  lemma {:induction false} LeftHas(key: Text, indent: int, block: seq<Text>, j: nat)
    requires j <= |block|
    ensures forall row <- Left(key, indent, block, j) ::
      exists i :: j <= i < |block| && row == block[i] && !Dropped(key, indent, block, i)
    decreases |block| - j
  {
    hide Dropped;
    if j < |block| {
      LeftHas(key, indent, block, j + 1);
    }
  }

  // ----- The block with the entry in it -----

  lemma {:induction false} FirstChild(block: seq<Text>)
    ensures Contents(block) != [] ==> Indent(Contents(block)[0]) == ChildIndent(block)
    ensures Contents(block) == [] ==> ChildIndent(block) == 2
  {
    hide Content, Indent;
    if block != [] && !IsChildRow(block[0]) {
      FirstChild(block[1..]);
      assert [] + Contents(block[1..]) == Contents(block[1..]);
    }
  }

  lemma {:induction false} NoChildren(rows: seq<Text>)
    requires forall row <- rows :: !IsChildRow(row)
    ensures Contents(rows) == []
  {
    hide Content;
    if rows != [] {
      assert !IsChildRow(rows[0]);
      NoChildren(rows[1..]);
      assert [] + Contents(rows[1..]) == Contents(rows[1..]);
    }
  }

  /** What is left past the entry's place starts with a sibling, if with anything. */
  lemma PlaceLeft(key: Text, indent: int, block: seq<Text>)
    ensures var at := Place(key, indent, block); var left := Contents(Left(key, indent, block, at));
      && (forall i :: 0 <= i < at ==> !IsOld(key, indent, block[i]))
      && (left == [] || (Indent(left[0]) == indent && !IsItem(left[0])))
      && (forall text <- left :: !Sets(key, indent, text))
  {
    hide Dropped, IsItem, Content, Sets, Indent;
    var at := Place(key, indent, block);
    var rows := Left(key, indent, block, at);
    LeftHas(key, indent, block, at);
    ContentsOf(rows);
    if FirstOld(key, indent, block) < |block| {
      LeftReads(key, indent, block, at, at);
    } else {
      NoChildren(rows);
    }
    forall text <- Contents(rows) ensures !Sets(key, indent, text) {
      var i :| 0 <= i < |rows| && text == Bare(rows[i]);
      assert rows[i] in rows;
      var j :| at <= j < |block| && rows[i] == block[j] && !Dropped(key, indent, block, j);
      if IsOld(key, indent, block[j]) {
        OldDropped(key, indent, block, j);
      }
    }
  }

  /** The lines of the edited block: those before the entry's place, the entry, and what is left past it. */
  lemma EditedContents(key: Text, block: seq<Text>, names: seq<Text>, cr: Text)
    requires IsWord(key) && AllNameable(names) && (cr == [] || cr == [CR])
    ensures var indent := ChildIndent(block); var at := Place(key, indent, block);
      Contents(EditedBlock(key, indent, block, Out(ListEntry(key, names), indent, cr)))
        == Contents(block[..at]) + EntryTexts(key, indent, names) + Contents(Left(key, indent, block, at))
  {
    hide IsWord, AllNameable, Place, Left, Out, ListEntry, EntryTexts, Contents, ChildIndent;
    var indent := ChildIndent(block);
    var at := Place(key, indent, block);
    var out, left := Out(ListEntry(key, names), indent, cr), Left(key, indent, block, at);
    ContentsOn(block[..at] + out, left);
    ContentsOn(block[..at], out);
    OutIs(key, names, indent, cr);
  }

  lemma PlaceIndent(block: seq<Text>, at: nat)
    requires at <= |block|
    ensures var before := Contents(block[..at]); before != [] ==> Indent(before[0]) == ChildIndent(block)
  {
    hide Contents, Indent, ChildIndent;
    FirstChild(block);
    ContentsOn(block[..at], block[at..]);
    assert block[..at] + block[at..] == block;
  }

  lemma NoneSets(key: Text, indent: int, rows: seq<Text>)
    requires forall i :: 0 <= i < |rows| ==> !IsOld(key, indent, rows[i])
    ensures forall text <- Contents(rows) :: !Sets(key, indent, text)
  {
    hide Sets, Content, Bare;
    ContentsOf(rows);
    forall text <- Contents(rows) ensures !Sets(key, indent, text) {
      var i :| 0 <= i < |rows| && text == Bare(rows[i]);
      assert !IsOld(key, indent, rows[i]);
    }
  }

  /** What comes before the entry's place is at the block's indent, and no entry under its key. */
  lemma PlaceBefore(key: Text, block: seq<Text>)
    ensures var indent := ChildIndent(block); var before := Contents(block[..Place(key, indent, block)]);
      (before != [] ==> Indent(before[0]) == indent) && forall text <- before :: !Sets(key, indent, text)
  {
    hide Left, Place, Sets, Indent, Contents, ChildIndent, IsOld;
    var indent := ChildIndent(block);
    var at := Place(key, indent, block);
    PlaceLeft(key, indent, block);
    PlaceIndent(block, at);
    NoneSets(key, indent, block[..at]);
  }

  /** The edited block holds the entry, read as its names. */
  lemma EditedReads(key: Text, block: seq<Text>, names: seq<Text>, cr: Text)
    requires IsWord(key) && AllNameable(names) && (cr == [] || cr == [CR])
    ensures var indent := ChildIndent(block);
      NamesOf(key, Contents(EditedBlock(key, indent, block, Out(ListEntry(key, names), indent, cr)))) == Ok(Some(names))
  {
    hide IsWord, AllNameable, Place, Left, Out, ListEntry, NamesOf, IsItem, Sets, Indent, Content, ItemTexts, KeyText,
      EditedBlock, Contents, ChildIndent;
    var indent := ChildIndent(block);
    var at := Place(key, indent, block);
    var before, after := Contents(block[..at]), Contents(Left(key, indent, block, at));
    EditedContents(key, block, names, cr);
    PlaceLeft(key, indent, block);
    PlaceBefore(key, block);
    EntryRead(key, indent, before, names, after);
    assert before + EntryTexts(key, indent, names) + after
        == before + [KeyText(indent, key)] + ItemTexts(indent + 2, names) + after;
  }

  // ----- The file with the entry in it -----

  lemma {:induction false} BlockRowsAre(rows: seq<Text>)
    ensures var n := BlockRows(rows);
      (forall i :: 0 <= i < n ==> !IsTopRow(rows[i])) && (n < |rows| ==> IsTopRow(rows[n]))
  {
    hide IsTopRow;
    if rows != [] && !IsTopRow(rows[0]) {
      BlockRowsAre(rows[1..]);
      var n := BlockRows(rows[1..]);
      assert forall i :: 0 < i < n + 1 ==> rows[i] == rows[1..][i - 1];
    }
  }

  lemma {:induction false} DeepBlock(block: seq<Text>)
    requires forall i :: 0 <= i < |block| ==> !IsTopRow(block[i])
    ensures ChildIndent(block) > 0
  {
    hide Content;
    if block != [] {
      assert !IsTopRow(block[0]);
      DeepBlock(block[1..]);
    }
  }

  lemma NoTops(rows: seq<Text>)
    requires forall row <- rows :: !IsTopRow(row)
    ensures forall text <- Contents(rows) :: !IsTop(text)
  {
    hide Content, IsTop;
    ContentsOf(rows);
    forall text <- Contents(rows) ensures !IsTop(text) {
      var i :| 0 <= i < |rows| && text == Bare(rows[i]);
      assert !IsTopRow(rows[i]);
    }
  }

  lemma EntryDeep(key: Text, indent: nat, names: seq<Text>)
    requires IsWord(key) && AllNameable(names) && indent > 0
    ensures forall text <- EntryTexts(key, indent, names) :: !IsTop(text)
  {
    hide Content, Sets, ItemName, IsWord, Nameable, Indent, KeyText, ItemText;
    var texts := EntryTexts(key, indent, names);
    KeyTextIs(indent, key);
    forall i | 0 <= i < |texts| ensures !IsTop(texts[i]) {
      if i > 0 {
        ItemTextIs(indent + 2, names[i - 1]);
      }
    }
  }

  lemma EditedDeep(key: Text, block: seq<Text>, names: seq<Text>, cr: Text)
    requires IsWord(key) && AllNameable(names) && (cr == [] || cr == [CR])
    requires forall i :: 0 <= i < |block| ==> !IsTopRow(block[i])
    ensures var indent := ChildIndent(block);
      forall text <- Contents(EditedBlock(key, indent, block, Out(ListEntry(key, names), indent, cr))) :: !IsTop(text)
  {
    hide IsWord, AllNameable, Out, ListEntry, EditedBlock, Contents, ChildIndent, Dropped, IsTop, IsTopRow, EntryTexts, Place;
    var indent := ChildIndent(block);
    var at := Place(key, indent, block);
    EditedContents(key, block, names, cr);
    DeepBlock(block);
    EntryDeep(key, indent, names);
    NoTops(block[..at]);
    LeftHas(key, indent, block, at);
    NoTops(Left(key, indent, block, at));
  }

  lemma NoHeads(map_: Text, rows: seq<Text>)
    requires forall i :: 0 <= i < |rows| ==> !Heads(map_, Bare(rows[i]))
    ensures forall text <- Contents(rows) :: !Heads(map_, text)
  {
    hide Heads, Content;
    ContentsOf(rows);
  }

  lemma HeadsIsContent(map_: Text, text: Text)
    requires Heads(map_, text) && IsWord(map_)
    ensures Content(text)
  {
    assert map_[0] in map_;
    assert TrimStart(text) == text by {
      assert text != [] && !IsSpace(text[0]);
    }
    assert StripSpaces(text) == text;
  }

  lemma OneContent(row: Text)
    requires Content(Bare(row))
    ensures Contents([row]) == [Bare(row)]
  {
    hide Content, Bare;
    var rows := [row];
    assert |rows[1..]| == 0;
  }

  lemma FirstTop(rows: seq<Text>)
    requires rows == [] || IsTopRow(rows[0])
    ensures Contents(rows) == [] || IsTop(Contents(rows)[0])
  {
    hide Content, IsTop;
  }

  /** The rows an edit of a map that is there makes are read as the names it was given. */
  lemma EditedRowsRead(rows: seq<Text>, map_: Text, key: Text, names: seq<Text>, cr: Text)
    requires IsWord(map_) && IsWord(key) && AllNameable(names) && (cr == [] || cr == [CR])
    requires EditRows(rows, map_, key, ListEntry(key, names), cr).Ok?
    ensures ListOf(Contents(EditRows(rows, map_, key, ListEntry(key, names), cr).value), map_, key) == Ok(Some(names))
  {
    hide IsWord, AllNameable, Out, ListEntry, EditedBlock, Contents, ChildIndent, Heads, IsTopRow, EvenBlock, OpensBlock,
      Bare, ListOf, IsTop, NamesOf, Content;
    var start := Header(map_, rows);
    var rest := rows[start + 1..];
    var n := BlockRows(rest);
    var block := rest[..n];
    var indent := ChildIndent(block);
    var edited := EditedBlock(key, indent, block, Out(ListEntry(key, names), indent, cr));
    RowsHeads(map_, rows);
    RowsHeads(map_, rest);
    BlockRowsAre(rest);
    NoHeads(map_, rows[..start]);
    NoHeads(map_, rest[n..]);
    HeadsIsContent(map_, Bare(rows[start]));
    OneContent(rows[start]);
    FirstTop(rest[n..]);
    EditedDeep(key, block, names, cr);
    EditedReads(key, block, names, cr);
    assert rows[..start + 1] == rows[..start] + [rows[start]];
    ContentsOn(rows[..start + 1] + edited, rest[n..]);
    ContentsOn(rows[..start + 1], edited);
    ContentsOn(rows[..start], [rows[start]]);
    ReadsBlock(map_, key, Contents(rows[..start]), Bare(rows[start]), Contents(edited), Contents(rest[n..]));
  }

  predicate OneLine(rows: seq<Text>) {
    forall i :: 0 <= i < |rows| ==> LF !in rows[i]
  }

  lemma NoFeeds(key: Text, name: Text)
    ensures Nameable(name) ==> LF !in Strings.Quote(name)
    ensures IsWord(key) ==> LF !in key
  {
    if Nameable(name) {
      QuoteIs(name);
    }
  }

  lemma OutIsLines(key: Text, names: seq<Text>, indent: nat, cr: Text)
    requires IsWord(key) && AllNameable(names) && (cr == [] || cr == [CR])
    ensures OneLine(Out(ListEntry(key, names), indent, cr))
  {
    hide IsWord, Nameable, Strings.Quote;
    var entry := ListEntry(key, names);
    var rows := Out(entry, indent, cr);
    forall i | 0 <= i < |rows| ensures LF !in rows[i] {
      if i == 0 {
        NoFeeds(key, []);
        KeyRow(indent, key);
        assert rows[i] == KeyText(indent, key) + cr;
      } else {
        NoFeeds(key, names[i - 1]);
        ItemRow(indent, names[i - 1]);
        assert rows[i] == ItemText(indent + 2, names[i - 1]) + cr;
      }
    }
  }

  lemma LeftIsLines(key: Text, indent: int, block: seq<Text>, at: nat)
    requires OneLine(block) && at <= |block|
    ensures OneLine(Left(key, indent, block, at))
  {
    hide Dropped;
    var left := Left(key, indent, block, at);
    LeftHas(key, indent, block, at);
    forall i | 0 <= i < |left| ensures LF !in left[i] {
      assert left[i] in left;
    }
  }

  /** The rows of the map's block. */
  function BlockOf(map_: Text, rows: seq<Text>): (block: seq<Text>)
    requires Header(map_, rows) < |rows|
    ensures Header(map_, rows) + 1 + |block| <= |rows|
    ensures block == rows[Header(map_, rows) + 1..][..|block|]
  {
    var rest := rows[Header(map_, rows) + 1..];
    rest[..BlockRows(rest)]
  }

  lemma EditRowsIs(rows: seq<Text>, map_: Text, key: Text, entry: seq<Text>, cr: Text)
    requires (forall line <- entry :: |line| >= 2) && EditRows(rows, map_, key, entry, cr).Ok?
    ensures Header(map_, rows) < |rows|
    ensures var start, block := Header(map_, rows), BlockOf(map_, rows);
      EditRows(rows, map_, key, entry, cr).value == rows[..start + 1]
        + EditedBlock(key, ChildIndent(block), block, Out(entry, ChildIndent(block), cr)) + rows[start + 1 + |block|..]
  {
    hide Header, BlockRows, EditedBlock, ChildIndent, Out, EvenBlock, OpensBlock, Bare;
    var start, block := Header(map_, rows), BlockOf(map_, rows);
    assert rows[start + 1..][|block|..] == rows[start + 1 + |block|..];
  }

  lemma EditedIsLines(rows: seq<Text>, map_: Text, key: Text, entry: seq<Text>, cr: Text)
    requires (forall line <- entry :: |line| >= 2) && OneLine(rows) && EditRows(rows, map_, key, entry, cr).Ok?
    requires Header(map_, rows) < |rows| ==> OneLine(Out(entry, ChildIndent(BlockOf(map_, rows)), cr))
    ensures var edited := EditRows(rows, map_, key, entry, cr).value; edited != [] && OneLine(edited)
  {
    hide Out, EditRows, ChildIndent, Left, Place, BlockOf, Header;
    EditRowsIs(rows, map_, key, entry, cr);
    var block := BlockOf(map_, rows);
    var indent := ChildIndent(block);
    LeftIsLines(key, indent, block, Place(key, indent, block));
  }

  // ----- What an edit leaves alone -----

  lemma NotDroppedYet(key: Text, indent: int, block: seq<Text>, i: nat)
    requires i < |block| && forall j :: 0 <= j <= i ==> !IsOld(key, indent, block[j])
    ensures !Dropped(key, indent, block, i)
  {
    hide IsOld, Sibling, IsChildRow;
  }

  lemma {:induction false} NoneBeforeFirst(key: Text, indent: int, block: seq<Text>, at: nat, i: nat)
    requires i <= at <= |block| && forall j :: 0 <= j < at ==> !IsOld(key, indent, block[j])
    ensures Left(key, indent, block, i) == block[i..at] + Left(key, indent, block, at)
    decreases at - i
  {
    hide IsOld, Dropped;
    var left := Left(key, indent, block, at);
    if i < at {
      NoneBeforeFirst(key, indent, block, at, i + 1);
      NotDroppedYet(key, indent, block, i);
      assert block[i..at] == [block[i]] + block[i + 1..at];
      assert [block[i]] + (block[i + 1..at] + left) == block[i..at] + left;
    } else {
      assert block[i..at] + left == left;
    }
  }

  /** Take the new entry's rows out of an edited block, and every row is there, in its order, but those of an earlier entry under the key. */
  lemma BlockSurvives(key: Text, indent: int, block: seq<Text>, out: seq<Text>)
    ensures var edited := EditedBlock(key, indent, block, out); var at := Place(key, indent, block);
      && at + |out| <= |edited| && edited[at..at + |out|] == out
      && edited[..at] + edited[at + |out|..] == Left(key, indent, block, 0)
  {
    hide Place, Left, IsOld;
    var at := Place(key, indent, block);
    PlaceLeft(key, indent, block);
    NoneBeforeFirst(key, indent, block, at, 0);
    assert block[0..at] == block[..at];
    TakenOut(block[..at], out, Left(key, indent, block, at));
  }

  lemma TakenOut(a: seq<Text>, out: seq<Text>, c: seq<Text>)
    ensures var all := a + out + c;
      all[|a|..|a| + |out|] == out && all[..|a|] + all[|a| + |out|..] == a + c
  {
    var all := a + out + c;
    assert all[..|a|] == a;
    assert all[|a| + |out|..] == c;
  }

  // ----- A file without the map -----

  /** The rows of a file, its last line ended if it was not. */
  function EndedRows(yaml: Text, cr: Text): seq<Text> {
    var rows := Split(yaml);
    if yaml == [] || yaml[|yaml| - 1] == LF then rows[..|rows| - 1]
    else Tailed(rows, cr)
  }

  function Tailed(rows: seq<Text>, tail: Text): seq<Text>
    requires rows != []
  {
    rows[..|rows| - 1] + [rows[|rows| - 1] + tail]
  }

  lemma {:induction false} JoinTail(rows: seq<Text>, tail: Text)
    requires rows != []
    ensures Join(Tailed(rows, tail)) == Join(rows) + tail
  {
    if |rows| > 1 {
      assert Tailed(rows, tail) == [rows[0]] + Tailed(rows[1..], tail);
      assert rows == [rows[0]] + rows[1..];
      JoinFirst(rows[0], Tailed(rows[1..], tail));
      JoinFirst(rows[0], rows[1..]);
      JoinTail(rows[1..], tail);
    } else {
      assert rows == [rows[0]];
      assert Tailed(rows, tail) == [rows[0] + tail];
    }
  }

  lemma SplitTail(text: Text, tail: Text)
    requires LF !in tail
    ensures Split(text + tail) == Tailed(Split(text), tail)
  {
    var rows := Split(text);
    JoinSplit(text);
    JoinTail(rows, tail);
    assert forall row <- Tailed(rows, tail) :: LF !in row;
    SplitJoin(Tailed(rows, tail));
  }

  /** The rows of a file that ends its last line, with a header and more rows after it. */
  lemma AppendedRows(start: Text, header: Text, out: seq<Text>)
    requires LF !in header && out != [] && OneLine(out)
    ensures Split(start + [LF] + header + [LF] + Join(out) + [LF]) == Split(start) + [header] + out + [[]]
  {
    hide Split, Join;
    var b := Join(out) + [LF];
    assert forall row <- out :: LF !in row;
    SplitJoin(out);
    SplitRow(header);
    SplitRow([]);
    SplitBetween(Join(out), []);
    assert Join(out) + [LF] + [] == b;
    SplitBetween(start, header + [LF] + b);
    SplitBetween(header, b);
    Regroup(start, header, Join(out));
    assert Split(start) + ([header] + (out + [[]])) == Split(start) + [header] + out + [[]];
  }

  lemma Regroup(start: Text, header: Text, body: Text)
    ensures start + [LF] + header + [LF] + body + [LF] == start + [LF] + (header + [LF] + (body + [LF]))
  {
    RegroupLine(start + [LF], header, body + [LF]);
    assert start + [LF] + header + [LF] + body + [LF] == start + [LF] + header + [LF] + (body + [LF]);
  }

  lemma RegroupLine(a: Text, b: Text, c: Text)
    ensures a + b + [LF] + c == a + (b + [LF] + c)
  {
  }

  lemma AppendedFirst(header: Text, out: seq<Text>)
    requires LF !in header && out != [] && OneLine(out)
    ensures Split(header + [LF] + Join(out) + [LF]) == [header] + out + [[]]
  {
    hide Split, Join;
    var b := Join(out) + [LF];
    assert forall row <- out :: LF !in row;
    SplitJoin(out);
    SplitRow(header);
    SplitRow([]);
    SplitBetween(Join(out), []);
    assert Join(out) + [LF] + [] == b;
    SplitBetween(header, b);
    assert header + [LF] + Join(out) + [LF] == header + [LF] + b;
    assert [header] + (out + [[]]) == [header] + out + [[]];
  }

  lemma EndedNothing(header: Text, out: seq<Text>, cr: Text)
    requires LF !in header && out != [] && OneLine(out)
    ensures Split([] + [] + header + [LF] + Join(out) + [LF]) == EndedRows([], cr) + [header] + out + [[]]
  {
    hide Join;
    AppendedFirst(header, out);
    assert [] + [] + header == header;
    assert EndedRows([], cr) == [];
    assert EndedRows([], cr) + [header] == [header];
  }

  lemma EndedLine(yaml: Text, header: Text, out: seq<Text>, cr: Text)
    requires LF !in header && out != [] && OneLine(out) && yaml != [] && yaml[|yaml| - 1] == LF
    ensures Split(yaml + [] + header + [LF] + Join(out) + [LF]) == EndedRows(yaml, cr) + [header] + out + [[]]
  {
    hide Split, Join;
    var start := yaml[..|yaml| - 1];
    assert yaml == start + [LF] + [];
    SplitBetween(start, []);
    SplitRow([]);
    assert EndedRows(yaml, cr) == Split(start);
    assert yaml + [] == start + [LF];
    AppendedRows(start, header, out);
  }

  lemma EndedHere(yaml: Text, header: Text, out: seq<Text>, cr: Text)
    requires LF !in header && out != [] && OneLine(out) && LF !in cr && yaml != [] && yaml[|yaml| - 1] != LF
    ensures Split(yaml + (cr + [LF]) + header + [LF] + Join(out) + [LF]) == EndedRows(yaml, cr) + [header] + out + [[]]
  {
    hide Split, Join, Tailed;
    SplitTail(yaml, cr);
    assert yaml + (cr + [LF]) == yaml + cr + [LF];
    AppendedRows(yaml + cr, header, out);
  }

  /** `yaml`, its last line ended with `cr` and a line feed when it was not, then `header` and `out`. */
  lemma EndedRowsAre(yaml: Text, header: Text, out: seq<Text>, cr: Text)
    requires LF !in header && out != [] && OneLine(out) && LF !in cr
    ensures var separator := if yaml == [] || yaml[|yaml| - 1] == LF then [] else cr + [LF];
      Split(yaml + separator + header + [LF] + Join(out) + [LF]) == EndedRows(yaml, cr) + [header] + out + [[]]
  {
    hide Split, Join, EndedRows, OneLine;
    if yaml == [] {
      EndedNothing(header, out, cr);
    } else if yaml[|yaml| - 1] == LF {
      EndedLine(yaml, header, out, cr);
    } else {
      EndedHere(yaml, header, out, cr);
    }
  }

  /** A carriage return at its end makes no line a heading. */
  lemma ReturnHeadsNothing(map_: Text, text: Text)
    requires IsWord(map_) && Heads(map_, text + [CR])
    ensures Heads(map_, text)
  {
    var long := text + [CR];
    assert map_[0] in map_;
    assert StripSpaces(long) == long && TrimStart(long) == long;
    assert text != [] && long[0] == text[0];
    NamedShorter(map_, text);
  }

  lemma {:induction false} ColonShorter(s: Text)
    requires Colon(s + [CR])
    ensures Colon(s)
  {
    if s != [] && s[0] == SPACE {
      assert (s + [CR])[1..] == s[1..] + [CR];
      ColonShorter(s[1..]);
    } else if s != [] {
      assert (s + [CR])[0] == s[0];
    }
  }

  /** What is named past a prefix without a carriage return is named without the one at the end. */
  lemma PrefixShorter(form: Text, s: Text)
    requires form != [] && form[|form| - 1] != CR && form <= s + [CR] && Colon((s + [CR])[|form|..])
    ensures form <= s && Colon(s[|form|..])
  {
    assert |form| <= |s|;
    assert (s + [CR])[|form|..] == s[|form|..] + [CR];
    ColonShorter(s[|form|..]);
  }

  lemma NamedShorter(map_: Text, s: Text)
    requires IsWord(map_) && s != [] && s[0] != SPACE && Named(map_, s + [CR])
    ensures Named(map_, s)
  {
    hide Colon;
    var long := s + [CR];
    assert StripSpaces(long) == long && StripSpaces(s) == s;
    assert map_[|map_| - 1] in map_;
    if map_ <= long && Colon(long[|map_|..]) {
      PrefixShorter(map_, s);
    } else if Quoted(map_, QUOTE) <= long && Colon(long[|map_| + 2..]) {
      PrefixShorter(Quoted(map_, QUOTE), s);
    } else {
      PrefixShorter(Quoted(map_, APOSTROPHE), s);
    }
  }

  // ----- The whole edit -----

  lemma TailIs(rows: seq<Text>, cr: Text)
    requires rows != []
    ensures |Tailed(rows, cr)| == |rows|
    ensures forall i :: 0 <= i < |rows| ==> Tailed(rows, cr)[i] == if i == |rows| - 1 then rows[i] + cr else rows[i]
  {
  }

  lemma EndedHeadsNone(map_: Text, row: Text, cr: Text)
    requires IsWord(map_) && (cr == [] || cr == [CR]) && !Heads(map_, Bare(row))
    ensures !Heads(map_, Bare(row + cr))
  {
    hide Heads, IsWord;
    if cr == [] {
      assert row + cr == row;
    } else {
      assert Bare(row + cr) == row;
      if Heads(map_, row) && row != Bare(row) {
        assert row == Bare(row) + [CR];
        ReturnHeadsNothing(map_, Bare(row));
      }
    }
  }

  lemma EndedHeadsNothing(map_: Text, yaml: Text, cr: Text)
    requires IsWord(map_) && (cr == [] || cr == [CR])
    requires Header(map_, Split(yaml)) == |Split(yaml)|
    ensures forall i :: 0 <= i < |EndedRows(yaml, cr)| ==> !Heads(map_, Bare(EndedRows(yaml, cr)[i]))
  {
    hide Heads, IsWord, Split, Bare;
    var rows := Split(yaml);
    RowsHeads(map_, rows);
    TailIs(rows, cr);
    EndedHeadsNone(map_, rows[|rows| - 1], cr);
  }

  lemma HeaderIs(map_: Text, cr: Text)
    requires IsWord(map_) && (cr == [] || cr == [CR])
    ensures var row := (map_ + [COLON]) + cr;
      Bare(row) == map_ + [COLON] && Heads(map_, map_ + [COLON]) && Content(map_ + [COLON]) && LF !in row
  {
    BareOf(map_ + [COLON], cr);
    KeyTextIs(0, map_);
    assert KeyText(0, map_) == map_ + [COLON];
  }

  lemma AppendedRead(rows: seq<Text>, map_: Text, key: Text, names: seq<Text>, cr: Text)
    requires IsWord(map_) && IsWord(key) && AllNameable(names) && (cr == [] || cr == [CR])
    requires forall i :: 0 <= i < |rows| ==> !Heads(map_, Bare(rows[i]))
    ensures var all := rows + [(map_ + [COLON]) + cr] + Out(ListEntry(key, names), 2, cr) + [[]];
      ListOf(Contents(all), map_, key) == Ok(Some(names))
  {
    hide IsWord, AllNameable, Out, ListEntry, Contents, Heads, Content, Bare, ListOf, NamesOf, EntryTexts, IsTop;
    var row, out := (map_ + [COLON]) + cr, Out(ListEntry(key, names), 2, cr);
    HeaderIs(map_, cr);
    OneContent(row);
    NoHeads(map_, rows);
    OutIs(key, names, 2, cr);
    EntryDeep(key, 2, names);
    Nothing();
    ContentsOn(rows + [row] + out, [[]]);
    ContentsOn(rows + [row], out);
    ContentsOn(rows, [row]);
    ReadsBlock(map_, key, Contents(rows), map_ + [COLON], EntryTexts(key, 2, names), []);
    WholeEntryRead(key, 2, names);
    var texts := Contents(rows) + [map_ + [COLON]] + EntryTexts(key, 2, names);
    assert texts + [] == texts;
  }

  lemma Nothing()
    ensures Contents([[]]) == []
  {
    NoChildren([[]]);
  }

  lemma WholeEntryRead(key: Text, indent: nat, names: seq<Text>)
    requires IsWord(key) && AllNameable(names)
    ensures NamesOf(key, EntryTexts(key, indent, names)) == Ok(Some(names))
  {
    hide NamesOf;
    EntryRead(key, indent, [], names, []);
    assert [] + [KeyText(indent, key)] + ItemTexts(indent + 2, names) + [] == EntryTexts(key, indent, names);
  }

  /** Whatever the editor returns is read as the names it was given. */
  lemma EntryReadsBack(yaml: Text, map_: Text, key: Text, names: seq<Text>)
    requires IsWord(map_) && IsWord(key) && AllNameable(names)
    requires WithEntry(yaml, map_, key, ListEntry(key, names)).Ok?
    ensures List(WithEntry(yaml, map_, key, ListEntry(key, names)).value, map_, key) == Ok(Some(names))
  {
    hide IsWord, AllNameable, Out, ListEntry, Contents, Heads, ListOf, EditRows, Split, Join, PlainMapping;
    var rows, cr := Split(yaml), if HasCrLf(yaml) then [CR] else [];
    if Header(map_, rows) == |rows| {
      var header, out := (map_ + [COLON]) + cr, Out(ListEntry(key, names), 2, cr);
      HeaderIs(map_, cr);
      OutIsLines(key, names, 2, cr);
      ListEntrySize(key, names);
      EndedRowsAre(yaml, header, out, cr);
      EndedHeadsNothing(map_, yaml, cr);
      AppendedRead(EndedRows(yaml, cr), map_, key, names, cr);
      var separator := if yaml == [] || yaml[|yaml| - 1] == LF then [] else cr + [LF];
      assert yaml + separator + (map_ + [COLON]) + cr == yaml + separator + header;
    } else {
      RowsAreLines(yaml);
      EditRowsIs(rows, map_, key, ListEntry(key, names), cr);
      OutIsLines(key, names, ChildIndent(BlockOf(map_, rows)), cr);
      EditedIsLines(rows, map_, key, ListEntry(key, names), cr);
      var edited := EditRows(rows, map_, key, ListEntry(key, names), cr).value;
      assert forall row <- edited :: LF !in row;
      SplitJoin(edited);
      EditedRowsRead(rows, map_, key, names, cr);
    }
  }

  lemma ListEntrySize(key: Text, names: seq<Text>)
    ensures |ListEntry(key, names)| == |names| + 1
  {
  }

  lemma RowsAreLines(text: Text)
    ensures OneLine(Split(text))
  {
    var rows := Split(text);
    forall i | 0 <= i < |rows| ensures LF !in rows[i] {
      assert rows[i] in rows;
    }
  }

  function Listed(yaml: Text, map_: Text, key: Text): seq<Text> {
    match List(yaml, map_, key)
    case Refused => []
    case Ok(found) => if found.None? then [] else found.value
  }

  /** A union that returns lists what was listed, in its order, and then the names that were missing; and made again it changes nothing. */
  lemma UnionReadsBack(yaml: Text, map_: Text, key: Text, names: seq<Text>)
    requires IsWord(map_) && IsWord(key) && AllNameable(Listed(yaml, map_, key) + Missing(names, Listed(yaml, map_, key)))
    requires WithListUnion(yaml, map_, key, names).Ok?
    ensures var next := WithListUnion(yaml, map_, key, names).value; var listed := Listed(yaml, map_, key);
      && Listed(next, map_, key) == listed + Missing(names, listed)
      && WithListUnion(next, map_, key, names) == Ok(next)
  {
    hide IsWord, AllNameable, List, WithEntry, ListEntry;
    var listed := Listed(yaml, map_, key);
    var all := listed + Missing(names, listed);
    MissingAre(names, listed);
    if Missing(names, listed) != [] {
      EntryReadsBack(yaml, map_, key, all);
      NoneMissing(names, all);
    } else {
      assert all == listed;
    }
  }

  // ----- What the whole edit leaves alone -----

  /** Row `i` of a file belongs to an entry under `key` of the map. */
  predicate Replaced(map_: Text, key: Text, rows: seq<Text>, i: nat) {
    var start := Header(map_, rows);
    && start < |rows|
    && start < i <= start + |BlockOf(map_, rows)|
    && Dropped(key, ChildIndent(BlockOf(map_, rows)), BlockOf(map_, rows), i - start - 1)
  }

  /** The rows from `i` on that do not, in order. */
  function OtherRows(map_: Text, key: Text, rows: seq<Text>, i: nat): seq<Text>
    requires i <= |rows|
    decreases |rows| - i
  {
    if i == |rows| then []
    else (if Replaced(map_, key, rows, i) then [] else [rows[i]]) + OtherRows(map_, key, rows, i + 1)
  }

  lemma OthersStep(map_: Text, key: Text, rows: seq<Text>, i: nat)
    requires i < |rows|
    ensures OtherRows(map_, key, rows, i) ==
      (if Replaced(map_, key, rows, i) then [] else [rows[i]]) + OtherRows(map_, key, rows, i + 1)
  {
    hide Replaced;
  }

  lemma {:induction false} PastBlock(map_: Text, key: Text, rows: seq<Text>, i: nat)
    requires Header(map_, rows) < |rows| && Header(map_, rows) + |BlockOf(map_, rows)| < i <= |rows|
    ensures OtherRows(map_, key, rows, i) == rows[i..]
    decreases |rows| - i
  {
    hide Dropped, Header, BlockOf, ChildIndent;
    if i < |rows| {
      PastBlock(map_, key, rows, i + 1);
    }
  }

  lemma {:induction false} InBlock(map_: Text, key: Text, rows: seq<Text>, i: nat)
    requires Header(map_, rows) < |rows| && i <= |BlockOf(map_, rows)|
    ensures var start, block := Header(map_, rows), BlockOf(map_, rows);
      OtherRows(map_, key, rows, start + 1 + i) == Left(key, ChildIndent(block), block, i) + rows[start + 1 + |block|..]
    decreases |BlockOf(map_, rows)| - i
  {
    hide Dropped, ChildIndent, Header, BlockOf, OtherRows;
    var start, block := Header(map_, rows), BlockOf(map_, rows);
    var indent, tail := ChildIndent(block), rows[start + 1 + |block|..];
    if i < |block| {
      InBlock(map_, key, rows, i + 1);
      OthersStep(map_, key, rows, start + 1 + i);
      assert block[i] == rows[start + 1..][i] == rows[start + 1 + i];
      var first := if Dropped(key, indent, block, i) then [] else [block[i]];
      Assoc(first, Left(key, indent, block, i + 1), tail);
    } else {
      PastBlock(map_, key, rows, start + 1 + i);
      assert [] + tail == tail;
    }
  }

  lemma {:induction false} BeforeBlock(map_: Text, key: Text, rows: seq<Text>, i: nat)
    requires Header(map_, rows) < |rows| && i <= Header(map_, rows) + 1
    ensures var start := Header(map_, rows);
      OtherRows(map_, key, rows, i) == rows[i..start + 1] + OtherRows(map_, key, rows, start + 1)
    decreases Header(map_, rows) + 1 - i
  {
    hide Dropped, Header, BlockOf, OtherRows, ChildIndent;
    var start := Header(map_, rows);
    var after := OtherRows(map_, key, rows, start + 1);
    if i <= start {
      BeforeBlock(map_, key, rows, i + 1);
      OthersStep(map_, key, rows, i);
      assert rows[i..start + 1] == [rows[i]] + rows[i + 1..start + 1];
      Assoc([rows[i]], rows[i + 1..start + 1], after);
    } else {
      assert rows[i..start + 1] + after == after;
    }
  }

  lemma OthersAre(map_: Text, key: Text, rows: seq<Text>)
    requires Header(map_, rows) < |rows|
    ensures var start, block := Header(map_, rows), BlockOf(map_, rows);
      OtherRows(map_, key, rows, 0)
        == rows[..start + 1] + Left(key, ChildIndent(block), block, 0) + rows[start + 1 + |block|..]
  {
    hide Header, BlockOf, OtherRows, Left, ChildIndent;
    var start, block := Header(map_, rows), BlockOf(map_, rows);
    InBlock(map_, key, rows, 0);
    BeforeBlock(map_, key, rows, 0);
    assert rows[0..start + 1] == rows[..start + 1];
    Assoc(rows[..start + 1], Left(key, ChildIndent(block), block, 0), rows[start + 1 + |block|..]);
  }

  /** An edit of the rows of a file whose map is there. */
  lemma RowsSurvive(rows: seq<Text>, map_: Text, key: Text, entry: seq<Text>, cr: Text) returns (at: nat)
    requires (forall line <- entry :: |line| >= 2) && EditRows(rows, map_, key, entry, cr).Ok?
    ensures Header(map_, rows) < |rows|
    ensures var next, out := EditRows(rows, map_, key, entry, cr).value, Out(entry, ChildIndent(BlockOf(map_, rows)), cr);
      && at + |out| <= |next| && next[at..at + |out|] == out
      && next[..at] + next[at + |out|..] == OtherRows(map_, key, rows, 0)
  {
    hide ChildIndent, Left, Out, Place, OtherRows, Header, BlockOf, EditRows, EditedBlock;
    EditRowsIs(rows, map_, key, entry, cr);
    var start, block := Header(map_, rows), BlockOf(map_, rows);
    var indent := ChildIndent(block);
    var out := Out(entry, indent, cr);
    var p := Place(key, indent, block);
    var a, b, c, left := rows[..start + 1], EditedBlock(key, indent, block, out), rows[start + 1 + |block|..], Left(key, indent, block, 0);
    BlockSurvives(key, indent, block, out);
    OthersAre(map_, key, rows);
    at := start + 1 + p;
    assert |a| == start + 1;
    BetweenBoth(a, b, c, p, |out|, left);
  }

  lemma BetweenBoth(a: seq<Text>, b: seq<Text>, c: seq<Text>, p: nat, n: nat, left: seq<Text>)
    requires p + n <= |b| && b[..p] + b[p + n..] == left
    ensures var all := a + b + c;
      && all[|a| + p..|a| + p + n] == b[p..p + n]
      && all[..|a| + p] + all[|a| + p + n..] == a + left + c
  {
    var all := a + b + c;
    assert all[..|a| + p] == a + b[..p];
    assert all[|a| + p + n..] == b[p + n..] + c;
  }

  lemma OutLines(entry: seq<Text>, indent: nat, cr: Text)
    requires (forall line <- entry :: |line| >= 2) && OneLine(entry) && LF !in cr
    ensures OneLine(Out(entry, indent, cr))
  {
    var rows := Out(entry, indent, cr);
    forall i | 0 <= i < |rows| ensures LF !in rows[i] {
      assert rows[i] == Spaces(indent) + entry[i][2..] + cr;
      assert forall u <- entry[i][2..] :: u in entry[i];
      assert LF !in Spaces(indent);
    }
  }

  /**
   * What an edit leaves of a file: take the new entry's rows out, and every row is there, in its order, but those of an
   * earlier entry under the key; where the map was not there, every row is, its last line ended, before the map.
   */
  lemma OthersSurvive(yaml: Text, map_: Text, key: Text, entry: seq<Text>) returns (at: nat)
    requires entry != [] && (forall line <- entry :: |line| >= 2) && OneLine(entry) && LF !in map_
    requires WithEntry(yaml, map_, key, entry).Ok?
    ensures var next, rows := Split(WithEntry(yaml, map_, key, entry).value), Split(yaml);
      var cr := if HasCrLf(yaml) then [CR] else [];
      if Header(map_, rows) < |rows| then
        var out := Out(entry, ChildIndent(BlockOf(map_, rows)), cr);
        && at + |out| <= |next| && next[at..at + |out|] == out
        && next[..at] + next[at + |out|..] == OtherRows(map_, key, rows, 0)
      else next == EndedRows(yaml, cr) + [map_ + [COLON] + cr] + Out(entry, 2, cr) + [[]]
  {
    hide Out, EditRows, Split, Join, PlainMapping, Header, EndedRows, HasCrLf, OtherRows, BlockOf, ChildIndent;
    var rows, cr := Split(yaml), if HasCrLf(yaml) then [CR] else [];
    if Header(map_, rows) == |rows| {
      at := 0;
      OutLines(entry, 2, cr);
      EndedRowsAre(yaml, map_ + [COLON] + cr, Out(entry, 2, cr), cr);
      var separator := if yaml == [] || yaml[|yaml| - 1] == LF then [] else cr + [LF];
      assert yaml + separator + (map_ + [COLON]) + cr == yaml + separator + (map_ + [COLON] + cr);
    } else {
      RowsAreLines(yaml);
      EditRowsIs(rows, map_, key, entry, cr);
      OutLines(entry, ChildIndent(BlockOf(map_, rows)), cr);
      EditedIsLines(rows, map_, key, entry, cr);
      var edited := EditRows(rows, map_, key, entry, cr).value;
      assert forall row <- edited :: LF !in row;
      SplitJoin(edited);
      at := RowsSurvive(rows, map_, key, entry, cr);
    }
  }
}
