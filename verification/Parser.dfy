/** The recursive-descent parser of JSONC, over one cursor. */
module Parser {
  import opened Units
  import opened Trivia
  import Strings
  import opened Scalars
  import opened Values
  import opened Syntax
  import opened Nodes

  /** The parse of `text`, or None where parseJsonc throws. */
  method ParseJsonc(text: Text) returns (root: Option<Node>)
    ensures root == ParseSpec(text)
  {
    hide ReadTree, Skip, SkipFrom, NodeOf, ParseSpec;
    DocumentStages(text);
    var cursor := new Cursor(text);
    root := cursor.Parse();
    if root.None? { return; }
    var ok := cursor.Skip();
    if !ok || cursor.at < |text| { return None; }
  }

  /** One turn of the skipping loop. */
  lemma SkipTurn(text: Text, at: nat)
    requires at <= |text|
    ensures var s, here := text[at..], SkipFrom(text, at);
      if at < |text| && (IsBlank(text[at]) || (text[at] == BOM && at == 0)) then here == SkipFrom(text, at + 1)
      else if StartsWith2(s, SLASH, SLASH) then Find(s, LF) > 0 && here == SkipFrom(text, at + Find(s, LF))
      else if StartsWith2(s, SLASH, STAR) then
        match CloseFrom(s, 2)
        case None => here == None
        case Some(c) => here == SkipFrom(text, at + c + 2)
      else here == Some(at) && StartsToken(s)
  {
    hide CloseFrom, Find, Skip;
    SkipUnfolds(text[at..]);
    var s := text[at..];
    var p := FirstPiece(s);
    if p.Piece? {
      assert s[p.len..] == text[at + p.len..];
    }
  }

  /** One turn of the loop that looks for the closing quote. */
  lemma ScanTurn(text: Text, at: nat)
    requires at < |text|
    ensures var c, rest := text[at], Strings.ScanLen(text[at..]);
      if c == QUOTE then rest == Some(1)
      else if c != BACKSLASH then rest == Add(1, Strings.ScanLen(text[at + 1..]))
      else if at + 2 <= |text| then rest == Add(2, Strings.ScanLen(text[at + 2..]))
      else rest == None
  {
    var s := text[at..];
    assert s[1..] == text[at + 1..];
    if at + 2 <= |text| {
      assert s[2..] == text[at + 2..];
    }
  }

  lemma StringUnclosed(text: Text, start: nat, at: nat)
    requires start < |text| <= at && text[start] == QUOTE
    requires at == |text| ==> Strings.ScanLen(text[start..][1..]) == Add(at - start - 1, Strings.ScanLen(text[at..]))
    requires at > |text| ==> Strings.ScanLen(text[start..][1..]).None?
    ensures Strings.StringLen(text[start..]).None?
  {
  }

  /** What is known once the closing quote is found: the body decides whether there is a token. */
  lemma StringFound(text: Text, start: nat, end: nat)
    requires start + 1 < end <= |text| && text[start] == QUOTE
    requires Strings.ScanLen(text[start..][1..]) == Some((end - start - 1) as nat)
    ensures var s, body := text[start..], Strings.Unescape(text[start + 1..end - 1]);
      && Strings.StringLen(s) == (if body.Some? then Some((end - start) as nat) else None)
      && (body.Some? ==> Strings.IsString(s[..end - start]) && Strings.Unquote(s[..end - start]) == body.value)
  {
    hide Strings.ScanLen, Strings.Unescape;
    var s, n := text[start..], end - start;
    assert s[1..n - 1] == text[start + 1..end - 1];
    assert s[1..][..n - 2] == s[1..n - 1];
    assert Strings.StringLen(s) == if Strings.Unescape(s[1..n - 1]).Some? then Some(n as nat) else None;
    Strings.ScanFindsToken(s, n);
    assert s[..n][1..n - 1] == s[1..n - 1];
  }

  /** What a text that does not begin with a bracket is read as. */
  lemma LeafTurn(s: Text, at: nat)
    ensures s == [] ==> ReadTree(s) == None
    ensures s != [] && s[0] == QUOTE ==>
      match Strings.StringLen(s)
      case None => ReadTree(s) == None
      case Some(n) =>
        && ReadTree(s) == Some(Read(Leaf(s[..n]), n))
        && NodeOf(Leaf(s[..n]), at) == Node(at, at + n, LeafValue(s[..n]), None, None)
        && Strings.IsString(s[..n]) && LeafValue(s[..n]) == Str(Strings.Unquote(s[..n]))
    ensures s != [] && s[0] != QUOTE && s[0] != LBRACE && s[0] != LBRACKET ==>
      match ScalarLen(s)
      case None => ReadTree(s) == None
      case Some(n) =>
        && ReadTree(s) == Some(Read(Leaf(s[..n]), n))
        && NodeOf(Leaf(s[..n]), at) == Node(at, at + n, LeafValue(s[..n]), None, None)
  {
    hide Strings.StringLen, Strings.IsString, ScalarLen;
    if s != [] && s[0] == QUOTE && Strings.StringLen(s).Some? {
      Strings.ScanFindsToken(s, Strings.StringLen(s).value);
    }
  }

  /** Reading a whole file, offset by offset. */
  lemma DocumentStages(text: Text)
    ensures var start := SkipFrom(text, 0);
      if start.None? then ParseSpec(text) == None else
      var tree := ReadTree(text[start.value..]);
      if tree.None? then ParseSpec(text) == None else
      var end := start.value + tree.value.len;
      ParseSpec(text) == if SkipFrom(text, end) == Some(|text|) then Some(NodeOf(tree.value.it, start.value)) else None
  {
    hide ReadTree, Skip, NodeOf;
  }

  // ----- Progress through the members or items of a bracket -----

  /** What the loops over members and over items have gathered. */
  datatype Progress = Progress(members: seq<Member>, fields: Fields, items: seq<Value>, comma: Option<nat>)

  /**
   * The bracket whose contents start at offset `inside` has been read up to offset `at`: what
   * was gathered and what is still to be read make up the whole.
   */
  ghost predicate Joined(braces: bool, text: Text, inside: nat, at: nat, p: Progress)
    requires inside <= at <= |text|
  {
    var whole, left := ReadElems(braces, text[inside..]), ReadElems(braces, text[at..]);
    && (whole.Some? <==> left.Some?)
    && (whole.Some? ==>
          var all, rest := whole.value.it, left.value.it;
          && whole.value.len == at - inside + left.value.len
          && MembersOf(all, inside) == p.members + MembersOf(rest, at)
          && FieldsOf(all, map[]) == FieldsOf(rest, p.fields)
          && ItemsOf(all) == p.items + ItemsOf(rest)
          && CommaOf(all, inside) == if rest.End? then p.comma else CommaOf(rest, at))
  }

  lemma JoinedAtStart(braces: bool, text: Text, inside: nat)
    requires inside <= |text|
    ensures Joined(braces, text, inside, inside, Progress([], map[], [], None))
  {
    hide ReadElems, MembersOf, FieldsOf, ItemsOf;
  }

  lemma JoinedAtEnd(braces: bool, text: Text, inside: nat, at: nat, p: Progress)
    requires inside <= at < |text| && text[at] == Closer(braces) && Joined(braces, text, inside, at, p)
    ensures var r := ReadElems(braces, text[inside..]);
      && r.Some? && r.value.len == at + 1 - inside
      && MembersOf(r.value.it, inside) == p.members && FieldsOf(r.value.it, map[]) == p.fields
      && ItemsOf(r.value.it) == p.items && CommaOf(r.value.it, inside) == p.comma
  {
    hide ReadElem;
    assert ReadElems(braces, text[at..]) == Some(Read(End, 1));
  }

  /** One more element gathered, which starts at offset `at`. */
  ghost function Gathered(p: Progress, at: nat, elem: Elem): Progress {
    Progress(
      p.members + [MemberOf(elem, at)],
      p.fields[KeyOf(elem.lead) := ValueOf(elem.value)],
      p.items + [ValueOf(elem.value)],
      OwnComma(elem, at))
  }

  /** One turn of a bracket's loop: an element read, or nothing can be. */
  lemma ElemTurn(braces: bool, text: Text, inside: nat, at: nat, p: Progress)
    requires inside <= at <= |text| && Joined(braces, text, inside, at, p)
    requires at < |text| ==> text[at] != Closer(braces)
    ensures at == |text| ==> ReadElems(braces, text[inside..]) == None
    ensures at < |text| ==>
      match ReadElem(braces, text[at..])
      case None => ReadElems(braces, text[inside..]) == None
      case Some(r) => Joined(braces, text, inside, at + r.len, Gathered(p, at, r.it))
  {
    hide ReadElem, ReadElems, MembersOf, FieldsOf, ItemsOf, CommaOf, Gathered, ShowElem, FormedElem;
    if at < |text| {
      var s := text[at..];
      ElemsTurn(braces, s);
      if ReadElem(braces, s).Some? {
        var Read(elem, n) := ReadElem(braces, s).value;
        assert s[n..] == text[at + n..];
        if ReadElems(braces, s[n..]).Some? {
          ElemIsText(braces, s, elem, n);
          GatheredFirst(p, at, elem, ReadElems(braces, s[n..]).value.it);
        }
      }
    } else {
      assert ReadElems(braces, text[at..]) == None by { NothingLeft(braces); }
    }
  }

  lemma NothingLeft(braces: bool)
    ensures ReadElems(braces, []) == None
  {
  }

  /** Reading an element, offset by offset. */
  lemma ElemStages(braces: bool, text: Text, at: nat)
    requires at < |text|
    ensures var r := ReadElem(braces, text[at..]);
      match ReadLead(braces, text[at..])
      case None => r == None
      case Some(Read(lead, l)) =>
        match ReadTree(text[at + l..])
        case None => r == None
        case Some(Read(value, v)) =>
          match ReadTail(braces, text[at + l + v..])
          case None => r == None
          case Some(Read(tail, t)) => r == Some(Read(Elem(lead, value, tail), l + v + t))
  {
    hide ReadLead, ReadTree, ReadTail;
    var s := text[at..];
    var lead := ReadLead(braces, s);
    if lead.Some? {
      var l := lead.value.len;
      assert s[l..] == text[at + l..];
      var value := ReadTree(s[l..]);
      if value.Some? {
        assert s[l..][value.value.len..] == text[at + l + value.value.len..];
      }
    }
  }

  lemma ElemsTurn(braces: bool, s: Text)
    requires s != [] && s[0] != Closer(braces)
    ensures var first := ReadElem(braces, s);
      if first.None? then ReadElems(braces, s) == None else
      var rest := ReadElems(braces, s[first.value.len..]);
      ReadElems(braces, s) == if rest.None? then None else
        Some(Read(More(first.value.it, rest.value.it), first.value.len + rest.value.len))
  {
    hide ReadElem;
  }

  lemma GatheredFirst(p: Progress, at: nat, elem: Elem, rest: Elems)
    ensures var all, after, q := More(elem, rest), at + |ShowElem(elem)|, Gathered(p, at, elem);
      && p.members + MembersOf(all, at) == q.members + MembersOf(rest, after)
      && FieldsOf(all, p.fields) == FieldsOf(rest, q.fields)
      && p.items + ItemsOf(all) == q.items + ItemsOf(rest)
      && CommaOf(all, at) == if rest.End? then q.comma else CommaOf(rest, after)
  {
    hide ShowElem, MemberOf, OwnComma, ValueOf, KeyOf;
    Regroup(p.members, MemberOf(elem, at), MembersOf(rest, at + |ShowElem(elem)|));
    Regroup(p.items, ValueOf(elem.value), ItemsOf(rest));
  }

  lemma Regroup<T>(a: seq<T>, x: T, b: seq<T>)
    ensures a + ([x] + b) == (a + [x]) + b
  {
  }

  /** Reading a key and its colon, offset by offset. */
  lemma LeadTurn(text: Text, at: nat)
    requires at <= |text| && 0 < at
    ensures at < |text| && text[at] != QUOTE ==> ReadLead(true, text[at..]) == None
    ensures at < |text| && text[at] == QUOTE ==>
      var r := ReadLead(true, text[at..]);
      match Strings.StringLen(text[at..])
      case None => r == None
      case Some(k) =>
        match SkipFrom(text, at + k)
        case None => r == None
        case Some(c) =>
          if c == |text| || text[c] != COLON then r == None else
          match SkipFrom(text, c + 1)
          case None => r == None
          case Some(p) =>
            && r.Some? && at + r.value.len == p
            && Strings.IsString(text[at..][..k]) && KeyOf(r.value.it) == Strings.Unquote(text[at..][..k])
  {
    hide Skip, Strings.StringLen, Strings.IsString, Strings.Unquote;
    if at < |text| && text[at] == QUOTE && Strings.StringLen(text[at..]).Some? {
      var s, k := text[at..], Strings.StringLen(text[at..]).value;
      Strings.ScanFindsToken(s, k);
      assert s[k..] == text[at + k..];
      if Skip(s[k..]).Some? && Skip(s[k..]).value < |s[k..]| {
        assert s[k..][Skip(s[k..]).value + 1..] == text[at + k + Skip(s[k..]).value + 1..];
      }
    }
  }

  /** Reading what follows a value in a bracket, offset by offset. */
  lemma TailTurn(braces: bool, text: Text, at: nat)
    requires 0 < at <= |text|
    ensures var r := ReadTail(braces, text[at..]);
      match SkipFrom(text, at)
      case None => r == None
      case Some(b) =>
        if b == |text| then r == None
        else if text[b] == COMMA then
          match SkipFrom(text, b + 1)
          case None => r == None
          case Some(e) => r.Some? && at + r.value.len == e && r.value.it.Comma? && at + |r.value.it.before| == b
        else if text[b] == Closer(braces) then r.Some? && at + r.value.len == b && r.value.it.Plain?
        else r == None
  {
    hide Skip;
    var s := text[at..];
    if Skip(s).Some? && Skip(s).value < |s| {
      assert s[Skip(s).value + 1..] == text[at + Skip(s).value + 1..];
    }
  }

  /** Reading a bracket, offset by offset. */
  lemma BranchTurn(text: Text, at: nat)
    requires at < |text| && (text[at] == LBRACE || text[at] == LBRACKET)
    ensures var r, braces := ReadTree(text[at..]), text[at] == LBRACE;
      match SkipFrom(text, at + 1)
      case None => r == None
      case Some(inside) =>
        && StartsToken(text[inside..])
        && var elems := ReadElems(braces, text[inside..]);
          if elems.None? then r == None
          else r == Some(Read(Branch(braces, text[at + 1..inside], elems.value.it), inside - at + elems.value.len))
  {
    hide Skip, ReadElems, ReadLeaf;
    var s := text[at..];
    assert s[1..] == text[at + 1..];
    if Skip(s[1..]).Some? {
      var h := Skip(s[1..]).value;
      assert s[1..][h..] == text[at + 1 + h..] && s[1..][..h] == text[at + 1..at + 1 + h];
      if h < |s[1..]| { SkipTakesGap(s[1..], h); }
    }
  }

  lemma LeadNeeded(text: Text, at: nat)
    requires at <= |text| && (at < |text| ==> text[at] != QUOTE)
    ensures at < |text| ==> ReadElem(true, text[at..]) == None
  {
  }

  /** The lengths of what is read are those of the text it shows. */
  lemma LeadOffset(s: Text, lead: Lead, n: nat)
    requires s != [] && ReadLead(true, s) == Some(Read(lead, n)) && n < |s|
    ensures |ShowLead(lead)| == n
  {
    hide ReadLead, ShowLead;
    LeadIsText(true, s, lead, n);
  }

  lemma TreeOffset(s: Text, t: Tree, n: nat)
    requires ReadTree(s) == Some(Read(t, n))
    ensures |Show(t)| == n
  {
    hide ReadTree, Show;
    TreeIsText(s, t, n);
  }

  /** Reading an item, which has no lead. */
  lemma BareTurn(text: Text, at: nat)
    requires 0 < at <= |text| && StartsToken(text[at..])
    ensures at < |text| ==> ReadLead(false, text[at..]) == Some(Read(Bare, 0))
    ensures SkipFrom(text, at) == Some(at)
    ensures at == |text| ==> ReadTree(text[at..]) == None
  {
    SkipToken(text[at..]);
  }

  /** A bracket's node, from what was read inside it. */
  lemma BranchNode(text: Text, at: nat)
    requires at < |text| && (text[at] == LBRACE || text[at] == LBRACKET) && ReadTree(text[at..]).Some?
    ensures var read := ReadTree(text[at..]).value; var t, end := read.it, at + read.len;
      && t.Branch? && t.braces == (text[at] == LBRACE)
      && NodeOf(t, at) ==
        if t.braces then
          Node(at, end, Obj(FieldsOf(t.elems, map[])), Some(MembersOf(t.elems, at + 1 + |t.head|)), CommaOf(t.elems, at + 1 + |t.head|))
        else Node(at, end, Arr(ItemsOf(t.elems)), None, None)
  {
    hide Skip, ReadElems, ReadLeaf, FieldsOf, ItemsOf, MembersOf, CommaOf;
    var read := ReadTree(text[at..]).value;
    TreeIsText(text[at..], read.it, read.len);
  }

  class Cursor {
    const text: Text
    var at: nat

    constructor (text: Text)
      ensures this.text == text && at == 0
    {
      this.text := text;
      at := 0;
    }

    predicate Looking(u: Unit)
      reads this
    {
      at < |text| && text[at] == u
    }

    /** Moves past trivia; false when a block comment is not closed. */
    method Skip() returns (ok: bool)
      requires at <= |text|
      modifies this
      ensures at <= |text|
      ensures ok <==> SkipFrom(text, old(at)).Some?
      ensures ok ==> SkipFrom(text, old(at)) == Some(at) && StartsToken(text[at..])
    {
      hide SkipFrom, CloseFrom, Find, FirstPiece;
      while true
        invariant old(at) <= at <= |text|
        invariant SkipFrom(text, at) == SkipFrom(text, old(at))
        decreases |text| - at
      {
        SkipTurn(text, at);
        if at < |text| && (IsBlank(text[at]) || (text[at] == BOM && at == 0)) {
          at := at + 1;
        } else if StartsWith2(text[at..], SLASH, SLASH) {
          at := at + Find(text[at..], LF);
        } else if StartsWith2(text[at..], SLASH, STAR) {
          match CloseFrom(text[at..], 2)
          case None => return false;
          case Some(close) => at := at + close + 2;
        } else {
          return true;
        }
      }
    }

    /** Finds the closing quote by hand, then decodes what it closes. */
    method String() returns (r: Option<Text>)
      requires Looking(QUOTE)
      modifies this
      ensures at <= |text| || r.None?
      ensures r.Some? <==> Strings.StringLen(text[old(at)..]).Some?
      ensures r.Some? ==>
        var n := Strings.StringLen(text[old(at)..]).value;
        at == old(at) + n && Strings.IsString(text[old(at)..][..n]) && r == Some(Strings.Unquote(text[old(at)..][..n]))
    {
      hide Strings.ScanLen, Strings.StringLen, Strings.Unescape, Strings.IsString, Strings.Unquote;
      var start := at;
      ghost var s := text[start..];
      at := at + 1;
      assert text[at..] == s[1..];
      while true
        invariant start < at
        invariant at <= |text| ==> Strings.ScanLen(s[1..]) == Add(at - start - 1, Strings.ScanLen(text[at..]))
        invariant at > |text| ==> Strings.ScanLen(s[1..]).None?
        decreases |text| - at
      {
        if at >= |text| {
          StringUnclosed(text, start, at);
          return None;
        }
        var c := text[at];
        ScanTurn(text, at);
        at := at + if c == BACKSLASH then 2 else 1;
        if c == QUOTE { break; }
      }
      StringFound(text, start, at);
      return Strings.Unescape(text[start + 1..at - 1]);
    }
  
    /** The value at the cursor, after trivia. */
    method Parse() returns (r: Option<Node>)
      requires at <= |text|
      modifies this
      ensures at <= |text| || r.None?
      ensures var start := SkipFrom(text, old(at));
        if start.Some? && ReadTree(text[start.value..]).Some? then
          var read := ReadTree(text[start.value..]).value;
          r == Some(NodeOf(read.it, start.value)) && at == start.value + read.len
        else r == None
      decreases |text| - at, 1
    {
      hide Trivia.Skip, ScalarLen, Strings.StringLen, Strings.IsString, ReadTree, NodeOf, LeafValue;
      var ok := Skip();
      if !ok { return None; }
      var start := at;
      ghost var s := text[start..];
      LeafTurn(s, start);
      if Looking(LBRACE) { r := Object(); return; }
      if Looking(LBRACKET) { r := Array(); return; }
      if Looking(QUOTE) {
        var value := String();
        if value.None? { return None; }
        return Some(Node(start, at, Str(value.value), None, None));
      }
      if at == |text| { return None; }
      var n := ScalarLen(text[at..]);
      if n.None? { return None; }
      at := at + n.value;
      assert text[start..at] == s[..n.value];
      return Some(Node(start, at, LeafValue(text[start..at]), None, None));
    }

    method Object() returns (r: Option<Node>)
      requires Looking(LBRACE)
      modifies this
      ensures at <= |text| || r.None?
      ensures var read := ReadTree(text[old(at)..]);
        if read.Some? then r == Some(NodeOf(read.value.it, old(at))) && at == old(at) + read.value.len
        else r == None
      decreases |text| - at, 0
    {
      hide Trivia.Skip, SkipFrom, ReadElems, ReadElem, ReadTree, NodeOf;
      hide Joined, MembersOf, FieldsOf, ItemsOf, CommaOf, OwnComma, MemberOf, ValueOf;
      var start := at;
      at := at + 1;
      var members: seq<Member> := [];
      var value: Fields := map[];
      var trailingComma: Option<nat> := None;
      BranchTurn(text, start);
      var ok := Skip();
      if !ok { return None; }
      ghost var inside := at;
      ghost var p := Progress([], map[], [], None);
      JoinedAtStart(true, text, inside);
      while !Looking(RBRACE)
        invariant start < inside <= at <= |text|
        invariant Joined(true, text, inside, at, p)
        invariant p.members == members && p.fields == value && p.comma == trailingComma
        decreases |text| - at
      {
        ElemTurn(true, text, inside, at, p);
        ghost var from := at;
        var member, comma := Member();
        if member.None? { return None; }
        p := Gathered(p, from, ReadElem(true, text[from..]).value.it);
        members := members + [member.value];
        value := value[member.value.key := member.value.value.value];
        trailingComma := comma;
      }
      JoinedAtEnd(true, text, inside, at, p);
      BranchNode(text, start);
      at := at + 1;
      return Some(Node(start, at, Obj(value), Some(members), trailingComma));
    }

    /** One turn of the loop over members: a key, its value, and the offset of a comma after it. */
    method Member() returns (r: Option<Member>, trailingComma: Option<nat>)
      requires 0 < at <= |text|
      modifies this
      ensures at <= |text| || r.None?
      ensures old(at) == |text| ==> r.None?
      ensures old(at) < |text| ==>
        var read := ReadElem(true, text[old(at)..]);
        if read.None? then r == None else
          && at == old(at) + read.value.len
          && r == Some(MemberOf(read.value.it, old(at)))
          && KeyOf(read.value.it.lead) == r.value.key && ValueOf(read.value.it.value) == r.value.value.value
          && trailingComma == OwnComma(read.value.it, old(at))
      decreases |text| - at, 2
    {
      hide Trivia.Skip, SkipFrom, ReadElem, ReadLead, ReadTail, ReadTree, Strings.StringLen, Strings.IsString, Strings.Unquote;
      hide NodeOf, ValueOf, KeyOf, ShowLead, Show;
      trailingComma := None;
      if !Looking(QUOTE) { LeadNeeded(text, at); return None, None; }
      ElemStages(true, text, at);
      LeadTurn(text, at);
      var keyStart := at;
      var key := String();
      if key.None? { return None, None; }
      var ok := Skip();
      if !ok || !Looking(COLON) { return None, None; }
      at := at + 1;
      var node := Parse();
      if node.None? { return None, None; }
      ghost var lead := ReadLead(true, text[keyStart..]).value;
      ghost var tree := ReadTree(text[keyStart + lead.len..]).value;
      LeadOffset(text[keyStart..], lead.it, lead.len);
      TreeOffset(text[keyStart + lead.len..], tree.it, tree.len);
      ok, trailingComma := Separator(true);
      if !ok { return None, None; }
      r := Some(Nodes.Member(key.value, keyStart, node.value));
    }

    /** What must follow a value in a bracket: a comma, whose offset is returned, or the closing bracket. */
    method Separator(braces: bool) returns (ok: bool, comma: Option<nat>)
      requires 0 < at <= |text|
      modifies this
      ensures at <= |text|
      ensures var read := ReadTail(braces, text[old(at)..]);
        && (ok <==> read.Some?)
        && (ok ==>
              && at == old(at) + read.value.len
              && comma == if read.value.it.Comma? then Some(old(at) + |read.value.it.before|) else None)
      ensures ok ==> StartsToken(text[at..])
    {
      hide Trivia.Skip, SkipFrom, ReadTail, FirstPiece;
      comma := None;
      TailTurn(braces, text, at);
      ok := Skip();
      if !ok { return; }
      if Looking(COMMA) {
        comma := Some(at);
        at := at + 1;
        ok := Skip();
      } else {
        ok := Looking(Closer(braces));
      }
    }

    method Array() returns (r: Option<Node>)
      requires Looking(LBRACKET)
      modifies this
      ensures at <= |text| || r.None?
      ensures var read := ReadTree(text[old(at)..]);
        if read.Some? then r == Some(NodeOf(read.value.it, old(at))) && at == old(at) + read.value.len
        else r == None
      decreases |text| - at, 0
    {
      hide Trivia.Skip, SkipFrom, ReadElems, ReadElem, ReadTree, NodeOf, FirstPiece;
      hide Joined, MembersOf, FieldsOf, ItemsOf, CommaOf, OwnComma, MemberOf, ValueOf;
      var start := at;
      at := at + 1;
      var items: seq<Value> := [];
      BranchTurn(text, start);
      var ok := Skip();
      if !ok { return None; }
      ghost var inside := at;
      ghost var p := Progress([], map[], [], None);
      JoinedAtStart(false, text, inside);
      while !Looking(RBRACKET)
        invariant start < inside <= at <= |text|
        invariant Joined(false, text, inside, at, p)
        invariant StartsToken(text[at..])
        invariant p.items == items
        decreases |text| - at
      {
        ElemTurn(false, text, inside, at, p);
        ghost var from := at;
        var item := Item();
        if item.None? { return None; }
        p := Gathered(p, from, ReadElem(false, text[from..]).value.it);
        items := items + [item.value];
      }
      JoinedAtEnd(false, text, inside, at, p);
      BranchNode(text, start);
      at := at + 1;
      return Some(Node(start, at, Arr(items), None, None));
    }

    /** One turn of the loop over items. */
    method Item() returns (r: Option<Value>)
      requires 0 < at <= |text| && StartsToken(text[at..])
      modifies this
      ensures at <= |text| || r.None?
      ensures r.Some? ==> StartsToken(text[at..])
      ensures old(at) == |text| ==> r.None?
      ensures old(at) < |text| ==>
        var read := ReadElem(false, text[old(at)..]);
        if read.None? then r == None
        else at == old(at) + read.value.len && r == Some(ValueOf(read.value.it.value))
      decreases |text| - at, 2
    {
      hide Trivia.Skip, SkipFrom, ReadElem, ReadTail, ReadTree, FirstPiece;
      BareTurn(text, at);
      if at < |text| { ElemStages(false, text, at); }
      var node := Parse();
      if node.None? { return None; }
      var ok, _ := Separator(false);
      if !ok { return None; }
      r := Some(node.value.value);
    }
  }
}
