/**
 * The grammar of JSONC: JSON with comments and trailing commas, as a concrete syntax that keeps
 * every unit of the text, and the reader of that syntax.
 */
module Syntax {
  import opened Units
  import opened Trivia
  import Strings
  import opened Scalars
  import opened Values

  /** A value as written. `head` is the trivia after the opening bracket. */
  datatype Tree =
    | Leaf(token: Text)
    | Branch(braces: bool, head: Text, elems: Elems)

  datatype Elems = End | More(elem: Elem, rest: Elems)

  datatype Elem = Elem(lead: Lead, value: Tree, tail: Tail)

  /** The quoted key of an object's member, with the trivia before and after its colon. */
  datatype Lead = Bare | Keyed(key: Text, gap: Text, pad: Text)

  /** The trivia after a value, and its comma with the trivia after that. */
  datatype Tail = Plain(before: Text) | Comma(before: Text, after: Text)

  function Opener(braces: bool): Unit { if braces then LBRACE else LBRACKET }
  function Closer(braces: bool): Unit { if braces then RBRACE else RBRACKET }

  // ----- Text of a tree -----

  function Show(t: Tree): (s: Text)
    decreases t, 0
  {
    match t
    case Leaf(token) => token
    case Branch(braces, head, elems) => [Opener(braces)] + head + ShowElems(braces, elems)
  }

  /** The members or items, and the bracket that closes them. */
  function ShowElems(braces: bool, elems: Elems): (s: Text)
    ensures s != []
    decreases elems, 2
  {
    match elems
    case End => [Closer(braces)]
    case More(elem, rest) => ShowElem(elem) + ShowElems(braces, rest)
  }

  function ShowElem(elem: Elem): Text
    decreases elem, 1
  {
    ShowLead(elem.lead) + Show(elem.value) + ShowTail(elem.tail)
  }

  function ShowLead(lead: Lead): Text {
    match lead
    case Bare => []
    case Keyed(key, gap, pad) => key + gap + [COLON] + pad
  }

  function ShowTail(tail: Tail): Text {
    match tail
    case Plain(before) => before
    case Comma(before, after) => before + [COMMA] + after
  }

  // ----- Well-formed trees -----

  predicate Formed(t: Tree)
    decreases t
  {
    match t
    case Leaf(token) => FormedLeaf(token)
    case Branch(braces, head, elems) => IsGap(head) && FormedElems(braces, elems)
  }

  predicate FormedLeaf(token: Text) {
    token != [] && if token[0] == QUOTE then Strings.IsString(token) else IsScalar(token)
  }

  predicate FormedElems(braces: bool, elems: Elems)
    decreases elems
  {
    match elems
    case End => true
    case More(elem, rest) =>
      FormedElem(braces, elem) && (elem.tail.Plain? ==> rest == End) && FormedElems(braces, rest)
  }

  predicate FormedElem(braces: bool, elem: Elem)
    decreases elem
  {
    FormedLead(braces, elem.lead) && Formed(elem.value) && FormedTail(elem.tail)
  }

  predicate FormedLead(braces: bool, lead: Lead) {
    match lead
    case Bare => !braces
    case Keyed(key, gap, pad) => braces && Strings.IsString(key) && IsGap(gap) && IsGap(pad)
  }

  predicate FormedTail(tail: Tail) {
    IsGap(tail.before) && (tail.Comma? ==> IsGap(tail.after))
  }

  // ----- Value of a tree -----

  function ValueOf(t: Tree): Value {
    match t
    case Leaf(token) => LeafValue(token)
    case Branch(braces, _, elems) =>
      if braces then Obj(FieldsOf(elems, map[])) else Arr(ItemsOf(elems))
  }

  function LeafValue(token: Text): Value {
    if Strings.IsString(token) then Str(Strings.Unquote(token))
    else if token == TRUE then Bool(true)
    else if token == FALSE then Bool(false)
    else if IsNumber(token) then Num(token)
    else Null
  }

  function ItemsOf(elems: Elems): seq<Value> {
    match elems
    case End => []
    case More(elem, rest) => [ValueOf(elem.value)] + ItemsOf(rest)
  }

  /** Each member defined on the object in turn, so of two with one key the later counts. */
  function FieldsOf(elems: Elems, so_far: Fields): Fields {
    match elems
    case End => so_far
    case More(elem, rest) => FieldsOf(rest, so_far[KeyOf(elem.lead) := ValueOf(elem.value)])
  }

  function KeyOf(lead: Lead): Text {
    if lead.Keyed? && Strings.IsString(lead.key) then Strings.Unquote(lead.key) else []
  }

  // ----- Reading -----

  /** Something read from the start of a text, and how many units it took. */
  datatype Read<+T> = Read(it: T, len: nat)

  function ReadTree(s: Text): (r: Option<Read<Tree>>)
    ensures r.Some? ==> 0 < r.value.len <= |s|
    decreases |s|, 0
  {
    if s == [] then None
    else if s[0] == LBRACE || s[0] == LBRACKET then
      var braces, t := s[0] == LBRACE, s[1..];
      match Skip(t)
      case None => None
      case Some(h) =>
        match ReadElems(braces, t[h..])
        case None => None
        case Some(Read(elems, n)) => Some(Read(Branch(braces, t[..h], elems), 1 + h + n))
    else
      match ReadLeaf(s)
      case None => None
      case Some(n) => Some(Read(Leaf(s[..n]), n))
  }

  function ReadLeaf(s: Text): (n: Option<nat>)
    requires s != []
    ensures n.Some? ==> 0 < n.value <= |s|
  {
    if s[0] == QUOTE then Strings.StringLen(s) else ScalarLen(s)
  }

  /** Members or items up to the bracket that closes them, and that bracket. */
  function ReadElems(braces: bool, s: Text): (r: Option<Read<Elems>>)
    ensures r.Some? ==> 0 < r.value.len <= |s|
    decreases |s|, 2
  {
    if s == [] then None
    else if s[0] == Closer(braces) then Some(Read(End, 1))
    else
      match ReadElem(braces, s)
      case None => None
      case Some(Read(elem, n)) =>
        match ReadElems(braces, s[n..])
        case None => None
        case Some(Read(rest, m)) => Some(Read(More(elem, rest), n + m))
  }

  function ReadElem(braces: bool, s: Text): (r: Option<Read<Elem>>)
    requires s != []
    ensures r.Some? ==> 0 < r.value.len < |s| || (r.value.len == |s| && r.value.it.tail.Comma?)
    ensures r.Some? && r.value.it.tail.Plain? ==> s[r.value.len] == Closer(braces)
    decreases |s|, 1
  {
    match ReadLead(braces, s)
    case None => None
    case Some(Read(lead, l)) =>
      var t := s[l..];
      match ReadTree(t)
      case None => None
      case Some(Read(value, v)) =>
        match ReadTail(braces, t[v..])
        case None => None
        case Some(Read(tail, n)) => Some(Read(Elem(lead, value, tail), l + v + n))
  }

  function ReadLead(braces: bool, s: Text): (r: Option<Read<Lead>>)
    requires s != []
    ensures r.Some? ==> r.value.len <= |s|
  {
    if !braces then Some(Read(Bare, 0))
    else if s[0] != QUOTE then None
    else
      match Strings.StringLen(s)
      case None => None
      case Some(k) =>
        var t := s[k..];
        match Skip(t)
        case None => None
        case Some(g) =>
          if g == |t| || t[g] != COLON then None else
          var u := t[g + 1..];
          match Skip(u)
          case None => None
          case Some(p) => Some(Read(Keyed(s[..k], t[..g], u[..p]), k + g + 1 + p))
  }

  /** What may follow a value in a bracket: a comma, or the closing bracket, which is left to be read. */
  function ReadTail(braces: bool, s: Text): (r: Option<Read<Tail>>)
    ensures r.Some? ==> r.value.len <= |s|
    ensures r.Some? && r.value.it.Plain? ==> r.value.len < |s| && s[r.value.len] == Closer(braces)
  {
    match Skip(s)
    case None => None
    case Some(b) =>
      if b == |s| then None
      else if s[b] == COMMA then
        var t := s[b + 1..];
        match Skip(t)
        case None => None
        case Some(a) => Some(Read(Comma(s[..b], t[..a]), b + 1 + a))
      else if s[b] == Closer(braces) then Some(Read(Plain(s[..b]), b))
      else None
  }

  // ----- What is read is well formed, and is the text it was read from -----

  lemma Cut(s: Text, a: nat, n: nat)
    requires a <= n <= |s|
    ensures s[..n] == s[..a] + s[a..][..n - a]
  {
  }

  lemma LeafIsText(s: Text, n: nat)
    requires s != [] && ReadLeaf(s) == Some(n)
    ensures FormedLeaf(s[..n])
  {
    if s[0] == QUOTE {
      Strings.ScanFindsToken(s, n);
    } else {
      ScalarWithin(s);
    }
  }

  /** A gap skipped before a unit that follows it. */
  lemma GapIsText(s: Text, n: nat)
    requires Skip(s) == Some(n) && n < |s|
    ensures IsGap(s[..n])
  {
    SkipTakesGap(s, n);
  }

  lemma LeadIsText(braces: bool, s: Text, lead: Lead, n: nat)
    requires s != [] && ReadLead(braces, s) == Some(Read(lead, n)) && n < |s|
    ensures ShowLead(lead) == s[..n] && FormedLead(braces, lead)
  {
    hide Skip, IsGap, Strings.StringLen, Strings.IsString;
    if braces {
      var k := Strings.StringLen(s).value;
      var t := s[k..];
      var g := Skip(t).value;
      var u := t[g + 1..];
      LeadShown(s, k, g, n);
      Strings.ScanFindsToken(s, k);
      GapIsText(t, g);
      GapIsText(u, n - (k + g + 1));
    }
  }

  lemma LeadShown(s: Text, k: nat, g: nat, n: nat)
    requires k + g < n <= |s| && s[k + g] == COLON
    ensures s[..k] + s[k..][..g] + [COLON] + s[k..][g + 1..][..n - (k + g + 1)] == s[..n]
  {
  }

  lemma TailIsText(braces: bool, s: Text, tail: Tail, n: nat)
    requires ReadTail(braces, s) == Some(Read(tail, n)) && n < |s|
    ensures ShowTail(tail) == s[..n] && FormedTail(tail)
  {
    hide Skip, IsGap;
    var b := Skip(s).value;
    GapIsText(s, b);
    if tail.Comma? {
      GapIsText(s[b + 1..], n - b - 1);
      assert s[..n] == s[..b] + [COMMA] + s[b + 1..][..n - b - 1];
    }
  }

  lemma {:induction false} TreeIsText(s: Text, t: Tree, n: nat)
    requires ReadTree(s) == Some(Read(t, n))
    ensures Show(t) == s[..n] && Formed(t)
    decreases |s|, 0
  {
    hide Skip, IsGap, ReadElems, ShowElems, FormedElems, FormedLeaf, ReadLeaf;
    if t.Leaf? {
      LeafIsText(s, n);
    } else {
      var u, h := s[1..], |t.head|;
      ElemsAreText(t.braces, u[h..], t.elems, n - 1 - h);
      GapIsText(u, h);
      assert s[..n] == [s[0]] + u[..h] + u[h..][..n - 1 - h];
    }
  }

  lemma {:induction false} ElemsAreText(braces: bool, s: Text, elems: Elems, n: nat)
    requires ReadElems(braces, s) == Some(Read(elems, n))
    ensures ShowElems(braces, elems) == s[..n] && FormedElems(braces, elems)
    decreases |s|, 2
  {
    hide ReadElem, ShowElem, FormedElem;
    if elems.More? {
      var m := ReadElem(braces, s).value.len;
      ElemIsText(braces, s, elems.elem, m);
      ElemsAreText(braces, s[m..], elems.rest, n - m);
      Cut(s, m, n);
    }
  }

  lemma {:induction false} ElemIsText(braces: bool, s: Text, elem: Elem, n: nat)
    requires s != [] && ReadElem(braces, s) == Some(Read(elem, n)) && n < |s|
    ensures ShowElem(elem) == s[..n] && FormedElem(braces, elem)
    decreases |s|, 1
  {
    hide ReadLead, ReadTail, ReadTree, ShowLead, ShowTail, Show, Formed, FormedLead, FormedTail;
    var l := ReadLead(braces, s).value.len;
    var t := s[l..];
    var v := ReadTree(t).value.len;
    LeadIsText(braces, s, elem.lead, l);
    TreeIsText(t, elem.value, v);
    TailIsText(braces, t[v..], elem.tail, n - l - v);
    assert s[..n] == s[..l] + t[..v] + t[v..][..n - l - v];
  }

  // ----- A well-formed tree is read back from its text -----

  /** A unit that begins a value: no trivia, bracket closer, comma or colon. */
  predicate BeginsValue(u: Unit) {
    u == LBRACE || u == LBRACKET || u == QUOTE || u == MINUS || IsDigit(u) || u == 116 || u == 102 || u == 110
  }

  lemma TreeBegins(t: Tree)
    requires Formed(t)
    ensures Show(t) != [] && BeginsValue(Show(t)[0])
  {
    hide Strings.IsString, UnsignedLen, IsGap;
    if t.Leaf? && t.token[0] != QUOTE {
      ScalarBegins(t.token);
    }
  }

  lemma ScalarBegins(s: Text)
    requires ScalarLen(s).Some?
    ensures BeginsValue(s[0]) && s[0] != QUOTE && s[0] != LBRACE && s[0] != LBRACKET
  {
  }

  lemma StringBegins(s: Text)
    requires Strings.IsString(s)
    ensures s != [] && s[0] == QUOTE
  {
  }

  lemma ElemsBegin(braces: bool, elems: Elems)
    requires FormedElems(braces, elems)
    ensures var u := ShowElems(braces, elems)[0];
      && !IsBlank(u) && u != SLASH
      && (elems.More? ==> u != Closer(braces) && (braces ==> u == QUOTE))
  {
    hide Show, Formed, FormedTail, IsGap, Strings.IsString;
    if elems.More? {
      var elem := elems.elem;
      if braces { StringBegins(elem.lead.key); } else { TreeBegins(elem.value); }
    }
  }

  lemma GapBegins(gap: Text)
    requires IsGap(gap)
    ensures gap == [] || IsBlank(gap[0]) || gap[0] == SLASH
  {
  }

  /** What follows a value in a bracket could not go on a number. */
  lemma TailEndsNumber(braces: bool, tail: Tail, rest: Text)
    requires FormedTail(tail) && rest != [] && (tail.Plain? ==> rest[0] == Closer(braces))
    ensures EndsNumber(ShowTail(tail) + rest)
  {
    hide IsGap;
    GapBegins(tail.before);
  }

  lemma LeafReads(token: Text, rest: Text)
    requires FormedLeaf(token) && EndsNumber(rest)
    ensures ReadTree(token + rest) == Some(Read(Leaf(token), |token|))
  {
    hide ScalarLen, Strings.StringLen;
    var s := token + rest;
    assert s[..|token|] == token && s[0] == token[0];
    if token[0] == QUOTE {
      Strings.ScanFindsToken(s, |token|);
    } else {
      ScalarBegins(token);
      ScalarBefore(token, rest);
    }
  }

  lemma LeadReads(braces: bool, lead: Lead, rest: Text)
    requires FormedLead(braces, lead) && rest != [] && StartsToken(rest)
    ensures ReadLead(braces, ShowLead(lead) + rest) == Some(Read(lead, |ShowLead(lead)|))
  {
    hide IsGap, Strings.IsString, FirstPiece, ReadLead;
    if braces {
      KeyedReads(lead.key, lead.gap, lead.pad, rest);
      Regroup5(lead.key, lead.gap, [COLON], lead.pad, rest);
    } else {
      BareStep(rest);
      assert ShowLead(lead) + rest == rest;
    }
  }

  lemma KeyedReads(key: Text, gap: Text, pad: Text, rest: Text)
    requires Strings.IsString(key) && IsGap(gap) && IsGap(pad) && rest != [] && StartsToken(rest)
    ensures ReadLead(true, key + (gap + ([COLON] + (pad + rest))))
         == Some(Read(Keyed(key, gap, pad), |key| + |gap| + 1 + |pad|))
  {
    hide IsGap, Strings.IsString, Strings.StringLen, Skip, FirstPiece, ReadLead;
    var u := pad + rest;
    var v := [COLON] + u;
    var t := gap + v;
    KeyReads(key, t);
    Halves(gap, v);
    GapSkips(gap, v);
    assert t[|gap| + 1..] == v[1..] == u;
    assert t[|gap|] == COLON;
    Halves(pad, rest);
    SkipOver(pad, rest);
    SkipToken(rest);
    Halves(key, t);
    LeadStep(key + t, |key|, |gap|, |pad|);
  }

  lemma KeyReads(key: Text, t: Text)
    requires Strings.IsString(key)
    ensures key != [] && (key + t)[0] == QUOTE && Strings.StringLen(key + t) == Some(|key|)
  {
    hide Strings.IsString, Strings.StringLen;
    StringBegins(key);
    Halves(key, t);
    Strings.ScanFindsToken(key + t, |key|);
  }

  lemma GapSkips(gap: Text, s: Text)
    requires IsGap(gap) && s != [] && s[0] != SLASH && !IsBlank(s[0])
    ensures Skip(gap + s) == Some(|gap|)
  {
    hide IsGap, Skip;
    SkipOver(gap, s);
    SkipTokenAt(s);
  }

  lemma Regroup5(a: Text, b: Text, c: Text, d: Text, e: Text)
    ensures a + b + c + d + e == a + (b + (c + (d + e)))
  {
  }

  lemma Halves(a: Text, b: Text)
    ensures (a + b)[..|a|] == a && (a + b)[|a|..] == b
  {
  }

  lemma BareStep(s: Text)
    requires s != []
    ensures ReadLead(false, s) == Some(Read(Bare, 0))
  {
  }

  lemma LeadStep(s: Text, k: nat, g: nat, p: nat)
    requires s != [] && s[0] == QUOTE && Strings.StringLen(s) == Some(k)
    requires Skip(s[k..]) == Some(g) && g < |s[k..]| && s[k..][g] == COLON
    requires Skip(s[k..][g + 1..]) == Some(p)
    ensures ReadLead(true, s) == Some(Read(Keyed(s[..k], s[k..][..g], s[k..][g + 1..][..p]), k + g + 1 + p))
  {
    hide Skip, Strings.StringLen;
  }

  lemma SkipTokenAt(s: Text)
    requires s != [] && s[0] != SLASH && !IsBlank(s[0])
    ensures Skip(s) == Some(0)
  {
  }

  lemma TailReads(braces: bool, tail: Tail, rest: Text)
    requires FormedTail(tail) && rest != [] && StartsToken(rest) && (tail.Plain? ==> rest[0] == Closer(braces))
    ensures ReadTail(braces, ShowTail(tail) + rest) == Some(Read(tail, |ShowTail(tail)|))
  {
    hide IsGap, Skip, FirstPiece, ReadTail;
    var s := ShowTail(tail) + rest;
    var b := |tail.before|;
    assert s[..b] == tail.before;
    SkipToken(rest);
    if tail.Plain? {
      SkipOver(tail.before, rest);
      PlainStep(braces, s, b);
    } else {
      var t := tail.after + rest;
      assert s == tail.before + ([COMMA] + t);
      SkipOver(tail.before, [COMMA] + t);
      SkipTokenAt([COMMA] + t);
      assert s[b + 1..] == t && t[..|tail.after|] == tail.after;
      SkipOver(tail.after, rest);
      CommaStep(braces, s, b, |tail.after|);
    }
  }

  lemma PlainStep(braces: bool, s: Text, b: nat)
    requires Skip(s) == Some(b) && b < |s| && s[b] == Closer(braces)
    ensures ReadTail(braces, s) == Some(Read(Plain(s[..b]), b))
  {
    hide Skip;
  }

  lemma CommaStep(braces: bool, s: Text, b: nat, a: nat)
    requires Skip(s) == Some(b) && b < |s| && s[b] == COMMA && Skip(s[b + 1..]) == Some(a)
    ensures ReadTail(braces, s) == Some(Read(Comma(s[..b], s[b + 1..][..a]), b + 1 + a))
  {
    hide Skip;
  }

  /** A well-formed tree is read back, whole, from its text in front of anything that could not go on a number. */
  lemma {:induction false} TreeReads(t: Tree, rest: Text)
    requires Formed(t) && EndsNumber(rest)
    ensures ReadTree(Show(t) + rest) == Some(Read(t, |Show(t)|))
    decreases t
  {
    hide FormedLeaf, FormedElems, ShowElems, ReadElems, IsGap, ReadTree;
    if t.Leaf? {
      LeafReads(t.token, rest);
    } else {
      var shown := ShowElems(t.braces, t.elems);
      ElemsRead(t.braces, t.elems, rest);
      ElemsBegin(t.braces, t.elems);
      assert (shown + rest)[0] == shown[0];
      BranchReads(t.braces, t.head, t.elems, shown + rest, |shown|);
      assert Show(t) + rest == [Opener(t.braces)] + t.head + (shown + rest);
    }
  }

  lemma BranchStep(s: Text, h: nat, elems: Elems, n: nat)
    requires s != [] && (s[0] == LBRACE || s[0] == LBRACKET)
    requires Skip(s[1..]) == Some(h) && ReadElems(s[0] == LBRACE, s[1..][h..]) == Some(Read(elems, n))
    ensures ReadTree(s) == Some(Read(Branch(s[0] == LBRACE, s[1..][..h], elems), 1 + h + n))
  {
    hide ReadElems, Skip, ReadLeaf;
  }

  lemma BranchReads(braces: bool, head: Text, elems: Elems, rest: Text, n: nat)
    requires IsGap(head) && rest != [] && rest[0] != SLASH && !IsBlank(rest[0])
    requires ReadElems(braces, rest) == Some(Read(elems, n))
    ensures ReadTree([Opener(braces)] + head + rest) == Some(Read(Branch(braces, head, elems), 1 + |head| + n))
  {
    hide IsGap, ReadElems, Skip, ReadLeaf, ReadTree;
    var s := [Opener(braces)] + head + rest;
    var t := head + rest;
    assert s[1..] == t;
    SkipOver(head, rest);
    SkipTokenAt(rest);
    assert t[..|head|] == head && t[|head|..] == rest;
    BranchStep(s, |head|, elems, n);
  }

  lemma {:induction false} ElemsRead(braces: bool, elems: Elems, rest: Text)
    requires FormedElems(braces, elems)
    ensures ReadElems(braces, ShowElems(braces, elems) + rest) == Some(Read(elems, |ShowElems(braces, elems)|))
    decreases elems
  {
    hide ReadElem, FormedElem, ShowElem;
    if elems.More? {
      var elem, shown := elems.elem, ShowElems(braces, elems);
      var after := ShowElems(braces, elems.rest) + rest;
      ElemsBegin(braces, elems);
      ElemsBegin(braces, elems.rest);
      assert shown + rest == ShowElem(elem) + after;
      ElemsRead(braces, elems.rest, rest);
      ElemReads(braces, elem, after);
    }
  }

  lemma {:induction false} ElemReads(braces: bool, elem: Elem, rest: Text)
    requires FormedElem(braces, elem)
    requires rest != [] && rest[0] != SLASH && !IsBlank(rest[0])
    requires elem.tail.Plain? ==> rest[0] == Closer(braces)
    ensures ReadElem(braces, ShowElem(elem) + rest) == Some(Read(elem, |ShowElem(elem)|))
    decreases elem
  {
    hide ReadLead, ReadTree, ReadTail, Formed, FormedLead, FormedTail, Show, ShowLead, ShowTail;
    var after := ShowTail(elem.tail) + rest;
    var value := Show(elem.value);
    TokenStarts(rest);
    TailReads(braces, elem.tail, rest);
    TailEndsNumber(braces, elem.tail, rest);
    TreeReads(elem.value, after);
    TreeBegins(elem.value);
    assert (value + after)[0] == value[0];
    TokenStarts(value + after);
    LeadReads(braces, elem.lead, value + after);
    assert ShowElem(elem) + rest == ShowLead(elem.lead) + (value + after);
  }

  lemma TokenStarts(s: Text)
    requires s != [] && s[0] != SLASH && !IsBlank(s[0])
    ensures StartsToken(s)
  {
  }
}
