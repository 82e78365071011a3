/** The parse result: values with the source offsets an edit in place needs. */
module Nodes {
  import opened Units
  import opened Trivia
  import opened Values
  import opened Syntax

  datatype Node = Node(start: nat, end: nat, value: Value, members: Option<seq<Member>>, trailingComma: Option<nat>)

  datatype Member = Member(key: Text, keyStart: nat, value: Node)

  /** The node of a tree whose text starts at offset `at`. */
  function NodeOf(t: Tree, at: nat): (n: Node)
    ensures n.start == at && n.end == at + |Show(t)| && n.value == ValueOf(t)
    decreases t
  {
    if t.Branch? && t.braces then
      var inside := at + 1 + |t.head|;
      Node(at, at + |Show(t)|, ValueOf(t), Some(MembersOf(t.elems, inside)), CommaOf(t.elems, inside))
    else
      Node(at, at + |Show(t)|, ValueOf(t), None, None)
  }

  /** The member written by `elem`, whose key starts at offset `at`. */
  function MemberOf(elem: Elem, at: nat): (m: Member)
    decreases elem
  {
    Member(KeyOf(elem.lead), at, NodeOf(elem.value, at + |ShowLead(elem.lead)|))
  }

  /** Every member in source order, duplicates kept; the first one's key starts at offset `at`. */
  function MembersOf(elems: Elems, at: nat): seq<Member>
    decreases elems
  {
    match elems
    case End => []
    case More(elem, rest) => [MemberOf(elem, at)] + MembersOf(rest, at + |ShowElem(elem)|)
  }

  /** The offset of the comma after `elem`, which starts at offset `at`. */
  function OwnComma(elem: Elem, at: nat): Option<nat> {
    if elem.tail.Comma? then Some(at + |ShowLead(elem.lead)| + |Show(elem.value)| + |elem.tail.before|) else None
  }

  /** The offset of a comma after the last member, if there is one. */
  function CommaOf(elems: Elems, at: nat): Option<nat> {
    match elems
    case End => None
    case More(elem, rest) => if rest.End? then OwnComma(elem, at) else CommaOf(rest, at + |ShowElem(elem)|)
  }

  /** A whole file: where its value starts, and the value's tree. */
  datatype Document = Document(start: nat, tree: Tree)

  /** Skipping from offset `at`: a byte order mark counts as a blank, but only at the very start. */
  function SkipFrom(text: Text, at: nat): (to: Option<nat>)
    requires at <= |text|
    ensures to.Some? ==> at <= to.value <= |text|
  {
    if at == 0 && text != [] && text[0] == BOM then Add(1, Skip(text[1..]))
    else Add(at, Skip(text[at..]))
  }

  function ReadDocument(text: Text): (d: Option<Document>)
    ensures d.Some? ==> d.value.start <= |text|
  {
    match SkipFrom(text, 0)
    case None => None
    case Some(start) =>
      match ReadTree(text[start..])
      case None => None
      case Some(Read(tree, n)) =>
        if Skip(text[start + n..]) == Some((|text| - start - n) as nat) then Some(Document(start, tree)) else None
  }

  /** What `parseJsonc` returns; None when it throws. */
  function ParseSpec(text: Text): Option<Node> {
    match ReadDocument(text)
    case None => None
    case Some(d) => Some(NodeOf(d.tree, d.start))
  }
}
