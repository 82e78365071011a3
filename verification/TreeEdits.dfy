/** Edits of one element of a bracket, on the concrete syntax. */
module TreeEdits {
  import opened Units
  import opened Values
  import opened Syntax
  import opened Nodes

  function Size(es: Elems): nat {
    match es case End => 0 case More(_, rest) => 1 + Size(rest)
  }

  function ElemAt(es: Elems, i: nat): Elem
    requires i < Size(es)
  {
    if i == 0 then es.elem else ElemAt(es.rest, i - 1)
  }

  /** The text of the first `i` elements, and that of everything after element `i`, its bracket included. */
  function Before(es: Elems, i: nat): Text
    requires i <= Size(es)
  {
    if i == 0 then [] else ShowElem(es.elem) + Before(es.rest, i - 1)
  }

  function After(braces: bool, es: Elems, i: nat): Text
    requires i < Size(es)
  {
    if i == 0 then ShowElems(braces, es.rest) else After(braces, es.rest, i - 1)
  }

  /** `es` with the value of element `i` replaced. */
  function WithValue(es: Elems, i: nat, value: Tree): Elems
    requires i < Size(es)
  {
    if i == 0 then More(es.elem.(value := value), es.rest)
    else More(es.elem, WithValue(es.rest, i - 1, value))
  }

  /** `es` with another element after its last one, whose tail becomes `tail`. */
  function Extended(es: Elems, tail: Tail, added: Elem): Elems
    requires es.More?
  {
    if es.rest.End? then More(es.elem.(tail := tail), More(added, End))
    else More(es.elem, Extended(es.rest, tail, added))
  }

  function LastElem(es: Elems): Elem
    requires es.More?
  {
    if es.rest.End? then es.elem else LastElem(es.rest)
  }

  function Keys(es: Elems): set<Text> {
    match es case End => {} case More(elem, rest) => {KeyOf(elem.lead)} + Keys(rest)
  }

  // ----- Text -----

  lemma {:induction false} SplitAtElem(braces: bool, es: Elems, i: nat)
    requires i < Size(es)
    ensures ShowElems(braces, es) == Before(es, i) + ShowElem(ElemAt(es, i)) + After(braces, es, i)
  {
    hide ShowElem;
    if i > 0 {
      SplitAtElem(braces, es.rest, i - 1);
      Regroup4(ShowElem(es.elem), Before(es.rest, i - 1), ShowElem(ElemAt(es, i)), After(braces, es, i));
    }
  }

  lemma Regroup4(a: Text, b: Text, c: Text, d: Text)
    ensures a + (b + c + d) == a + b + c + d
  {
  }

  lemma {:induction false} WithValueText(braces: bool, es: Elems, i: nat, value: Tree)
    requires i < Size(es)
    ensures var es' := WithValue(es, i, value);
      && Size(es') == Size(es)
      && Before(es', i) == Before(es, i) && After(braces, es', i) == After(braces, es, i)
      && ElemAt(es', i) == ElemAt(es, i).(value := value)
  {
    hide ShowElem;
    if i > 0 {
      WithValueText(braces, es.rest, i - 1, value);
    }
  }

  /** Every other element keeps its exact text when one value is replaced. */
  lemma {:induction false} WithValueKeepsOthers(es: Elems, i: nat, value: Tree, j: nat)
    requires i < Size(es) && j < Size(es) && j != i
    ensures j < Size(WithValue(es, i, value)) && ElemAt(WithValue(es, i, value), j) == ElemAt(es, j)
  {
    if i > 0 && j > 0 {
      WithValueKeepsOthers(es.rest, i - 1, value, j - 1);
    } else if i == 0 {
    } else {
      WithValueText(true, es.rest, i - 1, value);
    }
  }

  /** Every element keeps its exact text, but for the trivia and comma after the last one, when one is added. */
  lemma {:induction false} ExtendedKeepsOthers(es: Elems, tail: Tail, added: Elem, j: nat)
    requires es.More? && j < Size(es)
    ensures var es' := Extended(es, tail, added);
      && Size(es') == Size(es) + 1 && ElemAt(es', Size(es)) == added
      && ElemAt(es', j) == if j == Size(es) - 1 then LastElem(es).(tail := tail) else ElemAt(es, j)
  {
    if es.rest.More? {
      ExtendedKeepsOthers(es.rest, tail, added, if j == 0 then 0 else j - 1);
    }
  }

  lemma {:induction false} LastIsAt(es: Elems)
    requires es.More?
    ensures ElemAt(es, Size(es) - 1) == LastElem(es)
  {
    if es.rest.More? {
      LastIsAt(es.rest);
    }
  }

  /** The text of a bracket whose contents were extended. */
  lemma {:induction false} ExtendedText(braces: bool, es: Elems, tail: Tail, added: Elem)
    requires es.More?
    ensures ShowElems(braces, Extended(es, tail, added)) ==
      Before(es, Size(es) - 1) + ShowElem(LastElem(es).(tail := tail)) + (ShowElem(added) + [Closer(braces)])
  {
    hide ShowElem;
    if es.rest.End? {
      assert ShowElems(braces, More(added, End)) == ShowElem(added) + [Closer(braces)];
    } else {
      ExtendedText(braces, es.rest, tail, added);
      Regroup4(ShowElem(es.elem), Before(es.rest, Size(es.rest) - 1), ShowElem(LastElem(es).(tail := tail)),
        ShowElem(added) + [Closer(braces)]);
    }
  }

  // ----- Offsets -----

  lemma {:induction false} MemberAt(es: Elems, at: nat, i: nat)
    requires i < Size(es)
    ensures |MembersOf(es, at)| == Size(es)
    ensures MembersOf(es, at)[i] == MemberOf(ElemAt(es, i), at + |Before(es, i)|)
  {
    hide ShowElem, MemberOf;
    if i > 0 {
      MemberAt(es.rest, at + |ShowElem(es.elem)|, i - 1);
    } else if es.rest.More? {
      MemberAt(es.rest, at + |ShowElem(es.elem)|, 0);
    }
  }

  lemma {:induction false} CommaAt(es: Elems, at: nat)
    requires es.More?
    ensures CommaOf(es, at) == OwnComma(LastElem(es), at + |Before(es, Size(es) - 1)|)
  {
    hide ShowElem, OwnComma;
    if es.rest.More? {
      CommaAt(es.rest, at + |ShowElem(es.elem)|);
    }
  }

  // ----- Well-formedness -----

  lemma {:induction false} WithValueFormed(braces: bool, es: Elems, i: nat, value: Tree)
    requires FormedElems(braces, es) && i < Size(es) && Formed(value)
    ensures FormedElems(braces, WithValue(es, i, value))
  {
    hide Formed, FormedLead, FormedTail;
    if i > 0 {
      WithValueFormed(braces, es.rest, i - 1, value);
    }
  }

  lemma {:induction false} ElemAtFormed(braces: bool, es: Elems, i: nat)
    requires FormedElems(braces, es) && i < Size(es)
    ensures FormedElem(braces, ElemAt(es, i)) && (ElemAt(es, i).tail.Plain? ==> i == Size(es) - 1)
  {
    hide FormedElem;
    if i > 0 {
      ElemAtFormed(braces, es.rest, i - 1);
    }
  }

  lemma {:induction false} ExtendedFormed(es: Elems, tail: Tail, added: Elem)
    requires FormedElems(true, es) && es.More? && FormedTail(tail) && tail.Comma? && FormedElem(true, added)
    ensures FormedElems(true, Extended(es, tail, added))
  {
    hide Formed, FormedLead, FormedTail;
    if es.rest.More? {
      ExtendedFormed(es.rest, tail, added);
    }
  }

  // ----- Values -----

  lemma {:induction false} FieldsCommute(es: Elems, so_far: Fields, key: Text, value: Value)
    requires key !in Keys(es)
    ensures FieldsOf(es, so_far[key := value]) == FieldsOf(es, so_far)[key := value]
  {
    hide ValueOf, KeyOf;
    if es.More? {
      var k, v := KeyOf(es.elem.lead), ValueOf(es.elem.value);
      assert so_far[key := value][k := v] == so_far[k := v][key := value];
      FieldsCommute(es.rest, so_far[k := v], key, value);
    }
  }

  lemma {:induction false} FieldsKeys(es: Elems, so_far: Fields)
    ensures FieldsOf(es, so_far).Keys == so_far.Keys + Keys(es)
  {
    hide ValueOf, KeyOf;
    if es.More? {
      FieldsKeys(es.rest, so_far[KeyOf(es.elem.lead) := ValueOf(es.elem.value)]);
    }
  }

  /** How often `key` names a member. */
  function Times(es: Elems, key: Text): nat {
    match es
    case End => 0
    case More(elem, rest) => (if KeyOf(elem.lead) == key then 1 else 0) + Times(rest, key)
  }

  lemma {:induction false} TimesIsIn(es: Elems, key: Text)
    ensures Times(es, key) == 0 <==> key !in Keys(es)
  {
    if es.More? {
      TimesIsIn(es.rest, key);
    }
  }

  /** The value a key that appears once names. */
  lemma {:induction false} FieldOnce(es: Elems, i: nat, so_far: Fields)
    requires i < Size(es) && Times(es, KeyOf(ElemAt(es, i).lead)) == 1
    ensures var key := KeyOf(ElemAt(es, i).lead);
      key in FieldsOf(es, so_far) && FieldsOf(es, so_far)[key] == ValueOf(ElemAt(es, i).value)
  {
    hide ValueOf, KeyOf;
    var key := KeyOf(ElemAt(es, i).lead);
    var k, v := KeyOf(es.elem.lead), ValueOf(es.elem.value);
    if i > 0 {
      AtIsIn(es.rest, i - 1);
      TimesIsIn(es.rest, key);
      FieldOnce(es.rest, i - 1, so_far[k := v]);
    } else {
      TimesIsIn(es.rest, key);
      FieldsCommute(es.rest, so_far, key, v);
    }
  }

  lemma {:induction false} AtIsIn(es: Elems, i: nat)
    requires i < Size(es)
    ensures KeyOf(ElemAt(es, i).lead) in Keys(es)
  {
    if i > 0 {
      AtIsIn(es.rest, i - 1);
    }
  }

  /** Replacing the value of a key that appears once is an update of the object. */
  lemma {:induction false} WithValueFields(es: Elems, i: nat, value: Tree, so_far: Fields)
    requires i < Size(es) && Times(es, KeyOf(ElemAt(es, i).lead)) == 1
    ensures FieldsOf(WithValue(es, i, value), so_far)
         == FieldsOf(es, so_far)[KeyOf(ElemAt(es, i).lead) := ValueOf(value)]
  {
    hide ValueOf, KeyOf;
    var key := KeyOf(ElemAt(es, i).lead);
    var k, v := KeyOf(es.elem.lead), ValueOf(es.elem.value);
    TimesIsIn(es.rest, key);
    if i > 0 {
      AtIsIn(es.rest, i - 1);
      WithValueFields(es.rest, i - 1, value, so_far[k := v]);
    } else {
      FieldsCommute(es.rest, so_far, key, v);
      FieldsCommute(es.rest, so_far, key, ValueOf(value));
    }
  }

  /** Adding a member is an update of the object. */
  lemma {:induction false} ExtendedFields(es: Elems, tail: Tail, added: Elem, so_far: Fields)
    requires es.More?
    ensures FieldsOf(Extended(es, tail, added), so_far)
         == FieldsOf(es, so_far)[KeyOf(added.lead) := ValueOf(added.value)]
  {
    hide ValueOf, KeyOf;
    var k, v := KeyOf(es.elem.lead), ValueOf(es.elem.value);
    if es.rest.More? {
      ExtendedFields(es.rest, tail, added, so_far[k := v]);
    } else {
      var more, so := More(added, End), so_far[k := v];
      assert FieldsOf(more, so) == FieldsOf(End, so[KeyOf(added.lead) := ValueOf(added.value)]);
      assert FieldsOf(es.rest, so) == so;
    }
  }
}
