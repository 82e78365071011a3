/** Names added to a list that may have some of them. */
module Unions {
  import opened Units

  /** Those of `names` that are not listed, in their order. */
  function Missing(names: seq<Text>, listed: seq<Text>): seq<Text> {
    if names == [] then []
    else (if names[0] in listed then [] else [names[0]]) + Missing(names[1..], listed)
  }

  lemma {:induction false} MissingAre(names: seq<Text>, listed: seq<Text>)
    ensures forall name <- Missing(names, listed) :: name in names && name !in listed
    ensures forall name <- names :: name in listed || name in Missing(names, listed)
  {
    if names != [] {
      MissingAre(names[1..], listed);
      assert names == [names[0]] + names[1..];
    }
  }

  /** One name after another, each as it stands, and as often. */
  lemma {:induction false} MissingOn(a: seq<Text>, b: seq<Text>, listed: seq<Text>)
    ensures Missing(a + b, listed) == Missing(a, listed) + Missing(b, listed)
    ensures forall name :: Missing([name], listed) == if name in listed then [] else [name]
  {
    if a == [] {
      assert a + b == b;
    } else {
      assert (a + b)[1..] == a[1..] + b;
      MissingOn(a[1..], b, listed);
    }
    forall name ensures Missing([name], listed) == if name in listed then [] else [name] {
      var one: seq<Text> := [name];
      assert one[1..] == [];
    }
  }

  lemma {:induction false} NoneMissing(names: seq<Text>, listed: seq<Text>)
    requires forall name <- names :: name in listed
    ensures Missing(names, listed) == []
  {
    if names != [] {
      assert names[0] in names;
      NoneMissing(names[1..], listed);
    }
  }
}
