/** Where a path leads, found by halving and a few remembered answers, and every spelling a chain of links passes. */
module Spellings {
  import opened Units
  import opened FileTree

  /** More links than a kernel follows in one lookup. */
  const MAX_LINKS: nat := 40

  // ----- Node's path arithmetic -----

  /** `resolve`: each `..` takes the name before it away. */
  function Normal(path: Path): Path {
    if path == [] then []
    else if Base(path) == UP then Parent(Normal(Parent(path)))
    else Normal(Parent(path)) + [Base(path)]
  }

  function Shared(a: Path, b: Path): (n: nat)
    ensures n <= |a| && n <= |b|
  {
    if a == [] || b == [] || a[0] != b[0] then 0 else 1 + Shared(a[1..], b[1..])
  }

  function Relative(start: Path, end: Path): Path {
    var a, b := Normal(start), Normal(end);
    seq(|a| - Shared(a, b), _ => UP) + b[Shared(a, b)..]
  }

  function Join(at: Path, rest: Path): Path {
    Normal(at + rest)
  }

  lemma {:induction false} SharedSelf(a: Path, b: Path)
    ensures Shared(a, a + b) == |a|
  {
    if a != [] {
      assert (a + b)[1..] == a[1..] + b;
      SharedSelf(a[1..], b);
    }
  }

  lemma NormalOn(path: Path, name: Name)
    requires name != UP
    ensures Normal(path + [name]) == Normal(path) + [name]
  {
    assert Parent(path + [name]) == path && Base(path + [name]) == name;
  }

  /** Normalising the start of a path first changes nothing. */
  lemma {:induction false} NormalFirst(a: Path, b: Path)
    ensures Normal(a + b) == Normal(Normal(a) + b)
    decreases |b|
  {
    if b == [] {
      assert a + b == a && Normal(a) + b == Normal(a);
      NormalTwice(a);
    } else {
      NormalFirst(a, Parent(b));
      assert Parent(a + b) == a + Parent(b) && Base(a + b) == Base(b);
      assert Parent(Normal(a) + b) == Normal(a) + Parent(b) && Base(Normal(a) + b) == Base(b);
    }
  }

  lemma {:induction false} NormalTwice(path: Path)
    ensures Normal(Normal(path)) == Normal(path) && UP !in Normal(path)
    decreases |path|
  {
    if path != [] {
      NormalTwice(Parent(path));
      var front := Normal(Parent(path));
      if Base(path) != UP {
        NormalOn(front, Base(path));
      } else if front != [] {
        assert front == Parent(front) + [Base(front)];
        NormalOn(Parent(front), Base(front));
      }
    }
  }

  /** Each `..` takes away the name before it, nothing is above the root, and a path without any stays as it is: nothing else is normal. */
  lemma NormalIs(a: Path, name: Name, b: Path)
    requires name != [46, 46]
    ensures Normal(a + [name, [46, 46]] + b) == Normal(a + b)
    ensures Normal([[46, 46]] + b) == Normal(b)
    ensures [46, 46] !in a ==> Normal(a) == a
  {
    NormalFirst(a + [name, UP], b);
    NormalFirst(a, b);
    assert Parent(a + [name, UP]) == a + [name] && Base(a + [name, UP]) == UP;
    NormalOn(a, name);
    NormalFirst([UP], b);
    assert Parent([UP]) == [] && [] + b == b;
    if UP !in a {
      NormalPlain(a);
    }
  }

  /** One name below a path is that name, relative to it. */
  lemma RelativeBelow(path: Path, name: Name)
    requires name != UP
    ensures Relative(path, path + [name]) == [name]
  {
    NormalOn(path, name);
    SharedSelf(Normal(path), [name]);
  }

  lemma RealName(fs: System, at: Path, n: nat)
    requires IsTree(fs) && Real(fs, at) && n < |at|
    ensures at[n] != UP
  {
    RealAbove(fs, at, n + 1);
    assert Base(at[..n + 1]) == at[n];
  }

  lemma {:induction false} NormalReal(fs: System, at: Path, n: nat)
    requires IsTree(fs) && Real(fs, at) && n <= |at|
    ensures Normal(at[..n]) == at[..n]
  {
    hide IsTree, Real;
    if n > 0 {
      RealName(fs, at, n - 1);
      NormalReal(fs, at, n - 1);
      NormalOn(at[..n - 1], at[n - 1]);
      assert at[..n - 1] + [at[n - 1]] == at[..n];
    }
  }

  lemma JoinReal(fs: System, at: Path, name: Name)
    requires IsTree(fs) && Real(fs, at) && name != UP
    ensures Join(at, [name]) == at + [name]
  {
    NormalReal(fs, at, |at|);
    assert at[..|at|] == at;
    NormalOn(at, name);
  }

  // ----- The simple form: climb until a part resolves -----

  function Deepest(fs: System, path: Path, n: nat): (m: nat)
    requires IsTree(fs) && n <= |path|
    ensures m <= n && RealPath(fs, path[..m]).Resolved?
    ensures forall k :: m < k <= n ==> RealPath(fs, path[..k]).Unresolved?
  {
    if n == 0 || RealPath(fs, path[..n]).Resolved? then n else Deepest(fs, path, n - 1)
  }

  /** `lstat` and `readlink`: the target of the link `path` names, followed up to its last name only. */
  function LinkAt(fs: System, path: Path): Option<Target>
    requires IsTree(fs)
  {
    match RealPath(fs, Parent(path))
    case Unresolved(_) => None
    case Resolved(folder) =>
      if path != [] && folder + [Base(path)] in fs.entries && fs.entries[folder + [Base(path)]].Link?
        && fs.entries[folder].Directory? && fs.entries[folder].searchable
      then Some(fs.entries[folder + [Base(path)]].target)
      else None
  }

  function Onto(parent: Path, target: Target): Path {
    if target.absolute then target.parts else parent + target.parts
  }

  /** `at`: the deepest part that exists, its links followed, and the rest as written. `next`: where a link in the way leads on. */
  datatype Spelling = Spelling(at: Path, next: Option<Path>)

  function Spelled(fs: System, path: Path): Spelling
    requires IsTree(fs)
  {
    var n := Deepest(fs, path, |path|);
    var parent := RealPath(fs, path[..n]).at;
    if n == |path| then Spelling(parent, None)
    else
      Spelling(
        Join(parent, Relative(path[..n], path)),
        match LinkAt(fs, Join(parent, [path[n]]))
        case None => None
        case Some(target) => Some(Onto(parent, target) + path[n + 1..]))
  }

  // ----- How a link leads on -----

  /** The links a lookup has left where a path that resolves has led it. */
  function Left(fs: System, path: Path): (left: nat)
    requires IsTree(fs) && RealPath(fs, path).Resolved?
    ensures left <= fs.limit
  {
    WalkEndsReal(fs, [], path, fs.limit);
    Walk(fs, [], path, fs.limit).left
  }

  /** Beyond a part that resolves, a lookup goes on from where that part leads. */
  lemma Beyond(fs: System, path: Path, rest: Path)
    requires IsTree(fs) && RealPath(fs, path).Resolved? && rest != []
    ensures var at := RealPath(fs, path).at;
      Real(fs, at) && Walk(fs, [], path + rest, fs.limit) == Walk(fs, at, rest, Left(fs, path))
  {
    hide Step, Real;
    RealPathIsReal(fs, path);
    RootIsReal(fs);
    WalkOn(fs, [], path, rest, fs.limit);
  }

  /** What `lstat` says of a name in a real directory. */
  lemma LinkHere(fs: System, folder: Path, name: Name)
    requires IsTree(fs) && Real(fs, folder) && name != UP
    ensures LinkAt(fs, Join(folder, [name])) ==
      if folder + [name] in fs.entries && fs.entries[folder + [name]].Link? && Open(fs, folder)
      then Some(fs.entries[folder + [name]].target) else None
  {
    JoinReal(fs, folder, name);
    WalkReal(fs, folder, 0, fs.limit);
    assert folder[..0] == [] && folder[0..] == folder;
    assert Parent(folder + [name]) == folder && Base(folder + [name]) == name;
  }

  lemma StepThrough(fs: System, folder: Path, name: Name, rest: Path, links: nat)
    requires IsTree(fs) && Open(fs, folder) && name != UP
    requires folder + [name] in fs.entries && fs.entries[folder + [name]].Link?
    ensures var target := fs.entries[folder + [name]].target;
      Step(fs, folder, [name] + rest, links) ==
        if links == 0 then Stop(Failed(TooManyLinks))
        else Go(if target.absolute then [] else folder, target.parts + rest, links - 1)
  {
    assert ([name] + rest)[0] == name && ([name] + rest)[1..] == rest;
  }

  /** A lookup of a link goes on from its target, with one link fewer to spend. */
  lemma ThroughLink(fs: System, folder: Path, name: Name, rest: Path, links: nat)
    requires IsTree(fs) && Open(fs, folder) && name != UP
    requires folder + [name] in fs.entries && fs.entries[folder + [name]].Link?
    requires Walk(fs, folder, [name] + rest, links) != Failed(TooManyLinks)
    ensures links > 0
    ensures var target := fs.entries[folder + [name]].target; var start := if target.absolute then [] else folder;
      && start in fs.entries
      && Walk(fs, folder, [name] + rest, links) == Walk(fs, start, target.parts + rest, links - 1)
  {
    hide Step;
    StepThrough(fs, folder, name, rest, links);
    RootIsReal(fs);
    WalkSteps(fs, folder, [name] + rest, links);
  }

  /** And so does a lookup of the target put in its place, with every link still to spend. */
  lemma OntoTarget(fs: System, folder: Path, target: Target, rest: Path, links: nat)
    requires IsTree(fs) && Real(fs, folder) && links <= fs.limit
    ensures var start := if target.absolute then [] else folder;
      var end := Walk(fs, start, target.parts + rest, links);
      && start in fs.entries
      && (end != Failed(TooManyLinks) ==>
            Walk(fs, [], Onto(folder, target) + rest, fs.limit) == WithMore(end, fs.limit - links))
  {
    hide Step;
    var start := if target.absolute then [] else folder;
    if Walk(fs, start, target.parts + rest, links) != Failed(TooManyLinks) {
      WalkSpare(fs, start, target.parts + rest, links, fs.limit - links);
      if !target.absolute {
        FromFolder(fs, folder, target.parts + rest, fs.limit);
        Assoc(folder, target.parts, rest);
      }
    }
  }

  /** A lookup from the root through a real directory is one from there, and spends no link on the way. */
  lemma FromFolder(fs: System, folder: Path, rest: Path, links: nat)
    requires IsTree(fs) && Real(fs, folder)
    ensures Walk(fs, [], folder + rest, links) == Walk(fs, folder, rest, links)
  {
    hide Step;
    RootIsReal(fs);
    WalkReal(fs, folder, 0, links);
    assert folder[..0] == [] && folder[0..] == folder;
    if rest == [] {
      assert folder + rest == folder;
      StepAtEnd(fs, folder, links);
      WalkSteps(fs, folder, [], links);
    } else {
      WalkOn(fs, [], folder, rest, links);
    }
  }

  lemma OneName(fs: System, at: Path, name: Name, links: nat)
    requires IsTree(fs) && Open(fs, at)
    requires name == UP || (at + [name] in fs.entries && !fs.entries[at + [name]].Link?)
    ensures Walk(fs, at, [name], links).Landed?
  {
    StepAtEnd(fs, if name == UP then Parent(at) else at + [name], links);
  }

  /** The first part that does not resolve: a missing name, a link, or no name the kernel could look for there. */
  lemma Unresolving(fs: System, path: Path, name: Name)
    requires IsTree(fs) && RealPath(fs, path).Resolved? && RealPath(fs, path + [name]).Unresolved?
    requires Open(fs, RealPath(fs, path).at)
    ensures name != UP
    ensures var child := RealPath(fs, path).at + [name]; child in fs.entries ==> fs.entries[child].Link?
  {
    Beyond(fs, path, [name]);
    var at := RealPath(fs, path).at;
    if name == UP || (at + [name] in fs.entries && !fs.entries[at + [name]].Link?) {
      OneName(fs, at, name, Left(fs, path));
    }
  }

  lemma NoWay(fs: System, at: Path, rest: Path, links: nat)
    requires IsTree(fs) && Real(fs, at) && rest != [] && !Open(fs, at)
    ensures Walk(fs, at, rest, links).Failed?
  {
  }

  /** Where a name could be made, the spelling says so, or leads on to where the kernel looks, with more links to spend. */
  lemma CreatableStep(fs: System, path: Path)
    requires IsTree(fs) && Walk(fs, [], path, fs.limit).Creatable?
    ensures var end := Walk(fs, [], path, fs.limit); var step := Spelled(fs, path);
      && (step.next.None? ==> step.at == end.at)
      && (step.next.Some? ==>
            var on := Walk(fs, [], step.next.value, fs.limit); on.Creatable? && on.at == end.at && on.left > end.left)
  {
    hide Step, Walk, RealPath, IsTree, Join, Relative, LinkAt, Open, Onto, Left, WithMore;
    CreatableFails(fs, path);
    var n := Deepest(fs, path, |path|);
    var name, rest := path[n], path[n + 1..];
    assert path[..n + 1] == path[..n] + [name];
    assert path == path[..n] + ([name] + rest);
    var parent, left := RealPath(fs, path[..n]).at, Left(fs, path[..n]);
    Beyond(fs, path[..n], [name] + rest);
    if !Open(fs, parent) {
      NoWay(fs, parent, [name] + rest, left);
    }
    Unresolving(fs, path[..n], name);
    LinkHere(fs, parent, name);
    if parent + [name] in fs.entries {
      ThroughLink(fs, parent, name, rest, left);
      OntoTarget(fs, parent, fs.entries[parent + [name]].target, rest, left - 1);
      MoreLeft(fs, parent, name, rest, left);
    } else {
      LastMade(fs, parent, name, rest, left);
      JoinReal(fs, parent, name);
      assert path == path[..n] + [name];
      RelativeBelow(path[..n], name);
    }
  }

  lemma CreatableFails(fs: System, path: Path)
    requires IsTree(fs) && Walk(fs, [], path, fs.limit).Creatable?
    ensures Deepest(fs, path, |path|) < |path|
  {
    assert path[..|path|] == path;
  }

  lemma MoreLeft(fs: System, parent: Path, name: Name, rest: Path, left: nat)
    requires IsTree(fs) && Open(fs, parent) && left > 0 && left <= fs.limit
    requires parent + [name] in fs.entries && fs.entries[parent + [name]].Link?
    requires var target := fs.entries[parent + [name]].target; var start := if target.absolute then [] else parent;
      var end := Walk(fs, start, target.parts + rest, left - 1);
      end.Creatable? && Walk(fs, [], Onto(parent, target) + rest, fs.limit) == WithMore(end, fs.limit - (left - 1))
    ensures var target := fs.entries[parent + [name]].target; var start := if target.absolute then [] else parent;
      var on, end := Walk(fs, [], Onto(parent, target) + rest, fs.limit), Walk(fs, start, target.parts + rest, left - 1);
      on.Creatable? && on.at == end.at && on.left > end.left
  {
    hide Walk, Onto, IsTree;
  }

  lemma LastMade(fs: System, at: Path, name: Name, rest: Path, links: nat)
    requires IsTree(fs) && Open(fs, at) && name != UP && at + [name] !in fs.entries
    requires Walk(fs, at, [name] + rest, links).Creatable?
    ensures rest == [] && Walk(fs, at, [name] + rest, links).at == at + [name]
  {
  }

  // ----- Remembered lookups -----

  /** How often a gap is halved before it is one. */
  function Halvings(gap: nat): nat {
    if gap <= 1 then 0 else 1 + Halvings((gap + 1) / 2)
  }

  lemma {:induction false} HalvingsGrow(a: nat, b: nat)
    requires a <= b
    ensures Halvings(a) <= Halvings(b)
  {
    if a > 1 {
      HalvingsGrow((a + 1) / 2, (b + 1) / 2);
    }
  }

  function Doubled(n: nat): nat {
    if n == 0 then 1 else 2 * Doubled(n - 1)
  }

  /** As often as it takes until doubling one that often is no less than the gap. */
  lemma {:induction false} HalvingsAre(gap: nat)
    ensures gap <= Doubled(Halvings(gap)) && (gap > 1 ==> Halvings(gap) > 0 && Doubled(Halvings(gap) - 1) < gap)
  {
    if gap > 1 {
      HalvingsAre((gap + 1) / 2);
    }
  }

  /** Either side of the middle takes one halving fewer. */
  lemma Halved(gap: nat, part: nat)
    requires gap > 1 && part == gap / 2
    ensures Halvings(part) < Halvings(gap) && Halvings(gap - part) < Halvings(gap)
  {
    HalvingsGrow(part, (gap + 1) / 2);
  }

  /** The answers `realpath` has given, each asked once, and how many were asked. */
  class Lookups {
    const fs: System
    var answers: map<Path, Answer>
    ghost var asked: nat

    /** An answer remembered is the one the file system gives. */
    ghost predicate Valid()
      reads this
    {
      IsTree(fs) && forall path <- answers :: answers[path] == RealPath(fs, path)
    }

    constructor (fs: System)
      requires IsTree(fs)
      ensures Valid() && this.fs == fs && asked == 0
    {
      this.fs := fs;
      answers := map[];
      asked := 0;
    }

    method Ask(path: Path) returns (answer: Answer)
      requires Valid()
      modifies this
      ensures Valid() && answer == RealPath(fs, path)
      ensures answers == old(answers)[path := answer]
      ensures asked == old(asked) + if path in old(answers) then 0 else 1
    {
      if path in answers {
        answer := answers[path];
      } else {
        answer := RealPath(fs, path);
        asked := asked + 1;
      }
      answers := answers[path := answer];
    }
  }

  /** A path below one that fails, fails alike. */
  lemma FailsBelow(fs: System, path: Path, rest: Path)
    requires IsTree(fs) && RealPath(fs, path).Unresolved?
    ensures RealPath(fs, path + rest) == RealPath(fs, path)
  {
    hide Step, Walk;
    RootIsReal(fs);
    if rest == [] {
      assert path + rest == path;
    } else {
      WalkOn(fs, [], path, rest, fs.limit);
    }
  }

  /** The target of a link to nothing is nothing either, for the same reason. */
  lemma TargetMissing(fs: System, path: Path, name: Name)
    requires IsTree(fs) && RealPath(fs, path).Resolved? && RealPath(fs, path + [name]).Unresolved?
    requires RealPath(fs, path + [name]).error != TooManyLinks
    requires LinkAt(fs, Join(RealPath(fs, path).at, [name])).Some?
    ensures var at := RealPath(fs, path).at; var target := LinkAt(fs, Join(at, [name])).value;
      RealPath(fs, Onto(at, target)) == RealPath(fs, path + [name])
  {
    hide Step, IsTree, Join, LinkAt, Onto, Left, Walk, Open;
    var at, left := RealPath(fs, path).at, Left(fs, path);
    Beyond(fs, path, [name]);
    assert [name] == [name] + [];
    if !Open(fs, at) {
      NotLink(fs, at, name);
    }
    Unresolving(fs, path, name);
    LinkHere(fs, at, name);
    var target := fs.entries[at + [name]].target;
    ThroughLink(fs, at, name, [], left);
    OntoTarget(fs, at, target, [], left - 1);
    assert Onto(at, target) + [] == Onto(at, target);
  }

  /** Where no name can be looked for, or only `..`, `lstat` finds no link. */
  lemma NotLink(fs: System, at: Path, name: Name)
    requires IsTree(fs) && Real(fs, at) && (!Open(fs, at) || name == UP)
    ensures LinkAt(fs, Join(at, [name])).None?
  {
    if name == UP {
      assert Parent(at + [name]) == at && Base(at + [name]) == name;
      NormalReal(fs, at, |at|);
      assert at[..|at|] == at;
      if at != [] && Parent(at) != [] {
        RealParent(fs, at);
        RealParent(fs, Parent(at));
        FromFolder(fs, Parent(Parent(at)), [], fs.limit);
        StepAtEnd(fs, Parent(Parent(at)), fs.limit);
        assert Parent(Parent(at)) + [] == Parent(Parent(at));
        assert Parent(Parent(at)) + [Base(Parent(at))] == Parent(at);
      }
    } else {
      LinkHere(fs, at, name);
    }
  }

  // ----- The fast form -----

  /**
   * The same spelling, its deepest part found by halving, with each lookup remembered in `resolved`
   * and the failures a failing link's target is known to share written into it.
   */
  method RealSpelling(path: Path, resolved: Lookups) returns (spelling: Spelling)
    requires resolved.Valid()
    modifies resolved
    ensures resolved.Valid() && spelling == Spelled(resolved.fs, path)
    ensures resolved.asked <= old(resolved.asked) + Halvings(|path| + 1) + 2
  {
    hide Join, Relative, LinkAt, RealPath, IsTree, Onto, Halvings, Deepest;
    var fs := resolved.fs;
    var whole := resolved.Ask(path);
    WholePath(fs, path);
    if whole.Resolved? {
      return Spelling(whole.at, None);
    }
    var at, parent := path, None;
    var resolves, fails: int := -1, |path|;
    while fails - resolves > 1
      invariant resolved.Valid() && resolved.fs == fs
      invariant -1 <= resolves < fails <= |path|
      invariant resolves == -1 <==> parent.None?
      invariant resolves >= 0 ==> RealPath(fs, path[..resolves]) == Resolved(parent.value)
      invariant resolves >= 0 ==> at == Join(parent.value, Relative(path[..resolves], path))
      invariant path[..fails] in resolved.answers && RealPath(fs, path[..fails]).Unresolved?
      invariant resolved.asked + Halvings(fails - resolves) <= old(resolved.asked) + 1 + Halvings(|path| + 1)
      decreases fails - resolves
    {
      var middle := (resolves + fails) / 2;
      assert middle - resolves == (fails - resolves) / 2;
      Halved(fails - resolves, middle - resolves);
      var probe := path[..middle];
      var actual := resolved.Ask(probe);
      if actual.Unresolved? {
        fails := middle;
      } else {
        resolves, at, parent := middle, Join(actual.at, Relative(probe, path)), Some(actual.at);
      }
    }
    RootResolves(fs);
    assert path[..0] == [];
    if parent.None? {
      return Spelling(at, None);
    }
    DeepestIs(fs, path, resolves);
    var name := path[resolves];
    assert path[..fails] == path[..resolves] + [name];
    var target := LinkAt(fs, Join(parent.value, [name]));
    if target.None? {
      return Spelling(at, None);
    }
    var joined := Onto(parent.value, target.value);
    var next := joined + path[fails..];
    var failure := resolved.Ask(path[..fails]);
    var onward := failure;
    if failure.error == Absent || failure.error == NotDirectory {
      TargetMissing(fs, path[..resolves], name);
    } else {
      onward := resolved.Ask(joined);
    }
    if onward.Unresolved? {
      Remember(resolved, joined, path[fails..], onward);
    }
    return Spelling(at, Some(next));
  }

  /** `onward` is how `joined` fails, so it is written down for every part of the next spelling from there on. */
  method Remember(resolved: Lookups, joined: Path, rest: Path, onward: Answer)
    requires resolved.Valid() && RealPath(resolved.fs, joined) == onward && onward.Unresolved?
    modifies resolved
    ensures resolved.Valid() && resolved.asked == old(resolved.asked)
    ensures forall path :: path in resolved.answers <==>
      path in old(resolved.answers) || (joined <= path <= joined + rest)
  {
    hide RealPath, IsTree;
    var through := joined + rest;
    while |through| >= |joined|
      invariant resolved.Valid() && resolved.asked == old(resolved.asked)
      invariant |joined| - 1 <= |through| && (|through| >= |joined| ==> joined <= through)
      invariant through <= joined + rest
      invariant forall path :: path in resolved.answers <==>
        path in old(resolved.answers) || (joined <= path <= joined + rest && |path| > |through|)
      decreases |through|
    {
      assert forall path: Path :: path <= joined + rest && |path| == |through| ==> path == through;
      FailsBelow(resolved.fs, joined, through[|joined|..]);
      assert joined + through[|joined|..] == through;
      resolved.answers := resolved.answers[through := onward];
      if through == [] {
        break;
      }
      through := Parent(through);
    }
  }

  lemma WholePath(fs: System, path: Path)
    requires IsTree(fs)
    ensures path[..|path|] == path
    ensures RealPath(fs, path).Resolved? ==> Deepest(fs, path, |path|) == |path|
  {
    assert path[..|path|] == path;
  }

  lemma RootResolves(fs: System)
    requires IsTree(fs)
    ensures RealPath(fs, []).Resolved?
  {
  }

  lemma DeepestIs(fs: System, path: Path, n: nat)
    requires IsTree(fs) && n < |path|
    requires RealPath(fs, path[..n]).Resolved? && RealPath(fs, path[..n + 1]).Unresolved?
    ensures Deepest(fs, path, |path|) == n
  {
    var m := Deepest(fs, path, |path|);
    if m > n {
      ResolvesAbove(fs, path, n + 1, m);
    }
  }

  // ----- Paths without `..` -----

  lemma {:induction false} NormalPlain(path: Path)
    requires UP !in path
    ensures Normal(path) == path
  {
    if path != [] {
      NormalPlain(Parent(path));
      assert Parent(path) + [Base(path)] == path;
    }
  }

  lemma RelativePlain(path: Path, n: nat)
    requires UP !in path && n <= |path|
    ensures Relative(path[..n], path) == path[n..]
  {
    NormalPlain(path);
    NormalPlain(path[..n]);
    assert path[..n] + path[n..] == path;
    SharedSelf(path[..n], path[n..]);
  }

  lemma {:induction false} RealHasNoUp(fs: System, at: Path)
    requires IsTree(fs) && Real(fs, at)
    ensures UP !in at
  {
    forall i | 0 <= i < |at| ensures at[i] != UP {
      RealName(fs, at, i);
    }
  }

  /** Of a path without `..`, the spelling is the deepest part's place and the rest as written. */
  lemma SpelledPlain(fs: System, path: Path)
    requires IsTree(fs) && UP !in path
    ensures var n := Deepest(fs, path, |path|); Spelled(fs, path).at == RealPath(fs, path[..n]).at + path[n..]
  {
    hide Walk, RealPath, IsTree, Relative, LinkAt;
    var n := Deepest(fs, path, |path|);
    var parent := RealPath(fs, path[..n]).at;
    RealPathIsReal(fs, path[..n]);
    RealHasNoUp(fs, parent);
    RelativePlain(path, n);
    NormalPlain(parent + path[n..]);
    if n == |path| {
      assert parent + path[n..] == parent;
    }
  }
}
