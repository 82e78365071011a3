/** A file system by the paths its entries have once every link is followed, and how the kernel looks a path up in it. */
module FileTree {
  import opened Units

  type Name = Text
  type Path = seq<Name>

  const UP: Name := [DOT, DOT]

  /** Where a link leads: from the root, or from the directory the link is in. `..` may be among its parts. */
  datatype Target = Target(absolute: bool, parts: Path)

  /** What one name stands for. `id` is device and inode: a hard link, or a second mount, shares it. */
  datatype Entry =
    | Directory(id: nat, searchable: bool)
    | File(id: nat)
    | Link(target: Target)

  /** `limit` is how many links the kernel follows in one lookup. */
  datatype System = System(entries: map<Path, Entry>, limit: nat)

  datatype Failure = Absent | NotDirectory | Denied | TooManyLinks

  /** How a lookup ends: at an entry, at a missing last name that could be made, or nowhere; with the links it had left. */
  datatype Outcome =
    | Landed(at: Path, left: nat)
    | Creatable(at: Path, left: nat)
    | Failed(error: Failure)

  function Parent(path: Path): Path {
    if path == [] then [] else path[..|path| - 1]
  }

  function Base(path: Path): Name {
    if path == [] then [] else path[|path| - 1]
  }

  /** Every entry hangs below a directory, under a name that is not `..`. */
  ghost predicate IsTree(fs: System) {
    && [] in fs.entries && fs.entries[[]].Directory?
    && forall p <- fs.entries :: p != [] ==> Base(p) != UP && Parent(p) in fs.entries && fs.entries[Parent(p)].Directory?
  }

  /** One name of a lookup: where it goes on, or how it ends. */
  datatype Move = Stop(end: Outcome) | Go(at: Path, rest: Path, links: nat)

  function Step(fs: System, at: Path, rest: Path, links: nat): (move: Move)
    requires IsTree(fs) && at in fs.entries
    ensures move.Go? ==> move.at in fs.entries && (move.links < links || (move.links == links && |move.rest| < |rest|))
  {
    if rest == [] then Stop(Landed(at, links))
    else if !fs.entries[at].Directory? then Stop(Failed(NotDirectory))
    else if !fs.entries[at].searchable then Stop(Failed(Denied))
    else if rest[0] == UP then Go(Parent(at), rest[1..], links)
    else
      var child := at + [rest[0]];
      if child !in fs.entries then Stop(if |rest| == 1 then Creatable(child, links) else Failed(Absent))
      else if !fs.entries[child].Link? then Go(child, rest[1..], links)
      else if links == 0 then Stop(Failed(TooManyLinks))
      else
        var target := fs.entries[child].target;
        Go(if target.absolute then [] else at, target.parts + rest[1..], links - 1)
  }

  /** The path lookup of POSIX: name by name, a link replaced by its target, `..` taken where the walk has come to. */
  function Walk(fs: System, at: Path, rest: Path, links: nat): (end: Outcome)
    requires IsTree(fs) && at in fs.entries
    ensures end.Landed? ==> end.at in fs.entries
    decreases links, |rest|
  {
    match Step(fs, at, rest, links)
    case Stop(end) => end
    case Go(on, left, spare) => Walk(fs, on, left, spare)
  }

  lemma WalkSteps(fs: System, at: Path, rest: Path, links: nat)
    requires IsTree(fs) && at in fs.entries
    ensures var move := Step(fs, at, rest, links);
      Walk(fs, at, rest, links) == if move.Stop? then move.end else Walk(fs, move.at, move.rest, move.links)
  {
  }

  // ----- What a walk keeps -----

  lemma RootIsReal(fs: System)
    requires IsTree(fs)
    ensures Real(fs, [])
  {
  }

  /** An entry, no link, at the end of directories the kernel may search. */
  ghost predicate Real(fs: System, path: Path) {
    && path in fs.entries && !fs.entries[path].Link?
    && forall n :: 0 <= n < |path| ==>
         path[..n] in fs.entries && fs.entries[path[..n]].Directory? && fs.entries[path[..n]].searchable
  }

  lemma RealChild(fs: System, at: Path, name: Name)
    requires IsTree(fs) && Real(fs, at) && fs.entries[at].Directory? && fs.entries[at].searchable
    requires at + [name] in fs.entries && !fs.entries[at + [name]].Link?
    ensures Real(fs, at + [name])
  {
    var child := at + [name];
    forall n | 0 <= n < |child|
      ensures child[..n] in fs.entries && fs.entries[child[..n]].Directory? && fs.entries[child[..n]].searchable
    {
      assert child[..n] == at[..n];
      assert at[..|at|] == at;
    }
  }

  lemma RealParent(fs: System, at: Path)
    requires IsTree(fs) && Real(fs, at)
    ensures Real(fs, Parent(at))
  {
    if at != [] {
      var up := Parent(at);
      assert forall n :: 0 <= n < |up| ==> up[..n] == at[..n];
    }
  }

  /** A directory the kernel may make an entry in. */
  ghost predicate Open(fs: System, at: Path) {
    Real(fs, at) && fs.entries[at].Directory? && fs.entries[at].searchable
  }

  lemma StepReal(fs: System, at: Path, rest: Path, links: nat)
    requires IsTree(fs) && Real(fs, at)
    ensures var move := Step(fs, at, rest, links);
      && (move.Go? ==> rest != [] && Real(fs, move.at))
      && (move.Stop? && move.end.Landed? ==> move.end == Landed(at, links) && rest == [])
      && (move.Stop? && move.end.Creatable? ==>
            && move.end == Creatable(at + [rest[0]], links) && |rest| == 1
            && rest[0] != UP && at + [rest[0]] !in fs.entries && Open(fs, at))
  {
    if rest != [] && fs.entries[at].Directory? && fs.entries[at].searchable {
      RealParent(fs, at);
      if at + [rest[0]] in fs.entries && !fs.entries[at + [rest[0]]].Link? {
        RealChild(fs, at, rest[0]);
      }
    }
  }

  /** A lookup ends at a real path, or at a missing name in a directory that could hold it. */
  lemma {:induction false} WalkEndsReal(fs: System, at: Path, rest: Path, links: nat)
    requires IsTree(fs) && Real(fs, at)
    ensures var end := Walk(fs, at, rest, links);
      && (end.Landed? ==> Real(fs, end.at) && end.left <= links)
      && (end.Creatable? ==>
            && rest != [] && end.at !in fs.entries && end.at != [] && Open(fs, Parent(end.at))
            && Base(end.at) != UP && end.left <= links)
    decreases links, |rest|
  {
    hide Step, IsTree;
    StepReal(fs, at, rest, links);
    match Step(fs, at, rest, links)
    case Stop(_) =>
    case Go(on, left, spare) => WalkEndsReal(fs, on, left, spare);
  }

  lemma StepOn(fs: System, at: Path, a: Path, b: Path, links: nat)
    requires IsTree(fs) && at in fs.entries && a != [] && b != []
    ensures Step(fs, at, a + b, links) ==
      match Step(fs, at, a, links)
      case Stop(end) => Stop(if end.Creatable? then Failed(Absent) else end)
      case Go(on, left, spare) => Go(on, left + b, spare)
  {
    hide IsTree;
    assert (a + b)[0] == a[0] && (a + b)[1..] == a[1..] + b && |a + b| > 1;
    if at + [a[0]] in fs.entries && fs.entries[at + [a[0]]].Link? {
      Assoc(fs.entries[at + [a[0]]].target.parts, a[1..], b);
    }
  }

  /** Walking `a` and then `b` is walking `b` from where `a` led. */
  lemma {:induction false} WalkOn(fs: System, at: Path, a: Path, b: Path, links: nat)
    requires IsTree(fs) && Real(fs, at) && b != []
    ensures var first := Walk(fs, at, a, links);
      && (first.Landed? ==> first.at in fs.entries)
      && Walk(fs, at, a + b, links) ==
           if first.Landed? then Walk(fs, first.at, b, first.left)
           else if first.Creatable? then Failed(Absent)
           else first
    decreases links, |a|
  {
    hide Step, IsTree;
    StepReal(fs, at, a, links);
    if a == [] {
      assert a + b == b;
      StepAtEnd(fs, at, links);
    } else {
      StepOn(fs, at, a, b, links);
      match Step(fs, at, a, links)
      case Stop(_) =>
      case Go(on, left, spare) => WalkOn(fs, on, left, b, spare);
    }
  }

  lemma StepAtEnd(fs: System, at: Path, links: nat)
    requires IsTree(fs) && at in fs.entries
    ensures Step(fs, at, [], links) == Stop(Landed(at, links))
  {
  }

  function WithMore(end: Outcome, more: nat): Outcome {
    match end
    case Landed(at, left) => Landed(at, left + more)
    case Creatable(at, left) => Creatable(at, left + more)
    case Failed(error) => end
  }

  lemma StepSpare(fs: System, at: Path, rest: Path, links: nat, more: nat)
    requires IsTree(fs) && at in fs.entries
    requires Step(fs, at, rest, links) != Stop(Failed(TooManyLinks))
    ensures Step(fs, at, rest, links + more) ==
      match Step(fs, at, rest, links)
      case Stop(end) => Stop(WithMore(end, more))
      case Go(on, left, spare) => Go(on, left, spare + more)
  {
    hide IsTree;
    if rest != [] && at + [rest[0]] in fs.entries && fs.entries[at + [rest[0]]].Link? {
    } else {
    }
  }

  /** With more links to spend, a lookup that had enough ends the same way. */
  lemma {:induction false} WalkSpare(fs: System, at: Path, rest: Path, links: nat, more: nat)
    requires IsTree(fs) && at in fs.entries
    requires Walk(fs, at, rest, links) != Failed(TooManyLinks)
    ensures Walk(fs, at, rest, links + more) == WithMore(Walk(fs, at, rest, links), more)
    decreases links, |rest|
  {
    hide Step, IsTree, WithMore;
    StepSpare(fs, at, rest, links, more);
    match Step(fs, at, rest, links)
    case Stop(_) =>
    case Go(on, left, spare) => WalkSpare(fs, on, left, spare, more);
  }

  lemma StepDown(fs: System, at: Path, name: Name, rest: Path, links: nat)
    requires IsTree(fs) && Open(fs, at) && at + [name] in fs.entries && !fs.entries[at + [name]].Link?
    ensures Step(fs, at, [name] + rest, links) == Go(at + [name], rest, links)
  {
    assert Base(at + [name]) == name;
  }

  /** A real path leads to itself and follows no link. */
  lemma {:induction false} WalkReal(fs: System, path: Path, n: nat, links: nat)
    requires IsTree(fs) && Real(fs, path) && n <= |path|
    ensures path[..n] in fs.entries && Walk(fs, path[..n], path[n..], links) == Landed(path, links)
    decreases |path| - n
  {
    hide Step, IsTree;
    RealAbove(fs, path, n);
    if n == |path| {
      assert path[..n] == path;
      StepAtEnd(fs, path, links);
    } else {
      RealAbove(fs, path, n + 1);
      assert path[..n] + [path[n]] == path[..n + 1];
      assert [path[n]] + path[n + 1..] == path[n..];
      StepDown(fs, path[..n], path[n], path[n + 1..], links);
      WalkReal(fs, path, n + 1, links);
    }
  }

  lemma RealAbove(fs: System, path: Path, n: nat)
    requires Real(fs, path) && n <= |path|
    ensures Real(fs, path[..n])
    ensures n < |path| ==> Open(fs, path[..n])
  {
    assert forall m :: 0 <= m < n ==> path[..n][..m] == path[..m];
    if n == |path| {
      assert path[..n] == path;
    }
  }

  // ----- realpath -----

  datatype Answer = Resolved(at: Path) | Unresolved(error: Failure)

  /** `realpath`: where `path` leads when it leads to an entry. */
  function RealPath(fs: System, path: Path): (answer: Answer)
    requires IsTree(fs)
    ensures answer.Resolved? ==> answer.at in fs.entries
  {
    match Walk(fs, [], path, fs.limit)
    case Landed(at, _) => Resolved(at)
    case Creatable(_, _) => Unresolved(Absent)
    case Failed(error) => Unresolved(error)
  }

  /** A part of a path resolves only if every part above it does. */
  lemma ResolvesAbove(fs: System, path: Path, n: nat, m: nat)
    requires IsTree(fs) && n <= m <= |path| && RealPath(fs, path[..m]).Resolved?
    ensures RealPath(fs, path[..n]).Resolved?
  {
    if n < m {
      assert path[..m] == path[..n] + path[n..m];
      WalkOn(fs, [], path[..n], path[n..m], fs.limit);
    }
  }

  /** What realpath answers, it answers for itself. */
  lemma RealPathIsReal(fs: System, path: Path)
    requires IsTree(fs) && RealPath(fs, path).Resolved?
    ensures var at := RealPath(fs, path).at; Real(fs, at) && RealPath(fs, at) == Resolved(at)
  {
    WalkEndsReal(fs, [], path, fs.limit);
    var at := RealPath(fs, path).at;
    WalkReal(fs, at, 0, fs.limit);
    assert at[..0] == [] && at[0..] == at;
  }
}
