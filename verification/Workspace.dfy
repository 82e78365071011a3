/** Which paths a file operation may have, and that what it then opens or writes lies in the workspace and is not reserved. */
module Workspace {
  import opened Units
  import opened FileTree
  import opened Spellings
  import opened LinkWalk
  import opened Reserved

  const GIT: Name := [46, 103, 105, 116]

  datatype Refusal = Outside | ReservedPath | GitMetadata | HarnessConfig | DanglingLink

  datatype Resolution = Allowed(path: Path) | Refused(why: Refusal)

  // ----- Inside -----

  /** `candidate` is `root` or below it, as `relative` sees them. */
  predicate Inside(root: Path, candidate: Path) {
    var rel := Relative(root, candidate);
    rel == [] || rel[0] != UP
  }

  lemma {:induction false} SharedIsShared(a: Path, b: Path)
    ensures Shared(a, b) == |a| <==> a <= b
  {
    if a != [] && b != [] && a[0] == b[0] {
      SharedIsShared(a[1..], b[1..]);
      assert a <= b <==> a[1..] <= b[1..] by {
        assert a == [a[0]] + a[1..] && b == [b[0]] + b[1..];
      }
    }
  }

  lemma InsideIsBelow(root: Path, candidate: Path)
    ensures Inside(root, candidate) <==> Normal(root) <= Normal(candidate)
  {
    var a, b := Normal(root), Normal(candidate);
    SharedIsShared(a, b);
    NormalTwice(candidate);
    if Shared(a, b) == |a| {
      assert Relative(root, candidate) == b[|a|..];
    } else {
      assert Relative(root, candidate)[0] == UP;
    }
  }

  // ----- resolvePath -----

  /** `harness` judges the files a coding agent loads its own settings from. */
  datatype Settings = Settings(root: Path, guard: Guard, harness: Path -> bool)

  ghost predicate IsWorkspace(fs: System, ws: Settings) {
    IsTree(fs) && Real(fs, ws.root)
  }

  predicate HasGit(fold: Name -> Name, path: Path) {
    exists i :: 0 <= i < |path| && fold(path[i]) == GIT
  }

  /** What `input` resolves to, or why it is refused. */
  ghost function Resolve(fs: System, ws: Settings, input: Target, allowRoot: bool, creating: bool, changing: bool): Resolution
    requires IsWorkspace(fs, ws)
  {
    var lexical := Normal(Onto(ws.root, input));
    if !Inside(ws.root, lexical) || (!allowRoot && Relative(ws.root, lexical) == []) then Refused(Outside)
    else if IsReserved(fs, ws.guard, lexical, !changing) then Refused(ReservedPath)
    else if !Inside(ws.root, RealPath(fs, lexical[..Deepest(fs, lexical, |lexical|)]).at) then Refused(Outside)
    else
      var there := Spelled(fs, lexical).at;
      if changing && !creating && Holds(fs, ws.guard.reserved, there) then Refused(ReservedPath)
      else if creating && HasGit(ws.guard.fold, Relative(ws.root, there)) then Refused(GitMetadata)
      else if changing && Through(fs, lexical, ws.harness) then Refused(HarnessConfig)
      else Allowed(lexical)
  }

  method ResolvePath(fs: System, ws: Settings, input: Target, allowRoot: bool, creating: bool, changing: bool)
    returns (r: Resolution)
    requires IsWorkspace(fs, ws)
    ensures r == Resolve(fs, ws, input, allowRoot, creating, changing)
  {
    hide Normal, Inside, IsReserved, RealPath, Relative, Join, Holds, HasGit, Through, IsTree, LinkAt, Real;
    var lexical := Normal(Onto(ws.root, input));
    if !Inside(ws.root, lexical) || (!allowRoot && Relative(ws.root, lexical) == []) {
      return Refused(Outside);
    }
    if IsReserved(fs, ws.guard, lexical, !changing) {
      return Refused(ReservedPath);
    }
    var probe: nat := |lexical|;
    WholePath(fs, lexical);
    while RealPath(fs, lexical[..probe]).Unresolved?
      invariant 0 <= probe <= |lexical|
      invariant Deepest(fs, lexical, |lexical|) == Deepest(fs, lexical, probe)
      decreases probe
    {
      if probe == 0 {
        return Refused(Outside);
      }
      probe := probe - 1;
    }
    var actual := RealPath(fs, lexical[..probe]).at;
    if !Inside(ws.root, actual) {
      return Refused(Outside);
    }
    JoinWhole(fs, lexical);
    var there := Join(actual, Relative(lexical[..probe], lexical));
    if changing && !creating {
      var holds := HoldsReserved(fs, ws.guard.reserved, there);
      if holds {
        return Refused(ReservedPath);
      }
    }
    if creating && HasGit(ws.guard.fold, Relative(ws.root, there)) {
      return Refused(GitMetadata);
    }
    if changing {
      var found := ThroughLinks(fs, lexical, ws.harness);
      if found {
        return Refused(HarnessConfig);
      }
    }
    return Allowed(lexical);
  }

  /** The spelling of a whole path that resolves is what joining nothing to it gives. */
  lemma JoinWhole(fs: System, path: Path)
    requires IsTree(fs)
    ensures var n := Deepest(fs, path, |path|);
      Spelled(fs, path).at == Join(RealPath(fs, path[..n]).at, Relative(path[..n], path))
  {
    hide Walk, RealPath, IsTree, LinkAt;
    WholePath(fs, path);
    var at := RealPath(fs, path[..Deepest(fs, path, |path|)]).at;
    RealPathIsReal(fs, path[..Deepest(fs, path, |path|)]);
    RealHasNoUp(fs, at);
    NormalPlain(at);
    SharedSelf(Normal(path), []);
    assert Normal(path) + [] == Normal(path) && at + [] == at;
  }

  // ----- What an allowed path reaches -----

  /** In the workspace, clear of every reserved entry, and in no git directory there. */
  ghost predicate Safe(fs: System, ws: Settings, at: Path)
    requires IsWorkspace(fs, ws)
  {
    && ws.root <= at
    && (forall i :: 0 <= i < |ws.guard.reserved| ==> ClearOf(fs, ws.guard.fold, ws.guard.reserved[i], at, 0))
    && !HasGit(ws.guard.fold, at[|ws.root|..])
  }

  lemma NormalRoot(fs: System, ws: Settings)
    requires IsWorkspace(fs, ws)
    ensures UP !in ws.root && Normal(ws.root) == ws.root
  {
    RealHasNoUp(fs, ws.root);
    NormalPlain(ws.root);
  }

  /** Reading never leaves the workspace: what an allowed path opens is in it. */
  lemma ReadStaysInside(fs: System, ws: Settings, input: Target, allowRoot: bool, creating: bool, changing: bool)
    requires IsWorkspace(fs, ws) && Resolve(fs, ws, input, allowRoot, creating, changing).Allowed?
    requires RealPath(fs, Resolve(fs, ws, input, allowRoot, creating, changing).path).Resolved?
    ensures ws.root <= RealPath(fs, Resolve(fs, ws, input, allowRoot, creating, changing).path).at
  {
    hide IsReserved, RealPath, Relative, Join, Holds, HasGit, Through, LinkAt, Inside;
    var path := Resolve(fs, ws, input, allowRoot, creating, changing).path;
    WholePath(fs, path);
    NormalRoot(fs, ws);
    RealPathIsReal(fs, path);
    RealHasNoUp(fs, RealPath(fs, path).at);
    NormalPlain(RealPath(fs, path).at);
    InsideIsBelow(ws.root, RealPath(fs, path).at);
  }

  /** The place an allowed creation is spelled to. */
  lemma SpelledIsSafe(fs: System, ws: Settings, input: Target, allowRoot: bool)
    requires IsWorkspace(fs, ws) && Resolve(fs, ws, input, allowRoot, true, true).Allowed?
    requires var at := Spelled(fs, Resolve(fs, ws, input, allowRoot, true, true).path).at; at in fs.entries ==> Real(fs, at)
    ensures Safe(fs, ws, Spelled(fs, Resolve(fs, ws, input, allowRoot, true, true).path).at)
  {
    hide RealPath, Relative, Join, HasGit, LinkAt, Inside, Spelled, Through, AsSpelled, Identities, ClearOf, IsTree, Real;
    var path := Resolve(fs, ws, input, allowRoot, true, true).path;
    var at := Spelled(fs, path).at;
    NormalRoot(fs, ws);
    NormalTwice(Onto(ws.root, input));
    SpelledPlain(fs, path);
    var n := Deepest(fs, path, |path|);
    var parent := RealPath(fs, path[..n]).at;
    RealPathIsReal(fs, path[..n]);
    RealHasNoUp(fs, parent);
    NormalPlain(parent);
    InsideIsBelow(ws.root, parent);
    RelativePlain(at, |ws.root|);
    assert at[..|ws.root|] == ws.root;
    NoMeansNowhere(fs, path, Judge(fs, ws.guard, false));
    assert !JudgedAt(fs, Onward(fs, path, 0), Judge(fs, ws.guard, false));
    forall i | 0 <= i < |ws.guard.reserved| ensures ClearOf(fs, ws.guard.fold, ws.guard.reserved[i], at, 0) {
      KeepsClear(fs, ws.guard, at, false, i);
    }
  }

  // ----- When a path is allowed -----

  /** The name of a git directory is among those of `at` below the root. */
  predicate InGit(fold: Name -> Name, root: Path, at: Path) {
    exists k :: |root| <= k < |at| && fold(at[k]) == GIT
  }

  /** `path` leads to a directory that holds the folder of a reserved entry. */
  ghost predicate TakesReserved(fs: System, guard: Guard, path: Path)
    requires IsTree(fs)
  {
    LeadsToDirectory(fs, path) && exists i :: 0 <= i < |guard.reserved| && HoldsAlong(fs, Parent(guard.reserved[i]), RealPath(fs, path).at)
  }

  /** Each reason there is to refuse a path, in terms of where it leads. */
  ghost predicate MayBe(fs: System, ws: Settings, path: Path, allowRoot: bool, creating: bool, changing: bool)
    requires IsWorkspace(fs, ws)
  {
    && ws.root <= path && (allowRoot || path != ws.root)
    && !Judge(fs, ws.guard, !changing)(path) && !JudgedOnTheWay(fs, path, Judge(fs, ws.guard, !changing))
    && ws.root <= RealPath(fs, path[..Deepest(fs, path, |path|)]).at
    && (changing && !creating ==> !TakesReserved(fs, ws.guard, path))
    && (creating ==> !InGit(ws.guard.fold, ws.root, Spelled(fs, path).at))
    && (changing ==> !ws.harness(path) && !JudgedOnTheWay(fs, path, ws.harness))
  }

  lemma RelativeRoot(root: Path, path: Path)
    requires UP !in root && UP !in path && root <= path
    ensures Relative(root, path) == path[|root|..] && (Relative(root, path) == [] <==> path == root)
  {
    RelativePlain(path, |root|);
    assert path[..|root|] == root;
  }

  lemma GitIs(fold: Name -> Name, root: Path, at: Path)
    requires root <= at
    ensures HasGit(fold, at[|root|..]) <==> InGit(fold, root, at)
  {
    var rest := at[|root|..];
    if InGit(fold, root, at) {
      var k :| |root| <= k < |at| && fold(at[k]) == GIT;
      assert fold(rest[k - |root|]) == GIT;
    }
    if HasGit(fold, rest) {
      var i :| 0 <= i < |rest| && fold(rest[i]) == GIT;
      assert fold(at[|root| + i]) == GIT;
    }
  }

  /** What a path leads to, or would, holds reserved data exactly when the path leads to a directory that does. */
  lemma HoldsThere(fs: System, guard: Guard, path: Path)
    requires IsTree(fs) && OwnIdentities(fs) && UP !in path && Walk(fs, [], path, fs.limit) != Failed(TooManyLinks)
    ensures Holds(fs, guard.reserved, Spelled(fs, path).at) <==> TakesReserved(fs, guard, path)
  {
    hide Walk, IsTree, OwnIdentities, HoldsAlong, HoldsIdentity, Deepest, LinkAt, Real;
    WholePath(fs, path);
    if RealPath(fs, path).Resolved? {
      RealPathIsReal(fs, path);
      LandedHere(fs, path);
      HoldsExactly(fs, guard.reserved, RealPath(fs, path).at);
    } else {
      var n := Deepest(fs, path, |path|);
      SpelledPlain(fs, path);
      NothingFurther(fs, path, n, |path| - n);
      assert path[n..][..|path| - n] == path[n..];
      StatIs(fs, Spelled(fs, path).at);
    }
  }

  lemma LandedHere(fs: System, path: Path)
    requires IsTree(fs) && RealPath(fs, path).Resolved?
    ensures Spelled(fs, path).at == RealPath(fs, path).at
  {
    hide IsTree;
    WholePath(fs, path);
  }

  /** Where the deepest part of a path lies, and so what the rest of it is spelled to. */
  lemma PlaceInside(fs: System, ws: Settings, path: Path)
    requires IsWorkspace(fs, ws) && UP !in path
    ensures var parent := RealPath(fs, path[..Deepest(fs, path, |path|)]).at; var at := Spelled(fs, path).at;
      && UP !in parent && UP !in at && UP !in ws.root
      && (Inside(ws.root, parent) <==> ws.root <= parent)
      && (Inside(ws.root, path) <==> ws.root <= path)
      && (ws.root <= parent ==> ws.root <= at)
  {
    hide RealPath, IsTree, Relative, LinkAt, Inside, Spelled, Deepest;
    var n := Deepest(fs, path, |path|);
    var parent := RealPath(fs, path[..n]).at;
    NormalRoot(fs, ws);
    SpelledPlain(fs, path);
    RealPathIsReal(fs, path[..n]);
    RealHasNoUp(fs, parent);
    NormalPlain(parent);
    NormalPlain(path);
    InsideIsBelow(ws.root, parent);
    InsideIsBelow(ws.root, path);
  }

  /**
   * Of a path whose lookup does not run out of links, in a file system in which each directory has one identity: it is
   * allowed exactly when it and what it leads to are in the workspace; nothing on its way is reserved; what is made is in no
   * git directory; what is changed is no coding agent's own file; and what is deleted or moved holds nothing reserved.
   */
  lemma AllowedExactly(fs: System, ws: Settings, input: Target, allowRoot: bool, creating: bool, changing: bool)
    requires IsWorkspace(fs, ws) && OwnIdentities(fs) && fs.limit <= 40
    requires Walk(fs, [], Normal(Onto(ws.root, input)), fs.limit) != Failed(TooManyLinks)
    ensures var path := Normal(Onto(ws.root, input));
      if MayBe(fs, ws, path, allowRoot, creating, changing) then
        Resolve(fs, ws, input, allowRoot, creating, changing) == Allowed(path)
      else Resolve(fs, ws, input, allowRoot, creating, changing).Refused?
  {
    hide RealPath, Relative, Join, HasGit, LinkAt, Inside, Spelled, Through, AsSpelled, Identities, IsTree, Real, Holds,
      TakesReserved, InGit, JudgedOnTheWay, OwnIdentities, Deepest, Walk, Onto, Normal;
    var path := Normal(Onto(ws.root, input));
    NormalTwice(Onto(ws.root, input));
    PlaceInside(fs, ws, path);
    RefusesExactly(fs, path, Judge(fs, ws.guard, !changing));
    RefusesExactly(fs, path, ws.harness);
    HoldsThere(fs, ws.guard, path);
    if ws.root <= path {
      RelativeRoot(ws.root, path);
      var at := Spelled(fs, path).at;
      if ws.root <= at {
        RelativeRoot(ws.root, at);
        GitIs(ws.guard.fold, ws.root, at);
      }
    }
  }

  /** What a delete or a move is allowed to take along is no directory that holds a reserved entry, and nothing on its way is a coding agent's own file. */
  lemma TakesNothingReserved(fs: System, ws: Settings, input: Target, allowRoot: bool)
    requires IsWorkspace(fs, ws) && OwnIdentities(fs) && Resolve(fs, ws, input, allowRoot, false, true).Allowed?
    ensures var path := Resolve(fs, ws, input, allowRoot, false, true).path;
      && !ws.harness(path) && !JudgedOnTheWay(fs, path, ws.harness)
      && (LeadsToDirectory(fs, path) ==>
            forall i :: 0 <= i < |ws.guard.reserved| ==> !HoldsAlong(fs, Parent(ws.guard.reserved[i]), RealPath(fs, path).at))
  {
    hide RealPath, Relative, Join, HasGit, LinkAt, Inside, Spelled, Through, AsSpelled, IsTree, Real, JudgedOnTheWay,
      OwnIdentities, Deepest, Onto, Normal, HoldsAlong, HoldsIdentity;
    var path := Resolve(fs, ws, input, allowRoot, false, true).path;
    NoMeansNowhere(fs, path, ws.harness);
    if LeadsToDirectory(fs, path) {
      RealPathIsReal(fs, path);
      LandedHere(fs, path);
      HoldsExactly(fs, ws.guard.reserved, RealPath(fs, path).at);
    }
  }

  // ----- write -----

  /** The file a write replaces: the one a link leads to, judged again as itself, and otherwise `path`. */
  ghost function WriteTarget(fs: System, ws: Settings, path: Path): Resolution
    requires IsWorkspace(fs, ws)
  {
    if LinkAt(fs, path).None? then Allowed(path)
    else match RealPath(fs, path)
      case Unresolved(_) => Refused(DanglingLink)
      case Resolved(at) => if at == path then Allowed(path) else Resolve(fs, ws, Target(true, at), false, true, true)
  }

  /** Where a rename onto `target` puts a file, once the folders missing above it are made. */
  function RenamePlace(fs: System, target: Path): Option<Path>
    requires IsTree(fs)
  {
    if target == [] then None
    else
      var folder := Parent(target);
      var n := Deepest(fs, folder, |folder|);
      var parent := RealPath(fs, folder[..n]).at;
      if !fs.entries[parent].Directory? || !fs.entries[parent].searchable then None
      else if n < |folder| && parent + [folder[n]] in fs.entries then None
      else Some(parent + target[n..])
  }

  /** A write that goes ahead puts its file in the workspace, in no git directory, and never on or in reserved data. */
  lemma WriteStaysInside(fs: System, ws: Settings, input: Target)
    requires IsWorkspace(fs, ws) && Resolve(fs, ws, input, false, true, true).Allowed?
    requires WriteTarget(fs, ws, Resolve(fs, ws, input, false, true, true).path).Allowed?
    ensures var target := WriteTarget(fs, ws, Resolve(fs, ws, input, false, true, true).path).path;
      RenamePlace(fs, target).Some? ==> Safe(fs, ws, RenamePlace(fs, target).value)
  {
    hide RealPath, LinkAt, RenamePlace, Spelled, Safe, Real, IsTree;
    var path := Resolve(fs, ws, input, false, true, true).path;
    var target := WriteTarget(fs, ws, path).path;
    if RenamePlace(fs, target).Some? {
      AllowedPlain(fs, ws, input);
      if LinkAt(fs, path).None? {
        RenameIsSpelled(fs, path);
        SpelledIsSafe(fs, ws, input, false);
      } else {
        RealPathIsReal(fs, path);
        var at := RealPath(fs, path).at;
        if at == path {
          RealIsNoLink(fs, path);
        }
        RealHasNoUp(fs, at);
        NormalPlain(at);
        AllowedPlain(fs, ws, Target(true, at));
        RealIsNoLink(fs, at);
        RenameIsSpelled(fs, at);
        SpelledIsSafe(fs, ws, Target(true, at), false);
      }
    }
  }

  lemma AllowedPlain(fs: System, ws: Settings, input: Target)
    requires IsWorkspace(fs, ws)
    ensures var r := Resolve(fs, ws, input, false, true, true);
      r.Allowed? ==> r.path == Normal(Onto(ws.root, input)) && UP !in r.path
  {
    hide IsReserved, RealPath, Relative, Join, Holds, HasGit, Through, LinkAt, Inside, IsTree, Real, Normal, Deepest, Spelled;
    NormalTwice(Onto(ws.root, input));
  }

  lemma RealIsNoLink(fs: System, at: Path)
    requires IsTree(fs) && Real(fs, at)
    ensures LinkAt(fs, at).None?
  {
    hide RealPath, IsTree;
    if at != [] {
      RealParent(fs, at);
      StatReal(fs, Parent(at));
      assert Parent(at) + [Base(at)] == at;
    }
  }

  /** A name in a directory that resolves, when the whole path does and names no link. */
  lemma LastName(fs: System, folder: Path, name: Name)
    requires IsTree(fs) && RealPath(fs, folder).Resolved? && RealPath(fs, folder + [name]).Resolved? && name != UP
    requires Open(fs, RealPath(fs, folder).at)
    requires var child := RealPath(fs, folder).at + [name]; child in fs.entries ==> !fs.entries[child].Link?
    ensures RealPath(fs, folder + [name]).at == RealPath(fs, folder).at + [name]
  {
    hide IsTree, Left;
    var at, left := RealPath(fs, folder).at, Left(fs, folder);
    Beyond(fs, folder, [name]);
    if at + [name] in fs.entries {
      StepDown(fs, at, name, [], left);
      assert [name] + [] == [name];
      WalkSteps(fs, at, [name], left);
      StepAtEnd(fs, at + [name], left);
    }
  }

  lemma LinkAtName(fs: System, folder: Path, name: Name)
    requires IsTree(fs) && RealPath(fs, folder).Resolved? && Open(fs, RealPath(fs, folder).at)
    requires LinkAt(fs, folder + [name]).None?
    ensures var child := RealPath(fs, folder).at + [name]; child in fs.entries ==> !fs.entries[child].Link?
  {
    hide RealPath, IsTree;
    assert Parent(folder + [name]) == folder && Base(folder + [name]) == name;
  }

  lemma {:induction false} EntryAbove(fs: System, path: Path, n: nat)
    requires IsTree(fs) && path in fs.entries && n <= |path|
    ensures path[..n] in fs.entries
    decreases |path| - n
  {
    if n == |path| {
      assert path[..n] == path;
    } else {
      EntryAbove(fs, path, n + 1);
      assert Parent(path[..n + 1]) == path[..n];
    }
  }

  /** The deepest part of a path that does not resolve is that of the folder it is in. */
  lemma DeepestInFolder(fs: System, folder: Path, name: Name)
    requires IsTree(fs) && RealPath(fs, folder + [name]).Unresolved?
    ensures var n := Deepest(fs, folder, |folder|);
      Deepest(fs, folder + [name], |folder| + 1) == n && (folder + [name])[..n] == folder[..n]
  {
    hide RealPath, IsTree;
    var path, n := folder + [name], Deepest(fs, folder, |folder|);
    assert path[..n] == folder[..n];
    if n == |folder| {
      assert path[..n + 1] == path;
    } else {
      assert path[..n + 1] == folder[..n + 1];
    }
    DeepestIs(fs, path, n);
  }

  /** Onto a name that is no link, the rename goes where the name is spelled to. */
  lemma RenameIsSpelled(fs: System, target: Path)
    requires IsTree(fs) && UP !in target && LinkAt(fs, target).None? && RenamePlace(fs, target).Some?
    ensures RenamePlace(fs, target).value == Spelled(fs, target).at
    ensures var at := Spelled(fs, target).at; at in fs.entries ==> Real(fs, at)
  {
    hide RealPath, IsTree, LinkAt, Spelled, Deepest;
    var folder, name := Parent(target), Base(target);
    assert target == folder + [name];
    SpelledPlain(fs, target);
    WholePath(fs, target);
    var n := Deepest(fs, folder, |folder|);
    assert folder[..|folder|] == folder;
    var parent := RealPath(fs, folder[..n]).at;
    RealPathIsReal(fs, folder[..n]);
    if RealPath(fs, target).Resolved? {
      ResolvesAbove(fs, target, |folder|, |target|);
      WholePath(fs, folder);
      LinkAtName(fs, folder, name);
      LastName(fs, folder, name);
      RealPathIsReal(fs, target);
      assert target[n..] == [name];
    } else {
      DeepestInFolder(fs, folder, name);
      var at := parent + target[n..];
      if n == |folder| {
        Unresolving(fs, folder, name);
        LinkAtName(fs, folder, name);
        assert target[n..] == [name];
      } else {
        assert at[..|parent| + 1] == parent + [folder[n]];
        if at in fs.entries {
          EntryAbove(fs, at, |parent| + 1);
        }
      }
    }
  }
}
