/** The paths no file effect may reach, judged by name and by identity wherever a path leads. */
module Reserved {
  import opened Units
  import opened FileTree
  import opened Spellings
  import opened LinkWalk

  /** How many parts of a path the identity walk looks up together. */
  const CHAIN_STEP: nat := 16

  /** `/dev/fd`: a path below it names whatever the process has open. */
  const DESCRIPTORS: Path := [[100, 101, 118], [102, 100]]

  /** The entries no operation may reach, those inside them that may be read, and how the file system folds a name. */
  datatype Guard = Guard(reserved: seq<Path>, readable: seq<Path>, fold: Name -> Name)

  function Stat(fs: System, path: Path): (found: Option<Entry>)
    requires IsTree(fs)
  {
    match RealPath(fs, path)
    case Unresolved(_) => None
    case Resolved(at) =>
      RealPathIsReal(fs, path);
      Some(fs.entries[at])
  }

  /** Device and inode; `stat` never answers with a link. */
  function Identity(entry: Entry): nat {
    match entry
    case Directory(id, _) => id
    case File(id) => id
    case Link(_) => 0
  }

  /** One of `entries` by the folded name and by the identity of the directory holding it. */
  predicate Named(fs: System, fold: Name -> Name, entries: seq<Path>, path: Path)
    requires IsTree(fs)
  {
    exists i :: 0 <= i < |entries| && SameName(fs, fold, entries[i], path)
  }

  predicate SameName(fs: System, fold: Name -> Name, entry: Path, path: Path)
    requires IsTree(fs)
  {
    && fold(Base(entry)) == fold(Base(path))
    && var here, there := Stat(fs, Parent(path)), Stat(fs, Parent(entry));
    && here.Some? && there.Some? && Identity(here.value) == Identity(there.value)
  }

  /** The identity of a reserved entry and, where it is a directory, of what lies right inside. */
  function HeldBy(fs: System, entry: Path): set<nat>
    requires IsTree(fs)
  {
    var found := Stat(fs, entry);
    if found.None? then {}
    else
      {Identity(found.value)} +
      if found.value.Directory? then
        set path | path in fs.entries && path != [] && Parent(path) == RealPath(fs, entry).at
                   && Stat(fs, entry + [Base(path)]).Some? :: Identity(Stat(fs, entry + [Base(path)]).value)
      else {}
  }

  function Identities(fs: System, reserved: seq<Path>): set<nat>
    requires IsTree(fs)
  {
    if reserved == [] then {} else HeldBy(fs, reserved[0]) + Identities(fs, reserved[1..])
  }

  // ----- The simple form -----

  /** The deepest part of `path`, `n` names long at most, that is one of the readable directories. */
  function Above(fs: System, guard: Guard, path: Path, n: nat): (above: Option<nat>)
    requires IsTree(fs) && n <= |path|
    ensures above.Some? ==> above.value <= n
  {
    if Named(fs, guard.fold, guard.readable, path[..n]) then Some(n)
    else if n == 0 then None
    else Above(fs, guard, path, n - 1)
  }

  /** Where judging starts: below the deepest readable directory when nothing is to change, and at the root otherwise. */
  function Floor(fs: System, guard: Guard, path: Path, reading: bool): (floor: nat)
    requires IsTree(fs)
  {
    if !reading then 0
    else match Above(fs, guard, path, |path|)
      case None => 0
      case Some(n) => n + 1
  }

  /** Whether `path` or a part above it is reserved: by its name, or by what it is. */
  predicate AsSpelled(fs: System, guard: Guard, path: Path, reading: bool, known: set<nat>)
    requires IsTree(fs)
  {
    || DESCRIPTORS <= path
    || exists n :: Floor(fs, guard, path, reading) <= n <= |path| && PartReserved(fs, guard, path[..n], known)
  }

  predicate PartReserved(fs: System, guard: Guard, part: Path, known: set<nat>)
    requires IsTree(fs)
  {
    || Named(fs, guard.fold, guard.reserved, part)
    || PartKnown(fs, part, known)
  }

  predicate PartKnown(fs: System, part: Path, known: set<nat>)
    requires IsTree(fs)
  {
    var found := Stat(fs, part);
    found.Some? && Identity(found.value) in known
  }

  // ----- The fast form -----

  method Climb(fs: System, guard: Guard, path: Path) returns (above: Option<nat>)
    requires IsTree(fs)
    ensures above == Above(fs, guard, path, |path|)
  {
    hide Named, IsTree;
    var current: nat := |path|;
    while true
      invariant 0 <= current <= |path|
      invariant Above(fs, guard, path, |path|) == Above(fs, guard, path, current)
      decreases current
    {
      if Named(fs, guard.fold, guard.readable, path[..current]) {
        return Some(current);
      }
      if current == 0 {
        return None;
      }
      current := current - 1;
    }
  }

  method ReservedAsSpelled(fs: System, guard: Guard, path: Path, reading: bool, known: set<nat>) returns (found: bool)
    requires IsTree(fs)
    ensures found <==> AsSpelled(fs, guard, path, reading, known)
  {
    hide Named, Stat, IsTree, Identity;
    if DESCRIPTORS <= path {
      return true;
    }
    var above := None;
    if reading {
      above := Climb(fs, guard, path);
    }
    var floor := if above.Some? then above.value + 1 else 0;
    var current := |path|;
    while current >= floor
      invariant floor - 1 <= current <= |path|
      invariant forall n :: current < n <= |path| ==> !Named(fs, guard.fold, guard.reserved, path[..n])
      decreases current
    {
      if Named(fs, guard.fold, guard.reserved, path[..current]) {
        assert PartReserved(fs, guard, path[..current], known);
        return true;
      }
      if current == 0 {
        break;
      }
      current := current - 1;
    }
    if known == {} {
      assert forall n | floor <= n <= |path| :: !PartReserved(fs, guard, path[..n], known);
      return false;
    }
    found := IdentityWalk(fs, path, floor, known);
    if found {
      var n :| floor <= n <= |path| && PartKnown(fs, path[..n], known);
      assert PartReserved(fs, guard, path[..n], known);
    }
  }

  /** From `floor` down, some at a time and no further than the first part that is missing. */
  method IdentityWalk(fs: System, path: Path, floor: nat, known: set<nat>) returns (found: bool)
    requires IsTree(fs) && floor <= |path| + 1
    ensures found <==> exists n :: floor <= n <= |path| && PartKnown(fs, path[..n], known)
  {
    hide Stat, IsTree, Identity;
    var start := floor;
    while start <= |path|
      invariant floor <= start
      invariant forall n :: floor <= n < start && n <= |path| ==> !PartKnown(fs, path[..n], known)
      decreases |path| + 1 - start
    {
      var end := if start + CHAIN_STEP <= |path| + 1 then start + CHAIN_STEP else |path| + 1;
      var answers := seq(end - start, i requires 0 <= i < end - start => Stat(fs, path[..start + i]));
      for i := 0 to |answers|
        invariant forall n :: floor <= n < start + i ==> !PartKnown(fs, path[..n], known)
      {
        if answers[i].Some? && Identity(answers[i].value) in known {
          assert PartKnown(fs, path[..start + i], known);
          return true;
        }
        if answers[i].None? {
          MissingBelow(fs, path, start + i, known);
          return false;
        }
      }
      start := start + CHAIN_STEP;
    }
    return false;
  }

  /** Nothing below a missing part exists to be known. */
  lemma MissingBelow(fs: System, path: Path, m: nat, known: set<nat>)
    requires IsTree(fs) && m <= |path| && Stat(fs, path[..m]).None?
    ensures forall n :: m <= n <= |path| ==> !PartKnown(fs, path[..n], known)
  {
    forall n | m <= n <= |path| ensures !PartKnown(fs, path[..n], known) {
      if Stat(fs, path[..n]).Some? {
        ResolvesAbove(fs, path, m, n);
      }
    }
  }

  // ----- The whole judgement -----

  function Judge(fs: System, guard: Guard, reading: bool): Path -> bool
    requires IsTree(fs)
  {
    var known := Identities(fs, guard.reserved);
    at => AsSpelled(fs, guard, at, reading, known)
  }

  /** Whether `path` is, or is inside, a reserved entry, as spelled or wherever a link in it leads. */
  predicate IsReserved(fs: System, guard: Guard, path: Path, reading: bool)
    requires IsTree(fs)
  {
    Through(fs, path, Judge(fs, guard, reading))
  }

  /**
   * What a part of a path has to do with a reserved entry: it leads to the entry or to something right inside it, under
   * whatever name; or it is the entry's name, as the file system folds names, in the directory the entry is in.
   */
  ghost predicate Touches(fs: System, fold: Name -> Name, entry: Path, part: Path)
    requires IsTree(fs)
  {
    || Same(fs, part, entry)
    || (LeadsToDirectory(fs, entry) && exists name :: RealPath(fs, entry).at + [name] in fs.entries && Same(fs, part, entry + [name]))
    || (Same(fs, Parent(part), Parent(entry)) && fold(Base(part)) == fold(Base(entry)))
  }

  predicate LeadsToDirectory(fs: System, path: Path)
    requires IsTree(fs)
  {
    RealPath(fs, path).Resolved? && fs.entries[RealPath(fs, path).at].Directory?
  }

  /** Both lead to one thing, by the identity the file system gives it. */
  predicate Same(fs: System, a: Path, b: Path)
    requires IsTree(fs)
  {
    && RealPath(fs, a).Resolved? && RealPath(fs, b).Resolved?
    && Identity(fs.entries[RealPath(fs, a).at]) == Identity(fs.entries[RealPath(fs, b).at])
  }

  lemma {:induction false} KnownIs(fs: System, reserved: seq<Path>, id: nat)
    requires IsTree(fs)
    ensures id in Identities(fs, reserved) <==> exists i :: 0 <= i < |reserved| && id in HeldBy(fs, reserved[i])
  {
    hide HeldBy;
    if reserved != [] {
      KnownIs(fs, reserved[1..], id);
      assert forall i :: 0 <= i < |reserved| - 1 ==> reserved[i + 1] == reserved[1..][i];
      if exists i :: 0 <= i < |reserved| && id in HeldBy(fs, reserved[i]) {
        var i :| 0 <= i < |reserved| && id in HeldBy(fs, reserved[i]);
        assert i > 0 ==> reserved[1..][i - 1] == reserved[i];
      }
    }
  }

  /** What an entry holds, name by name. */
  lemma HeldIs(fs: System, entry: Path, id: nat)
    requires IsTree(fs)
    ensures id in HeldBy(fs, entry) <==>
      && RealPath(fs, entry).Resolved?
      && (|| id == Identity(fs.entries[RealPath(fs, entry).at])
          || (LeadsToDirectory(fs, entry) && exists name ::
                RealPath(fs, entry).at + [name] in fs.entries && RealPath(fs, entry + [name]).Resolved?
                && id == Identity(fs.entries[RealPath(fs, entry + [name]).at])))
  {
    hide RealPath, IsTree;
    if LeadsToDirectory(fs, entry) {
      var at := RealPath(fs, entry).at;
      if id in HeldBy(fs, entry) && id != Identity(fs.entries[at]) {
        var path :| path in fs.entries && path != [] && Parent(path) == at && Stat(fs, entry + [Base(path)]).Some?
          && id == Identity(Stat(fs, entry + [Base(path)]).value);
        assert at + [Base(path)] == path;
        StatIs(fs, entry + [Base(path)]);
      }
      forall name | at + [name] in fs.entries && RealPath(fs, entry + [name]).Resolved?
        ensures Identity(fs.entries[RealPath(fs, entry + [name]).at]) in HeldBy(fs, entry)
      {
        var path := at + [name];
        assert path in fs.entries && path != [] && Parent(path) == at && Base(path) == name;
        StatIs(fs, entry + [name]);
      }
      StatIs(fs, entry);
    }
  }

  lemma StatIs(fs: System, path: Path)
    requires IsTree(fs)
    ensures Stat(fs, path) == match RealPath(fs, path) case Unresolved(_) => None case Resolved(at) => Some(fs.entries[at])
  {
    hide RealPath, IsTree;
  }

  lemma TouchesIs(fs: System, fold: Name -> Name, entry: Path, part: Path)
    requires IsTree(fs)
    ensures Touches(fs, fold, entry, part) <==>
      || SameName(fs, fold, entry, part)
      || (Stat(fs, part).Some? && Identity(Stat(fs, part).value) in HeldBy(fs, entry))
  {
    hide RealPath, IsTree, HeldBy, Identity;
    StatIs(fs, part);
    StatIs(fs, Parent(part));
    StatIs(fs, Parent(entry));
    if Stat(fs, part).Some? {
      var id := Identity(Stat(fs, part).value);
      HeldIs(fs, entry, id);
      if LeadsToDirectory(fs, entry) {
        var at := RealPath(fs, entry).at;
        if name :| at + [name] in fs.entries && RealPath(fs, entry + [name]).Resolved?
                   && id == Identity(fs.entries[RealPath(fs, entry + [name]).at]) {
          assert Same(fs, part, entry + [name]);
        }
        if name :| at + [name] in fs.entries && Same(fs, part, entry + [name]) {
          assert RealPath(fs, entry + [name]).Resolved?;
        }
      }
    }
  }

  lemma KnownTouches(fs: System, guard: Guard, part: Path)
    requires IsTree(fs)
    ensures PartReserved(fs, guard, part, Identities(fs, guard.reserved)) <==>
      exists i :: 0 <= i < |guard.reserved| && Touches(fs, guard.fold, guard.reserved[i], part)
  {
    hide RealPath, IsTree, HeldBy, Identities, LeadsToDirectory, Identity;
    StatIs(fs, part);
    StatIs(fs, Parent(part));
    forall i | 0 <= i < |guard.reserved|
      ensures Touches(fs, guard.fold, guard.reserved[i], part) <==>
        || SameName(fs, guard.fold, guard.reserved[i], part)
        || (Stat(fs, part).Some? && Identity(Stat(fs, part).value) in HeldBy(fs, guard.reserved[i]))
    {
      TouchesIs(fs, guard.fold, guard.reserved[i], part);
    }
    if Stat(fs, part).Some? {
      KnownIs(fs, guard.reserved, Identity(Stat(fs, part).value));
    }
  }

  /** A path as spelled is reserved exactly when it is below `/dev/fd`, or some part of it that is judged has to do with an entry. */
  lemma ReservedExactly(fs: System, guard: Guard, path: Path, reading: bool)
    requires IsTree(fs)
    ensures AsSpelled(fs, guard, path, reading, Identities(fs, guard.reserved)) <==>
      || DESCRIPTORS <= path
      || exists i, n :: 0 <= i < |guard.reserved| && Floor(fs, guard, path, reading) <= n <= |path|
           && Touches(fs, guard.fold, guard.reserved[i], path[..n])
  {
    hide Floor, IsTree, Touches, PartReserved, Identities;
    forall n | 0 <= n <= |path|
      ensures PartReserved(fs, guard, path[..n], Identities(fs, guard.reserved)) <==>
        exists i :: 0 <= i < |guard.reserved| && Touches(fs, guard.fold, guard.reserved[i], path[..n])
    {
      KnownTouches(fs, guard, path[..n]);
    }
  }

  lemma StatReal(fs: System, at: Path)
    requires IsTree(fs) && Real(fs, at)
    ensures Stat(fs, at) == Some(fs.entries[at]) && RealPath(fs, at) == Resolved(at)
  {
    FromFolder(fs, at, [], fs.limit);
    assert at + [] == at;
    StepAtEnd(fs, at, fs.limit);
  }

  /** From its part `floor` names long on, `at` has nothing to do with `entry`. */
  ghost predicate ClearOf(fs: System, fold: Name -> Name, entry: Path, at: Path, floor: nat)
    requires IsTree(fs)
  {
    forall n :: floor <= n <= |at| ==> !Touches(fs, fold, entry, at[..n])
  }

  lemma EntryTouches(fs: System, fold: Name -> Name, entry: Path, at: Path)
    requires IsTree(fs)
    ensures RealPath(fs, entry).Resolved? && RealPath(fs, entry).at <= at ==>
      Touches(fs, fold, entry, at[..|RealPath(fs, entry).at|])
  {
    hide RealPath, IsTree;
    if RealPath(fs, entry).Resolved? && RealPath(fs, entry).at <= at {
      RealPathIsReal(fs, entry);
      assert at[..|RealPath(fs, entry).at|] == RealPath(fs, entry).at;
    }
  }

  lemma NameTouches(fs: System, fold: Name -> Name, entry: Path, at: Path)
    requires IsTree(fs)
    ensures RealPath(fs, Parent(entry)).Resolved? && RealPath(fs, Parent(entry)).at + [Base(entry)] <= at ==>
      Touches(fs, fold, entry, at[..|RealPath(fs, Parent(entry)).at| + 1])
  {
    hide RealPath, IsTree;
    if RealPath(fs, Parent(entry)).Resolved? && RealPath(fs, Parent(entry)).at + [Base(entry)] <= at {
      var holder := RealPath(fs, Parent(entry)).at;
      RealPathIsReal(fs, Parent(entry));
      var part := at[..|holder| + 1];
      assert Parent(part) == holder && Base(part) == Base(entry);
    }
  }

  /** So it is neither the entry nor below it, whether the entry exists or only its folder does. */
  lemma ClearIsApart(fs: System, fold: Name -> Name, entry: Path, at: Path, floor: nat)
    requires IsTree(fs) && ClearOf(fs, fold, entry, at, floor)
    ensures RealPath(fs, entry).Resolved? && floor <= |RealPath(fs, entry).at| ==> !(RealPath(fs, entry).at <= at)
    ensures RealPath(fs, Parent(entry)).Resolved? && floor <= |RealPath(fs, Parent(entry)).at| + 1 ==>
      !(RealPath(fs, Parent(entry)).at + [Base(entry)] <= at)
  {
    hide RealPath, IsTree, Touches;
    EntryTouches(fs, fold, entry, at);
    NameTouches(fs, fold, entry, at);
  }

  lemma KeepsClear(fs: System, guard: Guard, at: Path, reading: bool, i: nat)
    requires IsTree(fs) && i < |guard.reserved|
    requires !AsSpelled(fs, guard, at, reading, Identities(fs, guard.reserved))
    ensures ClearOf(fs, guard.fold, guard.reserved[i], at, Floor(fs, guard, at, reading))
  {
    hide Floor, Identities, AsSpelled, IsTree, Touches;
    ReservedExactly(fs, guard, at, reading);
  }

  /**
   * What a path that is not reserved opens or makes is clear of every reserved entry, links to missing names followed:
   * wholly, when something is to change, and below the deepest readable directory it lies in, when it is only read.
   */
  lemma OutOfReach(fs: System, guard: Guard, path: Path, reading: bool, i: nat)
    requires IsTree(fs) && i < |guard.reserved| && !IsReserved(fs, guard, path, reading) && Landing(fs, path).Some?
    ensures var at := Landing(fs, path).value; var floor := Floor(fs, guard, at, reading);
      && ClearOf(fs, guard.fold, guard.reserved[i], at, floor)
      && (floor > 0 ==> reading && floor <= |at| + 1 && Named(fs, guard.fold, guard.readable, at[..floor - 1]))
  {
    hide Floor, Identities, HeldBy, RealPath, AsSpelled, IsTree, Landing, ClearOf, Through, Named;
    JudgesTheLanding(fs, path, Judge(fs, guard, reading));
    KeepsClear(fs, guard, Landing(fs, path).value, reading, i);
    FloorIs(fs, guard, Landing(fs, path).value, reading);
  }

  /** Only below a readable directory, and only to read, does judging start below the root. */
  lemma FloorIs(fs: System, guard: Guard, at: Path, reading: bool)
    requires IsTree(fs)
    ensures var floor := Floor(fs, guard, at, reading);
      floor > 0 ==> reading && floor <= |at| + 1 && Named(fs, guard.fold, guard.readable, at[..floor - 1])
    ensures forall n :: Floor(fs, guard, at, reading) <= n <= |at| && reading ==> !Named(fs, guard.fold, guard.readable, at[..n])
  {
    hide Named;
    AboveIs(fs, guard, at, |at|);
  }

  lemma {:induction false} AboveIs(fs: System, guard: Guard, path: Path, n: nat)
    requires IsTree(fs) && n <= |path|
    ensures var above := Above(fs, guard, path, n);
      && (above.Some? ==> Named(fs, guard.fold, guard.readable, path[..above.value]))
      && forall k :: (if above.Some? then above.value else -1) < k <= n ==> !Named(fs, guard.fold, guard.readable, path[..k])
  {
    hide Named;
    if n > 0 {
      AboveIs(fs, guard, path, n - 1);
    }
  }

  // ----- Directories that hold reserved data -----

  /** A directory the spelling of `holder` passes, or one above the place it leads to. */
  predicate Over(fs: System, holder: Path, place: Path)
    requires IsTree(fs)
  {
    place <= holder || place <= Spelled(fs, holder).at
  }

  predicate HasIdentity(fs: System, place: Path, id: nat)
    requires IsTree(fs)
  {
    var found := Stat(fs, place);
    found.Some? && Identity(found.value) == id
  }

  method PlacesOver(fs: System, holder: Path) returns (places: set<Path>)
    requires IsTree(fs)
    ensures forall place :: place in places <==> Over(fs, holder, place)
  {
    var resolved := new Lookups(fs);
    var spelling := RealSpelling(holder, resolved);
    var lexical := Prefixes(holder);
    var through := Prefixes(spelling.at);
    places := lexical + through;
  }

  /** The identity of each directory holding a reserved entry and of each directory above one. */
  method HoldingReserved(fs: System, reserved: seq<Path>) returns (ids: set<nat>)
    requires IsTree(fs)
    ensures forall id :: id in ids <==> HoldsIdentity(fs, reserved, id)
  {
    hide Stat, Over, IsTree;
    var places: set<Path> := {};
    for i := 0 to |reserved|
      invariant forall place :: place in places <==> exists j :: 0 <= j < i && Over(fs, Parent(reserved[j]), place)
    {
      var over := PlacesOver(fs, Parent(reserved[i]));
      places := places + over;
    }
    ids := set place | place in places && Stat(fs, place).Some? :: Identity(Stat(fs, place).value);
    forall id | HoldsIdentity(fs, reserved, id) ensures id in ids {
      var i, place :| 0 <= i < |reserved| && Over(fs, Parent(reserved[i]), place) && HasIdentity(fs, place, id);
      assert place in places;
    }
    forall id | id in ids ensures HoldsIdentity(fs, reserved, id) {
      var place :| place in places && HasIdentity(fs, place, id);
    }
  }

  ghost predicate HoldsIdentity(fs: System, reserved: seq<Path>, id: nat)
    requires IsTree(fs)
  {
    exists i, place :: 0 <= i < |reserved| && Over(fs, Parent(reserved[i]), place) && HasIdentity(fs, place, id)
  }

  /** A path and every path above it. */
  method Prefixes(start: Path) returns (places: set<Path>)
    ensures forall place :: place in places <==> place <= start
  {
    places := {};
    var current := start;
    while true
      invariant current <= start
      invariant forall place :: place in places <==> current < place <= start
      decreases |current|
    {
      places := places + {current};
      if current == [] {
        return;
      }
      assert forall place: Path :: place <= start && |place| == |current| ==> place == current;
      current := Parent(current);
    }
  }

  /** Whether `path` is a directory holding a reserved entry at any depth. */
  ghost predicate Holds(fs: System, reserved: seq<Path>, path: Path)
    requires IsTree(fs)
  {
    && var found := Stat(fs, path);
    && found.Some? && found.value.Directory?
    && HoldsIdentity(fs, reserved, Identity(found.value))
  }

  method HoldsReserved(fs: System, reserved: seq<Path>, path: Path) returns (holds: bool)
    requires IsTree(fs)
    ensures holds <==> Holds(fs, reserved, path)
  {
    var target := Stat(fs, path);
    if target.None? || !target.value.Directory? {
      return false;
    }
    var ids := HoldingReserved(fs, reserved);
    holds := Identity(target.value) in ids;
  }

  /** No second mount of a directory: its identity is its own. */
  ghost predicate OwnIdentities(fs: System) {
    forall p, q ::
      p in fs.entries && q in fs.entries && fs.entries[p].Directory? && !fs.entries[q].Link? && p != q ==>
        Identity(fs.entries[p]) != Identity(fs.entries[q])
  }

  /** `at` is what some part of `path` leads to. */
  ghost predicate PartLeads(fs: System, path: Path, at: Path)
    requires IsTree(fs)
  {
    exists n: nat :: n <= |path| && RealPath(fs, path[..n]) == Resolved(at)
  }

  /** `at` holds what `holder` holds, or will once it is made: some part of `holder` leads to it, or of its spelling with links followed. */
  ghost predicate HoldsAlong(fs: System, holder: Path, at: Path)
    requires IsTree(fs)
  {
    PartLeads(fs, holder, at) || PartLeads(fs, Spelled(fs, holder).at, at)
  }

  lemma HasOwn(fs: System, place: Path, at: Path)
    requires IsTree(fs) && OwnIdentities(fs) && Real(fs, at) && fs.entries[at].Directory?
    ensures HasIdentity(fs, place, Identity(fs.entries[at])) <==> RealPath(fs, place) == Resolved(at)
  {
    if RealPath(fs, place).Resolved? {
      RealPathIsReal(fs, place);
    }
  }

  lemma OverAlong(fs: System, holder: Path, at: Path)
    requires IsTree(fs) && OwnIdentities(fs) && Real(fs, at) && fs.entries[at].Directory?
    ensures HoldsAlong(fs, holder, at) <==>
      exists place :: Over(fs, holder, place) && HasIdentity(fs, place, Identity(fs.entries[at]))
  {
    hide OwnIdentities, HasIdentity, IsTree, RealPath, Spelled;
    var spelled := Spelled(fs, holder).at;
    if PartLeads(fs, holder, at) {
      var n: nat :| n <= |holder| && RealPath(fs, holder[..n]) == Resolved(at);
      HasOwn(fs, holder[..n], at);
      assert Over(fs, holder, holder[..n]);
    }
    if PartLeads(fs, spelled, at) {
      var n: nat :| n <= |spelled| && RealPath(fs, spelled[..n]) == Resolved(at);
      HasOwn(fs, spelled[..n], at);
      assert Over(fs, holder, spelled[..n]);
    }
    if place :| Over(fs, holder, place) && HasIdentity(fs, place, Identity(fs.entries[at])) {
      HasOwn(fs, place, at);
      assert place <= holder ==> holder[..|place|] == place;
      assert place <= spelled ==> spelled[..|place|] == place;
    }
  }

  /**
   * A folder spelled without `..`, its lookup not run out of links: what holds it is what its parts lead to, and what is
   * above the place the deepest of them that exists leads to.
   */
  lemma AlongExactly(fs: System, holder: Path, at: Path)
    requires IsTree(fs) && UP !in holder && RealPath(fs, holder) != Unresolved(TooManyLinks)
    ensures HoldsAlong(fs, holder, at) <==>
      PartLeads(fs, holder, at) || at <= RealPath(fs, holder[..Deepest(fs, holder, |holder|)]).at
  {
    hide IsTree, RealPath, Spelled, Deepest, PartLeads, Real;
    var n := Deepest(fs, holder, |holder|);
    var parent, spelled := RealPath(fs, holder[..n]).at, Spelled(fs, holder).at;
    SpelledPlain(fs, holder);
    RealPathIsReal(fs, holder[..n]);
    if at <= parent {
      RealAbove(fs, parent, |at|);
      assert parent[..|at|] == at;
      StatReal(fs, at);
      assert spelled[..|at|] == at;
      assert PartLeads(fs, spelled, at) by { LeadsHere(fs, spelled, at, |at|); }
    }
    if PartLeads(fs, spelled, at) {
      var k := WherePart(fs, spelled, at);
      if k <= |parent| {
        RealAbove(fs, parent, k);
        StatReal(fs, parent[..k]);
        assert spelled[..k] == parent[..k];
      } else {
        NothingFurther(fs, holder, n, k - |parent|);
        assert spelled[..k] == parent + holder[n..][..k - |parent|];
      }
    }
  }

  lemma LeadsHere(fs: System, path: Path, at: Path, n: nat)
    requires IsTree(fs) && n <= |path| && RealPath(fs, path[..n]) == Resolved(at)
    ensures PartLeads(fs, path, at)
  {
  }

  lemma WherePart(fs: System, path: Path, at: Path) returns (n: nat)
    requires IsTree(fs) && PartLeads(fs, path, at)
    ensures n <= |path| && RealPath(fs, path[..n]) == Resolved(at)
  {
    n :| n <= |path| && RealPath(fs, path[..n]) == Resolved(at);
  }

  /** Past the deepest part that exists, the rest leads nowhere from where that part leads either. */
  lemma NothingFurther(fs: System, path: Path, n: nat, k: nat)
    requires IsTree(fs) && n < |path| && 0 < k <= |path| - n && RealPath(fs, path) != Unresolved(TooManyLinks)
    requires RealPath(fs, path[..n]).Resolved? && RealPath(fs, path[..n + 1]).Unresolved?
    ensures RealPath(fs, RealPath(fs, path[..n]).at + path[n..][..k]).Unresolved?
  {
    hide Step, IsTree, Left;
    var at, name := RealPath(fs, path[..n]).at, path[n];
    assert path[..n + 1] == path[..n] + [name];
    assert path == path[..n + 1] + path[n + 1..];
    FailsBelow(fs, path[..n + 1], path[n + 1..]);
    Beyond(fs, path[..n], [name]);
    var left := Left(fs, path[..n]);
    WalkSpare(fs, at, [name], left, fs.limit - left);
    FromFolder(fs, at, [name], fs.limit);
    assert path[n..][..k] == [name] + path[n + 1..][..k - 1];
    assert at + path[n..][..k] == at + [name] + path[n + 1..][..k - 1];
    FailsBelow(fs, at + [name], path[n + 1..][..k - 1]);
  }

  /** Where directories have one name each: exactly the directories that hold a reserved entry's folder, made or not. */
  lemma HoldsExactly(fs: System, reserved: seq<Path>, path: Path)
    requires IsTree(fs) && OwnIdentities(fs) && RealPath(fs, path).Resolved?
    ensures var at := RealPath(fs, path).at;
      Holds(fs, reserved, path) <==>
        fs.entries[at].Directory? && exists i :: 0 <= i < |reserved| && HoldsAlong(fs, Parent(reserved[i]), at)
  {
    hide Over, HasIdentity, IsTree, RealPath, OwnIdentities, HoldsAlong, Real;
    var at := RealPath(fs, path).at;
    RealPathIsReal(fs, path);
    StatAt(fs, path);
    if fs.entries[at].Directory? {
      forall i | 0 <= i < |reserved|
        ensures HoldsAlong(fs, Parent(reserved[i]), at) <==>
          exists place :: Over(fs, Parent(reserved[i]), place) && HasIdentity(fs, place, Identity(fs.entries[at]))
      {
        OverAlong(fs, Parent(reserved[i]), at);
      }
    }
  }

  lemma StatAt(fs: System, path: Path)
    requires IsTree(fs) && RealPath(fs, path).Resolved?
    ensures RealPath(fs, path).at in fs.entries && Stat(fs, path) == Some(fs.entries[RealPath(fs, path).at])
  {
    RealPathIsReal(fs, path);
  }

  /** A name in a directory that makes it a reserved entry has that directory hold it, and every directory above. */
  lemma NamedHolds(fs: System, fold: Name -> Name, reserved: seq<Path>, i: nat, below: Path, at: Path)
    requires IsTree(fs) && OwnIdentities(fs) && i < |reserved| && SameName(fs, fold, reserved[i], below)
    requires Real(fs, Parent(below)) && fs.entries[Parent(below)].Directory? && at <= Parent(below)
    requires Real(fs, at) && fs.entries[at].Directory?
    ensures HoldsIdentity(fs, reserved, Identity(fs.entries[at]))
  {
    hide OwnIdentities, IsTree, RealPath, HoldsAlong;
    var holder := Parent(reserved[i]);
    StatReal(fs, Parent(below));
    HasOwn(fs, holder, Parent(below));
    AlongIsAbove(fs, holder, at);
    OverAlong(fs, holder, at);
  }

  lemma AlongIsAbove(fs: System, holder: Path, at: Path)
    requires IsTree(fs) && RealPath(fs, holder).Resolved? && at <= RealPath(fs, holder).at
    ensures HoldsAlong(fs, holder, at)
  {
    hide IsTree, RealPath, PartLeads, Deepest, Real;
    WholePath(fs, holder);
    var end := RealPath(fs, holder).at;
    RealPathIsReal(fs, holder);
    RealAbove(fs, end, |at|);
    assert end[..|at|] == at;
    StatReal(fs, at);
    LeadsHere(fs, end, at, |at|);
  }

  /** Below a directory that holds no reserved entry, no name is one. */
  lemma NoneBelow(fs: System, guard: Guard, path: Path, below: Path)
    requires IsTree(fs) && OwnIdentities(fs) && !Holds(fs, guard.reserved, path)
    requires RealPath(fs, path).Resolved? && fs.entries[RealPath(fs, path).at].Directory?
    requires RealPath(fs, path).at < below && Real(fs, Parent(below)) && fs.entries[Parent(below)].Directory?
    ensures !Named(fs, guard.fold, guard.reserved, below)
  {
    hide OwnIdentities, HasIdentity, IsTree, RealPath, HoldsIdentity, Real;
    var at := RealPath(fs, path).at;
    StatAt(fs, path);
    RealPathIsReal(fs, path);
    assert at <= Parent(below);
    if i :| 0 <= i < |guard.reserved| && SameName(fs, guard.fold, guard.reserved[i], below) {
      NamedHolds(fs, guard.fold, guard.reserved, i, below, at);
    }
  }
}
