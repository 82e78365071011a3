/** Judging a path wherever a chain of links in it leads, as far as the kernel would follow it. */
module LinkWalk {
  import opened Units
  import opened FileTree
  import opened Spellings

  /** The path as the kernel has it after `k` links that lead to no entry. */
  function Onward(fs: System, path: Path, k: nat): Option<Path>
    requires IsTree(fs)
    decreases k
  {
    if k == 0 then Some(path)
    else match Spelled(fs, path).next
      case None => None
      case Some(next) => Onward(fs, next, k - 1)
  }

  /** `judge` holds of a place the chain of links from `path` passes. */
  ghost predicate JudgedOnTheWay(fs: System, path: Path, judge: Path -> bool)
    requires IsTree(fs)
  {
    exists k: nat :: JudgedAt(fs, Onward(fs, path, k), judge)
  }

  predicate JudgedAt(fs: System, path: Option<Path>, judge: Path -> bool)
    requires IsTree(fs)
  {
    path.Some? && judge(Spelled(fs, path.value).at)
  }

  /** The walk from `next` on, once the spellings in `seen` are passed. */
  function Rest(fs: System, spelled: Path, next: Option<Path>, seen: set<Path>, judge: Path -> bool): bool
    requires IsTree(fs)
    decreases MAX_LINKS + 1 - |seen|
  {
    if next.None? || next.value in seen then false
    else if |seen| > MAX_LINKS then true
    else
      var step := Spelled(fs, next.value);
      (step.at != spelled && judge(step.at)) || Rest(fs, spelled, step.next, seen + {next.value}, judge)
  }

  /** The answer of the walk. */
  function Through(fs: System, spelled: Path, judge: Path -> bool): bool
    requires IsTree(fs)
  {
    judge(spelled) || Rest(fs, spelled, Some(spelled), {}, judge)
  }

  method ThroughLinks(fs: System, spelled: Path, judge: Path -> bool) returns (found: bool)
    requires IsTree(fs)
    ensures found == Through(fs, spelled, judge)
  {
    if judge(spelled) {
      return true;
    }
    var resolved := new Lookups(fs);
    var seen: set<Path> := {};
    var next := Some(spelled);
    while next.Some? && next.value !in seen
      invariant fresh(resolved) && resolved.Valid() && resolved.fs == fs
      invariant |seen| <= MAX_LINKS + 1
      invariant Rest(fs, spelled, next, seen, judge) == Rest(fs, spelled, Some(spelled), {}, judge)
      decreases MAX_LINKS + 1 - |seen|
    {
      if |seen| > MAX_LINKS {
        return true;
      }
      var step := RealSpelling(next.value, resolved);
      if step.at != spelled && judge(step.at) {
        return true;
      }
      seen := seen + {next.value};
      next := step.next;
    }
    return false;
  }

  // ----- A cycle ends the walk only once every spelling of it is judged -----

  /** Passed without being judged, and leading only to what is passed or to `next`. */
  ghost predicate Passed(fs: System, spelled: Path, next: Option<Path>, seen: set<Path>, judge: Path -> bool)
    requires IsTree(fs)
  {
    forall path <- seen ::
      var step := Spelled(fs, path);
      (step.at == spelled || !judge(step.at)) && (step.next == next || (step.next.Some? && step.next.value in seen))
  }

  lemma {:induction false} ClosedIsClean(fs: System, spelled: Path, seen: set<Path>, judge: Path -> bool, path: Path, k: nat)
    requires IsTree(fs) && !judge(spelled)
    requires Passed(fs, spelled, None, seen, judge) && path in seen
    ensures !JudgedAt(fs, Onward(fs, path, k), judge)
    decreases k
  {
    hide Spelled;
    var step := Spelled(fs, path);
    if k > 0 && step.next.Some? {
      ClosedIsClean(fs, spelled, seen, judge, step.next.value, k - 1);
    }
  }

  lemma {:induction false} RestIsClean(
    fs: System, spelled: Path, next: Option<Path>, seen: set<Path>, judge: Path -> bool, path: Path, k: nat)
    requires IsTree(fs) && !judge(spelled) && !Rest(fs, spelled, next, seen, judge)
    requires Passed(fs, spelled, next, seen, judge) && (path in seen || next == Some(path))
    ensures !JudgedAt(fs, Onward(fs, path, k), judge)
    decreases MAX_LINKS + 1 - |seen|
  {
    hide Spelled;
    if next.None? || next.value in seen {
      ClosedIsClean(fs, spelled, seen, judge, path, k);
    } else {
      RestIsClean(fs, spelled, Spelled(fs, next.value).next, seen + {next.value}, judge, path, k);
    }
  }

  /** When the walk says no, `judge` holds neither of the path as given nor anywhere on the way, cycles included. */
  lemma NoMeansNowhere(fs: System, spelled: Path, judge: Path -> bool)
    requires IsTree(fs) && !Through(fs, spelled, judge)
    ensures !judge(spelled) && !JudgedOnTheWay(fs, spelled, judge)
  {
    forall k: nat ensures !JudgedAt(fs, Onward(fs, spelled, k), judge) {
      RestIsClean(fs, spelled, Some(spelled), {}, judge, spelled, k);
    }
  }

  // ----- Where the kernel lands -----

  /** The place a lookup of `path` opens or makes, if it does. */
  function Landing(fs: System, path: Path): Option<Path>
    requires IsTree(fs)
  {
    match Walk(fs, [], path, fs.limit)
    case Landed(at, _) => Some(at)
    case Creatable(at, _) => Some(at)
    case Failed(_) => None
  }

  /** The last spelling of the chain is that place, and it takes no more links to reach than the lookup had. */
  lemma {:induction false} LandsOnTheWay(fs: System, path: Path) returns (k: nat)
    requires IsTree(fs) && Landing(fs, path).Some?
    ensures var last := Onward(fs, path, k);
      last.Some? && Spelled(fs, last.value) == Spelling(Landing(fs, path).value, None)
    ensures Walk(fs, [], path, fs.limit).left + k <= fs.limit
    decreases fs.limit - Walk(fs, [], path, fs.limit).left
  {
    hide Spelled, Walk;
    RootIsReal(fs);
    WalkEndsReal(fs, [], path, fs.limit);
    if Walk(fs, [], path, fs.limit).Landed? {
      LandedSpelling(fs, path);
      k := 0;
    } else {
      CreatableStep(fs, path);
      var step := Spelled(fs, path);
      if step.next.None? {
        k := 0;
      } else {
        WalkEndsReal(fs, [], step.next.value, fs.limit);
        var rest := LandsOnTheWay(fs, step.next.value);
        k := rest + 1;
      }
    }
  }

  lemma LandedSpelling(fs: System, path: Path)
    requires IsTree(fs) && Walk(fs, [], path, fs.limit).Landed?
    ensures Spelled(fs, path) == Spelling(Walk(fs, [], path, fs.limit).at, None)
  {
    WholePath(fs, path);
  }

  /** When the walk says no, `judge` does not hold of what a lookup opens, or makes through links to missing names. */
  lemma JudgesTheLanding(fs: System, spelled: Path, judge: Path -> bool)
    requires IsTree(fs) && !Through(fs, spelled, judge)
    ensures Landing(fs, spelled).Some? ==> !judge(Landing(fs, spelled).value)
  {
    NoMeansNowhere(fs, spelled, judge);
    if Landing(fs, spelled).Some? {
      var k := LandsOnTheWay(fs, spelled);
      assert !JudgedAt(fs, Onward(fs, spelled, k), judge);
    }
  }

  // ----- What the walk refuses -----

  /** `links` links are enough to look `path` up, or to find that it leads nowhere. */
  predicate Enough(fs: System, path: Path, links: nat)
    requires IsTree(fs)
  {
    Walk(fs, [], path, links) != Failed(TooManyLinks)
  }

  /** Where a path leads before its first part that fails, looked up with fewer links that are enough. */
  lemma EnoughBefore(fs: System, path: Path, rest: Path, links: nat) returns (left: nat)
    requires IsTree(fs) && rest != [] && RealPath(fs, path).Resolved? && links <= fs.limit && Enough(fs, path + rest, links)
    ensures Real(fs, RealPath(fs, path).at) && left <= links
    ensures Walk(fs, [], path + rest, links) == Walk(fs, RealPath(fs, path).at, rest, left)
  {
    hide Step, Walk, IsTree;
    RootIsReal(fs);
    WalkOn(fs, [], path, rest, links);
    WalkEndsReal(fs, [], path, links);
    WalkSpare(fs, [], path, links, fs.limit - links);
    left := Walk(fs, [], path, links).left;
  }

  /** A link on the way takes one of them: the spelling it leads on to is looked up with one fewer. */
  lemma EnoughNext(fs: System, path: Path, links: nat)
    requires IsTree(fs) && links <= fs.limit && Enough(fs, path, links) && Spelled(fs, path).next.Some?
    ensures links > 0 && Enough(fs, Spelled(fs, path).next.value, links - 1)
  {
    hide Step, Walk, RealPath, IsTree, Join, Relative, LinkAt, Open, Onto, Enough;
    var n := Deepest(fs, path, |path|);
    var name, rest := path[n], path[n + 1..];
    assert path == path[..n] + ([name] + rest);
    var parent := RealPath(fs, path[..n]).at;
    var left := EnoughBefore(fs, path[..n], [name] + rest, links);
    IsLinkHere(fs, parent, name);
    var target := fs.entries[parent + [name]].target;
    EnoughThrough(fs, parent, name, rest, links, left, path);
  }

  lemma IsLinkHere(fs: System, folder: Path, name: Name)
    requires IsTree(fs) && Real(fs, folder) && LinkAt(fs, Join(folder, [name])).Some?
    ensures name != UP && Open(fs, folder) && folder + [name] in fs.entries && fs.entries[folder + [name]].Link?
    ensures LinkAt(fs, Join(folder, [name])).value == fs.entries[folder + [name]].target
  {
    hide RealPath, IsTree, Join, LinkAt;
    if name == UP || !Open(fs, folder) {
      NotLink(fs, folder, name);
    }
    LinkHere(fs, folder, name);
  }

  lemma EnoughThrough(fs: System, folder: Path, name: Name, rest: Path, links: nat, left: nat, path: Path)
    requires IsTree(fs) && Open(fs, folder) && name != UP && left <= links <= fs.limit
    requires folder + [name] in fs.entries && fs.entries[folder + [name]].Link?
    requires Enough(fs, path, links) && Walk(fs, [], path, links) == Walk(fs, folder, [name] + rest, left)
    ensures links > 0 && Enough(fs, Onto(folder, fs.entries[folder + [name]].target) + rest, links - 1)
  {
    hide Step, Walk, IsTree;
    ThroughLink(fs, folder, name, rest, left);
    var target := fs.entries[folder + [name]].target;
    var start := if target.absolute then [] else folder;
    WalkSpare(fs, start, target.parts + rest, left - 1, links - left);
    if !target.absolute {
      FromFolder(fs, folder, target.parts + rest, links - 1);
      Assoc(folder, target.parts, rest);
    }
  }

  lemma OnTheWay(fs: System, path: Path, judge: Path -> bool)
    requires IsTree(fs)
    requires var step := Spelled(fs, path);
      judge(step.at) || (step.next.Some? && JudgedOnTheWay(fs, step.next.value, judge))
    ensures JudgedOnTheWay(fs, path, judge)
  {
    hide Spelled;
    var step := Spelled(fs, path);
    if judge(step.at) {
      assert JudgedAt(fs, Onward(fs, path, 0), judge);
    } else {
      var k: nat :| JudgedAt(fs, Onward(fs, step.next.value, k), judge);
      assert Onward(fs, path, k + 1) == Onward(fs, step.next.value, k);
    }
  }

  lemma {:induction false} RestJudges(fs: System, spelled: Path, path: Path, seen: set<Path>, judge: Path -> bool, links: nat)
    requires IsTree(fs) && fs.limit <= MAX_LINKS && !judge(spelled)
    requires links <= fs.limit && Enough(fs, path, links) && |seen| + links <= fs.limit
    requires Rest(fs, spelled, Some(path), seen, judge)
    ensures JudgedOnTheWay(fs, path, judge)
    decreases links
  {
    hide Spelled, Enough, JudgedOnTheWay;
    var step := Spelled(fs, path);
    if !judge(step.at) {
      EnoughNext(fs, path, links);
      RestJudges(fs, spelled, step.next.value, seen + {path}, judge, links - 1);
    }
    OnTheWay(fs, path, judge);
  }

  /** Of a path whose lookup does not run out of links, the walk says yes exactly when `judge` holds of it or on its way: never for length. */
  lemma RefusesExactly(fs: System, spelled: Path, judge: Path -> bool)
    requires IsTree(fs) && fs.limit <= MAX_LINKS && Walk(fs, [], spelled, fs.limit) != Failed(TooManyLinks)
    ensures Through(fs, spelled, judge) <==> judge(spelled) || JudgedOnTheWay(fs, spelled, judge)
  {
    if !Through(fs, spelled, judge) {
      NoMeansNowhere(fs, spelled, judge);
    } else if !judge(spelled) {
      RestJudges(fs, spelled, spelled, {}, judge, fs.limit);
    }
  }
}
