/** The commands themselves, step by step over a mutable home, each proved to
    do what the step functions say. */
module OperatorHomes {
  import opened Wrappers
  import opened HomeTree
  import opened SkillModel
  import opened SkillSteps
  import opened SkillRuns
  import opened SkillSurveys
  import opened SkillStatus
  import opened SkillInstalls
  import opened SkillRestores

  datatype InstallReport =
    | InstallRefused
    | InstallKilled
    | Installed(created: seq<Path>, upgraded: seq<Path>, current: seq<Path>,
                collisions: map<Path, State>, manifestFailed: bool)

  datatype TeardownReport =
    | TeardownRefused
    | NothingOwned
    | TeardownCrashed
    | TornDown(removed: seq<Path>, preserved: seq<Path>, absent: seq<Path>)

  /** The paths whose final state is `s`, in plan order. */
  function Listing(actions: seq<Action>, states: seq<State>, n: nat, s: State): seq<Path>
    requires n <= |actions| && n <= |states|
  {
    if n == 0 then []
    else Listing(actions, states, n - 1, s) + (if states[n - 1] == s then [actions[n - 1].path] else [])
  }

  // ---- what an install reports as collided

  predicate Collides(s: State) {
    s in {UnownedConflicting, IdenticalUnowned, ModifiedOwned, BrokenAlias, ParentCollision, CanonicalMissing,
          CanonicalCollision, WriteFailed, LinkFailed}
  }

  ghost predicate CollidedAt(actions: seq<Action>, states: seq<State>, p: Path, s: State) {
    Collides(s) && exists i :: 0 <= i < |actions| && i < |states| && actions[i].path == p && states[i] == s
  }

  /** `p` is the ancestor of `path` nearest the home that is no directory. */
  ghost predicate Bars(fs: Tree, p: Path, path: Path) {
    && 0 < |p| < |path| && p == path[..|p|] && p in fs && !fs[p].Dir?
    && forall k | 0 < k < |p| :: path[..k] in fs && fs[path[..k]].Dir?
  }

  ghost predicate InTheWay(fs: Tree, actions: seq<Action>, p: Path) {
    exists i :: 0 <= i < |actions| && actions[i].state.ParentCollision? && Bars(fs, p, actions[i].path)
  }

  /** Each path whose action ended in a collision, under the state it ended in,
      and each node that stood in the way of one. */
  ghost predicate Reports(fs: Tree, actions: seq<Action>, states: seq<State>, collisions: map<Path, State>) {
    && (forall p | p in collisions ::
          CollidedAt(actions, states, p, collisions[p]) || (collisions[p].ParentCollision? && InTheWay(fs, actions, p)))
    && (forall p, s | CollidedAt(actions, states, p, s) ::
          p in collisions && CollidedAt(actions, states, p, collisions[p]))
    && (forall p | InTheWay(fs, actions, p) :: p in collisions)
  }

  /** Every action ends created, upgraded, current or collided. */
  lemma FinalIsReported(fs: Tree, owned: Entries, pkg: Package, script: Script, i: nat)
    requires i < |Plan(fs, owned, pkg)|
    ensures var actions := Plan(fs, owned, pkg);
            var s := ApplyN(fs, actions, script, |actions|).1[i];
            s in {Created, Upgraded, UnchangedOwned} || Collides(s)
  {
    var actions := Plan(fs, owned, pkg);
    StateIsFinal(fs, actions, script, |actions|, i);
    PlannedStates(fs, owned, pkg, i);
    ApplyEnds(ApplyN(fs, actions, script, i).0, actions[i], FaultAt(script, i));
  }

  lemma PlannedStates(fs: Tree, owned: Entries, pkg: Package, i: nat)
    requires i < |Plan(fs, owned, pkg)|
    ensures var a := Plan(fs, owned, pkg)[i];
            Places(a) || a.state in {UnchangedOwned, SafelyUpgradeable} || Collides(a.state)
  {
    PlanPath(fs, owned, pkg, i);
    if i < |pkg.records| {
      FileStates(fs, owned, pkg.records[i]);
    } else {
      AliasStates(fs, owned, pkg, DECLARED[i - |pkg.records|]);
    }
  }

  lemma FileStates(fs: Tree, owned: Entries, r: Record)
    ensures var a := FileAction(fs, owned, r);
            Places(a) || a.state.UnchangedOwned? || Collides(a.state)
  {
  }

  lemma AliasStates(fs: Tree, owned: Entries, pkg: Package, skill: string)
    ensures var a := AliasAction(fs, owned, pkg, skill);
            Places(a) || a.state in {UnchangedOwned, SafelyUpgradeable} || Collides(a.state)
  {
  }

  lemma ApplyEnds(mid: Tree, a: Action, fault: Option<nat>)
    requires Places(a) || a.state in {UnchangedOwned, SafelyUpgradeable} || Collides(a.state)
    ensures var s := ApplyOne(mid, a, fault).1; s in {Created, Upgraded, UnchangedOwned} || Collides(s)
  {
  }

  lemma {:induction false} ListingStable(actions: seq<Action>, a: seq<State>, b: seq<State>, n: nat, s: State)
    requires n <= |actions| && n <= |a| && n <= |b| && a[..n] == b[..n]
    ensures Listing(actions, a, n, s) == Listing(actions, b, n, s)
  {
    if n > 0 {
      assert a[n - 1] == a[..n][n - 1] == b[..n][n - 1];
      assert a[..n - 1] == a[..n][..n - 1] == b[..n][..n - 1];
      ListingStable(actions, a, b, n - 1, s);
    }
  }

  lemma ListingGrows(actions: seq<Action>, states: seq<State>, state: State)
    requires |states| < |actions|
    ensures forall s :: Listing(actions, states + [state], |states| + 1, s)
                        == Listing(actions, states, |states|, s) + if s == state then [actions[|states|].path] else []
  {
    forall s ensures Listing(actions, states + [state], |states|, s) == Listing(actions, states, |states|, s) {
      assert (states + [state])[..|states|] == states == states[..|states|];
      ListingStable(actions, states + [state], states, |states|, s);
    }
  }

  /** `_parent_collision`: the nearest-to-home ancestor that is no directory. */
  method FindParentCollision(fs: Tree, p: Path) returns (at: Option<nat>)
    requires WellFormed(fs) && p != []
    ensures at.None? <==> Plain(fs, p)
    ensures at.Some? ==> 0 < at.value < |p| && p[..at.value] in fs && !fs[p[..at.value]].Dir?
    ensures at.Some? ==> forall k | 0 < k < at.value :: p[..k] in fs && fs[p[..k]].Dir?
  {
    var k := 1;
    while k < |p|
      invariant 1 <= k <= |p|
      invariant forall j | 0 < j < k :: p[..j] in fs && fs[p[..j]].Dir?
    {
      if p[..k] !in fs {
        forall j | k <= j < |p| ensures p[..j] !in fs {
          MissingBelow(fs, p, k, j);
        }
        return None;
      }
      if !fs[p[..k]].Dir? { return Some(k); }
      k := k + 1;
    }
    return None;
  }

  lemma BarrierIs(fs: Tree, path: Path, k: nat)
    requires 0 < k < |path| && path[..k] in fs && !fs[path[..k]].Dir?
    requires forall j | 0 < j < k :: path[..j] in fs && fs[path[..j]].Dir?
    ensures forall p :: Bars(fs, p, path) <==> p == path[..k]
  {
    forall p | Bars(fs, p, path) ensures |p| == k {}
  }

  lemma PlannedBarred(fs: Tree, owned: Entries, pkg: Package, i: nat)
    requires ValidPackage(pkg) && i < |Plan(fs, owned, pkg)|
    ensures var a := Plan(fs, owned, pkg)[i];
            a.path != [] && (a.state.ParentCollision? ==> !Plain(fs, a.path))
  {
    PlannedIsClean(fs, owned, pkg, i);
    PlanPath(fs, owned, pkg, i);
    if i < |pkg.records| {
      FileBarred(fs, owned, pkg.records[i]);
    } else {
      AliasBarred(fs, owned, pkg, DECLARED[i - |pkg.records|]);
    }
  }

  lemma FileBarred(fs: Tree, owned: Entries, r: Record)
    ensures PlanFile(fs, owned, r).ParentCollision? ==> !Plain(fs, Dest(r))
  {
  }

  lemma AliasBarred(fs: Tree, owned: Entries, pkg: Package, skill: string)
    ensures PlanAlias(fs, owned, pkg, skill).ParentCollision? ==> !Plain(fs, AliasPath(skill))
  {
  }

  lemma OneMoreBarrier(fs: Tree, actions: seq<Action>, i: nat, p: Path)
    requires i < |actions|
    ensures InTheWay(fs, actions[..i + 1], p)
            <==> InTheWay(fs, actions[..i], p) || (actions[i].state.ParentCollision? && Bars(fs, p, actions[i].path))
  {
    var longer, shorter := actions[..i + 1], actions[..i];
    assert longer[i] == actions[i] && forall k | 0 <= k < i :: longer[k] == shorter[k];
  }

  lemma OneMoreCollision(actions: seq<Action>, states: seq<State>, i: nat, p: Path, s: State)
    requires i < |actions| == |states|
    ensures CollidedAt(actions, states[..i + 1], p, s)
            <==> CollidedAt(actions, states[..i], p, s) || (Collides(s) && p == actions[i].path && s == states[i])
  {
    var longer, shorter := states[..i + 1], states[..i];
    assert longer[i] == states[i] && forall k | 0 <= k < i :: longer[k] == shorter[k];
  }

  lemma MissingBelow(fs: Tree, p: Path, k: nat, j: nat)
    requires WellFormed(fs) && k <= j <= |p| && p[..k] !in fs
    ensures p[..j] !in fs
  {
    if p[..j] in fs {
      assert p[..j][..k] == p[..k];
      AncestorsExist(fs, p[..j], k);
      assert false;
    }
  }

  lemma SiftGrows(fs: Tree, owned: Entries, order: seq<Path>, n: nat)
    requires n < |order| && Covers(owned, order)
    ensures forall fate :: Sift(fs, owned, order, n + 1, fate)
                           == Sift(fs, owned, order, n, fate)
                              + if Meets(Judge(fs, order[n], owned[order[n]]), fate) then [order[n]] else []
  {
  }

  ghost predicate SeenFile(fs: Tree, owned: Entries, pkg: Package, skill: string, n: nat, f: FileStatus)
    requires n <= |pkg.records|
  {
    exists k :: 0 <= k < n && OfSkill(pkg.records[k], skill) && StatusOfFile(fs, owned, pkg.records[k]) == f
  }

  lemma OneMoreFile(fs: Tree, owned: Entries, pkg: Package, skill: string, n: nat, f: FileStatus)
    requires n < |pkg.records|
    ensures SeenFile(fs, owned, pkg, skill, n + 1, f)
            <==> SeenFile(fs, owned, pkg, skill, n, f)
                 || (OfSkill(pkg.records[n], skill) && StatusOfFile(fs, owned, pkg.records[n]) == f)
  {
  }

  lemma AllFiles(fs: Tree, owned: Entries, pkg: Package, skill: string, f: FileStatus)
    ensures SeenFile(fs, owned, pkg, skill, |pkg.records|, f) <==> SomeFile(fs, owned, pkg, skill, f)
  {
  }

  /** What an install that ran to its end reports. */
  ghost predicate Tells(fs: Tree, m: Manifest, version: Option<string>, actions: seq<Action>, states: seq<State>,
                        fails: bool, report: InstallReport)
    requires Trusted(m) && |actions| == |states| && report.Installed?
  {
    && report.created == Listing(actions, states, |actions|, Created)
    && report.upgraded == Listing(actions, states, |actions|, Upgraded)
    && report.current == Listing(actions, states, |actions|, UnchangedOwned)
    && Reports(fs, actions, states, report.collisions)
    && (report.manifestFailed <==>
          fails && !UpToDate(states, m, version, FreshN(Owned(m), actions, states, |actions|)))
  }

  class OperatorHome {
    var fs: Tree
    var manifest: Manifest

    ghost predicate Valid()
      reads this
    {
      WellFormed(fs)
    }

    constructor (fs: Tree, manifest: Manifest)
      requires WellFormed(fs)
      ensures Valid() && this.fs == fs && this.manifest == manifest
    {
      this.fs, this.manifest := fs, manifest;
    }

    /** `install`: plan against the tree as found, apply one action at a time,
        and record the result. `script` says where it fails or is killed. */
    method Install(pkg: Package, script: Script) returns (report: InstallReport)
      requires Valid() && ValidPackage(pkg)
      modifies this
      ensures (fs, manifest) == InstallStep(old(fs), old(manifest), pkg, script)
      ensures report.InstallRefused? <==> !Trusted(old(manifest))
      ensures report.InstallRefused? ==> fs == old(fs) && manifest == old(manifest)
      ensures report.InstallKilled? ==> manifest == old(manifest)
      ensures report.InstallKilled? <==> Trusted(old(manifest)) && script.stop.Some?
      ensures report.Installed? ==>
                var actions := Plan(old(fs), Owned(old(manifest)), pkg);
                var states := ApplyN(old(fs), actions, script, |actions|).1;
                Tells(old(fs), old(manifest), pkg.version, actions, states, script.manifestFails, report)
    {
      if !Trusted(manifest) { return InstallRefused; }
      ghost var start := fs;
      var actions, barriers := PlanInstall(pkg);
      var states, created, upgraded, current := ApplyPlan(actions, script);
      if script.stop.Some? { return InstallKilled; }
      var collisions := GatherCollisions(start, actions, states, barriers);
      var failed := RecordInstall(pkg.version, actions, states, created != [] || upgraded != [], script.manifestFails);
      report := Installed(created, upgraded, current, collisions, failed);
    }

    /** The new manifest, from the old entries and the final states. */
    method RecordInstall(version: Option<string>, actions: seq<Action>, states: seq<State>, changed: bool, fails: bool)
      returns (failed: bool)
      requires Trusted(manifest) && |actions| == |states|
      requires var n := |actions|;
               changed <==> Listing(actions, states, n, Created) != [] || Listing(actions, states, n, Upgraded) != []
      modifies this`manifest
      ensures var renewed := FreshN(Owned(old(manifest)), actions, states, |actions|);
              var kept := UpToDate(states, old(manifest), version, renewed);
              && manifest == (if kept || fails then old(manifest) else Saved(version, version, renewed))
              && (failed <==> fails && !kept)
    {
      var renewed := Renew(Owned(manifest), actions, states);
      NothingListed(actions, states);
      if !changed && manifest == Saved(version, version, renewed) { return false; }
      if fails { return true; }
      manifest := Saved(version, version, renewed);
      return false;
    }

    /** The plan, and what bars the paths it cannot reach. */
    method PlanInstall(pkg: Package) returns (actions: seq<Action>, barriers: set<Path>)
      requires Valid() && ValidPackage(pkg) && Trusted(manifest)
      ensures actions == Plan(fs, Owned(manifest), pkg)
      ensures forall p :: p in barriers <==> InTheWay(fs, actions, p)
    {
      actions := MakePlan(pkg);
      forall i | 0 <= i < |actions|
        ensures actions[i].path != [] && (actions[i].state.ParentCollision? ==> !Plain(fs, actions[i].path))
      {
        PlannedBarred(fs, Owned(manifest), pkg, i);
      }
      barriers := FindBarriers(actions);
    }

    /** While it plans: the node that bars each path it cannot reach. */
    method FindBarriers(actions: seq<Action>) returns (barriers: set<Path>)
      requires Valid()
      requires forall a <- actions :: a.path != [] && (a.state.ParentCollision? ==> !Plain(fs, a.path))
      ensures forall p :: p in barriers <==> InTheWay(fs, actions, p)
    {
      barriers := {};
      for i := 0 to |actions|
        invariant forall p :: p in barriers <==> InTheWay(fs, actions[..i], p)
      {
        if actions[i].state.ParentCollision? {
          var at := FindParentCollision(fs, actions[i].path);
          BarrierIs(fs, actions[i].path, at.value);
          barriers := barriers + {actions[i].path[..at.value]};
        }
        forall p ensures p in barriers <==> InTheWay(fs, actions[..i + 1], p) { OneMoreBarrier(fs, actions, i, p); }
      }
      assert actions[..|actions|] == actions;
    }

    /** The barriers, then each action that collided, by path. */
    method GatherCollisions(ghost start: Tree, actions: seq<Action>, states: seq<State>, barriers: set<Path>)
      returns (collisions: map<Path, State>)
      requires |states| == |actions| && forall p :: p in barriers <==> InTheWay(start, actions, p)
      ensures Reports(start, actions, states, collisions)
    {
      collisions := map p | p in barriers :: ParentCollision;
      for i := 0 to |actions|
        invariant forall p | p in barriers :: p in collisions
        invariant forall p | p in collisions ::
                    CollidedAt(actions, states[..i], p, collisions[p])
                        || (collisions[p].ParentCollision? && p in barriers)
        invariant forall p, s | CollidedAt(actions, states[..i], p, s) ::
                    p in collisions && CollidedAt(actions, states[..i], p, collisions[p])
      {
        ghost var done := states[..i + 1];
        if Collides(states[i]) { collisions := collisions[actions[i].path := states[i]]; }
        forall p | p in collisions
          ensures CollidedAt(actions, done, p, collisions[p])
                  || (collisions[p].ParentCollision? && p in barriers)
        {
          OneMoreCollision(actions, states, i, p, collisions[p]);
        }
        forall p, s | CollidedAt(actions, done, p, s)
          ensures p in collisions && CollidedAt(actions, done, p, collisions[p])
        {
          OneMoreCollision(actions, states, i, p, s);
          OneMoreCollision(actions, states, i, p, collisions[p]);
        }
      }
      assert states[..|actions|] == states;
    }

    /** Every file of the package, then every declared skill's alias. */
    method MakePlan(pkg: Package) returns (actions: seq<Action>)
      requires Trusted(manifest)
      ensures actions == Plan(fs, Owned(manifest), pkg)
    {
      var owned := Owned(manifest);
      actions := [];
      for i := 0 to |pkg.records|
        invariant |actions| == i
        invariant forall k | 0 <= k < i :: actions[k] == FileAction(fs, owned, pkg.records[k])
      {
        actions := actions + [FileAction(fs, owned, pkg.records[i])];
      }
      var aliases: seq<Action> := [];
      for i := 0 to |DECLARED|
        invariant |aliases| == i
        invariant forall k | 0 <= k < i :: aliases[k] == AliasAction(fs, owned, pkg, DECLARED[k])
      {
        aliases := aliases + [AliasAction(fs, owned, pkg, DECLARED[i])];
      }
      ghost var plan := Plan(fs, owned, pkg);
      assert forall k | 0 <= k < |DECLARED| :: plan[|pkg.records| + k] == aliases[k];
      assert plan[|pkg.records|..] == aliases;
      assert plan[..|pkg.records|] == actions;
      assert plan == plan[..|pkg.records|] + plan[|pkg.records|..];
      actions := actions + aliases;
    }

    /** Apply one action at a time, up to the point of a kill. */
    method ApplyPlan(actions: seq<Action>, script: Script)
      returns (states: seq<State>, created: seq<Path>, upgraded: seq<Path>, current: seq<Path>)
      modifies this`fs
      ensures var n := if script.stop.Some? then Min(script.stop.value, |actions|) else |actions|;
              && (fs, states) == ApplyN(old(fs), actions, script, n)
              && created == Listing(actions, states, n, Created)
              && upgraded == Listing(actions, states, n, Upgraded)
              && current == Listing(actions, states, n, UnchangedOwned)
    {
      states, created, upgraded, current := [], [], [], [];
      var limit := if script.stop.Some? then Min(script.stop.value, |actions|) else |actions|;
      for i := 0 to limit
        invariant (fs, states) == ApplyN(old(fs), actions, script, i)
        invariant created == Listing(actions, states, i, Created)
        invariant upgraded == Listing(actions, states, i, Upgraded)
        invariant current == Listing(actions, states, i, UnchangedOwned)
      {
        var (after, state) := ApplyOne(fs, actions[i], FaultAt(script, i));
        ListingGrows(actions, states, state);
        fs, states := after, states + [state];
        if state.Created? {
          created := created + [actions[i].path];
        } else if state.Upgraded? {
          upgraded := upgraded + [actions[i].path];
        } else if state.UnchangedOwned? {
          current := current + [actions[i].path];
        }
      }
    }

    /** The old entries, then one for every action that stands recorded. */
    method Renew(owned: Entries, actions: seq<Action>, states: seq<State>) returns (renewed: Entries)
      requires |actions| == |states|
      ensures renewed == FreshN(owned, actions, states, |actions|)
    {
      renewed := owned;
      for i := 0 to |actions|
        invariant renewed == FreshN(owned, actions, states, i)
      {
        if Records(states[i]) {
          match actions[i].payload
          case Bare =>
          case FileOf(r) => renewed := renewed[actions[i].path := FileEntry(OfBytes(r.bytes))];
          case AliasOf(digest, target) => renewed := renewed[actions[i].path := AliasEntry(digest, target)];
        }
      }
    }

    /** `skills_teardown`: judge and remove one entry at a time, then rewrite or
        remove the manifest, then prune. */
    method Teardown(order: seq<Path>, tear: TearScript) returns (report: TeardownReport)
      requires Valid()
      requires Trusted(manifest) ==> Enumerates(order, Owned(manifest)) && Covers(Owned(manifest), order)
      modifies this
      ensures (fs, manifest) == TeardownStep(old(fs), old(manifest), order, tear)
      ensures report.TeardownRefused? <==> !Trusted(old(manifest))
      ensures report.TeardownRefused? || report.NothingOwned? ==> fs == old(fs)
      ensures !report.TornDown? ==> manifest == old(manifest)
      ensures report.NothingOwned? <==> Trusted(old(manifest)) && Owned(old(manifest)) == map[]
      ensures Trusted(old(manifest)) && Owned(old(manifest)) != map[] ==>
                var pr := TearN(old(fs), Owned(old(manifest)), order, |order|);
                report == if tear.stop.Some? || tear.manifestFails || pr.raised then TeardownCrashed
                          else TornDown(pr.removed, pr.preserved, pr.absent)
    {
      if !Trusted(manifest) { return TeardownRefused; }
      var owned := Owned(manifest);
      if owned == map[] { return NothingOwned; }
      var limit := if tear.stop.Some? then Min(tear.stop.value, |order|) else |order|;
      var crashed, removed, preserved, absent := RemoveMatching(owned, order, limit);
      if crashed || tear.stop.Some? || tear.manifestFails { return TeardownCrashed; }
      var kept := map p | p in owned && p in preserved :: owned[p];
      assert kept == Restrict(owned, preserved);
      manifest := if kept == map[] then Absent else Saved(manifest.source, manifest.package, kept);
      fs := RemoveEmptyDirs(fs, tear.prune);
      report := TornDown(removed, preserved, absent);
    }

    /** The removal loop; `crashed` once an lstat raises. */
    method RemoveMatching(owned: Entries, order: seq<Path>, limit: nat)
      returns (crashed: bool, removed: seq<Path>, preserved: seq<Path>, absent: seq<Path>)
      requires limit <= |order| && Covers(owned, order)
      modifies this`fs
      ensures TearN(old(fs), owned, order, limit) == Progress(fs, removed, preserved, absent, crashed)
    {
      crashed, removed, preserved, absent := false, [], [], [];
      var i := 0;
      while i < limit
        invariant 0 <= i <= limit && !crashed
        invariant TearN(old(fs), owned, order, i) == Progress(fs, removed, preserved, absent, false)
      {
        var p := order[i];
        assert p in order;
        match Judge(fs, p, owned[p]) {
          case AlreadyAbsent => absent := absent + [p];
          case Mismatched => preserved := preserved + [p];
          case Matching(q) => fs, removed := fs - {q}, removed + [p];
          case Raised =>
            RaisedStays(old(fs), owned, order, i + 1, limit);
            return true, removed, preserved, absent;
        }
        i := i + 1;
      }
    }

    /** `survey_skills_teardown`: the same judgements without a change. None is
        an lstat that raised. */
    method Survey(order: seq<Path>) returns (raised: bool, removed: seq<Path>, preserved: seq<Path>, absent: seq<Path>)
      requires Valid() && Trusted(manifest) && Covers(Owned(manifest), order)
      ensures raised ==> exists i | 0 <= i < |order| :: Judge(fs, order[i], Owned(manifest)[order[i]]).Raised?
      ensures !raised ==> forall i | 0 <= i < |order| :: !Judge(fs, order[i], Owned(manifest)[order[i]]).Raised?
      ensures !raised ==> removed == Sift(fs, Owned(manifest), order, |order|, Removal)
      ensures !raised ==> preserved == Sift(fs, Owned(manifest), order, |order|, Keeping)
      ensures !raised ==> absent == Sift(fs, Owned(manifest), order, |order|, Absence)
    {
      var owned := Owned(manifest);
      raised, removed, preserved, absent := false, [], [], [];
      for i := 0 to |order|
        invariant !raised
        invariant removed == Sift(fs, owned, order, i, Removal)
        invariant preserved == Sift(fs, owned, order, i, Keeping)
        invariant absent == Sift(fs, owned, order, i, Absence)
        invariant forall k | 0 <= k < i :: !Judge(fs, order[k], owned[order[k]]).Raised?
      {
        var verdict := Judge(fs, order[i], owned[order[i]]);
        SiftGrows(fs, owned, order, i);
        match verdict {
          case AlreadyAbsent => absent := absent + [order[i]];
          case Mismatched => preserved := preserved + [order[i]];
          case Matching(_) => removed := removed + [order[i]];
          case Raised => return true, removed, preserved, absent;
        }
      }
    }

    /** `_canonical_state`, gathering one state per file of the skill. */
    method CanonicalState(pkg: Package, skill: string) returns (s: Status)
      requires Valid() && ValidPackage(pkg) && Trusted(manifest)
      ensures s == CanonicalStatus(fs, Owned(manifest), pkg, skill)
    {
      var owned := Owned(manifest);
      var seen: set<FileStatus> := {};
      var selected := false;
      for i := 0 to |pkg.records|
        invariant selected <==> exists k | 0 <= k < i :: OfSkill(pkg.records[k], skill)
        invariant forall f :: f in seen <==> SeenFile(fs, owned, pkg, skill, i, f)
      {
        var r := pkg.records[i];
        if OfSkill(r, skill) {
          selected := true;
          seen := seen + {StatusOfFile(fs, owned, r)};
        }
        forall f { OneMoreFile(fs, owned, pkg, skill, i, f); }
      }
      forall f ensures f in seen <==> SomeFile(fs, owned, pkg, skill, f) { AllFiles(fs, owned, pkg, skill, f); }
      if !selected { return NotInstalled; }
      if FileModified in seen { return Modified; }
      if FileCollided in seen { return Collided; }
      if FileAbsent in seen || FileStale in seen { return if FileStale in seen then Stale else NotInstalled; }
      return CurrentFilesystem;
    }
  }

  lemma {:induction false} RaisedStays(fs: Tree, owned: Entries, order: seq<Path>, n: nat, k: nat)
    requires n <= k <= |order| && forall p <- order :: p in owned && p != []
    requires TearN(fs, owned, order, n).raised
    ensures TearN(fs, owned, order, k) == TearN(fs, owned, order, n)
    decreases k
  {
    if n < k { RaisedStays(fs, owned, order, n, k - 1); }
  }

  lemma {:induction false} ListingEmpty(actions: seq<Action>, states: seq<State>, n: nat, s: State)
    requires n <= |actions| && n <= |states|
    ensures Listing(actions, states, n, s) == [] <==> s !in states[..n]
  {
    if n > 0 {
      ListingEmpty(actions, states, n - 1, s);
      assert states[..n] == states[..n - 1] + [states[n - 1]];
    } else {
      assert states[..0] == [];
    }
  }

  lemma NothingListed(actions: seq<Action>, states: seq<State>)
    requires |states| == |actions|
    ensures var n := |actions|;
            Changed(states)
            <==> Listing(actions, states, n, Created) != [] || Listing(actions, states, n, Upgraded) != []
  {
    ListingEmpty(actions, states, |actions|, Created);
    ListingEmpty(actions, states, |actions|, Upgraded);
    assert states[..|actions|] == states;
  }
}
