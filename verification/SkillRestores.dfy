/** The manifest an install leaves, and that a teardown undoes the install. */
module SkillRestores {
  import opened Wrappers
  import opened Text
  import opened HomeTree
  import opened SkillModel
  import opened SkillSteps
  import opened SkillRuns
  import opened SkillSurveys
  import opened SkillInstalls

  // ---- the entries one install records

  predicate Enters(a: Action, s: State) { Records(s) && !a.payload.Bare? }

  function EntryOf(a: Action): Entry
    requires !a.payload.Bare?
  {
    match a.payload
    case FileOf(r) => FileEntry(OfBytes(r.bytes))
    case AliasOf(digest, target) => AliasEntry(digest, target)
  }

  ghost predicate EnteredAt(actions: seq<Action>, states: seq<State>, n: nat, p: Path)
    requires n <= |actions| == |states|
  {
    exists i :: 0 <= i < n && Enters(actions[i], states[i]) && actions[i].path == p
  }

  lemma {:induction false} FreshEntry(owned: Entries, actions: seq<Action>, states: seq<State>, n: nat, i: nat)
    requires i < n <= |actions| == |states| && Apart(actions) && Enters(actions[i], states[i])
    ensures var e := FreshN(owned, actions, states, n);
            actions[i].path in e && e[actions[i].path] == EntryOf(actions[i])
  {
    if i < n - 1 {
      FreshEntry(owned, actions, states, n - 1, i);
      assert !(actions[i].path <= actions[n - 1].path);
    }
  }

  lemma {:induction false} FreshOther(owned: Entries, actions: seq<Action>, states: seq<State>, n: nat, p: Path)
    requires n <= |actions| == |states| && !EnteredAt(actions, states, n, p)
    ensures var e := FreshN(owned, actions, states, n); (p in e <==> p in owned) && (p in e ==> e[p] == owned[p])
  {
    if n > 0 {
      assert EnteredAt(actions, states, n - 1, p) ==> EnteredAt(actions, states, n, p);
      FreshOther(owned, actions, states, n - 1, p);
    }
  }

  /** What an install can only enter for a path already in the manifest. */
  lemma EnteredWasOwned(fs: Tree, owned: Entries, pkg: Package, i: nat)
    requires i < |pkg.records| + |DECLARED|
    requires var a := Plan(fs, owned, pkg)[i]; a.state in {UnchangedOwned, SafelyUpgradeable}
    ensures Plan(fs, owned, pkg)[i].path in owned
  {
    PlanPath(fs, owned, pkg, i);
  }

  lemma EnteredOrCreated(fs: Tree, owned: Entries, pkg: Package, mid: Tree, fault: Option<nat>, i: nat)
    requires i < |pkg.records| + |DECLARED|
    ensures var a := Plan(fs, owned, pkg)[i];
            var s := ApplyOne(mid, a, fault).1;
            && (s.Created? ==> Enters(a, s))
            && (Enters(a, s) && !s.Created? ==> a.path in owned)
  {
    var a := Plan(fs, owned, pkg)[i];
    PlannedState(fs, owned, pkg, i);
    ApplyRecords(mid, a, fault);
    if a.state in {UnchangedOwned, SafelyUpgradeable} { EnteredWasOwned(fs, owned, pkg, i); }
  }

  /** No action is planned as already applied. */
  lemma PlannedState(fs: Tree, owned: Entries, pkg: Package, i: nat)
    requires i < |pkg.records| + |DECLARED|
    ensures Plan(fs, owned, pkg)[i].state !in {Created, Upgraded}
  {
    PlanPath(fs, owned, pkg, i);
  }

  lemma ApplyRecords(mid: Tree, a: Action, fault: Option<nat>)
    requires a.state !in {Created, Upgraded}
    ensures var s := ApplyOne(mid, a, fault).1;
            && (s.Created? ==> Enters(a, s))
            && (Enters(a, s) && !s.Created? ==> a.state in {UnchangedOwned, SafelyUpgradeable})
  {
  }

  ghost predicate CreatedAt(actions: seq<Action>, states: seq<State>, p: Path)
    requires |actions| == |states|
  {
    exists i :: 0 <= i < |actions| && actions[i].path == p && states[i].Created?
  }

  /** Manifest soundness: whatever fails, an install's manifest covers exactly
      the old entries and the paths that install created. */
  lemma ManifestDomain(fs: Tree, owned: Entries, pkg: Package, script: Script, p: Path)
    requires ValidPackage(pkg)
    ensures var actions := Plan(fs, owned, pkg);
            var states := ApplyN(fs, actions, script, |actions|).1;
            p in FreshN(owned, actions, states, |actions|) <==> p in owned || CreatedAt(actions, states, p)
  {
    var actions := Plan(fs, owned, pkg);
    var states := ApplyN(fs, actions, script, |actions|).1;
    PlanIsApart(fs, owned, pkg);
    forall i | 0 <= i < |actions|
      ensures states[i].Created? ==> Enters(actions[i], states[i])
      ensures Enters(actions[i], states[i]) && !states[i].Created? ==> actions[i].path in owned
    {
      StateIsFinal(fs, actions, script, |actions|, i);
      EnteredOrCreated(fs, owned, pkg, ApplyN(fs, actions, script, i).0, FaultAt(script, i), i);
    }
    DomainOf(owned, actions, states, p);
  }

  lemma DomainOf(owned: Entries, actions: seq<Action>, states: seq<State>, p: Path)
    requires |actions| == |states| && Apart(actions)
    requires forall i | 0 <= i < |actions| :: states[i].Created? ==> Enters(actions[i], states[i])
    requires forall i | 0 <= i < |actions| ::
               Enters(actions[i], states[i]) && !states[i].Created? ==> actions[i].path in owned
    ensures p in FreshN(owned, actions, states, |actions|) <==> p in owned || CreatedAt(actions, states, p)
  {
    if EnteredAt(actions, states, |actions|, p) {
      var i :| 0 <= i < |actions| && Enters(actions[i], states[i]) && actions[i].path == p;
      FreshEntry(owned, actions, states, |actions|, i);
    } else {
      FreshOther(owned, actions, states, |actions|, p);
    }
  }

  lemma {:induction false} StateIsFinal(fs: Tree, actions: seq<Action>, script: Script, n: nat, i: nat)
    requires i < n <= |actions|
    ensures ApplyN(fs, actions, script, n).1[i]
            == ApplyOne(ApplyN(fs, actions, script, i).0, actions[i], FaultAt(script, i)).1
  {
    if i < n - 1 { StateIsFinal(fs, actions, script, n - 1, i); }
  }

  // ---- the next read accepts what an install recorded

  /** A record the manifest can name: below a skill, no backslash. */
  predicate Recordable(r: Record) {
    |r.path| >= 2 && CleanPath(r.path) && forall c <- r.path :: '\\' !in c
  }

  lemma FileEntryValid(r: Record, digest: Digest)
    requires CleanPath(r.path)
    ensures ValidEntry(Dest(r), FileEntry(digest)) <==> Recordable(r)
  {
    DestIsClean(r);
    assert forall c <- r.path :: c in Dest(r);
    assert forall c <- Dest(r) :: c in CANONICAL || c in r.path;
    assert CANONICAL <= Dest(r);
  }

  lemma AliasEntryValid(skill: string, digest: Digest)
    requires skill in DECLARED
    ensures ValidEntry(AliasPath(skill), AliasEntry(digest, AliasTarget(skill)))
  {
    AliasIsClean(skill);
    assert forall c <- AliasPath(skill) :: c in COMPATIBILITY || c == skill;
  }

  /** The manifest an install writes, whatever failed on the way, is one the next
      command accepts exactly when every file it entered is recordable. */
  lemma ManifestReadsBack(fs: Tree, m: Manifest, pkg: Package, script: Script)
    requires ValidPackage(pkg) && Trusted(m)
    ensures var owned := Owned(m);
            var actions := Plan(fs, owned, pkg);
            var states := ApplyN(fs, actions, script, |actions|).1;
            Trusted(Saved(pkg.version, pkg.version, FreshN(owned, actions, states, |actions|)))
            <==> forall i | 0 <= i < |pkg.records| && Enters(actions[i], states[i]) :: Recordable(pkg.records[i])
  {
    var owned := Owned(m);
    var actions := Plan(fs, owned, pkg);
    var states := ApplyN(fs, actions, script, |actions|).1;
    var e := FreshN(owned, actions, states, |actions|);
    PlanIsApart(fs, owned, pkg);
    forall i | 0 <= i < |actions| && Enters(actions[i], states[i])
      ensures actions[i].path in e
      ensures ValidEntry(actions[i].path, e[actions[i].path]) <==> (i < |pkg.records| ==> Recordable(pkg.records[i]))
    {
      FreshEntry(owned, actions, states, |actions|, i);
      EnteredValid(fs, owned, pkg, i);
    }
    forall p | p in e && !EnteredAt(actions, states, |actions|, p) ensures ValidEntry(p, e[p]) {
      FreshOther(owned, actions, states, |actions|, p);
    }
  }

  lemma EnteredValid(fs: Tree, owned: Entries, pkg: Package, i: nat)
    requires ValidPackage(pkg) && i < |pkg.records| + |DECLARED|
    requires !Plan(fs, owned, pkg)[i].payload.Bare?
    ensures var a := Plan(fs, owned, pkg)[i];
            ValidEntry(a.path, EntryOf(a)) <==> (i < |pkg.records| ==> Recordable(pkg.records[i]))
  {
    PlanPath(fs, owned, pkg, i);
    if i < |pkg.records| {
      FileEntryValid(pkg.records[i], OfBytes(pkg.records[i].bytes));
    } else {
      AliasEntryValid(DECLARED[i - |pkg.records|], OfLines(SkillLines(pkg.records, DECLARED[i - |pkg.records|])));
    }
  }

  // ---- the keys of the document itself

  /** `_safe_relative`: a relative POSIX path, its parts normalised. */
  function SafeRelative(key: string): Option<Path> {
    if key == "" || '\\' in key || key[0] == '/' then None
    else
      var parts := KeepParts(Split(key, '/'));
      if ".." in parts then None else Some(parts)
  }

  /** Which keys are refused, and what the others name: the parts between their
      slashes, empty ones and single dots left out. */
  lemma {:induction false} SafeKeys(key: string)
    ensures SafeRelative(key).None?
            <==> key == "" || '\\' in key || key[0] == '/' || ".." in Split(key, '/')
    ensures SafeRelative(key).Some? ==>
              forall part | part != "" && part != "." ::
                part in SafeRelative(key).value <==> part in Split(key, '/')
  {
    forall part | part != "" && part != "." ensures part in KeepParts(Split(key, '/')) <==> part in Split(key, '/') {
      KeptParts(Split(key, '/'), part);
    }
  }

  lemma {:induction false} KeptAll(parts: seq<string>)
    requires forall part <- parts :: part != "" && part != "."
    ensures KeepParts(parts) == parts
  {
    if parts != [] {
      assert parts[0] in parts && forall part <- parts[1..] :: part in parts;
      KeptAll(parts[1..]);
      assert [parts[0]] + parts[1..] == parts;
    }
  }

  lemma {:induction false} JoinHas(parts: seq<string>, c: char)
    requires parts != [] && c != '/'
    ensures c in Join(parts, '/') <==> exists part <- parts :: c in part
  {
    if |parts| > 1 {
      JoinHas(parts[1..], c);
      assert parts == [parts[0]] + parts[1..];
    }
  }

  /** The key a manifest writes for a real path names that path again, unless
      a component holds a backslash. */
  lemma KeyReadsBack(p: Path)
    requires p != [] && CleanPath(p)
    ensures SafeRelative(Join(p, '/')) == if exists c <- p :: '\\' in c then None else Some(p)
  {
    assert CleanName(p[0]);
    SplitJoin(p, '/');
    KeptAll(p);
    JoinHas(p, '\\');
    assert Join(p, '/')[0] == p[0][0];
    assert ".." !in p;
  }

  // ---- install, then teardown

  predicate Leaf(fs: Tree, q: Path) { q in fs && !fs[q].Dir? }

  ghost predicate SameLeaves(a: Tree, b: Tree) {
    forall q :: (Leaf(a, q) <==> Leaf(b, q)) && (Leaf(a, q) ==> a[q] == b[q])
  }

  /** A first install enters exactly what it places, and places over nothing. */
  lemma {:induction false} FirstApply(fs: Tree, pkg: Package)
    requires WellFormed(fs) && ValidPackage(pkg)
    ensures var actions := Plan(fs, map[], pkg);
            var (out, states) := ApplyN(fs, actions, CLEAN, |actions|);
            && Applied(fs, actions, |actions|, out)
            && forall i | 0 <= i < |actions| ::
                 && (Enters(actions[i], states[i]) <==> Places(actions[i]))
                 && (Places(actions[i]) ==> actions[i].path !in fs)
  {
    var actions := Plan(fs, map[], pkg);
    PlanIsApart(fs, map[], pkg);
    forall i | 0 <= i < |actions| && Places(actions[i]) ensures CanPlace(fs, actions[i].path) {
      PlanCanPlace(fs, map[], pkg, i);
    }
    CleanApply(fs, actions, |actions|);
    var states := ApplyN(fs, actions, CLEAN, |actions|).1;
    forall i | 0 <= i < |actions|
      ensures Enters(actions[i], states[i]) <==> Places(actions[i])
      ensures Places(actions[i]) ==> actions[i].path !in fs
    {
      FirstAction(fs, pkg, i);
    }
  }

  /** A first install's creations, as the tree and the manifest show them. */
  lemma {:induction false} FirstInstall(fs: Tree, pkg: Package, p: Path)
    requires WellFormed(fs) && ValidPackage(pkg)
    ensures var actions := Plan(fs, map[], pkg);
            var (out, states) := ApplyN(fs, actions, CLEAN, |actions|);
            var e := FreshN(map[], actions, states, |actions|);
            && WellFormed(out)
            && (p in e <==> PlacedAt(actions, |actions|, p))
            && (p in e ==>
                 && p !in fs && p != [] && CleanPath(p) && p in out
                 && Judge(out, p, e[p]) == Matching(p) && DirectAt(out, p))
            && (p in fs ==> p in out && out[p] == fs[p])
            && (p in out && p !in fs && p !in e ==> out[p].Dir?)
  {
    var actions := Plan(fs, map[], pkg);
    PlanIsApart(fs, map[], pkg);
    FirstApply(fs, pkg);
    var (out, states) := ApplyN(fs, actions, CLEAN, |actions|);
    var e := FreshN(map[], actions, states, |actions|);
    if EnteredAt(actions, states, |actions|, p) {
      var i :| 0 <= i < |actions| && Enters(actions[i], states[i]) && actions[i].path == p;
      FreshEntry(map[], actions, states, |actions|, i);
      PlannedIsClean(fs, map[], pkg, i);
      StandsAsEntered(fs, actions, out, i);
    } else {
      FreshOther(map[], actions, states, |actions|, p);
    }
  }

  lemma PlannedIsClean(fs: Tree, owned: Entries, pkg: Package, i: nat)
    requires ValidPackage(pkg) && i < |Plan(fs, owned, pkg)|
    ensures var p := Plan(fs, owned, pkg)[i].path; CleanPath(p) && p != []
  {
    PlanPath(fs, owned, pkg, i);
    if i < |pkg.records| { DestIsClean(pkg.records[i]); } else { AliasIsClean(DECLARED[i - |pkg.records|]); }
  }

  /** A placed node stands at its path and matches its own entry. */
  lemma StandsAsEntered(fs: Tree, actions: seq<Action>, out: Tree, i: nat)
    requires WellFormed(out) && Applied(fs, actions, |actions|, out) && i < |actions| && Places(actions[i])
    requires CleanPath(actions[i].path) && actions[i].path != []
    ensures var p := actions[i].path;
            p in out && DirectAt(out, p) && Judge(out, p, EntryOf(actions[i])) == Matching(p)
  {
    assert PlacedAt(actions, |actions|, actions[i].path);
    StandsDirect(out, actions[i].path);
  }

  lemma FirstAction(fs: Tree, pkg: Package, i: nat)
    requires i < |pkg.records| + |DECLARED|
    ensures var a := Plan(fs, map[], pkg)[i];
            && (Enters(a, FinalState(a)) <==> Places(a))
            && (Places(a) ==> a.path !in fs)
  {
    PlanPath(fs, map[], pkg, i);
  }

  lemma StandsDirect(fs: Tree, p: Path)
    requires WellFormed(fs) && p in fs && CleanPath(p) && p != []
    ensures DirectAt(fs, p) && Locate(fs, p) == At(p)
  {
    forall k | 0 < k < |p| && p[..k] in fs ensures !fs[p[..k]].Link? {
      AncestorsExist(fs, p, k);
    }
    UnlinkedLocate(fs, p);
  }

  /** Every file the install of `pkg` into a home without a manifest creates is
      recordable. */
  ghost predicate PlacesRecordable(fs: Tree, pkg: Package) {
    var actions := Plan(fs, map[], pkg);
    forall i | 0 <= i < |pkg.records| && Places(actions[i]) :: Recordable(pkg.records[i])
  }

  lemma {:induction false} FirstTrusted(fs: Tree, pkg: Package)
    requires WellFormed(fs) && ValidPackage(pkg)
    ensures Trusted(InstallStep(fs, Absent, pkg, CLEAN).1) <==> PlacesRecordable(fs, pkg)
  {
    ManifestReadsBack(fs, Absent, pkg, CLEAN);
    FirstApply(fs, pkg);
    FirstInstalls(fs, pkg);
    var actions := Plan(fs, map[], pkg);
    EntersWhatItPlaces(pkg, actions, ApplyN(fs, actions, CLEAN, |actions|).1);
  }

  lemma {:induction false} EntersWhatItPlaces(pkg: Package, actions: seq<Action>, states: seq<State>)
    requires |pkg.records| <= |actions| == |states|
    requires forall i | 0 <= i < |actions| :: Enters(actions[i], states[i]) <==> Places(actions[i])
    ensures (forall i | 0 <= i < |pkg.records| && Enters(actions[i], states[i]) :: Recordable(pkg.records[i]))
            <==> forall i | 0 <= i < |pkg.records| && Places(actions[i]) :: Recordable(pkg.records[i])
  {
  }

  lemma FirstInstalls(fs: Tree, pkg: Package)
    ensures var actions := Plan(fs, map[], pkg);
            var e := FreshN(map[], actions, ApplyN(fs, actions, CLEAN, |actions|).1, |actions|);
            InstallStep(fs, Absent, pkg, CLEAN).1 == Saved(pkg.version, pkg.version, e)
  {
  }

  /** From any home without a manifest, an uninterrupted install followed by a
      teardown gives back every file and link as it was. The manifest is gone
      too, exactly when the install created something: teardown stops short of
      a manifest that owns nothing. With a file the manifest cannot name, the
      teardown is refused and everything stays. */
  lemma InstallThenTeardown(fs: Tree, pkg: Package, order: seq<Path>, prune: seq<Path>)
    requires WellFormed(fs) && ValidPackage(pkg)
    requires var m := InstallStep(fs, Absent, pkg, CLEAN).1;
             Trusted(m) ==> Enumerates(order, Owned(m)) && Covers(Owned(m), order)
    ensures var (mid, m) := InstallStep(fs, Absent, pkg, CLEAN);
            var (out, m') := TeardownStep(mid, m, order, TearScript(None, false, prune));
            && (Trusted(m) <==> PlacesRecordable(fs, pkg))
            && (!Trusted(m) ==> (out, m') == (mid, m))
            && (Trusted(m) ==>
                 && SameLeaves(fs, out)
                 && (m'.Absent? <==> exists i | 0 <= i < |Plan(fs, map[], pkg)| :: Places(Plan(fs, map[], pkg)[i]))
                 && (!m'.Absent? ==> m' == Saved(pkg.version, pkg.version, map[])))
  {
    FirstTrusted(fs, pkg);
    if PlacesRecordable(fs, pkg) { RestoredByTeardown(fs, pkg, order, prune); }
  }

  lemma {:induction false} RestoredByTeardown(fs: Tree, pkg: Package, order: seq<Path>, prune: seq<Path>)
    requires WellFormed(fs) && ValidPackage(pkg)
    requires var m := InstallStep(fs, Absent, pkg, CLEAN).1;
             Trusted(m) && Enumerates(order, Owned(m)) && Covers(Owned(m), order)
    ensures var (mid, m) := InstallStep(fs, Absent, pkg, CLEAN);
            var (out, m') := TeardownStep(mid, m, order, TearScript(None, false, prune));
            && SameLeaves(fs, out)
            && (m'.Absent? <==> exists i | 0 <= i < |Plan(fs, map[], pkg)| :: Places(Plan(fs, map[], pkg)[i]))
            && (!m'.Absent? ==> m' == Saved(pkg.version, pkg.version, map[]))
  {
    var actions := Plan(fs, map[], pkg);
    var (mid, states) := ApplyN(fs, actions, CLEAN, |actions|);
    var e := FreshN(map[], actions, states, |actions|);
    var m := Saved(pkg.version, pkg.version, e);
    assert InstallStep(fs, Absent, pkg, CLEAN) == (mid, m);
    forall p ensures (p in e <==> PlacedAt(actions, |actions|, p))
             ensures (p in e ==> p != [] && DirectAt(mid, p) && Judge(mid, p, e[p]) == Matching(p))
             ensures WellFormed(mid)
    {
      FirstInstall(fs, pkg, p);
    }
    forall i | 0 <= i < |actions| && Places(actions[i]) ensures actions[i].path in e {
      assert PlacedAt(actions, |actions|, actions[i].path);
    }
    var (out, m') := TeardownStep(mid, m, order, TearScript(None, false, prune));
    if e != map[] {
      DirectTeardown(mid, m, order, prune);
      AllGone(mid, m, order, prune);
    }
    forall q ensures (Leaf(fs, q) <==> Leaf(out, q)) && (Leaf(fs, q) ==> fs[q] == out[q]) {
      FirstInstall(fs, pkg, q);
    }
  }

  lemma AllGone(fs: Tree, m: Manifest, order: seq<Path>, prune: seq<Path>)
    requires WellFormed(fs) && Trusted(m) && Owned(m) != map[]
    requires Direct(fs, Owned(m)) && Enumerates(order, Owned(m)) && Covers(Owned(m), order)
    requires forall p | p in Owned(m) && p != [] :: Judge(fs, p, Owned(m)[p]).Matching?
    ensures TeardownStep(fs, m, order, TearScript(None, false, prune)).1.Absent?
  {
    DirectIsIndependent(fs, Owned(m), order);
    MatchesSurveyExactly(fs, Owned(m), order);
    var pr := TearN(fs, Owned(m), order, |order|);
    assert pr.preserved == Sorted(pr, Keeping);
    KeptBySurvey(fs, Owned(m), order);
    var kept := Restrict(Owned(m), Sift(fs, Owned(m), order, |order|, Keeping));
    assert kept == map[];
    TeardownForgets(fs, m, order, prune);
  }

  lemma TeardownForgets(fs: Tree, m: Manifest, order: seq<Path>, prune: seq<Path>)
    requires Trusted(m) && Owned(m) != map[] && Covers(Owned(m), order)
    requires var pr := TearN(fs, Owned(m), order, |order|); !pr.raised && Restrict(Owned(m), pr.preserved) == map[]
    ensures TeardownStep(fs, m, order, TearScript(None, false, prune)).1.Absent?
  {
  }
}
