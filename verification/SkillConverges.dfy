/** Repeating an install without edits settles: the second writes no file or
    link, the third does not even rewrite the manifest. */
module SkillConverges {
  import opened Wrappers
  import opened HomeTree
  import opened SkillModel
  import opened SkillSteps
  import opened SkillInstalls
  import opened SkillRestores

  /** `out` and `after` are what an uninterrupted install made of `fs` and `owned`. */
  ghost predicate Installed(fs: Tree, owned: Entries, pkg: Package, out: Tree, after: Entries) {
    var actions := Plan(fs, owned, pkg);
    var (o, states) := ApplyN(fs, actions, CLEAN, |actions|);
    out == o && after == FreshN(owned, actions, states, |actions|)
  }

  lemma OnePath(actions: seq<Action>, i: nat, j: nat)
    requires Apart(actions) && i < |actions| && j < |actions|
    ensures actions[i].path == actions[j].path ==> i == j
  {
  }

  /** One path of an uninterrupted install. */
  lemma AfterAt(fs: Tree, owned: Entries, pkg: Package, out: Tree, after: Entries, i: nat)
    requires WellFormed(fs) && ValidPackage(pkg) && Installed(fs, owned, pkg, out, after)
    requires i < |pkg.records| + |DECLARED|
    ensures var a := Plan(fs, owned, pkg)[i];
            && WellFormed(out)
            && (if Places(a) then a.path in out && out[a.path] == NodeOf(a)
                else a.path in fs ==> a.path in out && out[a.path] == fs[a.path])
            && (if Enters(a, FinalState(a)) then a.path in after && after[a.path] == EntryOf(a)
                else (a.path in after <==> a.path in owned) && (a.path in after ==> after[a.path] == owned[a.path]))
  {
    var actions := Plan(fs, owned, pkg);
    var a := actions[i];
    PlanIsApart(fs, owned, pkg);
    forall j | 0 <= j < |actions| && Places(actions[j]) ensures CanPlace(fs, actions[j].path) {
      PlanCanPlace(fs, owned, pkg, j);
    }
    CleanApply(fs, actions, |actions|);
    var states := ApplyN(fs, actions, CLEAN, |actions|).1;
    forall j | 0 <= j < |actions| ensures actions[j].path == a.path ==> j == i {
      OnePath(actions, i, j);
    }
    if Enters(a, states[i]) {
      FreshEntry(owned, actions, states, |actions|, i);
    } else {
      FreshOther(owned, actions, states, |actions|, a.path);
    }
  }

  /** What stood as a collision above a destination still does. */
  lemma CollisionStays(fs: Tree, owned: Entries, pkg: Package, out: Tree, after: Entries, i: nat)
    requires WellFormed(fs) && ValidPackage(pkg) && Installed(fs, owned, pkg, out, after)
    requires i < |pkg.records| + |DECLARED| && !Plain(fs, PathAt(pkg, i))
    ensures !Plain(out, PathAt(pkg, i))
  {
    var actions := Plan(fs, owned, pkg);
    var p := PathAt(pkg, i);
    PlanIsApart(fs, owned, pkg);
    PlanPath(fs, owned, pkg, i);
    forall j | 0 <= j < |actions| && Places(actions[j]) ensures CanPlace(fs, actions[j].path) {
      PlanCanPlace(fs, owned, pkg, j);
    }
    CleanApply(fs, actions, |actions|);
    var k :| 0 < k < |p| && p[..k] in fs && !fs[p[..k]].Dir?;
    assert p[..k] <= p;
    assert !PlacedAt(actions, |actions|, p[..k]) by {
      forall j | 0 <= j < |actions| ensures actions[j].path != p[..k] {
        if j != i { assert !(actions[j].path <= actions[i].path); }
      }
    }
    assert p[..k] in out && out[p[..k]] == fs[p[..k]];
  }

  lemma PlainOnceThere(fs: Tree, p: Path)
    requires WellFormed(fs) && p in fs
    ensures Plain(fs, p)
  {
    forall k | 0 < k < |p| && p[..k] in fs ensures fs[p[..k]].Dir? {
      AncestorsExist(fs, p, k);
    }
  }

  lemma FileSettles(fs: Tree, owned: Entries, pkg: Package, out: Tree, after: Entries, i: nat)
    requires WellFormed(fs) && ValidPackage(pkg) && Installed(fs, owned, pkg, out, after)
    requires i < |pkg.records|
    ensures var s := PlanFile(fs, owned, pkg.records[i]);
            PlanFile(out, after, pkg.records[i]) == if Safe(s) then UnchangedOwned else s
    ensures PlanFile(out, after, pkg.records[i]).UnchangedOwned? ==>
              Dest(pkg.records[i]) in after && after[Dest(pkg.records[i])] == FileEntry(OfBytes(pkg.records[i].bytes))
  {
    AfterAt(fs, owned, pkg, out, after, i);
    PlanPath(fs, owned, pkg, i);
    if PlanFile(fs, owned, pkg.records[i]).ParentCollision? {
      CollisionStays(fs, owned, pkg, out, after, i);
    } else {
      PlainOnceThere(out, Dest(pkg.records[i]));
    }
  }

  lemma ReadySettles(fs: Tree, owned: Entries, pkg: Package, out: Tree, after: Entries, skill: string)
    requires WellFormed(fs) && WellFormed(out) && ValidPackage(pkg) && Installed(fs, owned, pkg, out, after)
    ensures CanonicalReady(out, after, pkg, skill) <==> CanonicalReady(fs, owned, pkg, skill)
    ensures CanonicalReady(out, after, pkg, skill) ==>
              CurrentLines(out, pkg.records, skill) == Some(SkillLines(pkg.records, skill))
    ensures !Upgrading(out, after, pkg, skill)
  {
    forall r | r in pkg.records
      ensures var s := PlanFile(fs, owned, r); PlanFile(out, after, r) == if Safe(s) then UnchangedOwned else s
    {
      var i :| 0 <= i < |pkg.records| && pkg.records[i] == r;
      FileSettles(fs, owned, pkg, out, after, i);
    }
    if CanonicalReady(out, after, pkg, skill) { LinesOfReady(out, after, pkg.records, skill); }
  }

  lemma AliasSettles(fs: Tree, owned: Entries, pkg: Package, out: Tree, after: Entries, k: nat)
    requires WellFormed(fs) && ValidPackage(pkg) && Installed(fs, owned, pkg, out, after)
    requires k < |DECLARED|
    ensures PlanAlias(out, after, pkg, DECLARED[k]) !in {Missing_, SafelyUpgradeable}
  {
    var i := |pkg.records| + k;
    var skill := DECLARED[k];
    AfterAt(fs, owned, pkg, out, after, i);
    PlanPath(fs, owned, pkg, i);
    ReadySettles(fs, owned, pkg, out, after, skill);
    if Ships(pkg, skill) && CanonicalReady(fs, owned, pkg, skill) {
      if !Plain(fs, AliasPath(skill)) {
        CollisionStays(fs, owned, pkg, out, after, i);
      }
    }
  }

  /** An action that neither writes nor counts as a change. */
  predicate Idle(a: Action) {
    !Places(a) && a.state !in {SafelyUpgradeable, Created, Upgraded}
  }

  lemma {:induction false} IdleApply(fs: Tree, actions: seq<Action>, script: Script, n: nat)
    requires n <= |actions|
    requires forall a <- actions :: Idle(a)
    ensures var (out, states) := ApplyN(fs, actions, script, n);
            out == fs && (forall i | 0 <= i < n :: states[i] == actions[i].state) && !Changed(states)
  {
    if n > 0 {
      IdleApply(fs, actions, script, n - 1);
      assert Idle(actions[n - 1]);
    }
  }

  lemma FileIdle(fs: Tree, owned: Entries, r: Record)
    requires PlanFile(fs, owned, r) !in {Missing_, SafelyUpgradeable}
    ensures Idle(FileAction(fs, owned, r))
  {
  }

  lemma AliasIdle(fs: Tree, owned: Entries, pkg: Package, skill: string)
    requires PlanAlias(fs, owned, pkg, skill) !in {Missing_, SafelyUpgradeable}
    ensures Idle(AliasAction(fs, owned, pkg, skill))
  {
  }

  lemma ActionSettles(fs: Tree, owned: Entries, pkg: Package, out: Tree, after: Entries, i: nat)
    requires WellFormed(fs) && ValidPackage(pkg) && Installed(fs, owned, pkg, out, after)
    requires i < |pkg.records| + |DECLARED|
    ensures Idle(Plan(out, after, pkg)[i])
  {
    PlanPath(out, after, pkg, i);
    if i < |pkg.records| {
      FileSettles(fs, owned, pkg, out, after, i);
      FileIdle(out, after, pkg.records[i]);
    } else {
      AliasSettles(fs, owned, pkg, out, after, i - |pkg.records|);
      AliasIdle(out, after, pkg, DECLARED[i - |pkg.records|]);
    }
  }

  lemma PlanSettles(fs: Tree, owned: Entries, pkg: Package, out: Tree, after: Entries)
    requires WellFormed(fs) && ValidPackage(pkg) && Installed(fs, owned, pkg, out, after)
    ensures forall a <- Plan(out, after, pkg) :: Idle(a)
  {
    var again := Plan(out, after, pkg);
    forall i | 0 <= i < |again| ensures Idle(again[i]) {
      ActionSettles(fs, owned, pkg, out, after, i);
    }
  }

  /** A second install of the same package, whatever befalls it, writes no
      skill file, link or directory. */
  lemma SecondInstallWritesNothing(fs: Tree, m: Manifest, pkg: Package, script: Script)
    requires WellFormed(fs) && ValidPackage(pkg) && Trusted(m)
    ensures var (out, m') := InstallStep(fs, m, pkg, CLEAN);
            InstallStep(out, m', pkg, script).0 == out
  {
    var (out, m') := InstallStep(fs, m, pkg, CLEAN);
    if Trusted(m') {
      PlanSettles(fs, Owned(m), pkg, out, Owned(m'));
      var again := Plan(out, Owned(m'), pkg);
      IdleApply(out, again, script, |again|);
      if script.stop.Some? { IdleApply(out, again, script, Min(script.stop.value, |again|)); }
    }
  }

  // ---- the third install

  /** The manifests of two settled installs differ at most in alias digests. */
  ghost predicate Alike(a: Entries, b: Entries) {
    forall p :: AlikeAt(a, b, p)
  }

  predicate AlikeAt(a: Entries, b: Entries, p: Path) {
    (p in a <==> p in b) && (p in a ==> a[p] == b[p] || (a[p].AliasEntry? && b[p].AliasEntry?))
  }

  lemma AlikePlans(fs: Tree, a: Entries, b: Entries, pkg: Package)
    requires Alike(a, b)
    ensures Plan(fs, a, pkg) == Plan(fs, b, pkg)
  {
    forall r | r in pkg.records ensures PlanFile(fs, a, r) == PlanFile(fs, b, r) {
      assert AlikeAt(a, b, Dest(r));
    }
    forall k | 0 <= k < |DECLARED| ensures PlanAlias(fs, a, pkg, DECLARED[k]) == PlanAlias(fs, b, pkg, DECLARED[k]) {
      assert AlikeAt(a, b, AliasPath(DECLARED[k]));
    }
    var x, y := Plan(fs, a, pkg), Plan(fs, b, pkg);
    forall i | 0 <= i < |x| ensures x[i] == y[i] {
      PlanPath(fs, a, pkg, i);
      PlanPath(fs, b, pkg, i);
    }
  }

  lemma {:induction false} SecondEntry(fs: Tree, owned: Entries, pkg: Package, out: Tree, after: Entries, i: nat)
    requires WellFormed(fs) && ValidPackage(pkg) && Installed(fs, owned, pkg, out, after)
    requires i < |pkg.records| + |DECLARED|
    ensures var a := Plan(out, after, pkg)[i];
            Enters(a, a.state) ==>
              a.path in after && (after[a.path] == EntryOf(a) || (after[a.path].AliasEntry? && EntryOf(a).AliasEntry?))
  {
    PlanPath(out, after, pkg, i);
    if i < |pkg.records| {
      FileSettles(fs, owned, pkg, out, after, i);
      FileEntered(out, after, pkg.records[i]);
    } else {
      AliasSettles(fs, owned, pkg, out, after, i - |pkg.records|);
      AliasEntered(out, after, pkg, DECLARED[i - |pkg.records|]);
    }
  }

  lemma FileEntered(out: Tree, after: Entries, r: Record)
    requires PlanFile(out, after, r) !in {Missing_, SafelyUpgradeable}
    ensures var a := FileAction(out, after, r);
            Enters(a, a.state) ==> a.state.UnchangedOwned? && EntryOf(a) == FileEntry(OfBytes(r.bytes))
  {
  }

  lemma AliasEntered(out: Tree, after: Entries, pkg: Package, skill: string)
    requires PlanAlias(out, after, pkg, skill) !in {Missing_, SafelyUpgradeable}
    ensures var a := AliasAction(out, after, pkg, skill);
            Enters(a, a.state) ==> EntryOf(a).AliasEntry? && a.path in after && after[a.path].AliasEntry?
  {
  }

  lemma SecondEntries(fs: Tree, owned: Entries, pkg: Package, out: Tree, after: Entries, last: Entries, p: Path)
    requires WellFormed(fs) && ValidPackage(pkg)
    requires Installed(fs, owned, pkg, out, after) && Installed(out, after, pkg, out, last)
    ensures AlikeAt(after, last, p)
  {
    var again := Plan(out, after, pkg);
    PlanSettles(fs, owned, pkg, out, after);
    IdleApply(out, again, CLEAN, |again|);
    var states := ApplyN(out, again, CLEAN, |again|).1;
    if EnteredAt(again, states, |again|, p) {
      var i :| 0 <= i < |again| && Enters(again[i], states[i]) && again[i].path == p;
      PlanIsApart(out, after, pkg);
      FreshEntry(after, again, states, |again|, i);
      SecondEntry(fs, owned, pkg, out, after, i);
    } else {
      FreshOther(after, again, states, |again|, p);
    }
  }

  lemma ThirdEntries(fs: Tree, after: Entries, last: Entries, pkg: Package)
    requires ValidPackage(pkg) && Alike(after, last)
    requires forall a <- Plan(fs, after, pkg) :: Idle(a)
    requires Installed(fs, after, pkg, fs, last)
    ensures Installed(fs, last, pkg, fs, last)
  {
    AlikePlans(fs, after, last, pkg);
    var again := Plan(fs, after, pkg);
    IdleApply(fs, again, CLEAN, |again|);
    PlanIsApart(fs, after, pkg);
    var states := ApplyN(fs, again, CLEAN, |again|).1;
    var e := FreshN(last, again, states, |again|);
    forall p ensures (p in e <==> p in last) && (p in e ==> e[p] == last[p]) {
      FreshTwice(after, last, again, states, p);
    }
    assert e == last;
  }

  /** Entering the same actions over their own result changes nothing. */
  lemma FreshTwice(after: Entries, last: Entries, actions: seq<Action>, states: seq<State>, p: Path)
    requires |actions| == |states| && Apart(actions) && last == FreshN(after, actions, states, |actions|)
    ensures var e := FreshN(last, actions, states, |actions|); (p in e <==> p in last) && (p in e ==> e[p] == last[p])
  {
    if EnteredAt(actions, states, |actions|, p) {
      var i :| 0 <= i < |actions| && Enters(actions[i], states[i]) && actions[i].path == p;
      FreshEntry(last, actions, states, |actions|, i);
      FreshEntry(after, actions, states, |actions|, i);
    } else {
      FreshOther(last, actions, states, |actions|, p);
    }
  }

  lemma OwnedAfter(fs: Tree, m: Manifest, pkg: Package)
    requires Trusted(m)
    ensures var (out, m') := InstallStep(fs, m, pkg, CLEAN);
            m'.Saved? && m'.source == m'.package == pkg.version && Installed(fs, Owned(m), pkg, out, m'.entries)
  {
  }

  /** An install over this manifest would find it up to date. */
  ghost predicate ManifestExact(fs: Tree, m: Manifest, pkg: Package)
    requires Trusted(m)
  {
    var again := Plan(fs, Owned(m), pkg);
    var (_, states) := ApplyN(fs, again, CLEAN, |again|);
    UpToDate(states, m, pkg.version, FreshN(Owned(m), again, states, |again|))
  }

  /** What a second install enters was entered by the first. */
  lemma SecondIsRecordable(fs: Tree, m: Manifest, pkg: Package, i: nat)
    requires WellFormed(fs) && ValidPackage(pkg) && Trusted(m) && i < |pkg.records|
    requires Trusted(InstallStep(fs, m, pkg, CLEAN).1)
    requires var (out, m1) := InstallStep(fs, m, pkg, CLEAN);
             PlanFile(out, Owned(m1), pkg.records[i]).UnchangedOwned?
    ensures Recordable(pkg.records[i])
  {
    var (out, m1) := InstallStep(fs, m, pkg, CLEAN);
    var r := pkg.records[i];
    OwnedAfter(fs, m, pkg);
    FileSettles(fs, Owned(m), pkg, out, Owned(m1), i);
    assert ValidEntry(Dest(r), Owned(m1)[Dest(r)]);
    FileEntryValid(r, OfBytes(r.bytes));
  }

  lemma {:induction false} SecondManifestTrusted(fs: Tree, m: Manifest, pkg: Package)
    requires WellFormed(fs) && ValidPackage(pkg) && Trusted(m) && Trusted(InstallStep(fs, m, pkg, CLEAN).1)
    ensures var (out, m1) := InstallStep(fs, m, pkg, CLEAN);
            Trusted(InstallStep(out, m1, pkg, CLEAN).1)
  {
    var (out, m1) := InstallStep(fs, m, pkg, CLEAN);
    OwnedAfter(fs, m, pkg);
    OwnedAfter(out, m1, pkg);
    PlanSettles(fs, Owned(m), pkg, out, Owned(m1));
    var again := Plan(out, Owned(m1), pkg);
    IdleApply(out, again, CLEAN, |again|);
    ManifestReadsBack(out, m1, pkg, CLEAN);
    var states := ApplyN(out, again, CLEAN, |again|).1;
    forall i | 0 <= i < |pkg.records| && Enters(again[i], states[i]) ensures Recordable(pkg.records[i]) {
      PlanPath(out, Owned(m1), pkg, i);
      FileSettles(fs, Owned(m), pkg, out, Owned(m1), i);
      FileEntered(out, Owned(m1), pkg.records[i]);
      SecondIsRecordable(fs, m, pkg, i);
    }
  }

  /** The third install, if the first left a manifest the second accepts, finds
      its manifest already exact and leaves it be. */
  lemma ThirdInstallRewritesNothing(fs: Tree, m: Manifest, pkg: Package)
    requires WellFormed(fs) && ValidPackage(pkg) && Trusted(m)
    ensures var (out, m1) := InstallStep(fs, m, pkg, CLEAN);
            var (_, m2) := InstallStep(out, m1, pkg, CLEAN);
            Trusted(m1) ==> Trusted(m2) && ManifestExact(out, m2, pkg)
  {
    var (out, m1) := InstallStep(fs, m, pkg, CLEAN);
    if Trusted(m1) {
      OwnedAfter(fs, m, pkg);
      var after := Owned(m1);
      InstalledIsWellFormed(fs, Owned(m), pkg, out, after);
      SecondInstallWritesNothing(fs, m, pkg, CLEAN);
      SecondManifestTrusted(fs, m, pkg);
      var (_, m2) := InstallStep(out, m1, pkg, CLEAN);
      OwnedAfter(out, m1, pkg);
      SettledTwice(fs, Owned(m), pkg, out, after, Owned(m2));
    }
  }

  lemma SettledTwice(fs: Tree, owned: Entries, pkg: Package, out: Tree, after: Entries, last: Entries)
    requires WellFormed(fs) && WellFormed(out) && ValidPackage(pkg)
    requires Installed(fs, owned, pkg, out, after) && Installed(out, after, pkg, out, last)
    ensures var again := Plan(out, last, pkg);
            var (_, states) := ApplyN(out, again, CLEAN, |again|);
            UpToDate(states, Saved(pkg.version, pkg.version, last), pkg.version, FreshN(last, again, states, |again|))
  {
    PlanSettles(fs, owned, pkg, out, after);
    forall p ensures AlikeAt(after, last, p) {
      SecondEntries(fs, owned, pkg, out, after, last, p);
    }
    ThirdEntries(out, after, last, pkg);
    AlikePlans(out, after, last, pkg);
    var again := Plan(out, last, pkg);
    IdleApply(out, again, CLEAN, |again|);
  }

  lemma InstalledIsWellFormed(fs: Tree, owned: Entries, pkg: Package, out: Tree, after: Entries)
    requires WellFormed(fs) && ValidPackage(pkg) && Installed(fs, owned, pkg, out, after)
    ensures WellFormed(out)
  {
    AfterAt(fs, owned, pkg, out, after, |pkg.records|);
  }
}
