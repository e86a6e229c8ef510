/** What the commands tell the operator, in nodes and manifest entries alone. */
module SkillReports {
  import opened Wrappers
  import opened HomeTree
  import opened SkillModel
  import opened SkillSteps
  import opened SkillInstalls
  import opened SkillOutcomes
  import opened SkillStatus
  import O = OperatorHomes

  // ---- the lists of an install's report

  lemma {:induction false} ListingHas(actions: seq<Action>, states: seq<State>, n: nat, s: State, p: Path)
    requires n <= |actions| && n <= |states|
    ensures p in O.Listing(actions, states, n, s)
            <==> exists i :: 0 <= i < n && states[i] == s && actions[i].path == p
  {
    if n > 0 { ListingHas(actions, states, n - 1, s, p); }
  }

  /** Each planned path is told once, under the state its action ended in. */
  ghost predicate ToldAs(report: O.InstallReport, p: Path, s: State)
    requires report.Installed?
  {
    && (p in report.created <==> s.Created?)
    && (p in report.upgraded <==> s.Upgraded?)
    && (p in report.current <==> s.UnchangedOwned?)
    && (p in report.collisions <==> s !in {Created, Upgraded, UnchangedOwned})
    && (p in report.collisions ==> report.collisions[p] == s)
  }

  lemma {:induction false} ToldOnce(fs: Tree, m: Manifest, pkg: Package, actions: seq<Action>, states: seq<State>,
                                    fails: bool, report: O.InstallReport, i: nat)
    requires Trusted(m) && |actions| == |states| && report.Installed? && i < |actions| && Apart(actions)
    requires O.Tells(fs, m, pkg.version, actions, states, fails, report)
    requires states[i] in {Created, Upgraded, UnchangedOwned} || O.Collides(states[i])
    ensures ToldAs(report, actions[i].path, states[i])
  {
    var p := actions[i].path;
    forall j | 0 <= j < |actions| ensures actions[j].path == p ==> j == i
                                  ensures !(p < actions[j].path)
    {
      if j != i { assert !(p <= actions[j].path) && !(actions[j].path <= p); }
    }
    ListingHas(actions, states, |actions|, Created, p);
    ListingHas(actions, states, |actions|, Upgraded, p);
    ListingHas(actions, states, |actions|, UnchangedOwned, p);
    assert !O.InTheWay(fs, actions, p);
    if O.Collides(states[i]) { assert O.CollidedAt(actions, states, p, states[i]); }
  }

  /** The report of an uninterrupted install. */
  ghost predicate Reported(fs: Tree, m: Manifest, pkg: Package, report: O.InstallReport) {
    Trusted(m) && report.Installed? &&
    var actions := Plan(fs, Owned(m), pkg);
    O.Tells(fs, m, pkg.version, actions, ApplyN(fs, actions, CLEAN, |actions|).1, false, report)
  }

  lemma {:induction false} ToldFinal(fs: Tree, m: Manifest, pkg: Package, report: O.InstallReport, i: nat)
    requires WellFormed(fs) && ValidPackage(pkg) && Reported(fs, m, pkg, report)
    requires i < |Plan(fs, Owned(m), pkg)|
    ensures var a := Plan(fs, Owned(m), pkg)[i]; ToldAs(report, a.path, FinalState(a))
  {
    var actions := Plan(fs, Owned(m), pkg);
    PlanIsApart(fs, Owned(m), pkg);
    forall j | 0 <= j < |actions| && Places(actions[j]) ensures CanPlace(fs, actions[j].path) {
      PlanCanPlace(fs, Owned(m), pkg, j);
    }
    CleanApply(fs, actions, |actions|);
    O.FinalIsReported(fs, Owned(m), pkg, CLEAN, i);
    var states := ApplyN(fs, actions, CLEAN, |actions|).1;
    ToldOnce(fs, m, pkg, actions, states, false, report, i);
  }

  /** What is told of a shipped file. */
  lemma {:induction false} FileTold(fs: Tree, m: Manifest, pkg: Package, report: O.InstallReport, r: Record)
    requires WellFormed(fs) && ValidPackage(pkg) && Reported(fs, m, pkg, report) && r in pkg.records
    ensures var p, owned := Shipped(r), Owned(m);
            var above, same, ours := RealAbove(fs, p), Standing(fs, p, r.bytes), FileOwned(owned, p);
            var edited := p in fs && fs[p].File? && !same;
            ToldAs(report, p,
                   if !above then ParentCollision
                   else if p !in fs then Created
                   else if same && ours then UnchangedOwned
                   else if same then IdenticalUnowned
                   else if edited && AsRecorded(fs, owned, p) then Upgraded
                   else if edited && ours then ModifiedOwned
                   else UnownedConflicting)
  {
    var i :| 0 <= i < |pkg.records| && pkg.records[i] == r;
    ToldFinal(fs, m, pkg, report, i);
    PlanPath(fs, Owned(m), pkg, i);
    PlanFileMeans(fs, Owned(m), r);
    FileAt(fs, Owned(m), r);
  }

  /** What is told of a declared skill's alias: a package without the skill and a
      skill that collides are told apart, and neither gets a link. */
  lemma {:induction false} AliasTold(fs: Tree, m: Manifest, pkg: Package, report: O.InstallReport, skill: string)
    requires WellFormed(fs) && ValidPackage(pkg) && Reported(fs, m, pkg, report) && skill in DECLARED
    ensures var a, owned := AliasAt(skill), Owned(m);
            var ours, same := AliasOwned(owned, skill), AllCurrent(fs, pkg, skill);
            ToldAs(report, a,
                   if !Provided(pkg, skill) then CanonicalMissing
                   else if !Ready(fs, owned, pkg, skill) then CanonicalCollision
                   else if !RealAbove(fs, a) then ParentCollision
                   else if a !in fs then Created
                   else if !Linked(fs, skill) || !AllThere(fs, pkg, skill) then BrokenAlias
                   else if ours then (if same then UnchangedOwned else Upgraded)
                   else if same then IdenticalUnowned
                   else UnownedConflicting)
  {
    var i := PlannedAlias(fs, Owned(m), pkg, skill);
    ToldFinal(fs, m, pkg, report, i);
    PlanAliasMeans(fs, Owned(m), pkg, skill);
    AliasActsAt(fs, Owned(m), pkg, skill);
  }

  // ---- status

  /** A file of the skill reads as this. */
  ghost predicate FileCollides(fs: Tree, owned: Entries, r: Record) {
    var p := Shipped(r);
    !RealAbove(fs, p)
    || (p in fs && (!fs[p].File? || !fs[p].readable || (!FileOwned(owned, p) && !Standing(fs, p, r.bytes))))
  }

  ghost predicate FileEdited(fs: Tree, owned: Entries, r: Record) {
    var p := Shipped(r);
    && RealAbove(fs, p) && p in fs && fs[p].File? && fs[p].readable && FileOwned(owned, p)
    && !Standing(fs, p, r.bytes) && !AsRecorded(fs, owned, p)
  }

  ghost predicate FileOutdated(fs: Tree, owned: Entries, r: Record) {
    var p := Shipped(r);
    RealAbove(fs, p) && p in fs && !Standing(fs, p, r.bytes) && AsRecorded(fs, owned, p)
  }

  /** The canonical line, hardest finding first. */
  lemma {:induction false} CanonicalMeans(fs: Tree, owned: Entries, pkg: Package, skill: string)
    ensures var edited := exists r <- pkg.records :: InSkill(r, skill) && FileEdited(fs, owned, r);
            var collides := exists r <- pkg.records :: InSkill(r, skill) && FileCollides(fs, owned, r);
            var outdated := exists r <- pkg.records :: InSkill(r, skill) && FileOutdated(fs, owned, r);
            CanonicalStatus(fs, owned, pkg, skill)
            == if edited then Modified
               else if collides then Collided
               else if outdated then Stale
               else if !AllThere(fs, pkg, skill) || !Provided(pkg, skill) then NotInstalled
               else CurrentFilesystem
  {
    forall r | r in pkg.records
      ensures var f := StatusOfFile(fs, owned, r);
              && (f.FileModified? <==> FileEdited(fs, owned, r)) && (f.FileCollided? <==> FileCollides(fs, owned, r))
              && (f.FileStale? <==> FileOutdated(fs, owned, r))
              && (f.FileAbsent? <==> RealAbove(fs, Shipped(r)) && Shipped(r) !in fs)
    {
      StatusOfFileMeans(fs, owned, r);
    }
    StatusCases(fs, owned, pkg, skill);
  }

  lemma StatusOfFileMeans(fs: Tree, owned: Entries, r: Record)
    ensures var f := StatusOfFile(fs, owned, r);
            && (f.FileModified? <==> FileEdited(fs, owned, r)) && (f.FileCollided? <==> FileCollides(fs, owned, r))
            && (f.FileStale? <==> FileOutdated(fs, owned, r))
            && (f.FileAbsent? <==> RealAbove(fs, Shipped(r)) && Shipped(r) !in fs)
  {
    PlainMeans(fs, Shipped(r));
  }

  /** Which file states decide the line. */
  lemma StatusCases(fs: Tree, owned: Entries, pkg: Package, skill: string)
    ensures var s := CanonicalStatus(fs, owned, pkg, skill);
            forall r | r in pkg.records && InSkill(r, skill) ::
              var f := StatusOfFile(fs, owned, r);
              && (f.FileModified? ==> s.Modified?)
              && (f.FileCollided? ==> s in {Modified, Collided})
              && (f.FileStale? ==> s in {Modified, Collided, Stale})
              && (f.FileAbsent? ==> s in {Modified, Collided, Stale, NotInstalled})
    ensures var s := CanonicalStatus(fs, owned, pkg, skill);
            && (s.Modified? ==> Found(fs, owned, pkg, skill, FileModified))
            && (s.Collided? ==> Found(fs, owned, pkg, skill, FileCollided))
            && (s.Stale? ==> Found(fs, owned, pkg, skill, FileStale))
            && (s.NotInstalled? ==> Found(fs, owned, pkg, skill, FileAbsent) || !Provided(pkg, skill))
            && (!Provided(pkg, skill) ==> s.NotInstalled?)
            && s in {Modified, Collided, Stale, NotInstalled, CurrentFilesystem}
  {
    forall r | r in pkg.records ensures InSkill(r, skill) <==> OfSkill(r, skill) {
    }
  }

  ghost predicate Found(fs: Tree, owned: Entries, pkg: Package, skill: string, f: FileStatus) {
    exists r <- pkg.records :: InSkill(r, skill) && StatusOfFile(fs, owned, r) == f
  }

  ghost predicate Unread(fs: Tree, pkg: Package, skill: string) {
    exists r <- pkg.records :: InSkill(r, skill) && !ReadBytes(fs, Shipped(r)).0
  }

  ghost predicate ReadsAsShipped(fs: Tree, pkg: Package, skill: string) {
    forall r <- pkg.records :: InSkill(r, skill) ==> ReadBytes(fs, Shipped(r)) == (true, r.bytes)
  }

  /** The alias line, ready skill or not. */
  lemma AliasStatusMeans(fs: Tree, owned: Entries, pkg: Package, skill: string)
    ensures AliasStatus(fs, owned, pkg, skill)
            == if !RealAbove(fs, AliasAt(skill)) then Collided
               else if AliasAt(skill) !in fs then NotInstalled
               else if !Linked(fs, skill) || Unread(fs, pkg, skill) then AliasBroken
               else if ReadsAsShipped(fs, pkg, skill) then CurrentFilesystem
               else if AliasOwned(owned, skill) then Modified
               else Collided
  {
    PlainMeans(fs, AliasAt(skill));
    LinesMean(fs, pkg.records, skill);
    LinesFail(fs, pkg.records, skill);
    assert AliasPath(skill) == AliasAt(skill);
  }

  /** What the status command prints: without a package version or a manifest it
      can trust nothing else is looked at, and an installation of another version
      makes a current copy stale and changes no other finding. */
  lemma ReportMeans(fs: Tree, m: Manifest, pkg: Package, skill: string, canonical: bool)
    ensures var s := Report(fs, m, pkg, skill, canonical);
            && (s.UnavailableVersion? <==> pkg.version.None?)
            && (s.UnsupportedManifest? <==> pkg.version.Some? && !Trusted(m))
            && (pkg.version.Some? && Trusted(m) ==>
                  var seen := if canonical then CanonicalStatus(fs, Owned(m), pkg, skill)
                              else AliasStatus(fs, Owned(m), pkg, skill);
                  && (s.CurrentFilesystem? <==> seen.CurrentFilesystem? && !OtherVersion(m, pkg.version.value))
                  && (s.Stale? <==> seen.Stale? || (seen.CurrentFilesystem? && OtherVersion(m, pkg.version.value)))
                  && (seen !in {CurrentFilesystem, Stale} ==> s == seen))
  {
    if Trusted(m) { StatusWords(fs, m, pkg, skill); }
  }

  lemma StatusWords(fs: Tree, m: Manifest, pkg: Package, skill: string)
    requires Trusted(m)
    ensures CanonicalStatus(fs, Owned(m), pkg, skill) !in {UnavailableVersion, UnsupportedManifest}
    ensures AliasStatus(fs, Owned(m), pkg, skill) !in {UnavailableVersion, UnsupportedManifest}
  {
  }

  /** The manifest names a version, and not this one: its package version, or
      its source version when it has no package version. */
  ghost predicate OtherVersion(m: Manifest, version: string) {
    m.Saved? && match m.package
                case Some(installed) => installed != version
                case None => m.source.Some? && m.source.value != version
  }
}
