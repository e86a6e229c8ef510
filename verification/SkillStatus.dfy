/** `skills_status`: what it reports, against what an install would do. */
module SkillStatus {
  import opened Wrappers
  import opened HomeTree
  import opened SkillModel
  import opened SkillSteps
  import opened SkillConverges

  datatype FileStatus = FileAbsent | FileCurrent | FileStale | FileModified | FileCollided

  datatype Status =
    | NotInstalled
    | CurrentFilesystem
    | Stale
    | Modified
    | Collided
    | AliasBroken
    | UnavailableVersion
    | UnsupportedManifest

  function StatusOfFile(fs: Tree, owned: Entries, r: Record): FileStatus {
    var p := Dest(r);
    if !Plain(fs, p) then FileCollided
    else if p !in fs then FileAbsent
    else if !fs[p].File? || !fs[p].readable then FileCollided
    else
      var current := OfBytes(fs[p].bytes);
      if p in owned && owned[p].FileEntry? then
        if current == OfBytes(r.bytes) then FileCurrent
        else if current == owned[p].digest then FileStale
        else FileModified
      else if current == OfBytes(r.bytes) then FileCurrent
      else FileCollided
  }

  predicate SomeFile(fs: Tree, owned: Entries, pkg: Package, skill: string, s: FileStatus) {
    exists r <- pkg.records :: OfSkill(r, skill) && StatusOfFile(fs, owned, r) == s
  }

  /** `_canonical_state`. */
  function CanonicalStatus(fs: Tree, owned: Entries, pkg: Package, skill: string): Status {
    if SomeFile(fs, owned, pkg, skill, FileModified) then Modified
    else if SomeFile(fs, owned, pkg, skill, FileCollided) then Collided
    else if SomeFile(fs, owned, pkg, skill, FileStale) then Stale
    else if SomeFile(fs, owned, pkg, skill, FileAbsent) then NotInstalled
    else if !Ships(pkg, skill) then NotInstalled
    else CurrentFilesystem
  }

  /** `_compatibility_state`. */
  function AliasStatus(fs: Tree, owned: Entries, pkg: Package, skill: string): Status {
    var p := AliasPath(skill);
    if !Plain(fs, p) then Collided
    else if p !in fs then NotInstalled
    else if fs[p] != Link(AliasTarget(skill)) then AliasBroken
    else
      var current := CurrentLines(fs, pkg.records, skill);
      if current.None? then AliasBroken
      else if current.value == SkillLines(pkg.records, skill) then CurrentFilesystem
      else if p in owned && owned[p].AliasEntry? then Modified
      else Collided
  }

  function InstalledVersion(m: Manifest): Option<string> {
    if !m.Saved? then None else if m.package.Some? then m.package else m.source
  }

  /** One line of `skills_status`, for the canonical or the alias client. */
  function Report(fs: Tree, m: Manifest, pkg: Package, skill: string, canonical: bool): Status {
    if pkg.version.None? then UnavailableVersion
    else if !Trusted(m) then UnsupportedManifest
    else
      var s := if canonical then CanonicalStatus(fs, Owned(m), pkg, skill) else AliasStatus(fs, Owned(m), pkg, skill);
      var outdated := InstalledVersion(m).Some? && InstalledVersion(m) != pkg.version;
      if outdated && s in {CurrentFilesystem, Stale} then Stale else s
  }

  // ---- file by file, status and plan name the same situations

  predicate Unreadable(fs: Tree, r: Record) {
    Dest(r) in fs && fs[Dest(r)].File? && !fs[Dest(r)].readable
  }

  lemma FileStatusIsPlan(fs: Tree, owned: Entries, r: Record)
    ensures var s, f := PlanFile(fs, owned, r), StatusOfFile(fs, owned, r);
            && (f.FileAbsent? <==> s.Missing_?)
            && (f.FileCurrent? <==> s in {UnchangedOwned, IdenticalUnowned})
            && (f.FileStale? <==> s.SafelyUpgradeable?)
            && (f.FileModified? <==> s.ModifiedOwned? && !Unreadable(fs, r))
            && (f.FileCollided?
                <==> s in {ParentCollision, UnownedConflicting} || (s.ModifiedOwned? && Unreadable(fs, r)))
  {
  }

  ghost predicate SomePlanned(fs: Tree, owned: Entries, pkg: Package, skill: string, states: set<State>) {
    exists r <- pkg.records :: OfSkill(r, skill) && PlanFile(fs, owned, r) in states
  }

  ghost predicate SomeReadableEdit(fs: Tree, owned: Entries, pkg: Package, skill: string) {
    exists r <- pkg.records :: OfSkill(r, skill) && PlanFile(fs, owned, r).ModifiedOwned? && !Unreadable(fs, r)
  }

  /** The reported state of a shipped skill is decided by how an install would
      classify its files; an unreadable owned file is the only place the two
      use different words. */
  lemma StatusRefinesPlan(fs: Tree, owned: Entries, pkg: Package, skill: string)
    requires Ships(pkg, skill)
    ensures var s := CanonicalStatus(fs, owned, pkg, skill);
            var blocked := SomePlanned(fs, owned, pkg, skill, {ModifiedOwned, ParentCollision, UnownedConflicting});
            && (s.Modified? <==> SomeReadableEdit(fs, owned, pkg, skill))
            && (s in {Modified, Collided} <==> blocked)
            && (s.Stale? <==> !blocked && SomePlanned(fs, owned, pkg, skill, {SafelyUpgradeable}))
            && (s.NotInstalled? <==> !blocked && !SomePlanned(fs, owned, pkg, skill, {SafelyUpgradeable})
                                     && SomePlanned(fs, owned, pkg, skill, {Missing_}))
            && (s.CurrentFilesystem? <==>
                forall r <- pkg.records ::
                  OfSkill(r, skill) ==> PlanFile(fs, owned, r) in {UnchangedOwned, IdenticalUnowned})
  {
    forall r | r in pkg.records
      ensures var p, f := PlanFile(fs, owned, r), StatusOfFile(fs, owned, r);
              && (f.FileAbsent? <==> p.Missing_?)
              && (f.FileCurrent? <==> p in {UnchangedOwned, IdenticalUnowned})
              && (f.FileStale? <==> p.SafelyUpgradeable?)
              && (f.FileModified? <==> p.ModifiedOwned? && !Unreadable(fs, r))
              && (f.FileModified? || f.FileCollided? <==> p in {ModifiedOwned, ParentCollision, UnownedConflicting})
    {
      FileStatusIsPlan(fs, owned, r);
    }
  }

  /** For a skill whose canonical files are ready, the alias line says what the
      install would do with the alias. */
  lemma AliasStatusRefinesPlan(fs: Tree, owned: Entries, pkg: Package, skill: string)
    requires Ships(pkg, skill) && CanonicalReady(fs, owned, pkg, skill)
    ensures var s, f := PlanAlias(fs, owned, pkg, skill), AliasStatus(fs, owned, pkg, skill);
            && (f.NotInstalled? <==> s.Missing_?)
            && (f.CurrentFilesystem? <==> s in {UnchangedOwned, IdenticalUnowned})
            && (f.Modified? <==> s in {SafelyUpgradeable, ModifiedOwned})
            && (f.Collided? <==> s in {ParentCollision, UnownedConflicting})
            && (f.AliasBroken? <==> s.BrokenAlias?)
  {
  }

  predicate Colliding(s: State) { s in {ModifiedOwned, ParentCollision, UnownedConflicting} }

  lemma FileCurrentAfter(fs: Tree, owned: Entries, pkg: Package, out: Tree, after: Entries, r: Record)
    requires WellFormed(fs) && ValidPackage(pkg) && Installed(fs, owned, pkg, out, after) && r in pkg.records
    ensures PlanFile(out, after, r) in {UnchangedOwned, IdenticalUnowned} <==> !Colliding(PlanFile(fs, owned, r))
  {
    var i :| 0 <= i < |pkg.records| && pkg.records[i] == r;
    FileSettles(fs, owned, pkg, out, after, i);
    FileStatusIsPlan(fs, owned, r);
  }

  lemma InstalledStatus(fs: Tree, owned: Entries, pkg: Package, out: Tree, after: Entries, skill: string)
    requires WellFormed(fs) && ValidPackage(pkg) && Installed(fs, owned, pkg, out, after) && Ships(pkg, skill)
    ensures CanonicalStatus(out, after, pkg, skill).CurrentFilesystem?
            <==> forall r <- pkg.records :: OfSkill(r, skill) ==> !Colliding(PlanFile(fs, owned, r))
  {
    StatusRefinesPlan(out, after, pkg, skill);
    forall r | r in pkg.records
      ensures PlanFile(out, after, r) in {UnchangedOwned, IdenticalUnowned} <==> !Colliding(PlanFile(fs, owned, r))
    {
      FileCurrentAfter(fs, owned, pkg, out, after, r);
    }
  }

  /** After an uninterrupted install a shipped skill reads current exactly when
      the manifest is accepted and none of the skill's files collided. */
  lemma CurrentAfterInstall(fs: Tree, m: Manifest, pkg: Package, skill: string)
    requires WellFormed(fs) && ValidPackage(pkg) && Trusted(m) && pkg.version.Some?
    requires Ships(pkg, skill)
    ensures var (out, m') := InstallStep(fs, m, pkg, CLEAN);
            Report(out, m', pkg, skill, true).CurrentFilesystem?
            <==> Trusted(m') && forall r <- pkg.records :: OfSkill(r, skill) ==> !Colliding(PlanFile(fs, Owned(m), r))
  {
    var (out, m') := InstallStep(fs, m, pkg, CLEAN);
    OwnedAfter(fs, m, pkg);
    if Trusted(m') {
      InstalledStatus(fs, Owned(m), pkg, out, Owned(m'), skill);
      assert InstalledVersion(m') == pkg.version;
    }
  }
}
