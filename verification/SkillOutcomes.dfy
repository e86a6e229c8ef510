/** What an install that nothing interrupts leaves and records, path by path, in
    nodes and manifest entries alone. */
module SkillOutcomes {
  import opened Wrappers
  import opened Text
  import opened HomeTree
  import opened SkillModel
  import opened SkillSteps
  import opened SkillInstalls
  import opened SkillRestores
  import opened SkillConverges
  import opened SkillSurveys
  import R = SkillRuns

  // ---- one file

  /** Whatever exists between the home and `p` is a real directory. */
  ghost predicate RealAbove(fs: Tree, p: Path) {
    forall q | q in fs && q != [] && q < p :: fs[q].Dir?
  }

  ghost predicate Standing(fs: Tree, p: Path, bytes: Bytes) { p in fs && fs[p] == File(bytes, true) }

  ghost predicate FileOwned(owned: Entries, p: Path) { p in owned && owned[p].FileEntry? }

  /** An owned file that still holds what the manifest recorded. */
  ghost predicate AsRecorded(fs: Tree, owned: Entries, p: Path) {
    FileOwned(owned, p) && exists bytes :: Standing(fs, p, bytes) && owned[p].digest == OfBytes(bytes)
  }

  ghost function Shipped(r: Record): Path { [".agents", "skills"] + r.path }

  /** Nothing of the operator's is at the record's path. */
  ghost predicate Clear(fs: Tree, owned: Entries, r: Record) {
    var p := Shipped(r);
    p !in fs || (FileOwned(owned, p) && (Standing(fs, p, r.bytes) || AsRecorded(fs, owned, p)))
  }

  lemma PlainMeans(fs: Tree, p: Path)
    ensures Plain(fs, p) <==> RealAbove(fs, p)
  {
    if Plain(fs, p) {
      forall q | q in fs && q != [] && q < p ensures fs[q].Dir? { assert q == p[..|q|]; }
    } else {
      var k :| 0 < k < |p| && p[..k] in fs && !fs[p[..k]].Dir?;
      assert p[..k] < p;
    }
  }

  lemma PlanFileMeans(fs: Tree, owned: Entries, r: Record)
    ensures var p, s := Shipped(r), PlanFile(fs, owned, r);
            var edited := p in fs && fs[p].File? && !Standing(fs, p, r.bytes);
            && (s.ParentCollision? <==> !RealAbove(fs, p))
            && (s.Missing_? <==> RealAbove(fs, p) && p !in fs)
            && (s.UnchangedOwned? <==> RealAbove(fs, p) && FileOwned(owned, p) && Standing(fs, p, r.bytes))
            && (s.IdenticalUnowned? <==> RealAbove(fs, p) && !FileOwned(owned, p) && Standing(fs, p, r.bytes))
            && (s.SafelyUpgradeable? <==> RealAbove(fs, p) && edited && AsRecorded(fs, owned, p))
            && (s.ModifiedOwned?
                <==> RealAbove(fs, p) && edited && FileOwned(owned, p) && !AsRecorded(fs, owned, p))
            && (s.UnownedConflicting?
                <==> RealAbove(fs, p) && p in fs && (!fs[p].File? || (edited && !FileOwned(owned, p))))
            && (Safe(s) <==> RealAbove(fs, p) && Clear(fs, owned, r))
  {
    PlainMeans(fs, Shipped(r));
  }

  // ---- one alias

  ghost predicate InSkill(r: Record, skill: string) { |r.path| > 0 && r.path[0] == skill }

  ghost predicate Provided(pkg: Package, skill: string) { exists r <- pkg.records :: InSkill(r, skill) }

  /** An install may write each of the skill's files. */
  ghost predicate Ready(fs: Tree, owned: Entries, pkg: Package, skill: string) {
    forall r <- pkg.records :: InSkill(r, skill) ==> RealAbove(fs, Shipped(r)) && Clear(fs, owned, r)
  }

  ghost predicate AllThere(fs: Tree, pkg: Package, skill: string) {
    forall r <- pkg.records :: InSkill(r, skill) ==> Shipped(r) in fs
  }

  ghost predicate AllCurrent(fs: Tree, pkg: Package, skill: string) {
    forall r <- pkg.records :: InSkill(r, skill) ==> Standing(fs, Shipped(r), r.bytes)
  }

  ghost function AliasAt(skill: string): Path { [".claude", "skills", skill] }

  ghost predicate Linked(fs: Tree, skill: string) {
    AliasAt(skill) in fs && fs[AliasAt(skill)] == Link("../../.agents/skills/" + skill)
  }

  ghost predicate AliasOwned(owned: Entries, skill: string) {
    AliasAt(skill) in owned && owned[AliasAt(skill)].AliasEntry?
  }

  lemma ReadyMeans(fs: Tree, owned: Entries, pkg: Package, skill: string)
    ensures CanonicalReady(fs, owned, pkg, skill) <==> Ready(fs, owned, pkg, skill)
    ensures Ships(pkg, skill) <==> Provided(pkg, skill)
  {
    forall r | r in pkg.records
      ensures OfSkill(r, skill) <==> InSkill(r, skill)
      ensures Safe(PlanFile(fs, owned, r)) <==> RealAbove(fs, Shipped(r)) && Clear(fs, owned, r)
    {
      PlanFileMeans(fs, owned, r);
    }
    if Provided(pkg, skill) {
      var r :| r in pkg.records && InSkill(r, skill);
      assert OfSkill(r, skill);
    }
    if Ships(pkg, skill) {
      var r :| r in pkg.records && OfSkill(r, skill);
      assert InSkill(r, skill);
    }
  }

  lemma {:induction false} LinesFail(fs: Tree, records: seq<Record>, skill: string)
    ensures CurrentLines(fs, records, skill).None?
            <==> exists r <- records :: InSkill(r, skill) && !ReadBytes(fs, Shipped(r)).0
  {
    if records != [] {
      assert records == [records[0]] + records[1..];
      LinesFail(fs, records[1..], skill);
      assert Shipped(records[0]) == Dest(records[0]);
    }
  }

  lemma SameHeads<T>(a: T, x: seq<T>, b: T, y: seq<T>)
    ensures [a] + x == [b] + y <==> a == b && x == y
  {
    assert ([a] + x)[0] == a && ([b] + y)[0] == b && ([a] + x)[1..] == x && ([b] + y)[1..] == y;
  }

  /** A skill reads back as shipped exactly when each of its files does. */
  lemma {:induction false} LinesMean(fs: Tree, records: seq<Record>, skill: string)
    ensures CurrentLines(fs, records, skill) == Some(SkillLines(records, skill))
            <==> forall r <- records :: InSkill(r, skill) ==> ReadBytes(fs, Shipped(r)) == (true, r.bytes)
  {
    if records != [] {
      var r, rest := records[0], records[1..];
      assert records == [r] + rest;
      LinesMean(fs, rest, skill);
      assert Shipped(r) == Dest(r);
      var lines := CurrentLines(fs, rest, skill);
      if InSkill(r, skill) && lines.Some? {
        SameHeads((r.path, OfBytes(ReadBytes(fs, Dest(r)).1)), lines.value,
                  (r.path, OfBytes(r.bytes)), SkillLines(rest, skill));
      }
    }
  }

  /** Below real directories a path that is no link reads exactly when it is a
      readable file, and then as its bytes. */
  lemma ReadsExactly(fs: Tree, p: Path)
    requires WellFormed(fs) && CleanPath(p) && p != [] && RealAbove(fs, p) && (p in fs ==> !fs[p].Link?)
    ensures var (ok, bytes) := ReadBytes(fs, p);
            && (ok <==> p in fs && fs[p].File? && fs[p].readable)
            && (ok ==> fs[p] == File(bytes, true))
  {
    PlainMeans(fs, p);
    if p in fs {
      WalkTo(fs, p, 0, MAX_HOPS);
      assert p[..0] == [] && p[0..] == p;
    } else {
      PlainMissing(fs, p);
    }
  }

  lemma ReadsWhenReady(fs: Tree, owned: Entries, r: Record)
    requires WellFormed(fs) && r.path != [] && CleanPath(r.path)
    requires RealAbove(fs, Shipped(r)) && Clear(fs, owned, r)
    ensures ReadBytes(fs, Shipped(r)).0 <==> Shipped(r) in fs
    ensures ReadBytes(fs, Shipped(r)) == (true, r.bytes) <==> Standing(fs, Shipped(r), r.bytes)
  {
    DestIsClean(r);
    PlainMeans(fs, Shipped(r));
    assert Shipped(r) == Dest(r);
    if Shipped(r) in fs { PlainRead(fs, Shipped(r)); } else { PlainMissing(fs, Shipped(r)); }
  }

  lemma {:induction false} ReadyLines(fs: Tree, owned: Entries, pkg: Package, skill: string)
    requires WellFormed(fs) && ValidPackage(pkg) && Ready(fs, owned, pkg, skill)
    ensures var lines := CurrentLines(fs, pkg.records, skill);
            && (lines.None? <==> !AllThere(fs, pkg, skill))
            && (lines == Some(SkillLines(pkg.records, skill)) <==> AllCurrent(fs, pkg, skill))
  {
    LinesMean(fs, pkg.records, skill);
    LinesFail(fs, pkg.records, skill);
    forall r | r in pkg.records && InSkill(r, skill)
      ensures ReadBytes(fs, Shipped(r)).0 <==> Shipped(r) in fs
      ensures ReadBytes(fs, Shipped(r)) == (true, r.bytes) <==> Standing(fs, Shipped(r), r.bytes)
    {
      ReadsWhenReady(fs, owned, r);
    }
  }

  /** What the node at an alias's path makes of a skill that is ready. */
  lemma {:induction false} ClassifyMeans(fs: Tree, owned: Entries, pkg: Package, skill: string)
    requires WellFormed(fs) && ValidPackage(pkg) && Ready(fs, owned, pkg, skill)
    ensures var a, s := AliasAt(skill), ClassifyAlias(fs, owned, pkg, skill);
            var linked := Linked(fs, skill) && AllThere(fs, pkg, skill);
            var same, ours := AllCurrent(fs, pkg, skill), AliasOwned(owned, skill);
            && (s.Missing_? <==> a !in fs)
            && (s.BrokenAlias? <==> a in fs && !linked)
            && (s.UnchangedOwned? <==> linked && ours && same)
            && (s in {SafelyUpgradeable, ModifiedOwned} <==> linked && ours && !same)
            && (s.IdenticalUnowned? <==> linked && !ours && same)
            && (s.UnownedConflicting? <==> linked && !ours && !same)
  {
    ReadyLines(fs, owned, pkg, skill);
    assert AliasPath(skill) == AliasAt(skill);
  }

  /** What an install plans for an alias. */
  lemma {:induction false} PlanAliasMeans(fs: Tree, owned: Entries, pkg: Package, skill: string)
    requires WellFormed(fs) && ValidPackage(pkg)
    ensures var a, s := AliasAt(skill), PlanAlias(fs, owned, pkg, skill);
            var ready := Provided(pkg, skill) && Ready(fs, owned, pkg, skill);
            var open := ready && RealAbove(fs, a);
            var linked := open && Linked(fs, skill) && AllThere(fs, pkg, skill);
            var same, ours := AllCurrent(fs, pkg, skill), AliasOwned(owned, skill);
            && (s.CanonicalMissing? <==> !Provided(pkg, skill))
            && (s.CanonicalCollision? <==> Provided(pkg, skill) && !Ready(fs, owned, pkg, skill))
            && (s.ParentCollision? <==> ready && !RealAbove(fs, a))
            && (s.Missing_? <==> open && a !in fs)
            && (s.BrokenAlias? <==> open && a in fs && !linked)
            && (s.UnchangedOwned? <==> linked && ours && same)
            && (s.SafelyUpgradeable? <==> linked && ours && !same)
            && (s.IdenticalUnowned? <==> linked && !ours && same)
            && (s.UnownedConflicting? <==> linked && !ours && !same)
  {
    ReadyMeans(fs, owned, pkg, skill);
    PlainMeans(fs, AliasAt(skill));
    AliasNeverModified(fs, owned, pkg, skill);
    if Ready(fs, owned, pkg, skill) { ClassifyMeans(fs, owned, pkg, skill); }
    assert AliasPath(skill) == AliasAt(skill);
  }

  // ---- what an install leaves

  /** What an uninterrupted install writes to the manifest. */
  ghost predicate Entered(m': Manifest, version: Option<string>, p: Path, entry: Entry) {
    m'.Saved? && m'.source == m'.package == version && p in m'.entries && m'.entries[p] == entry
  }

  ghost predicate Untouched(m': Manifest, version: Option<string>, owned: Entries, p: Path) {
    && m'.Saved? && m'.source == m'.package == version
    && (p in m'.entries <==> p in owned) && (p in owned ==> m'.entries[p] == owned[p])
  }

  ghost predicate SameAt(fs: Tree, out: Tree, p: Path) {
    (p in out <==> p in fs) && (p in fs ==> out[p] == fs[p])
  }

  lemma {:induction false} CleanStep(fs: Tree, m: Manifest, pkg: Package)
    requires Trusted(m)
    ensures var actions := Plan(fs, Owned(m), pkg);
            var (out, states) := ApplyN(fs, actions, CLEAN, |actions|);
            InstallStep(fs, m, pkg, CLEAN)
            == (out, Saved(pkg.version, pkg.version, FreshN(Owned(m), actions, states, |actions|)))
  {
  }

  lemma {:induction false} CleanInstalls(fs: Tree, m: Manifest, pkg: Package)
    requires WellFormed(fs) && ValidPackage(pkg) && Trusted(m)
    ensures var (out, m') := InstallStep(fs, m, pkg, CLEAN);
            && m'.Saved? && m'.source == m'.package == pkg.version
            && SkillConverges.Installed(fs, Owned(m), pkg, out, m'.entries)
            && Applied(fs, Plan(fs, Owned(m), pkg), |Plan(fs, Owned(m), pkg)|, out)
  {
    var owned := Owned(m);
    var actions := Plan(fs, owned, pkg);
    CleanStep(fs, m, pkg);
    PlanIsApart(fs, owned, pkg);
    forall j | 0 <= j < |actions| && Places(actions[j]) ensures CanPlace(fs, actions[j].path) {
      PlanCanPlace(fs, owned, pkg, j);
    }
    CleanApply(fs, actions, |actions|);
  }

  /** A planned path where nothing was and nothing is placed stays free. */
  lemma StaysFree(fs: Tree, actions: seq<Action>, out: Tree, i: nat)
    requires i < |actions| && Apart(actions) && Applied(fs, actions, |actions|, out)
    requires actions[i].path !in fs && !Places(actions[i])
    ensures actions[i].path !in out
  {
    forall j | 0 <= j < |actions|
      ensures actions[j].path == actions[i].path ==> j == i
      ensures !(actions[i].path < actions[j].path)
    {
      if j != i { assert !(actions[i].path <= actions[j].path); }
    }
    assert !PlacedAt(actions, |actions|, actions[i].path);
  }

  /** One planned path of an uninterrupted install. */
  lemma PlannedPath(fs: Tree, m: Manifest, pkg: Package, i: nat)
    requires WellFormed(fs) && ValidPackage(pkg) && Trusted(m) && i < |pkg.records| + |DECLARED|
    ensures var (out, m') := InstallStep(fs, m, pkg, CLEAN);
            var a := Plan(fs, Owned(m), pkg)[i];
            && (if Places(a) then a.path in out && out[a.path] == NodeOf(a) else SameAt(fs, out, a.path))
            && (if Enters(a, FinalState(a)) then Entered(m', pkg.version, a.path, EntryOf(a))
                else Untouched(m', pkg.version, Owned(m), a.path))
  {
    CleanInstalls(fs, m, pkg);
    var (out, m') := InstallStep(fs, m, pkg, CLEAN);
    AfterAt(fs, Owned(m), pkg, out, m'.entries, i);
    PlanIsApart(fs, Owned(m), pkg);
    var actions := Plan(fs, Owned(m), pkg);
    if !Places(actions[i]) && actions[i].path !in fs { StaysFree(fs, actions, out, i); }
  }

  /** A shipped file stands with its bytes afterwards exactly when it could be
      written, or stood so already; otherwise its path is as it was. It is
      recorded exactly when nothing of the operator's was there. */
  lemma InstalledFile(fs: Tree, m: Manifest, pkg: Package, r: Record)
    requires WellFormed(fs) && ValidPackage(pkg) && Trusted(m) && r in pkg.records
    ensures var (out, m') := InstallStep(fs, m, pkg, CLEAN);
            var p, owned := Shipped(r), Owned(m);
            var writes := RealAbove(fs, p) && Clear(fs, owned, r);
            && (Standing(out, p, r.bytes) <==> writes || Standing(fs, p, r.bytes))
            && (!writes ==> SameAt(fs, out, p))
            && (if writes then Entered(m', pkg.version, p, FileEntry(OfBytes(r.bytes)))
                else Untouched(m', pkg.version, owned, p))
  {
    var i :| 0 <= i < |pkg.records| && pkg.records[i] == r;
    PlannedPath(fs, m, pkg, i);
    PlanPath(fs, Owned(m), pkg, i);
    PlanFileMeans(fs, Owned(m), r);
    FileAt(fs, Owned(m), r);
  }

  /** How the plan treats a file, as the apply and the manifest see it. */
  lemma FileAt(fs: Tree, owned: Entries, r: Record)
    ensures var a := FileAction(fs, owned, r);
            && a.path == Shipped(r)
            && (Places(a) <==> a.state in {Missing_, SafelyUpgradeable})
            && (Places(a) ==> NodeOf(a) == File(r.bytes, true))
            && (Enters(a, FinalState(a)) <==> Safe(a.state))
            && (Enters(a, FinalState(a)) ==> EntryOf(a) == FileEntry(OfBytes(r.bytes)))
  {
  }

  lemma AliasActsAt(fs: Tree, owned: Entries, pkg: Package, skill: string)
    ensures var a := AliasAction(fs, owned, pkg, skill);
            && a.path == AliasAt(skill)
            && (Places(a) <==> a.state.Missing_?) && (Places(a) ==> NodeOf(a) == Link("../../.agents/skills/" + skill))
            && (Enters(a, FinalState(a)) <==> Safe(a.state))
            && (Enters(a, FinalState(a)) ==>
                  EntryOf(a) == AliasEntry(OfLines(SkillLines(pkg.records, skill)), "../../.agents/skills/" + skill))
  {
  }

  /** An alias may be made or kept: the skill can be written and only real
      directories are above the alias. */
  ghost predicate AliasOpen(fs: Tree, owned: Entries, pkg: Package, skill: string) {
    Provided(pkg, skill) && Ready(fs, owned, pkg, skill) && RealAbove(fs, AliasAt(skill))
  }

  ghost predicate AliasKept(fs: Tree, owned: Entries, pkg: Package, skill: string) {
    && AliasOpen(fs, owned, pkg, skill) && Linked(fs, skill) && AllThere(fs, pkg, skill)
    && AliasOwned(owned, skill)
  }

  lemma AliasStates(fs: Tree, owned: Entries, pkg: Package, skill: string)
    requires WellFormed(fs) && ValidPackage(pkg)
    ensures var s := PlanAlias(fs, owned, pkg, skill);
            && (s.Missing_? <==> AliasOpen(fs, owned, pkg, skill) && AliasAt(skill) !in fs)
            && (Safe(s) <==> (AliasOpen(fs, owned, pkg, skill) && AliasAt(skill) !in fs)
                             || AliasKept(fs, owned, pkg, skill))
  {
    PlanAliasMeans(fs, owned, pkg, skill);
  }

  lemma PlannedAlias(fs: Tree, owned: Entries, pkg: Package, skill: string) returns (i: nat)
    requires skill in DECLARED
    ensures i < |Plan(fs, owned, pkg)| && Plan(fs, owned, pkg)[i] == AliasAction(fs, owned, pkg, skill)
  {
    var k :| 0 <= k < |DECLARED| && DECLARED[k] == skill;
    i := |pkg.records| + k;
    PlanPath(fs, owned, pkg, i);
  }

  /** An alias is made exactly when its path is free below real directories and
      the whole skill could be written. Whatever was there stays. It is recorded
      when made, or when it was already ours and led to every file. */
  lemma {:induction false} InstalledAlias(fs: Tree, m: Manifest, pkg: Package, skill: string)
    requires WellFormed(fs) && ValidPackage(pkg) && Trusted(m) && skill in DECLARED
    ensures var (out, m') := InstallStep(fs, m, pkg, CLEAN);
            var a, owned := AliasAt(skill), Owned(m);
            var makes := AliasOpen(fs, owned, pkg, skill) && a !in fs;
            var entry := AliasEntry(OfLines(SkillLines(pkg.records, skill)), "../../.agents/skills/" + skill);
            && (if makes then Linked(out, skill) else SameAt(fs, out, a))
            && (if makes || AliasKept(fs, owned, pkg, skill) then Entered(m', pkg.version, a, entry)
                else Untouched(m', pkg.version, owned, a))
  {
    var i := PlannedAlias(fs, Owned(m), pkg, skill);
    PlannedPath(fs, m, pkg, i);
    AliasStates(fs, Owned(m), pkg, skill);
    AliasActsAt(fs, Owned(m), pkg, skill);
  }

  /** So a new alias leads to a whole skill of the package's: each of its files
      stands afterwards with the shipped bytes, and none was the operator's. */
  lemma AliasIsNew(fs: Tree, m: Manifest, pkg: Package, skill: string)
    requires WellFormed(fs) && ValidPackage(pkg) && Trusted(m) && skill in DECLARED
    ensures var out := InstallStep(fs, m, pkg, CLEAN).0;
            var a := AliasAt(skill);
            a !in fs && a in out
            <==> a !in fs && RealAbove(fs, a) && Provided(pkg, skill)
                 && forall r <- pkg.records :: InSkill(r, skill) ==>
                      Standing(out, Shipped(r), r.bytes) && Clear(fs, Owned(m), r)
  {
    InstalledAlias(fs, m, pkg, skill);
    var out := InstallStep(fs, m, pkg, CLEAN).0;
    forall r | r in pkg.records && InSkill(r, skill)
      ensures RealAbove(fs, Shipped(r)) && Clear(fs, Owned(m), r)
              <==> Standing(out, Shipped(r), r.bytes) && Clear(fs, Owned(m), r)
    {
      InstalledFile(fs, m, pkg, r);
      if Standing(fs, Shipped(r), r.bytes) {
        PlainOnceThere(fs, Shipped(r));
        PlainMeans(fs, Shipped(r));
      }
    }
  }

  /** A path the plan does not name keeps its node and its entry, and only
      directories are new. */
  lemma InstalledElsewhere(fs: Tree, m: Manifest, pkg: Package, q: Path)
    requires WellFormed(fs) && ValidPackage(pkg) && Trusted(m)
    requires (forall r <- pkg.records :: Shipped(r) != q) && (forall skill <- DECLARED :: AliasAt(skill) != q)
    ensures var (out, m') := InstallStep(fs, m, pkg, CLEAN);
            && (q in fs ==> q in out && out[q] == fs[q])
            && (q in out && q !in fs ==> out[q].Dir?)
            && Untouched(m', pkg.version, Owned(m), q)
  {
    var actions := Plan(fs, Owned(m), pkg);
    CleanInstalls(fs, m, pkg);
    forall i | 0 <= i < |actions| ensures actions[i].path != q {
      PlanPath(fs, Owned(m), pkg, i);
      if i < |pkg.records| {
        assert pkg.records[i] in pkg.records && actions[i].path == Shipped(pkg.records[i]);
      } else {
        assert DECLARED[i - |pkg.records|] in DECLARED && actions[i].path == AliasAt(DECLARED[i - |pkg.records|]);
      }
    }
    var states := ApplyN(fs, actions, CLEAN, |actions|).1;
    FreshOther(Owned(m), actions, states, |actions|, q);
  }

  // ---- reading through the alias

  lemma {:induction false} WalkTo(fs: Tree, p: Path, i: nat, hops: nat)
    requires WellFormed(fs) && CleanPath(p) && p in fs && !fs[p].Link? && i <= |p|
    ensures Walk(fs, p[..i], p[i..], hops) == At(p)
    decreases |p| - i
  {
    AncestorsExist(fs, p, i);
    if i == |p| {
      assert p[..i] == p;
    } else {
      AncestorsExist(fs, p, i + 1);
      assert CleanName(p[i]) && p[..i] + [p[i]] == p[..i + 1] && p[i..][1..] == p[i + 1..];
      if i + 1 == |p| { assert p[..i + 1] == p; }
      WalkTo(fs, p, i + 1, hops);
    }
  }

  /** A literal that ends in a slash is peeled off whole. */
  lemma Peel(whole: string, part: string, rest: string)
    requires '/' !in part && whole == part + ['/'] + rest
    ensures Split(whole, '/') == [part] + Split(rest, '/')
  {
    SplitPeels(part, rest, '/');
  }

  lemma Regroup(a: string, b: string, c: string)
    ensures a + b + c == a + (b + c)
  {
  }

  lemma {:induction false} TargetParts(skill: string)
    requires '/' !in skill
    ensures Split("../../.agents/skills/" + skill, '/') == ["..", "..", ".agents", "skills", skill]
  {
    assert "../../.agents/skills/" == "../" + "../.agents/skills/" && "../" == ".." + ['/'];
    assert "../.agents/skills/" == "../" + ".agents/skills/";
    assert ".agents/skills/" == ".agents/" + "skills/" && ".agents/" == ".agents" + ['/'];
    assert "skills/" == "skills" + ['/'];
    Regroup("../", "../.agents/skills/", skill);
    Regroup("../", ".agents/skills/", skill);
    Regroup(".agents/", "skills/", skill);
    SplitWhole(skill, '/');
    Peel("skills/" + skill, "skills", skill);
    Peel(".agents/skills/" + skill, ".agents", "skills/" + skill);
    Peel("../.agents/skills/" + skill, "..", ".agents/skills/" + skill);
    Peel("../../.agents/skills/" + skill, "..", "../.agents/skills/" + skill);
  }

  /** From the alias's directory its target leads into the canonical skill. */
  lemma {:induction false} TargetLeads(fs: Tree, skill: string, rest: seq<string>, hops: nat)
    requires WellFormed(fs) && CleanPath([".agents", "skills", skill] + rest)
    requires [".agents", "skills", skill] + rest in fs && !fs[[".agents", "skills", skill] + rest].Link?
    ensures Walk(fs, [".claude", "skills"], ["..", "..", ".agents", "skills", skill] + rest, hops)
            == At([".agents", "skills", skill] + rest)
  {
    var p := [".agents", "skills", skill] + rest;
    assert p[..0] == [] && p[0..] == p;
    WalkTo(fs, p, 0, hops);
    assert ["..", "..", ".agents", "skills", skill] + rest == [".."] + ([".."] + p);
    WalkUp(fs, [".claude", "skills"], [".."] + p, hops);
    assert Parent([".claude", "skills"]) == [".claude"] && Parent([".claude"]) == [];
    WalkUp(fs, [".claude"], p, hops);
  }

  lemma {:induction false} AliasLeads(fs: Tree, skill: string, rest: seq<string>)
    requires WellFormed(fs) && Linked(fs, skill) && CleanPath([".agents", "skills", skill] + rest)
    requires [".agents", "skills", skill] + rest in fs && !fs[[".agents", "skills", skill] + rest].Link?
    ensures Walk(fs, [], AliasAt(skill) + rest, 40) == At([".agents", "skills", skill] + rest)
  {
    var a := AliasAt(skill);
    AncestorsExist(fs, a, 1);
    AncestorsExist(fs, a, 2);
    assert a[..1] == [".claude"] && a[..2] == [".claude", "skills"];
    assert a + rest == [".claude"] + (["skills"] + ([skill] + rest));
    assert [] + [".claude"] == [".claude"] && [".claude"] + ["skills"] == [".claude", "skills"];
    WalkDir(fs, [], ".claude", ["skills"] + ([skill] + rest), 40);
    WalkDir(fs, [".claude"], "skills", [skill] + rest, 40);
    assert CleanName(([".agents", "skills", skill] + rest)[2]);
    Through(fs, skill, rest);
    TargetLeads(fs, skill, rest, 39);
  }

  /** The alias itself is followed to its target. */
  lemma {:induction false} Through(fs: Tree, skill: string, rest: seq<string>)
    requires Linked(fs, skill) && CleanName(skill)
    ensures Walk(fs, [".claude", "skills"], [skill] + rest, 40)
            == Walk(fs, [".claude", "skills"], ["..", "..", ".agents", "skills", skill] + rest, 39)
  {
    TargetParts(skill);
    assert !("/" <= "../../.agents/skills/" + skill) by {
      assert "/"[0] != ("../../.agents/skills/" + skill)[0];
    }
    assert ([skill] + rest)[0] == skill && ([skill] + rest)[1..] == rest;
    assert [".claude", "skills"] + [skill] == AliasAt(skill);
  }

  /** A file of an installed skill reads the same through its alias. */
  lemma AliasReads(fs: Tree, r: Record, skill: string)
    requires WellFormed(fs) && Linked(fs, skill) && InSkill(r, skill) && CleanPath(r.path)
    requires Standing(fs, Shipped(r), r.bytes)
    ensures ReadBytes(fs, AliasAt(skill) + r.path[1..]) == (true, r.bytes)
  {
    DestIsClean(r);
    assert Shipped(r) == [".agents", "skills", skill] + r.path[1..] == Dest(r);
    AliasLeads(fs, skill, r.path[1..]);
  }

  // ---- an action that fails

  /** One action that fails, or is for a path apart from this one, leaves it. */
  lemma OneLeaves(mid: Tree, a: Action, fault: Option<nat>, p: Path)
    requires if a.path == p then fault.Some? || !Places(a) else !(p <= a.path)
    ensures SameAt(mid, ApplyOne(mid, a, fault).0, p)
  {
  }

  lemma {:induction false} FailedLeaves(fs: Tree, actions: seq<Action>, script: Script, n: nat, i: nat)
    requires n <= |actions| && i < |actions| && Apart(actions) && (i in script.faults || !Places(actions[i]))
    ensures SameAt(fs, ApplyN(fs, actions, script, n).0, actions[i].path)
  {
    if n > 0 {
      FailedLeaves(fs, actions, script, n - 1, i);
      if n - 1 != i { assert !(actions[i].path <= actions[n - 1].path); }
      OneLeaves(ApplyN(fs, actions, script, n - 1).0, actions[n - 1], FaultAt(script, n - 1), actions[i].path);
    }
  }

  lemma {:induction false} FailedState(fs: Tree, owned: Entries, pkg: Package, script: Script, i: nat)
    requires i < |Plan(fs, owned, pkg)| && i in script.faults && Places(Plan(fs, owned, pkg)[i])
    ensures var actions := Plan(fs, owned, pkg);
            ApplyN(fs, actions, script, |actions|).1[i] == if i < |pkg.records| then WriteFailed else LinkFailed
  {
    var actions := Plan(fs, owned, pkg);
    StateIsFinal(fs, actions, script, |actions|, i);
    PlanPath(fs, owned, pkg, i);
    var mid := ApplyN(fs, actions, script, i).0;
    assert ApplyOne(mid, actions[i], FaultAt(script, i)).1
           == if actions[i].payload.FileOf? then WriteFailed else LinkFailed;
  }

  /** A failed action enters nothing. */
  lemma {:induction false} FailedEntry(owned: Entries, actions: seq<Action>, states: seq<State>, i: nat)
    requires i < |actions| == |states| && Apart(actions) && states[i] in {WriteFailed, LinkFailed}
    ensures var e := FreshN(owned, actions, states, |actions|);
            var p := actions[i].path;
            (p in e <==> p in owned) && (p in owned ==> e[p] == owned[p])
  {
    forall j | 0 <= j < |actions| && actions[j].path == actions[i].path ensures j == i {
      OnePath(actions, i, j);
    }
    FreshOther(owned, actions, states, |actions|, actions[i].path);
  }

  /** Wherever an install fails, the path of the failed write or link is as it
      was, and so is its entry. */
  lemma {:induction false} FailureLeavesPath(fs: Tree, m: Manifest, pkg: Package, script: Script, i: nat)
    requires WellFormed(fs) && ValidPackage(pkg) && Trusted(m) && i < |Plan(fs, Owned(m), pkg)|
    requires i in script.faults && Places(Plan(fs, Owned(m), pkg)[i])
    ensures var (out, m') := InstallStep(fs, m, pkg, script);
            var actions := Plan(fs, Owned(m), pkg);
            var p := actions[i].path;
            && SameAt(fs, out, p)
            && ApplyN(fs, actions, script, |actions|).1[i] == (if i < |pkg.records| then WriteFailed else LinkFailed)
            && (m' == m || (m'.Saved? && (p in m'.entries <==> p in Owned(m))
                            && (p in Owned(m) ==> m'.entries[p] == Owned(m)[p])))
  {
    var actions := Plan(fs, Owned(m), pkg);
    PlanIsApart(fs, Owned(m), pkg);
    FailedState(fs, Owned(m), pkg, script, i);
    FailedLeaves(fs, actions, script, |actions|, i);
    if script.stop.Some? { FailedLeaves(fs, actions, script, Min(script.stop.value, |actions|), i); }
    FailedEntry(Owned(m), actions, ApplyN(fs, actions, script, |actions|).1, i);
  }

  // ---- the manifest a command accepts

  /** Every recorded path lies where its kind may: a file below a skill of the
      canonical destination, an alias directly in the other, with its target. */
  lemma EntryMeans(path: Path, entry: Entry)
    ensures ValidEntry(path, entry)
            <==> (forall c <- path :: c != "" && c != "." && c != ".." && '/' !in c && '\\' !in c)
                 && match entry
                    case FileEntry(_) => |path| >= 4 && path[0] == ".agents" && path[1] == "skills"
                    case AliasEntry(_, target) =>
                      |path| == 3 && path[0] == ".claude" && path[1] == "skills"
                      && target == "../../.agents/skills/" + path[2]
  {
    assert |path| >= 2 ==> path[..2] == [path[0], path[1]];
  }

  lemma TrustedMeans(m: Manifest)
    ensures Trusted(m) <==> m.Absent? || (m.Saved? && forall p <- m.entries :: ValidEntry(p, m.entries[p]))
  {
  }

  // ---- teardown over real directories

  /** A recorded path that still holds what was recorded. */
  ghost predicate Matches(fs: Tree, p: Path, entry: Entry) {
    match entry
    case FileEntry(digest) => exists bytes :: Standing(fs, p, bytes) && digest == OfBytes(bytes)
    case AliasEntry(_, target) => p in fs && fs[p] == Link(target)
  }

  lemma JudgeMeans(fs: Tree, p: Path, entry: Entry)
    requires WellFormed(fs) && DirectAt(fs, p) && p != []
    ensures var v := Judge(fs, p, entry);
            && (v.Matching? <==> Matches(fs, p, entry)) && (v.Matching? ==> v.at == p)
            && (v.Mismatched? <==> p in fs && !Matches(fs, p, entry))
            && (v.AlreadyAbsent? <==> p !in fs)
  {
    UnlinkedLocate(fs, p);
    DirectNeverRaises(fs, p, entry);
  }

  lemma {:induction false} WalkDown(fs: Tree, p: Path, i: nat, k: nat, hops: nat)
    requires WellFormed(fs) && CleanPath(p) && i <= k <= |p| && p[..k] in fs && fs[p[..k]].Dir?
    ensures Walk(fs, p[..i], p[i..], hops) == Walk(fs, p[..k], p[k..], hops)
    decreases k - i
  {
    if i < k {
      AncestorsExist(fs, p[..k], i + 1);
      assert p[..k][..i + 1] == p[..i + 1];
      assert CleanName(p[i]) && p[i..] == [p[i]] + p[i + 1..] && p[..i] + [p[i]] == p[..i + 1];
      WalkDir(fs, p[..i], p[i], p[i + 1..], hops);
      WalkDown(fs, p, i + 1, k, hops);
    }
  }

  /** A file where a directory should be: the entry cannot even be examined. */
  lemma {:induction false} FileAboveRaises(fs: Tree, p: Path, k: nat, entry: Entry)
    requires WellFormed(fs) && CleanPath(p) && 0 < k < |p|
    requires p[..k] in fs && (fs[p[..k]].File? || fs[p[..k]].Other?)
    ensures Judge(fs, p, entry).Raised?
  {
    var d := Parent(p);
    assert forall j | 0 <= j <= |d| :: d[..j] == p[..j];
    AncestorsExist(fs, p[..k], k - 1);
    assert p[..k][..k - 1] == p[..k - 1] == d[..k - 1];
    WalkDown(fs, d, 0, k - 1, MAX_HOPS);
    assert d[..0] == [] && d[0..] == d;
    assert CleanName(d[k - 1]) && d[..k - 1] + [d[k - 1]] == p[..k];
  }

  /** Pruning takes a directory exactly when it is empty. */
  lemma {:induction false} PrunesExactly(fs: Tree, p: Path)
    requires WellFormed(fs) && CleanPath(p) && p in fs && p != []
    ensures RemoveEmptyDir(fs, p)
            == if fs[p].Dir? && forall q | q in fs && q != [] :: q[..|q| - 1] != p then fs - {p} else fs
  {
    StandsDirect(fs, p);
  }

  /** The fates of one path among the recorded ones. */
  lemma {:induction false} Sifts(fs: Tree, owned: Entries, order: seq<Path>, p: Path)
    requires WellFormed(fs) && Direct(fs, owned) && p != [] && Enumerates(order, owned) && R.Covers(owned, order)
    ensures p in Sift(fs, owned, order, |order|, Removal) <==> p in owned && Matches(fs, p, owned[p])
    ensures p in Sift(fs, owned, order, |order|, Keeping) <==> p in owned && p in fs && !Matches(fs, p, owned[p])
    ensures p in Sift(fs, owned, order, |order|, Absence) <==> p in owned && p !in fs
  {
    assert order[..|order|] == order;
    if p in owned { JudgeMeans(fs, p, owned[p]); }
    SiftMembers(fs, owned, order, |order|, Removal, p);
    SiftMembers(fs, owned, order, |order|, Keeping, p);
    SiftMembers(fs, owned, order, |order|, Absence, p);
  }

  /** The three lists of a teardown are the survey's. */
  lemma {:induction false} ListsAre(fs: Tree, owned: Entries, order: seq<Path>)
    requires R.Covers(owned, order) && ListsMatch(fs, owned, order)
    ensures var pr := TearN(fs, owned, order, |order|);
            && pr.removed == Sift(fs, owned, order, |order|, Removal)
            && pr.preserved == Sift(fs, owned, order, |order|, Keeping)
            && pr.absent == Sift(fs, owned, order, |order|, Absence)
  {
    var pr := TearN(fs, owned, order, |order|);
    assert Sorted(pr, Removal) == pr.removed && Sorted(pr, Keeping) == pr.preserved && Sorted(pr, Absence) == pr.absent;
  }

  /** Where only real directories lie above the recorded paths, a teardown takes
      away exactly the recorded paths that hold what was recorded, lists them,
      keeps the entries of those that hold something else, and forgets the rest. */
  lemma {:induction false} TearsDownExactly(fs: Tree, m: Manifest, order: seq<Path>, prune: seq<Path>, p: Path)
    requires WellFormed(fs) && Trusted(m) && Owned(m) != map[] && p != []
    requires Direct(fs, Owned(m)) && Enumerates(order, Owned(m)) && R.Covers(Owned(m), order)
    ensures var (out, m') := TeardownStep(fs, m, order, TearScript(None, false, prune));
            var pr := TearN(fs, Owned(m), order, |order|);
            var ours := p in Owned(m) && Matches(fs, p, Owned(m)[p]);
            var kept := p in Owned(m) && p in fs && !Matches(fs, p, Owned(m)[p]);
            && !pr.raised && Trusted(m')
            && (p in fs && !fs[p].Dir? ==> if ours then p !in out else p in out && out[p] == fs[p])
            && (p in pr.removed <==> ours) && (p in pr.preserved <==> kept)
            && (p in pr.absent <==> p in Owned(m) && p !in fs)
            && (p in Owned(m') <==> kept) && (kept ==> Owned(m')[p] == Owned(m)[p])
  {
    DirectTeardown(fs, m, order, prune);
    ListsAre(fs, Owned(m), order);
    Sifts(fs, Owned(m), order, p);
    if p in Owned(m) { JudgeMeans(fs, p, Owned(m)[p]); }
  }

  /** However it ends, a teardown leaves the manifest, or part of its entries
      under the same versions, or none at all. */
  lemma TeardownRecords(fs: Tree, m: Manifest, order: seq<Path>, tear: TearScript)
    requires Trusted(m) ==> R.Covers(Owned(m), order)
    ensures var m' := TeardownStep(fs, m, order, tear).1;
            m' == m || m'.Absent?
            || (m.Saved? && m'.Saved? && m'.source == m.source && m'.package == m.package
                && m'.entries != map[]
                && forall p | p in m'.entries :: p in m.entries && m'.entries[p] == m.entries[p])
  {
  }

  /** Interrupted, a teardown leaves its manifest as it was. */
  lemma StoppedTeardownKeeps(fs: Tree, m: Manifest, order: seq<Path>, tear: TearScript)
    requires Trusted(m) ==> R.Covers(Owned(m), order)
    requires tear.stop.Some? || tear.manifestFails || !Trusted(m) || Owned(m) == map[]
    ensures TeardownStep(fs, m, order, tear).1 == m
    ensures !Trusted(m) || Owned(m) == map[] ==> TeardownStep(fs, m, order, tear).0 == fs
  {
  }
}
