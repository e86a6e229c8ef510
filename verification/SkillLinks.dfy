/** Teardown through links: exactly when an operator's file outlives a run, and
    a run in which it does not. */
module SkillLinks {
  import opened Wrappers
  import opened Text
  import opened HomeTree
  import opened SkillModel
  import opened SkillSteps
  import opened SkillRuns
  import opened SkillTeardowns
  import opened SkillSurveys
  import opened SkillInstalls
  import opened SkillRestores

  // ---- survival, exactly

  /** The teardown's turns that come before its end. */
  function Turns(order: seq<Path>, tear: TearScript): nat {
    if tear.stop.Some? then Min(tear.stop.value, |order|) else |order|
  }

  /** Some turn the teardown gets to is for a recorded path that leads to `q`. */
  ghost predicate Takes(s: Home, order: seq<Path>, tear: TearScript, q: Path)
    requires Legal(s, TearingDown(order, tear))
  {
    Trusted(s.manifest) &&
    exists i :: 0 <= i < Turns(order, tear) && TakenAt(s.fs, Owned(s.manifest), order, i, q)
  }

  lemma {:induction false} TeardownTakes(s: Home, order: seq<Path>, tear: TearScript, q: Path)
    requires WellFormed(s.fs) && Legal(s, TearingDown(order, tear)) && q in s.fs && s.fs[q].File?
    ensures var out := Next(s, TearingDown(order, tear)).fs;
            && (q !in out <==> Takes(s, order, tear, q))
            && (q in out ==> out[q] == s.fs[q])
  {
    if Trusted(s.manifest) && Owned(s.manifest) != map[] {
      var owned := Owned(s.manifest);
      var n := Turns(order, tear);
      GoneExactly(s.fs, owned, order, n, q);
      TearShrinks(s.fs, owned, order, n);
      PruningKeepsLeaves(TearN(s.fs, owned, order, n).fs, tear.prune);
    }
  }

  /** `q` holds `node` in every home of the run. */
  ghost predicate Throughout(s: Home, run: seq<Step>, q: Path, node: Node)
    requires LegalRun(s, run)
    decreases |run|
  {
    q in s.fs && s.fs[q] == node && (run != [] ==> Throughout(Next(s, run[0]), run[1..], q, node))
  }

  /** No teardown of the run takes `q`. */
  ghost predicate Spared(s: Home, run: seq<Step>, q: Path)
    requires LegalRun(s, run)
    decreases |run|
  {
    run != [] ==>
      && (run[0].TearingDown? ==> !Takes(s, run[0].order, run[0].tear, q))
      && Spared(Next(s, run[0]), run[1..], q)
  }

  /** Bytes never shipped to `q` stay there through the whole run exactly when no
      teardown of it gets to a recorded path that leads to `q`. */
  lemma {:induction false} SurvivesExactly(s: Home, past: seq<Step>, run: seq<Step>, q: Path, node: Node)
    requires node.File? && Honest(s, past) && LegalRun(s, run) && EditsSpare(run, q, node)
    requires q in s.fs && s.fs[q] == node && !Shipped(past + run, q, node.bytes)
    ensures Throughout(s, run, q, node) <==> Spared(s, run, q)
    decreases |run|
  {
    if run != [] {
      var step := run[0];
      var next := Next(s, step);
      assert past + run == past + [step] + run[1..] && step in run;
      StepIsHonest(s, step, past);
      StepKeepsOrTakes(s, past, run, q, node);
      assert forall later <- run[1..] :: later in run;
      if q in next.fs { SurvivesExactly(next, past + [step], run[1..], q, node); }
    }
  }

  lemma {:induction false} StepKeepsOrTakes(s: Home, past: seq<Step>, run: seq<Step>, q: Path, node: Node)
    requires node.File? && Honest(s, past) && LegalRun(s, run) && EditsSpare(run, q, node) && run != []
    requires q in s.fs && s.fs[q] == node && !Shipped(past + run, q, node.bytes)
    ensures var out := Next(s, run[0]).fs;
            && (q in out ==> out[q] == node)
            && (q !in out <==> run[0].TearingDown? && Takes(s, run[0].order, run[0].tear, q))
  {
    var step := run[0];
    assert step in run;
    if step.Installing? {
      assert forall i <- past :: i in past + run;
      assert !Shipped(past, q, node.bytes);
      InstallKeeps(s.fs, s.manifest, step.pkg, step.script, past, q, node);
    } else if step.TearingDown? {
      TeardownTakes(s, step.order, step.tear, q);
    }
  }

  /** The same from a home with no manifest: after any run, `q` outlives the next
      one exactly when no teardown takes it. */
  lemma {:induction false} OwnershipExactly(fs: Tree, before: seq<Step>, after: seq<Step>, q: Path, node: Node)
    requires node.File? && WellFormed(fs) && LegalRun(Home(fs, Absent), before)
    requires LegalRun(Run(Home(fs, Absent), before), after) && EditsSpare(after, q, node)
    requires var mid := Run(Home(fs, Absent), before).fs; q in mid && mid[q] == node
    requires !Shipped(before + after, q, node.bytes)
    ensures var mid := Run(Home(fs, Absent), before);
            Throughout(mid, after, q, node) <==> Spared(mid, after, q)
  {
    RunIsHonest(Home(fs, Absent), [], before);
    assert [] + before == before;
    SurvivesExactly(Run(Home(fs, Absent), before), before, after, q, node);
  }

  // ---- a run that loses a file through a link

  const SKILL: Path := [".agents", "skills", "spec-html"]
  const SKILL_FILE: Path := SKILL + ["SKILL.md"]
  const MOVED_FILE: Path := ["d", "SKILL.md"]
  const EMPTY_HOME: Tree := map[[] := Dir]
  const SHIPPED := Package(None, [Record(["spec-html", "SKILL.md"], "v1")])

  /** The home after its owner moved the skill directory to `d`, linked it back
      and dropped the compatibility directory. */
  const MOVED_HOME: Tree := map[
    [] := Dir, [".agents"] := Dir, [".agents", "skills"] := Dir, SKILL := Link("../../d"),
    ["d"] := Dir, MOVED_FILE := File("v1", true)]

  lemma MovedHomeIsWellFormed()
    ensures WellFormed(MOVED_HOME)
  {
    forall x | x in MOVED_HOME && x != [] ensures Parent(x) in MOVED_HOME && MOVED_HOME[Parent(x)].Dir? {
      if x == SKILL { assert Parent(x) == [".agents", "skills"]; }
      else if x == MOVED_FILE { assert Parent(x) == ["d"]; }
      else if x == [".agents", "skills"] { assert Parent(x) == [".agents"]; }
      else { assert Parent(x) == []; }
    }
  }

  lemma SplitTarget()
    ensures Split("../../d", '/') == ["..", "..", "d"]
  {
    assert "../../d" == ".." + ['/'] + "../d" && "../d" == ".." + ['/'] + "d";
    SplitPeels("..", "../d", '/');
    SplitPeels("..", "d", '/');
    SplitWhole("d", '/');
  }

  lemma TargetLeads()
    ensures Walk(MOVED_HOME, [".agents", "skills"], ["..", "..", "d"], 39) == At(["d"])
  {
    var fs := MOVED_HOME;
    assert ["..", "..", "d"] == [".."] + ["..", "d"] && ["..", "d"] == [".."] + ["d"] && ["d"] == ["d"] + [];
    WalkUp(fs, [".agents", "skills"], ["..", "d"], 39);
    assert Parent([".agents", "skills"]) == [".agents"] && Parent([".agents"]) == [];
    WalkUp(fs, [".agents"], ["d"], 39);
    assert [] + ["d"] == ["d"];
    WalkDir(fs, [], "d", [], 39);
  }

  lemma {:induction false} LinkLeads()
    ensures Walk(MOVED_HOME, [".agents", "skills"], ["spec-html"], 40) == At(["d"])
  {
    SplitTarget();
    TargetLeads();
    assert [".agents", "skills"] + ["spec-html"] == SKILL;
    assert !("/" <= "../../d") by { assert "/"[0] != "../../d"[0]; }
    WalkLink(MOVED_HOME, [".agents", "skills"], "spec-html", "../../d", 40);
  }

  /** Following a relative link as the last component. */
  lemma WalkLink(fs: Tree, cur: Path, name: string, target: string, hops: nat)
    requires cur + [name] in fs && fs[cur + [name]] == Link(target) && name !in {"", ".", ".."}
    requires hops > 0 && !("/" <= target)
    ensures Walk(fs, cur, [name], hops) == Walk(fs, cur, Split(target, '/'), hops - 1)
  {
    assert Split(target, '/') + [name][1..] == Split(target, '/');
  }

  lemma {:induction false} FileLocates()
    ensures Locate(MOVED_HOME, SKILL_FILE) == At(MOVED_FILE)
  {
    SkillLeads();
    LocateIn(MOVED_HOME, SKILL_FILE, SKILL, ["d"]);
    assert Parent(SKILL_FILE) == SKILL && ["d"] + ["SKILL.md"] == MOVED_FILE;
  }

  lemma SkillLeads()
    ensures Walk(MOVED_HOME, [], SKILL, 40) == At(["d"])
  {
    LinkLeads();
    assert [] + [".agents"] == [".agents"] && [".agents"] + ["skills"] == [".agents", "skills"];
    WalkDir(MOVED_HOME, [".agents"], "skills", ["spec-html"], 40);
    WalkDir(MOVED_HOME, [], ".agents", ["skills", "spec-html"], 40);
    assert SKILL == [".agents"] + ["skills", "spec-html"] && ["skills", "spec-html"] == ["skills"] + ["spec-html"];
  }

  lemma LocateIn(fs: Tree, p: Path, parent: Path, at: Path)
    requires p != [] && Parent(p) == parent && Walk(fs, [], parent, MAX_HOPS) == At(at) && at in fs && fs[at].Dir?
    ensures Locate(fs, p) == At(at + [p[|p| - 1]])
  {
  }

  lemma ShippedIsValid()
    ensures ValidPackage(SHIPPED)
  {
    assert forall c <- ["spec-html", "SKILL.md"] :: CleanName(c);
  }

  lemma FilePlaced()
    ensures var a := Plan(EMPTY_HOME, map[], SHIPPED)[0];
            Places(a) && a.path == SKILL_FILE && a.payload == FileOf(SHIPPED.records[0])
  {
    var r := SHIPPED.records[0];
    assert Dest(r) == SKILL_FILE;
    PlanPath(EMPTY_HOME, map[], SHIPPED, 0);
  }

  lemma SpecAlias()
    ensures PlanAlias(EMPTY_HOME, map[], SHIPPED, "spec-html").Missing_?
  {
    var r := SHIPPED.records[0];
    assert OfSkill(r, "spec-html") && r in SHIPPED.records;
    FilePlaced();
    PlanPath(EMPTY_HOME, map[], SHIPPED, 0);
    assert forall s <- SHIPPED.records :: PlanFile(EMPTY_HOME, map[], s).Missing_?;
  }

  lemma OtherAlias(skill: string)
    requires skill != "spec-html"
    ensures PlanAlias(EMPTY_HOME, map[], SHIPPED, skill).CanonicalMissing?
  {
    assert forall s <- SHIPPED.records :: !OfSkill(s, skill);
  }

  lemma AliasActs(fs: Tree, owned: Entries, pkg: Package, skill: string)
    ensures var s, a := PlanAlias(fs, owned, pkg, skill), AliasAction(fs, owned, pkg, skill);
            && a.path == AliasPath(skill)
            && (s.CanonicalMissing? ==> !Places(a)) && (s.Missing_? ==> Places(a) && a.payload.AliasOf?)
  {
  }

  /** Every alias but one names a skill the package does not ship. */
  lemma AliasPlaced(i: nat)
    requires 0 < i < |Plan(EMPTY_HOME, map[], SHIPPED)|
    ensures var a := Plan(EMPTY_HOME, map[], SHIPPED)[i];
            && (Places(a) <==> DECLARED[i - 1] == "spec-html")
            && (Places(a) ==> a.path == AliasPath("spec-html") && a.payload.AliasOf?)
  {
    PlanPath(EMPTY_HOME, map[], SHIPPED, i);
    if DECLARED[i - 1] == "spec-html" { SpecAlias(); } else { OtherAlias(DECLARED[i - 1]); }
    AliasActs(EMPTY_HOME, map[], SHIPPED, DECLARED[i - 1]);
  }

  ghost predicate OwnsTwo(e: Entries) {
    && e.Keys == {SKILL_FILE, AliasPath("spec-html")}
    && e[SKILL_FILE] == FileEntry(OfBytes("v1")) && e[AliasPath("spec-html")].AliasEntry?
  }

  ghost function FirstEntries(): Entries {
    var actions := Plan(EMPTY_HOME, map[], SHIPPED);
    FreshN(map[], actions, ApplyN(EMPTY_HOME, actions, CLEAN, |actions|).1, |actions|)
  }

  /** What the install places it enters. */
  lemma {:induction false} PlacedIsEntered(i: nat)
    requires i < |Plan(EMPTY_HOME, map[], SHIPPED)| && Places(Plan(EMPTY_HOME, map[], SHIPPED)[i])
    ensures var a := Plan(EMPTY_HOME, map[], SHIPPED)[i];
            a.path in FirstEntries() && FirstEntries()[a.path] == EntryOf(a)
  {
    var actions := Plan(EMPTY_HOME, map[], SHIPPED);
    ShippedIsValid();
    FirstApply(EMPTY_HOME, SHIPPED);
    PlanIsApart(EMPTY_HOME, map[], SHIPPED);
    FreshEntry(map[], actions, ApplyN(EMPTY_HOME, actions, CLEAN, |actions|).1, |actions|, i);
  }

  lemma {:induction false} EnteredIsPlaced(p: Path) returns (i: nat)
    requires p in FirstEntries()
    ensures i < |Plan(EMPTY_HOME, map[], SHIPPED)|
    ensures var a := Plan(EMPTY_HOME, map[], SHIPPED)[i]; Places(a) && a.path == p
  {
    var actions := Plan(EMPTY_HOME, map[], SHIPPED);
    ShippedIsValid();
    FirstInstall(EMPTY_HOME, SHIPPED, p);
    i :| 0 <= i < |actions| && Places(actions[i]) && actions[i].path == p;
  }

  lemma OwnsTwoFrom(e: Entries, file: Action, alias: Action)
    requires file.path == SKILL_FILE && file.payload.FileOf? && file.payload.record.bytes == "v1"
    requires alias.path == AliasPath("spec-html") && alias.payload.AliasOf?
    requires file.path in e && e[file.path] == EntryOf(file) && alias.path in e && e[alias.path] == EntryOf(alias)
    requires forall p | p in e :: p in {SKILL_FILE, AliasPath("spec-html")}
    ensures OwnsTwo(e)
  {
  }

  lemma {:induction false} OnlyTwoEntered(p: Path)
    requires p in FirstEntries()
    ensures p in {SKILL_FILE, AliasPath("spec-html")}
  {
    var i := EnteredIsPlaced(p);
    if i > 0 { AliasPlaced(i); } else { FilePlaced(); }
  }

  lemma {:induction false} FirstOwnsTwo()
    ensures OwnsTwo(FirstEntries())
  {
    var actions := Plan(EMPTY_HOME, map[], SHIPPED);
    FilePlaced();
    PlacedIsEntered(0);
    AliasPlaced(6);
    PlacedIsEntered(6);
    forall p | p in FirstEntries() ensures p in {SKILL_FILE, AliasPath("spec-html")} { OnlyTwoEntered(p); }
    OwnsTwoFrom(FirstEntries(), actions[0], actions[6]);
  }

  lemma {:induction false} FirstManifest()
    ensures var m := InstallStep(EMPTY_HOME, Absent, SHIPPED, CLEAN).1;
            Trusted(m) && OwnsTwo(Owned(m))
  {
    FirstIsTrusted();
    FirstOwnsTwo();
    var m := InstallStep(EMPTY_HOME, Absent, SHIPPED, CLEAN).1;
    assert m == Saved(None, None, FirstEntries()) by { FirstInstalls(EMPTY_HOME, SHIPPED); }
  }

  lemma {:induction false} FirstIsTrusted()
    ensures Trusted(InstallStep(EMPTY_HOME, Absent, SHIPPED, CLEAN).1)
  {
    ShippedIsValid();
    ShippedIsRecordable(SHIPPED.records[0]);
    RecordablePlaces(EMPTY_HOME, SHIPPED);
    FirstTrusted(EMPTY_HOME, SHIPPED);
  }

  lemma ShippedIsRecordable(r: Record)
    requires r == Record(["spec-html", "SKILL.md"], "v1")
    ensures Recordable(r)
  {
  }

  lemma {:induction false} RecordablePlaces(fs: Tree, pkg: Package)
    requires forall i | 0 <= i < |pkg.records| :: Recordable(pkg.records[i])
    ensures PlacesRecordable(fs, pkg)
  {
  }

  lemma MovedIsTaken(m: Manifest, order: seq<Path>)
    requires Trusted(m) && OwnsTwo(Owned(m)) && order == [SKILL_FILE, AliasPath("spec-html")]
    ensures var tear := TearScript(None, false, []);
            && Legal(Home(MOVED_HOME, m), TearingDown(order, tear))
            && MOVED_FILE !in Next(Home(MOVED_HOME, m), TearingDown(order, tear)).fs
  {
    var s := Home(MOVED_HOME, m);
    assert SKILL_FILE != AliasPath("spec-html") by { assert |SKILL_FILE| == 4; }
    MovedHomeIsWellFormed();
    FileLocates();
    assert TakenAt(MOVED_HOME, Owned(m), order, 0, MOVED_FILE);
    TeardownTakes(s, order, TearScript(None, false, []), MOVED_FILE);
  }

  lemma NothingShippedThere(run: seq<Step>)
    requires forall step <- run :: step.Installing? ==> step.pkg == SHIPPED
    ensures !Shipped(run, MOVED_FILE, "v1")
  {
    forall r | r in SHIPPED.records ensures Dest(r) != MOVED_FILE { assert |Dest(r)| == 4; }
  }

  lemma {:induction false} ThreeSteps(s: Home, a: Step, b: Step, c: Step)
    requires Legal(s, a) && Legal(Next(s, a), b) && Legal(Next(Next(s, a), b), c)
    ensures LegalRun(s, [a, b, c]) && Run(s, [a, b, c]) == Next(Next(Next(s, a), b), c)
  {
    assert [c] == [c] + [] && [b, c] == [b] + [c] && [a, b, c] == [a] + [b, c];
    OneStep(Next(Next(s, a), b), c, []);
    OneStep(Next(s, a), b, [c]);
    OneStep(s, a, [b, c]);
  }

  lemma {:induction false} OneStep(s: Home, step: Step, rest: seq<Step>)
    requires Legal(s, step) && LegalRun(Next(s, step), rest)
    ensures LegalRun(s, [step] + rest) && Run(s, [step] + rest) == Run(Next(s, step), rest)
  {
    assert ([step] + rest)[1..] == rest;
  }

  /** A run that removes a file from a path nothing was ever shipped to: install,
      move the skill directory away and link it back, tear down. */
  lemma {:induction false} LinkedParentLosesFile() returns (run: seq<Step>)
    ensures LegalRun(Home(EMPTY_HOME, Absent), run) && |run| == 3
    ensures run[1] == Editing(MOVED_HOME) && MOVED_HOME[MOVED_FILE] == File("v1", true)
    ensures run[2].TearingDown? && !Shipped(run, MOVED_FILE, "v1")
    ensures MOVED_FILE !in Run(Home(EMPTY_HOME, Absent), run).fs
  {
    var order := [SKILL_FILE, AliasPath("spec-html")];
    var install, edit := Installing(SHIPPED, CLEAN), Editing(MOVED_HOME);
    var tear := TearingDown(order, TearScript(None, false, []));
    run := [install, edit, tear];
    var s0 := Home(EMPTY_HOME, Absent);
    ShippedIsValid();
    MovedHomeIsWellFormed();
    FirstManifest();
    MovedIsTaken(Next(s0, install).manifest, order);
    ThreeSteps(s0, install, edit, tear);
    NothingShippedThere(run);
  }

  // ---- a teardown that does not do what its survey announced

  const AWAY: Path := [".agents", "skills", "away-mode"]
  const AWAY_FILE: Path := AWAY + ["SKILL.md"]

  /** One skill directory replaced by a link to another. */
  const LINKED_HOME: Tree := map[
    [] := Dir, [".agents"] := Dir, [".agents", "skills"] := Dir, AWAY := Dir,
    AWAY_FILE := File("v1", true), SKILL := Link("away-mode")]

  const LINKED_OWNED: Entries := map[AWAY_FILE := FileEntry(OfBytes("v1")), SKILL_FILE := FileEntry(OfBytes("v2"))]

  lemma LinkedHomeIsWellFormed()
    ensures WellFormed(LINKED_HOME)
  {
    forall x | x in LINKED_HOME && x != [] ensures Parent(x) in LINKED_HOME && LINKED_HOME[Parent(x)].Dir? {
      if x == SKILL || x == AWAY { assert Parent(x) == [".agents", "skills"]; }
      else if x == AWAY_FILE { assert Parent(x) == AWAY; }
      else if x == [".agents", "skills"] { assert Parent(x) == [".agents"]; }
      else { assert Parent(x) == []; }
    }
  }

  lemma AwayLeads()
    ensures Walk(LINKED_HOME, [".agents", "skills"], ["spec-html"], 40) == At(AWAY)
  {
    SplitWhole("away-mode", '/');
    assert [".agents", "skills"] + ["spec-html"] == SKILL;
    assert !("/" <= "away-mode") by { assert "/"[0] != "away-mode"[0]; }
    WalkLink(LINKED_HOME, [".agents", "skills"], "spec-html", "away-mode", 40);
    AwayIsDir();
  }

  lemma AwayIsDir()
    ensures Walk(LINKED_HOME, [".agents", "skills"], ["away-mode"], 39) == At(AWAY)
  {
    assert [".agents", "skills"] + ["away-mode"] == AWAY && ["away-mode"] == ["away-mode"] + [];
    WalkDir(LINKED_HOME, [".agents", "skills"], "away-mode", [], 39);
  }

  lemma LinkedSkillLeads()
    ensures Walk(LINKED_HOME, [], SKILL, 40) == At(AWAY)
  {
    AwayLeads();
    assert [] + [".agents"] == [".agents"] && [".agents"] + ["skills"] == [".agents", "skills"];
    WalkDir(LINKED_HOME, [".agents"], "skills", ["spec-html"], 40);
    WalkDir(LINKED_HOME, [], ".agents", ["skills", "spec-html"], 40);
    assert SKILL == [".agents"] + ["skills", "spec-html"] && ["skills", "spec-html"] == ["skills"] + ["spec-html"];
  }

  lemma LinkedLocates()
    ensures Locate(LINKED_HOME, SKILL_FILE) == At(AWAY_FILE)
  {
    LinkedSkillLeads();
    assert Parent(SKILL_FILE) == SKILL;
    LocateIn(LINKED_HOME, SKILL_FILE, SKILL, AWAY);
  }

  lemma AwayLocates()
    ensures Locate(LINKED_HOME, AWAY_FILE) == At(AWAY_FILE)
  {
    LinkedHomeIsWellFormed();
    forall k | 0 < k < |AWAY_FILE| && AWAY_FILE[..k] in LINKED_HOME ensures !LINKED_HOME[AWAY_FILE[..k]].Link? {
      AncestorsExist(LINKED_HOME, AWAY_FILE, k);
    }
    UnlinkedLocate(LINKED_HOME, AWAY_FILE);
  }

  lemma LinkedTurns(order: seq<Path>)
    requires order == [AWAY_FILE, SKILL_FILE] && Covers(LINKED_OWNED, order)
    ensures Surveyed(LINKED_HOME, LINKED_OWNED, order, 0) == Matching(AWAY_FILE)
    ensures Surveyed(LINKED_HOME, LINKED_OWNED, order, 1).Mismatched?
    ensures TearN(LINKED_HOME, LINKED_OWNED, order, 2)
            == Progress(LINKED_HOME - {AWAY_FILE}, [AWAY_FILE], [], [SKILL_FILE], false)
  {
    LinkedLocates();
    AwayLocates();
    var start := TearN(LINKED_HOME, LINKED_OWNED, order, 0);
    var first := TearN(LINKED_HOME, LINKED_OWNED, order, 1);
    assert first == TearOne(start, AWAY_FILE, LINKED_OWNED[AWAY_FILE]);
    assert first == Progress(LINKED_HOME - {AWAY_FILE}, [AWAY_FILE], [], [], false);
    SecondIsAbsent(first, LINKED_OWNED[SKILL_FILE]);
    assert TearN(LINKED_HOME, LINKED_OWNED, order, 2) == TearOne(first, SKILL_FILE, LINKED_OWNED[SKILL_FILE]);
  }

  lemma SecondIsAbsent(pr: Progress, entry: Entry)
    requires pr.fs == LINKED_HOME - {AWAY_FILE} && !pr.raised
    ensures TearOne(pr, SKILL_FILE, entry) == pr.(absent := pr.absent + [SKILL_FILE])
  {
    LinkedLocates();
    LocateShrinks(LINKED_HOME, pr.fs, SKILL_FILE);
  }

  lemma LinkedSift(order: seq<Path>)
    requires order == [AWAY_FILE, SKILL_FILE] && Covers(LINKED_OWNED, order)
    ensures Sift(LINKED_HOME, LINKED_OWNED, order, 2, Removal) == [AWAY_FILE]
    ensures Sift(LINKED_HOME, LINKED_OWNED, order, 2, Keeping) == [SKILL_FILE]
  {
    LinkedTurns(order);
    assert Sift(LINKED_HOME, LINKED_OWNED, order, 1, Removal) == [AWAY_FILE];
    assert Sift(LINKED_HOME, LINKED_OWNED, order, 1, Keeping) == [];
  }

  /** The survey says the second entry is kept, evidence and all. The teardown
      removes the file both paths lead to, finds the second absent and drops the
      manifest. */
  lemma {:induction false} SurveyMisleads() returns (m: Manifest, order: seq<Path>)
    ensures WellFormed(LINKED_HOME) && Trusted(m) && Enumerates(order, Owned(m)) && Covers(Owned(m), order)
    ensures Quiet(LINKED_HOME, Owned(m), order)
    ensures Sift(LINKED_HOME, Owned(m), order, |order|, Keeping) == [SKILL_FILE]
    ensures var pr := TearN(LINKED_HOME, Owned(m), order, |order|);
            !pr.raised && pr.removed == [AWAY_FILE] && pr.preserved == [] && pr.absent == [SKILL_FILE]
    ensures TeardownStep(LINKED_HOME, m, order, TearScript(None, false, [])).1.Absent?
  {
    m, order := Saved(None, None, LINKED_OWNED), [AWAY_FILE, SKILL_FILE];
    LinkedIsTrusted(m, order);
    LinkedHomeIsWellFormed();
    LinkedTurns(order);
    LinkedSift(order);
    TeardownForgets(LINKED_HOME, m, order, []);
  }

  lemma LinkedIsTrusted(m: Manifest, order: seq<Path>)
    requires m == Saved(None, None, LINKED_OWNED) && order == [AWAY_FILE, SKILL_FILE]
    ensures Trusted(m) && Owned(m) != map[] && Enumerates(order, Owned(m)) && Covers(Owned(m), order)
  {
    assert AWAY_FILE[2] == "away-mode" && SKILL_FILE[2] == "spec-html" && "away-mode"[0] != "spec-html"[0];
    SkillEntryIsValid("away-mode", LINKED_OWNED[AWAY_FILE]);
    SkillEntryIsValid("spec-html", LINKED_OWNED[SKILL_FILE]);
    assert order[0] in order && order[1] in order;
  }

  lemma SkillEntryIsValid(skill: string, entry: Entry)
    requires CleanName(skill) && '\\' !in skill && entry.FileEntry?
    ensures ValidEntry([".agents", "skills", skill] + ["SKILL.md"], entry)
  {
    var p := [".agents", "skills", skill] + ["SKILL.md"];
    assert p[..2] == CANONICAL;
    assert forall c <- p :: c in [".agents", "skills", skill, "SKILL.md"];
  }

  // ---- two manifests

  const BACKSLASH := Package(None, [Record(["spec-html", "a\\b"], "n")])

  /** An install that leaves a manifest no later command accepts: the file is
      there, and neither an install nor a teardown will touch it. */
  lemma {:induction false} UnreadableManifest(script: Script, order: seq<Path>, tear: TearScript)
    ensures var (out, m) := InstallStep(EMPTY_HOME, Absent, BACKSLASH, CLEAN);
            && SKILL + ["a\\b"] in out && !Trusted(m)
            && InstallStep(out, m, BACKSLASH, script) == (out, m) && TeardownStep(out, m, order, tear) == (out, m)
  {
    var r := BACKSLASH.records[0];
    var actions := Plan(EMPTY_HOME, map[], BACKSLASH);
    BackslashIsValid();
    assert Dest(r) == SKILL + ["a\\b"];
    PlanPath(EMPTY_HOME, map[], BACKSLASH, 0);
    assert Places(actions[0]);
    BackslashIsNotRecordable(r);
    FirstTrusted(EMPTY_HOME, BACKSLASH);
    FirstApply(EMPTY_HOME, BACKSLASH);
    FirstTree(EMPTY_HOME, BACKSLASH);
  }

  lemma BackslashIsValid()
    ensures ValidPackage(BACKSLASH)
  {
    assert forall c <- ["spec-html", "a\\b"] :: CleanName(c);
  }

  lemma BackslashIsNotRecordable(r: Record)
    requires r == Record(["spec-html", "a\\b"], "n")
    ensures !Recordable(r)
  {
    assert r.path[1] in r.path && r.path[1][1] == '\\';
  }

  lemma FirstTree(fs: Tree, pkg: Package)
    ensures var actions := Plan(fs, map[], pkg);
            InstallStep(fs, Absent, pkg, CLEAN).0 == ApplyN(fs, actions, CLEAN, |actions|).0
  {
  }

  /** A home in which a file stands where the skills would go. */
  const BLOCKED_HOME: Tree := map[[] := Dir, [".agents"] := File("mine", true)]

  /** An install that creates nothing still leaves a manifest, and teardown
      leaves it there. */
  lemma {:induction false} EmptyManifestStays(prune: seq<Path>)
    ensures var (mid, m) := InstallStep(BLOCKED_HOME, Absent, SHIPPED, CLEAN);
            m == Saved(None, None, map[])
            && TeardownStep(mid, m, [], TearScript(None, false, prune)) == (mid, m)
  {
    var actions := Plan(BLOCKED_HOME, map[], SHIPPED);
    ShippedIsValid();
    assert WellFormed(BLOCKED_HOME) by { assert Parent([".agents"]) == []; }
    forall i | 0 <= i < |actions| ensures !Places(actions[i]) { NothingPlaced(i); }
    FirstInstalls(BLOCKED_HOME, SHIPPED);
    var e := FreshN(map[], actions, ApplyN(BLOCKED_HOME, actions, CLEAN, |actions|).1, |actions|);
    forall p | p in e ensures false { FirstInstall(BLOCKED_HOME, SHIPPED, p); }
    assert e == map[];
  }

  lemma FileBlocked(r: Record)
    requires r == Record(["spec-html", "SKILL.md"], "v1")
    ensures PlanFile(BLOCKED_HOME, map[], r).ParentCollision?
  {
    var p := Dest(r);
    assert p[..1] == [".agents"] && 0 < 1 < |p|;
  }

  lemma NothingPlaced(i: nat)
    requires i < |Plan(BLOCKED_HOME, map[], SHIPPED)|
    ensures !Places(Plan(BLOCKED_HOME, map[], SHIPPED)[i])
  {
    var r := SHIPPED.records[0];
    FileBlocked(r);
    PlanPath(BLOCKED_HOME, map[], SHIPPED, i);
    if i > 0 { AliasBlocked(DECLARED[i - 1]); }
  }

  lemma AliasBlocked(skill: string)
    ensures !Places(AliasAction(BLOCKED_HOME, map[], SHIPPED, skill))
  {
    var r := SHIPPED.records[0];
    assert forall s <- SHIPPED.records :: s == r;
    FileBlocked(r);
    if OfSkill(r, skill) { assert !CanonicalReady(BLOCKED_HOME, map[], SHIPPED, skill); }
  }
}
