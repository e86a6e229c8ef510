/** Ownership over whole runs: any interleaving of installs, teardowns and
    operator edits, with a failure or a kill at any point. */
module SkillRuns {
  import opened Wrappers
  import opened HomeTree
  import opened SkillModel
  import opened SkillSteps

  datatype Home = Home(fs: Tree, manifest: Manifest)

  datatype Step =
    | Installing(pkg: Package, script: Script)
    | TearingDown(order: seq<Path>, tear: TearScript)
    | Editing(after: Tree)

  ghost predicate Legal(s: Home, step: Step) {
    match step
    case Installing(pkg, _) => ValidPackage(pkg)
    case TearingDown(order, _) =>
      Trusted(s.manifest) ==> Enumerates(order, Owned(s.manifest)) && Covers(Owned(s.manifest), order)
    case Editing(after) => WellFormed(after)
  }

  function Next(s: Home, step: Step): Home
    requires Legal(s, step)
  {
    match step
    case Installing(pkg, script) =>
      var (fs, m) := InstallStep(s.fs, s.manifest, pkg, script); Home(fs, m)
    case TearingDown(order, tear) =>
      var (fs, m) := TeardownStep(s.fs, s.manifest, order, tear); Home(fs, m)
    case Editing(after) => s.(fs := after)
  }

  ghost predicate LegalRun(s: Home, run: seq<Step>)
    decreases |run|
  {
    run != [] ==> Legal(s, run[0]) && LegalRun(Next(s, run[0]), run[1..])
  }

  ghost function Run(s: Home, run: seq<Step>): Home
    requires LegalRun(s, run)
    decreases |run|
  {
    if run == [] then s else Run(Next(s, run[0]), run[1..])
  }

  /** Some install of the run ships exactly these bytes to `p`. */
  ghost predicate Shipped(run: seq<Step>, p: Path, bytes: Bytes) {
    exists step <- run :: step.Installing? && exists r <- step.pkg.records :: Dest(r) == p && r.bytes == bytes
  }

  ghost predicate HonestEntry(past: seq<Step>, p: Path, entry: Entry) {
    p != [] && (entry.FileEntry? ==> entry.digest.OfBytes? && Shipped(past, p, entry.digest.bytes))
  }

  ghost predicate AllHonest(past: seq<Step>, entries: Entries) {
    forall p | p in entries :: HonestEntry(past, p, entries[p])
  }

  /** History invariant: a file entry records bytes shipped to that very path. */
  ghost predicate Honest(s: Home, past: seq<Step>) {
    && WellFormed(s.fs)
    && (s.manifest.Saved? ==> AllHonest(past, s.manifest.entries))
  }

  // ---- one install

  lemma {:induction false} ApplyKeepsWellFormed(fs: Tree, actions: seq<Action>, script: Script, n: nat)
    requires WellFormed(fs) && n <= |actions|
    ensures WellFormed(ApplyN(fs, actions, script, n).0)
  {
    if n > 0 {
      ApplyKeepsWellFormed(fs, actions, script, n - 1);
      var mid := ApplyN(fs, actions, script, n - 1).0;
      var a := actions[n - 1];
      var fault := FaultAt(script, n - 1);
      if Places(a) && fault.None? && CanPlace(mid, a.path) {
        PlaceKeepsWellFormed(mid, a.path, NodeOf(a));
      } else if Places(a) && fault.Some? && a.path != [] && Plain(mid, a.path) {
        MakeParentsWellFormed(mid, a.path, Min(fault.value, |a.path| - 1));
      }
    }
  }

  /** Whatever else happens, an install only replaces nodes it planned to. */
  lemma {:induction false} ApplyKeepsOthers(fs: Tree, actions: seq<Action>, script: Script, n: nat, q: Path)
    requires n <= |actions| && q in fs
    requires forall i | 0 <= i < n :: Places(actions[i]) ==> actions[i].path != q
    ensures var out := ApplyN(fs, actions, script, n).0; q in out && out[q] == fs[q]
  {
    if n > 0 { ApplyKeepsOthers(fs, actions, script, n - 1, q); }
  }

  /** A file an install replaces holds bytes recorded for that path. */
  lemma PlacedOverOwned(fs: Tree, owned: Entries, pkg: Package, i: nat)
    requires i < |pkg.records| + |DECLARED|
    requires var a := Plan(fs, owned, pkg)[i]; Places(a) && a.path in fs
    ensures var p := Plan(fs, owned, pkg)[i].path;
            p in owned && owned[p].FileEntry? && fs[p].File? && FileDigest(fs[p]) == Some(owned[p].digest)
  {
    if i < |pkg.records| {
      assert Plan(fs, owned, pkg)[i] == FileAction(fs, owned, pkg.records[i]);
    } else {
      AliasPlacedOnNothing(fs, owned, pkg, DECLARED[i - |pkg.records|]);
    }
  }

  lemma AliasPlacedOnNothing(fs: Tree, owned: Entries, pkg: Package, skill: string)
    ensures var a := AliasAction(fs, owned, pkg, skill); Places(a) ==> a.path !in fs
  {
  }

  ghost predicate ShippedAction(past: seq<Step>, a: Action) {
    a.path != [] && (a.payload.FileOf? ==> Shipped(past, a.path, a.payload.record.bytes))
  }

  lemma PlanIsShipped(fs: Tree, owned: Entries, pkg: Package, past: seq<Step>)
    requires forall r <- pkg.records :: Shipped(past, Dest(r), r.bytes)
    ensures forall a <- Plan(fs, owned, pkg) :: ShippedAction(past, a)
  {
    var actions := Plan(fs, owned, pkg);
    forall i | 0 <= i < |actions| ensures ShippedAction(past, actions[i]) {
      if i < |pkg.records| {
        assert actions[i] == FileAction(fs, owned, pkg.records[i]);
      } else {
        assert actions[i] == AliasAction(fs, owned, pkg, DECLARED[i - |pkg.records|]);
      }
    }
  }

  lemma {:induction false} FreshIsHonest(owned: Entries, actions: seq<Action>, states: seq<State>, n: nat,
                                         past: seq<Step>)
    requires n <= |actions| == |states|
    requires forall a <- actions :: ShippedAction(past, a)
    requires AllHonest(past, owned)
    ensures AllHonest(past, FreshN(owned, actions, states, n))
  {
    if n > 0 {
      FreshIsHonest(owned, actions, states, n - 1, past);
      var a := actions[n - 1];
      assert ShippedAction(past, a);
    }
  }

  // ---- one teardown

  /** `out` is `fs` with some nodes gone. */
  ghost predicate Shrunk(fs: Tree, out: Tree) {
    && WellFormed(out) && out.Keys <= fs.Keys
    && forall q | q in out :: out[q] == fs[q]
  }

  ghost predicate Covers(owned: Entries, order: seq<Path>) {
    forall p <- order :: p in owned && p != []
  }

  lemma {:induction false} TearShrinks(fs: Tree, owned: Entries, order: seq<Path>, n: nat)
    requires WellFormed(fs) && n <= |order| && Covers(owned, order)
    ensures Shrunk(fs, TearN(fs, owned, order, n).fs)
  {
    if n > 0 {
      TearShrinks(fs, owned, order, n - 1);
      var pr := TearN(fs, owned, order, n - 1);
      assert order[n - 1] in order;
      var v := Judge(pr.fs, order[n - 1], owned[order[n - 1]]);
      if v.Matching? {
        NonDirIsChildless(pr.fs, v.at);
        RemovalKeepsWellFormed(pr.fs, v.at);
      }
    }
  }

  /** After some removals a path leads where it led at the start, or nowhere. */
  lemma {:induction false} TearLocates(fs: Tree, owned: Entries, order: seq<Path>, n: nat, p: Path)
    requires WellFormed(fs) && n <= |order| && Covers(owned, order) && p != []
    ensures var l := Locate(TearN(fs, owned, order, n).fs, p); l.Missing? || l == Locate(fs, p)
  {
    if n > 0 {
      TearLocates(fs, owned, order, n - 1, p);
      TearShrinks(fs, owned, order, n - 1);
      var pr := TearN(fs, owned, order, n - 1);
      assert order[n - 1] in order;
      var v := Judge(pr.fs, order[n - 1], owned[order[n - 1]]);
      if !pr.raised && v.Matching? {
        NonDirIsChildless(pr.fs, v.at);
        LocateAfterRemoval(pr.fs, v.at, p);
      }
    }
  }

  /** A path that leads to `q` and whose record matches what stands there. */
  ghost predicate Claims(fs: Tree, owned: Entries, p: Path, q: Path) {
    p != [] && p in owned && Judge(fs, p, owned[p]) == Matching(q)
  }

  /** Every removal in the loop is of a node some recorded path claims. */
  lemma {:induction false} TearWhy(fs: Tree, owned: Entries, order: seq<Path>, n: nat, q: Path)
    requires WellFormed(fs) && n <= |order| && Covers(owned, order)
    requires q in fs && q !in TearN(fs, owned, order, n).fs
    ensures exists p :: Claims(fs, owned, p, q)
  {
    var pr := TearN(fs, owned, order, n - 1);
    if q !in pr.fs {
      TearWhy(fs, owned, order, n - 1, q);
    } else {
      var p := order[n - 1];
      assert p in order;
      TearShrinks(fs, owned, order, n - 1);
      TearLocates(fs, owned, order, n - 1, p);
      assert Claims(fs, owned, p, q);
    }
  }

  lemma TeardownKeeps(fs: Tree, m: Manifest, order: seq<Path>, tear: TearScript, q: Path)
    requires WellFormed(fs) && q in fs && !fs[q].Dir?
    requires Trusted(m) ==> Covers(Owned(m), order)
    requires Trusted(m) ==> forall p :: !Claims(fs, Owned(m), p, q)
    ensures var (out, _) := TeardownStep(fs, m, order, tear); q in out && out[q] == fs[q]
  {
    if Trusted(m) && Owned(m) != map[] {
      var n := if tear.stop.Some? then Min(tear.stop.value, |order|) else |order|;
      TearShrinks(fs, Owned(m), order, n);
      var pr := TearN(fs, Owned(m), order, n);
      if q !in pr.fs { TearWhy(fs, Owned(m), order, n, q); }
      PruningKeepsLeaves(pr.fs, tear.prune);
    }
  }

  // ---- steps keep the history invariant

  lemma {:induction false} StepIsHonest(s: Home, step: Step, past: seq<Step>)
    requires Honest(s, past) && Legal(s, step)
    ensures Honest(Next(s, step), past + [step])
  {
    var now := past + [step];
    assert forall i <- past :: i in now;
    assert forall p, bytes :: Shipped(past, p, bytes) ==> Shipped(now, p, bytes);
    if s.manifest.Saved? { assert AllHonest(now, s.manifest.entries); }
    assert Honest(s, now) && step in now;
    match step
    case Editing(_) =>
    case Installing(pkg, script) => InstallIsHonest(s, pkg, script, now);
    case TearingDown(order, tear) => TeardownIsHonest(s, order, tear, now);
  }

  lemma {:induction false} InstallIsHonest(s: Home, pkg: Package, script: Script, now: seq<Step>)
    requires Honest(s, now) && ValidPackage(pkg) && Installing(pkg, script) in now
    ensures Honest(Next(s, Installing(pkg, script)), now)
  {
    if Trusted(s.manifest) {
      var owned := Owned(s.manifest);
      var actions := Plan(s.fs, owned, pkg);
      forall n | 0 <= n <= |actions| ensures WellFormed(ApplyN(s.fs, actions, script, n).0) {
        ApplyKeepsWellFormed(s.fs, actions, script, n);
      }
      PlanIsShipped(s.fs, owned, pkg, now);
      FreshIsHonest(owned, actions, ApplyN(s.fs, actions, script, |actions|).1, |actions|, now);
    }
  }

  lemma {:induction false} TeardownIsHonest(s: Home, order: seq<Path>, tear: TearScript, now: seq<Step>)
    requires Honest(s, now) && Legal(s, TearingDown(order, tear))
    ensures Honest(Next(s, TearingDown(order, tear)), now)
  {
    if Trusted(s.manifest) && Owned(s.manifest) != map[] {
      var n := if tear.stop.Some? then Min(tear.stop.value, |order|) else |order|;
      TearShrinks(s.fs, Owned(s.manifest), order, n);
      PruningKeepsLeaves(TearN(s.fs, Owned(s.manifest), order, n).fs, tear.prune);
    }
  }

  lemma InstallKeeps(fs: Tree, m: Manifest, pkg: Package, script: Script, past: seq<Step>, q: Path, node: Node)
    requires node.File?
    requires Honest(Home(fs, m), past) && q in fs && fs[q] == node && !Shipped(past, q, node.bytes)
    ensures var (out, _) := InstallStep(fs, m, pkg, script); q in out && out[q] == fs[q]
  {
    if Trusted(m) {
      var owned := Owned(m);
      var actions := Plan(fs, owned, pkg);
      forall i | 0 <= i < |actions| && Places(actions[i]) ensures actions[i].path != q {
        if actions[i].path in fs { PlacedOverOwned(fs, owned, pkg, i); }
      }
      var n := if script.stop.Some? then Min(script.stop.value, |actions|) else |actions|;
      ApplyKeepsOthers(fs, actions, script, n, q);
    }
  }

  // ---- the theorem

  /** The steps after the operator wrote at `q`: later edits leave it alone, and
      when a teardown runs no recorded path leads to `q` through a symbolic
      link while having been shipped those bytes. */
  ghost predicate Undisturbed(s: Home, past: seq<Step>, run: seq<Step>, q: Path, node: Node)
    requires node.File?
    requires LegalRun(s, run)
    decreases |run|
  {
    run != [] ==>
      && (run[0].Editing? ==> q in run[0].after && run[0].after[q] == node)
      && (run[0].TearingDown? && Trusted(s.manifest) ==>
            forall p <- Owned(s.manifest) ::
              p != q && p != [] && Locate(s.fs, p) == At(q) ==> !Shipped(past, p, node.bytes))
      && Undisturbed(Next(s, run[0]), past + [run[0]], run[1..], q, node)
  }

  /** Bytes no package of the run ships to `q` survive every install and
      teardown of the run. */
  lemma {:induction false} OperatorBytesSurvive(s: Home, past: seq<Step>, run: seq<Step>, q: Path, node: Node)
    requires node.File?
    requires Honest(s, past) && LegalRun(s, run) && Undisturbed(s, past, run, q, node)
    requires q in s.fs && s.fs[q] == node
    requires !Shipped(past + run, q, node.bytes)
    ensures var end := Run(s, run).fs; q in end && end[q] == node
    decreases |run|
  {
    if run != [] {
      var step := run[0];
      assert past + run == past + [step] + run[1..];
      StepIsHonest(s, step, past);
      assert forall i <- past :: i in past + run;
      assert !Shipped(past, q, node.bytes);
      if step.Installing? {
        InstallKeeps(s.fs, s.manifest, step.pkg, step.script, past, q, node);
      } else if step.TearingDown? {
        TeardownKeeps(s.fs, s.manifest, step.order, step.tear, q);
      }
      OperatorBytesSurvive(Next(s, step), past + [step], run[1..], q, node);
    }
  }

  // ---- from a home with no manifest

  lemma {:induction false} RunIsHonest(s: Home, past: seq<Step>, run: seq<Step>)
    requires Honest(s, past) && LegalRun(s, run)
    ensures Honest(Run(s, run), past + run)
    decreases |run|
  {
    if run == [] {
      assert past + run == past;
    } else {
      StepIsHonest(s, run[0], past);
      RunIsHonest(Next(s, run[0]), past + [run[0]], run[1..]);
      assert past + run == past + [run[0]] + run[1..];
    }
  }

  lemma {:induction false} RunSplits(s: Home, before: seq<Step>, after: seq<Step>)
    requires LegalRun(s, before) && LegalRun(Run(s, before), after)
    ensures LegalRun(s, before + after) && Run(s, before + after) == Run(Run(s, before), after)
    decreases |before|
  {
    if before == [] {
      assert before + after == after;
    } else {
      assert (before + after)[1..] == before[1..] + after;
      RunSplits(Next(s, before[0]), before[1..], after);
    }
  }

  ghost predicate EditsSpare(run: seq<Step>, q: Path, node: Node) {
    forall step <- run :: step.Editing? ==> q in step.after && step.after[q] == node
  }

  /** Every teardown of the run finds real directories above what it owns. */
  ghost predicate TeardownsUnlinked(s: Home, run: seq<Step>)
    requires LegalRun(s, run)
    decreases |run|
  {
    run != [] ==>
      && (run[0].TearingDown? && Trusted(s.manifest) ==> forall p <- Owned(s.manifest) :: Unlinked(s.fs, p))
      && TeardownsUnlinked(Next(s, run[0]), run[1..])
  }

  lemma {:induction false} UnlinkedIsUndisturbed(s: Home, past: seq<Step>, run: seq<Step>, q: Path, node: Node)
    requires node.File?
    requires Honest(s, past) && LegalRun(s, run) && EditsSpare(run, q, node) && TeardownsUnlinked(s, run)
    ensures Undisturbed(s, past, run, q, node)
    decreases |run|
  {
    if run != [] {
      StepIsHonest(s, run[0], past);
      if run[0].TearingDown? && Trusted(s.manifest) {
        forall p | p in Owned(s.manifest) && p != q && p != []
          ensures Locate(s.fs, p) != At(q)
        {
          assert ValidEntry(p, Owned(s.manifest)[p]);
          UnlinkedLocate(s.fs, p);
        }
      }
      assert forall step <- run[1..] :: step in run;
      UnlinkedIsUndisturbed(Next(s, run[0]), past + [run[0]], run[1..], q, node);
    }
  }

  lemma {:induction false} UnshippedIsUndisturbed(s: Home, past: seq<Step>, run: seq<Step>, q: Path, node: Node)
    requires node.File?
    requires LegalRun(s, run) && EditsSpare(run, q, node)
    requires forall p :: !Shipped(past + run, p, node.bytes)
    ensures Undisturbed(s, past, run, q, node)
    decreases |run|
  {
    if run != [] {
      assert forall step <- past :: step in past + run;
      assert forall p :: Shipped(past, p, node.bytes) ==> Shipped(past + run, p, node.bytes);
      assert past + run == past + [run[0]] + run[1..];
      assert forall step <- run[1..] :: step in run;
      UnshippedIsUndisturbed(Next(s, run[0]), past + [run[0]], run[1..], q, node);
    }
  }

  /** Whole-run ownership safety. Start with no manifest; after `before` the
      operator's file stands at `q`; then any installs, teardowns, crashes and
      edits elsewhere leave it, provided the run never ships those bytes to `q`
      and either ships them nowhere or never tears down through a link. */
  lemma OwnershipSafety(fs: Tree, before: seq<Step>, after: seq<Step>, q: Path, node: Node)
    requires node.File?
    requires WellFormed(fs)
    requires var s := Home(fs, Absent);
             LegalRun(s, before) && LegalRun(Run(s, before), after)
    requires var mid := Run(Home(fs, Absent), before).fs; q in mid && mid[q] == node
    requires EditsSpare(after, q, node) && !Shipped(before + after, q, node.bytes)
    requires TeardownsUnlinked(Run(Home(fs, Absent), before), after)
             || forall p :: !Shipped(before + after, p, node.bytes)
    ensures LegalRun(Home(fs, Absent), before + after)
    ensures var end := Run(Home(fs, Absent), before + after).fs; q in end && end[q] == node
  {
    var s := Home(fs, Absent);
    RunIsHonest(s, [], before);
    assert [] + before == before;
    var mid := Run(s, before);
    if TeardownsUnlinked(mid, after) {
      UnlinkedIsUndisturbed(mid, before, after, q, node);
    } else {
      UnshippedIsUndisturbed(mid, before, after, q, node);
    }
    OperatorBytesSurvive(mid, before, after, q, node);
    RunSplits(s, before, after);
  }
}
