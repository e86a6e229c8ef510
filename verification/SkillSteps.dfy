/** What one install and one teardown do to a home tree and its manifest,
    including every point at which they can fail or be killed. */
module SkillSteps {
  import opened Wrappers
  import opened HomeTree
  import opened SkillModel

  datatype Payload = Bare | FileOf(record: Record) | AliasOf(digest: Digest, target: string)

  datatype Action = Action(path: Path, state: State, payload: Payload)

  function FileAction(fs: Tree, owned: Entries, r: Record): Action {
    var state := PlanFile(fs, owned, r);
    Action(Dest(r), state, if state.ParentCollision? then Bare else FileOf(r))
  }

  function AliasAction(fs: Tree, owned: Entries, pkg: Package, skill: string): Action {
    var state := PlanAlias(fs, owned, pkg, skill);
    Action(AliasPath(skill), state,
           if state in {CanonicalMissing, CanonicalCollision, ParentCollision} then Bare
           else AliasOf(OfLines(SkillLines(pkg.records, skill)), AliasTarget(skill)))
  }

  /** The plan: every file against the tree as found, then every alias. */
  function Plan(fs: Tree, owned: Entries, pkg: Package): (actions: seq<Action>)
    ensures |actions| == |pkg.records| + |DECLARED|
    ensures forall i | 0 <= i < |pkg.records| :: actions[i] == FileAction(fs, owned, pkg.records[i])
    ensures forall i | 0 <= i < |DECLARED| :: actions[|pkg.records| + i] == AliasAction(fs, owned, pkg, DECLARED[i])
  {
    seq(|pkg.records|, i requires 0 <= i < |pkg.records| => FileAction(fs, owned, pkg.records[i]))
    + seq(|DECLARED|, i requires 0 <= i < |DECLARED| => AliasAction(fs, owned, pkg, DECLARED[i]))
  }

  predicate Places(a: Action) {
    match a.payload
    case Bare => false
    case FileOf(_) => a.state in {Missing_, SafelyUpgradeable}
    case AliasOf(_, _) => a.state.Missing_?
  }

  function NodeOf(a: Action): (n: Node)
    requires Places(a)
    ensures !n.Dir?
  {
    match a.payload
    case FileOf(r) => File(r.bytes, true)
    case AliasOf(_, target) => Link(target)
  }

  /** How one run is interrupted: action `i in faults` fails after making up
      to `faults[i]` parents; the run is killed after `stop` actions. */
  datatype Script = Script(faults: map<nat, nat>, stop: Option<nat>, manifestFails: bool)

  const CLEAN := Script(map[], None, false)

  function Min(a: nat, b: nat): nat { if a < b then a else b }

  function ApplyOne(fs: Tree, a: Action, fault: Option<nat>): (Tree, State) {
    if !Places(a) then
      (fs, if a.state.SafelyUpgradeable? then Upgraded else a.state)
    else if fault.None? && CanPlace(fs, a.path) then
      (Place(fs, a.path, NodeOf(a)), if a.state.SafelyUpgradeable? then Upgraded else Created)
    else
      (if fault.Some? && a.path != [] && Plain(fs, a.path)
       then MakeParents(fs, a.path, Min(fault.value, |a.path| - 1)) else fs,
       if a.payload.FileOf? then WriteFailed else LinkFailed)
  }

  function FaultAt(script: Script, i: nat): Option<nat> {
    if i in script.faults then Some(script.faults[i]) else None
  }

  /** The tree and the final states after the first `n` actions. */
  function ApplyN(fs: Tree, actions: seq<Action>, script: Script, n: nat): (r: (Tree, seq<State>))
    requires n <= |actions|
    ensures |r.1| == n
  {
    if n == 0 then (fs, [])
    else
      var (mid, states) := ApplyN(fs, actions, script, n - 1);
      var (out, state) := ApplyOne(mid, actions[n - 1], FaultAt(script, n - 1));
      (out, states + [state])
  }

  predicate Records(s: State) { s in {Created, UnchangedOwned, Upgraded} }

  /** The manifest entries after the first `n` final states. */
  function FreshN(owned: Entries, actions: seq<Action>, states: seq<State>, n: nat): Entries
    requires n <= |actions| == |states|
  {
    if n == 0 then owned
    else
      var before := FreshN(owned, actions, states, n - 1);
      var a := actions[n - 1];
      if !Records(states[n - 1]) then before
      else match a.payload
        case Bare => before
        case FileOf(r) => before[a.path := FileEntry(OfBytes(r.bytes))]
        case AliasOf(digest, target) => before[a.path := AliasEntry(digest, target)]
  }

  predicate Changed(states: seq<State>) { Created in states || Upgraded in states }

  /** Nothing was created or upgraded and the manifest already says all this. */
  predicate UpToDate(states: seq<State>, m: Manifest, version: Option<string>, renewed: Entries) {
    !Changed(states) && m == Saved(version, version, renewed)
  }

  function InstallStep(fs: Tree, m: Manifest, pkg: Package, script: Script): (Tree, Manifest) {
    if !Trusted(m) then (fs, m)
    else
      var owned := Owned(m);
      var actions := Plan(fs, owned, pkg);
      if script.stop.Some? then
        (ApplyN(fs, actions, script, Min(script.stop.value, |actions|)).0, m)
      else
        var (out, states) := ApplyN(fs, actions, script, |actions|);
        var renewed := FreshN(owned, actions, states, |actions|);
        (out,
         if UpToDate(states, m, pkg.version, renewed) || script.manifestFails then m
         else Saved(pkg.version, pkg.version, renewed))
  }

  // ---- teardown

  datatype Verdict = AlreadyAbsent | Mismatched | Matching(at: Path) | Raised

  function Judge(fs: Tree, p: Path, entry: Entry): Verdict
    requires p != []
  {
    match Locate(fs, p)
    case Missing => AlreadyAbsent
    case Blocked => Raised
    case At(q) =>
      if q !in fs then AlreadyAbsent
      else match entry
        case FileEntry(digest) =>
          if fs[q].File? && FileDigest(fs[q]) == Some(digest) then Matching(q) else Mismatched
        case AliasEntry(_, target) =>
          if fs[q] == Link(target) then Matching(q) else Mismatched
  }

  /** Progress of the removal loop; `raised` once an lstat failed. */
  datatype Progress = Progress(fs: Tree, removed: seq<Path>, preserved: seq<Path>, absent: seq<Path>, raised: bool)

  function TearOne(pr: Progress, p: Path, entry: Entry): Progress
    requires p != []
  {
    if pr.raised then pr
    else match Judge(pr.fs, p, entry)
      case AlreadyAbsent => pr.(absent := pr.absent + [p])
      case Mismatched => pr.(preserved := pr.preserved + [p])
      case Matching(q) => pr.(fs := pr.fs - {q}, removed := pr.removed + [p])
      case Raised => pr.(raised := true)
  }

  function TearN(fs: Tree, owned: Entries, order: seq<Path>, n: nat): Progress
    requires n <= |order| && forall p <- order :: p in owned && p != []
  {
    if n == 0 then Progress(fs, [], [], [], false)
    else TearOne(TearN(fs, owned, order, n - 1), order[n - 1], owned[order[n - 1]])
  }

  ghost predicate Distinct(order: seq<Path>) {
    forall i, j | 0 <= i < j < |order| :: order[i] != order[j]
  }

  /** `sorted(entries)`: each entry once, canonical paths before aliases. */
  ghost predicate Enumerates(order: seq<Path>, owned: Entries) {
    && Distinct(order)
    && (forall p <- order :: p in owned)
    && (forall p <- owned :: p in order)
    && (forall i, j | 0 <= i < j < |order| :: owned[order[i]].AliasEntry? ==> owned[order[j]].AliasEntry?)
  }

  function Restrict(owned: Entries, keep: seq<Path>): Entries {
    map p | p in owned && p in keep :: owned[p]
  }

  /** `stop` is a kill, or an unlink that failed, after that many entries;
      `prune` lists the directories it then tries to remove. */
  datatype TearScript = TearScript(stop: Option<nat>, manifestFails: bool, prune: seq<Path>)

  function TeardownStep(fs: Tree, m: Manifest, order: seq<Path>, script: TearScript): (Tree, Manifest)
    requires Trusted(m) ==> forall p <- order :: p in Owned(m) && p != []
  {
    if !Trusted(m) || Owned(m) == map[] then (fs, m)
    else
      var n := if script.stop.Some? then Min(script.stop.value, |order|) else |order|;
      var pr := TearN(fs, Owned(m), order, n);
      if script.stop.Some? || pr.raised || script.manifestFails then (pr.fs, m)
      else
        var kept := Restrict(Owned(m), pr.preserved);
        (RemoveEmptyDirs(pr.fs, script.prune),
         if kept == map[] then Absent else Saved(m.source, m.package, kept))
  }
}
