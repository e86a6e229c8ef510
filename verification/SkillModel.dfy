/** The shapes `factory/cli/skills.py` works on: the shipped package, the
    ownership manifest, and the read-only decisions over a home tree. */
module SkillModel {
  import opened Wrappers
  import opened HomeTree

  /** SHA-256 as an injective constructor: of a file's bytes, or of the
      `path:digest` lines of a whole skill. */
  datatype Digest = OfBytes(bytes: Bytes) | OfLines(lines: seq<(Path, Digest)>)

  datatype Record = Record(path: Path, bytes: Bytes)

  datatype Package = Package(version: Option<string>, records: seq<Record>)

  datatype Entry = FileEntry(digest: Digest) | AliasEntry(digest: Digest, target: string)

  type Entries = map<Path, Entry>

  /** The manifest file: missing, not a trustworthy document, or a document. */
  datatype Manifest =
    | Absent
    | Untrusted
    | Saved(source: Option<string>, package: Option<string>, entries: Entries)

  const CANONICAL: Path := [".agents", "skills"]
  const COMPATIBILITY: Path := [".claude", "skills"]
  const DECLARED: seq<string> :=
    ["floor-status", "escalation-triage", "findings-ingest", "away-mode", "build-metrics", "spec-html"]

  function Dest(r: Record): Path { CANONICAL + r.path }

  function AliasPath(skill: string): Path { COMPATIBILITY + [skill] }

  function AliasTarget(skill: string): string { "../../.agents/skills/" + skill }

  predicate OfSkill(r: Record, skill: string) { r.path != [] && r.path[0] == skill }

  /** What an inventory of a real directory of declared skills gives: clean,
      distinct paths, none a prefix of another, no declared skill a file. */
  ghost predicate ValidPackage(pkg: Package) {
    && (forall r <- pkg.records :: r.path != [] && CleanPath(r.path))
    && (forall r <- pkg.records :: |r.path| == 1 ==> r.path[0] !in DECLARED)
    && (forall i, j | 0 <= i < |pkg.records| && 0 <= j < |pkg.records| && i != j ::
          !(pkg.records[i].path <= pkg.records[j].path))
  }

  // ---- reading the manifest

  /** A path `_validate_manifest` accepts in the role its entry claims. */
  predicate ValidEntry(path: Path, entry: Entry) {
    && CleanPath(path) && (forall c <- path :: '\\' !in c)
    && match entry
       case FileEntry(_) => CANONICAL <= path && |path| >= 4
       case AliasEntry(_, target) => COMPATIBILITY <= path && |path| == 3 && target == AliasTarget(path[2])
  }

  predicate Trusted(m: Manifest) {
    match m
    case Absent => true
    case Untrusted => false
    case Saved(_, _, entries) => forall p <- entries :: ValidEntry(p, entries[p])
  }

  /** The entries `_read_manifest` hands over. */
  function Owned(m: Manifest): Entries
    requires Trusted(m)
  {
    if m.Saved? then m.entries else map[]
  }

  // ---- classifying one path

  datatype State =
    | Missing_
    | UnchangedOwned
    | SafelyUpgradeable
    | ModifiedOwned
    | IdenticalUnowned
    | UnownedConflicting
    | BrokenAlias
    | ParentCollision
    | CanonicalMissing
    | CanonicalCollision
    | Created
    | Upgraded
    | WriteFailed
    | LinkFailed

  function FileDigest(node: Node): Option<Digest>
    requires node.File?
  {
    if node.readable then Some(OfBytes(node.bytes)) else None
  }

  function ClassifyFile(fs: Tree, p: Path, digest: Digest, owned: Entries): State {
    if p !in fs then Missing_
    else if !fs[p].File? then UnownedConflicting
    else
      var current := FileDigest(fs[p]);
      if p in owned && owned[p].FileEntry? then
        if current == Some(digest) then UnchangedOwned
        else if current == Some(owned[p].digest) then SafelyUpgradeable
        else ModifiedOwned
      else if current == Some(digest) then IdenticalUnowned
      else UnownedConflicting
  }

  function PlanFile(fs: Tree, owned: Entries, r: Record): State {
    if !Plain(fs, Dest(r)) then ParentCollision
    else ClassifyFile(fs, Dest(r), OfBytes(r.bytes), owned)
  }

  predicate Safe(s: State) { s in {Missing_, UnchangedOwned, SafelyUpgradeable} }

  /** The lines `_skill_digest` hashes. */
  function SkillLines(records: seq<Record>, skill: string): seq<(Path, Digest)> {
    if records == [] then []
    else
      var rest := SkillLines(records[1..], skill);
      if OfSkill(records[0], skill) then [(records[0].path, OfBytes(records[0].bytes))] + rest else rest
  }

  /** The lines `_current_skill_digest` hashes, or None once a read fails. */
  function CurrentLines(fs: Tree, records: seq<Record>, skill: string): Option<seq<(Path, Digest)>> {
    if records == [] then Some([])
    else
      var rest := CurrentLines(fs, records[1..], skill);
      if !OfSkill(records[0], skill) then rest
      else
        var (ok, bytes) := ReadBytes(fs, Dest(records[0]));
        if !ok || rest.None? then None
        else Some([(records[0].path, OfBytes(bytes))] + rest.value)
  }

  predicate Ships(pkg: Package, skill: string) {
    exists r <- pkg.records :: OfSkill(r, skill)
  }

  predicate CanonicalReady(fs: Tree, owned: Entries, pkg: Package, skill: string) {
    forall r <- pkg.records :: OfSkill(r, skill) ==> Safe(PlanFile(fs, owned, r))
  }

  predicate Upgrading(fs: Tree, owned: Entries, pkg: Package, skill: string) {
    exists r <- pkg.records :: OfSkill(r, skill) && PlanFile(fs, owned, r).SafelyUpgradeable?
  }

  function ClassifyAlias(fs: Tree, owned: Entries, pkg: Package, skill: string): State {
    var p := AliasPath(skill);
    if p !in fs then Missing_
    else if fs[p] != Link(AliasTarget(skill)) then BrokenAlias
    else
      var current := CurrentLines(fs, pkg.records, skill);
      if current.None? then BrokenAlias
      else
        var same := current.value == SkillLines(pkg.records, skill);
        if p in owned && owned[p].AliasEntry? then
          if same then UnchangedOwned
          else if Upgrading(fs, owned, pkg, skill) then SafelyUpgradeable
          else ModifiedOwned
        else if same then IdenticalUnowned
        else UnownedConflicting
  }

  function PlanAlias(fs: Tree, owned: Entries, pkg: Package, skill: string): State {
    if !Ships(pkg, skill) then CanonicalMissing
    else if !CanonicalReady(fs, owned, pkg, skill) then CanonicalCollision
    else if !Plain(fs, AliasPath(skill)) then ParentCollision
    else ClassifyAlias(fs, owned, pkg, skill)
  }

  /** A ready skill whose alias reads back at all has an unchanged or an
      upgradeable canonical copy, so `modified-owned` is never planned for an
      alias. */
  lemma AliasNeverModified(fs: Tree, owned: Entries, pkg: Package, skill: string)
    requires WellFormed(fs) && ValidPackage(pkg)
    ensures PlanAlias(fs, owned, pkg, skill) != ModifiedOwned
  {
    if CanonicalReady(fs, owned, pkg, skill) && !Upgrading(fs, owned, pkg, skill) {
      LinesOfReady(fs, owned, pkg.records, skill);
    }
  }

  lemma {:induction false} LinesOfReady(fs: Tree, owned: Entries, records: seq<Record>, skill: string)
    requires WellFormed(fs)
    requires forall r <- records :: r.path != [] && CleanPath(r.path)
    requires forall r <- records :: OfSkill(r, skill) ==> PlanFile(fs, owned, r) in {Missing_, UnchangedOwned}
    ensures var lines := CurrentLines(fs, records, skill);
            lines.None? || lines == Some(SkillLines(records, skill))
    ensures (forall r <- records :: OfSkill(r, skill) ==> PlanFile(fs, owned, r) == UnchangedOwned)
              ==> CurrentLines(fs, records, skill) == Some(SkillLines(records, skill))
  {
    if records != [] {
      var r := records[0];
      assert r in records;
      assert forall x <- records[1..] :: x in records;
      LinesOfReady(fs, owned, records[1..], skill);
      if OfSkill(r, skill) {
        DestIsClean(r);
        if Dest(r) in fs { PlainRead(fs, Dest(r)); } else { PlainMissing(fs, Dest(r)); }
      }
    }
  }

  lemma DestIsClean(r: Record)
    requires CleanPath(r.path)
    ensures CleanPath(Dest(r)) && Dest(r) != []
  {
    forall c <- Dest(r) ensures CleanName(c) {
      if c in r.path {} else { assert c in CANONICAL; }
    }
  }

  lemma AliasIsClean(skill: string)
    requires skill in DECLARED
    ensures CleanPath(AliasPath(skill)) && AliasPath(skill) != []
  {
  }
}
