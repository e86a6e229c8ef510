/** The registry document and the four commands over it. */
module Registry {
  import opened Wrappers
  import opened Text
  import opened Slugs
  import opened Keyed

  datatype Scopes = Mapping(scopes: map<string, string>) | NotMapping

  /** A record of the document: `Null` is a JSON null, `Malformed` anything else
      that is no mapping, or a mapping without `path`. */
  datatype Record = Entry(path: string, manifest: string, scopes: Scopes) | Null | Malformed

  type Repos = map<string, Record>

  /** The registry file: absent, whitespace, unreadable, or one document. */
  datatype FileState = Missing | Blank | Corrupt | Document(repos: Repos)

  /** The world a command runs in: what `normalize_slug` makes of each path's
      name, the memory backend declared, and the repositories that carry only
      the legacy manifest, that carry one at all, and that exist. */
  datatype World = World(
    slugOf: string -> string, backend: Option<string>,
    legacy: set<string>, managed: set<string>, alive: set<string>)

  datatype Op =
    | Register(slug: string, path: string, scopes: Option<map<string, string>>)
    | Forget(slug: string)
    | Rebuild(seeds: seq<string>)

  datatype Outcome =
    | Registered(changed: bool, moved: set<string>)
    | Forgotten(removed: Option<Record>)
    | Rebuilt(adopted: set<string>, pruned: set<string>, recovered: bool)
    | InvalidSlug
    | SlugCollision
    | RegistryCorrupt
    | NotAManagedRepo
    | Crashed

  predicate Refused(o: Outcome) {
    o in {InvalidSlug, SlugCollision, RegistryCorrupt, NotAManagedRepo, Crashed}
  }

  function DeriveScopes(slug: string, w: World): map<string, string> {
    if w.backend.None? then map[]
    else map["memory_backend" := w.backend.value, "memory_bank" := "ergane-" + slug]
  }

  function RecordFor(path: string, scopes: map<string, string>, w: World): Record {
    Entry(path, path + (if path in w.legacy then "/factory.yaml" else "/ergane.yaml"), Mapping(scopes))
  }

  /** What a registration would write. */
  function RecordGiven(slug: string, path: string, given: Option<map<string, string>>, w: World): Record {
    RecordFor(path, if given.Some? then given.value else DeriveScopes(slug, w), w)
  }

  /** A record of another path whose scopes cannot be read. */
  predicate Unscoped(r: Record, path: string) { r.Entry? && r.path != path && r.scopes.NotMapping? }

  function NameOf(path: string): string {
    var parts := Split(path, '/');
    parts[|parts| - 1]
  }

  ghost predicate Proposes(w: World, decompose: char -> string) {
    forall path :: w.slugOf(path) == NormalizeSlug(NameOf(path), decompose)
  }

  /** `_read_document`. */
  function Read(file: FileState): Option<Repos> {
    match file
    case Missing => Some(map[])
    case Blank => Some(map[])
    case Corrupt => None
    case Document(repos) => Some(repos)
  }

  /** `_entries_of` raises on anything else. */
  predicate Readable(repos: Repos) {
    forall slug <- repos :: repos[slug].Entry? && repos[slug].scopes.Mapping?
  }

  predicate Holds(repos: Repos, slug: string, path: string) {
    slug in repos && repos[slug].Entry? && repos[slug].path == path
  }

  // ---- register

  function WithoutPath(repos: Repos, slug: string, path: string): Repos {
    map s | s in repos && (s == slug || !Holds(repos, s, path)) :: repos[s]
  }

  /** The other slugs that held this path. */
  function Moved(repos: Repos, slug: string, path: string): set<string> {
    set s | s in repos && s != slug && Holds(repos, s, path)
  }

  /** Reading the path of any other record raises. */
  predicate OthersAreEntries(repos: Repos, slug: string) {
    forall s <- repos :: s != slug ==> repos[s].Entry?
  }

  function RegisterStep(file: FileState, slug: string, path: string, given: Option<map<string, string>>,
                        w: World): (FileState, Outcome, bool) {
    if !IsValidSlug(slug) then (file, InvalidSlug, false)
    else if Read(file).None? then (file, RegistryCorrupt, false)
    else
      var repos := Read(file).value;
      var record := RecordGiven(slug, path, given, w);
      if slug in repos && repos[slug].Malformed? then (file, Crashed, false)
      else if slug in repos && repos[slug].Entry? && repos[slug].path != path then (file, SlugCollision, false)
      else if !OthersAreEntries(repos, slug) then (file, Crashed, false)
      else
        var changed := Moved(repos, slug, path) != {} || slug !in repos || repos[slug] != record;
        var after := WithoutPath(repos, slug, path)[slug := record];
        var writes := changed || file.Missing?;
        (if writes then Document(after) else file,
         if Readable(after) then Registered(changed, Moved(repos, slug, path)) else RegistryCorrupt,
         writes)
  }

  // ---- forget

  function ForgetStep(file: FileState, slug: string): (FileState, Outcome, bool) {
    if Read(file).None? then (file, RegistryCorrupt, false)
    else
      var repos := Read(file).value;
      if slug !in repos then (file, Forgotten(None), false)
      else if !Readable(repos) then (file, RegistryCorrupt, false)
      else (Document(repos - {slug}), Forgotten(Some(repos[slug])), true)
  }

  // ---- rebuild, as a specification over sets

  function Paths(repos: Repos): set<string> {
    set slug | slug in repos && repos[slug].Entry? :: repos[slug].path
  }

  type Proposals = map<string, Proposal<string, Record>>

  /** What one seed would be recorded as. */
  function Propose(path: string, w: World): Proposal<string, Record> {
    Proposal(w.slugOf(path), RecordFor(path, DeriveScopes(w.slugOf(path), w), w))
  }

  /** The proposals for the seeds the document does not know. */
  function Unknown(repos: Repos, seeds: seq<string>, w: World): Proposals {
    map s | s in seeds && s !in Paths(repos) :: Propose(s, w)
  }

  predicate Live(repos: Repos, slug: string, w: World) {
    slug in repos && repos[slug].Entry? && repos[slug].path in w.alive
  }

  function Surviving(repos: Repos, w: World): Repos {
    map slug | slug in repos && Live(repos, slug, w) :: repos[slug]
  }

  /** The document with every unknown seed taken in, before pruning. */
  ghost function WithSeeds(repos: Repos, seeds: seq<string>, w: World): Repos
    requires Adoptable(repos, Unknown(repos, seeds, w))
  {
    repos + Adopted(Unknown(repos, seeds, w))
  }

  predicate Broken(file: FileState) { Read(file).None? || !Readable(Read(file).value) }

  function Base(file: FileState): Repos {
    if Broken(file) then map[] else Read(file).value
  }

  ghost function RebuildStep(file: FileState, seeds: seq<string>, w: World): (FileState, Outcome, bool) {
    if exists s <- seeds :: s !in w.managed then (file, NotAManagedRepo, false)
    else if Broken(file) && seeds == [] then (file, RegistryCorrupt, false)
    else
      var repos := Base(file);
      var unknown := Unknown(repos, seeds, w);
      if !Adoptable(repos, unknown) then (file, SlugCollision, false)
      else
        var all := WithSeeds(repos, seeds, w);
        var after := Surviving(all, w);
        var pruned := all.Keys - after.Keys;
        var writes := unknown != map[] || pruned != {} || Broken(file) || file.Missing?;
        (if writes then Document(after) else file,
         Rebuilt(KeysOf(unknown) * after.Keys, pruned, Broken(file)),
         writes)
  }

  ghost function Step(file: FileState, op: Op, w: World): (FileState, Outcome, bool) {
    match op
    case Register(slug, path, scopes) => RegisterStep(file, slug, path, scopes, w)
    case Forget(slug) => ForgetStep(file, slug)
    case Rebuild(seeds) => RebuildStep(file, seeds, w)
  }

  // ---- one-to-one

  /** Every slug valid, every record whole, no path under two slugs. */
  ghost predicate OneToOne(file: FileState) {
    match Read(file)
    case None => false
    case Some(repos) => OneToOneRepos(repos)
  }

  lemma RegisterKeepsOneToOne(file: FileState, slug: string, path: string, scopes: Option<map<string, string>>,
                              w: World)
    requires OneToOne(file)
    ensures OneToOne(RegisterStep(file, slug, path, scopes, w).0)
  {
  }

  /** Where an adopted record comes from. */
  lemma AdoptedEntry(repos: Repos, seeds: seq<string>, w: World, slug: string) returns (path: string)
    requires slug in Adopted(Unknown(repos, seeds, w))
    ensures path in seeds && path !in Paths(repos) && slug == w.slugOf(path)
    ensures Adopted(Unknown(repos, seeds, w))[slug] == RecordFor(path, DeriveScopes(slug, w), w)
  {
    path := SourceOf(Unknown(repos, seeds, w), slug);
  }

  ghost predicate OneToOneRepos(repos: Repos) {
    && Readable(repos)
    && (forall slug | slug in repos :: IsValidSlug(slug))
    && (forall a, b | a in repos && b in repos && repos[a].path == repos[b].path :: a == b)
  }

  /** Whole records under valid slugs of their own paths, none known before. */
  ghost predicate Newcomers(repos: Repos, more: Repos, w: World) {
    forall s | s in more :: IsValidSlug(s) && more[s].Entry? && more[s].scopes.Mapping?
                            && more[s].path !in Paths(repos) && s == w.slugOf(more[s].path)
  }

  lemma AdoptedIsOneToOne(repos: Repos, seeds: seq<string>, w: World, decompose: char -> string, slug: string)
    requires Proposes(w, decompose) && slug in Adopted(Unknown(repos, seeds, w))
    ensures var record := Adopted(Unknown(repos, seeds, w))[slug];
            IsValidSlug(slug) && record.Entry? && record.scopes.Mapping? && record.path !in Paths(repos)
                && slug == w.slugOf(record.path)
  {
    var path := AdoptedEntry(repos, seeds, w, slug);
    ProposalIsValidAndIdempotent(NameOf(path), decompose);
  }

  lemma MergeIsOneToOne(repos: Repos, more: Repos, w: World)
    requires OneToOneRepos(repos)
    requires Newcomers(repos, more, w)
    ensures OneToOneRepos(repos + more)
  {
    assert forall s | s in repos :: repos[s].path in Paths(repos);
  }

  lemma AdoptedAreNewcomers(repos: Repos, seeds: seq<string>, w: World, decompose: char -> string)
    requires Proposes(w, decompose)
    ensures Newcomers(repos, Adopted(Unknown(repos, seeds, w)), w)
  {
    forall s | s in Adopted(Unknown(repos, seeds, w))
      ensures var record := Adopted(Unknown(repos, seeds, w))[s];
              IsValidSlug(s) && record.Entry? && record.scopes.Mapping? && record.path !in Paths(repos)
                  && s == w.slugOf(record.path)
    {
      AdoptedIsOneToOne(repos, seeds, w, decompose, s);
    }
  }

  lemma RefusedRebuild(file: FileState, seeds: seq<string>, w: World)
    ensures !RebuildStep(file, seeds, w).1.Rebuilt?
            ==> RebuildStep(file, seeds, w).0 == file && !RebuildStep(file, seeds, w).2
  {
  }

  lemma RebuildOfNewcomers(file: FileState, seeds: seq<string>, w: World)
    requires OneToOne(file) && Newcomers(Base(file), Adopted(Unknown(Base(file), seeds, w)), w)
    ensures OneToOne(RebuildStep(file, seeds, w).0)
  {
    if RebuildStep(file, seeds, w).1.Rebuilt? {
      RebuiltDocument(file, seeds, w);
      MergeIsOneToOne(Base(file), Adopted(Unknown(Base(file), seeds, w)), w);
      SurvivingIsOneToOne(WithSeeds(Base(file), seeds, w), w);
    } else {
      RefusedRebuild(file, seeds, w);
    }
  }

  lemma RebuildKeepsOneToOne(file: FileState, seeds: seq<string>, w: World, decompose: char -> string)
    requires OneToOne(file) && Proposes(w, decompose)
    ensures OneToOne(RebuildStep(file, seeds, w).0)
  {
    AdoptedAreNewcomers(Base(file), seeds, w, decompose);
    RebuildOfNewcomers(file, seeds, w);
  }

  lemma SurvivingIsOneToOne(all: Repos, w: World)
    requires OneToOneRepos(all)
    ensures OneToOneRepos(Surviving(all, w))
  {
  }

  ghost function Commands(file: FileState, ops: seq<(Op, World)>): FileState
    decreases |ops|
  {
    if ops == [] then file else Commands(Step(file, ops[0].0, ops[0].1).0, ops[1..])
  }

  /** From a blank document, every reachable registry is one-to-one. */
  lemma {:induction false} ReachableIsOneToOne(file: FileState, ops: seq<(Op, World)>, decompose: char -> string)
    requires OneToOne(file) && forall i | 0 <= i < |ops| :: Proposes(ops[i].1, decompose)
    ensures OneToOne(Commands(file, ops))
    decreases |ops|
  {
    if ops != [] {
      var (op, w) := ops[0];
      match op {
        case Register(slug, path, scopes) => RegisterKeepsOneToOne(file, slug, path, scopes, w);
        case Forget(slug) =>
        case Rebuild(seeds) => RebuildKeepsOneToOne(file, seeds, w, decompose);
      }
      ReachableIsOneToOne(Step(file, op, w).0, ops[1..], decompose);
    }
  }

  lemma BlankIsOneToOne()
    ensures OneToOne(Missing) && OneToOne(Blank)
  {
  }

  lemma ReachableFromBlank(file: FileState, ops: seq<(Op, World)>, decompose: char -> string)
    requires file in {Missing, Blank} && forall i | 0 <= i < |ops| :: Proposes(ops[i].1, decompose)
    ensures OneToOne(Commands(file, ops))
  {
    BlankIsOneToOne();
    ReachableIsOneToOne(file, ops, decompose);
  }

  // ---- refusals and repeats

  /** On a one-to-one registry a refusal of any command changes nothing. */
  lemma RefusalChangesNothing(file: FileState, op: Op, w: World)
    requires OneToOne(file) && Refused(Step(file, op, w).1)
    ensures Step(file, op, w).0 == file && !Step(file, op, w).2
  {
    if op.Register? { RegisterKeepsOneToOne(file, op.slug, op.path, op.scopes, w); }
  }

  /** On an arbitrary document it can: `register` replaces the file and only
      then finds another record's scopes unreadable, exactly when nothing stops
      it earlier, there is something to write and such a record stays. */
  lemma RegisterRefusesAfterWriting(file: FileState, slug: string, path: string, scopes: Option<map<string, string>>,
                                    w: World)
    ensures var (_, o, writes) := RegisterStep(file, slug, path, scopes, w);
            Refused(o) && writes
            <==> (IsValidSlug(slug) && Read(file).Some? &&
                  var repos := Read(file).value;
                  && OthersAreEntries(repos, slug)
                  && (slug in repos ==> repos[slug].Null? || Holds(repos, slug, path))
                  && (file.Missing? || Moved(repos, slug, path) != {} || slug !in repos
                      || repos[slug] != RecordGiven(slug, path, scopes, w))
                  && exists s :: s in repos && s != slug && Unscoped(repos[s], path))
  {
    if IsValidSlug(slug) && Read(file).Some? {
      var repos := Read(file).value;
      var record := RecordGiven(slug, path, scopes, w);
      var after := WithoutPath(repos, slug, path)[slug := record];
      if OthersAreEntries(repos, slug) && !Readable(after) {
        var s :| s in after && !(after[s].Entry? && after[s].scopes.Mapping?);
        assert s in repos;
      }
      forall s | s in repos && s != slug && Unscoped(repos[s], path) ensures !Readable(after) {
        assert s in after;
      }
    }
  }

  /** A registration that writes and refuses: another record has no usable scopes. */
  lemma WritesThenRefuses(w: World)
    ensures var file := Document(map["a" := Entry("/a", "/a/ergane.yaml", NotMapping)]);
            var (out, o, writes) := RegisterStep(file, "b", "/b", None, w);
            o.RegistryCorrupt? && writes && out != file
            && Read(out).value.Keys == {"a", "b"}
  {
    var repos := map["a" := Entry("/a", "/a/ergane.yaml", NotMapping)];
    assert IsValidSlug("b");
    assert "a"[0] != "b"[0] && "/a"[1] != "/b"[1];
    var after := WithoutPath(repos, "b", "/b")["b" := RecordFor("/b", DeriveScopes("b", w), w)];
    assert "a" in after && "b" !in repos;
  }

  // ---- forget

  /** Forgetting takes exactly the one record, and writes exactly when there is
      one in a readable document. */
  lemma ForgetsExactly(file: FileState, slug: string, s: string)
    requires Read(file).Some?
    ensures var (out, o, writes) := ForgetStep(file, slug);
            var before := Read(file).value;
            && (writes <==> slug in before && Readable(before)) && (!writes ==> out == file)
            && (Refused(o) <==> slug in before && !Readable(before))
            && (!Refused(o) ==>
                 && o == Forgotten(if slug in before then Some(before[slug]) else None)
                 && Read(out).Some?
                 && (s in Read(out).value <==> s in before && s != slug)
                 && (s in Read(out).value ==> Read(out).value[s] == before[s]))
  {
  }

  /** Forgetting undoes the registration of a new slug that moved no other. */
  lemma ForgetUndoesRegister(file: FileState, slug: string, path: string, scopes: Option<map<string, string>>, w: World)
    requires Read(file).Some? && slug !in Read(file).value && Moved(Read(file).value, slug, path) == {}
    requires RegisterStep(file, slug, path, scopes, w).1.Registered?
    ensures var mid := RegisterStep(file, slug, path, scopes, w).0;
            ForgetStep(mid, slug).1.Forgotten? && Read(ForgetStep(mid, slug).0) == Read(file)
  {
    var repos := Read(file).value;
    var record := RecordGiven(slug, path, scopes, w);
    forall s | s in repos ensures s != slug && !Holds(repos, s, path) {
      assert s !in Moved(repos, slug, path);
    }
    assert WithoutPath(repos, slug, path) == repos;
    assert repos[slug := record] - {slug} == repos;
  }

  /** Registering the same record again writes nothing. */
  lemma ReRegistering(file: FileState, slug: string, path: string, scopes: Option<map<string, string>>, w: World)
    requires RegisterStep(file, slug, path, scopes, w).1.Registered?
    ensures var after := RegisterStep(file, slug, path, scopes, w).0;
            RegisterStep(after, slug, path, scopes, w) == (after, Registered(false, {}), false)
  {
    var (after, _, _) := RegisterStep(file, slug, path, scopes, w);
    var repos := Read(file).value;
    var record := RecordGiven(slug, path, scopes, w);
    var next := WithoutPath(repos, slug, path)[slug := record];
    if !RegisterStep(file, slug, path, scopes, w).2 {
      assert forall s | s in repos && s != slug && Holds(repos, s, path) :: s in Moved(repos, slug, path);
      assert next == repos;
    }
    assert Read(after).value == next;
    assert Moved(next, slug, path) == {};
    assert WithoutPath(next, slug, path)[slug := record] == next;
  }

  // ---- rebuild

  /** Order and repetition of the seeds never matter. */
  lemma SeedsAreASet(file: FileState, a: seq<string>, b: seq<string>, w: World)
    requires forall s :: s in a <==> s in b
    ensures RebuildStep(file, a, w) == RebuildStep(file, b, w)
  {
    assert |a| > 0 ==> a[0] in a;
    assert |b| > 0 ==> b[0] in b;
    if Read(file).Some? { assert Unknown(Read(file).value, a, w) == Unknown(Read(file).value, b, w); }
    assert Unknown(map[], a, w) == Unknown(map[], b, w);
  }

  /** No live record is touched, and nothing but an adopted seed is new. */
  lemma LiveRecordsStand(file: FileState, seeds: seq<string>, w: World, slug: string)
    requires !Broken(file) && RebuildStep(file, seeds, w).1.Rebuilt?
    ensures var repos := Base(file);
            var after := Read(RebuildStep(file, seeds, w).0).value;
            && (slug in repos
                ==> (slug in after <==> Live(repos, slug, w)) && (slug in after ==> after[slug] == repos[slug]))
            && (slug in after && slug !in repos ==>
                && after[slug].Entry? && after[slug].path in seeds && slug == w.slugOf(after[slug].path)
                && after[slug].path in w.alive)
  {
    RebuiltDocument(file, seeds, w);
    var repos := Base(file);
    var unknown := Unknown(repos, seeds, w);
    if slug in Adopted(unknown) {
      var path := AdoptedEntry(repos, seeds, w, slug);
      assert unknown[path].key == slug;
    }
  }

  lemma NothingToDo(repos: Repos, seeds: seq<string>, w: World)
    requires Adoptable(repos, Unknown(repos, seeds, w)) && Unknown(repos, seeds, w) == map[]
    ensures WithSeeds(repos, seeds, w) == repos
  {
    NothingAdopted(repos, Unknown(repos, seeds, w));
  }

  lemma NothingPruned(all: Repos, w: World)
    requires all.Keys - Surviving(all, w).Keys == {}
    ensures Surviving(all, w) == all
  {
    forall k | k in all ensures k in Surviving(all, w) {
      assert k !in all.Keys - Surviving(all, w).Keys;
    }
  }

  /** What a successful rebuild leaves in the document. */
  lemma RebuiltDocument(file: FileState, seeds: seq<string>, w: World)
    requires RebuildStep(file, seeds, w).1.Rebuilt?
    ensures var unknown := Unknown(Base(file), seeds, w);
            var after := RebuildStep(file, seeds, w).0;
            && Adoptable(Base(file), unknown) && !after.Missing?
            && Read(after) == Some(Surviving(WithSeeds(Base(file), seeds, w), w))
            && Readable(Read(after).value) && Surviving(Read(after).value, w) == Read(after).value
  {
    var repos := Base(file);
    var all := WithSeeds(repos, seeds, w);
    var next := Surviving(all, w);
    if !RebuildStep(file, seeds, w).2 {
      NothingToDo(repos, seeds, w);
      NothingPruned(all, w);
    }
    assert Readable(repos) && Readable(all) && Readable(next);
    assert Surviving(next, w) == next;
  }

  /** After it, a seed is known exactly when it is a directory. */
  lemma SeedKnownAfter(repos: Repos, seeds: seq<string>, w: World, s: string)
    requires Readable(repos) && Adoptable(repos, Unknown(repos, seeds, w)) && s in seeds
    ensures s in Paths(Surviving(WithSeeds(repos, seeds, w), w)) <==> s in w.alive
  {
    var unknown := Unknown(repos, seeds, w);
    var fresh_ := Adopted(unknown);
    var all := WithSeeds(repos, seeds, w);
    if s in w.alive {
      if s in unknown {
        var slug := w.slugOf(s);
        assert slug in fresh_ && all[slug] == fresh_[slug] && fresh_[slug].path == s;
        assert slug in Surviving(all, w);
      } else {
        var slug :| slug in repos && repos[slug].Entry? && repos[slug].path == s;
        assert slug !in fresh_ && all[slug] == repos[slug];
        assert slug in Surviving(all, w);
      }
    }
  }

  /** A second run over the same seeds adopts and prunes nothing exactly when
      every seed is a directory. */
  lemma RebuildTwice(file: FileState, seeds: seq<string>, w: World)
    requires RebuildStep(file, seeds, w).1.Rebuilt?
    ensures var after := RebuildStep(file, seeds, w).0;
            RebuildStep(after, seeds, w) == (after, Rebuilt({}, {}, false), false)
            <==> forall s <- seeds :: s in w.alive
  {
    var after := RebuildStep(file, seeds, w).0;
    RebuiltDocument(file, seeds, w);
    forall s | s in seeds ensures s in Paths(Read(after).value) <==> s in w.alive {
      SeedKnownAfter(Base(file), seeds, w, s);
    }
    if forall s <- seeds :: s in w.alive {
      NothingUnknown(after, seeds, w);
    } else {
      var s :| s in seeds && s !in w.alive;
      DeadSeedAgain(after, seeds, w, s);
    }
  }

  lemma NothingUnknown(file: FileState, seeds: seq<string>, w: World)
    requires !file.Missing? && Read(file).Some? && Readable(Read(file).value)
    requires Surviving(Read(file).value, w) == Read(file).value
    requires forall s <- seeds :: s in w.managed && s in Paths(Read(file).value)
    ensures RebuildStep(file, seeds, w) == (file, Rebuilt({}, {}, false), false)
  {
    var repos := Read(file).value;
    var unknown := Unknown(repos, seeds, w);
    assert unknown == map[];
    assert Adoptable(repos, unknown) && KeysOf(unknown) == {};
    NothingAdopted(repos, unknown);
    assert WithSeeds(repos, seeds, w) == repos;
    assert {} * repos.Keys == {} && repos.Keys - repos.Keys == {};
  }

  lemma DeadSeedAgain(file: FileState, seeds: seq<string>, w: World, s: string)
    requires Read(file).Some? && Readable(Read(file).value)
    requires s in seeds && s !in Paths(Read(file).value) && s !in w.alive
    ensures RebuildStep(file, seeds, w) != (file, Rebuilt({}, {}, false), false)
  {
    var repos := Read(file).value;
    var unknown := Unknown(repos, seeds, w);
    assert s in unknown;
  }
}
