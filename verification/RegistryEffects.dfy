/** What a registration and a rebuild answer and leave, in records alone. */
module RegistryEffects {
  import opened Wrappers
  import opened Slugs
  import opened Keyed
  import opened Registry

  /** The file holds these records: an absent or blank one holds none. */
  ghost predicate Recorded(file: FileState, repos: Repos) {
    file == Document(repos) || ((file.Missing? || file.Blank?) && repos == map[])
  }

  /** The record a repository gets. */
  ghost predicate IsRecord(r: Record, slug: string, path: string, given: Option<map<string, string>>, w: World) {
    && r.Entry? && r.path == path && r.scopes.Mapping?
    && r.manifest == path + (if path in w.legacy then "/factory.yaml" else "/ergane.yaml")
    && match given {
         case Some(scopes) => r.scopes.scopes == scopes
         case None =>
           match w.backend
           case None => r.scopes.scopes == map[]
           case Some(backend) =>
             && r.scopes.scopes.Keys == {"memory_backend", "memory_bank"}
             && r.scopes.scopes["memory_backend"] == backend
             && r.scopes.scopes["memory_bank"] == "ergane-" + slug
       }
  }

  ghost predicate HeldElsewhere(repos: Repos, slug: string, path: string) {
    slug in repos && repos[slug].Entry? && repos[slug].path != path
  }

  /** A record whose path cannot be read: the slug's own may be null. */
  ghost predicate Pathless(repos: Repos, slug: string) {
    exists s :: s in repos && !repos[s].Entry? && (s == slug ==> repos[s].Malformed?)
  }

  lemma CorruptRefuses(slug: string, path: string, given: Option<map<string, string>>, w: World)
    ensures RegisterStep(Corrupt, slug, path, given, w)
            == (Corrupt, if IsValidSlug(slug) then RegistryCorrupt else InvalidSlug, false)
  {
  }

  /** Which answer a registration gets. */
  lemma RegisterAnswers(file: FileState, repos: Repos, slug: string, path: string,
                        given: Option<map<string, string>>, w: World)
    requires Recorded(file, repos)
    ensures var (out, o, writes) := RegisterStep(file, slug, path, given, w);
            && (o == InvalidSlug <==> !IsValidSlug(slug))
            && (o == SlugCollision <==> IsValidSlug(slug) && HeldElsewhere(repos, slug, path))
            && (o == Crashed
                <==> IsValidSlug(slug) && !HeldElsewhere(repos, slug, path) && Pathless(repos, slug))
            && (o == RegistryCorrupt
                <==> IsValidSlug(slug) && !HeldElsewhere(repos, slug, path) && !Pathless(repos, slug)
                     && exists s :: s in repos && s != slug && Unscoped(repos[s], path))
            && (o in {InvalidSlug, SlugCollision, Crashed} ==> out == file && !writes)
            && (o.Registered? || o in {InvalidSlug, SlugCollision, Crashed, RegistryCorrupt})
  {
    if IsValidSlug(slug) && !HeldElsewhere(repos, slug, path) && !Pathless(repos, slug) {
      var record := RecordGiven(slug, path, given, w);
      var after := WithoutPath(repos, slug, path)[slug := record];
      if !Readable(after) {
        var s :| s in after && !(after[s].Entry? && after[s].scopes.Mapping?);
        assert s in repos && s != slug && Unscoped(repos[s], path);
      }
      forall s | s in repos && s != slug && Unscoped(repos[s], path) ensures !Readable(after) {
        assert s in after;
      }
    }
  }

  /** What a registration leaves: the slug's record is the repository's, the
      others that held its path are gone and told, and the rest stand. */
  lemma RegistersExactly(file: FileState, repos: Repos, slug: string, path: string,
                         given: Option<map<string, string>>, w: World, s: string)
    requires Recorded(file, repos) && RegisterStep(file, slug, path, given, w).1.Registered?
    ensures var (out, o, writes) := RegisterStep(file, slug, path, given, w);
            && (if writes then out.Document? else out == file)
            && var after := if writes then out.repos else repos;
            && slug in after && IsRecord(after[slug], slug, path, given, w)
            && (s != slug ==>
                  && (s in after <==> s in repos && repos[s].Entry? && repos[s].path != path)
                  && (s in after ==> after[s] == repos[s]))
            && (s in o.moved <==> s != slug && s in repos && repos[s].Entry? && repos[s].path == path)
            && (o.changed <==> after != repos)
            && (writes <==> after != repos || file.Missing?)
  {
    var record := RecordGiven(slug, path, given, w);
    var next := WithoutPath(repos, slug, path)[slug := record];
    if Moved(repos, slug, path) != {} {
      var m :| m in Moved(repos, slug, path);
      assert m in repos && m !in next;
    } else {
      assert forall m | m in repos && m != slug :: m !in Moved(repos, slug, path);
      assert WithoutPath(repos, slug, path) == repos;
      if slug in repos && repos[slug] == record { assert next == repos; }
    }
  }

  // ---- rebuild

  /** A document a rebuild starts over from. */
  ghost predicate Unreadable(file: FileState) {
    file.Corrupt?
    || (file.Document? && exists s :: s in file.repos && !(file.repos[s].Entry? && file.repos[s].scopes.Mapping?))
  }

  /** The records a rebuild starts from. */
  ghost predicate StartsFrom(file: FileState, repos: Repos) {
    if Unreadable(file) then repos == map[] else Recorded(file, repos)
  }

  /** A seed no record has the path of. */
  ghost predicate NewSeed(repos: Repos, seeds: seq<string>, seed: string) {
    seed in seeds && forall s | s in repos :: repos[s].Entry? && repos[s].path != seed
  }

  /** Its slug is taken, by a record or by another new seed. */
  ghost predicate Clashes(repos: Repos, seeds: seq<string>, w: World, seed: string) {
    w.slugOf(seed) in repos
    || exists other :: NewSeed(repos, seeds, other) && other != seed && w.slugOf(other) == w.slugOf(seed)
  }

  lemma Starts(file: FileState, repos: Repos)
    requires StartsFrom(file, repos)
    ensures Broken(file) == Unreadable(file) && Base(file) == repos && Readable(repos)
  {
  }

  lemma NewSeeds(repos: Repos, seeds: seq<string>, w: World, seed: string)
    requires Readable(repos)
    ensures seed in Unknown(repos, seeds, w) <==> NewSeed(repos, seeds, seed)
    ensures seed in Unknown(repos, seeds, w) ==> Unknown(repos, seeds, w)[seed] == Propose(seed, w)
  {
    assert forall s | s in repos :: repos[s].path in Paths(repos);
  }

  lemma ClashesAre(repos: Repos, seeds: seq<string>, w: World)
    requires Readable(repos)
    ensures Adoptable(repos, Unknown(repos, seeds, w))
            <==> forall seed | NewSeed(repos, seeds, seed) :: !Clashes(repos, seeds, w, seed)
  {
    var unknown := Unknown(repos, seeds, w);
    forall seed ensures seed in unknown <==> NewSeed(repos, seeds, seed) {
      NewSeeds(repos, seeds, w, seed);
    }
    forall seed | seed in unknown ensures unknown[seed].key == w.slugOf(seed) {
    }
  }

  /** Which answer a rebuild gets: a refusal leaves the file as it was. */
  lemma RebuildAnswers(file: FileState, repos: Repos, seeds: seq<string>, w: World)
    requires StartsFrom(file, repos)
    ensures var (out, o, writes) := RebuildStep(file, seeds, w);
            var managed := forall s | s in seeds :: s in w.managed;
            var lost := Unreadable(file) && |seeds| == 0;
            var clash := exists seed :: NewSeed(repos, seeds, seed) && Clashes(repos, seeds, w, seed);
            && (o == NotAManagedRepo <==> !managed)
            && (o == RegistryCorrupt <==> managed && lost)
            && (o == SlugCollision <==> managed && !lost && clash)
            && (o.Rebuilt? <==> managed && !lost && !clash)
            && (!o.Rebuilt? ==> out == file && !writes)
            && (o.Rebuilt? ==> (o.recovered <==> Unreadable(file)))
  {
    Starts(file, repos);
    ClashesAre(repos, seeds, w);
  }

  /** A new seed whose slug this is. */
  ghost predicate SeedOf(repos: Repos, seeds: seq<string>, w: World, seed: string, slug: string) {
    NewSeed(repos, seeds, seed) && w.slugOf(seed) == slug
  }

  /** The records before pruning, one slug at a time. */
  lemma BeforePruning(repos: Repos, seeds: seq<string>, w: World, slug: string)
    requires Readable(repos) && Adoptable(repos, Unknown(repos, seeds, w))
    ensures var unknown := Unknown(repos, seeds, w);
            var all := WithSeeds(repos, seeds, w);
            && (slug in repos ==> slug in all && all[slug] == repos[slug] && slug !in KeysOf(unknown))
            && (slug in all <==> slug in repos || slug in KeysOf(unknown))
            && (slug in KeysOf(unknown) <==> exists seed :: SeedOf(repos, seeds, w, seed, slug))
  {
    var unknown := Unknown(repos, seeds, w);
    if slug in KeysOf(unknown) {
      var seed := SourceOf(unknown, slug);
      NewSeeds(repos, seeds, w, seed);
      assert SeedOf(repos, seeds, w, seed, slug);
    }
    forall seed | SeedOf(repos, seeds, w, seed, slug) ensures slug in KeysOf(unknown) {
      SeedBeforePruning(repos, seeds, w, seed, slug);
    }
  }

  lemma SeedBeforePruning(repos: Repos, seeds: seq<string>, w: World, seed: string, slug: string)
    requires Readable(repos) && Adoptable(repos, Unknown(repos, seeds, w)) && SeedOf(repos, seeds, w, seed, slug)
    ensures var all := WithSeeds(repos, seeds, w);
            && slug !in repos && slug in KeysOf(Unknown(repos, seeds, w)) && slug in all
            && all[slug].Entry? && all[slug].path == seed && IsRecord(all[slug], slug, seed, None, w)
  {
    NewSeeds(repos, seeds, w, seed);
    SourceIsOnly(Unknown(repos, seeds, w), seed);
  }

  /** The document a rebuild leaves. */
  ghost function Left(file: FileState, repos: Repos, seeds: seq<string>, w: World): Repos {
    var (out, _, writes) := RebuildStep(file, seeds, w);
    if writes && out.Document? then out.repos else repos
  }

  lemma LeftIsPruned(file: FileState, repos: Repos, seeds: seq<string>, w: World)
    requires StartsFrom(file, repos) && RebuildStep(file, seeds, w).1.Rebuilt?
    ensures Adoptable(repos, Unknown(repos, seeds, w))
    ensures Left(file, repos, seeds, w) == Surviving(WithSeeds(repos, seeds, w), w)
    ensures var (out, o, writes) := RebuildStep(file, seeds, w);
            && (if writes then out.Document? else out == file)
            && o.adopted == KeysOf(Unknown(repos, seeds, w)) * Left(file, repos, seeds, w).Keys
            && o.pruned == WithSeeds(repos, seeds, w).Keys - Left(file, repos, seeds, w).Keys
  {
    Starts(file, repos);
    RebuiltDocument(file, seeds, w);
  }

  /** What a rebuild does to a record it started from: it stands exactly while
      its path is a directory, and is told dropped when not. */
  lemma RebuildKeeps(file: FileState, repos: Repos, seeds: seq<string>, w: World, slug: string)
    requires StartsFrom(file, repos) && RebuildStep(file, seeds, w).1.Rebuilt? && slug in repos
    ensures var after := Left(file, repos, seeds, w);
            var o := RebuildStep(file, seeds, w).1;
            && repos[slug].Entry?
            && (slug in after <==> repos[slug].path in w.alive) && (slug in after ==> after[slug] == repos[slug])
            && slug !in o.adopted && (slug in o.pruned <==> repos[slug].path !in w.alive)
  {
    Starts(file, repos);
    LeftIsPruned(file, repos, seeds, w);
    BeforePruning(repos, seeds, w, slug);
  }

  /** What it does with a seed no record knew: the seed is recorded under its
      proposed slug and told adopted when it is a directory, else told dropped. */
  lemma RebuildAdopts(file: FileState, repos: Repos, seeds: seq<string>, w: World, seed: string)
    requires StartsFrom(file, repos) && RebuildStep(file, seeds, w).1.Rebuilt? && NewSeed(repos, seeds, seed)
    ensures var after := Left(file, repos, seeds, w);
            var o := RebuildStep(file, seeds, w).1;
            var slug := w.slugOf(seed);
            && slug !in repos && (slug in after <==> seed in w.alive)
            && (slug in after ==> IsRecord(after[slug], slug, seed, None, w))
            && (slug in o.adopted <==> seed in w.alive) && (slug in o.pruned <==> seed !in w.alive)
  {
    Starts(file, repos);
    LeftIsPruned(file, repos, seeds, w);
    SeedBeforePruning(repos, seeds, w, seed, w.slugOf(seed));
  }

  /** And nothing else is left or told of. */
  lemma RebuildOnly(file: FileState, repos: Repos, seeds: seq<string>, w: World, slug: string)
    requires StartsFrom(file, repos) && RebuildStep(file, seeds, w).1.Rebuilt?
    requires slug !in repos && forall seed | NewSeed(repos, seeds, seed) :: w.slugOf(seed) != slug
    ensures var o := RebuildStep(file, seeds, w).1;
            slug !in Left(file, repos, seeds, w) && slug !in o.adopted && slug !in o.pruned
  {
    Starts(file, repos);
    LeftIsPruned(file, repos, seeds, w);
    BeforePruning(repos, seeds, w, slug);
  }

  /** When it writes. */
  lemma RebuildWrites(file: FileState, repos: Repos, seeds: seq<string>, w: World)
    requires StartsFrom(file, repos) && RebuildStep(file, seeds, w).1.Rebuilt?
    ensures RebuildStep(file, seeds, w).2
            <==> (file.Missing? || Unreadable(file) || (exists seed :: NewSeed(repos, seeds, seed))
                  || exists s :: s in repos && repos[s].path !in w.alive)
  {
    Starts(file, repos);
    var unknown := Unknown(repos, seeds, w);
    var all := WithSeeds(repos, seeds, w);
    forall seed ensures seed in unknown <==> NewSeed(repos, seeds, seed) {
      NewSeeds(repos, seeds, w, seed);
    }
    if unknown == map[] {
      NothingToDo(repos, seeds, w);
      var pruned := all.Keys - Surviving(all, w).Keys;
      forall s | s in repos && repos[s].path !in w.alive ensures pruned != {} {
        assert s in pruned;
      }
      if pruned != {} {
        var s :| s in pruned;
        assert s in repos && repos[s].path !in w.alive;
      }
    } else {
      var seed :| seed in unknown;
    }
  }
}
