/** The mutating commands as they run: loops over the document's records,
    proved to meet the set-level steps. */
module RegistryFiles {
  import opened Wrappers
  import opened Keyed
  import opened Registry

  class RegistryFile {
    var file: FileState

    constructor (file: FileState)
      ensures this.file == file
    {
      this.file := file;
    }

    /** `register`: drop the path's other slugs one by one, then record it. */
    method Register(slug: string, path: string, scopes: Option<map<string, string>>, w: World) returns (o: Outcome)
      modifies this
      ensures (file, o)
              == (RegisterStep(old(file), slug, path, scopes, w).0, RegisterStep(old(file), slug, path, scopes, w).1)
    {
      if !Registry.Slugs.IsValidSlug(slug) { return InvalidSlug; }
      var record := RecordGiven(slug, path, scopes, w);
      if Read(file).None? { return RegistryCorrupt; }
      var repos := Read(file).value;
      if slug in repos && !repos[slug].Null? {
        if repos[slug].Malformed? { return Crashed; }
        if repos[slug].path != path { return SlugCollision; }
      }
      var after := repos;
      var moved: set<string> := {};
      var todo := repos.Keys;
      while todo != {}
        invariant todo <= repos.Keys
        invariant moved == set s | s in Moved(repos, slug, path) && s !in todo
        invariant after == map s | s in repos && s !in moved :: repos[s]
        invariant forall s | s in repos && s !in todo && s != slug :: repos[s].Entry?
      {
        var other :| other in todo;
        todo := todo - {other};
        if other != slug {
          if !repos[other].Entry? { return Crashed; }
          if repos[other].path == path {
            moved := moved + {other};
            after := after - {other};
          }
        }
      }
      assert moved == Moved(repos, slug, path);
      assert after == WithoutPath(repos, slug, path);
      var changed := moved != {} || slug !in after || after[slug] != record;
      after := after[slug := record];
      if changed || file.Missing? { file := Document(after); }
      if !Readable(after) { return RegistryCorrupt; }
      return Registered(changed, moved);
    }

    /** `forget`: the one record goes and is returned; the rest stays. */
    method Forget(slug: string) returns (o: Outcome)
      modifies this
      ensures (file, o) == (ForgetStep(old(file), slug).0, ForgetStep(old(file), slug).1)
      ensures o.Forgotten? || o.RegistryCorrupt?
      ensures !(o.Forgotten? && o.removed.Some?) ==> file == old(file)
      ensures o.Forgotten? ==>
                var before, after := Read(old(file)).value, Read(file).value;
                && slug !in after && (forall s | s != slug :: s in after <==> s in before)
                && (forall s | s in after :: after[s] == before[s])
                && o.removed == if slug in before then Some(before[slug]) else None
    {
      if Read(file).None? { return RegistryCorrupt; }
      var repos := Read(file).value;
      if slug !in repos { return Forgotten(None); }
      if !Readable(repos) { return RegistryCorrupt; }
      file := Document(repos - {slug});
      return Forgotten(Some(repos[slug]));
    }

    /** `rebuild`: adopt seed by seed against the growing document, then prune. */
    method Rebuild(seeds: seq<string>, w: World) returns (o: Outcome)
      modifies this
      ensures (file, o) == (RebuildStep(old(file), seeds, w).0, RebuildStep(old(file), seeds, w).1)
    {
      for i := 0 to |seeds|
        invariant forall k | 0 <= k < i :: seeds[k] in w.managed
      {
        if seeds[i] !in w.managed { return NotAManagedRepo; }
      }
      var recovered := Broken(file);
      if recovered && seeds == [] { return RegistryCorrupt; }
      var repos := Base(file);
      var ok, all, adopted := AdoptSeeds(repos, seeds, w);
      if !ok { return SlugCollision; }
      var after, pruned := PruneDead(all, w);
      var writes := adopted != {} || pruned != {} || recovered || file.Missing?;
      assert adopted == {} <==> Unknown(repos, seeds, w) == map[] by {
        forall a | a in Unknown(repos, seeds, w) ensures Unknown(repos, seeds, w)[a].key in adopted {}
      }
      if writes { file := Document(after); }
      return Rebuilt(adopted * after.Keys, pruned, recovered);
    }
  }

  /** The adoption loop's state once the proposals `taken` are in. */
  ghost predicate Taken(repos: Repos, taken: Proposals, all: Repos, adopted: set<string>, known: set<string>) {
    && Adoptable(repos, taken) && all == repos + Adopted(taken)
    && adopted == KeysOf(taken) && known == Paths(repos) + taken.Keys
  }

  ghost predicate Taking(repos: Repos, seeds: seq<string>, w: World, n: nat, all: Repos, adopted: set<string>,
                         known: set<string>)
    requires n <= |seeds|
  {
    Taken(repos, Unknown(repos, seeds[..n], w), all, adopted, known)
  }

  lemma TakeInto(repos: Repos, taken: Proposals, all: Repos, adopted: set<string>, known: set<string>, s: string,
                 p: Proposal<string, Record>)
    requires Taken(repos, taken, all, adopted, known) && s !in known && p.key !in all
    ensures Taken(repos, taken[s := p], all[p.key := p.value], adopted + {p.key}, known + {s})
  {
    TakeIn(repos, taken, s, p);
    assert taken[s := p].Keys == taken.Keys + {s};
  }

  lemma OneMoreSeed(repos: Repos, seeds: seq<string>, w: World, n: nat)
    requires n < |seeds|
    ensures var before, after := Unknown(repos, seeds[..n], w), Unknown(repos, seeds[..n + 1], w);
            && (seeds[n] in Paths(repos) || seeds[n] in before ==> after == before)
            && (seeds[n] !in Paths(repos) && seeds[n] !in before ==> after == before[seeds[n] := Propose(seeds[n], w)])
  {
    assert seeds[..n + 1] == seeds[..n] + [seeds[n]];
  }

  lemma TakeStart(repos: Repos, seeds: seq<string>, w: World)
    ensures Taking(repos, seeds, w, 0, repos, {}, Paths(repos))
  {
    assert Unknown(repos, seeds[..0], w) == map[];
    NothingAdopted(repos, Unknown(repos, seeds[..0], w));
  }

  lemma TakeKnown(repos: Repos, seeds: seq<string>, w: World, n: nat, all: Repos, adopted: set<string>,
                  known: set<string>)
    requires n < |seeds| && Taking(repos, seeds, w, n, all, adopted, known) && seeds[n] in known
    ensures Taking(repos, seeds, w, n + 1, all, adopted, known)
  {
    OneMoreSeed(repos, seeds, w, n);
  }

  lemma TakeNew(repos: Repos, seeds: seq<string>, w: World, n: nat, all: Repos, adopted: set<string>,
                known: set<string>, p: Proposal<string, Record>)
    requires n < |seeds| && Taking(repos, seeds, w, n, all, adopted, known)
    requires seeds[n] !in known && p == Propose(seeds[n], w) && p.key !in all
    ensures Taking(repos, seeds, w, n + 1, all[p.key := p.value], adopted + {p.key}, known + {seeds[n]})
  {
    TakeInto(repos, Unknown(repos, seeds[..n], w), all, adopted, known, seeds[n], p);
    OneMoreSeed(repos, seeds, w, n);
  }

  lemma TakeFails(repos: Repos, seeds: seq<string>, w: World, n: nat, all: Repos, adopted: set<string>,
                  known: set<string>)
    requires n < |seeds| && Taking(repos, seeds, w, n, all, adopted, known)
    requires seeds[n] !in known && w.slugOf(seeds[n]) in all
    ensures !Adoptable(repos, Unknown(repos, seeds, w))
  {
    NotAdoptable(repos, Unknown(repos, seeds[..n], w), seeds[n], Unknown(repos, seeds, w));
  }

  /** The adoption loop: success exactly when the set of unknown seeds is
      adoptable, and then the document is the set-level one. */
  method AdoptSeeds(repos: Repos, seeds: seq<string>, w: World) returns (ok: bool, all: Repos, adopted: set<string>)
    ensures ok <==> Adoptable(repos, Unknown(repos, seeds, w))
    ensures ok ==> all == WithSeeds(repos, seeds, w) && adopted == KeysOf(Unknown(repos, seeds, w))
  {
    all, adopted := repos, {};
    var known := Paths(repos);
    TakeStart(repos, seeds, w);
    for i := 0 to |seeds|
      invariant Taking(repos, seeds, w, i, all, adopted, known)
    {
      var seed := seeds[i];
      if seed in known {
        TakeKnown(repos, seeds, w, i, all, adopted, known);
      } else {
        var slug := w.slugOf(seed);
        if slug in all {
          TakeFails(repos, seeds, w, i, all, adopted, known);
          return false, all, adopted;
        }
        TakeNew(repos, seeds, w, i, all, adopted, known, Propose(seed, w));
        all := all[slug := RecordFor(seed, DeriveScopes(slug, w), w)];
        known := known + {seed};
        adopted := adopted + {slug};
      }
    }
    assert seeds[..|seeds|] == seeds;
    ok := true;
  }

  method PruneDead(all: Repos, w: World) returns (after: Repos, pruned: set<string>)
    requires Readable(all)
    ensures after == Surviving(all, w) && pruned == all.Keys - after.Keys
  {
    pruned := {};
    var todo := all.Keys;
    while todo != {}
      invariant todo <= all.Keys
      invariant pruned == set s | s in all && s !in todo && !Live(all, s, w)
    {
      var slug :| slug in todo;
      todo := todo - {slug};
      if all[slug].path !in w.alive { pruned := pruned + {slug}; }
    }
    after := all - pruned;
    assert after == Surviving(all, w);
  }
}
