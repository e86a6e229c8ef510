/** What a teardown removes, exactly. */
module SkillTeardowns {
  import opened Wrappers
  import opened HomeTree
  import opened SkillModel
  import opened SkillSteps
  import opened SkillRuns

  // ---- links and all: the exact removal condition

  /** Before the first alias the loop only takes files away, so a path leads
      where it led at the start. */
  lemma {:induction false} FilePhase(fs: Tree, owned: Entries, order: seq<Path>, n: nat, p: Path)
    requires WellFormed(fs) && n <= |order| && Covers(owned, order) && p != []
    requires forall i | 0 <= i < n :: owned[order[i]].FileEntry?
    requires Locate(fs, p).At?
    ensures Locate(TearN(fs, owned, order, n).fs, p) == Locate(fs, p)
  {
    if n > 0 {
      FilePhase(fs, owned, order, n - 1, p);
      var pr := TearN(fs, owned, order, n - 1);
      var v := Judge(pr.fs, order[n - 1], owned[order[n - 1]]);
      if !pr.raised && v.Matching? { LocateAfterFileRemoval(pr.fs, v.at, p); }
    }
  }

  lemma {:induction false} GoneStaysGone(fs: Tree, owned: Entries, order: seq<Path>, n: nat, k: nat)
    requires n <= k <= |order| && Covers(owned, order)
    ensures TearN(fs, owned, order, k).fs.Keys <= TearN(fs, owned, order, n).fs.Keys
    ensures TearN(fs, owned, order, n).raised ==> TearN(fs, owned, order, k).raised
    decreases k
  {
    if n < k { GoneStaysGone(fs, owned, order, n, k - 1); }
  }

  /** One turn takes a file exactly when the turn's path led to it at the start:
      before the first alias every path still leads where it did. */
  lemma {:induction false} TurnTakes(fs: Tree, owned: Entries, order: seq<Path>, i: nat, q: Path)
    requires WellFormed(fs) && Covers(owned, order) && Enumerates(order, owned) && i < |order|
    requires q in fs && fs[q].File? && q in TearN(fs, owned, order, i).fs
    ensures Judge(TearN(fs, owned, order, i).fs, order[i], owned[order[i]]) == Matching(q)
            <==> Claims(fs, owned, order[i], q)
  {
    var p := order[i];
    assert p in order;
    TearShrinks(fs, owned, order, i);
    TearLocates(fs, owned, order, i, p);
    if Claims(fs, owned, p, q) { FilePhase(fs, owned, order, i, p); }
  }

  /** The loop gets to turn `i`, and its path led to `q` at the start with a
      matching record. */
  ghost predicate TakenAt(fs: Tree, owned: Entries, order: seq<Path>, i: nat, q: Path)
    requires i < |order| && Covers(owned, order)
  {
    !TearN(fs, owned, order, i).raised && Claims(fs, owned, order[i], q)
  }

  /** After any number of turns a file is gone exactly when one of them, not yet
      stopped by a failed lstat, was for a recorded path that led to it, through
      links or not, and whose record matched it. */
  lemma {:induction false} GoneExactly(fs: Tree, owned: Entries, order: seq<Path>, n: nat, q: Path)
    requires WellFormed(fs) && Covers(owned, order) && Enumerates(order, owned) && n <= |order|
    requires q in fs && fs[q].File?
    ensures q !in TearN(fs, owned, order, n).fs <==> exists i :: 0 <= i < n && TakenAt(fs, owned, order, i, q)
  {
    if q !in TearN(fs, owned, order, n).fs { var i := GoneWhy(fs, owned, order, n, q); }
    forall i | 0 <= i < n && TakenAt(fs, owned, order, i, q) ensures q !in TearN(fs, owned, order, n).fs {
      GoneAfterTurn(fs, owned, order, i, q);
      GoneStaysGone(fs, owned, order, i + 1, n);
    }
  }

  lemma {:induction false} GoneWhy(fs: Tree, owned: Entries, order: seq<Path>, n: nat, q: Path) returns (i: nat)
    requires WellFormed(fs) && Covers(owned, order) && Enumerates(order, owned) && n <= |order|
    requires q in fs && fs[q].File? && q !in TearN(fs, owned, order, n).fs
    ensures i < n && TakenAt(fs, owned, order, i, q)
  {
    var here := TakenAt(fs, owned, order, n - 1, q);
    GoneAfterTurn(fs, owned, order, n - 1, q);
    if here {
      i := n - 1;
    } else {
      i := GoneWhy(fs, owned, order, n - 1, q);
    }
  }

  lemma {:induction false} GoneAfterTurn(fs: Tree, owned: Entries, order: seq<Path>, i: nat, q: Path)
    requires WellFormed(fs) && Covers(owned, order) && Enumerates(order, owned) && i < |order|
    requires q in fs && fs[q].File?
    ensures q !in TearN(fs, owned, order, i + 1).fs
            <==> q !in TearN(fs, owned, order, i).fs || TakenAt(fs, owned, order, i, q)
  {
    var pr := TearN(fs, owned, order, i);
    assert order[i] in order;
    OneTurn(pr, order[i], owned[order[i]], q);
    if q in pr.fs { TurnTakes(fs, owned, order, i, q); }
  }

  lemma OneTurn(pr: Progress, p: Path, entry: Entry, q: Path)
    requires p != []
    ensures q !in TearOne(pr, p, entry).fs
            <==> q !in pr.fs || (!pr.raised && Judge(pr.fs, p, entry) == Matching(q))
  {
  }

  /** An uninterrupted teardown takes a file away exactly when some recorded
      path leads to it, through links or not, and its record matches. */
  lemma {:induction false} RemovesExactly(fs: Tree, owned: Entries, order: seq<Path>, q: Path)
    requires WellFormed(fs) && Covers(owned, order) && Enumerates(order, owned)
    requires !TearN(fs, owned, order, |order|).raised
    requires q in fs && fs[q].File?
    ensures q !in TearN(fs, owned, order, |order|).fs <==> exists p :: Claims(fs, owned, p, q)
  {
    GoneExactly(fs, owned, order, |order|, q);
    forall p | Claims(fs, owned, p, q)
      ensures exists i :: 0 <= i < |order| && TakenAt(fs, owned, order, i, q)
    {
      var i :| 0 <= i < |order| && order[i] == p;
      GoneStaysGone(fs, owned, order, i, |order|);
      assert TakenAt(fs, owned, order, i, q);
    }
  }

  // ---- what a whole teardown leaves

  /** What an uninterrupted teardown leaves behind. */
  lemma {:induction false} FullTeardown(fs: Tree, m: Manifest, order: seq<Path>, prune: seq<Path>)
    requires WellFormed(fs) && Trusted(m) && Owned(m) != map[] && Covers(Owned(m), order)
    requires !TearN(fs, Owned(m), order, |order|).raised
    ensures var (out, m') := TeardownStep(fs, m, order, TearScript(None, false, prune));
            && out == RemoveEmptyDirs(TearN(fs, Owned(m), order, |order|).fs, prune)
            && Trusted(m') && Owned(m') == Restrict(Owned(m), TearN(fs, Owned(m), order, |order|).preserved)
  {
    var preserved := TearN(fs, Owned(m), order, |order|).preserved;
    RestrictTrusted(m, preserved);
  }

  lemma RestrictTrusted(m: Manifest, keep: seq<Path>)
    requires Trusted(m) && m.Saved?
    ensures Trusted(Saved(m.source, m.package, Restrict(Owned(m), keep)))
  {
  }

  // ---- a second teardown

  lemma {:induction false} NothingMatches(fs: Tree, owned: Entries, order: seq<Path>, n: nat)
    requires n <= |order| && Covers(owned, order)
    requires forall p | p in owned && p != [] :: !Judge(fs, p, owned[p]).Matching?
    ensures var pr := TearN(fs, owned, order, n); pr.fs == fs && pr.removed == []
  {
    if n > 0 {
      NothingMatches(fs, owned, order, n - 1);
      assert order[n - 1] in order;
    }
  }

  /** An entry the loop kept never comes to match again. */
  lemma {:induction false} KeptNeverMatches(fs: Tree, owned: Entries, order: seq<Path>, n: nat, p: Path)
    requires WellFormed(fs) && n <= |order| && Covers(owned, order)
    requires p in TearN(fs, owned, order, n).preserved
    ensures p in owned && p != [] && !Judge(TearN(fs, owned, order, n).fs, p, owned[p]).Matching?
  {
    assert order[n - 1] in order;
    var pr := TearN(fs, owned, order, n - 1);
    if p in pr.preserved {
      KeptNeverMatches(fs, owned, order, n - 1, p);
      TearShrinks(fs, owned, order, n - 1);
      var v := Judge(pr.fs, order[n - 1], owned[order[n - 1]]);
      if !pr.raised && v.Matching? {
        NonDirIsChildless(pr.fs, v.at);
        LocateAfterRemoval(pr.fs, v.at, p);
      }
    }
  }

  /** Whatever links the home holds, tearing down again removes no file and no
      link: it lists nothing as removed, and its pruning takes empty directories
      at most. */
  lemma {:induction false} SecondTeardownRemovesNothing(fs: Tree, m: Manifest, order: seq<Path>, prune: seq<Path>,
                                                       again: seq<Path>, tear: TearScript)
    requires WellFormed(fs) && Trusted(m) && Covers(Owned(m), order)
    requires !TearN(fs, Owned(m), order, |order|).raised
    requires Owned(m) != map[]
    requires var m' := TeardownStep(fs, m, order, TearScript(None, false, prune)).1;
             Trusted(m') ==> Covers(Owned(m'), again)
    ensures var (out, m') := TeardownStep(fs, m, order, TearScript(None, false, prune));
            var end := TeardownStep(out, m', again, tear).0;
            && Trusted(m') && TearN(out, Owned(m'), again, |again|).removed == []
            && Shrunk(out, end) && (forall q | q in out && !out[q].Dir? :: q in end)
  {
    var owned := Owned(m);
    var pr := TearN(fs, owned, order, |order|);
    var out := RemoveEmptyDirs(pr.fs, prune);
    var kept := Restrict(owned, pr.preserved);
    FullTeardown(fs, m, order, prune);
    TearShrinks(fs, owned, order, |order|);
    PruningKeepsLeaves(pr.fs, prune);
    forall p | p in kept && p != [] ensures !Judge(out, p, kept[p]).Matching? {
      KeptNeverMatches(fs, owned, order, |order|, p);
      PruningLocates(pr.fs, prune, p);
    }
    var m' := TeardownStep(fs, m, order, TearScript(None, false, prune)).1;
    NothingToTear(out, m', again, tear);
  }

  lemma {:induction false} NothingToTear(fs: Tree, m: Manifest, order: seq<Path>, tear: TearScript)
    requires WellFormed(fs) && Trusted(m) && Covers(Owned(m), order)
    requires forall p | p in Owned(m) && p != [] :: !Judge(fs, p, Owned(m)[p]).Matching?
    ensures TearN(fs, Owned(m), order, |order|).removed == []
    ensures var end := TeardownStep(fs, m, order, tear).0;
            Shrunk(fs, end) && forall q | q in fs && !fs[q].Dir? :: q in end
  {
    NothingMatches(fs, Owned(m), order, |order|);
    var n := if tear.stop.Some? then Min(tear.stop.value, |order|) else |order|;
    NothingMatches(fs, Owned(m), order, n);
    PruningKeepsLeaves(fs, tear.prune);
  }
}
