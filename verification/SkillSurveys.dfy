/** Whether a teardown does what its survey announced. */
module SkillSurveys {
  import opened Wrappers
  import opened Text
  import opened HomeTree
  import opened SkillModel
  import opened SkillSteps
  import opened SkillRuns
  import opened SkillTeardowns

  // ---- the survey's lists and the loop's

  datatype Fate = Removal | Keeping | Absence

  predicate Meets(v: Verdict, fate: Fate) {
    match fate
    case Removal => v.Matching?
    case Keeping => v.Mismatched?
    case Absence => v.AlreadyAbsent?
  }

  /** The entries, in order, that the survey lists under one fate. */
  function Sift(fs: Tree, owned: Entries, order: seq<Path>, n: nat, fate: Fate): seq<Path>
    requires n <= |order| && Covers(owned, order)
  {
    if n == 0 then []
    else
      var p := order[n - 1];
      Sift(fs, owned, order, n - 1, fate) + (if Meets(Judge(fs, p, owned[p]), fate) then [p] else [])
  }

  lemma {:induction false} SiftMembers(fs: Tree, owned: Entries, order: seq<Path>, n: nat, fate: Fate, p: Path)
    requires n <= |order| && Covers(owned, order)
    ensures p in Sift(fs, owned, order, n, fate)
            <==> p in order[..n] && p in owned && p != [] && Meets(Judge(fs, p, owned[p]), fate)
  {
    if n > 0 {
      assert order[..n] == order[..n - 1] + [order[n - 1]];
      SiftMembers(fs, owned, order, n - 1, fate, p);
    }
  }

  function Sorted(pr: Progress, fate: Fate): seq<Path> {
    match fate
    case Removal => pr.removed
    case Keeping => pr.preserved
    case Absence => pr.absent
  }

  /** Turn `k` judges its entry as the survey did, and without a failed lstat. */
  ghost predicate AsSurveyed(fs: Tree, owned: Entries, order: seq<Path>, k: nat)
    requires k < |order| && Covers(owned, order)
  {
    Turn(fs, owned, order, k) == Surveyed(fs, owned, order, k) && !Surveyed(fs, owned, order, k).Raised?
  }

  lemma {:induction false} LoopSorts(fs: Tree, owned: Entries, order: seq<Path>, n: nat, fate: Fate)
    requires n <= |order| && Covers(owned, order) && forall k | 0 <= k < n :: AsSurveyed(fs, owned, order, k)
    ensures var pr := TearN(fs, owned, order, n);
            !pr.raised && Sorted(pr, fate) == Sift(fs, owned, order, n, fate)
  {
    if n > 0 {
      LoopSorts(fs, owned, order, n - 1, fate);
      assert order[n - 1] in order && AsSurveyed(fs, owned, order, n - 1);
      TearOneSorts(TearN(fs, owned, order, n - 1), order[n - 1], owned[order[n - 1]], fate);
    }
  }

  /** One turn adds its path to the list that its judgement names. */
  lemma TearOneSorts(pr: Progress, p: Path, entry: Entry, fate: Fate)
    requires !pr.raised && p != [] && !Judge(pr.fs, p, entry).Raised?
    ensures var out := TearOne(pr, p, entry);
            && !out.raised
            && Sorted(out, fate) == Sorted(pr, fate) + if Meets(Judge(pr.fs, p, entry), fate) then [p] else []
  {
  }

  lemma {:induction false} SortedFrom(fs: Tree, owned: Entries, order: seq<Path>, n: nat, fate: Fate, p: Path)
    requires n <= |order| && Covers(owned, order) && p in Sorted(TearN(fs, owned, order, n), fate)
    ensures p in order[..n]
  {
    if n > 0 {
      assert order[..n] == order[..n - 1] + [order[n - 1]];
      if p in Sorted(TearN(fs, owned, order, n - 1), fate) { SortedFrom(fs, owned, order, n - 1, fate, p); }
    }
  }

  /** An entry is in the loop's list of a fate exactly if its own turn came and
      judged it so. */
  lemma {:induction false} SortedAtTurn(fs: Tree, owned: Entries, order: seq<Path>, n: nat, k: nat, fate: Fate)
    requires k < n <= |order| && Covers(owned, order) && Distinct(order)
    ensures order[k] in Sorted(TearN(fs, owned, order, n), fate)
            <==> !TearN(fs, owned, order, k).raised && Meets(Turn(fs, owned, order, k), fate)
  {
    var pr := TearN(fs, owned, order, n - 1);
    assert order[n - 1] in order;
    TurnAdds(pr, order[n - 1], owned[order[n - 1]], fate, order[k]);
    if k < n - 1 {
      SortedAtTurn(fs, owned, order, n - 1, k, fate);
    } else if order[k] in Sorted(pr, fate) {
      SortedFrom(fs, owned, order, k, fate, order[k]);
      NotBefore(order, k);
    }
  }

  lemma TurnAdds(pr: Progress, p: Path, entry: Entry, fate: Fate, x: Path)
    requires p != []
    ensures x in Sorted(TearOne(pr, p, entry), fate)
            <==> x in Sorted(pr, fate) || (x == p && !pr.raised && Meets(Judge(pr.fs, p, entry), fate))
  {
  }

  lemma NotBefore(order: seq<Path>, i: nat)
    requires Distinct(order) && i < |order|
    ensures order[i] !in order[..i]
  {
    forall k | 0 <= k < i ensures order[..i][k] != order[i] {}
  }

  /** How the loop judges entry `k` when its turn comes. */
  function Turn(fs: Tree, owned: Entries, order: seq<Path>, k: nat): Verdict
    requires k < |order| && Covers(owned, order)
  {
    assert order[k] in order;
    Judge(TearN(fs, owned, order, k).fs, order[k], owned[order[k]])
  }

  /** How the survey judges it. */
  function Surveyed(fs: Tree, owned: Entries, order: seq<Path>, k: nat): Verdict
    requires k < |order| && Covers(owned, order)
  {
    assert order[k] in order;
    Judge(fs, order[k], owned[order[k]])
  }

  // ---- losing leaves

  /** `small` is `big` without some files, links or special nodes. */
  ghost predicate LeavesGone(big: Tree, small: Tree) {
    && small.Keys <= big.Keys && (forall q | q in small :: small[q] == big[q])
    && forall q | q in big && q !in small :: !big[q].Dir?
  }

  lemma {:induction false} WalkShrinks(big: Tree, small: Tree, cur: Path, rest: seq<string>, hops: nat)
    requires LeavesGone(big, small)
    ensures var w := Walk(small, cur, rest, hops); w.Missing? || w == Walk(big, cur, rest, hops)
    decreases hops, |rest|
  {
    if rest != [] {
      if rest[0] == "" || rest[0] == "." {
        WalkShrinks(big, small, cur, rest[1..], hops);
      } else if rest[0] == ".." {
        WalkShrinks(big, small, if cur == [] then [] else Parent(cur), rest[1..], hops);
      } else {
        var next := cur + [rest[0]];
        if next in small {
          match small[next]
          case Dir => WalkShrinks(big, small, next, rest[1..], hops);
          case Link(target) =>
            if hops > 0 {
              WalkShrinks(big, small, if "/" <= target then [] else cur, Split(target, '/') + rest[1..], hops - 1);
            }
          case _ =>
        }
      }
    }
  }

  lemma LocateShrinks(big: Tree, small: Tree, p: Path)
    requires LeavesGone(big, small) && p != []
    ensures var l := Locate(small, p); l.Missing? || l == Locate(big, p)
  {
    WalkShrinks(big, small, [], Parent(p), MAX_HOPS);
  }

  /** If losing several leaves changes where a walk leads, losing some one of them
      alone already does. */
  lemma {:induction false} WalkMoved(big: Tree, small: Tree, cur: Path, rest: seq<string>, hops: nat) returns (q: Path)
    requires LeavesGone(big, small) && Walk(small, cur, rest, hops) != Walk(big, cur, rest, hops)
    ensures q in big && q !in small && Walk(big - {q}, cur, rest, hops) != Walk(big, cur, rest, hops)
    decreases hops, |rest|
  {
    if rest[0] == "" || rest[0] == "." {
      q := WalkMoved(big, small, cur, rest[1..], hops);
    } else if rest[0] == ".." {
      q := WalkMoved(big, small, if cur == [] then [] else Parent(cur), rest[1..], hops);
    } else {
      var next := cur + [rest[0]];
      if next !in small {
        q := next;
      } else {
        match big[next]
        case Dir => q := WalkMoved(big, small, next, rest[1..], hops);
        case Link(target) =>
          q := WalkMoved(big, small, if "/" <= target then [] else cur, Split(target, '/') + rest[1..], hops - 1);
      }
    }
  }

  lemma LocateMoved(big: Tree, small: Tree, p: Path) returns (q: Path)
    requires LeavesGone(big, small) && p != [] && Locate(small, p) != Locate(big, p)
    ensures q in big && q !in small && Locate(big - {q}, p) != Locate(big, p)
  {
    LocateShrinks(big, small, p);
    q := WalkMoved(big, small, [], Parent(p), MAX_HOPS);
    WalkShrinks(big, big - {q}, [], Parent(p), MAX_HOPS);
  }

  lemma {:induction false} TearLosesLeaves(fs: Tree, owned: Entries, order: seq<Path>, n: nat)
    requires WellFormed(fs) && n <= |order| && Covers(owned, order)
    ensures LeavesGone(fs, TearN(fs, owned, order, n).fs)
  {
    if n > 0 {
      TearLosesLeaves(fs, owned, order, n - 1);
      assert order[n - 1] in order;
      OneLeafGone(fs, TearN(fs, owned, order, n - 1), order[n - 1], owned[order[n - 1]]);
    }
  }

  lemma OneLeafGone(fs: Tree, pr: Progress, p: Path, entry: Entry)
    requires LeavesGone(fs, pr.fs) && p != []
    ensures LeavesGone(fs, TearOne(pr, p, entry).fs)
  {
  }

  /** Whatever is gone, the entry of an earlier turn claimed it at the start. */
  lemma {:induction false} GoneBy(fs: Tree, owned: Entries, order: seq<Path>, n: nat, q: Path) returns (i: nat)
    requires WellFormed(fs) && n <= |order| && Covers(owned, order)
    requires q in fs && q !in TearN(fs, owned, order, n).fs
    ensures i < n && Surveyed(fs, owned, order, i) == Matching(q)
  {
    var pr := TearN(fs, owned, order, n - 1);
    if q !in pr.fs {
      i := GoneBy(fs, owned, order, n - 1, q);
    } else {
      i := n - 1;
      assert order[i] in order;
      OneTurn(pr, order[i], owned[order[i]], q);
      TearLosesLeaves(fs, owned, order, i);
      JudgedBefore(fs, pr.fs, order[i], owned[order[i]]);
    }
  }

  /** With fewer leaves an entry is judged absent or as before. */
  lemma JudgedBefore(big: Tree, small: Tree, p: Path, entry: Entry)
    requires LeavesGone(big, small) && p != []
    ensures Judge(small, p, entry).AlreadyAbsent? || Judge(small, p, entry) == Judge(big, p, entry)
  {
    LocateShrinks(big, small, p);
  }

  // ---- the exact condition

  /** Examining no entry fails at the start. */
  ghost predicate Quiet(fs: Tree, owned: Entries, order: seq<Path>)
    requires Covers(owned, order)
  {
    forall k | 0 <= k < |order| :: !Surveyed(fs, owned, order, k).Raised?
  }

  /** Entry `j` is there, and what entry `i`'s record matches is the very node `j`
      leads to, or a link on the way. */
  ghost predicate Disturbs(fs: Tree, owned: Entries, order: seq<Path>, i: nat, j: nat)
    requires i < |order| && j < |order| && Covers(owned, order)
  {
    assert order[j] in order;
    var a, p := Surveyed(fs, owned, order, i), order[j];
    && a.Matching? && !Surveyed(fs, owned, order, j).AlreadyAbsent?
    && (Locate(fs, p) == At(a.at) || Locate(fs - {a.at}, p) != Locate(fs, p))
  }

  ghost predicate Independent(fs: Tree, owned: Entries, order: seq<Path>)
    requires Covers(owned, order)
  {
    forall i, j | 0 <= i < j < |order| :: !Disturbs(fs, owned, order, i, j)
  }

  /** With nothing to disturb it, an entry is judged at its turn as the survey
      judged it, whatever links the home holds. */
  lemma {:induction false} JudgedAsSurveyed(fs: Tree, owned: Entries, order: seq<Path>, k: nat)
    requires WellFormed(fs) && Covers(owned, order) && k < |order|
    requires forall i | 0 <= i < k :: !Disturbs(fs, owned, order, i, k)
    ensures Turn(fs, owned, order, k) == Surveyed(fs, owned, order, k)
  {
    var p, small := order[k], TearN(fs, owned, order, k).fs;
    assert p in order;
    TearLosesLeaves(fs, owned, order, k);
    JudgedBefore(fs, small, p, owned[p]);
    if !Surveyed(fs, owned, order, k).AlreadyAbsent? {
      if Locate(small, p) != Locate(fs, p) {
        var q := LocateMoved(fs, small, p);
        var i := GoneBy(fs, owned, order, k, q);
        assert Disturbs(fs, owned, order, i, k);
      } else if Locate(fs, p).At? && Locate(fs, p).path !in small {
        var i := GoneBy(fs, owned, order, k, Locate(fs, p).path);
        assert Disturbs(fs, owned, order, i, k);
      }
    }
  }

  lemma {:induction false} NeverRaises(fs: Tree, owned: Entries, order: seq<Path>, n: nat)
    requires WellFormed(fs) && n <= |order| && Covers(owned, order) && Quiet(fs, owned, order)
    ensures !TearN(fs, owned, order, n).raised
  {
    if n > 0 {
      NeverRaises(fs, owned, order, n - 1);
      TearLosesLeaves(fs, owned, order, n - 1);
      assert order[n - 1] in order;
      JudgedBefore(fs, TearN(fs, owned, order, n - 1).fs, order[n - 1], owned[order[n - 1]]);
      assert !Surveyed(fs, owned, order, n - 1).Raised?;
    }
  }

  ghost predicate ListsMatch(fs: Tree, owned: Entries, order: seq<Path>)
    requires Covers(owned, order)
  {
    forall fate :: Sorted(TearN(fs, owned, order, |order|), fate) == Sift(fs, owned, order, |order|, fate)
  }

  lemma {:induction false} IndependentMatches(fs: Tree, owned: Entries, order: seq<Path>, fate: Fate)
    requires WellFormed(fs) && Covers(owned, order) && Quiet(fs, owned, order) && Independent(fs, owned, order)
    ensures Sorted(TearN(fs, owned, order, |order|), fate) == Sift(fs, owned, order, |order|, fate)
  {
    forall k | 0 <= k < |order| ensures AsSurveyed(fs, owned, order, k) { JudgedAsSurveyed(fs, owned, order, k); }
    LoopSorts(fs, owned, order, |order|, fate);
  }

  /** Matching lists judge every turn's fate as the survey did. */
  lemma {:induction false} MatchedTurn(fs: Tree, owned: Entries, order: seq<Path>, k: nat, fate: Fate)
    requires WellFormed(fs) && Covers(owned, order) && Distinct(order) && Quiet(fs, owned, order) && k < |order|
    requires ListsMatch(fs, owned, order) && Meets(Surveyed(fs, owned, order, k), fate)
    ensures Turn(fs, owned, order, k) == Surveyed(fs, owned, order, k)
  {
    assert order[..|order|] == order && order[k] in order;
    SiftMembers(fs, owned, order, |order|, fate, order[k]);
    SortedAtTurn(fs, owned, order, |order|, k, fate);
    TearLosesLeaves(fs, owned, order, k);
    JudgedBefore(fs, TearN(fs, owned, order, k).fs, order[k], owned[order[k]]);
  }

  lemma {:induction false} MatchedIsIndependent(fs: Tree, owned: Entries, order: seq<Path>, i: nat, j: nat)
    requires WellFormed(fs) && Covers(owned, order) && Distinct(order) && Quiet(fs, owned, order) && i < j < |order|
    requires ListsMatch(fs, owned, order)
    ensures !Disturbs(fs, owned, order, i, j)
  {
    var a, b := Surveyed(fs, owned, order, i), Surveyed(fs, owned, order, j);
    if a.Matching? && !b.AlreadyAbsent? {
      MatchedTurn(fs, owned, order, i, Removal);
      MatchedTurn(fs, owned, order, j, if b.Matching? then Removal else Keeping);
      TakenByTurn(fs, owned, order, i, a.at);
      GoneStaysGone(fs, owned, order, i + 1, j);
      StillThere(fs, owned, order, j, a.at);
    }
  }

  lemma {:induction false} TakenByTurn(fs: Tree, owned: Entries, order: seq<Path>, i: nat, q: Path)
    requires WellFormed(fs) && Covers(owned, order) && Quiet(fs, owned, order) && i < |order|
    requires Turn(fs, owned, order, i) == Matching(q)
    ensures q !in TearN(fs, owned, order, i + 1).fs
  {
    NeverRaises(fs, owned, order, i);
    assert order[i] in order;
    OneTurn(TearN(fs, owned, order, i), order[i], owned[order[i]], q);
  }

  /** An entry that is not absent at its turn was not reached through anything gone. */
  lemma {:induction false} StillThere(fs: Tree, owned: Entries, order: seq<Path>, j: nat, q: Path)
    requires WellFormed(fs) && Covers(owned, order) && j < |order|
    requires q in fs && !fs[q].Dir? && q !in TearN(fs, owned, order, j).fs
    requires !Turn(fs, owned, order, j).AlreadyAbsent? && !Turn(fs, owned, order, j).Raised?
    ensures order[j] != []
    ensures Locate(fs, order[j]) != At(q) && Locate(fs - {q}, order[j]) == Locate(fs, order[j])
  {
    var p, small := order[j], TearN(fs, owned, order, j).fs;
    assert p in order;
    TearLosesLeaves(fs, owned, order, j);
    LocateShrinks(fs, small, p);
    LocateShrinks(fs - {q}, small, p);
  }

  /** In every home whose survey fails on nothing, links or not, the teardown fails
      on nothing either, and removes, keeps and finds absent what the survey
      listed exactly when no entry disturbs a later one. */
  lemma {:induction false} MatchesSurveyExactly(fs: Tree, owned: Entries, order: seq<Path>)
    requires WellFormed(fs) && Covers(owned, order) && Distinct(order) && Quiet(fs, owned, order)
    ensures !TearN(fs, owned, order, |order|).raised
    ensures ListsMatch(fs, owned, order) <==> Independent(fs, owned, order)
  {
    NeverRaises(fs, owned, order, |order|);
    if Independent(fs, owned, order) {
      forall fate ensures Sorted(TearN(fs, owned, order, |order|), fate) == Sift(fs, owned, order, |order|, fate) {
        IndependentMatches(fs, owned, order, fate);
      }
    }
    if ListsMatch(fs, owned, order) {
      forall i, j | 0 <= i < j < |order| ensures !Disturbs(fs, owned, order, i, j) {
        MatchedIsIndependent(fs, owned, order, i, j);
      }
    }
  }

  // ---- what such a teardown leaves

  lemma KeptBySurvey(fs: Tree, owned: Entries, order: seq<Path>)
    requires Enumerates(order, owned) && Covers(owned, order)
    ensures Restrict(owned, Sift(fs, owned, order, |order|, Keeping))
            == map p | p in owned && p != [] && Judge(fs, p, owned[p]).Mismatched? :: owned[p]
  {
    assert order[..|order|] == order;
    forall p ensures p in Sift(fs, owned, order, |order|, Keeping)
                     <==> p in order && p in owned && p != [] && Judge(fs, p, owned[p]).Mismatched? {
      SiftMembers(fs, owned, order, |order|, Keeping, p);
    }
  }

  /** Nothing disturbed, a node is gone exactly if some recorded path claimed it. */
  lemma {:induction false} ClaimedAreGone(fs: Tree, owned: Entries, order: seq<Path>, q: Path)
    requires WellFormed(fs) && Enumerates(order, owned) && Covers(owned, order)
    requires Quiet(fs, owned, order) && Independent(fs, owned, order) && q in fs
    ensures q !in TearN(fs, owned, order, |order|).fs <==> exists p :: Claims(fs, owned, p, q)
  {
    if q !in TearN(fs, owned, order, |order|).fs { TearWhy(fs, owned, order, |order|, q); }
    forall p | Claims(fs, owned, p, q) ensures q !in TearN(fs, owned, order, |order|).fs {
      var i :| 0 <= i < |order| && order[i] == p;
      JudgedAsSurveyed(fs, owned, order, i);
      TakenByTurn(fs, owned, order, i, q);
      GoneStaysGone(fs, owned, order, i + 1, |order|);
    }
  }

  /** A teardown in which no entry disturbs a later one, links or not: it does what
      the survey said, the leaves that remain are those no recorded path claimed,
      and the manifest keeps exactly the mismatching entries. */
  lemma {:induction false} TeardownMatchesSurvey(fs: Tree, m: Manifest, order: seq<Path>, prune: seq<Path>)
    requires WellFormed(fs) && Trusted(m) && Owned(m) != map[]
    requires Enumerates(order, Owned(m)) && Covers(Owned(m), order)
    requires Quiet(fs, Owned(m), order) && Independent(fs, Owned(m), order)
    ensures !TearN(fs, Owned(m), order, |order|).raised && ListsMatch(fs, Owned(m), order)
    ensures var (out, m') := TeardownStep(fs, m, order, TearScript(None, false, prune));
            && Shrunk(fs, out)
            && (forall q | q in fs && !fs[q].Dir? :: q in out <==> forall p :: !Claims(fs, Owned(m), p, q))
            && Trusted(m')
            && Owned(m') == map p | p in Owned(m) && p != [] && Judge(fs, p, Owned(m)[p]).Mismatched? :: Owned(m)[p]
  {
    var owned := Owned(m);
    MatchesSurveyExactly(fs, owned, order);
    TearShrinks(fs, owned, order, |order|);
    FullTeardown(fs, m, order, prune);
    var pr := TearN(fs, owned, order, |order|);
    assert pr.preserved == Sorted(pr, Keeping);
    PruningKeepsLeaves(pr.fs, prune);
    forall q | q in fs && !fs[q].Dir?
      ensures q in RemoveEmptyDirs(pr.fs, prune) <==> forall p :: !Claims(fs, owned, p, q)
    {
      ClaimedAreGone(fs, owned, order, q);
    }
    KeptBySurvey(fs, owned, order);
  }

  // ---- real directories above every recorded path

  ghost predicate DirectAt(fs: Tree, p: Path) {
    p != [] && CleanPath(p) && Unlinked(fs, p) && !Locate(fs, p).Blocked?
  }

  ghost predicate Direct(fs: Tree, owned: Entries) {
    forall p | p in owned :: DirectAt(fs, p)
  }

  lemma StillAt(fs: Tree, k: Path, p: Path)
    requires WellFormed(fs) && k in fs && !fs[k].Dir? && DirectAt(fs, p)
    requires Locate(fs, p) == At(p)
    ensures Locate(fs - {k}, p) == At(p)
  {
    NonDirIsChildless(fs, k);
    var d := Parent(p);
    LocatedParent(fs, p);
    var out := fs - {k};
    RemovalKeepsWellFormed(fs, k);
    forall i | 0 < i <= |d| && d[..i] in out ensures !out[d[..i]].Link? {
      AncestorsExist(fs, d, i);
      if i == |d| { assert d[..i] == d; }
    }
    assert d[..0] == [] && d[0..] == d;
    UnlinkedWalk(out, d, 0);
    assert d + [p[|p| - 1]] == p;
  }

  lemma LocatedParent(fs: Tree, p: Path)
    requires WellFormed(fs) && DirectAt(fs, p) && Locate(fs, p) == At(p)
    ensures Parent(p) in fs && fs[Parent(p)].Dir?
  {
    var d := Parent(p);
    forall i | 0 < i <= |d| && d[..i] in fs ensures !fs[d[..i]].Link? {
      assert d[..i] == p[..i];
    }
    assert d[..0] == [] && d[0..] == d;
    UnlinkedWalk(fs, d, 0);
  }

  /** Losing some other leaf does not change how an entry is judged. */
  lemma JudgedAlike(fs: Tree, k: Path, p: Path, entry: Entry)
    requires WellFormed(fs) && k in fs && !fs[k].Dir? && DirectAt(fs, p) && p != k
    ensures DirectAt(fs - {k}, p) && Judge(fs - {k}, p, entry) == Judge(fs, p, entry)
  {
    NonDirIsChildless(fs, k);
    LocateAfterRemoval(fs, k, p);
    UnlinkedLocate(fs, p);
    if Locate(fs, p).At? { StillAt(fs, k, p); }
  }

  lemma DirectNeverRaises(fs: Tree, p: Path, entry: Entry)
    requires WellFormed(fs) && DirectAt(fs, p) && p != []
    ensures !Judge(fs, p, entry).Raised?
  {
    UnlinkedLocate(fs, p);
  }

  /** Real directories are enough. */
  lemma {:induction false} DirectIsIndependent(fs: Tree, owned: Entries, order: seq<Path>)
    requires WellFormed(fs) && Direct(fs, owned) && Covers(owned, order) && Distinct(order)
    ensures Quiet(fs, owned, order) && Independent(fs, owned, order)
  {
    forall k | 0 <= k < |order| ensures !Surveyed(fs, owned, order, k).Raised? {
      assert order[k] in order;
      DirectNeverRaises(fs, order[k], owned[order[k]]);
    }
    forall i, j | 0 <= i < j < |order| ensures !Disturbs(fs, owned, order, i, j) {
      DirectNeverDisturbs(fs, owned, order, i, j);
    }
  }

  lemma DirectNeverDisturbs(fs: Tree, owned: Entries, order: seq<Path>, i: nat, j: nat)
    requires WellFormed(fs) && Direct(fs, owned) && Covers(owned, order) && Distinct(order) && i < j < |order|
    ensures !Disturbs(fs, owned, order, i, j)
  {
    var k, p := order[i], order[j];
    assert k in order && p in order;
    UnlinkedLocate(fs, k);
    UnlinkedLocate(fs, p);
    if Surveyed(fs, owned, order, i).Matching? && Locate(fs, p) == At(p) { StillAt(fs, k, p); }
  }

  /** There the leaves that go are the matching recorded paths themselves. */
  ghost predicate Survives(fs: Tree, owned: Entries, q: Path) {
    q in owned && q != [] ==> !Judge(fs, q, owned[q]).Matching?
  }

  lemma DirectClaims(fs: Tree, owned: Entries, q: Path)
    requires WellFormed(fs) && Direct(fs, owned)
    ensures Survives(fs, owned, q) <==> forall p :: !Claims(fs, owned, p, q)
  {
    forall p | Claims(fs, owned, p, q) ensures p == q {
      assert DirectAt(fs, p);
      UnlinkedLocate(fs, p);
    }
    if !Survives(fs, owned, q) {
      assert DirectAt(fs, q);
      UnlinkedLocate(fs, q);
      assert Claims(fs, owned, q, q);
    }
  }

  lemma {:induction false} DirectTeardown(fs: Tree, m: Manifest, order: seq<Path>, prune: seq<Path>)
    requires WellFormed(fs) && Trusted(m) && Owned(m) != map[]
    requires Direct(fs, Owned(m)) && Enumerates(order, Owned(m)) && Covers(Owned(m), order)
    ensures !TearN(fs, Owned(m), order, |order|).raised && ListsMatch(fs, Owned(m), order)
    ensures var (out, m') := TeardownStep(fs, m, order, TearScript(None, false, prune));
            && Shrunk(fs, out)
            && (forall q | q in fs && !fs[q].Dir? :: q in out <==> Survives(fs, Owned(m), q))
            && Trusted(m')
            && Owned(m') == map p | p in Owned(m) && p != [] && Judge(fs, p, Owned(m)[p]).Mismatched? :: Owned(m)[p]
  {
    DirectIsIndependent(fs, Owned(m), order);
    TeardownMatchesSurvey(fs, m, order, prune);
    var out := TeardownStep(fs, m, order, TearScript(None, false, prune)).0;
    forall q | q in fs && !fs[q].Dir? ensures q in out <==> Survives(fs, Owned(m), q) {
      DirectClaims(fs, Owned(m), q);
    }
  }
}
