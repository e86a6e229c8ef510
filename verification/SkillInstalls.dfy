/** An install nothing interrupts: what it leaves, that a teardown undoes it,
    and that repeating it settles. */
module SkillInstalls {
  import opened HomeTree
  import opened SkillModel
  import opened SkillSteps

  // ---- the plan's destinations never overlap

  ghost predicate Apart(actions: seq<Action>) {
    forall i, j | 0 <= i < |actions| && 0 <= j < |actions| && i != j :: !(actions[i].path <= actions[j].path)
  }

  function PathAt(pkg: Package, i: nat): Path
    requires i < |pkg.records| + |DECLARED|
  {
    if i < |pkg.records| then Dest(pkg.records[i]) else AliasPath(DECLARED[i - |pkg.records|])
  }

  lemma PathsApart(pkg: Package, i: nat, j: nat)
    requires ValidPackage(pkg) && i < |pkg.records| + |DECLARED| && j < |pkg.records| + |DECLARED| && i != j
    ensures !(PathAt(pkg, i) <= PathAt(pkg, j))
  {
    var n := |pkg.records|;
    var p, q := PathAt(pkg, i), PathAt(pkg, j);
    if i < n && j < n {
      DestPrefix(pkg.records[i], pkg.records[j]);
    } else if i >= n && j >= n {
      DistinctSkills(i - n, j - n);
      assert p[2] != q[2];
    } else {
      assert p[0] != q[0];
    }
  }

  lemma PlanIsApart(fs: Tree, owned: Entries, pkg: Package)
    requires ValidPackage(pkg)
    ensures Apart(Plan(fs, owned, pkg))
  {
    var actions := Plan(fs, owned, pkg);
    forall i, j | 0 <= i < |actions| && 0 <= j < |actions| && i != j
      ensures !(actions[i].path <= actions[j].path)
    {
      PathsApart(pkg, i, j);
      PlanPath(fs, owned, pkg, i);
      PlanPath(fs, owned, pkg, j);
    }
  }

  lemma PlanPath(fs: Tree, owned: Entries, pkg: Package, i: nat)
    requires i < |pkg.records| + |DECLARED|
    ensures var a := Plan(fs, owned, pkg)[i];
            if i < |pkg.records| then a == FileAction(fs, owned, pkg.records[i])
            else a == AliasAction(fs, owned, pkg, DECLARED[i - |pkg.records|])
    ensures Plan(fs, owned, pkg)[i].path == PathAt(pkg, i)
  {
    if i >= |pkg.records| {
      var k := i - |pkg.records|;
      assert Plan(fs, owned, pkg)[|pkg.records| + k] == AliasAction(fs, owned, pkg, DECLARED[k]);
    }
  }

  lemma DestPrefix(a: Record, b: Record)
    ensures Dest(a) <= Dest(b) ==> a.path <= b.path
  {
    assert Dest(a)[2..] == a.path && Dest(b)[2..] == b.path;
    if Dest(a) <= Dest(b) {
      assert Dest(b)[..|Dest(a)|][2..] == Dest(b)[2..][..|a.path|];
    }
  }

  lemma DistinctSkills(i: nat, j: nat)
    requires i < |DECLARED| && j < |DECLARED| && i != j
    ensures DECLARED[i] != DECLARED[j]
  {
    assert |DECLARED| == 6;
    assert DECLARED[0][0] == 'f' && DECLARED[2][0] == 'f' && DECLARED[1][0] == 'e';
    assert DECLARED[0][1] == 'l' && DECLARED[2][1] == 'i';
    assert DECLARED[3][0] == 'a' && DECLARED[4][0] == 'b' && DECLARED[5][0] == 's';
  }

  lemma PlanCanPlace(fs: Tree, owned: Entries, pkg: Package, i: nat)
    requires i < |pkg.records| + |DECLARED| && Places(Plan(fs, owned, pkg)[i])
    ensures CanPlace(fs, Plan(fs, owned, pkg)[i].path)
  {
    PlanPath(fs, owned, pkg, i);
  }

  // ---- applying without a fault

  function FinalState(a: Action): State {
    if Places(a) then (if a.state.SafelyUpgradeable? then Upgraded else Created)
    else if a.state.SafelyUpgradeable? then Upgraded else a.state
  }

  /** The tree once the first `n` actions are applied: each placed node stands,
      old nodes are as they were, and anything new is a directory above one. */
  ghost predicate Applied(fs: Tree, actions: seq<Action>, n: nat, out: Tree)
    requires n <= |actions|
  {
    && WellFormed(out)
    && (forall i | 0 <= i < n && Places(actions[i]) ::
          actions[i].path in out && out[actions[i].path] == NodeOf(actions[i]))
    && (forall q | q in fs :: q in out && (out[q] == fs[q] || PlacedAt(actions, n, q)))
    && (forall q | q in out && q !in fs :: PlacedAt(actions, n, q) || (out[q].Dir? && AbovePlaced(actions, n, q)))
  }

  ghost predicate PlacedAt(actions: seq<Action>, n: nat, q: Path)
    requires n <= |actions|
  {
    exists i :: 0 <= i < n && Places(actions[i]) && actions[i].path == q
  }

  ghost predicate AbovePlaced(actions: seq<Action>, n: nat, q: Path)
    requires n <= |actions|
  {
    exists i :: 0 <= i < n && Places(actions[i]) && q < actions[i].path
  }

  lemma FreshTarget(actions: seq<Action>, n: nat, q: Path)
    requires n < |actions| && Apart(actions) && q <= actions[n].path
    ensures !PlacedAt(actions, n, q)
    ensures !AbovePlaced(actions, n, actions[n].path)
  {
    forall i | 0 <= i < n ensures actions[i].path != q && !(actions[n].path < actions[i].path) {
      assert !(actions[i].path <= actions[n].path) && !(actions[n].path <= actions[i].path);
    }
  }

  lemma StillPlaceable(fs: Tree, actions: seq<Action>, n: nat, mid: Tree)
    requires n < |actions| && Apart(actions) && CanPlace(fs, actions[n].path)
    requires Applied(fs, actions, n, mid)
    ensures CanPlace(mid, actions[n].path)
  {
    var p := actions[n].path;
    forall k | 0 < k < |p| && p[..k] in mid ensures mid[p[..k]].Dir? {
      assert p[..k] <= p;
      FreshTarget(actions, n, p[..k]);
    }
    FreshTarget(actions, n, p);
  }

  lemma {:induction false} CleanApply(fs: Tree, actions: seq<Action>, n: nat)
    requires WellFormed(fs) && n <= |actions| && Apart(actions)
    requires forall i | 0 <= i < |actions| && Places(actions[i]) :: CanPlace(fs, actions[i].path)
    ensures var (out, states) := ApplyN(fs, actions, CLEAN, n);
            Applied(fs, actions, n, out) && forall i | 0 <= i < n :: states[i] == FinalState(actions[i])
  {
    if n > 0 {
      CleanApply(fs, actions, n - 1);
      var mid := ApplyN(fs, actions, CLEAN, n - 1).0;
      var a := actions[n - 1];
      if Places(a) {
        StillPlaceable(fs, actions, n - 1, mid);
        PlaceKeepsWellFormed(mid, a.path, NodeOf(a));
        AppliedStep(fs, actions, n, mid, Place(mid, a.path, NodeOf(a)));
      } else {
        forall q ensures PlacedAt(actions, n - 1, q) ==> PlacedAt(actions, n, q)
                 ensures AbovePlaced(actions, n - 1, q) ==> AbovePlaced(actions, n, q) {
          OneMore(actions, n, q);
        }
      }
    }
  }

  lemma OneMore(actions: seq<Action>, n: nat, q: Path)
    requires 0 < n <= |actions|
    ensures PlacedAt(actions, n - 1, q) ==> PlacedAt(actions, n, q)
    ensures AbovePlaced(actions, n - 1, q) ==> AbovePlaced(actions, n, q)
    ensures Places(actions[n - 1]) && actions[n - 1].path == q ==> PlacedAt(actions, n, q)
    ensures Places(actions[n - 1]) && q < actions[n - 1].path ==> AbovePlaced(actions, n, q)
  {
  }

  /** How one more placement touches node `q`. */
  lemma PlaceAtNode(fs: Tree, actions: seq<Action>, n: nat, mid: Tree, q: Path)
    requires 0 < n <= |actions| && Places(actions[n - 1]) && CanPlace(mid, actions[n - 1].path)
    requires Applied(fs, actions, n - 1, mid)
    ensures var out := Place(mid, actions[n - 1].path, NodeOf(actions[n - 1]));
            && (q in fs ==> q in out && (out[q] == fs[q] || PlacedAt(actions, n, q)))
            && (q in out && q !in fs ==> PlacedAt(actions, n, q) || (out[q].Dir? && AbovePlaced(actions, n, q)))
  {
    OneMore(actions, n, q);
    var p := actions[n - 1].path;
    if q in Place(mid, p, NodeOf(actions[n - 1])) && q !in mid && q != p { assert q < p; }
  }

  lemma AppliedStep(fs: Tree, actions: seq<Action>, n: nat, mid: Tree, out: Tree)
    requires 0 < n <= |actions| && Apart(actions) && Places(actions[n - 1]) && CanPlace(mid, actions[n - 1].path)
    requires Applied(fs, actions, n - 1, mid)
    requires out == Place(mid, actions[n - 1].path, NodeOf(actions[n - 1])) && WellFormed(out)
    ensures Applied(fs, actions, n, out)
  {
    forall q ensures (q in fs ==> q in out && (out[q] == fs[q] || PlacedAt(actions, n, q)))
             ensures (q in out && q !in fs ==> PlacedAt(actions, n, q) || (out[q].Dir? && AbovePlaced(actions, n, q)))
    {
      PlaceAtNode(fs, actions, n, mid, q);
    }
    forall i | 0 <= i < n && Places(actions[i])
      ensures actions[i].path in out && out[actions[i].path] == NodeOf(actions[i])
    {
      EarlierStands(actions, n, mid, i);
    }
  }

  lemma EarlierStands(actions: seq<Action>, n: nat, mid: Tree, i: nat)
    requires i < n <= |actions| && Apart(actions) && Places(actions[n - 1]) && CanPlace(mid, actions[n - 1].path)
    requires Places(actions[i])
    requires i < n - 1 ==> actions[i].path in mid && mid[actions[i].path] == NodeOf(actions[i])
    ensures var out := Place(mid, actions[n - 1].path, NodeOf(actions[n - 1]));
            actions[i].path in out && out[actions[i].path] == NodeOf(actions[i])
  {
    if i < n - 1 { assert !(actions[i].path <= actions[n - 1].path); }
  }
}
