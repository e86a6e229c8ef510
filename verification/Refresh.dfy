/** The refusal-guarded refresh of a clone to its declared branch, over a commit
    graph, local branches, remote-tracking branches and a working tree. */
module Refresh {
  import opened Wrappers

  // ---- commits

  datatype Node = Node(parents: seq<nat>, files: map<string, string>)

  /** Commits by number; a parent is numbered before its children. */
  type Graph = map<nat, Node>

  predicate Acyclic(g: Graph) {
    forall c | c in g :: forall p <- g[c].parents :: p < c && p in g
  }

  /** The commits `git log` walks from one commit. */
  function Past(g: Graph, c: nat): set<nat>
    requires Acyclic(g) && c in g
    decreases c, |g[c].parents| + 1
  {
    {c} + PastOfAll(g, g[c].parents, c)
  }

  function PastOfAll(g: Graph, ps: seq<nat>, c: nat): set<nat>
    requires Acyclic(g) && forall p <- ps :: p < c && p in g
    decreases c, |ps|
  {
    if ps == [] then {}
    else
      assert ps[0] in ps && forall p <- ps[1..] :: p in ps;
      Past(g, ps[0]) + PastOfAll(g, ps[1..], c)
  }

  /** A walk from a commit to one of its ancestors. */
  ghost predicate Walk(g: Graph, path: seq<nat>) {
    && path != []
    && (forall i | 0 <= i < |path| :: path[i] in g)
    && forall i | 0 <= i < |path| - 1 :: path[i + 1] in g[path[i]].parents
  }

  ghost predicate Reaches(g: Graph, c: nat, a: nat) {
    exists path :: Walk(g, path) && path[0] == c && path[|path| - 1] == a
  }

  lemma {:induction false} PastOfAllIsUnion(g: Graph, ps: seq<nat>, c: nat)
    requires Acyclic(g) && forall p <- ps :: p < c && p in g
    ensures forall a :: a in PastOfAll(g, ps, c) <==> exists p <- ps :: a in Past(g, p)
    decreases |ps|
  {
    if ps != [] {
      assert ps[0] in ps && forall p <- ps[1..] :: p in ps;
      PastOfAllIsUnion(g, ps[1..], c);
      assert forall p <- ps :: p == ps[0] || p in ps[1..];
    }
  }

  lemma {:induction false} PastIsReached(g: Graph, c: nat, a: nat)
    requires Acyclic(g) && c in g && a in Past(g, c)
    ensures a in g && Reaches(g, c, a)
    decreases c
  {
    if a == c {
      assert Walk(g, [c]);
    } else {
      PastOfAllIsUnion(g, g[c].parents, c);
      var p :| p in g[c].parents && a in Past(g, p);
      PastIsReached(g, p, a);
      var path :| Walk(g, path) && path[0] == p && path[|path| - 1] == a;
      WalkFurther(g, c, path);
      assert ([c] + path)[|path|] == a;
    }
  }

  lemma WalkFurther(g: Graph, c: nat, path: seq<nat>)
    requires c in g && Walk(g, path) && path[0] in g[c].parents
    ensures Walk(g, [c] + path)
  {
    var longer := [c] + path;
    forall i | 0 <= i < |longer| - 1 ensures longer[i + 1] in g[longer[i]].parents {
      assert longer[i + 1] == path[i] && (i > 0 ==> longer[i] == path[i - 1]);
    }
  }

  lemma {:induction false} ReachedIsPast(g: Graph, path: seq<nat>)
    requires Acyclic(g) && Walk(g, path)
    ensures path[|path| - 1] in Past(g, path[0])
    decreases |path|
  {
    if |path| > 1 {
      var tail := path[1..];
      assert forall i | 0 <= i < |tail| :: tail[i] == path[i + 1];
      ReachedIsPast(g, tail);
      PastOfAllIsUnion(g, g[path[0]].parents, path[0]);
    }
  }

  /** An ancestor's past is part of one's own. */
  lemma PastIsClosed(g: Graph, c: nat, a: nat)
    requires Acyclic(g) && c in g && a in Past(g, c)
    ensures a in g && Past(g, a) <= Past(g, c)
  {
    PastIsReached(g, c, a);
    var path :| Walk(g, path) && path[0] == c && path[|path| - 1] == a;
    forall b | b in Past(g, a) ensures b in Past(g, c) {
      PastIsReached(g, a, b);
      var more :| Walk(g, more) && more[0] == a && more[|more| - 1] == b;
      var whole := path + more[1..];
      assert forall i | |path| - 1 <= i < |whole| :: whole[i] == more[i - |path| + 1];
      assert Walk(g, whole);
      ReachedIsPast(g, whole);
    }
  }

  /** Fetching commits leaves every commit's past as it was. */
  lemma {:induction false} PastSurvivesFetch(g: Graph, h: Graph, c: nat)
    requires Acyclic(g) && Acyclic(h) && c in g && forall k | k in g :: k in h && h[k] == g[k]
    ensures Past(h, c) == Past(g, c)
    decreases c
  {
    forall p <- g[c].parents ensures Past(h, p) == Past(g, p) { PastSurvivesFetch(g, h, p); }
    PastOfAllIsUnion(g, g[c].parents, c);
    PastOfAllIsUnion(h, h[c].parents, c);
  }

  // ---- the clone

  datatype Head = On(branch: string) | Detached(commit: nat)

  datatype Repo = Repo(
    graph: Graph, heads: map<string, nat>, remotes: map<string, nat>, head: Head,
    index: map<string, string>, work: map<string, string>)

  predicate Valid(r: Repo) {
    && Acyclic(r.graph)
    && (forall b | b in r.heads :: r.heads[b] in r.graph)
    && (forall b | b in r.remotes :: r.remotes[b] in r.graph)
    && (r.head.Detached? ==> r.head.commit in r.graph)
  }

  /** Where the clone stands; nowhere on a branch without a commit. */
  function HeadCommit(r: Repo): Option<nat> {
    if r.head.Detached? then Some(r.head.commit)
    else if r.head.branch in r.heads then Some(r.heads[r.head.branch]) else None
  }

  function HeadFiles(r: Repo): map<string, string>
    requires Valid(r)
  {
    var at := HeadCommit(r);
    if at.Some? then r.graph[at.value].files else map[]
  }

  function Get(m: map<string, string>, p: string): Option<string> { if p in m then Some(m[p]) else None }

  /** A tracked path that `git status` lists: staged or edited. */
  predicate Changed(r: Repo, p: string)
    requires Valid(r)
  {
    Get(r.index, p) != Get(HeadFiles(r), p) || (p in r.index && Get(r.work, p) != Get(r.index, p))
  }

  ghost predicate Clean(r: Repo)
    requires Valid(r)
  {
    forall p :: !Changed(r, p)
  }

  /** What a fetch brings: commits, and remote-tracking branches that may move
      anywhere. */
  datatype Fetch = Fetch(graph: Graph, remotes: map<string, nat>)

  predicate Fetches(r: Repo, f: Fetch) {
    && Acyclic(f.graph) && (forall c | c in r.graph :: c in f.graph && f.graph[c] == r.graph[c])
    && (forall b | b in r.remotes :: b in f.remotes)
    && (forall b | b in f.remotes :: f.remotes[b] in f.graph)
  }

  function Fetched(r: Repo, f: Fetch): Repo { r.(graph := f.graph, remotes := f.remotes) }

  /** The branch carries commits its remote lacks. */
  ghost predicate Ahead(r: Repo, b: string)
    requires Valid(r)
  {
    b in r.heads && b in r.remotes && !(Past(r.graph, r.heads[b]) <= Past(r.graph, r.remotes[b]))
  }

  ghost predicate AtRisk(r: Repo, b: string)
    requires Valid(r)
  {
    !Clean(r) || Ahead(r, b)
  }

  /** The tracked files replaced by another commit's; the rest stays unless it is
      in the way. */
  function Replaced(r: Repo, files: map<string, string>): map<string, string> { (r.work - r.index.Keys) + files }

  /** Where `git checkout` of a branch goes: the local branch, or the remote one. */
  function Target(r: Repo, b: string): Option<nat> {
    if b in r.heads then Some(r.heads[b]) else if b in r.remotes then Some(r.remotes[b]) else None
  }

  function Moved(r: Repo, b: string, c: nat): Repo
    requires c in r.graph
  {
    r.(heads := r.heads[b := c], head := On(b), index := r.graph[c].files, work := Replaced(r, r.graph[c].files))
  }

  /** An untracked file that is in the way of a checkout and not ignored. */
  predicate Blocked(r: Repo, c: nat, ignored: set<string>)
    requires c in r.graph
  {
    exists p <- r.graph[c].files :: p !in r.index && p in r.work && p !in ignored && r.work[p] != r.graph[c].files[p]
  }

  /** Which git commands fail on their own. */
  datatype Faults = Faults(fetch: bool, status: bool, checkout: bool, reset: bool)

  datatype Outcome = Refused(at: nat) | Refreshed(at: nat) | GitError

  class Clone {
    var graph: Graph
    var heads: map<string, nat>
    var remotes: map<string, nat>
    var head: Head
    var index: map<string, string>
    var work: map<string, string>

    function State(): Repo
      reads this
    {
      Repo(graph, heads, remotes, head, index, work)
    }

    method FetchOrigin(f: Fetch)
      requires Valid(State()) && Fetches(State(), f)
      modifies this`graph, this`remotes
      ensures State() == Fetched(old(State()), f) && Valid(State())
    {
      graph, remotes := f.graph, f.remotes;
    }

    /** `_work_at_risk`: what a reset of the branch to its remote would destroy. */
    method WorkAtRisk(b: string) returns (dirty: set<string>, unpushed: set<nat>)
      requires Valid(State())
      ensures forall p :: p in dirty <==> Changed(State(), p)
      ensures unpushed != {} <==> Ahead(State(), b)
      ensures dirty != {} || unpushed != {} <==> AtRisk(State(), b)
    {
      var files := HeadFiles(State());
      dirty := set p | p in files.Keys + index.Keys && Changed(State(), p);
      unpushed := {};
      if b in heads && b in remotes {
        unpushed := Past(graph, heads[b]) - Past(graph, remotes[b]);
        assert forall c :: c in unpushed <==> c in Past(graph, heads[b]) && c !in Past(graph, remotes[b]);
      }
      assert dirty != {} ==> exists p :: p in dirty;
      assert unpushed != {} ==> exists c :: c in unpushed;
    }

    method Checkout(b: string, ignored: set<string>) returns (ok: bool)
      requires Valid(State()) && Clean(State())
      modifies this`heads, this`head, this`index, this`work
      ensures ok <==> var t := Target(old(State()), b); t.Some? && !Blocked(old(State()), t.value, ignored)
      ensures State() == if ok then Moved(old(State()), b, Target(old(State()), b).value) else old(State())
    {
      var t := Target(State(), b);
      if t.None? { return false; }
      if Blocked(State(), t.value, ignored) { return false; }
      var files := graph[t.value].files;
      heads, head, index, work := heads[b := t.value], On(b), files, (work - index.Keys) + files;
      return true;
    }

    /** `git reset --hard origin/<b>`, on branch `b`. */
    method ResetHard(b: string) returns (ok: bool)
      requires Valid(State()) && head == On(b)
      modifies this`heads, this`index, this`work
      ensures ok <==> b in old(remotes)
      ensures State() == if ok then Moved(old(State()), b, old(remotes)[b]) else old(State())
    {
      if b !in remotes { return false; }
      var files := graph[remotes[b]].files;
      heads, index, work := heads[b := remotes[b]], files, (work - index.Keys) + files;
      return true;
    }

    /** `_refresh_to_default`. */
    method RefreshToDefault(b: string, f: Fetch, ignored: set<string>, faults: Faults) returns (out: Outcome)
      requires Valid(State()) && Fetches(State(), f)
      modifies this
      ensures State() == After(old(State()), b, f, ignored, faults).0
      ensures out == After(old(State()), b, f, ignored, faults).1
    {
      if faults.fetch { return GitError; }
      FetchOrigin(f);
      if faults.status { return GitError; }
      var dirty, unpushed := WorkAtRisk(b);
      if dirty != {} || unpushed != {} {
        var at := HeadCommit(State());
        return if at.Some? then Refused(at.value) else GitError;
      }
      if faults.checkout { return GitError; }
      var ok := Checkout(b, ignored);
      if !ok || faults.reset { return GitError; }
      ok := ResetHard(b);
      if !ok { return GitError; }
      return Refreshed(heads[b]);
    }
  }

  /** The clone after a refresh, and what it reports. */
  ghost function After(r: Repo, b: string, f: Fetch, ignored: set<string>, faults: Faults): (Repo, Outcome)
    requires Valid(r) && Fetches(r, f)
  {
    if faults.fetch then (r, GitError)
    else
      var s := Fetched(r, f);
      if faults.status then (s, GitError)
      else if AtRisk(s, b) then (s, if HeadCommit(s).Some? then Refused(HeadCommit(s).value) else GitError)
      else if faults.checkout || Target(s, b).None? || Blocked(s, Target(s, b).value, ignored) then (s, GitError)
      else
        var t := Moved(s, b, Target(s, b).value);
        if faults.reset || b !in t.remotes then (t, GitError)
        else (Moved(t, b, t.remotes[b]), Refreshed(t.remotes[b]))
  }

  // ---- what a refresh keeps

  /** A commit that some local branch holds. */
  ghost predicate Held(r: Repo, c: nat)
    requires Valid(r)
  {
    exists b :: b in r.heads && c in Past(r.graph, r.heads[b])
  }

  ghost predicate Keeps(r: Repo, s: Repo) {
    Valid(r) && Valid(s) && forall c | Held(r, c) :: Held(s, c)
  }

  lemma FetchKeeps(r: Repo, f: Fetch)
    requires Valid(r) && Fetches(r, f)
    ensures Keeps(r, Fetched(r, f))
  {
    var s := Fetched(r, f);
    forall c | Held(r, c) ensures Held(s, c) {
      var b :| b in r.heads && c in Past(r.graph, r.heads[b]);
      PastSurvivesFetch(r.graph, s.graph, r.heads[b]);
      assert c in Past(s.graph, s.heads[b]);
    }
  }

  lemma MoveKeeps(r: Repo, b: string, c: nat)
    requires Valid(r) && c in r.graph && (b in r.heads ==> Past(r.graph, r.heads[b]) <= Past(r.graph, c))
    ensures Keeps(r, Moved(r, b, c))
  {
    var s := Moved(r, b, c);
    forall k | Held(r, k) ensures Held(s, k) {
      var a :| a in r.heads && k in Past(r.graph, r.heads[a]);
      assert k in Past(s.graph, s.heads[a]);
    }
  }

  /** However a refresh ends, and wherever git fails, no commit that a local
      branch held is lost. */
  lemma NothingIsLost(r: Repo, b: string, f: Fetch, ignored: set<string>, faults: Faults)
    requires Valid(r) && Fetches(r, f)
    ensures Keeps(r, After(r, b, f, ignored, faults).0)
  {
    var s := Fetched(r, f);
    FetchKeeps(r, f);
    if !faults.fetch && !faults.status && !AtRisk(s, b) && Target(s, b).Some? {
      var t := Moved(s, b, Target(s, b).value);
      MoveKeeps(s, b, Target(s, b).value);
      if b in t.remotes { MoveKeeps(t, b, t.remotes[b]); }
    }
  }

  /** A refresh that proceeds found nothing uncommitted; it leaves every other
      branch alone, moves this one only forward, to its remote, and leaves the
      tracked files as the remote has them. */
  lemma ProceedsOnlyForward(r: Repo, b: string, f: Fetch, ignored: set<string>, faults: Faults)
    requires Valid(r) && Fetches(r, f) && After(r, b, f, ignored, faults).1.Refreshed?
    ensures var (s, out) := After(r, b, f, ignored, faults);
            Valid(s) && Clean(r) && Clean(s) && Forward(r, b, f, s) && out.at == s.heads[b]
  {
    var x := Fetched(r, f);
    FetchKeepsFiles(r, f);
    RefreshedIs(r, b, f, ignored, faults);
    MovedIsClean(x, b, Target(x, b).value);
    MovedIsClean(Moved(x, b, Target(x, b).value), b, f.remotes[b]);
    if b in r.heads { NotAheadIsBehind(x, b); }
    MovedTwice(r, b, f);
  }

  /** HEAD is on the branch, which stands at its remote, a descendant of where it
      was; every other branch is as it was. */
  ghost predicate Forward(r: Repo, b: string, f: Fetch, s: Repo) {
    && s.head == On(b) && s.remotes == f.remotes && s.graph == f.graph
    && b in s.heads && b in f.remotes && s.heads[b] == f.remotes[b]
    && (forall a | a != b :: a in s.heads <==> a in r.heads)
    && (forall a | a != b && a in r.heads :: s.heads[a] == r.heads[a])
    && (b in r.heads ==> Reaches(s.graph, s.heads[b], r.heads[b]))
  }

  lemma MovedTwice(r: Repo, b: string, f: Fetch)
    requires Valid(r) && Fetches(r, f) && b in f.remotes && Target(Fetched(r, f), b).Some?
    requires b in r.heads ==> Reaches(f.graph, f.remotes[b], r.heads[b])
    ensures var x := Fetched(r, f);
            Forward(r, b, f, Moved(Moved(x, b, Target(x, b).value), b, f.remotes[b]))
  {
  }

  /** The steps of a refresh that proceeds. */
  lemma RefreshedIs(r: Repo, b: string, f: Fetch, ignored: set<string>, faults: Faults)
    requires Valid(r) && Fetches(r, f) && After(r, b, f, ignored, faults).1.Refreshed?
    ensures var x := Fetched(r, f);
            && !AtRisk(x, b) && Target(x, b).Some? && b in f.remotes
            && var t := Moved(x, b, Target(x, b).value);
               After(r, b, f, ignored, faults) == (Moved(t, b, f.remotes[b]), Refreshed(f.remotes[b]))
  {
  }

  lemma MovedIsClean(r: Repo, b: string, c: nat)
    requires Valid(r) && c in r.graph
    ensures Valid(Moved(r, b, c)) && Clean(Moved(r, b, c))
  {
  }

  lemma NotAheadIsBehind(r: Repo, b: string)
    requires Valid(r) && b in r.heads && b in r.remotes && !Ahead(r, b)
    ensures Reaches(r.graph, r.remotes[b], r.heads[b])
  {
    assert r.heads[b] in Past(r.graph, r.heads[b]);
    PastIsReached(r.graph, r.remotes[b], r.heads[b]);
  }

  lemma FetchKeepsFiles(r: Repo, f: Fetch)
    requires Valid(r) && Fetches(r, f)
    ensures Valid(Fetched(r, f)) && HeadFiles(Fetched(r, f)) == HeadFiles(r)
    ensures Clean(Fetched(r, f)) <==> Clean(r)
  {
    assert HeadCommit(Fetched(r, f)) == HeadCommit(r);
    forall p ensures Changed(Fetched(r, f), p) <==> Changed(r, p) {}
  }

  /** Refusal, exactly: an uncommitted change to a tracked file, or a commit on
      the branch that no walk from its fetched remote reaches. It leaves HEAD, the
      branches, the index and the working tree alone. */
  lemma RefusesExactly(r: Repo, b: string, f: Fetch, ignored: set<string>, faults: Faults)
    requires Valid(r) && Fetches(r, f) && !faults.fetch && !faults.status && HeadCommit(r).Some?
    ensures var (s, out) := After(r, b, f, ignored, faults);
            && (out.Refused? <==>
                 (exists p :: Changed(r, p))
                     || (b in r.heads && b in f.remotes && !Reaches(f.graph, f.remotes[b], r.heads[b])))
            && (out.Refused? ==> s == r.(graph := f.graph, remotes := f.remotes) && Some(out.at) == HeadCommit(r))
  {
    var x := Fetched(r, f);
    FetchKeepsFiles(r, f);
    assert Clean(r) <==> !exists p :: Changed(r, p);
    if b in r.heads && b in f.remotes {
      var mine, theirs := r.heads[b], f.remotes[b];
      if Reaches(f.graph, theirs, mine) {
        var path :| Walk(f.graph, path) && path[0] == theirs && path[|path| - 1] == mine;
        ReachedIsPast(f.graph, path);
        PastIsClosed(f.graph, theirs, mine);
      }
      if Past(f.graph, mine) <= Past(f.graph, theirs) {
        PastIsReached(f.graph, theirs, mine);
      }
    }
  }

  // ---- how a refresh ends, in branches, files and walks alone

  ghost predicate Differ(a: map<string, string>, b: map<string, string>, p: string) {
    (p in a && p !in b) || (p in b && p !in a) || (p in a && p in b && a[p] != b[p])
  }

  /** The tracked files of the commit the clone stands on. */
  ghost function Committed(r: Repo): map<string, string>
    requires Valid(r)
  {
    match r.head
    case Detached(c) => r.graph[c].files
    case On(branch) => if branch in r.heads then r.graph[r.heads[branch]].files else map[]
  }

  /** Something tracked is staged, or edited, or deleted. */
  ghost predicate Uncommitted(r: Repo)
    requires Valid(r)
  {
    exists p :: Differ(r.index, Committed(r), p) || (p in r.index && Differ(r.index, r.work, p))
  }

  /** The branch has a commit that no walk from its fetched remote comes to. */
  ghost predicate Unpushed(r: Repo, b: string, f: Fetch) {
    b in r.heads && b in f.remotes && !Reaches(f.graph, f.remotes[b], r.heads[b])
  }

  /** The commit checked out on the way: the branch, or its remote when there is
      no such branch yet. */
  ghost function OnTheWay(r: Repo, b: string, f: Fetch): nat
    requires b in f.remotes
  {
    if b in r.heads then r.heads[b] else f.remotes[b]
  }

  /** A file of that commit lies there untracked, unlike and not ignored. */
  ghost predicate InTheWay(r: Repo, files: map<string, string>, ignored: set<string>) {
    exists p :: p in files && p !in r.index && p in r.work && p !in ignored && r.work[p] != files[p]
  }

  lemma ChangedMeans(r: Repo)
    requires Valid(r)
    ensures (exists p :: Changed(r, p)) <==> Uncommitted(r)
  {
    forall p ensures Changed(r, p)
                     <==> Differ(r.index, Committed(r), p) || (p in r.index && Differ(r.index, r.work, p)) {
    }
  }

  lemma RiskMeans(r: Repo, b: string, f: Fetch)
    requires Valid(r) && Fetches(r, f)
    ensures AtRisk(Fetched(r, f), b) <==> Uncommitted(r) || Unpushed(r, b, f)
  {
    FetchKeepsFiles(r, f);
    ChangedMeans(r);
    var x := Fetched(r, f);
    if b in r.heads && b in f.remotes {
      var mine, theirs := r.heads[b], f.remotes[b];
      if Reaches(f.graph, theirs, mine) {
        var path :| Walk(f.graph, path) && path[0] == theirs && path[|path| - 1] == mine;
        ReachedIsPast(f.graph, path);
        PastIsClosed(f.graph, theirs, mine);
      } else {
        if mine in Past(f.graph, theirs) { PastIsReached(f.graph, theirs, mine); }
        assert mine in Past(f.graph, mine);
      }
    }
  }

  /** How a refresh ends: it succeeds exactly when git does not fail on its own,
      nothing is at risk, the remote has the branch and no file is in the way; it
      refuses exactly when something is at risk, told apart from git's errors. */
  lemma EndsExactly(r: Repo, b: string, f: Fetch, ignored: set<string>, faults: Faults)
    requires Valid(r) && Fetches(r, f)
    ensures var out := After(r, b, f, ignored, faults).1;
            var risk := Uncommitted(r) || Unpushed(r, b, f);
            var stands := r.head.Detached? || r.head.branch in r.heads;
            && (out.Refreshed?
                <==> !faults.fetch && !faults.status && !faults.checkout && !faults.reset && !risk && b in f.remotes
                     && !InTheWay(r, f.graph[OnTheWay(r, b, f)].files, ignored))
            && (out.Refused? <==> !faults.fetch && !faults.status && risk && stands)
            && (out.Refused? ==> out.at == if r.head.Detached? then r.head.commit else r.heads[r.head.branch])
  {
    RiskMeans(r, b, f);
  }

  /** What a refresh leaves when it succeeds: HEAD on the branch, the branch at
      its remote, the other branches alone, the remote's files as tracked, and of
      the rest what was never in a commit on the way. */
  lemma LeavesExactly(r: Repo, b: string, f: Fetch, ignored: set<string>, faults: Faults)
    requires Valid(r) && Fetches(r, f) && After(r, b, f, ignored, faults).1.Refreshed?
    ensures b in f.remotes
    ensures var (s, out) := After(r, b, f, ignored, faults);
            var way, end := f.graph[OnTheWay(r, b, f)].files, f.graph[f.remotes[b]].files;
            && out.at == f.remotes[b] && s.graph == f.graph && s.remotes == f.remotes
            && s.head == On(b) && s.heads == r.heads[b := f.remotes[b]] && s.index == end
            && (forall p :: p in s.work <==> p in end || (p in r.work && p !in r.index && p !in way))
            && (forall p | p in s.work :: s.work[p] == if p in end then end[p] else r.work[p])
  {
    RefreshedIs(r, b, f, ignored, faults);
  }

  /** And otherwise: before the checkout only the fetch has happened, and none
      when that failed; past it, the clone is clean on a branch it had, or on a new
      one at the remote, when the reset fails. */
  lemma FailsExactly(r: Repo, b: string, f: Fetch, ignored: set<string>, faults: Faults)
    requires Valid(r) && Fetches(r, f) && !After(r, b, f, ignored, faults).1.Refreshed?
    ensures var s := After(r, b, f, ignored, faults).0;
            && (faults.fetch ==> s == r)
            && (!faults.fetch ==> s.graph == f.graph && s.remotes == f.remotes)
            && (faults.status || faults.checkout || Uncommitted(r) || Unpushed(r, b, f) ==>
                  s.heads == r.heads && s.head == r.head && s.index == r.index && s.work == r.work)
            && (s.heads == r.heads || (b !in r.heads && b in f.remotes && s.heads == r.heads[b := f.remotes[b]]))
            && (s.head == r.head || s.head == On(b))
  {
    RiskMeans(r, b, f);
    if b in r.heads { assert r.heads[b := r.heads[b]] == r.heads; }
  }

  /** A detached HEAD is no branch: its commit stays held exactly when a branch
      holds it already or the branch's remote reaches it. */
  lemma DetachedCommit(r: Repo, b: string, f: Fetch, ignored: set<string>, faults: Faults)
    requires Valid(r) && Fetches(r, f) && r.head.Detached? && After(r, b, f, ignored, faults).1.Refreshed?
    ensures var s := After(r, b, f, ignored, faults).0;
            Valid(s) && (Held(s, r.head.commit)
                         <==> Held(r, r.head.commit) || r.head.commit in Past(f.graph, f.remotes[b]))
  {
    var c := r.head.commit;
    var s := After(r, b, f, ignored, faults).0;
    ProceedsOnlyForward(r, b, f, ignored, faults);
    NothingIsLost(r, b, f, ignored, faults);
    if Held(s, c) {
      var a :| a in s.heads && c in Past(s.graph, s.heads[a]);
      if a != b {
        PastSurvivesFetch(r.graph, f.graph, r.heads[a]);
        assert c in Past(r.graph, r.heads[a]);
      }
    }
    if c in Past(f.graph, f.remotes[b]) { assert c in Past(s.graph, s.heads[b]); }
  }

  /** An untracked file keeps its bytes exactly when the remote's files, and those
      of the branch checked out on the way, have none of their own for it. */
  lemma UntrackedFile(r: Repo, b: string, f: Fetch, ignored: set<string>, faults: Faults, p: string)
    requires Valid(r) && Fetches(r, f) && After(r, b, f, ignored, faults).1.Refreshed?
    requires p in r.work && p !in r.index
    ensures var s := After(r, b, f, ignored, faults).0;
            var way := Fetched(r, f).graph[Target(Fetched(r, f), b).value].files;
            var end := f.graph[f.remotes[b]].files;
            Get(s.work, p) == Some(r.work[p]) <==> if p in end then end[p] == r.work[p] else p !in way
  {
  }

  // ---- two clones

  const FINE := Faults(false, false, false, false)
  const OURS: map<string, string> := map["f" := "1"]
  const THEIRS: map<string, string> := map["f" := "1", "n" := "theirs"]
  const FIRST: Graph := map[0 := Node([], OURS)]
  const BOTH: Graph := map[0 := Node([], OURS), 1 := Node([0], THEIRS)]

  /** An untracked `n`, which the fetched commit has come to track. */
  const UNTRACKED := Repo(FIRST, map["main" := 0], map["main" := 0], On("main"), OURS, map["f" := "1", "n" := "mine"])
  const AHEAD := Fetch(BOTH, map["main" := 1])

  /** A commit made on a detached HEAD. */
  const DETACHED := Repo(BOTH, map["main" := 0], map["main" := 0], Detached(1), THEIRS, THEIRS)
  const BEHIND := Fetch(BOTH, map["main" := 0])

  lemma Proceeds(r: Repo, b: string, f: Fetch)
    requires Valid(r) && Fetches(r, f) && !AtRisk(Fetched(r, f), b) && b in r.heads && b in f.remotes
    requires !Blocked(Fetched(r, f), r.heads[b], {})
    ensures var t := Moved(Fetched(r, f), b, r.heads[b]);
            After(r, b, f, {}, FINE) == (Moved(t, b, f.remotes[b]), Refreshed(f.remotes[b]))
  {
  }

  lemma CommitsOfBoth()
    ensures Acyclic(BOTH) && Past(BOTH, 0) == {0} && Past(BOTH, 1) == {0, 1}
  {
    assert BOTH[1].parents == [0] && [0][1..] == [];
    assert PastOfAll(BOTH, [], 1) == {} && PastOfAll(BOTH, [0], 1) == {0};
  }

  lemma UntrackedIsSafe()
    ensures Valid(UNTRACKED) && Fetches(UNTRACKED, AHEAD) && !AtRisk(Fetched(UNTRACKED, AHEAD), "main")
  {
    CommitsOfBoth();
    var x := Fetched(UNTRACKED, AHEAD);
    assert HeadFiles(x) == OURS;
  }

  /** The refresh reports success and the operator's bytes are gone. */
  lemma UntrackedIsOverwritten()
    ensures Valid(UNTRACKED) && Fetches(UNTRACKED, AHEAD)
    ensures var (s, out) := After(UNTRACKED, "main", AHEAD, {}, FINE);
            && out == Refreshed(1) && "n" !in UNTRACKED.index
            && Get(UNTRACKED.work, "n") == Some("mine") && Get(s.work, "n") == Some("theirs")
  {
    UntrackedIsSafe();
    Proceeds(UNTRACKED, "main", AHEAD);
  }

  lemma DetachedIsSafe()
    ensures Valid(DETACHED) && Fetches(DETACHED, BEHIND) && !AtRisk(Fetched(DETACHED, BEHIND), "main")
    ensures !Held(DETACHED, 1)
  {
    CommitsOfBoth();
    var x := Fetched(DETACHED, BEHIND);
    assert HeadFiles(x) == THEIRS;
  }

  /** The refresh reports success and no branch holds the commit. */
  lemma DetachedIsDropped()
    ensures Valid(DETACHED) && Fetches(DETACHED, BEHIND)
    ensures var (s, out) := After(DETACHED, "main", BEHIND, {}, FINE);
            out == Refreshed(0) && Valid(s) && s.head == On("main") && !Held(s, 1)
  {
    DetachedIsSafe();
    CommitsOfBoth();
    Proceeds(DETACHED, "main", BEHIND);
    DetachedCommit(DETACHED, "main", BEHIND, {}, FINE);
  }

  /** A branch without a remote: the reset fails, after HEAD has moved to it. */
  lemma LocalBranchOnly(r: Repo, b: string, f: Fetch, ignored: set<string>, faults: Faults)
    requires Valid(r) && Fetches(r, f) && b in r.heads && b !in f.remotes && !AtRisk(Fetched(r, f), b)
    ensures var (s, out) := After(r, b, f, ignored, faults);
            out.GitError? && s.heads == r.heads && (s.head == r.head || s.head == On(b))
    ensures faults == Faults(false, false, false, false) && !Blocked(Fetched(r, f), r.heads[b], ignored)
            ==> After(r, b, f, ignored, faults).0.head == On(b)
  {
    assert r.heads[b := r.heads[b]] == r.heads;
  }

  // ---- runs

  datatype Step =
    | Tick(branch: string, fetch: Fetch, ignored: set<string>, faults: Faults)
    | Operator(repo: Repo)

  /** A tick fetches what the remote has; an operator does anything that gives up
      no commit. */
  ghost predicate Allowed(r: Repo, e: Step) {
    Valid(r) && match e
                case Tick(_, f, _, _) => Fetches(r, f)
                case Operator(s) => Keeps(r, s)
  }

  ghost function Next(r: Repo, e: Step): Repo
    requires Allowed(r, e)
  {
    match e
    case Tick(b, f, ignored, faults) => After(r, b, f, ignored, faults).0
    case Operator(s) => s
  }

  ghost predicate Run(r: Repo, steps: seq<Step>)
    decreases |steps|
  {
    steps != [] ==> Allowed(r, steps[0]) && Run(Next(r, steps[0]), steps[1..])
  }

  ghost function Final(r: Repo, steps: seq<Step>): Repo
    requires Run(r, steps)
    decreases |steps|
  {
    if steps == [] then r else Final(Next(r, steps[0]), steps[1..])
  }

  /** Over any run of refreshes and work beside them, what a branch once held
      stays held. */
  lemma {:induction false} RunLosesNothing(r: Repo, steps: seq<Step>)
    requires Valid(r) && Run(r, steps)
    ensures Keeps(r, Final(r, steps))
    decreases |steps|
  {
    if steps != [] {
      var e := steps[0];
      if e.Tick? { NothingIsLost(r, e.branch, e.fetch, e.ignored, e.faults); }
      RunLosesNothing(Next(r, e), steps[1..]);
    }
  }
}
