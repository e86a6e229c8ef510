/** The operator's home as a tree of nodes, with the kernel's path resolution.
    Paths are component sequences relative to the home, which is the root. */
module HomeTree {
  import opened Text

  type Path = seq<string>
  type Bytes = string

  datatype Node =
    | Dir
    | File(bytes: Bytes, readable: bool)
    | Link(target: string)
    | Other

  type Tree = map<Path, Node>

  /** Symbolic links the kernel follows in one resolution before ELOOP. */
  const MAX_HOPS: nat := 40

  /** A component a directory entry can have. */
  predicate CleanName(name: string) {
    name != "" && name != "." && name != ".." && '/' !in name
  }

  predicate CleanPath(p: Path) {
    forall c <- p :: CleanName(c)
  }

  function Parent(p: Path): Path
    requires p != []
  {
    p[..|p| - 1]
  }

  /** The root is a directory, and every other node lives in a directory. */
  ghost predicate WellFormed(fs: Tree) {
    && [] in fs && fs[[]].Dir?
    && forall p {:trigger Parent(p)} :: p in fs && p != [] ==> Parent(p) in fs && fs[Parent(p)].Dir?
  }

  /** Every existing proper ancestor of `p` is a real directory. */
  predicate Plain(fs: Tree, p: Path) {
    forall k | 0 < k < |p| && p[..k] in fs :: fs[p[..k]].Dir?
  }

  /** No proper ancestor of `p` is a symbolic link. */
  ghost predicate Unlinked(fs: Tree, p: Path) {
    forall k | 0 < k < |p| && p[..k] in fs :: !fs[p[..k]].Link?
  }

  ghost predicate Childless(fs: Tree, p: Path) {
    forall q {:trigger Parent(q)} :: q in fs && q != [] ==> Parent(q) != p
  }

  datatype Located = Missing | Blocked | At(path: Path)

  /** Kernel path resolution of `rest` from directory `cur`. `Blocked` is
      ENOTDIR or ELOOP, `Missing` is ENOENT. */
  function Walk(fs: Tree, cur: Path, rest: seq<string>, hops: nat): Located
    decreases hops, |rest|
  {
    if rest == [] then At(cur)
    else if rest[0] == "" || rest[0] == "." then Walk(fs, cur, rest[1..], hops)
    else if rest[0] == ".." then Walk(fs, if cur == [] then [] else Parent(cur), rest[1..], hops)
    else
      var next := cur + [rest[0]];
      if next !in fs then Missing
      else match fs[next]
        case Dir => Walk(fs, next, rest[1..], hops)
        case Link(target) =>
          if hops == 0 then Blocked
          else Walk(fs, if "/" <= target then [] else cur, Split(target, '/') + rest[1..], hops - 1)
        case _ => if |rest| == 1 then At(next) else Blocked
  }

  /** Where the last component of `p` lives, following links in its parents
      only (`lstat`, `unlink`, `readlink` and `rmdir`). */
  function Locate(fs: Tree, p: Path): Located
    requires p != []
  {
    match Walk(fs, [], Parent(p), MAX_HOPS)
    case At(d) => if d in fs && fs[d].Dir? then At(d + [p[|p| - 1]]) else Blocked
    case other => other
  }

  /** `read_bytes`, which follows every link; None is any OSError. */
  function ReadBytes(fs: Tree, p: Path): (r: (bool, Bytes)) {
    match Walk(fs, [], p, MAX_HOPS)
    case At(q) => if q in fs && fs[q].File? && fs[q].readable then (true, fs[q].bytes) else (false, "")
    case _ => (false, "")
  }

  /** One directory down, and one up. */
  lemma WalkDir(fs: Tree, cur: Path, name: string, rest: seq<string>, hops: nat)
    requires cur + [name] in fs && fs[cur + [name]].Dir? && name !in {"", ".", ".."}
    ensures Walk(fs, cur, [name] + rest, hops) == Walk(fs, cur + [name], rest, hops)
  {
    assert ([name] + rest)[1..] == rest;
  }

  lemma WalkUp(fs: Tree, cur: Path, rest: seq<string>, hops: nat)
    requires cur != []
    ensures Walk(fs, cur, [".."] + rest, hops) == Walk(fs, Parent(cur), rest, hops)
  {
    assert ([".."] + rest)[1..] == rest;
  }

  // ---- plain and unlinked parents resolve to themselves

  lemma {:induction false} UnlinkedWalk(fs: Tree, p: Path, i: nat)
    requires WellFormed(fs) && CleanPath(p) && i <= |p|
    requires forall k | 0 < k <= |p| && p[..k] in fs :: !fs[p[..k]].Link?
    requires p[..i] in fs && fs[p[..i]].Dir?
    ensures var w := Walk(fs, p[..i], p[i..], MAX_HOPS);
            w == At(p) || w.Blocked? || w.Missing?
    ensures p in fs ==> Walk(fs, p[..i], p[i..], MAX_HOPS) == At(p)
    decreases |p| - i
  {
    if i == |p| {
      assert p[..i] == p;
    } else {
      assert CleanName(p[i]);
      assert p[..i] + [p[i]] == p[..i + 1];
      assert p[i..][1..] == p[i + 1..];
      if p in fs { AncestorsExist(fs, p, i + 1); }
      if p[..i + 1] in fs && fs[p[..i + 1]].Dir? {
        UnlinkedWalk(fs, p, i + 1);
      } else if i + 1 == |p| {
        assert p[..i + 1] == p;
      }
    }
  }

  lemma {:induction false} AncestorsExist(fs: Tree, p: Path, k: nat)
    requires WellFormed(fs) && p in fs && k <= |p|
    ensures p[..k] in fs
    ensures k < |p| ==> fs[p[..k]].Dir?
    decreases |p| - k
  {
    if k == |p| {
      assert p[..k] == p;
    } else {
      AncestorsExist(fs, p, k + 1);
      assert Parent(p[..k + 1]) == p[..k];
    }
  }

  /** Without linked ancestors a path can only ever name itself. */
  lemma UnlinkedLocate(fs: Tree, p: Path)
    requires WellFormed(fs) && CleanPath(p) && p != [] && Unlinked(fs, p)
    ensures Locate(fs, p).At? ==> Locate(fs, p).path == p
    ensures p in fs ==> Locate(fs, p) == At(p)
  {
    var d := Parent(p);
    forall k | 0 < k <= |d| && d[..k] in fs
      ensures !fs[d[..k]].Link?
    {
      assert d[..k] == p[..k];
    }
    assert d[..0] == [] && d[0..] == d;
    UnlinkedWalk(fs, d, 0);
    assert d + [p[|p| - 1]] == p;
  }

  lemma PlainRead(fs: Tree, p: Path)
    requires WellFormed(fs) && CleanPath(p) && p != [] && Plain(fs, p)
    requires p in fs && !fs[p].Link?
    ensures fs[p].File? && fs[p].readable ==> ReadBytes(fs, p) == (true, fs[p].bytes)
  {
    forall k | 0 < k <= |p| && p[..k] in fs
      ensures !fs[p[..k]].Link?
    {
      if k == |p| { assert p[..k] == p; }
    }
    assert p[..0] == [] && p[0..] == p;
    UnlinkedWalk(fs, p, 0);
  }

  lemma PlainMissing(fs: Tree, p: Path)
    requires WellFormed(fs) && CleanPath(p) && p != [] && Plain(fs, p)
    requires p !in fs
    ensures !ReadBytes(fs, p).0
  {
    assert p[..|p|] == p;
    forall k | 0 < k <= |p| && p[..k] in fs
      ensures !fs[p[..k]].Link?
    {
    }
    assert p[..0] == [] && p[0..] == p;
    UnlinkedWalk(fs, p, 0);
  }

  // ---- removing a node only ever turns a resolution into ENOENT

  lemma {:induction false} WalkAfterRemoval(fs: Tree, k: Path, cur: Path, rest: seq<string>, hops: nat)
    requires WellFormed(fs) && k != [] && Childless(fs, k)
    requires cur in fs && fs[cur].Dir? && cur != k
    ensures var w := Walk(fs - {k}, cur, rest, hops);
            w.Missing? || w == Walk(fs, cur, rest, hops)
    ensures var w := Walk(fs - {k}, cur, rest, hops); w.At? ==> w.path != k
    decreases hops, |rest|
  {
    if rest != [] {
      if rest[0] == "" || rest[0] == "." {
        WalkAfterRemoval(fs, k, cur, rest[1..], hops);
      } else if rest[0] == ".." {
        WalkAfterRemoval(fs, k, if cur == [] then [] else Parent(cur), rest[1..], hops);
      } else {
        var next := cur + [rest[0]];
        if next in fs && next != k {
          match fs[next]
          case Dir => WalkAfterRemoval(fs, k, next, rest[1..], hops);
          case Link(target) =>
            if hops > 0 {
              WalkAfterRemoval(fs, k, if "/" <= target then [] else cur, Split(target, '/') + rest[1..], hops - 1);
            }
          case _ =>
        }
      }
    }
  }

  lemma LocateAfterRemoval(fs: Tree, k: Path, p: Path)
    requires WellFormed(fs) && k != [] && Childless(fs, k) && p != []
    ensures Locate(fs - {k}, p).Missing? || Locate(fs - {k}, p) == Locate(fs, p)
  {
    WalkAfterRemoval(fs, k, [], Parent(p), MAX_HOPS);
  }

  /** Removing a file or special node leaves every other resolution of a
      parent directory as it was. */
  lemma {:induction false} WalkAfterFileRemoval(fs: Tree, k: Path, cur: Path, rest: seq<string>, hops: nat)
    requires k in fs && (fs[k].File? || fs[k].Other?)
    ensures var w, w' := Walk(fs, cur, rest, hops), Walk(fs - {k}, cur, rest, hops);
            w == w' || (w'.Missing? && (w.Blocked? || w == At(k)))
    decreases hops, |rest|
  {
    if rest != [] {
      if rest[0] == "" || rest[0] == "." {
        WalkAfterFileRemoval(fs, k, cur, rest[1..], hops);
      } else if rest[0] == ".." {
        WalkAfterFileRemoval(fs, k, if cur == [] then [] else Parent(cur), rest[1..], hops);
      } else {
        var next := cur + [rest[0]];
        if next in fs && next != k {
          match fs[next]
          case Dir => WalkAfterFileRemoval(fs, k, next, rest[1..], hops);
          case Link(target) =>
            if hops > 0 {
              WalkAfterFileRemoval(fs, k, if "/" <= target then [] else cur, Split(target, '/') + rest[1..], hops - 1);
            }
          case _ =>
        }
      }
    }
  }

  lemma LocateAfterFileRemoval(fs: Tree, k: Path, p: Path)
    requires k in fs && (fs[k].File? || fs[k].Other?) && p != []
    ensures var l, l' := Locate(fs, p), Locate(fs - {k}, p);
            l == l' || (l'.Missing? && l.Blocked?)
  {
    WalkAfterFileRemoval(fs, k, [], Parent(p), MAX_HOPS);
  }

  lemma RemovalKeepsWellFormed(fs: Tree, k: Path)
    requires WellFormed(fs) && k != [] && Childless(fs, k)
    ensures WellFormed(fs - {k})
  {
  }

  lemma NonDirIsChildless(fs: Tree, k: Path)
    requires WellFormed(fs) && k in fs && !fs[k].Dir?
    ensures Childless(fs, k) && k != []
  {
  }

  // ---- making parents

  /** The missing proper ancestors of `p`, up to length `n`, made directories. */
  function MakeParents(fs: Tree, p: Path, n: nat): (out: Tree)
    requires n <= |p|
    ensures forall q | q in fs :: q in out && out[q] == fs[q]
    ensures forall q | q in out && q !in fs :: out[q].Dir? && 0 < |q| <= n && q == p[..|q|]
    ensures forall k | 0 < k <= n :: p[..k] in out
  {
    if n == 0 then fs
    else
      var below := MakeParents(fs, p, n - 1);
      if p[..n] in below then below else below[p[..n] := Dir]
  }

  lemma MakeParentsWellFormed(fs: Tree, p: Path, n: nat)
    requires WellFormed(fs) && n <= |p| && forall k | 0 < k < n && p[..k] in fs :: fs[p[..k]].Dir?
    ensures WellFormed(MakeParents(fs, p, n))
  {
    var out := MakeParents(fs, p, n);
    forall q | q in out && q != []
      ensures Parent(q) in out && out[Parent(q)].Dir?
    {
      if q !in fs {
        var k := |q| - 1;
        assert Parent(q) == p[..k];
        if k > 0 { assert p[..k] in out; } else { assert p[..k] == []; }
      }
    }
  }

  /** A write or link at `p` replaces whatever non-directory is there. */
  predicate CanPlace(fs: Tree, p: Path) {
    p != [] && Plain(fs, p) && (p in fs ==> !fs[p].Dir?)
  }

  function Place(fs: Tree, p: Path, node: Node): (out: Tree)
    requires CanPlace(fs, p) && !node.Dir?
    ensures p in out && out[p] == node
    ensures forall q | q in fs && q != p :: q in out && out[q] == fs[q]
    ensures forall q | q in out && q !in fs && q != p :: out[q].Dir? && 0 < |q| < |p| && q == p[..|q|]
    ensures forall k | 0 < k < |p| :: p[..k] in out && out[p[..k]].Dir?
  {
    MakeParents(fs, p, |p| - 1)[p := node]
  }

  lemma PlaceKeepsWellFormed(fs: Tree, p: Path, node: Node)
    requires WellFormed(fs) && CanPlace(fs, p) && !node.Dir?
    ensures WellFormed(Place(fs, p, node))
  {
    MakeParentsWellFormed(fs, p, |p| - 1);
    var mid := MakeParents(fs, p, |p| - 1);
    var out := Place(fs, p, node);
    assert p !in mid || !mid[p].Dir?;
    forall q | q in out && q != []
      ensures Parent(q) in out && out[Parent(q)].Dir?
    {
      if q == p {
        if |p| == 1 { assert Parent(q) == []; } else { assert Parent(q) == p[..|p| - 1]; }
      } else {
        assert Parent(q) in mid && mid[Parent(q)].Dir?;
      }
    }
  }

  /** `Path.rmdir` on `p` when it is an empty real directory. */
  function RemoveEmptyDir(fs: Tree, p: Path): Tree {
    if p == [] then fs
    else match Locate(fs, p)
      case At(q) => if q != [] && q in fs && fs[q].Dir? && IsEmptyDir(fs, q) then fs - {q} else fs
      case _ => fs
  }

  predicate IsEmptyDir(fs: Tree, d: Path) {
    forall q <- fs :: q != [] ==> Parent(q) != d
  }

  function RemoveEmptyDirs(fs: Tree, dirs: seq<Path>): Tree {
    if dirs == [] then fs else RemoveEmptyDirs(RemoveEmptyDir(fs, dirs[0]), dirs[1..])
  }

  /** Pruning touches nothing but directories, and keeps the tree whole. */
  lemma {:induction false} PruningKeepsLeaves(fs: Tree, dirs: seq<Path>)
    requires WellFormed(fs)
    ensures var out := RemoveEmptyDirs(fs, dirs);
            && WellFormed(out)
            && out.Keys <= fs.Keys
            && (forall q | q in fs && !fs[q].Dir? :: q in out)
            && (forall q | q in out :: out[q] == fs[q])
    decreases |dirs|
  {
    if dirs != [] { PruningKeepsLeaves(RemoveEmptyDir(fs, dirs[0]), dirs[1..]); }
  }

  lemma {:induction false} PruningLocates(fs: Tree, dirs: seq<Path>, p: Path)
    requires WellFormed(fs) && p != []
    ensures var l := Locate(RemoveEmptyDirs(fs, dirs), p); l.Missing? || l == Locate(fs, p)
    decreases |dirs|
  {
    if dirs != [] {
      var mid := RemoveEmptyDir(fs, dirs[0]);
      if mid != fs { LocateAfterRemoval(fs, Locate(fs, dirs[0]).path, p); }
      PruningLocates(mid, dirs[1..], p);
    }
  }
}
