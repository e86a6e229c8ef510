/** One subject's packet directory over any run of exports. */
module PacketHistory {
  import opened Wrappers
  import opened Packets
  import opened PacketArchives

  /** The packets on disk, by the revision their file is named after. Revisions
      are equal-length hex, so their order as text is their order as numbers. */
  type Directory = map<nat, Manifest>

  /** All an export knows before it looks at the directory. */
  datatype Evidence = Evidence(subject: string, spec: string, contentDigest: nat,
                               completeness: map<string, string>, entries: map<string, Meta>)

  function Stamp(e: Evidence, revision: nat, predecessor: Option<nat>): Manifest {
    Manifest(1, FORMAT, e.subject, e.spec, revision, e.contentDigest, predecessor, e.completeness, e.entries)
  }

  lemma {:induction false} GreatestExists(s: set<nat>)
    requires s != {}
    ensures exists g :: g in s && forall x | x in s :: x <= g
  {
    var x :| x in s;
    var rest := s - {x};
    if rest == {} {
      assert s == {x};
    } else {
      GreatestExists(rest);
      var g :| g in rest && forall y | y in rest :: y <= g;
      var m := if x < g then g else x;
      assert forall y | y in s :: y == x || y in rest;
      assert m in s && forall y | y in s :: y <= m;
    }
  }

  ghost function Greatest(s: set<nat>): (g: nat)
    requires s != {}
    ensures g in s && forall x | x in s :: x <= g
  {
    GreatestExists(s);
    var g :| g in s && forall x | x in s :: x <= g;
    g
  }

  lemma {:induction false} LeastExists(s: set<nat>)
    requires s != {}
    ensures exists g :: g in s && forall x | x in s :: g <= x
  {
    var x :| x in s;
    var rest := s - {x};
    if rest == {} {
      assert s == {x};
    } else {
      LeastExists(rest);
      var g :| g in rest && forall y | y in rest :: g <= y;
      var m := if x > g then g else x;
      assert forall y | y in s :: y == x || y in rest;
      assert m in s && forall y | y in s :: m <= y;
    }
  }

  /** `matching[0]`: the first in file-name order. */
  ghost function First(s: set<nat>): (g: nat)
    requires s != {}
    ensures g in s && forall x | x in s :: g <= x
  {
    LeastExists(s);
    var g :| g in s && forall x | x in s :: g <= x;
    g
  }

  function Matching(dir: Directory, digest: nat): set<nat> {
    set r | r in dir && dir[r].contentDigest == digest
  }

  ghost function Latest(dir: Directory): Option<nat> {
    if dir.Keys == {} then None else Some(Greatest(dir.Keys))
  }

  datatype Outcome = Published(revision: nat, predecessor: Option<nat>) | OutputCollision

  /** The manifest an export would write into this directory. */
  ghost function Draft(dir: Directory, e: Evidence, kit: Kit): Manifest {
    var matching := Matching(dir, e.contentDigest);
    if matching != {} then
      Stamp(e, dir[First(matching)].revision, dir[First(matching)].predecessor)
    else
      Stamp(e, kit.hash(OfRevision(e.subject, e.spec, e.contentDigest, Latest(dir))), Latest(dir))
  }

  /** One export; `OutputCollision` leaves the directory alone. */
  ghost function Publish(dir: Directory, e: Evidence, kit: Kit): (Directory, Outcome) {
    var m := Draft(dir, e, kit);
    if m.revision !in dir then (dir[m.revision := m], Published(m.revision, m.predecessor))
    else if dir[m.revision] == m then (dir, Published(m.revision, m.predecessor))
    else (dir, OutputCollision)
  }

  /** The directory after a run of exports into an empty one. */
  ghost function After(run: seq<Evidence>, kit: Kit): Directory {
    if run == [] then map[] else Publish(After(run[..|run| - 1], kit), run[|run| - 1], kit).0
  }

  /** The revisions in the order they first appeared. */
  ghost function Log(run: seq<Evidence>, kit: Kit): seq<nat> {
    if run == [] then []
    else
      var before := After(run[..|run| - 1], kit);
      var m := Draft(before, run[|run| - 1], kit);
      Log(run[..|run| - 1], kit) + (if m.revision in before then [] else [m.revision])
  }

  function Elements(log: seq<nat>): set<nat> { set r | r in log }

  // ---- the invariant

  ghost predicate Entry(dir: Directory, log: seq<nat>, i: nat, kit: Kit)
    requires i < |log|
  {
    && log[i] in dir
    && var m := dir[log[i]];
       && m.revision == log[i]
       && log[i] == kit.hash(OfRevision(m.subject, m.spec, m.contentDigest, m.predecessor))
       && m.predecessor == (if i == 0 then None else Some(Greatest(Elements(log[..i]) + {log[0]})))
  }

  ghost predicate History(dir: Directory, log: seq<nat>, kit: Kit) {
    && dir.Keys == Elements(log)
    && (forall i, j | 0 <= i < j < |log| :: log[i] != log[j])
    && (forall i | 0 <= i < |log| :: Entry(dir, log, i, kit))
    && (forall i, j | 0 <= i < j < |log| && log[i] in dir && log[j] in dir ::
          dir[log[i]].contentDigest != dir[log[j]].contentDigest)
  }

  lemma MatchIsPublished(dir: Directory, log: seq<nat>, e: Evidence, kit: Kit)
    requires History(dir, log, kit) && Matching(dir, e.contentDigest) != {}
    ensures var r := First(Matching(dir, e.contentDigest));
            r in log && dir[r].revision == r && Draft(dir, e, kit).revision == r
  {
    var r := First(Matching(dir, e.contentDigest));
    var i :| 0 <= i < |log| && log[i] == r;
    assert Entry(dir, log, i, kit);
  }

  lemma NewIsFresh(dir: Directory, log: seq<nat>, e: Evidence, kit: Kit)
    requires History(dir, log, kit) && Injective(kit) && Matching(dir, e.contentDigest) == {}
    ensures Draft(dir, e, kit).revision !in dir
  {
    forall i | 0 <= i < |log| ensures log[i] != Draft(dir, e, kit).revision {
      assert Entry(dir, log, i, kit);
      assert log[i] !in Matching(dir, e.contentDigest);
    }
  }

  lemma EntryStays(dir: Directory, log: seq<nat>, m: Manifest, i: nat, kit: Kit)
    requires i < |log| && Entry(dir, log, i, kit) && m.revision !in dir
    ensures Entry(dir[m.revision := m], log + [m.revision], i, kit)
  {
    assert (log + [m.revision])[..i] == log[..i];
  }

  lemma NewEntry(dir: Directory, log: seq<nat>, e: Evidence, kit: Kit)
    requires dir.Keys == Elements(log) && Matching(dir, e.contentDigest) == {}
    ensures var m := Draft(dir, e, kit);
            Entry(dir[m.revision := m], log + [m.revision], |log|, kit)
  {
    var longer := log + [Draft(dir, e, kit).revision];
    assert longer[..|log|] == log;
    if log != [] { assert Elements(log) + {log[0]} == dir.Keys && log[0] in dir.Keys; }
  }

  lemma PublishNew(dir: Directory, log: seq<nat>, e: Evidence, kit: Kit)
    requires History(dir, log, kit) && Injective(kit) && Matching(dir, e.contentDigest) == {}
    ensures History(Publish(dir, e, kit).0, log + [Draft(dir, e, kit).revision], kit)
  {
    NewIsFresh(dir, log, e, kit);
    var m := Draft(dir, e, kit);
    NewEntry(dir, log, e, kit);
    forall r | r in dir ensures dir[r].contentDigest != m.contentDigest {
      assert r !in Matching(dir, e.contentDigest);
    }
    HistoryGrows(dir, log, m, kit);
  }

  lemma HistoryGrows(dir: Directory, log: seq<nat>, m: Manifest, kit: Kit)
    requires History(dir, log, kit) && m.revision !in dir
    requires Entry(dir[m.revision := m], log + [m.revision], |log|, kit)
    requires forall r | r in dir :: dir[r].contentDigest != m.contentDigest
    ensures History(dir[m.revision := m], log + [m.revision], kit)
  {
    var out, longer := dir[m.revision := m], log + [m.revision];
    forall i | 0 <= i < |log| ensures Entry(out, longer, i, kit) { EntryStays(dir, log, m, i, kit); }
    assert Elements(longer) == Elements(log) + {m.revision};
    forall i | 0 <= i < |log| ensures longer[i] == log[i] && log[i] in dir && out[log[i]] == dir[log[i]] {
      assert log[i] in Elements(log);
    }
  }

  lemma {:induction false} RunKeepsHistory(run: seq<Evidence>, kit: Kit)
    requires Injective(kit)
    ensures History(After(run, kit), Log(run, kit), kit)
  {
    if run != [] {
      var before, e := run[..|run| - 1], run[|run| - 1];
      RunKeepsHistory(before, kit);
      var dir, log := After(before, kit), Log(before, kit);
      if Matching(dir, e.contentDigest) == {} {
        NewIsFresh(dir, log, e, kit);
        PublishNew(dir, log, e, kit);
      } else {
        MatchIsPublished(dir, log, e, kit);
        assert Log(run, kit) == log;
      }
    }
  }

  // ---- what every run keeps

  lemma DigestsDiffer(dir: Directory, log: seq<nat>, kit: Kit, i: nat, j: nat)
    requires History(dir, log, kit) && i < |log| && j < |log|
    ensures log[i] in dir && log[j] in dir
    ensures i != j ==> dir[log[i]].contentDigest != dir[log[j]].contentDigest
  {
    assert Entry(dir, log, i, kit) && Entry(dir, log, j, kit);
  }

  /** Position `j` holds the greatest of the first `i` revisions. */
  ghost predicate Heads(log: seq<nat>, i: nat, j: nat)
    requires i <= |log|
  {
    j < i && forall k | 0 <= k < i :: log[k] <= log[j]
  }

  /** The earlier packet an entry names as its predecessor. */
  lemma PredecessorAt(dir: Directory, log: seq<nat>, kit: Kit, i: nat) returns (j: nat)
    requires History(dir, log, kit) && 0 < i < |log|
    ensures Heads(log, i, j) && log[i] in dir && dir[log[i]].predecessor == Some(log[j])
  {
    assert Entry(dir, log, i, kit);
    var g := dir[log[i]].predecessor.value;
    assert log[..i][0] == log[0];
    assert g in log[..i];
    j :| 0 <= j < i && log[..i][j] == g;
    forall k | 0 <= k < i ensures log[k] <= log[j] {
      assert log[..i][k] in Elements(log[..i]);
    }
  }

  /** In every history published packets have distinct content digests, and
      each one's predecessor is the greatest revision published before it, so
      following predecessors always goes back in time and ends. */
  lemma PacketsOfAHistory(dir: Directory, log: seq<nat>, kit: Kit, i: nat, other: nat)
    requires History(dir, log, kit) && i < |log| && other < |log|
    ensures log[i] in dir && log[other] in dir && dir[log[i]].revision == log[i]
    ensures i != other ==> dir[log[i]].contentDigest != dir[log[other]].contentDigest
    ensures dir[log[i]].predecessor.None? <==> i == 0
    ensures i > 0 ==> exists j: nat :: Heads(log, i, j) && dir[log[i]].predecessor == Some(log[j])
  {
    assert Entry(dir, log, i, kit);
    DigestsDiffer(dir, log, kit, i, other);
    if i > 0 { var j := PredecessorAt(dir, log, kit, i); }
  }

  /** Packet `i` names the one published just before it. */
  ghost predicate LinksBack(dir: Directory, log: seq<nat>, i: nat)
    requires 0 < i < |log|
  {
    log[i] in dir && dir[log[i]].predecessor == Some(log[i - 1])
  }

  ghost predicate HeadIsNewest(log: seq<nat>, i: nat)
    requires 0 < i <= |log|
  {
    Heads(log, i, i - 1)
  }

  lemma LinkIsTop(dir: Directory, log: seq<nat>, kit: Kit, i: nat)
    requires History(dir, log, kit) && 0 < i < |log|
    ensures LinksBack(dir, log, i) <==> HeadIsNewest(log, i)
  {
    var j := PredecessorAt(dir, log, kit, i);
    assert log[j] <= log[i - 1] <==> j == i - 1 || !(log[i - 1] < log[j]);
    assert j != i - 1 ==> log[j] != log[i - 1];
  }

  /** The predecessor is the greatest revision, not the last: the links retrace
      the publication order exactly when every packet but the newest had the
      greatest revision of its time. */
  lemma LinksFollowOrder(dir: Directory, log: seq<nat>, kit: Kit)
    requires History(dir, log, kit)
    ensures (forall i | 0 < i < |log| :: LinksBack(dir, log, i)) <==> (forall i | 0 < i < |log| :: HeadIsNewest(log, i))
  {
    forall i | 0 < i < |log| ensures LinksBack(dir, log, i) <==> HeadIsNewest(log, i) {
      LinkIsTop(dir, log, kit, i);
    }
  }

  /** A published packet stays, byte for byte, through every later export. */
  lemma {:induction false} PublishedStays(run: seq<Evidence>, more: seq<Evidence>, kit: Kit, r: nat)
    requires r in After(run, kit)
    ensures r in After(run + more, kit) && After(run + more, kit)[r] == After(run, kit)[r]
    decreases |more|
  {
    if more == [] {
      assert run + more == run;
    } else {
      var longer := run + [more[0]];
      assert longer[..|longer| - 1] == run && longer[|longer| - 1] == more[0];
      assert run + more == longer + more[1..];
      PublishedStays(longer, more[1..], kit, r);
    }
  }

  /** An export that was not refused has its packet in the directory. */
  lemma {:induction false} ExportedIsThere(before: seq<Evidence>, kit: Kit, e: Evidence)
      returns (r: nat, p: Option<nat>)
    requires Injective(kit) && Publish(After(before, kit), e, kit).1.Published?
    ensures Publish(After(before, kit), e, kit).1 == Published(r, p)
    ensures var dir := After(before + [e], kit); r in dir && dir[r] == Stamp(e, r, p)
  {
    var run := before + [e];
    assert run[..|run| - 1] == before && run[|run| - 1] == e;
    RunKeepsHistory(before, kit);
    var m := Draft(After(before, kit), e, kit);
    r, p := m.revision, m.predecessor;
    assert m == Stamp(e, r, p);
  }

  /** Exporting evidence again, after any other exports, gives the revision it
      first got and leaves the directory alone. */
  lemma {:induction false} ReExportIsStable(before: seq<Evidence>, e: Evidence, more: seq<Evidence>, kit: Kit)
    requires Injective(kit) && Publish(After(before, kit), e, kit).1.Published?
    ensures var dir := After(before + [e] + more, kit);
            Publish(dir, e, kit) == (dir, Publish(After(before, kit), e, kit).1)
  {
    var r, p := ExportedIsThere(before, kit, e);
    PublishedStays(before + [e], more, kit, r);
    StandingIsGiven(before + [e] + more, kit, e, r, p);
  }

  lemma {:induction false} StandingIsGiven(run: seq<Evidence>, kit: Kit, e: Evidence, r: nat, p: Option<nat>)
    requires Injective(kit) && r in After(run, kit) && After(run, kit)[r] == Stamp(e, r, p)
    ensures Publish(After(run, kit), e, kit) == (After(run, kit), Published(r, p))
  {
    RunKeepsHistory(run, kit);
    var dir, log := After(run, kit), Log(run, kit);
    assert r in Matching(dir, e.contentDigest);
    MatchIsPublished(dir, log, e, kit);
    OnlyMatch(dir, log, kit, r, First(Matching(dir, e.contentDigest)));
  }

  lemma OnlyMatch(dir: Directory, log: seq<nat>, kit: Kit, a: nat, b: nat)
    requires History(dir, log, kit) && a in dir && b in dir && dir[a].contentDigest == dir[b].contentDigest
    ensures a == b
  {
    var i :| 0 <= i < |log| && log[i] == a;
    var j :| 0 <= j < |log| && log[j] == b;
    DigestsDiffer(dir, log, kit, i, j);
  }

  /** An export is refused exactly when a published packet has the same content
      digest and differs anywhere else: the digest covers the contents joined
      without framing, and nothing of the manifest. */
  lemma RefusedExactly(run: seq<Evidence>, kit: Kit, e: Evidence)
    requires Injective(kit)
    ensures var dir := After(run, kit);
            Publish(dir, e, kit).1.OutputCollision?
            <==> exists r ::
                   r in dir && dir[r].contentDigest == e.contentDigest && dir[r] != Stamp(e, r, dir[r].predecessor)
  {
    RunKeepsHistory(run, kit);
    var dir, log := After(run, kit), Log(run, kit);
    if Matching(dir, e.contentDigest) == {} {
      NewIsFresh(dir, log, e, kit);
      forall r | r in dir ensures dir[r].contentDigest != e.contentDigest {
        assert r !in Matching(dir, e.contentDigest);
      }
    } else {
      MatchIsPublished(dir, log, e, kit);
      var f := First(Matching(dir, e.contentDigest));
      forall r | r in dir && dir[r].contentDigest == e.contentDigest ensures r == f { OnlyMatch(dir, log, kit, r, f); }
    }
  }

  /** The packet holds this evidence. */
  ghost predicate Holds(m: Manifest, e: Evidence) {
    && m.schema == 1 && m.format == "ergane-attestation-story" && m.subject == e.subject && m.spec == e.spec
    && m.contentDigest == e.contentDigest && m.completeness == e.completeness && m.entries == e.entries
  }

  /** One export into the directory of a run, in packets alone. New content is
      published under the digest of its identity and of the greatest revision
      there was; known content is given its packet again when that holds the
      same evidence, and refused when not. */
  lemma PublishesExactly(run: seq<Evidence>, kit: Kit, e: Evidence)
    requires Injective(kit)
    ensures var dir := After(run, kit);
            var (out, told) := Publish(dir, e, kit);
            && ((forall r | r in dir :: dir[r].contentDigest != e.contentDigest) ==>
                  && told.Published? && told.revision !in dir
                  && told.revision == kit.hash(OfRevision(e.subject, e.spec, e.contentDigest, told.predecessor))
                  && (told.predecessor.None? <==> forall r :: r !in dir)
                  && (told.predecessor.Some? ==>
                        told.predecessor.value in dir && forall r | r in dir :: r <= told.predecessor.value)
                  && out.Keys == dir.Keys + {told.revision} && (forall r | r in dir :: out[r] == dir[r])
                  && out[told.revision].revision == told.revision
                  && out[told.revision].predecessor == told.predecessor && Holds(out[told.revision], e))
            && (forall r | r in dir && dir[r].contentDigest == e.contentDigest ::
                  && out == dir
                  && told == if Holds(dir[r], e) then Published(r, dir[r].predecessor) else OutputCollision)
  {
    RunKeepsHistory(run, kit);
    var dir, log := After(run, kit), Log(run, kit);
    var matching := Matching(dir, e.contentDigest);
    if matching == {} {
      NewIsFresh(dir, log, e, kit);
      forall r | r in dir ensures dir[r].contentDigest != e.contentDigest { assert r !in matching; }
    } else {
      MatchIsPublished(dir, log, e, kit);
      forall r | r in dir && dir[r].contentDigest == e.contentDigest
        ensures r == First(matching) && dir[r].revision == r && dir[r].schema == 1
                && dir[r].format == "ergane-attestation-story"
      {
        OnlyMatch(dir, log, kit, r, First(matching));
        StampedAll(run, kit, r);
      }
    }
  }

  /** Every published packet is of this schema and format. */
  lemma {:induction false} StampedAll(run: seq<Evidence>, kit: Kit, r: nat)
    requires r in After(run, kit)
    ensures After(run, kit)[r].schema == 1 && After(run, kit)[r].format == "ergane-attestation-story"
  {
    if run != [] && r in After(run[..|run| - 1], kit) { StampedAll(run[..|run| - 1], kit, r); }
  }

  // ---- the join without framing

  function EvidenceOf(items: seq<Item>, contents: map<string, Bytes>, subject: string, spec: string,
                      kit: Kit): Evidence {
    Evidence(subject, spec, ContentDigest(contents, kit), Completeness(items),
             map n | n in contents :: MetaFor(items, n, contents[n], kit))
  }

  /** What an export publishes is the manifest the exporter builds. */
  lemma StampIsManifest(items: seq<Item>, contents: map<string, Bytes>, subject: string, spec: string,
                        revision: nat, predecessor: Option<nat>, kit: Kit)
    ensures Stamp(EvidenceOf(items, contents, subject, spec, kit), revision, predecessor)
            == BuildManifest(items, contents, subject, spec, revision, predecessor, kit)
  {
  }

  const NAMES := ["attachments/a", "attachments/b", REPORT]

  function Contents(a: Bytes, b: Bytes, report: Bytes): map<string, Bytes> {
    map["attachments/a" := a, "attachments/b" := b, REPORT := report]
  }

  /** `sorted` has these three names in this order. */
  ghost predicate SortsNames(kit: Kit) {
    kit.sorted({"attachments/a", "attachments/b", REPORT}) == NAMES
  }

  lemma ContentsAt(a: Bytes, b: Bytes, report: Bytes)
    ensures var c := Contents(a, b, report);
            && c.Keys == {"attachments/a", "attachments/b", REPORT}
            && c["attachments/a"] == a && c["attachments/b"] == b && c[REPORT] == report
  {
    assert "attachments/a"[12] != "attachments/b"[12] && REPORT[0] != "attachments/a"[0] == "attachments/b"[0];
  }

  /** Contents that differ and have one digest, whatever the report: `moved` has
      gone from the end of one attachment to the start of the next. */
  lemma UnframedJoin(u: Bytes, moved: Bytes, w: Bytes, report: Bytes, kit: Kit)
    requires SortsNames(kit) && moved != ""
    ensures var left, right := Contents(u + moved, w, report), Contents(u, moved + w, report);
            left != right && ContentDigest(left, kit) == ContentDigest(right, kit)
  {
    var left, right := Contents(u + moved, w, report), Contents(u, moved + w, report);
    ContentsAt(u + moved, w, report);
    ContentsAt(u, moved + w, report);
    JoinThree(left, NAMES);
    JoinThree(right, NAMES);
    assert (u + moved) + w == u + (moved + w);
    assert |left["attachments/a"]| != |right["attachments/a"]|;
  }

  lemma JoinThree(contents: map<string, Bytes>, order: seq<string>)
    requires |order| == 3 && forall n <- order :: n in contents
    ensures Concat(contents, order) == contents[order[0]] + contents[order[1]] + contents[order[2]]
  {
    assert order[1..][1..] == [order[2]] && [order[2]][1..] == [];
    assert order[0] in order && order[1] in order && order[2] in order;
    assert Concat(contents, [order[2]]) == contents[order[2]];
  }

  /** So the second of two such exports is refused, although its evidence differs. */
  lemma {:induction false} UnframedIsRefused(u: Bytes, moved: Bytes, w: Bytes, report: Bytes, left: seq<Item>,
                                            right: seq<Item>, subject: string, spec: string, kit: Kit)
    requires Injective(kit) && SortsNames(kit) && moved != ""
    ensures var a := EvidenceOf(left, Contents(u + moved, w, report), subject, spec, kit);
            var b := EvidenceOf(right, Contents(u, moved + w, report), subject, spec, kit);
            a != b && Publish(After([a], kit), b, kit).1.OutputCollision?
  {
    var a := EvidenceOf(left, Contents(u + moved, w, report), subject, spec, kit);
    var b := EvidenceOf(right, Contents(u, moved + w, report), subject, spec, kit);
    UnframedJoin(u, moved, w, report, kit);
    ContentsAt(u + moved, w, report);
    ContentsAt(u, moved + w, report);
    SizesDiffer(left, right, Contents(u + moved, w, report), Contents(u, moved + w, report), subject, spec, kit);
    SameDigestIsRefused(a, b, kit);
  }

  lemma SizesDiffer(left: seq<Item>, right: seq<Item>, a: map<string, Bytes>, b: map<string, Bytes>,
                    subject: string, spec: string, kit: Kit)
    requires "attachments/a" in a && "attachments/a" in b && |a["attachments/a"]| != |b["attachments/a"]|
    ensures EvidenceOf(left, a, subject, spec, kit).entries != EvidenceOf(right, b, subject, spec, kit).entries
  {
    var x, y := EvidenceOf(left, a, subject, spec, kit), EvidenceOf(right, b, subject, spec, kit);
    assert x.entries["attachments/a"].size != y.entries["attachments/a"].size;
  }

  lemma {:induction false} SameDigestIsRefused(a: Evidence, b: Evidence, kit: Kit)
    requires Injective(kit) && a.contentDigest == b.contentDigest && a.entries != b.entries
    ensures Publish(After([a], kit), b, kit).1.OutputCollision?
  {
    var r := FirstIsThere(a, kit);
    RefusedExactly([a], kit, b);
    assert After([a], kit)[r] != Stamp(b, r, After([a], kit)[r].predecessor);
  }

  lemma {:induction false} FirstIsThere(e: Evidence, kit: Kit) returns (r: nat)
    ensures r in After([e], kit) && After([e], kit)[r] == Stamp(e, r, None)
  {
    assert [e][..0] == [] && After([], kit) == map[];
    assert Matching(map[], e.contentDigest) == {};
    var none: Directory := map[];
    assert none.Keys == {};
    r := Draft(none, e, kit).revision;
    assert After([e], kit) == Publish(none, e, kit).0;
  }

  // ---- links that leave the order

  lemma FreshAppends(run: seq<Evidence>, e: Evidence, kit: Kit)
    requires Injective(kit) && Matching(After(run, kit), e.contentDigest) == {}
    ensures |Log(run + [e], kit)| == |Log(run, kit)| + 1 && Log(run + [e], kit)[..|Log(run, kit)|] == Log(run, kit)
    ensures forall d | d != e.contentDigest :: Matching(After(run + [e], kit), d) == Matching(After(run, kit), d)
  {
    var longer := run + [e];
    assert longer[..|longer| - 1] == run && longer[|longer| - 1] == e;
    RunKeepsHistory(run, kit);
    NewIsFresh(After(run, kit), Log(run, kit), e, kit);
  }

  lemma {:induction false} ThreeLogged(a: Evidence, b: Evidence, c: Evidence, kit: Kit)
    requires Injective(kit)
    requires a.contentDigest != b.contentDigest && b.contentDigest != c.contentDigest
             && a.contentDigest != c.contentDigest
    ensures |Log([a, b, c], kit)| == 3
  {
    assert [] + [a] == [a] && [a] + [b] == [a, b] && [a, b] + [c] == [a, b, c];
    assert Matching(After([], kit), a.contentDigest) == {} == Matching(After([], kit), b.contentDigest);
    assert Matching(After([], kit), c.contentDigest) == {};
    FreshAppends([], a, kit);
    FreshAppends([a], b, kit);
    FreshAppends([a, b], c, kit);
  }

  /** Three exports whose second revision is below the first: the third names the
      first as its predecessor, and the second is nobody's. */
  lemma {:induction false} LinksSkip(a: Evidence, b: Evidence, c: Evidence, kit: Kit)
    requires Injective(kit)
    requires a.contentDigest != b.contentDigest && b.contentDigest != c.contentDigest
             && a.contentDigest != c.contentDigest
    ensures var log := Log([a, b, c], kit);
            |log| == 3 && (log[1] < log[0] ==>
              var dir := After([a, b, c], kit);
              && log[2] in dir && dir[log[2]].predecessor == Some(log[0])
              && !LinksBack(dir, log, 2))
  {
    ThreeLogged(a, b, c, kit);
    RunKeepsHistory([a, b, c], kit);
    var dir, log := After([a, b, c], kit), Log([a, b, c], kit);
    var j := PredecessorAt(dir, log, kit, 2);
  }
}
