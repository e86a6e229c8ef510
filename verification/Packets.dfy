/** Attestation packets: what the exporter gathers and writes, and what the
    verifier accepts. */
module Packets {
  import opened Wrappers
  import opened Text

  type Bytes = string

  datatype Identity = Identity(gate: string, path: string, dispatch: string, captureId: string)

  /** `Identity.key`. */
  function Key(i: Identity): string { Join([i.gate, i.path, i.dispatch, i.captureId], '|') }

  /** What opening a stored artifact gives: its bytes, or why not. */
  datatype Fetched = Data(bytes: Bytes) | TooLarge | Unusable

  /** What a capture observed of the declared path. */
  datatype Capture = Permitted | Absent | Oversized | Unsafe | Unstable | Unavailable

  function Word(c: Capture): string {
    match c
    case Permitted => "permitted"
    case Absent => "absent"
    case Oversized => "oversized"
    case Unsafe => "unsafe"
    case Unstable => "unstable"
    case Unavailable => "unavailable"
  }

  datatype Artifact = Artifact(
    identity: Identity, present: bool, status: Capture, stored: bool, opaqueKind: bool, digest: Option<nat>,
    fetched: Fetched)

  datatype Limits = Limits(maxTotal: nat, maxArchive: nat, maxExpanded: nat, maxEntries: nat)

  datatype Item = Item(identity: Identity, status: string, opaqueKind: bool, archiveName: Option<string>)

  datatype Meta = Meta(size: nat, sha: nat, identity: Option<Identity>, opaqueKind: bool)

  datatype Manifest = Manifest(
    schema: nat, format: string, subject: string, spec: string,
    revision: nat, contentDigest: nat, predecessor: Option<nat>,
    completeness: map<string, string>, entries: map<string, Meta>)

  /** Everything the code hashes, kept apart: SHA-256 as one injective function. */
  datatype Preimage =
    | OfBytes(bytes: Bytes)
    | OfManifest(manifest: Manifest)
    | OfRevision(subject: string, spec: string, contentDigest: nat, predecessor: Option<nat>)

  /** The functions both sides share: the digest and `sorted` on a set of names. */
  datatype Kit = Kit(hash: Preimage -> nat, sorted: set<string> -> seq<string>)

  ghost predicate Injective(kit: Kit) {
    forall a, b :: kit.hash(a) == kit.hash(b) ==> a == b
  }

  ghost predicate Sorts(kit: Kit) {
    forall names :: Lists(kit.sorted(names), names)
  }

  /** `order` has each name of `names` once. */
  ghost predicate Lists(order: seq<string>, names: set<string>) {
    && (forall n :: n in order <==> n in names)
    && (forall i, j | 0 <= i < j < |order| :: order[i] != order[j])
  }

  const FORMAT := "ergane-attestation-story"
  const MANIFEST := "manifest.json"
  const DIGEST := "manifest.sha256"
  const REPORT := "report.md"
  const ATTACHMENTS := "attachments/"
  const INCLUDED := "included"

  // ---- gathering the selected artifacts

  predicate SafeChar(c: char) {
    'A' <= c <= 'Z' || 'a' <= c <= 'z' || '0' <= c <= '9' || c == '.' || c == '_' || c == '-'
  }

  /** `_safe_component`'s pattern. */
  predicate SafeComponent(s: string) {
    s != "" && s[0] !in {'.', '_', '-'} && forall c <- s :: SafeChar(c)
  }

  function Parts(path: string): seq<string> { KeepParts(Split(path, '/')) }

  /** `Path(path).name`. */
  function BaseName(path: string): string {
    var parts := Parts(path);
    if parts == [] then "" else parts[|parts| - 1]
  }

  predicate Mentions(s: string, word: string) {
    word <= s || (s != "" && Mentions(s[1..], word))
  }

  /** `_source_status`: the status, and the bytes when they may be included. */
  function SourceStatus(a: Artifact, kit: Kit): (string, Option<Bytes>) {
    if !a.present then ("missing", None)
    else if !a.status.Permitted? then (Word(a.status), None)
    else if !a.stored then ("missing", None)
    else if a.opaqueKind && (Mentions(a.identity.path, "codex") || Mentions(a.identity.path, "session")
                             || Mentions(a.identity.path, "rollout"))
      then ("refused", None)
    else match a.fetched
      case TooLarge => ("oversized", None)
      case Unusable => ("refused", None)
      case Data(bytes) =>
        if a.digest.Some? && a.digest.value != kit.hash(OfBytes(bytes)) then ("refused", None)
        else (INCLUDED, Some(bytes))
  }

  /** `_find_artifacts`: every capture of the identity, all alike or an error. */
  predicate Ambiguous(artifacts: seq<Artifact>, i: Identity) {
    exists a, b | a in artifacts && b in artifacts :: a.identity == i && b.identity == i && a != b
  }

  function Find(artifacts: seq<Artifact>, i: Identity): (r: Option<Artifact>)
    ensures r.Some? ==> r.value.identity == i
  {
    if artifacts == [] then None
    else if artifacts[0].identity == i then Some(artifacts[0])
    else Find(artifacts[1..], i)
  }

  /** What the export loop carries; `failed` is a raised `PacketError`. */
  datatype Gathered = Gathered(items: seq<Item>, contents: map<string, Bytes>, total: nat, failed: bool)

  function NameFor(i: Identity, used: set<string>): string {
    var plain := ATTACHMENTS + BaseName(i.path);
    if plain in used then ATTACHMENTS + i.captureId + "-" + BaseName(i.path) else plain
  }

  predicate NameRefused(i: Identity, used: set<string>) {
    || !SafeComponent(BaseName(i.path))
    || (ATTACHMENTS + BaseName(i.path) in used && !SafeComponent(i.captureId + "-" + BaseName(i.path)))
    || NameFor(i, used) in used
  }

  function GatherOne(g: Gathered, artifacts: seq<Artifact>, i: Identity, limits: Limits, kit: Kit): Gathered {
    if g.failed || Ambiguous(artifacts, i) then g.(failed := true)
    else
      var found := Find(artifacts, i);
      if found.None? then g.(items := g.items + [Item(i, "missing", false, None)])
      else
        var (status, data) := SourceStatus(found.value, kit);
        if data.None? then g.(items := g.items + [Item(i, status, found.value.opaqueKind, None)])
        else if NameRefused(i, g.contents.Keys) then g.(failed := true)
        else
          var total := g.total + |data.value|;
          if total > limits.maxTotal then
            g.(items := g.items + [Item(i, "oversized", found.value.opaqueKind, None)], total := total)
          else
            var name := NameFor(i, g.contents.Keys);
            Gathered(g.items + [Item(i, INCLUDED, found.value.opaqueKind, Some(name))],
                     g.contents[name := data.value], total, false)
  }

  function GatherN(artifacts: seq<Artifact>, ids: seq<Identity>, limits: Limits, kit: Kit, n: nat): Gathered
    requires n <= |ids|
  {
    if n == 0 then Gathered([], map[], 0, false)
    else GatherOne(GatherN(artifacts, ids, limits, kit, n - 1), artifacts, ids[n - 1], limits, kit)
  }

  function Lengths(contents: map<string, Bytes>, names: seq<string>): nat
    requires forall n <- names :: n in contents
  {
    if names == [] then 0 else |contents[names[0]]| + Lengths(contents, names[1..])
  }

  function Attached(items: seq<Item>): seq<string> {
    if items == [] then []
    else Attached(items[..|items| - 1])
         + (if items[|items| - 1].archiveName.Some? then [items[|items| - 1].archiveName.value] else [])
  }

  lemma {:induction false} LengthsAppend(contents: map<string, Bytes>, names: seq<string>, more: string)
    requires (forall n <- names :: n in contents) && more in contents
    ensures Lengths(contents, names + [more]) == Lengths(contents, names) + |contents[more]|
  {
    if names == [] {
      assert names + [more] == [more];
    } else {
      assert (names + [more])[1..] == names[1..] + [more];
      LengthsAppend(contents, names[1..], more);
    }
  }

  lemma {:induction false} LengthsIgnore(contents: map<string, Bytes>, names: seq<string>, more: string, bytes: Bytes)
    requires (forall n <- names :: n in contents) && more !in names
    ensures Lengths(contents[more := bytes], names) == Lengths(contents, names)
  {
    if names != [] { LengthsIgnore(contents, names[1..], more, bytes); }
  }

  /** The attachments are the named items, each once; their names are safe and their bytes
      stay within the total; past the first overflow nothing is added. */
  ghost predicate Budgeted(g: Gathered, limits: Limits) {
    && Lists(Attached(g.items), g.contents.Keys)
    && (forall name <- g.contents :: ATTACHMENTS <= name && SafeComponent(name[|ATTACHMENTS|..]))
    && Lengths(g.contents, Attached(g.items)) <= limits.maxTotal
    && (g.total <= limits.maxTotal ==> Lengths(g.contents, Attached(g.items)) == g.total)
  }

  lemma {:induction false} NameIsSafe(i: Identity, used: set<string>)
    requires !NameRefused(i, used)
    ensures NameFor(i, used) !in used && ATTACHMENTS <= NameFor(i, used)
    ensures SafeComponent(NameFor(i, used)[|ATTACHMENTS|..])
  {
    Peels(ATTACHMENTS, BaseName(i.path));
    Peels(ATTACHMENTS, i.captureId + "-" + BaseName(i.path));
    assert ATTACHMENTS + i.captureId + "-" + BaseName(i.path) == ATTACHMENTS + (i.captureId + "-" + BaseName(i.path));
  }

  lemma Peels(prefix: string, tail: string)
    ensures prefix <= prefix + tail && (prefix + tail)[|prefix|..] == tail
  {
  }

  lemma AttachedLast(items: seq<Item>, item: Item)
    ensures Attached(items + [item])
            == Attached(items) + if item.archiveName.Some? then [item.archiveName.value] else []
  {
    assert (items + [item])[..|items|] == items;
  }

  /** One more attachment under a new safe name, within the total. */
  lemma {:induction false} AttachStep(g: Gathered, limits: Limits, item: Item, name: string, bytes: Bytes)
    requires Budgeted(g, limits) && name !in g.contents && item.archiveName == Some(name)
    requires ATTACHMENTS <= name && SafeComponent(name[|ATTACHMENTS|..])
    requires g.total + |bytes| <= limits.maxTotal
    ensures Budgeted(Gathered(g.items + [item], g.contents[name := bytes], g.total + |bytes|, false), limits)
  {
    AttachedLast(g.items, item);
    var names := Attached(g.items);
    LengthsMore(g.contents, names, name, bytes);
    assert Lists(names + [name], g.contents[name := bytes].Keys);
  }

  lemma LengthsMore(contents: map<string, Bytes>, names: seq<string>, more: string, bytes: Bytes)
    requires (forall n <- names :: n in contents) && more !in names
    ensures forall n <- names + [more] :: n in contents[more := bytes]
    ensures Lengths(contents[more := bytes], names + [more]) == Lengths(contents, names) + |bytes|
  {
    LengthsIgnore(contents, names, more, bytes);
    LengthsAppend(contents[more := bytes], names, more);
  }

  lemma {:induction false} ListStep(g: Gathered, limits: Limits, item: Item, more: nat)
    requires Budgeted(g, limits) && item.archiveName.None?
    requires more == 0 || g.total + more > limits.maxTotal
    ensures Budgeted(g.(items := g.items + [item], total := g.total + more), limits)
  {
    AttachedLast(g.items, item);
    assert Attached(g.items) + [] == Attached(g.items);
  }

  lemma {:induction false} GatherStep(g: Gathered, artifacts: seq<Artifact>, i: Identity, limits: Limits, kit: Kit)
    requires Budgeted(g, limits)
    ensures var out := GatherOne(g, artifacts, i, limits, kit);
            Budgeted(out, limits)
  {
    if g.failed || Ambiguous(artifacts, i) { return; }
    var found := Find(artifacts, i);
    if found.None? {
      ListStep(g, limits, Item(i, "missing", false, None), 0);
      return;
    }
    var (status, data) := SourceStatus(found.value, kit);
    var kind := found.value.opaqueKind;
    if data.None? {
      ListStep(g, limits, Item(i, status, kind, None), 0);
    } else if !NameRefused(i, g.contents.Keys) {
      NameIsSafe(i, g.contents.Keys);
      if g.total + |data.value| > limits.maxTotal {
        ListStep(g, limits, Item(i, "oversized", kind, None), |data.value|);
      } else {
        var name := NameFor(i, g.contents.Keys);
        AttachStep(g, limits, Item(i, INCLUDED, kind, Some(name)), name, data.value);
      }
    }
  }

  lemma NothingGathered(limits: Limits)
    ensures Budgeted(Gathered([], map[], 0, false), limits)
  {
    assert Attached([]) == [];
  }

  lemma {:induction false} GatherStaysBudgeted(artifacts: seq<Artifact>, ids: seq<Identity>, limits: Limits, kit: Kit,
                                               n: nat)
    requires n <= |ids|
    ensures Budgeted(GatherN(artifacts, ids, limits, kit, n), limits)
  {
    if n == 0 {
      NothingGathered(limits);
    } else {
      var g := GatherN(artifacts, ids, limits, kit, n - 1);
      GatherStaysBudgeted(artifacts, ids, limits, kit, n - 1);
      GatherStep(g, artifacts, ids[n - 1], limits, kit);
      assert GatherN(artifacts, ids, limits, kit, n) == GatherOne(g, artifacts, ids[n - 1], limits, kit);
    }
  }

  /** The included items are exactly the attached ones. */
  ghost predicate NamedIfIncluded(items: seq<Item>) {
    forall i | 0 <= i < |items| :: items[i].status == INCLUDED <==> items[i].archiveName.Some?
  }

  lemma IncludedHasBytes(a: Artifact, kit: Kit)
    ensures SourceStatus(a, kit).0 == INCLUDED <==> SourceStatus(a, kit).1.Some?
  {
    assert INCLUDED[0] == 'i' && "missing"[0] == 'm' && "absent"[0] == 'a' && "oversized"[0] == 'o';
    assert "unsafe"[0] == 'u' && "unstable"[0] == 'u' && "unavailable"[0] == 'u' && "refused"[0] == 'r';
  }

  lemma IncludedStep(g: Gathered, artifacts: seq<Artifact>, i: Identity, limits: Limits, kit: Kit)
    requires NamedIfIncluded(g.items)
    ensures NamedIfIncluded(GatherOne(g, artifacts, i, limits, kit).items)
  {
    var found := Find(artifacts, i);
    if found.Some? { IncludedHasBytes(found.value, kit); }
    assert INCLUDED[0] == 'i' && "missing"[0] == 'm' && "oversized"[0] == 'o';
  }

  lemma {:induction false} IncludedAreAttached(artifacts: seq<Artifact>, ids: seq<Identity>, limits: Limits, kit: Kit,
                                               n: nat)
    requires n <= |ids|
    ensures NamedIfIncluded(GatherN(artifacts, ids, limits, kit, n).items)
  {
    if n > 0 {
      IncludedAreAttached(artifacts, ids, limits, kit, n - 1);
      IncludedStep(GatherN(artifacts, ids, limits, kit, n - 1), artifacts, ids[n - 1], limits, kit);
    }
  }

  /** One item for each selected identity. */
  lemma {:induction false} OneItemEach(artifacts: seq<Artifact>, ids: seq<Identity>, limits: Limits, kit: Kit, n: nat)
    requires n <= |ids|
    ensures var g := GatherN(artifacts, ids, limits, kit, n); !g.failed ==> |g.items| == n
  {
    if n > 0 {
      OneItemEach(artifacts, ids, limits, kit, n - 1);
      OneItemMore(GatherN(artifacts, ids, limits, kit, n - 1), artifacts, ids[n - 1], limits, kit);
    }
  }

  lemma OneItemMore(g: Gathered, artifacts: seq<Artifact>, i: Identity, limits: Limits, kit: Kit)
    ensures var h := GatherOne(g, artifacts, i, limits, kit);
            h.failed || (!g.failed && |h.items| == |g.items| + 1)
  {
  }

  /** Nothing gathered after the first overflow is attached. */
  lemma {:induction false} OverflowEndsAttaching(artifacts: seq<Artifact>, ids: seq<Identity>, limits: Limits,
                                                 kit: Kit, k: nat, n: nat)
    requires k <= n <= |ids| && GatherN(artifacts, ids, limits, kit, k).total > limits.maxTotal
    ensures var g, h := GatherN(artifacts, ids, limits, kit, k), GatherN(artifacts, ids, limits, kit, n);
            && h.contents == g.contents && h.total >= g.total && |h.items| >= |g.items|
            && forall i | |g.items| <= i < |h.items| :: h.items[i].archiveName.None?
    decreases n
  {
    if k < n {
      OverflowEndsAttaching(artifacts, ids, limits, kit, k, n - 1);
      OverflowStep(GatherN(artifacts, ids, limits, kit, n - 1), artifacts, ids[n - 1], limits, kit);
    }
  }

  lemma OverflowStep(g: Gathered, artifacts: seq<Artifact>, i: Identity, limits: Limits, kit: Kit)
    requires g.total > limits.maxTotal
    ensures var h := GatherOne(g, artifacts, i, limits, kit);
            && h.contents == g.contents && h.total >= g.total
            && (h.items == g.items || (|h.items| == |g.items| + 1 && h.items[..|g.items|] == g.items
                                       && h.items[|g.items|].archiveName.None?))
  {
  }
}
