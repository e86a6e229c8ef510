/** The archive the exporter packs and the checks the verifier makes of one. */
module PacketArchives {
  import opened Wrappers
  import opened Text
  import opened Packets

  /** An archive member's decoded content. */
  datatype Payload = Raw(bytes: Bytes) | ManifestJson(manifest: Manifest) | Hex(digest: nat)

  datatype ZipEntry = ZipEntry(name: string, data: Payload, size: nat, packed: nat)

  datatype Archive = Archive(entries: seq<ZipEntry>, fileSize: nat)

  /** The sizes a zip writer chooses. */
  datatype Zip = Zip(manifestSize: nat, packed: string -> nat, fileSize: nat)

  // ---- export

  /** The contents joined in the order of `names`, with nothing in between. */
  function Concat(contents: map<string, Bytes>, names: seq<string>): Bytes {
    if names == [] then ""
    else (if names[0] in contents then contents[names[0]] else "") + Concat(contents, names[1..])
  }

  /** `completeness`: one status a key, the last item of a key winning. */
  function Completeness(items: seq<Item>): map<string, string> {
    if items == [] then map[]
    else
      var last := items[|items| - 1];
      Completeness(items[..|items| - 1])[Key(last.identity) := last.status]
  }

  function Owner(items: seq<Item>, name: string): Option<Item> {
    if items == [] then None
    else if items[0].archiveName == Some(name) then Some(items[0])
    else Owner(items[1..], name)
  }

  function MetaFor(items: seq<Item>, name: string, bytes: Bytes, kit: Kit): Meta {
    var owner := Owner(items, name);
    if owner.None? then Meta(|bytes|, kit.hash(OfBytes(bytes)), None, false)
    else Meta(|bytes|, kit.hash(OfBytes(bytes)), Some(owner.value.identity), owner.value.opaqueKind)
  }

  function ContentDigest(contents: map<string, Bytes>, kit: Kit): nat
  {
    kit.hash(OfBytes(Concat(contents, kit.sorted(contents.Keys))))
  }

  function BuildManifest(items: seq<Item>, contents: map<string, Bytes>, subject: string, spec: string,
                         revision: nat, predecessor: Option<nat>, kit: Kit): Manifest
  {
    Manifest(1, FORMAT, subject, spec, revision, ContentDigest(contents, kit), predecessor,
             Completeness(items), map n | n in contents :: MetaFor(items, n, contents[n], kit))
  }

  function RawEntry(contents: map<string, Bytes>, name: string, zip: Zip): ZipEntry {
    var bytes := if name in contents then contents[name] else "";
    ZipEntry(name, Raw(bytes), |bytes|, zip.packed(name))
  }

  /** The manifest, its digest, the report, then the attachments by name. */
  function Pack(m: Manifest, attachments: map<string, Bytes>, report: Bytes, kit: Kit, zip: Zip): Archive {
    var order := kit.sorted(attachments.Keys);
    Archive(
      [ZipEntry(MANIFEST, ManifestJson(m), zip.manifestSize, zip.packed(MANIFEST)),
       ZipEntry(DIGEST, Hex(kit.hash(OfManifest(m))), 64, zip.packed(DIGEST)),
       ZipEntry(REPORT, Raw(report), |report|, zip.packed(REPORT))]
      + seq(|order|, i requires 0 <= i < |order| => RawEntry(attachments, order[i], zip)),
      zip.fileSize)
  }

  // ---- verify

  function Sizes(entries: seq<ZipEntry>): nat {
    if entries == [] then 0 else entries[0].size + Sizes(entries[1..])
  }

  function Packed(entries: seq<ZipEntry>): nat {
    if entries == [] then 0 else entries[0].packed + Packed(entries[1..])
  }

  predicate WithinLimits(a: Archive, limits: Limits) {
    && a.fileSize <= limits.maxArchive && |a.entries| <= limits.maxEntries
    && Packed(a.entries) <= limits.maxArchive && Sizes(a.entries) <= limits.maxExpanded
  }

  predicate SafeName(name: string) {
    name != "" && name[|name| - 1] != '/' && name[0] != '/' && ".." !in Parts(name)
  }

  predicate DistinctNames(entries: seq<ZipEntry>) {
    forall i, j | 0 <= i < j < |entries| :: entries[i].name != entries[j].name
  }

  function Names(entries: seq<ZipEntry>): set<string> {
    set e | e in entries :: e.name
  }

  function Lookup(entries: seq<ZipEntry>, name: string): Option<ZipEntry> {
    if entries == [] then None
    else if entries[0].name == name then Some(entries[0])
    else Lookup(entries[1..], name)
  }

  const REQUIRED: set<string> := {MANIFEST, DIGEST, REPORT}

  /** The manifest an archive carries, once its own digest matches. */
  function Opened(a: Archive, kit: Kit): Option<Manifest> {
    var found, sum := Lookup(a.entries, MANIFEST), Lookup(a.entries, DIGEST);
    if found.None? || sum.None? || !found.value.data.ManifestJson? then None
    else if sum.value.data != Hex(kit.hash(OfManifest(found.value.data.manifest))) then None
    else Some(found.value.data.manifest)
  }

  predicate EntryMatches(a: Archive, m: Manifest, name: string, kit: Kit)
    requires name in m.entries
  {
    var found := Lookup(a.entries, name);
    && found.Some? && found.value.data.Raw?
    && |found.value.data.bytes| == m.entries[name].size
    && kit.hash(OfBytes(found.value.data.bytes)) == m.entries[name].sha
  }

  function PayloadOf(a: Archive, m: Manifest): map<string, Bytes> {
    map n | n in m.entries && Lookup(a.entries, n).Some? && Lookup(a.entries, n).value.data.Raw? ::
          Lookup(a.entries, n).value.data.bytes
  }

  predicate Sealed(a: Archive, m: Manifest, kit: Kit) {
    && m.schema == 1 && m.format == FORMAT
    && Names(a.entries) == REQUIRED + m.entries.Keys && REPORT in m.entries
    && (forall name <- m.entries :: EntryMatches(a, m, name, kit))
    && kit.hash(OfBytes(Concat(PayloadOf(a, m), kit.sorted(m.entries.Keys)))) == m.contentDigest
  }

  predicate AllIncluded(m: Manifest) { Passing(m.completeness) }

  /** What `strict` asks of the recorded completeness. */
  predicate Passing(completeness: map<string, string>) {
    forall key | key in completeness :: completeness[key] == INCLUDED
  }

  /** `verify_packet`: the manifest of an accepted archive. */
  function Verify(a: Archive, limits: Limits, strict: bool, kit: Kit): Option<Manifest> {
    if !WithinLimits(a, limits) || !DistinctNames(a.entries) || (exists e <- a.entries :: !SafeName(e.name)) then None
    else
      var m := Opened(a, kit);
      if m.None? || !Sealed(a, m.value, kit) || (strict && !AllIncluded(m.value)) then None else m
  }

  // ---- lookups in archives with distinct names

  lemma {:induction false} LookupAt(entries: seq<ZipEntry>, i: nat)
    requires i < |entries| && DistinctNames(entries)
    ensures Lookup(entries, entries[i].name) == Some(entries[i])
  {
    if i > 0 {
      assert DistinctNames(entries[1..]);
      assert entries[0].name != entries[i].name;
      LookupAt(entries[1..], i - 1);
    }
  }

  lemma {:induction false} LookupFinds(entries: seq<ZipEntry>, name: string)
    ensures Lookup(entries, name).Some? <==> name in Names(entries)
    ensures Lookup(entries, name).Some?
            ==> Lookup(entries, name).value in entries && Lookup(entries, name).value.name == name
  {
    if entries != [] {
      LookupFinds(entries[1..], name);
      assert forall e :: e in entries <==> e == entries[0] || e in entries[1..];
    }
  }

  // ---- the exporter's archive passes

  lemma AttachmentParts(name: string)
    requires ATTACHMENTS <= name && SafeComponent(name[|ATTACHMENTS|..])
    ensures Parts(name) == ["attachments", name[|ATTACHMENTS|..]] && '/' !in name[|ATTACHMENTS|..]
            && name[|ATTACHMENTS|..] != ".."
  {
    var tail := name[|ATTACHMENTS|..];
    assert name == "attachments" + ['/'] + tail;
    assert '/' !in tail && tail != "..";
    SplitPeels("attachments", tail, '/');
    SplitWhole(tail, '/');
    assert Split(name, '/') == ["attachments"] + [tail];
    assert KeepParts([tail]) == [tail];
    assert ["attachments", tail][1..] == [tail];
  }

  lemma {:induction false} AttachmentNameSafe(name: string)
    requires ATTACHMENTS <= name && SafeComponent(name[|ATTACHMENTS|..])
    ensures SafeName(name) && name !in REQUIRED
  {
    var tail := name[|ATTACHMENTS|..];
    AttachmentParts(name);
    assert name[|name| - 1] == tail[|tail| - 1];
    assert name[10] == 't' || name[10] == 's';
    assert MANIFEST[0] == 'm' && DIGEST[0] == 'm' && REPORT[0] == 'r' && name[0] == 'a';
  }

  lemma FixedNamesSafe(name: string)
    requires name in REQUIRED
    ensures SafeName(name)
  {
    assert '/' !in name && name != "..";
    SplitWhole(name, '/');
    assert KeepParts([name]) == [name];
  }

  ghost predicate WellNamed(attachments: map<string, Bytes>) {
    forall name <- attachments :: ATTACHMENTS <= name && SafeComponent(name[|ATTACHMENTS|..])
  }

  lemma PackAt(m: Manifest, attachments: map<string, Bytes>, report: Bytes, kit: Kit, zip: Zip, i: nat)
    requires WellNamed(attachments) && Lists(kit.sorted(attachments.Keys), attachments.Keys)
    requires i < |kit.sorted(attachments.Keys)|
    ensures var order := kit.sorted(attachments.Keys);
            var a := Pack(m, attachments, report, kit, zip);
            && |a.entries| == |order| + 3 && a.entries[i + 3] == RawEntry(attachments, order[i], zip)
            && order[i] in attachments && SafeName(order[i]) && order[i] !in REQUIRED
  {
    var order := kit.sorted(attachments.Keys);
    assert order[i] in order;
    AttachmentNameSafe(order[i]);
  }

  lemma PackSafe(m: Manifest, attachments: map<string, Bytes>, report: Bytes, kit: Kit, zip: Zip, i: nat)
    requires WellNamed(attachments) && Lists(kit.sorted(attachments.Keys), attachments.Keys)
    requires i < |Pack(m, attachments, report, kit, zip).entries|
    ensures var e := Pack(m, attachments, report, kit, zip).entries[i];
            SafeName(e.name) && e.name in REQUIRED + attachments.Keys
  {
    if i >= 3 {
      PackAt(m, attachments, report, kit, zip, i - 3);
    } else {
      FixedNamesSafe(Pack(m, attachments, report, kit, zip).entries[i].name);
    }
  }

  lemma FixedNamesDiffer()
    ensures MANIFEST != DIGEST && MANIFEST != REPORT && DIGEST != REPORT
  {
    assert MANIFEST[9] == 'j' && DIGEST[9] == 's' && REPORT[0] == 'r' && MANIFEST[0] == 'm' && DIGEST[0] == 'm';
  }

  lemma {:induction false} PackDistinct(m: Manifest, attachments: map<string, Bytes>, report: Bytes, kit: Kit, zip: Zip)
    requires WellNamed(attachments) && Lists(kit.sorted(attachments.Keys), attachments.Keys)
    ensures DistinctNames(Pack(m, attachments, report, kit, zip).entries)
  {
    var entries := Pack(m, attachments, report, kit, zip).entries;
    FixedNamesDiffer();
    forall i, j | 0 <= i < j < |entries| ensures entries[i].name != entries[j].name {
      if j >= 3 { PackAt(m, attachments, report, kit, zip, j - 3); }
      if i >= 3 { PackAt(m, attachments, report, kit, zip, i - 3); } else { assert entries[i].name in REQUIRED; }
    }
  }

  lemma PackFinds(m: Manifest, attachments: map<string, Bytes>, report: Bytes, kit: Kit, zip: Zip, name: string)
    requires WellNamed(attachments) && Lists(kit.sorted(attachments.Keys), attachments.Keys)
    ensures var found := Lookup(Pack(m, attachments, report, kit, zip).entries, name);
            && (name == MANIFEST ==> found.Some? && found.value.data == ManifestJson(m))
            && (name == DIGEST ==> found.Some? && found.value.data == Hex(kit.hash(OfManifest(m))))
            && (name == REPORT ==> found.Some? && found.value.data == Raw(report))
            && (name in attachments ==> found.Some? && found.value.data == Raw(attachments[name]))
  {
    var entries := Pack(m, attachments, report, kit, zip).entries;
    PackDistinct(m, attachments, report, kit, zip);
    LookupAt(entries, 0);
    LookupAt(entries, 1);
    LookupAt(entries, 2);
    if name in attachments {
      var order := kit.sorted(attachments.Keys);
      var i :| 0 <= i < |order| && order[i] == name;
      PackAt(m, attachments, report, kit, zip, i);
      LookupAt(entries, i + 3);
    }
  }

  lemma PackHasName(m: Manifest, attachments: map<string, Bytes>, report: Bytes, kit: Kit, zip: Zip, name: string)
    requires WellNamed(attachments) && Lists(kit.sorted(attachments.Keys), attachments.Keys)
    requires name in REQUIRED || name in attachments
    ensures name in Names(Pack(m, attachments, report, kit, zip).entries)
  {
    PackFinds(m, attachments, report, kit, zip, name);
    LookupFinds(Pack(m, attachments, report, kit, zip).entries, name);
  }

  lemma PackIsSafe(m: Manifest, attachments: map<string, Bytes>, report: Bytes, kit: Kit, zip: Zip, e: ZipEntry)
    requires WellNamed(attachments) && Lists(kit.sorted(attachments.Keys), attachments.Keys)
    requires e in Pack(m, attachments, report, kit, zip).entries
    ensures SafeName(e.name) && (e.name in REQUIRED || e.name in attachments)
  {
    var a := Pack(m, attachments, report, kit, zip);
    var i :| 0 <= i < |a.entries| && a.entries[i] == e;
    PackSafe(m, attachments, report, kit, zip, i);
  }

  lemma NamesAre(entries: seq<ZipEntry>, names: set<string>)
    requires forall n | n in names :: n in Names(entries)
    requires forall e | e in entries :: e.name in names
    ensures Names(entries) == names
  {
  }

  lemma PackNames(m: Manifest, attachments: map<string, Bytes>, report: Bytes, kit: Kit, zip: Zip)
    requires WellNamed(attachments) && Lists(kit.sorted(attachments.Keys), attachments.Keys)
    ensures var a := Pack(m, attachments, report, kit, zip);
            && (forall e | e in a.entries :: SafeName(e.name))
            && Names(a.entries) == REQUIRED + attachments.Keys
  {
    var a := Pack(m, attachments, report, kit, zip);
    var names := REQUIRED + attachments.Keys;
    forall e | e in a.entries ensures SafeName(e.name) && e.name in names {
      PackIsSafe(m, attachments, report, kit, zip, e);
    }
    forall n | n in names ensures n in Names(a.entries) {
      PackHasName(m, attachments, report, kit, zip, n);
    }
    NamesAre(a.entries, names);
  }

  /** Each entry of the manifest describes the content of its name. */
  ghost predicate Describes(m: Manifest, items: seq<Item>, contents: map<string, Bytes>, kit: Kit) {
    m.entries.Keys == contents.Keys && forall n | n in contents :: m.entries[n] == MetaFor(items, n, contents[n], kit)
  }

  lemma PackEntryMatches(items: seq<Item>, attachments: map<string, Bytes>, report: Bytes, m: Manifest, kit: Kit,
                         zip: Zip, n: string)
    requires WellNamed(attachments) && Lists(kit.sorted(attachments.Keys), attachments.Keys)
    requires n in m.entries && Describes(m, items, attachments[REPORT := report], kit)
    ensures var a := Pack(m, attachments, report, kit, zip);
            EntryMatches(a, m, n, kit) && n in PayloadOf(a, m) && PayloadOf(a, m)[n] == attachments[REPORT := report][n]
  {
    if n == REPORT && n in attachments { AttachmentNameSafe(n); }
    PackFinds(m, attachments, report, kit, zip, n);
  }

  lemma PackOpens(attachments: map<string, Bytes>, report: Bytes, m: Manifest, kit: Kit, zip: Zip)
    requires WellNamed(attachments) && Lists(kit.sorted(attachments.Keys), attachments.Keys)
    ensures Opened(Pack(m, attachments, report, kit, zip), kit) == Some(m)
  {
    PackFinds(m, attachments, report, kit, zip, MANIFEST);
    PackFinds(m, attachments, report, kit, zip, DIGEST);
  }

  /** The facts about a packed archive, free of how it was packed. */
  ghost predicate Faithful(a: Archive, m: Manifest, attachments: map<string, Bytes>, contents: map<string, Bytes>,
                           kit: Kit) {
    && DistinctNames(a.entries) && (forall e | e in a.entries :: SafeName(e.name))
    && Names(a.entries) == REQUIRED + attachments.Keys
    && Opened(a, kit) == Some(m)
    && (forall n | n in m.entries :: EntryMatches(a, m, n, kit))
    && PayloadOf(a, m) == contents
  }

  lemma PackIsFaithful(items: seq<Item>, attachments: map<string, Bytes>, report: Bytes, m: Manifest, kit: Kit,
                       zip: Zip)
    requires WellNamed(attachments) && Lists(kit.sorted(attachments.Keys), attachments.Keys)
    requires Describes(m, items, attachments[REPORT := report], kit)
    ensures Faithful(Pack(m, attachments, report, kit, zip), m, attachments, attachments[REPORT := report], kit)
  {
    PackDistinct(m, attachments, report, kit, zip);
    PackNames(m, attachments, report, kit, zip);
    PackOpens(attachments, report, m, kit, zip);
    PackMatches(items, attachments, report, m, kit, zip);
  }

  lemma {:induction false} FaithfulPasses(a: Archive, m: Manifest, attachments: map<string, Bytes>,
                                          contents: map<string, Bytes>, kit: Kit, limits: Limits, strict: bool)
    requires Faithful(a, m, attachments, contents, kit)
    requires m.schema == 1 && m.format == FORMAT && m.contentDigest == ContentDigest(contents, kit)
    requires m.entries.Keys == contents.Keys == attachments.Keys + {REPORT}
    ensures Verify(a, limits, strict, kit)
            == if WithinLimits(a, limits) && (strict ==> AllIncluded(m)) then Some(m) else None
  {
    SealedFrom(a, m, contents, attachments, kit);
  }

  lemma PackMatches(items: seq<Item>, attachments: map<string, Bytes>, report: Bytes, m: Manifest, kit: Kit, zip: Zip)
    requires WellNamed(attachments) && Lists(kit.sorted(attachments.Keys), attachments.Keys)
    requires Describes(m, items, attachments[REPORT := report], kit)
    ensures var a := Pack(m, attachments, report, kit, zip);
            && (forall n | n in m.entries :: EntryMatches(a, m, n, kit))
            && PayloadOf(a, m) == attachments[REPORT := report]
  {
    var a := Pack(m, attachments, report, kit, zip);
    var contents := attachments[REPORT := report];
    forall n | n in m.entries
      ensures EntryMatches(a, m, n, kit) && n in PayloadOf(a, m) && PayloadOf(a, m)[n] == contents[n]
    {
      PackEntryMatches(items, attachments, report, m, kit, zip, n);
    }
    SameContents(PayloadOf(a, m), contents, m.entries.Keys);
  }

  lemma SealedFrom(a: Archive, m: Manifest, contents: map<string, Bytes>, attachments: map<string, Bytes>, kit: Kit)
    requires m.schema == 1 && m.format == FORMAT && m.contentDigest == ContentDigest(contents, kit)
    requires m.entries.Keys == contents.Keys == attachments.Keys + {REPORT}
    requires Names(a.entries) == REQUIRED + attachments.Keys
    requires forall n | n in m.entries :: EntryMatches(a, m, n, kit)
    requires PayloadOf(a, m) == contents
    ensures Sealed(a, m, kit)
  {
    assert REQUIRED + attachments.Keys == REQUIRED + contents.Keys;
  }

  lemma SameContents(a: map<string, Bytes>, b: map<string, Bytes>, names: set<string>)
    requires a.Keys <= names && b.Keys == names && forall n | n in names :: n in a && a[n] == b[n]
    ensures a == b
  {
  }

  /** The verifier accepts what the exporter packed, and returns its manifest,
      exactly when the archive is within the verifier's limits and, under
      `strict`, every recorded completeness is `included`. */
  lemma VerifierAcceptsExport(items: seq<Item>, attachments: map<string, Bytes>, report: Bytes, subject: string,
                              spec: string, revision: nat, predecessor: Option<nat>, kit: Kit, zip: Zip,
                              limits: Limits, strict: bool)
    requires WellNamed(attachments) && Sorts(kit)
    ensures var m := BuildManifest(items, attachments[REPORT := report], subject, spec, revision, predecessor, kit);
            var a := Pack(m, attachments, report, kit, zip);
            Verify(a, limits, strict, kit)
            == if WithinLimits(a, limits) && (strict ==> AllIncluded(m)) then Some(m) else None
  {
    var contents := attachments[REPORT := report];
    var m := BuildManifest(items, contents, subject, spec, revision, predecessor, kit);
    assert Lists(kit.sorted(attachments.Keys), attachments.Keys);
    assert Describes(m, items, contents, kit);
    assert contents.Keys == attachments.Keys + {REPORT};
    PackIsFaithful(items, attachments, report, m, kit, zip);
    FaithfulPasses(Pack(m, attachments, report, kit, zip), m, attachments, contents, kit, limits, strict);
  }

  // ---- what acceptance means

  /** Two accepted archives with one manifest hold the same bytes under every
      name: nothing an accepted packet lists can be altered. */
  lemma {:induction false} ManifestFixesContent(a: Archive, b: Archive, limits: Limits, kit: Kit, name: string)
    requires Injective(kit)
    requires Verify(a, limits, false, kit).Some? && Verify(a, limits, false, kit) == Verify(b, limits, false, kit)
    ensures Names(a.entries) == Names(b.entries)
    ensures var m := Verify(a, limits, false, kit).value;
            name in m.entries ==>
              && Lookup(a.entries, name).Some? && Lookup(b.entries, name).Some?
              && Lookup(a.entries, name).value.data == Lookup(b.entries, name).value.data
  {
    var m := Verify(a, limits, false, kit).value;
    AcceptedIsSealed(a, limits, kit);
    AcceptedIsSealed(b, limits, kit);
    if name in m.entries { SameEntry(a, b, m, name, kit); }
  }

  lemma AcceptedIsSealed(a: Archive, limits: Limits, kit: Kit)
    requires Verify(a, limits, false, kit).Some?
    ensures Sealed(a, Verify(a, limits, false, kit).value, kit)
  {
  }

  lemma SameEntry(a: Archive, b: Archive, m: Manifest, name: string, kit: Kit)
    requires Injective(kit) && name in m.entries && EntryMatches(a, m, name, kit) && EntryMatches(b, m, name, kit)
    ensures Lookup(a.entries, name).value.data == Lookup(b.entries, name).value.data
  {
  }

  // ---- strictness and completeness

  predicate Complete(items: seq<Item>) {
    forall item <- items :: item.status == INCLUDED
  }

  /** The last item of a key decides what the packet records for it. */
  ghost predicate LastOfKey(items: seq<Item>, i: nat)
    requires i < |items|
  {
    forall j | i < j < |items| :: Key(items[j].identity) != Key(items[i].identity)
  }

  lemma {:induction false} LastDecides(items: seq<Item>, i: nat)
    requires i < |items| && LastOfKey(items, i)
    ensures Key(items[i].identity) in Completeness(items)
            && Completeness(items)[Key(items[i].identity)] == items[i].status
  {
    var n := |items| - 1;
    var front := items[..n];
    if i < n {
      assert Key(items[n].identity) != Key(items[i].identity);
      assert front[i] == items[i] && LastOfKey(front, i);
      LastDecides(front, i);
    }
  }

  lemma {:induction false} KeyHasLast(items: seq<Item>, k: string) returns (i: nat)
    requires k in Completeness(items)
    ensures i < |items| && LastOfKey(items, i) && Key(items[i].identity) == k
  {
    var n := |items| - 1;
    if k == Key(items[n].identity) {
      i := n;
    } else {
      i := KeyHasLast(items[..n], k);
      assert items[..n][i] == items[i];
      forall j | i < j < |items| ensures Key(items[j].identity) != k {
        if j < n { assert items[..n][j] == items[j]; }
      }
    }
  }

  /** Strict verification passes the items exactly when the last item of every
      key is included; items of other identities can hide behind it. */
  lemma {:induction false} StrictSeesLast(items: seq<Item>)
    ensures Passing(Completeness(items))
            <==> forall i | 0 <= i < |items| && LastOfKey(items, i) :: items[i].status == INCLUDED
  {
    var c := Completeness(items);
    if Passing(c) {
      forall i | 0 <= i < |items| && LastOfKey(items, i) ensures items[i].status == INCLUDED {
        LastDecides(items, i);
        assert c[Key(items[i].identity)] == INCLUDED;
      }
    }
    if forall i | 0 <= i < |items| && LastOfKey(items, i) :: items[i].status == INCLUDED {
      forall k | k in c ensures c[k] == INCLUDED {
        var i := KeyHasLast(items, k);
        LastDecides(items, i);
      }
    }
  }

  predicate NoBar(i: Identity) {
    '|' !in i.gate && '|' !in i.path && '|' !in i.dispatch && '|' !in i.captureId
  }

  lemma KeyInjective(a: Identity, b: Identity)
    requires NoBar(a) && NoBar(b) && Key(a) == Key(b)
    ensures a == b
  {
    var x, y := [a.gate, a.path, a.dispatch, a.captureId], [b.gate, b.path, b.dispatch, b.captureId];
    JoinInjective(x, y, '|');
    assert x[0] == y[0] && x[1] == y[1] && x[2] == y[2] && x[3] == y[3];
  }

  ghost predicate DistinctKeys(ids: seq<Identity>) {
    forall i, j | 0 <= i < j < |ids| :: Key(ids[i]) != Key(ids[j])
  }

  /** Items for a selection, one each and in order. */
  ghost predicate Carries(items: seq<Item>, ids: seq<Identity>) {
    |items| == |ids| && forall i | 0 <= i < |ids| :: items[i].identity == ids[i]
  }

  lemma DistinctKeysSuffice(ids: seq<Identity>, items: seq<Item>)
    requires DistinctKeys(ids) && Carries(items, ids)
    ensures Passing(Completeness(items)) <==> Complete(items)
  {
    StrictSeesLast(items);
    forall i | 0 <= i < |items| ensures LastOfKey(items, i) {}
  }

  /** An incomplete list that passes, for a selection in which `i` and `j` share a key. */
  lemma {:induction false} SharedKeyHides(ids: seq<Identity>, i: nat, j: nat) returns (items: seq<Item>)
    requires i < j < |ids| && Key(ids[i]) == Key(ids[j])
    ensures Carries(items, ids) && Passing(Completeness(items)) && !Complete(items)
  {
    items := AllBut(ids, i);
    assert !LastOfKey(items, i) by { assert Key(items[j].identity) == Key(items[i].identity); }
    StrictSeesLast(items);
    assert items[i] in items && "missing"[0] != INCLUDED[0];
  }

  /** Every item included but one. */
  ghost function AllBut(ids: seq<Identity>, i: nat): (items: seq<Item>)
    ensures Carries(items, ids)
    ensures forall k | 0 <= k < |items| :: items[k].status == if k == i then "missing" else INCLUDED
  {
    seq(|ids|, k requires 0 <= k < |ids| => Item(ids[k], if k == i then "missing" else INCLUDED, false, None))
  }

  /** Strict verification and the exporter's `complete` agree on every list of
      items for a selection exactly when its identities have distinct keys. */
  lemma StrictMeansComplete(ids: seq<Identity>)
    ensures DistinctKeys(ids)
            <==> forall items | Carries(items, ids) :: Passing(Completeness(items)) <==> Complete(items)
  {
    forall items | DistinctKeys(ids) && Carries(items, ids) ensures Passing(Completeness(items)) <==> Complete(items) {
      DistinctKeysSuffice(ids, items);
    }
    if !DistinctKeys(ids) {
      var i, j :| 0 <= i < j < |ids| && Key(ids[i]) == Key(ids[j]);
      var items := SharedKeyHides(ids, i, j);
    }
  }

  lemma NoBarDistinctKeys(ids: seq<Identity>)
    requires (forall i, j | 0 <= i < j < |ids| :: ids[i] != ids[j]) && forall id <- ids :: NoBar(id)
    ensures DistinctKeys(ids)
  {
    forall i, j | 0 <= i < j < |ids| ensures Key(ids[i]) != Key(ids[j]) {
      assert ids[i] in ids && ids[j] in ids;
      if Key(ids[i]) == Key(ids[j]) { KeyInjective(ids[i], ids[j]); }
    }
  }

  // ---- export and verification together

  lemma {:induction false} ItemsFollowSelection(artifacts: seq<Artifact>, ids: seq<Identity>, limits: Limits, kit: Kit,
                                                n: nat)
    requires n <= |ids| && !GatherN(artifacts, ids, limits, kit, n).failed
    ensures var items := GatherN(artifacts, ids, limits, kit, n).items;
            |items| == n && forall i | 0 <= i < n :: items[i].identity == ids[i]
  {
    if n > 0 {
      var g := GatherN(artifacts, ids, limits, kit, n - 1);
      ItemFollows(g, artifacts, ids[n - 1], limits, kit);
      ItemsFollowSelection(artifacts, ids, limits, kit, n - 1);
      OneMoreItem(g.items, GatherN(artifacts, ids, limits, kit, n).items, ids, n);
    }
  }

  lemma OneMoreItem(before: seq<Item>, items: seq<Item>, ids: seq<Identity>, n: nat)
    requires 0 < n <= |ids| && |before| == n - 1 && |items| == n && items[..n - 1] == before
             && items[n - 1].identity == ids[n - 1]
    requires forall i | 0 <= i < n - 1 :: before[i].identity == ids[i]
    ensures forall i | 0 <= i < n :: items[i].identity == ids[i]
  {
    forall i | 0 <= i < n ensures items[i].identity == ids[i] {
      if i < n - 1 { assert items[i] == items[..n - 1][i]; }
    }
  }

  lemma ItemFollows(g: Gathered, artifacts: seq<Artifact>, i: Identity, limits: Limits, kit: Kit)
    ensures var h := GatherOne(g, artifacts, i, limits, kit);
            !h.failed ==>
              && !g.failed && |h.items| == |g.items| + 1 && h.items[..|g.items|] == g.items
              && h.items[|g.items|].identity == i
  {
  }

  /** For every evidence set and selection the exporter gets through, its
      archive is accepted, with its own manifest, exactly within the verifier's
      limits. */
  lemma ExportVerifies(artifacts: seq<Artifact>, ids: seq<Identity>, gather: Limits, report: Bytes, subject: string,
                       spec: string, revision: nat, predecessor: Option<nat>, kit: Kit, zip: Zip, limits: Limits)
    requires Sorts(kit) && !GatherN(artifacts, ids, gather, kit, |ids|).failed
    ensures var g := GatherN(artifacts, ids, gather, kit, |ids|);
            var m := BuildManifest(g.items, g.contents[REPORT := report], subject, spec, revision, predecessor, kit);
            var a := Pack(m, g.contents, report, kit, zip);
            Verify(a, limits, false, kit) == if WithinLimits(a, limits) then Some(m) else None
  {
    var g := GatherN(artifacts, ids, gather, kit, |ids|);
    GatherStaysBudgeted(artifacts, ids, gather, kit, |ids|);
    VerifierAcceptsExport(g.items, g.contents, report, subject, spec, revision, predecessor, kit, zip, limits, false);
  }

  /** With selected identities of distinct keys, strict verification of an
      archive within limits accepts exactly the complete exports. */
  lemma StrictExportVerifies(artifacts: seq<Artifact>, ids: seq<Identity>, gather: Limits, report: Bytes,
                             subject: string, spec: string, revision: nat, predecessor: Option<nat>,
                             kit: Kit, zip: Zip, limits: Limits)
    requires Sorts(kit) && !GatherN(artifacts, ids, gather, kit, |ids|).failed && DistinctKeys(ids)
    ensures var g := GatherN(artifacts, ids, gather, kit, |ids|);
            var m := BuildManifest(g.items, g.contents[REPORT := report], subject, spec, revision, predecessor, kit);
            var a := Pack(m, g.contents, report, kit, zip);
            WithinLimits(a, limits) ==> (Verify(a, limits, true, kit).Some? <==> Complete(g.items))
  {
    var g := GatherN(artifacts, ids, gather, kit, |ids|);
    StrictExport(artifacts, ids, gather, report, subject, spec, revision, predecessor, kit, zip, limits);
    ItemsFollowSelection(artifacts, ids, gather, kit, |ids|);
    DistinctKeysSuffice(ids, g.items);
  }

  /** In particular for distinct identities free of `|`. */
  lemma BarFreeExportVerifies(artifacts: seq<Artifact>, ids: seq<Identity>, gather: Limits, report: Bytes,
                              subject: string, spec: string, revision: nat, predecessor: Option<nat>,
                              kit: Kit, zip: Zip, limits: Limits)
    requires Sorts(kit) && !GatherN(artifacts, ids, gather, kit, |ids|).failed
    requires (forall i, j | 0 <= i < j < |ids| :: ids[i] != ids[j]) && forall id <- ids :: NoBar(id)
    ensures var g := GatherN(artifacts, ids, gather, kit, |ids|);
            var m := BuildManifest(g.items, g.contents[REPORT := report], subject, spec, revision, predecessor, kit);
            var a := Pack(m, g.contents, report, kit, zip);
            WithinLimits(a, limits) ==> (Verify(a, limits, true, kit).Some? <==> Complete(g.items))
  {
    NoBarDistinctKeys(ids);
    StrictExportVerifies(artifacts, ids, gather, report, subject, spec, revision, predecessor, kit, zip, limits);
  }

  /** Whatever the selection, strict verification of an export within limits goes
      by the recorded completeness. */
  lemma StrictExport(artifacts: seq<Artifact>, ids: seq<Identity>, gather: Limits, report: Bytes,
                     subject: string, spec: string, revision: nat, predecessor: Option<nat>,
                     kit: Kit, zip: Zip, limits: Limits)
    requires Sorts(kit) && !GatherN(artifacts, ids, gather, kit, |ids|).failed
    ensures var g := GatherN(artifacts, ids, gather, kit, |ids|);
            var m := BuildManifest(g.items, g.contents[REPORT := report], subject, spec, revision, predecessor, kit);
            var a := Pack(m, g.contents, report, kit, zip);
            Verify(a, limits, true, kit)
            == if WithinLimits(a, limits) && Passing(Completeness(g.items)) then Some(m) else None
  {
    var g := GatherN(artifacts, ids, gather, kit, |ids|);
    GatherStaysBudgeted(artifacts, ids, gather, kit, |ids|);
    VerifierAcceptsExport(g.items, g.contents, report, subject, spec, revision, predecessor, kit, zip, limits, true);
  }

  // ---- an incomplete packet that passes

  const BARRED: Identity := Identity("g|p", "x/q", "d", "c")
  const HIDING: Identity := Identity("g", "p|x/q", "d", "c")
  const CAPTURED: Artifact := Artifact(HIDING, true, Permitted, true, false, None, Data("x"))

  lemma {:induction false} SharedKey()
    ensures Key(BARRED) == Key(HIDING) == "g|p|x/q|d|c" && BARRED != HIDING
  {
    assert ["g|p", "x/q", "d", "c"][1..] == ["x/q", "d", "c"] && ["g", "p|x/q", "d", "c"][1..] == ["p|x/q", "d", "c"];
    assert ["x/q", "d", "c"][1..] == ["d", "c"] && ["p|x/q", "d", "c"][1..] == ["d", "c"] && ["d", "c"][1..] == ["c"];
    assert Join(["d", "c"], '|') == "d|c";
    assert Join(["x/q", "d", "c"], '|') == "x/q|d|c" && Join(["p|x/q", "d", "c"], '|') == "p|x/q|d|c";
    assert |"g|p"| != |"g"|;
  }

  lemma HidingName(used: set<string>)
    requires used == {}
    ensures NameFor(HIDING, used) == "attachments/q" && !NameRefused(HIDING, used)
  {
    assert "p|x/q" == "p|x" + ['/'] + "q";
    SplitPeels("p|x", "q", '/');
    SplitWhole("q", '/');
    assert Split("p|x/q", '/') == ["p|x"] + ["q"] == ["p|x", "q"];
    assert ["p|x", "q"][1..] == ["q"] && ["q"][1..] == [];
    assert KeepParts(["q"]) == ["q"] && KeepParts(["p|x", "q"]) == ["p|x", "q"];
    assert BaseName("p|x/q") == "q";
  }

  lemma {:induction false} GatherHiding(limits: Limits, kit: Kit)
    requires limits.maxTotal >= 1
    ensures var items := [Item(BARRED, "missing", false, None), Item(HIDING, INCLUDED, false, Some("attachments/q"))];
            GatherN([CAPTURED], [BARRED, HIDING], limits, kit, 2)
            == Gathered(items, map["attachments/q" := "x"], 1, false)
  {
    SharedKey();
    var ids, artifacts := [BARRED, HIDING], [CAPTURED];
    var start := GatherN(artifacts, ids, limits, kit, 0);
    assert artifacts[1..] == [];
    assert Find(artifacts, BARRED).None? && Find(artifacts, HIDING) == Some(CAPTURED);
    var first := GatherN(artifacts, ids, limits, kit, 1);
    assert first == GatherOne(start, artifacts, BARRED, limits, kit);
    assert first == Gathered([Item(BARRED, "missing", false, None)], map[], 0, false);
    assert first.contents.Keys == {};
    HidingName(first.contents.Keys);
    assert SourceStatus(CAPTURED, kit) == (INCLUDED, Some("x"));
    assert GatherN(artifacts, ids, limits, kit, 2) == GatherOne(first, artifacts, HIDING, limits, kit);
  }

  /** An export with a missing item that strict verification accepts: nothing was
      captured for the first identity, and the second one has its key. */
  lemma BarHidesIncomplete(gather: Limits, report: Bytes, subject: string, spec: string, revision: nat,
                           predecessor: Option<nat>, kit: Kit, zip: Zip, limits: Limits)
    requires Sorts(kit) && gather.maxTotal >= 1
    ensures var g := GatherN([CAPTURED], [BARRED, HIDING], gather, kit, 2);
            var m := BuildManifest(g.items, g.contents[REPORT := report], subject, spec, revision, predecessor, kit);
            var a := Pack(m, g.contents, report, kit, zip);
            && !g.failed && !Complete(g.items)
            && (WithinLimits(a, limits) ==> Verify(a, limits, true, kit) == Some(m))
  {
    GatherHiding(gather, kit);
    SharedKey();
    var items := GatherN([CAPTURED], [BARRED, HIDING], gather, kit, 2).items;
    assert !LastOfKey(items, 0) by { assert Key(items[1].identity) == Key(items[0].identity); }
    StrictSeesLast(items);
    assert items[0] in items && "missing"[0] != INCLUDED[0];
    StrictExport([CAPTURED], [BARRED, HIDING], gather, report, subject, spec, revision, predecessor, kit, zip, limits);
  }

  // ---- the verifier's own loop

  function NamedSizes(entries: seq<ZipEntry>, names: seq<string>): nat {
    if names == [] then 0
    else
      var found := Lookup(entries, names[|names| - 1]);
      NamedSizes(entries, names[..|names| - 1]) + (if found.Some? then found.value.size else 0)
  }

  lemma {:induction false} SizesWithout(entries: seq<ZipEntry>, i: nat)
    requires i < |entries|
    ensures Sizes(entries) == entries[i].size + Sizes(entries[..i] + entries[i + 1..])
  {
    if i == 0 {
      assert entries[..0] + entries[1..] == entries[1..];
    } else {
      SizesWithout(entries[1..], i - 1);
      var rest := entries[..i] + entries[i + 1..];
      assert rest[1..] == entries[1..][..i - 1] + entries[1..][i..];
    }
  }

  lemma {:induction false} LookupWithout(entries: seq<ZipEntry>, i: nat, name: string)
    requires i < |entries| && entries[i].name != name
    ensures Lookup(entries[..i] + entries[i + 1..], name) == Lookup(entries, name)
  {
    var rest := entries[..i] + entries[i + 1..];
    if i == 0 {
      assert rest == entries[1..];
    } else {
      assert rest[0] == entries[0];
      assert rest[1..] == entries[1..][..i - 1] + entries[1..][i..];
      if entries[0].name != name { LookupWithout(entries[1..], i - 1, name); }
    }
  }

  lemma {:induction false} NamedWithout(entries: seq<ZipEntry>, i: nat, names: seq<string>)
    requires i < |entries| && entries[i].name !in names
    ensures NamedSizes(entries[..i] + entries[i + 1..], names) == NamedSizes(entries, names)
  {
    if names != [] {
      NamedWithout(entries, i, names[..|names| - 1]);
      LookupWithout(entries, i, names[|names| - 1]);
    }
  }

  /** The members a manifest lists cannot outweigh the whole archive, so the
      verifier's running total never trips. */
  lemma {:induction false} RunningTotalFits(entries: seq<ZipEntry>, names: seq<string>)
    requires forall i, j | 0 <= i < j < |names| :: names[i] != names[j]
    ensures NamedSizes(entries, names) <= Sizes(entries)
    decreases |names|
  {
    if names != [] {
      var last := names[|names| - 1];
      var front := names[..|names| - 1];
      LookupFinds(entries, last);
      if Lookup(entries, last).None? {
        RunningTotalFits(entries, front);
      } else {
        var i := FirstNamed(entries, last);
        SizesWithout(entries, i);
        NamedWithout(entries, i, front);
        RunningTotalFits(entries[..i] + entries[i + 1..], front);
      }
    }
  }

  lemma {:induction false} FirstNamed(entries: seq<ZipEntry>, name: string) returns (i: nat)
    requires Lookup(entries, name).Some?
    ensures i < |entries| && entries[i] == Lookup(entries, name).value && entries[i].name == name
  {
    if entries[0].name == name {
      i := 0;
    } else {
      i := FirstNamed(entries[1..], name);
      i := i + 1;
    }
  }

  lemma LastNamed(entries: seq<ZipEntry>, names: seq<string>, k: nat)
    requires k < |names|
    ensures NamedSizes(entries, names[..k + 1])
            == NamedSizes(entries, names[..k])
               + if Lookup(entries, names[k]).Some? then Lookup(entries, names[k]).value.size else 0
  {
    assert names[..k + 1][..k] == names[..k];
  }

  /** `verify_packet`: every check in turn; None is a `PacketError`. */
  method VerifyPacket(a: Archive, limits: Limits, strict: bool, kit: Kit) returns (r: Option<Manifest>)
    requires Sorts(kit)
    ensures r == Verify(a, limits, strict, kit)
  {
    if !WithinLimits(a, limits) || !DistinctNames(a.entries) { return None; }
    var safe := AllSafe(a.entries);
    if !safe { return None; }
    var inside := Opened(a, kit);
    if inside.None? { return None; }
    var m := inside.value;
    var ok := CheckSeal(a, m, limits, kit);
    if !ok { return None; }
    if strict && !AllIncluded(m) { return None; }
    return Some(m);
  }

  method CheckSeal(a: Archive, m: Manifest, limits: Limits, kit: Kit) returns (ok: bool)
    requires Sorts(kit) && Sizes(a.entries) <= limits.maxExpanded
    ensures ok <==> Sealed(a, m, kit)
  {
    if m.schema != 1 || m.format != FORMAT { return false; }
    if Names(a.entries) != REQUIRED + m.entries.Keys || REPORT !in m.entries { return false; }
    ok := CheckEntries(a, m, limits, kit);
    ok := ok && kit.hash(OfBytes(Concat(PayloadOf(a, m), kit.sorted(m.entries.Keys)))) == m.contentDigest;
  }

  method AllSafe(entries: seq<ZipEntry>) returns (ok: bool)
    ensures ok <==> !exists e <- entries :: !SafeName(e.name)
  {
    for i := 0 to |entries|
      invariant forall k | 0 <= k < i :: SafeName(entries[k].name)
    {
      if !SafeName(entries[i].name) { return false; }
    }
    ok := true;
  }

  /** The loop over the manifest's entries, with its running expanded total. */
  method CheckEntries(a: Archive, m: Manifest, limits: Limits, kit: Kit) returns (ok: bool)
    requires Sorts(kit) && Sizes(a.entries) <= limits.maxExpanded && m.entries.Keys <= Names(a.entries)
    ensures ok <==> forall name <- m.entries :: EntryMatches(a, m, name, kit)
  {
    var order := kit.sorted(m.entries.Keys);
    assert Lists(order, m.entries.Keys);
    var expanded := 0;
    assert order[..0] == [];
    for i := 0 to |order|
      invariant expanded == NamedSizes(a.entries, order[..i])
      invariant forall k | 0 <= k < i :: order[k] in m.entries && EntryMatches(a, m, order[k], kit)
    {
      var name := order[i];
      assert name in order;
      LookupFinds(a.entries, name);
      LastNamed(a.entries, order, i);
      expanded := expanded + Lookup(a.entries, name).value.size;
      RunningTotalFits(a.entries, order[..i + 1]);
      if expanded > limits.maxExpanded { return false; }
      if !EntryMatches(a, m, name, kit) { return false; }
    }
    forall name | name in m.entries ensures EntryMatches(a, m, name, kit) {
      assert name in order;
    }
    ok := true;
  }

  /** The export loop over the selection. */
  method GatherSelection(artifacts: seq<Artifact>, ids: seq<Identity>, limits: Limits, kit: Kit)
    returns (failed: bool, items: seq<Item>, contents: map<string, Bytes>)
    ensures var g := GatherN(artifacts, ids, limits, kit, |ids|);
            failed == g.failed && (!failed ==> items == g.items && contents == g.contents)
    ensures !failed ==> Lists(Attached(items), contents.Keys) && Lengths(contents, Attached(items)) <= limits.maxTotal
  {
    GatherStaysBudgeted(artifacts, ids, limits, kit, |ids|);
    var total: nat := 0;
    items, contents := [], map[];
    for i := 0 to |ids|
      invariant GatherN(artifacts, ids, limits, kit, i) == Gathered(items, contents, total, false)
    {
      var id := ids[i];
      if Ambiguous(artifacts, id) {
        FailureStays(artifacts, ids, limits, kit, i + 1, |ids|);
        return true, items, contents;
      }
      var found := Find(artifacts, id);
      if found.None? {
        items := items + [Item(id, "missing", false, None)];
      } else {
        var (status, data) := SourceStatus(found.value, kit);
        if data.None? {
          items := items + [Item(id, status, found.value.opaqueKind, None)];
        } else {
          if NameRefused(id, contents.Keys) {
            FailureStays(artifacts, ids, limits, kit, i + 1, |ids|);
            return true, items, contents;
          }
          var name := NameFor(id, contents.Keys);
          total := total + |data.value|;
          if total > limits.maxTotal {
            items := items + [Item(id, "oversized", found.value.opaqueKind, None)];
          } else {
            contents := contents[name := data.value];
            items := items + [Item(id, INCLUDED, found.value.opaqueKind, Some(name))];
          }
        }
      }
    }
    failed := false;
  }

  lemma FailedStays(g: Gathered, artifacts: seq<Artifact>, i: Identity, limits: Limits, kit: Kit)
    requires g.failed
    ensures GatherOne(g, artifacts, i, limits, kit) == g
  {
  }

  lemma {:induction false} FailureStays(artifacts: seq<Artifact>, ids: seq<Identity>, limits: Limits, kit: Kit, k: nat,
                                        n: nat)
    requires k <= n <= |ids| && GatherN(artifacts, ids, limits, kit, k).failed
    ensures GatherN(artifacts, ids, limits, kit, n).failed
    decreases n - k
  {
    if k < n {
      FailedStays(GatherN(artifacts, ids, limits, kit, k), artifacts, ids[k], limits, kit);
      FailureStays(artifacts, ids, limits, kit, k + 1, n);
    }
  }
}
