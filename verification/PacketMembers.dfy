/** What the verifier accepts and the exporter packs, member by member. */
module PacketMembers {
  import opened Wrappers
  import opened Text
  import opened Packets
  import opened PacketArchives

  // ---- words of the statements

  ghost predicate Member(a: Archive, name: string, data: Payload) {
    exists e :: e in a.entries && e.name == name && e.data == data
  }

  ghost function Total(sizes: seq<nat>): nat {
    if sizes == [] then 0 else sizes[0] + Total(sizes[1..])
  }

  ghost function Flat(pieces: seq<Bytes>): Bytes {
    if pieces == [] then "" else pieces[0] + Flat(pieces[1..])
  }

  /** The contents in the order of `names`, one piece a name. */
  ghost predicate PiecesOf(a: Archive, names: seq<string>, pieces: seq<Bytes>) {
    |pieces| == |names| && forall i | 0 <= i < |names| :: Member(a, names[i], Raw(pieces[i]))
  }

  ghost function SizeList(entries: seq<ZipEntry>): seq<nat> {
    seq(|entries|, i requires 0 <= i < |entries| => entries[i].size)
  }

  ghost function PackedList(entries: seq<ZipEntry>): seq<nat> {
    seq(|entries|, i requires 0 <= i < |entries| => entries[i].packed)
  }

  ghost predicate Fits(a: Archive, limits: Limits) {
    && a.fileSize <= limits.maxArchive && |a.entries| <= limits.maxEntries
    && Total(PackedList(a.entries)) <= limits.maxArchive
    && Total(SizeList(a.entries)) <= limits.maxExpanded
  }

  /** No name twice, none absolute, upward, empty or a directory's. */
  ghost predicate CleanNames(a: Archive) {
    && (forall i, j | 0 <= i < |a.entries| && 0 <= j < |a.entries| && i != j :: a.entries[i].name != a.entries[j].name)
    && (forall e | e in a.entries ::
          && e.name != "" && e.name[0] != '/' && e.name[|e.name| - 1] != '/'
          && ".." !in Split(e.name, '/'))
  }

  /** A listed member holds bytes of the recorded size and digest. */
  ghost predicate Listed(a: Archive, m: Manifest, name: string, kit: Kit)
    requires name in m.entries
  {
    exists bytes :: Member(a, name, Raw(bytes))
                    && |bytes| == m.entries[name].size && kit.hash(OfBytes(bytes)) == m.entries[name].sha
  }

  ghost predicate OnlyListed(a: Archive, m: Manifest) {
    forall e | e in a.entries :: e.name == "manifest.json" || e.name == "manifest.sha256" || e.name in m.entries
  }

  /** The members are the three required ones and the listed ones. */
  ghost predicate AsListed(a: Archive, m: Manifest, kit: Kit) {
    && Member(a, "manifest.json", ManifestJson(m))
    && Member(a, "manifest.sha256", Hex(kit.hash(OfManifest(m))))
    && "report.md" in m.entries
    && OnlyListed(a, m)
    && (forall name | name in m.entries :: Listed(a, m, name, kit))
  }

  /** The listed contents joined have the recorded digest. */
  ghost predicate Joins(a: Archive, m: Manifest, kit: Kit) {
    exists pieces :: PiecesOf(a, kit.sorted(m.entries.Keys), pieces)
                     && kit.hash(OfBytes(Flat(pieces))) == m.contentDigest
  }

  /** What an accepted archive is, with the manifest it is accepted for. */
  ghost predicate Acceptable(a: Archive, m: Manifest, limits: Limits, strict: bool, kit: Kit) {
    && Fits(a, limits) && CleanNames(a) && AsListed(a, m, kit)
    && m.schema == 1 && m.format == "ergane-attestation-story"
    && Joins(a, m, kit)
    && (strict ==> forall key | key in m.completeness :: m.completeness[key] == "included")
  }

  // ---- the verifier's checks in these words

  lemma {:induction false} SumsAre(entries: seq<ZipEntry>)
    ensures Sizes(entries) == Total(SizeList(entries)) && Packed(entries) == Total(PackedList(entries))
  {
    if entries != [] {
      SumsAre(entries[1..]);
      assert SizeList(entries)[1..] == SizeList(entries[1..]);
      assert PackedList(entries)[1..] == PackedList(entries[1..]);
    }
  }

  lemma FitsMeans(a: Archive, limits: Limits)
    ensures WithinLimits(a, limits) <==> Fits(a, limits)
  {
    SumsAre(a.entries);
  }

  lemma NamesMean(a: Archive)
    ensures CleanNames(a) <==> DistinctNames(a.entries) && !exists e <- a.entries :: !SafeName(e.name)
  {
    forall e | e in a.entries ensures ".." in Parts(e.name) <==> ".." in Split(e.name, '/') {
      KeptParts(Split(e.name, '/'), "..");
    }
  }

  lemma {:induction false} MemberIsFound(a: Archive, name: string, data: Payload)
    requires DistinctNames(a.entries)
    ensures Member(a, name, data) <==> Lookup(a.entries, name).Some? && Lookup(a.entries, name).value.data == data
  {
    LookupFinds(a.entries, name);
    if Member(a, name, data) {
      var i :| 0 <= i < |a.entries| && a.entries[i].name == name && a.entries[i].data == data;
      LookupAt(a.entries, i);
    }
  }

  lemma {:induction false} OpenedMeans(a: Archive, m: Manifest, kit: Kit)
    requires DistinctNames(a.entries)
    ensures Opened(a, kit) == Some(m)
            <==> Member(a, "manifest.json", ManifestJson(m))
                 && Member(a, "manifest.sha256", Hex(kit.hash(OfManifest(m))))
  {
    MemberIsFound(a, "manifest.json", ManifestJson(m));
    MemberIsFound(a, "manifest.sha256", Hex(kit.hash(OfManifest(m))));
  }

  lemma {:induction false} ListedMeans(a: Archive, m: Manifest, name: string, kit: Kit)
    requires DistinctNames(a.entries) && name in m.entries
    ensures EntryMatches(a, m, name, kit) <==> Listed(a, m, name, kit)
  {
    var found := Lookup(a.entries, name);
    if found.Some? && found.value.data.Raw? { MemberIsFound(a, name, found.value.data); }
    forall bytes | Member(a, name, Raw(bytes)) ensures found.Some? && found.value.data == Raw(bytes) {
      MemberIsFound(a, name, Raw(bytes));
    }
  }

  ghost predicate HasNames(a: Archive, names: set<string>) { forall n | n in names :: n in Names(a.entries) }

  lemma {:induction false} NamesCover(a: Archive, m: Manifest)
    requires HasNames(a, {"manifest.json", "manifest.sha256"}) && HasNames(a, m.entries.Keys)
    ensures Names(a.entries) == REQUIRED + m.entries.Keys && REPORT in m.entries
            <==> OnlyListed(a, m) && "report.md" in m.entries
  {
    if "report.md" in m.entries {
      var wanted := REQUIRED + m.entries.Keys;
      forall e | e in a.entries
        ensures e.name in Names(a.entries)
        ensures e.name in wanted
                <==> (e.name == "manifest.json" || e.name == "manifest.sha256" || e.name in m.entries)
      {
      }
      assert HasNames(a, wanted);
      if OnlyListed(a, m) { NamesAre(a.entries, wanted); }
    }
  }

  /** The contents joined are the pieces joined. */
  lemma {:induction false} ConcatIsFlat(a: Archive, contents: map<string, Bytes>, names: seq<string>,
                                        pieces: seq<Bytes>)
    requires |pieces| == |names|
    requires forall i | 0 <= i < |names| :: names[i] in contents && contents[names[i]] == pieces[i]
    ensures Concat(contents, names) == Flat(pieces)
  {
    if names != [] { ConcatIsFlat(a, contents, names[1..], pieces[1..]); }
  }

  lemma {:induction false} PayloadAt(a: Archive, m: Manifest, name: string, bytes: Bytes)
    requires DistinctNames(a.entries) && name in m.entries
    ensures Member(a, name, Raw(bytes)) <==> name in PayloadOf(a, m) && PayloadOf(a, m)[name] == bytes
  {
    MemberIsFound(a, name, Raw(bytes));
  }

  lemma {:induction false} PiecesMean(a: Archive, m: Manifest, names: seq<string>, kit: Kit)
    requires DistinctNames(a.entries) && Lists(names, m.entries.Keys)
    requires forall name | name in m.entries :: name in PayloadOf(a, m)
    ensures forall pieces | PiecesOf(a, names, pieces) :: Flat(pieces) == Concat(PayloadOf(a, m), names)
    ensures exists pieces :: PiecesOf(a, names, pieces)
  {
    var contents := PayloadOf(a, m);
    forall i | 0 <= i < |names| ensures names[i] in m.entries { assert names[i] in names; }
    forall pieces | PiecesOf(a, names, pieces) ensures Flat(pieces) == Concat(contents, names) {
      forall i | 0 <= i < |names| ensures names[i] in contents && contents[names[i]] == pieces[i] {
        PayloadAt(a, m, names[i], pieces[i]);
      }
      ConcatIsFlat(a, contents, names, pieces);
    }
    var pieces := seq(|names|, i requires 0 <= i < |names| => contents[names[i]]);
    forall i | 0 <= i < |names| ensures Member(a, names[i], Raw(pieces[i])) {
      PayloadAt(a, m, names[i], pieces[i]);
    }
    assert PiecesOf(a, names, pieces);
  }

  lemma {:induction false} ListedHasPayload(a: Archive, m: Manifest, name: string, kit: Kit)
    requires DistinctNames(a.entries) && name in m.entries && EntryMatches(a, m, name, kit)
    ensures name in PayloadOf(a, m) && name in Names(a.entries)
  {
    LookupFinds(a.entries, name);
  }

  lemma {:induction false} JoinsMean(a: Archive, m: Manifest, kit: Kit)
    requires DistinctNames(a.entries) && Sorts(kit)
    requires forall name | name in m.entries :: EntryMatches(a, m, name, kit)
    ensures Joins(a, m, kit)
            <==> kit.hash(OfBytes(Concat(PayloadOf(a, m), kit.sorted(m.entries.Keys)))) == m.contentDigest
  {
    var names := kit.sorted(m.entries.Keys);
    assert Lists(names, m.entries.Keys);
    forall name | name in m.entries ensures name in PayloadOf(a, m) { ListedHasPayload(a, m, name, kit); }
    PiecesMean(a, m, names, kit);
    var pieces :| PiecesOf(a, names, pieces);
    assert Flat(pieces) == Concat(PayloadOf(a, m), names);
  }

  ghost predicate AllMatch(a: Archive, m: Manifest, kit: Kit) {
    forall name | name in m.entries :: EntryMatches(a, m, name, kit)
  }

  lemma {:induction false} AllListed(a: Archive, m: Manifest, kit: Kit)
    requires DistinctNames(a.entries)
    ensures AllMatch(a, m, kit) <==> forall name | name in m.entries :: Listed(a, m, name, kit)
    ensures AllMatch(a, m, kit) ==> HasNames(a, m.entries.Keys)
  {
    forall name | name in m.entries
      ensures EntryMatches(a, m, name, kit) <==> Listed(a, m, name, kit)
      ensures EntryMatches(a, m, name, kit) ==> name in Names(a.entries)
    {
      ListedMeans(a, m, name, kit);
      LookupFinds(a.entries, name);
    }
  }

  lemma {:induction false} OpenedHasNames(a: Archive, m: Manifest, kit: Kit)
    requires Opened(a, kit) == Some(m)
    ensures HasNames(a, {"manifest.json", "manifest.sha256"})
  {
    LookupFinds(a.entries, "manifest.json");
    LookupFinds(a.entries, "manifest.sha256");
  }

  lemma {:induction false} ListMeans(a: Archive, m: Manifest, kit: Kit)
    requires DistinctNames(a.entries) && Opened(a, kit) == Some(m)
    ensures AsListed(a, m, kit)
            <==> Names(a.entries) == REQUIRED + m.entries.Keys && REPORT in m.entries && AllMatch(a, m, kit)
  {
    OpenedMeans(a, m, kit);
    OpenedHasNames(a, m, kit);
    AllListed(a, m, kit);
    if AllMatch(a, m, kit) { NamesCover(a, m); }
  }

  lemma {:induction false} SealMeans(a: Archive, m: Manifest, kit: Kit)
    requires DistinctNames(a.entries) && Sorts(kit) && Opened(a, kit) == Some(m)
    ensures Sealed(a, m, kit)
            <==> AsListed(a, m, kit) && m.schema == 1 && m.format == "ergane-attestation-story" && Joins(a, m, kit)
  {
    ListMeans(a, m, kit);
    if AsListed(a, m, kit) { JoinsMean(a, m, kit); }
  }

  /** The verifier accepts an archive for a manifest exactly when: it is within
      the limits; no name is doubled or unsafe; it carries that manifest and that
      manifest's digest; its members are those and the listed ones, the report
      among them; each listed one has the recorded size and digest, and all of
      them joined in order the content digest; schema and format are this
      version's; and, under `strict`, every recorded status is `included`. */
  lemma {:induction false} AcceptsExactly(a: Archive, m: Manifest, limits: Limits, strict: bool, kit: Kit)
    requires Sorts(kit)
    ensures Verify(a, limits, strict, kit) == Some(m) <==> Acceptable(a, m, limits, strict, kit)
  {
    FitsMeans(a, limits);
    NamesMean(a);
    if CleanNames(a) {
      OpenedMeans(a, m, kit);
      if Opened(a, kit) == Some(m) { SealMeans(a, m, kit); }
    }
  }

  // ---- what the exporter packs

  /** A packed archive has the manifest, its digest, the report and the
      attachments, each at its own size, and nothing else. */
  lemma PackedMembers(m: Manifest, attachments: map<string, Bytes>, report: Bytes, kit: Kit, zip: Zip, e: ZipEntry)
    requires Lists(kit.sorted(attachments.Keys), attachments.Keys)
    ensures var a := Pack(m, attachments, report, kit, zip);
            && a.fileSize == zip.fileSize
            && (e in a.entries
                <==> e == ZipEntry("manifest.json", ManifestJson(m), zip.manifestSize, zip.packed("manifest.json"))
                     || e == ZipEntry("manifest.sha256", Hex(kit.hash(OfManifest(m))), 64,
                                      zip.packed("manifest.sha256"))
                     || e == ZipEntry("report.md", Raw(report), |report|, zip.packed("report.md"))
                     || (e.name in attachments
                         && e == ZipEntry(e.name, Raw(attachments[e.name]), |attachments[e.name]|, zip.packed(e.name))))
  {
    var a := Pack(m, attachments, report, kit, zip);
    Attachments(attachments, kit, zip, e);
    PackIs(m, attachments, report, kit, zip);
    if e in a.entries {
      var k :| 0 <= k < |a.entries| && a.entries[k] == e;
      if k >= 3 { assert e == RawEntries(attachments, kit, zip)[k - 3]; }
    }
  }

  ghost function RawEntries(attachments: map<string, Bytes>, kit: Kit, zip: Zip): seq<ZipEntry> {
    var order := kit.sorted(attachments.Keys);
    seq(|order|, i requires 0 <= i < |order| => RawEntry(attachments, order[i], zip))
  }

  lemma PackIs(m: Manifest, attachments: map<string, Bytes>, report: Bytes, kit: Kit, zip: Zip)
    ensures Pack(m, attachments, report, kit, zip).entries
            == [ZipEntry("manifest.json", ManifestJson(m), zip.manifestSize, zip.packed("manifest.json")),
                ZipEntry("manifest.sha256", Hex(kit.hash(OfManifest(m))), 64, zip.packed("manifest.sha256")),
                ZipEntry("report.md", Raw(report), |report|, zip.packed("report.md"))]
               + RawEntries(attachments, kit, zip)
  {
  }

  lemma Attachments(attachments: map<string, Bytes>, kit: Kit, zip: Zip, e: ZipEntry)
    requires Lists(kit.sorted(attachments.Keys), attachments.Keys)
    ensures e in RawEntries(attachments, kit, zip)
            <==> e.name in attachments
                 && e == ZipEntry(e.name, Raw(attachments[e.name]), |attachments[e.name]|, zip.packed(e.name))
  {
    var order := kit.sorted(attachments.Keys);
    var raws := RawEntries(attachments, kit, zip);
    forall i | 0 <= i < |order| ensures order[i] in attachments && raws[i] == RawEntry(attachments, order[i], zip) {
      assert order[i] in order;
    }
    if e.name in attachments {
      var i :| 0 <= i < |order| && order[i] == e.name;
      assert raws[i] in raws;
    }
  }

  /** The first item that has this archive name. */
  ghost predicate FirstOf(items: seq<Item>, name: string, i: nat) {
    i < |items| && items[i].archiveName == Some(name) && forall j | 0 <= j < i :: items[j].archiveName != Some(name)
  }

  lemma {:induction false} OwnerMeans(items: seq<Item>, name: string)
    ensures var owner := Owner(items, name);
            && (owner.None? <==> forall j | 0 <= j < |items| :: items[j].archiveName != Some(name))
            && (forall i: nat | FirstOf(items, name, i) :: owner == Some(items[i]))
  {
    if items != [] && items[0].archiveName != Some(name) {
      var rest := items[1..];
      OwnerMeans(rest, name);
      forall j | 0 <= j < |items| ensures j > 0 ==> items[j] == rest[j - 1] {
      }
      forall i: nat | FirstOf(items, name, i) ensures Owner(items, name) == Some(items[i]) {
        assert FirstOf(rest, name, i - 1);
      }
    }
  }

  /** What the manifest says of one content: its size, its digest, and the
      identity and kind of the first item attached under its name. */
  lemma ManifestLists(items: seq<Item>, contents: map<string, Bytes>, subject: string, spec: string,
                      revision: nat, predecessor: Option<nat>, kit: Kit, name: string)
    ensures var m := BuildManifest(items, contents, subject, spec, revision, predecessor, kit);
            && (name in m.entries <==> name in contents)
            && (name in contents ==>
                  var meta := m.entries[name];
                  && meta.size == |contents[name]| && meta.sha == kit.hash(OfBytes(contents[name]))
                  && (forall i: nat | FirstOf(items, name, i) ::
                        meta.identity == Some(items[i].identity) && meta.opaqueKind == items[i].opaqueKind)
                  && ((forall j | 0 <= j < |items| :: items[j].archiveName != Some(name)) ==>
                        meta.identity.None? && !meta.opaqueKind))
  {
    OwnerMeans(items, name);
  }

  /** And of the packet: whose it is, its place in the history, the digest of all
      contents in order, and for each key the status of its last item. */
  lemma ManifestSays(items: seq<Item>, contents: map<string, Bytes>, subject: string, spec: string,
                     revision: nat, predecessor: Option<nat>, kit: Kit, pieces: seq<Bytes>, key: string)
    requires var names := kit.sorted(contents.Keys);
             && Lists(names, contents.Keys) && |pieces| == |names|
             && forall i | 0 <= i < |names| :: names[i] in contents && contents[names[i]] == pieces[i]
    ensures var m := BuildManifest(items, contents, subject, spec, revision, predecessor, kit);
            && m.schema == 1 && m.format == "ergane-attestation-story"
            && m.subject == subject && m.spec == spec && m.revision == revision && m.predecessor == predecessor
            && m.contentDigest == kit.hash(OfBytes(Flat(pieces)))
            && (key in m.completeness
                <==> exists i :: 0 <= i < |items| && LastOfKey(items, i) && Key(items[i].identity) == key)
            && (forall i | 0 <= i < |items| && LastOfKey(items, i) && Key(items[i].identity) == key ::
                  key in m.completeness && m.completeness[key] == items[i].status)
  {
    ConcatIsFlat(Archive([], 0), contents, kit.sorted(contents.Keys), pieces);
    forall i | 0 <= i < |items| && LastOfKey(items, i) && Key(items[i].identity) == key
      ensures key in Completeness(items) && Completeness(items)[key] == items[i].status
    {
      LastDecides(items, i);
    }
    if key in Completeness(items) { var i := KeyHasLast(items, key); }
  }

  /** A key is the four parts of the identity with bars between. */
  lemma KeyIs(i: Identity)
    ensures Key(i) == i.gate + "|" + i.path + "|" + i.dispatch + "|" + i.captureId
  {
    var parts := [i.gate, i.path, i.dispatch, i.captureId];
    assert parts[1..] == [i.path, i.dispatch, i.captureId];
    assert [i.path, i.dispatch, i.captureId][1..] == [i.dispatch, i.captureId];
    assert [i.dispatch, i.captureId][1..] == [i.captureId];
    assert Join([i.captureId], '|') == i.captureId;
    assert Join([i.dispatch, i.captureId], '|') == i.dispatch + "|" + i.captureId;
    assert Join([i.path, i.dispatch, i.captureId], '|') == i.path + "|" + (i.dispatch + "|" + i.captureId);
  }

  // ---- what the exporter takes in

  lemma {:induction false} MentionsMeans(s: string, word: string)
    ensures Mentions(s, word) <==> exists i :: 0 <= i <= |s| && word <= s[i..]
  {
    assert s[0..] == s;
    if !(word <= s) && s != "" {
      MentionsMeans(s[1..], word);
      if exists i :: 0 <= i <= |s| && word <= s[i..] {
        var i :| 0 <= i <= |s| && word <= s[i..];
        assert s[1..][i - 1..] == s[i..];
      }
      if Mentions(s[1..], word) {
        var i :| 0 <= i <= |s[1..]| && word <= s[1..][i..];
        assert s[1..][i..] == s[i + 1..];
      }
    }
  }

  /** Some part of the path is this word. */
  ghost predicate Within(path: string, word: string) { exists i :: 0 <= i <= |path| && word <= path[i..] }

  ghost predicate Transcript(a: Artifact) {
    a.opaqueKind && (Within(a.identity.path, "codex") || Within(a.identity.path, "session")
                     || Within(a.identity.path, "rollout"))
  }

  /** A capture's bytes are taken exactly when it was permitted and kept, is no
      raw transcript, could be read within the limit, and has the digest recorded
      for it, if any. The refusals have one word each. */
  lemma SourceMeans(a: Artifact, kit: Kit)
    ensures var (status, data) := SourceStatus(a, kit);
            var kept := a.present && a.status.Permitted? && a.stored;
            var altered := a.fetched.Data? && a.digest.Some? && a.digest.value != kit.hash(OfBytes(a.fetched.bytes));
            && (data.Some? <==> kept && !Transcript(a) && a.fetched.Data? && !altered)
            && (data.Some? ==> data.value == a.fetched.bytes && status == "included")
            && (!a.present || (a.status.Permitted? && !a.stored) ==> status == "missing")
            && (a.present ==> match a.status
                              case Permitted => true
                              case Absent => status == "absent"
                              case Oversized => status == "oversized"
                              case Unsafe => status == "unsafe"
                              case Unstable => status == "unstable"
                              case Unavailable => status == "unavailable")
            && (kept && (Transcript(a) || a.fetched.Unusable? || altered) ==> status == "refused")
            && (kept && !Transcript(a) && a.fetched.TooLarge? ==> status == "oversized")
  {
    MentionsMeans(a.identity.path, "codex");
    MentionsMeans(a.identity.path, "session");
    MentionsMeans(a.identity.path, "rollout");
  }

  /** The name of a path: what follows its last slash, trailing slashes and dots
      apart. These equations fix it for every path. */
  lemma {:induction false} BaseNameIs(dir: string, name: string)
    requires '/' !in name
    ensures BaseName("") == ""
    ensures name != "" && name != "." ==> BaseName(name) == name && BaseName(dir + "/" + name) == name
    ensures name == "" || name == "." ==> BaseName(name) == "" && BaseName(dir + "/" + name) == BaseName(dir)
  {
    SplitWhole(name, '/');
    SplitAppends(dir, name);
    KeepAppends(Split(dir, '/'), name);
    assert [name][1..] == [];
    assert KeepParts([name]) == if name == "" || name == "." then [] else [name];
    assert dir + "/" + name == dir + ['/'] + name;
    SplitWhole("", '/');
    assert [""][1..] == [] && KeepParts([""]) == [];
  }

  ghost predicate Alphanumeric(c: char) { 'a' <= c <= 'z' || 'A' <= c <= 'Z' || '0' <= c <= '9' }

  lemma SafeMeans(s: string)
    ensures SafeComponent(s)
            <==> s != "" && Alphanumeric(s[0])
                 && forall i | 0 <= i < |s| :: Alphanumeric(s[i]) || s[i] == '.' || s[i] == '_' || s[i] == '-'
  {
    forall i | 0 <= i < |s|
      ensures s[i] in s
      ensures SafeChar(s[i]) <==> Alphanumeric(s[i]) || s[i] == '.' || s[i] == '_' || s[i] == '-'
    {
    }
    if s != "" { assert SafeChar(s[0]) && s[0] !in {'.', '_', '-'} <==> Alphanumeric(s[0]); }
  }

  /** A free archive name for an identity: its path's name, or that under the
      capture's id, as long as it is safe. */
  ghost function NameGiven(id: Identity, used: set<string>): Option<string> {
    var name := BaseName(id.path);
    if !SafeComponent(name) then None
    else if "attachments/" + name !in used then Some("attachments/" + name)
    else if SafeComponent(id.captureId + "-" + name) && "attachments/" + id.captureId + "-" + name !in used
    then Some("attachments/" + id.captureId + "-" + name)
    else None
  }

  /** What one turn of the export adds for the identity's capture. */
  lemma CaptureTaken(g: Gathered, artifacts: seq<Artifact>, a: Artifact, limits: Limits, kit: Kit)
    requires !g.failed && a in artifacts && forall b | b in artifacts && b.identity == a.identity :: b == a
    ensures var h := GatherOne(g, artifacts, a.identity, limits, kit);
            var (status, data) := SourceStatus(a, kit);
            var name := NameGiven(a.identity, g.contents.Keys);
            && (h.failed <==> data.Some? && name.None?)
            && (data.None? ==> h == Gathered(g.items + [Item(a.identity, status, a.opaqueKind, None)], g.contents,
                                             g.total, false))
            && (data.Some? && name.Some? && g.total + |data.value| > limits.maxTotal ==>
                  h == Gathered(g.items + [Item(a.identity, "oversized", a.opaqueKind, None)], g.contents,
                                g.total + |data.value|, false))
            && (data.Some? && name.Some? && g.total + |data.value| <= limits.maxTotal ==>
                  h == Gathered(g.items + [Item(a.identity, "included", a.opaqueKind, name)],
                                g.contents[name.value := data.value], g.total + |data.value|, false))
  {
    FindFinds(artifacts, a.identity);
    NameGivenIs(a.identity, g.contents.Keys);
  }

  lemma {:induction false} FindFinds(artifacts: seq<Artifact>, id: Identity)
    ensures Find(artifacts, id).Some? <==> exists a :: a in artifacts && a.identity == id
    ensures Find(artifacts, id).Some? ==> Find(artifacts, id).value in artifacts
  {
    if artifacts != [] { FindFinds(artifacts[1..], id); }
  }

  lemma NameGivenIs(id: Identity, used: set<string>)
    ensures NameGiven(id, used) == if NameRefused(id, used) then None else Some(NameFor(id, used))
  {
  }

  /** Without a capture the identity is listed as missing, and captures that
      differ end the export. */
  lemma NoCaptureTaken(g: Gathered, artifacts: seq<Artifact>, id: Identity, limits: Limits, kit: Kit)
    requires !g.failed
    ensures var h := GatherOne(g, artifacts, id, limits, kit);
            && ((forall a | a in artifacts :: a.identity != id) ==>
                  h == Gathered(g.items + [Item(id, "missing", false, None)], g.contents, g.total, false))
            && ((exists a, b :: a in artifacts && b in artifacts && a.identity == id && b.identity == id && a != b) ==>
                  h.failed)
  {
    FindFinds(artifacts, id);
  }
}
