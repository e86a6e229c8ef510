/** The usage ledger, the teardown that writes it before revoking a key, and
    every run of teardowns that crash, are refused and are run again. */
module AttemptLedger {
  import opened Wrappers
  import opened Text

  // ---- aliases

  function Digit(d: nat): char
    requires d < 10
  {
    "0123456789"[d]
  }

  function Decimal(n: nat): (s: string)
    ensures s != "" && ':' !in s
  {
    if n < 10 then [Digit(n)] else Decimal(n / 10) + [Digit(n % 10)]
  }

  lemma {:induction false} DecimalInjective(a: nat, b: nat)
    requires Decimal(a) == Decimal(b)
    ensures a == b
  {
    DecimalEnds(a);
    DecimalEnds(b);
    DigitInjective(a % 10, b % 10);
    if a >= 10 && b >= 10 {
      DecimalInjective(a / 10, b / 10);
    }
  }

  lemma DecimalEnds(n: nat)
    ensures var s := Decimal(n);
            && s[|s| - 1] == Digit(n % 10)
            && (|s| >= 2 <==> n >= 10)
            && (n >= 10 ==> s[..|s| - 1] == Decimal(n / 10))
  {
    if n >= 10 {
      assert Decimal(n)[..|Decimal(n)| - 1] == Decimal(n / 10);
    }
  }

  lemma DigitInjective(a: nat, b: nat)
    requires a < 10 && b < 10 && Digit(a) == Digit(b)
    ensures a == b
  {
  }

  /** The digits are those of the number: read back they give it, and none is
      written in front for nothing. */
  ghost function ValueOf(s: string): int {
    if s == "" then 0 else 10 * ValueOf(s[..|s| - 1]) + (s[|s| - 1] as int - '0' as int)
  }

  lemma {:induction false} DecimalReads(n: nat)
    ensures ValueOf(Decimal(n)) == n && (forall c <- Decimal(n) :: '0' <= c <= '9')
    ensures Decimal(n)[0] == '0' ==> n == 0
  {
    var s := Decimal(n);
    if n < 10 {
      assert s[..0] == "" && s[0] == Digit(n) && Digit(n) as int == '0' as int + n;
    } else {
      DecimalReads(n / 10);
      assert s == Decimal(n / 10) + [Digit(n % 10)];
      assert s[..|s| - 1] == Decimal(n / 10) && Digit(n % 10) as int == '0' as int + n % 10;
    }
  }

  /** What names one attempt's key. */
  datatype Attempt = Attempt(epic: string, node: string, attempt: nat, persona: string, invocation: string)

  function AliasParts(a: Attempt): seq<string> {
    [a.epic, a.node, Decimal(a.attempt), a.persona] + if a.invocation == "" then [] else [a.invocation]
  }

  /** `key_alias_for`. */
  function Alias(a: Attempt): string { Join(AliasParts(a), ':') }

  lemma AliasIs(a: Attempt)
    ensures Alias(a) == a.epic + ":" + (a.node + ":" + (Decimal(a.attempt) + ":"
                        + (a.persona + if a.invocation == "" then "" else ":" + a.invocation)))
  {
    var last := if a.invocation == "" then [] else [a.invocation];
    assert AliasParts(a) == [a.epic] + ([a.node] + ([Decimal(a.attempt)] + ([a.persona] + last)));
    Joined(a.epic, [a.node] + ([Decimal(a.attempt)] + ([a.persona] + last)));
    Joined(a.node, [Decimal(a.attempt)] + ([a.persona] + last));
    Joined(Decimal(a.attempt), [a.persona] + last);
    if a.invocation == "" { assert [a.persona] + last == [a.persona]; } else { Joined(a.persona, last); }
  }

  lemma Joined(part: string, rest: seq<string>)
    requires rest != []
    ensures Join([part] + rest, ':') == part + ":" + Join(rest, ':')
  {
    assert ([part] + rest)[1..] == rest;
  }

  predicate ColonFree(a: Attempt) {
    ':' !in a.epic && ':' !in a.node && ':' !in a.persona && ':' !in a.invocation
  }

  /** Colon-free attempts never share an alias. */
  lemma AliasInjective(a: Attempt, b: Attempt)
    requires ColonFree(a) && ColonFree(b) && Alias(a) == Alias(b)
    ensures a == b
  {
    var x, y := AliasParts(a), AliasParts(b);
    JoinInjective(x, y, ':');
    assert x[0] == y[0] && x[1] == y[1] && x[2] == y[2] && x[3] == y[3] && |x| == |y|;
    DecimalInjective(a.attempt, b.attempt);
    if |x| == 5 { assert x[4] == y[4]; }
  }

  // ---- the ledger

  /** What a reading counted, how complete it is and where it comes from. */
  datatype Tokens = Tokens(prompt: Option<int>, completion: Option<int>, status: string, source: string)

  /** A spend and what it was estimated from. */
  datatype Cost = Cost(spend: Option<real>, basis: string)

  datatype Record = Record(
    epic: string, node: string, attempt: int, persona: string, spec: string, alias: string, tokens: Tokens,
    cost: Cost)

  datatype Row = Row(id: nat, record: Record)

  type Ledger = seq<Row>

  /** `_quality`. */
  function Rank(t: Tokens): nat {
    if t.status == "complete" then 2 else if t.prompt.Some? || t.completion.Some? then 1 else 0
  }

  /** A better earlier measurement, and any earlier spend, is preserved. */
  function Preserve(old_: Record, new_: Record): Record {
    var better := Rank(old_.tokens) > Rank(new_.tokens);
    var kept := if better then new_.(tokens := old_.tokens) else new_;
    if old_.cost.spend.Some? && (new_.cost.spend.None? || better) then kept.(cost := old_.cost) else kept
  }

  predicate Holds(ledger: Ledger, alias: string) {
    exists row <- ledger :: row.record.alias == alias
  }

  function Find(ledger: Ledger, alias: string): (i: nat)
    ensures i <= |ledger|
    ensures i < |ledger| ==> ledger[i].record.alias == alias
    ensures forall k | 0 <= k < i :: ledger[k].record.alias != alias
  {
    if ledger == [] || ledger[0].record.alias == alias then 0 else 1 + Find(ledger[1..], alias)
  }

  /** `upsert_record`: the alias is unique and its row keeps its id. */
  function Upsert(ledger: Ledger, record: Record, nextId: nat): Ledger {
    var i := Find(ledger, record.alias);
    if i == |ledger| then ledger + [Row(nextId, record)]
    else ledger[i := Row(ledger[i].id, Preserve(ledger[i].record, record))]
  }

  ghost predicate Keyed(ledger: Ledger) {
    forall i, j | 0 <= i < j < |ledger| :: ledger[i].record.alias != ledger[j].record.alias
  }

  predicate Blank(s: string) { forall c <- s :: Space(c) }

  /** `_require_attribution` passes. */
  predicate Attributed(r: Record) { !Blank(r.epic) && !Blank(r.node) && !Blank(r.persona) && !Blank(r.spec) }

  lemma UpsertKeepsKeyed(ledger: Ledger, record: Record, nextId: nat)
    requires Keyed(ledger)
    ensures Keyed(Upsert(ledger, record, nextId))
    ensures forall alias ::
              Holds(Upsert(ledger, record, nextId), alias) <==> Holds(ledger, alias) || alias == record.alias
  {
    var out := Upsert(ledger, record, nextId);
    var i := Find(ledger, record.alias);
    assert out[i] in out && out[i].record.alias == record.alias;
    forall k | 0 <= k < |ledger| ensures Holds(out, ledger[k].record.alias) {
      assert out[k] in out && out[k].record.alias == ledger[k].record.alias;
    }
    forall k | 0 <= k < |out| ensures Holds(ledger, out[k].record.alias) || out[k].record.alias == record.alias {
      if k < |ledger| { assert ledger[k] in ledger && ledger[k].record.alias == out[k].record.alias; }
    }
  }

  /** A row only ever gets better: its id stays, its measurement never drops in
      rank and a spend once recorded is never lost. */
  lemma UpsertNeverForgets(ledger: Ledger, record: Record, nextId: nat, i: nat)
    requires i < |ledger|
    ensures var out := Upsert(ledger, record, nextId);
            && i < |out| && out[i].id == ledger[i].id && out[i].record.alias == ledger[i].record.alias
            && Rank(out[i].record.tokens) >= Rank(ledger[i].record.tokens)
            && (ledger[i].record.cost.spend.Some? ==> out[i].record.cost.spend.Some?)
  {
  }

  /** The row an attributed record goes into is attributed. */
  lemma UpsertAttributes(ledger: Ledger, record: Record, nextId: nat)
    requires Attributed(record)
    ensures exists row <- Upsert(ledger, record, nextId) ::
              row.record.alias == record.alias && Attributed(row.record)
  {
    var out := Upsert(ledger, record, nextId);
    var i := Find(ledger, record.alias);
    assert out[i] in out && out[i].record.alias == record.alias && Attributed(out[i].record);
  }

  predicate Counted(t: Tokens) { t.prompt.Some? || t.completion.Some? }

  /** A complete reading is worth more than any other, and one that counted
      anything more than one that did not. */
  predicate WorthMore(a: Tokens, b: Tokens) {
    b.status != "complete" && (a.status == "complete" || (Counted(a) && !Counted(b)))
  }

  /** What an upsert leaves: a new row at the end, or the alias's first row with
      the new dimensions, the better reading, and a spend unless there is none. */
  lemma UpsertMeans(ledger: Ledger, record: Record, nextId: nat, i: nat)
    ensures var out := Upsert(ledger, record, nextId);
            && ((forall row <- ledger :: row.record.alias != record.alias) ==> out == ledger + [Row(nextId, record)])
            && (i < |ledger| && ledger[i].record.alias == record.alias
                && (forall k | 0 <= k < i :: ledger[k].record.alias != record.alias) ==>
                  var before, after := ledger[i].record, out[i].record;
                  var better := WorthMore(before.tokens, record.tokens);
                  && |out| == |ledger| && out[..i] == ledger[..i] && out[i + 1..] == ledger[i + 1..]
                  && out[i].id == ledger[i].id
                  && after.epic == record.epic && after.node == record.node && after.attempt == record.attempt
                  && after.persona == record.persona && after.spec == record.spec && after.alias == record.alias
                  && after.tokens == (if better then before.tokens else record.tokens)
                  && after.cost == if before.cost.spend.Some? && (record.cost.spend.None? || better)
                                   then before.cost else record.cost)
  {
    var f := Find(ledger, record.alias);
    if f < |ledger| { assert ledger[f] in ledger; }
    forall k | 0 <= k < |ledger| ensures ledger[k] in ledger {
    }
  }

  // ---- one teardown, stepwise

  datatype Lease = Lease(epic: string, node: string, attempt: int, persona: string, spec: string, alias: string,
                         key: string)

  /** A reading that came through. */
  datatype Measured = Measured(tokens: Tokens, cost: Cost)

  /** `_record_for`: the lease's dimensions with what was measured; the last
      snapshot's spend stands in where none was, for a lease with a key. */
  function RecordFor(lease: Lease, confirmed: Option<Measured>, snapshot: Option<real>): Record {
    var fallback := if lease.key != "" then snapshot else None;
    var tokens := if confirmed.Some? then confirmed.value.tokens
                  else Tokens(None, None, "unknown", if lease.key != "" then "gateway" else "unknown");
    var cost := if confirmed.None? then Cost(fallback, if fallback.Some? then "proxy_estimate" else "unknown")
                else if confirmed.value.cost.spend.Some? then confirmed.value.cost
                else Cost(fallback, confirmed.value.cost.basis);
    Record(lease.epic, lease.node, lease.attempt, lease.persona, lease.spec, lease.alias, tokens, cost)
  }

  /** Field by field: no measurement is lost, nothing is counted that was not
      read, and only a lease with a key falls back on its snapshot. */
  lemma RecordMeans(lease: Lease, confirmed: Option<Measured>, snapshot: Option<real>)
    ensures var r := RecordFor(lease, confirmed, snapshot);
            && r.epic == lease.epic && r.node == lease.node && r.attempt == lease.attempt
            && r.persona == lease.persona && r.spec == lease.spec && r.alias == lease.alias
            && (r.tokens.prompt.Some? ==> confirmed.Some? && confirmed.value.tokens.prompt == r.tokens.prompt)
            && (confirmed.Some? ==> r.tokens == confirmed.value.tokens && r.cost.basis == confirmed.value.cost.basis)
            && (confirmed.None? ==> !Counted(r.tokens) && r.tokens.status == "unknown")
            && (confirmed.None? ==> (r.tokens.source == "gateway" <==> lease.key != ""))
            && (confirmed.None? ==> r.cost.basis == if r.cost.spend.Some? then "proxy_estimate" else "unknown")
            && (r.cost.spend.Some?
                <==> (confirmed.Some? && confirmed.value.cost.spend.Some?) || (lease.key != "" && snapshot.Some?))
            && (confirmed.Some? && confirmed.value.cost.spend.Some? ==> r.cost.spend == confirmed.value.cost.spend)
            && (confirmed.None? || confirmed.value.cost.spend.None? ==>
                  r.cost.spend == if lease.key != "" then snapshot else None)
  {
    assert "gateway" != "unknown" by { assert "gateway"[0] == 'g' && "unknown"[0] == 'u'; }
  }

  /** Where a teardown can be cut short. */
  datatype Cut = Never | BeforeRow | BeforeRevoke

  datatype Result = Finished | Refused | CutShort | LedgerRefused

  class Store {
    var ledger: Ledger
    var nextId: nat
    var live: set<string>

    /** `teardown_attempt`: attribution, then the row, then the key. `online`
        is a client that opened, `revokes` a revocation that worked. */
    method Teardown(lease: Lease, confirmed: Option<Measured>, snapshot: Option<real>, online: bool, revokes: bool,
                    cut: Cut) returns (r: Result)
      requires Keyed(ledger)
      modifies this
      ensures Keyed(ledger)
      ensures var blank := Blank(lease.epic) || Blank(lease.node) || Blank(lease.persona) || Blank(lease.spec);
              && (r.Refused? <==> cut != BeforeRow && blank)
              && (r.LedgerRefused? <==> cut != BeforeRow && !blank && lease.attempt < 1)
              && (r.Finished? <==> cut.Never? && !blank && lease.attempt >= 1)
      ensures r.Refused? || r.LedgerRefused? || cut.BeforeRow?
              ==> ledger == old(ledger) && live == old(live) && nextId == old(nextId)
      ensures !(r.Refused? || r.LedgerRefused? || cut.BeforeRow?)
              ==> ledger == Upsert(old(ledger), RecordFor(lease, confirmed, snapshot), old(nextId))
      ensures live == if r.Finished? && lease.key != "" && online && revokes then old(live) - {lease.key} else old(live)
      ensures r.Finished? || live != old(live)
              ==> exists row <- ledger :: row.record.alias == lease.alias && Attributed(row.record)
    {
      var record := RecordFor(lease, confirmed, snapshot);
      if cut.BeforeRow? { return CutShort; }
      if !Attributed(record) { return Refused; }
      if record.attempt < 1 { return LedgerRefused; }
      UpsertKeepsKeyed(ledger, record, nextId);
      UpsertAttributes(ledger, record, nextId);
      ledger := Upsert(ledger, record, nextId);
      nextId := nextId + 1;
      if cut.BeforeRevoke? { return CutShort; }
      if lease.key != "" && online && revokes { live := live - {lease.key}; }
      return Finished;
    }
  }

  // ---- every run of them

  /** A teardown in flight: its record is built, or its row is written. */
  datatype Phase = Ready(lease: Lease, record: Record, online: bool) | Written(lease: Lease)

  datatype State = State(
    ledger: Ledger, nextId: nat, running: map<nat, Phase>,
    revoked: set<(string, string)>, finished: set<string>)

  datatype Event =
    | Start(p: nat, lease: Lease, confirmed: Option<Measured>, snapshot: Option<real>, online: bool)
    | Refuse(p: nat)
    | WriteRow(p: nat)
    | Revoke(p: nat, works: bool)
    | Crash(p: nat)

  predicate Enabled(s: State, e: Event) {
    match e
    case Start(p, _, _, _, _) => p !in s.running
    case Refuse(p) =>
      p in s.running && s.running[p].Ready? && (!Attributed(s.running[p].record) || s.running[p].record.attempt < 1)
    case WriteRow(p) =>
      p in s.running && s.running[p].Ready? && Attributed(s.running[p].record) && s.running[p].record.attempt >= 1
    case Revoke(p, _) => p in s.running && s.running[p].Written?
    case Crash(p) => p in s.running
  }

  function Next(s: State, e: Event): State
    requires Enabled(s, e)
  {
    match e
    case Start(p, lease, confirmed, snapshot, online) =>
      s.(running := s.running[p := Ready(lease, RecordFor(lease, confirmed, snapshot), online)])
    case Refuse(p) => s.(running := s.running - {p})
    case WriteRow(p) =>
      var ph := s.running[p];
      var stored := s.(ledger := Upsert(s.ledger, ph.record, s.nextId), nextId := s.nextId + 1);
      if ph.online && ph.lease.key != "" then stored.(running := s.running[p := Written(ph.lease)])
      else stored.(running := s.running - {p}, finished := s.finished + {ph.lease.alias})
    case Revoke(p, works) =>
      var lease := s.running[p].lease;
      s.(running := s.running - {p}, finished := s.finished + {lease.alias},
         revoked := if works then s.revoked + {(lease.key, lease.alias)} else s.revoked)
    case Crash(p) => s.(running := s.running - {p})
  }

  /** The alias has one row, and that row is attributed. */
  ghost predicate Accounted(ledger: Ledger, alias: string) {
    exists i :: 0 <= i < |ledger| && ledger[i].record.alias == alias && Attributed(ledger[i].record)
  }

  ghost predicate Sound(s: State) {
    && Keyed(s.ledger)
    && (forall r | r in s.revoked :: Accounted(s.ledger, r.1))
    && (forall alias | alias in s.finished :: Accounted(s.ledger, alias))
    && (forall p | p in s.running :: s.running[p].Written? ==> Accounted(s.ledger, s.running[p].lease.alias))
    && (forall p | p in s.running :: s.running[p].Ready? ==> s.running[p].record.alias == s.running[p].lease.alias)
  }

  lemma UpsertAccounts(ledger: Ledger, record: Record, nextId: nat, alias: string)
    requires Keyed(ledger) && Attributed(record)
    ensures Accounted(Upsert(ledger, record, nextId), record.alias)
    ensures Accounted(ledger, alias) ==> Accounted(Upsert(ledger, record, nextId), alias)
  {
    var out := Upsert(ledger, record, nextId);
    var i := Find(ledger, record.alias);
    assert out[i].record.alias == record.alias && Attributed(out[i].record);
    if Accounted(ledger, alias) {
      var k :| 0 <= k < |ledger| && ledger[k].record.alias == alias && Attributed(ledger[k].record);
      assert out[k].record.alias == alias && Attributed(out[k].record);
    }
  }

  lemma {:induction false} SoundStep(s: State, e: Event)
    requires Sound(s) && Enabled(s, e)
    ensures Sound(Next(s, e))
  {
    if e.WriteRow? {
      var record := s.running[e.p].record;
      UpsertKeepsKeyed(s.ledger, record, s.nextId);
      forall alias ensures Accounted(Upsert(s.ledger, record, s.nextId), record.alias)
                   ensures Accounted(s.ledger, alias) ==> Accounted(Upsert(s.ledger, record, s.nextId), alias) {
        UpsertAccounts(s.ledger, record, s.nextId, alias);
      }
    }
  }

  ghost predicate Run(s: State, events: seq<Event>)
    decreases |events|
  {
    events != [] ==> Enabled(s, events[0]) && Run(Next(s, events[0]), events[1..])
  }

  ghost function Final(s: State, events: seq<Event>): State
    requires Run(s, events)
    decreases |events|
  {
    if events == [] then s else Final(Next(s, events[0]), events[1..])
  }

  lemma {:induction false} SoundRun(s: State, events: seq<Event>)
    requires Sound(s) && Run(s, events)
    ensures Sound(Final(s, events))
    decreases |events|
  {
    if events != [] {
      SoundStep(s, events[0]);
      SoundRun(Next(s, events[0]), events[1..]);
    }
  }

  /** From an empty ledger, in every run of starts, crashes, refusals and
      re-runs: a revoked key's attempt, and every finished teardown's, has
      exactly one row and that row can be attributed. */
  lemma RevokedIsAccounted(events: seq<Event>, alias: string)
    requires Run(State([], 0, map[], {}, {}), events)
    ensures var s := Final(State([], 0, map[], {}, {}), events);
            (exists key :: (key, alias) in s.revoked) || alias in s.finished ==>
              exists i :: 0 <= i < |s.ledger| && s.ledger[i].record.alias == alias && Attributed(s.ledger[i].record)
                          && forall k | 0 <= k < |s.ledger| && s.ledger[k].record.alias == alias :: k == i
  {
    SoundRun(State([], 0, map[], {}, {}), events);
    var s := Final(State([], 0, map[], {}, {}), events);
    if (exists key :: (key, alias) in s.revoked) || alias in s.finished {
      assert Accounted(s.ledger, alias);
      var i :| 0 <= i < |s.ledger| && s.ledger[i].record.alias == alias && Attributed(s.ledger[i].record);
      forall k | 0 <= k < |s.ledger| && s.ledger[k].record.alias == alias ensures k == i {
        OneRow(s.ledger, i, k);
      }
    }
  }

  lemma OneRow(ledger: Ledger, i: nat, k: nat)
    requires Keyed(ledger) && i < |ledger| && k < |ledger|
    ensures ledger[i].record.alias == ledger[k].record.alias ==> i == k
  {
  }

  lemma OneMore(s: State, e: Event, rest: seq<Event>)
    requires Enabled(s, e) && Run(Next(s, e), rest)
    ensures Run(s, [e] + rest) && Final(s, [e] + rest) == Final(Next(s, e), rest)
  {
    assert ([e] + rest)[1..] == rest;
  }

  /** What the teardown method does to the ledger and the key with nothing in
      between, its own steps of a run do. */
  lemma {:induction false} TeardownIsARun(s: State, p: nat, lease: Lease, confirmed: Option<Measured>,
                                          snapshot: Option<real>, online: bool, works: bool)
      returns (events: seq<Event>)
    requires p !in s.running
    ensures Run(s, events)
    ensures var t := Final(s, events);
            var record := RecordFor(lease, confirmed, snapshot);
            && t.running == s.running
            && (if Attributed(record) && lease.attempt >= 1 then
                  && t.ledger == Upsert(s.ledger, record, s.nextId) && t.finished == s.finished + {lease.alias}
                  && t.revoked == if online && works && lease.key != "" then s.revoked + {(lease.key, lease.alias)}
                                  else s.revoked
                else t.ledger == s.ledger && t.finished == s.finished && t.revoked == s.revoked)
  {
    var first := Start(p, lease, confirmed, snapshot, online);
    var a := Next(s, first);
    var record := RecordFor(lease, confirmed, snapshot);
    if !Attributed(record) || lease.attempt < 1 {
      OneMore(a, Refuse(p), []);
      OneMore(s, first, [Refuse(p)] + []);
      events := [first] + ([Refuse(p)] + []);
    } else if online && lease.key != "" {
      var b := Next(a, WriteRow(p));
      OneMore(b, Revoke(p, works), []);
      OneMore(a, WriteRow(p), [Revoke(p, works)] + []);
      OneMore(s, first, [WriteRow(p)] + ([Revoke(p, works)] + []));
      events := [first] + ([WriteRow(p)] + ([Revoke(p, works)] + []));
    } else {
      OneMore(a, WriteRow(p), []);
      OneMore(s, first, [WriteRow(p)] + []);
      events := [first] + ([WriteRow(p)] + []);
    }
  }
}
