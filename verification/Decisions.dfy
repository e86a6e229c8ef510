/** Escalations and questions: the row that is written before the operator is
    paged, the guarded update that settles it, and every interleaving of the
    calls that race to do so. */
module Decisions {
  import opened Wrappers

  /** The two tables, addressed as one. */
  datatype Key = Escalation(id: string) | Question(id: string)

  datatype Verdict = Choose(choice: string) | Reply(text: string) | Lapse

  const CHOICES: set<string> := {"RETRY", "KILL", "PAUSE_EPIC", "KILL_EPIC"}

  /** A button belongs to an escalation and a reply to a question; either lapses. */
  predicate Fits(key: Key, v: Verdict) {
    match v
    case Choose(_) => key.Escalation?
    case Reply(_) => key.Question?
    case Lapse => true
  }

  /** A choice outside the closed enumeration raises before the store is touched. */
  predicate Spellable(v: Verdict) { v.Choose? ==> v.choice in CHOICES }

  function Spelling(v: Verdict): string {
    match v
    case Choose(c) => c
    case Reply(_) => "ANSWERED"
    case Lapse => "EXPIRED"
  }

  /** `paged`: an escalation's `delivered`, or a question's captured message id. */
  datatype Row = Row(resolution: Option<string>, answer: Option<string>, paged: bool)

  const PENDING := Row(None, None, false)

  type Table = map<Key, Row>

  predicate Open(rows: Table, key: Key) { key in rows && rows[key].resolution.None? }

  /** `UPDATE … WHERE id = ? AND resolution IS NULL`. */
  function Guarded(rows: Table, key: Key, v: Verdict): Table {
    if Open(rows, key)
    then rows[key := rows[key].(resolution := Some(Spelling(v)), answer := if v.Reply? then Some(v.text) else None)]
    else rows
  }

  /** The one row goes from open to what this verdict says: a choice as it was
      chosen, a reply word for word under ANSWERED, a lapse as EXPIRED. */
  ghost predicate Wrote(before: Table, after: Table, key: Key, v: Verdict) {
    && key in before && before[key].resolution.None?
    && match v
       case Choose(c) => after == before[key := Row(Some(c), None, before[key].paged)]
       case Reply(t) => after == before[key := Row(Some("ANSWERED"), Some(t), before[key].paged)]
       case Lapse => after == before[key := Row(Some("EXPIRED"), None, before[key].paged)]
  }

  function Read(rows: Table, key: Key): Option<string> {
    if key in rows then rows[key].resolution else None
  }

  function Mark(rows: Table, key: Key): Table {
    if key in rows then rows[key := rows[key].(paged := true)] else rows
  }

  /** What any table can only become: rows stay, and a settled row stays settled
      the way it was. */
  ghost predicate Later(a: Table, b: Table) {
    forall k | k in a ::
          k in b && (a[k].resolution.Some? ==> b[k].resolution == a[k].resolution && b[k].answer == a[k].answer)
  }

  // ---- the activities

  /** How a database call can fail: not at all, without effect, or after it
      committed and before it said so. */
  datatype Fault = Fine | Unwritten | Unacknowledged

  datatype Settled = Settled(final: Option<string>, here: bool)

  datatype Sending = NotRecorded | Adopted | Sent(delivered: bool)

  /** A settling call's answer, when the table it re-reads is `meanwhile`. */
  function Settles(rows: Table, key: Key, v: Verdict, fault: Fault, meanwhile: Table, readable: bool): Settled {
    if !fault.Fine? then Settled(None, false)
    else if Open(rows, key) then Settled(Some(Spelling(v)), true)
    else Settled(if readable then Read(meanwhile, key) else None, false)
  }

  /** A send that got past its row: the row is there, the page follows, and the
      mark follows the page. */
  function Sends(rows: Table, outbox: seq<Key>, key: Key, lands: bool, marks: bool): (Table, seq<Key>) {
    var base := if key in rows then rows else rows[key := PENDING];
    (if lands && marks then Mark(base, key) else base, if lands then outbox + [key] else outbox)
  }

  class DecisionStore {
    var rows: Table
    var outbox: seq<Key>

    method Update(key: Key, v: Verdict) returns (won: bool)
      modifies this`rows
      ensures won == Open(old(rows), key)
      ensures rows == Guarded(old(rows), key, v)
    {
      won := Open(rows, key);
      if won {
        var answer := if v.Reply? then Some(v.text) else None;
        rows := rows[key := rows[key].(resolution := Some(Spelling(v)), answer := answer)];
      }
    }

    /** `settle_…` and `expire_…`: the guarded update, then, when it lost, a
        re-read. By then other calls have made the table `meanwhile`. What a call
        answers is what the row says, and goes on saying. */
    method Settle(key: Key, v: Verdict, fault: Fault, meanwhile: Table, readable: bool) returns (r: Settled)
      requires Later(Guarded(rows, key, v), meanwhile)
      modifies this`rows
      ensures r == Settles(old(rows), key, v, fault, meanwhile, readable)
      ensures r.here <==> fault.Fine? && Open(old(rows), key)
      ensures !fault.Unwritten? && old(key in rows && rows[key].resolution.None?) ==> Wrote(old(rows), rows, key, v)
      ensures !fault.Fine? && !old(key in rows && rows[key].resolution.None?) ==> rows == old(rows)
      ensures r.here ==> r.final.Some? && match v
                                          case Choose(c) => r.final.value == c
                                          case Reply(_) => r.final.value == "ANSWERED"
                                          case Lapse => r.final.value == "EXPIRED"
      ensures !r.here ==> r.final == if fault.Fine? && readable && key in meanwhile
                                     then meanwhile[key].resolution else None
      ensures forall future :: r.final.Some? && Later(rows, future) ==> Read(future, key) == r.final
      ensures fault.Fine? && key in old(rows) && readable ==> r.final.Some?
      ensures rows == if fault.Unwritten? then old(rows)
                      else if fault.Fine? && !r.here then meanwhile
                      else Guarded(old(rows), key, v)
    {
      if fault.Unwritten? { return Settled(None, false); }
      var won := Update(key, v);
      if fault.Unacknowledged? { return Settled(None, false); }
      if won { return Settled(Some(Spelling(v)), true); }
      rows := meanwhile;
      return Settled(if readable then Read(rows, key) else None, false);
    }

    /** `send_escalation` and `send_question`: the row, the page, the mark.
        `supplied` is an id the caller already had. */
    method Send(key: Key, supplied: bool, inserts: bool, lands: bool, marks: bool) returns (r: Sending)
      modifies this
      ensures r.NotRecorded? <==> !(supplied && (if key.Escalation? then old(key in rows) else Open(old(rows), key)))
                                  && (old(key in rows) || !inserts)
      ensures r.Adopted? <==> supplied && key.Question? && Open(old(rows), key)
      ensures r.Sent? ==> r.delivered == lands
      ensures (rows, outbox) == if r.Sent? then Sends(old(rows), old(outbox), key, lands, marks)
                                else (old(rows), old(outbox))
      ensures r.Sent? ==>
                var before := old(if key in rows then rows[key] else PENDING);
                rows == old(rows)[key := Row(before.resolution, before.answer, before.paged || (lands && marks))]
      ensures outbox == old(outbox) + if r.Sent? && lands then [key] else []
    {
      if supplied && key.Question? && Open(rows, key) { return Adopted; }
      if !(supplied && key.Escalation? && key in rows) {
        if key in rows || !inserts { return NotRecorded; }
        rows := rows[key := PENDING];
      }
      if lands {
        outbox := outbox + [key];
        if marks { rows := rows[key := rows[key].(paged := true)]; }
      }
      return Sent(lands);
    }
  }

  // ---- every interleaving

  datatype Phase =
    | Updating(key: Key, verdict: Verdict)
    | Rereading(key: Key)
    | Looking(key: Key)
    | Inserting(key: Key)
    | Paging(key: Key)
    | Marking(key: Key)

  /** What one settling call answered. */
  datatype Answer = Answer(key: Key, final: Option<string>, here: bool)

  datatype Win = Win(key: Key, verdict: Verdict)

  datatype State = State(
    rows: Table, outbox: seq<Key>, calls: map<nat, Phase>, wins: seq<Win>, answers: seq<Answer>)

  const BLANK := State(map[], [], map[], [], [])

  datatype Event =
    | Settle(p: nat, key: Key, verdict: Verdict)
    | Update(p: nat, fault: Fault)
    | Reread(p: nat, readable: bool)
    | Send(p: nat, key: Key, supplied: bool)
    | Look(p: nat)
    | Insert(p: nat, works: bool)
    | Page(p: nat, lands: bool)
    | Marked(p: nat, works: bool)
    | Crash(p: nat)

  predicate Enabled(s: State, e: Event) {
    match e
    case Settle(p, key, v) => p !in s.calls && Fits(key, v) && Spellable(v)
    case Send(p, key, supplied) => p !in s.calls
    case Update(p, _) => p in s.calls && s.calls[p].Updating?
    case Reread(p, _) => p in s.calls && s.calls[p].Rereading?
    case Look(p) => p in s.calls && s.calls[p].Looking?
    case Insert(p, _) => p in s.calls && s.calls[p].Inserting?
    case Page(p, _) => p in s.calls && s.calls[p].Paging?
    case Marked(p, _) => p in s.calls && s.calls[p].Marking?
    case Crash(p) => p in s.calls
  }

  function Ended(s: State, p: nat): State { s.(calls := s.calls - {p}) }

  function Goes(s: State, p: nat, phase: Phase): State { s.(calls := s.calls[p := phase]) }

  function Next(s: State, e: Event): State
    requires Enabled(s, e)
  {
    match e
    case Settle(p, key, v) => Goes(s, p, Updating(key, v))
    case Update(p, fault) => Updated(s, p, s.calls[p].key, s.calls[p].verdict, fault)
    case Reread(p, readable) =>
      var key := s.calls[p].key;
      Ended(s, p).(answers := s.answers + [Answer(key, if readable then Read(s.rows, key) else None, false)])
    case Send(p, key, supplied) => Goes(s, p, if supplied then Looking(key) else Inserting(key))
    case Look(p) =>
      var key := s.calls[p].key;
      if key.Escalation? then Goes(s, p, if key in s.rows then Paging(key) else Inserting(key))
      else if Open(s.rows, key) then Ended(s, p)
      else Goes(s, p, Inserting(key))
    case Insert(p, works) =>
      var key := s.calls[p].key;
      if !works || key in s.rows then Ended(s, p)
      else Goes(s, p, Paging(key)).(rows := s.rows[key := PENDING])
    case Page(p, lands) =>
      var key := s.calls[p].key;
      if lands then Goes(s, p, Marking(key)).(outbox := s.outbox + [key]) else Ended(s, p)
    case Marked(p, works) =>
      if works then Ended(s, p).(rows := Mark(s.rows, s.calls[p].key)) else Ended(s, p)
    case Crash(p) => Ended(s, p)
  }

  function Updated(s: State, p: nat, key: Key, v: Verdict, fault: Fault): State {
    var open := Open(s.rows, key);
    if fault.Unwritten? then Ended(s, p).(answers := s.answers + [Answer(key, None, false)])
    else
      var written := s.(rows := Guarded(s.rows, key, v), wins := if open then s.wins + [Win(key, v)] else s.wins);
      if fault.Unacknowledged? then Ended(written, p).(answers := s.answers + [Answer(key, None, false)])
      else if open then Ended(written, p).(answers := s.answers + [Answer(key, Some(Spelling(v)), true)])
      else Goes(written, p, Rereading(key))
  }

  // ---- what every step keeps

  lemma StepIsLater(s: State, e: Event)
    requires Enabled(s, e)
    ensures Later(s.rows, Next(s, e).rows)
  {
  }

  /** Answers agree with the row, and at most one says it settled it. */
  ghost predicate AnswersHold(s: State) {
    && (forall i | 0 <= i < |s.answers| ::
          s.answers[i].final.Some? ==> Read(s.rows, s.answers[i].key) == s.answers[i].final)
    && (forall i | 0 <= i < |s.answers| :: s.answers[i].here ==> s.answers[i].final.Some?)
    && (forall i, j | 0 <= i < j < |s.answers| ::
          s.answers[i].here && s.answers[j].here ==> s.answers[i].key != s.answers[j].key)
  }

  /** Winning calls and settled rows correspond one to one. */
  ghost predicate WinsHold(s: State) {
    && (forall i | 0 <= i < |s.wins| :: Stands(s.rows, s.wins[i]))
    && (forall i, j | 0 <= i < j < |s.wins| :: s.wins[i].key != s.wins[j].key)
    && (forall k | k in s.rows :: s.rows[k].resolution.Some? ==> Won(s.wins, k))
  }

  ghost predicate Stands(rows: Table, w: Win) {
    && Fits(w.key, w.verdict) && Spellable(w.verdict)
    && w.key in rows && rows[w.key].resolution == Some(Spelling(w.verdict))
    && rows[w.key].answer == if w.verdict.Reply? then Some(w.verdict.text) else None
  }

  ghost predicate Won(wins: seq<Win>, k: Key) { exists i :: 0 <= i < |wins| && wins[i].key == k }

  ghost predicate PagesHold(s: State) {
    && (forall i | 0 <= i < |s.outbox| :: s.outbox[i] in s.rows)
    && (forall k | k in s.rows :: s.rows[k].paged ==> k in s.outbox)
    && (forall p | p in s.calls :: CallHolds(s, s.calls[p]))
  }

  ghost predicate CallHolds(s: State, c: Phase) {
    && (c.Updating? ==> Fits(c.key, c.verdict) && Spellable(c.verdict))
    && (c.Paging? ==> c.key in s.rows && (c.key.Question? ==> c.key !in s.outbox))
    && (c.Marking? ==> c.key in s.outbox)
  }

  /** A question has one process that may page it, and is paged once. */
  ghost predicate QuestionsHold(s: State) {
    && (forall p, q | p in s.calls && q in s.calls && p != q ::
          s.calls[p].Paging? && s.calls[q].Paging? && s.calls[p].key.Question? ==> s.calls[p].key != s.calls[q].key)
    && (forall i, j | 0 <= i < j < |s.outbox| :: s.outbox[i].Question? ==> s.outbox[i] != s.outbox[j])
  }

  ghost predicate Inv(s: State) { AnswersHold(s) && WinsHold(s) && PagesHold(s) && QuestionsHold(s) }

  /** An answer that agrees with its row, and that settled it only if the row was
      open before, may be appended. */
  lemma OneMoreAnswer(s: State, t: State, a: Answer)
    requires AnswersHold(s) && Later(s.rows, t.rows) && t.answers == s.answers + [a]
    requires a.final.Some? ==> Read(t.rows, a.key) == a.final
    requires a.here ==> a.final.Some? && Read(s.rows, a.key).None?
    ensures AnswersHold(t)
  {
    forall i | 0 <= i < |t.answers|
      ensures t.answers[i].final.Some? ==> Read(t.rows, t.answers[i].key) == t.answers[i].final
      ensures t.answers[i].here ==> t.answers[i].final.Some?
      ensures i < |s.answers| && t.answers[i].here && a.here ==> t.answers[i].key != a.key
    {
      if i < |s.answers| { assert t.answers[i] == s.answers[i]; }
    }
  }

  lemma SameAnswers(s: State, t: State)
    requires AnswersHold(s) && Later(s.rows, t.rows) && t.answers == s.answers
    ensures AnswersHold(t)
  {
  }

  lemma {:induction false} AnswersStep(s: State, e: Event)
    requires Inv(s) && Enabled(s, e)
    ensures AnswersHold(Next(s, e))
  {
    var t := Next(s, e);
    StepIsLater(s, e);
    if t.answers == s.answers {
      SameAnswers(s, t);
    } else {
      OneMoreAnswer(s, t, t.answers[|s.answers|]);
    }
  }

  /** A step that changes no resolution keeps the wins; one that settles an open
      row adds its own. */
  lemma SameWins(s: State, t: State)
    requires WinsHold(s) && t.wins == s.wins
    requires Later(s.rows, t.rows)
    requires forall k | k in t.rows && t.rows[k].resolution.Some? :: k in s.rows && s.rows[k].resolution.Some?
    ensures WinsHold(t)
  {
    forall i | 0 <= i < |t.wins| ensures Stands(t.rows, t.wins[i]) { assert Stands(s.rows, s.wins[i]); }
  }

  lemma OneMoreWin(s: State, t: State, key: Key, v: Verdict)
    requires WinsHold(s) && Open(s.rows, key) && Fits(key, v) && Spellable(v)
    requires t.rows == Guarded(s.rows, key, v) && t.wins == s.wins + [Win(key, v)]
    ensures WinsHold(t)
  {
    forall i | 0 <= i < |s.wins| ensures s.wins[i].key != key && Stands(t.rows, t.wins[i]) {
      assert Stands(s.rows, s.wins[i]) && t.wins[i] == s.wins[i];
    }
    assert t.wins[|s.wins|] == Win(key, v) && Stands(t.rows, Win(key, v));
    forall k | k in t.rows && t.rows[k].resolution.Some? ensures Won(t.wins, k) {
      if k != key {
        var i :| 0 <= i < |s.wins| && s.wins[i].key == k;
        assert t.wins[i].key == k;
      } else {
        assert t.wins[|s.wins|].key == k;
      }
    }
  }

  lemma {:induction false} WinsStep(s: State, e: Event)
    requires Inv(s) && Enabled(s, e)
    ensures WinsHold(Next(s, e))
  {
    StepIsLater(s, e);
    if e.Update? && !e.fault.Unwritten? && Open(s.rows, s.calls[e.p].key) {
      assert CallHolds(s, s.calls[e.p]);
      OneMoreWin(s, Next(s, e), s.calls[e.p].key, s.calls[e.p].verdict);
    } else {
      SameWins(s, Next(s, e));
    }
  }

  lemma {:induction false} PagesStep(s: State, e: Event)
    requires Inv(s) && Enabled(s, e)
    ensures PagesHold(Next(s, e))
  {
    var t := Next(s, e);
    StepIsLater(s, e);
    if e.p in s.calls { assert CallHolds(s, s.calls[e.p]); }
    forall p | p in t.calls ensures CallHolds(t, t.calls[p]) { CallStep(s, e, p); }
  }

  lemma {:induction false} CallStep(s: State, e: Event, p: nat)
    requires Inv(s) && Enabled(s, e) && p in Next(s, e).calls
    ensures CallHolds(Next(s, e), Next(s, e).calls[p])
  {
    StepIsLater(s, e);
    if e.p in s.calls { assert CallHolds(s, s.calls[e.p]); }
    if p in s.calls { assert CallHolds(s, s.calls[p]); }
  }

  lemma {:induction false} QuestionsStep(s: State, e: Event)
    requires Inv(s) && Enabled(s, e)
    ensures QuestionsHold(Next(s, e))
  {
    if e.p in s.calls { assert CallHolds(s, s.calls[e.p]); }
    forall p | p in s.calls ensures CallHolds(s, s.calls[p]) {}
  }

  ghost predicate Run(s: State, events: seq<Event>)
    decreases |events|
  {
    events != [] ==> Enabled(s, events[0]) && Run(Next(s, events[0]), events[1..])
  }

  ghost function Final(s: State, events: seq<Event>): State
    requires Run(s, events)
    decreases |events|
  {
    if events == [] then s else Final(Next(s, events[0]), events[1..])
  }

  lemma {:induction false} RunKeepsInv(s: State, events: seq<Event>)
    requires Inv(s) && Run(s, events)
    ensures Inv(Final(s, events)) && Later(s.rows, Final(s, events).rows)
    decreases |events|
  {
    if events != [] {
      AnswersStep(s, events[0]);
      WinsStep(s, events[0]);
      PagesStep(s, events[0]);
      QuestionsStep(s, events[0]);
      StepIsLater(s, events[0]);
      RunKeepsInv(Next(s, events[0]), events[1..]);
    }
  }

  /** Over every interleaving of settling, expiring and channel calls, with
      crashes and database faults: one call at most says it settled a row, and
      any two calls that answer for a row at all answer the same, which is what
      the row says. */
  lemma CallsAgree(events: seq<Event>, i: nat, j: nat)
    requires Run(BLANK, events) && i < j < |Final(BLANK, events).answers|
    requires Final(BLANK, events).answers[i].key == Final(BLANK, events).answers[j].key
    ensures var s := Final(BLANK, events);
            var a, b := s.answers[i], s.answers[j];
            && !(a.here && b.here)
            && (a.final.Some? && b.final.Some? ==> a.final == b.final == Read(s.rows, a.key))
  {
    RunKeepsInv(BLANK, events);
  }

  /** A row is settled iff exactly one update won it, and it says what that one
      wrote: the very choice, the very reply, or that it lapsed, and `EXPIRED`
      only ever comes from a lapse. */
  lemma SettledByOne(events: seq<Event>, key: Key)
    requires Run(BLANK, events) && key in Final(BLANK, events).rows
    ensures var s := Final(BLANK, events);
            var row := s.rows[key];
            && (row.resolution.Some? <==> exists i :: 0 <= i < |s.wins| && s.wins[i].key == key)
            && (forall i, j | 0 <= i < |s.wins| && 0 <= j < |s.wins| && s.wins[i].key == s.wins[j].key :: i == j)
            && (forall i | 0 <= i < |s.wins| && s.wins[i].key == key ::
                  match s.wins[i].verdict
                  case Choose(c) =>
                    row.resolution == Some(c) && row.answer.None? && c in {"RETRY", "KILL", "PAUSE_EPIC", "KILL_EPIC"}
                  case Reply(t) => row.resolution == Some("ANSWERED") && row.answer == Some(t)
                  case Lapse => row.resolution == Some("EXPIRED") && row.answer.None?)
  {
    RunKeepsInv(BLANK, events);
    var s := Final(BLANK, events);
    forall i | 0 <= i < |s.wins| && s.wins[i].key == key ensures Stands(s.rows, s.wins[i]) {
    }
  }

  /** So a row that reads EXPIRED was won by a lapse. */
  lemma ExpiredLapsed(events: seq<Event>, i: nat)
    requires Run(BLANK, events) && i < |Final(BLANK, events).wins|
    ensures var s := Final(BLANK, events);
            Read(s.rows, s.wins[i].key) == Some("EXPIRED") <==> s.wins[i].verdict.Lapse?
  {
    RunKeepsInv(BLANK, events);
    var s := Final(BLANK, events);
    assert Stands(s.rows, s.wins[i]);
    SettledByOne(events, s.wins[i].key);
    SpellingsDiffer(s.wins[i].verdict);
  }

  lemma SpellingsDiffer(v: Verdict)
    requires Spellable(v)
    ensures Spelling(v) == "EXPIRED" <==> v.Lapse?
  {
    assert "EXPIRED"[0] == 'E' && "ANSWERED"[0] == 'A' && "RETRY"[0] == 'R' && "KILL"[0] == 'K';
    assert "PAUSE_EPIC"[0] == 'P' && "KILL_EPIC"[0] == 'K';
  }

  /** In every run of crashes and retries a page has a row, a row marked as paged
      was paged, and no question is paged twice. */
  lemma RowBeforePage(events: seq<Event>, key: Key)
    requires Run(BLANK, events)
    ensures var s := Final(BLANK, events);
            && (key in s.outbox ==> key in s.rows)
            && (key in s.rows && s.rows[key].paged ==> key in s.outbox)
            && (key.Question? ==> forall i, j | 0 <= i < |s.outbox| && 0 <= j < |s.outbox| ::
                  s.outbox[i] == key == s.outbox[j] ==> i == j)
  {
    RunKeepsInv(BLANK, events);
  }

  /** What a run has settled, every continuation keeps. */
  lemma SettledForGood(events: seq<Event>, more: seq<Event>, key: Key)
    requires Run(BLANK, events) && Run(Final(BLANK, events), more) && Read(Final(BLANK, events).rows, key).Some?
    ensures Read(Final(Final(BLANK, events), more).rows, key) == Read(Final(BLANK, events).rows, key)
  {
    RunKeepsInv(BLANK, events);
    RunKeepsInv(Final(BLANK, events), more);
  }

  /** What the settling method does with nothing in between, its own steps of a
      run do. */
  lemma SettleIsARun(s: State, p: nat, key: Key, v: Verdict, fault: Fault, readable: bool) returns (events: seq<Event>)
    requires p !in s.calls
    requires v.Choose? ==> key.Escalation? && v.choice in {"RETRY", "KILL", "PAUSE_EPIC", "KILL_EPIC"}
    requires v.Reply? ==> key.Question?
    ensures Run(s, events)
    ensures var t := Final(s, events);
            var now := if fault.Unwritten? then s.rows else Guarded(s.rows, key, v);
            var r := Settles(s.rows, key, v, fault, now, readable);
            t.rows == now && t.answers == s.answers + [Answer(key, r.final, r.here)] && t.calls == s.calls
  {
    var first := Settle(p, key, v);
    var a := Next(s, first);
    var b := Next(a, Update(p, fault));
    if p in b.calls {
      OneMore(b, Reread(p, readable), []);
      OneMore(a, Update(p, fault), [Reread(p, readable)] + []);
      OneMore(s, first, [Update(p, fault)] + ([Reread(p, readable)] + []));
      events := [first] + ([Update(p, fault)] + ([Reread(p, readable)] + []));
    } else {
      OneMore(a, Update(p, fault), []);
      OneMore(s, first, [Update(p, fault)] + []);
      events := [first] + ([Update(p, fault)] + []);
    }
  }

  /** A call's own page and mark, once its row is there. */
  lemma PagesOn(s: State, p: nat, lands: bool, marks: bool) returns (events: seq<Event>)
    requires p in s.calls && s.calls[p].Paging? && s.calls[p].key in s.rows
    ensures Run(s, events)
    ensures var t := Final(s, events);
            (t.rows, t.outbox) == Sends(s.rows, s.outbox, s.calls[p].key, lands, marks) && t.calls == s.calls - {p}
  {
    var mid := Next(s, Page(p, lands));
    if lands {
      OneMore(mid, Marked(p, marks), []);
      OneMore(s, Page(p, lands), [Marked(p, marks)] + []);
      events := [Page(p, lands)] + ([Marked(p, marks)] + []);
    } else {
      OneMore(s, Page(p, lands), []);
      events := [Page(p, lands)] + [];
    }
  }

  /** What the send method does when it sends, its own steps of a run do. */
  lemma SendIsARun(s: State, p: nat, key: Key, supplied: bool, lands: bool, marks: bool) returns (events: seq<Event>)
    requires p !in s.calls && (key in s.rows ==> supplied && key.Escalation?)
    ensures Run(s, events)
    ensures var t := Final(s, events);
            (t.rows, t.outbox) == Sends(s.rows, s.outbox, key, lands, marks) && t.calls == s.calls
  {
    var first := Send(p, key, supplied);
    var a := Next(s, first);
    if supplied {
      var b := Next(a, Look(p));
      if key in s.rows {
        var rest := PagesOn(b, p, lands, marks);
        OneMore(a, Look(p), rest);
        OneMore(s, first, [Look(p)] + rest);
        events := [first] + ([Look(p)] + rest);
      } else {
        var rest := PagesOn(Next(b, Insert(p, true)), p, lands, marks);
        OneMore(b, Insert(p, true), rest);
        OneMore(a, Look(p), [Insert(p, true)] + rest);
        OneMore(s, first, [Look(p)] + ([Insert(p, true)] + rest));
        events := [first] + ([Look(p)] + ([Insert(p, true)] + rest));
      }
    } else {
      var rest := PagesOn(Next(a, Insert(p, true)), p, lands, marks);
      OneMore(a, Insert(p, true), rest);
      OneMore(s, first, [Insert(p, true)] + rest);
      events := [first] + ([Insert(p, true)] + rest);
    }
  }

  /** No one supplied this id, and at most one call will page it. */
  ghost predicate PagedOnce(s: State, key: Key) {
    CallsOnce(s, key) && OnePager(s, key) && OutboxOnce(s, key)
  }

  ghost predicate CallsOnce(s: State, key: Key) {
    forall p | p in s.calls && s.calls[p].key == key ::
      !s.calls[p].Looking? && (s.calls[p].Paging? ==> key in s.rows && key !in s.outbox)
  }

  predicate Pages(s: State, p: nat, key: Key) { p in s.calls && s.calls[p].Paging? && s.calls[p].key == key }

  ghost predicate OnePager(s: State, key: Key) {
    forall p, q | Pages(s, p, key) && Pages(s, q, key) :: p == q
  }

  ghost predicate OutboxOnce(s: State, key: Key) {
    && (forall i, j | 0 <= i < j < |s.outbox| && s.outbox[i] == key :: s.outbox[j] != key)
    && (key in s.outbox ==> key in s.rows)
  }

  predicate Supplies(e: Event, key: Key) { e.Send? && e.key == key && e.supplied }

  lemma {:induction false} CallsOnceStep(s: State, e: Event, key: Key)
    requires PagedOnce(s, key) && Enabled(s, e) && !Supplies(e, key)
    ensures CallsOnce(Next(s, e), key)
  {
    var t := Next(s, e);
    StepIsLater(s, e);
    forall p | p in t.calls && t.calls[p].key == key
      ensures !t.calls[p].Looking? && (t.calls[p].Paging? ==> key in t.rows && key !in t.outbox)
    {
      if e.Page? && p != e.p && t.calls[p].Paging? { assert Pages(s, p, key) && !Pages(s, e.p, key); }
    }
  }

  lemma {:induction false} OnePagerStep(s: State, e: Event, key: Key)
    requires PagedOnce(s, key) && Enabled(s, e) && !Supplies(e, key)
    ensures OnePager(Next(s, e), key)
  {
    var t := Next(s, e);
    forall p, q | Pages(t, p, key) && Pages(t, q, key) ensures p == q {
      if p != e.p { assert Pages(s, p, key); }
      if q != e.p { assert Pages(s, q, key); }
    }
  }

  lemma {:induction false} OutboxOnceStep(s: State, e: Event, key: Key)
    requires PagedOnce(s, key) && Enabled(s, e) && !Supplies(e, key)
    ensures OutboxOnce(Next(s, e), key)
  {
    StepIsLater(s, e);
  }

  lemma {:induction false} PagedOnceRun(s: State, events: seq<Event>, key: Key)
    requires PagedOnce(s, key) && Run(s, events) && forall e <- events :: !Supplies(e, key)
    ensures PagedOnce(Final(s, events), key)
    decreases |events|
  {
    if events != [] {
      assert events[0] in events && forall e <- events[1..] :: e in events;
      CallsOnceStep(s, events[0], key);
      OnePagerStep(s, events[0], key);
      OutboxOnceStep(s, events[0], key);
      PagedOnceRun(Next(s, events[0]), events[1..], key);
    }
  }

  /** An id that no send of the run was supplied with, minted ones above all, is
      paged once at most. */
  lemma UnsuppliedIsPagedOnce(events: seq<Event>, key: Key)
    requires Run(BLANK, events) && forall e <- events :: !Supplies(e, key)
    ensures var s := Final(BLANK, events);
            forall i, j | 0 <= i < |s.outbox| && 0 <= j < |s.outbox| && s.outbox[i] == key == s.outbox[j] :: i == j
  {
    PagedOnceRun(BLANK, events, key);
  }

  /** Nothing of the kind holds of escalations: a supplied id whose row is there
      is paged every time, settled or not. */
  lemma EscalationPagedAgain(s: State, key: Key)
    requires 0 !in s.calls && key.Escalation? && key in s.rows
    ensures var again := [Send(0, key, true), Look(0), Page(0, true)];
            Run(s, again) && Final(s, again).outbox == s.outbox + [key]
  {
    var s0 := Goes(s, 0, Looking(key));
    var s1 := Goes(s0, 0, Paging(key));
    OneMore(Next(s1, Page(0, true)), Crash(0), []);
    OneMore(s1, Page(0, true), []);
    OneMore(s0, Look(0), [Page(0, true)]);
    OneMore(s, Send(0, key, true), [Look(0), Page(0, true)]);
  }

  lemma OneMore(s: State, e: Event, rest: seq<Event>)
    requires Enabled(s, e) && Run(Next(s, e), rest)
    ensures Run(s, [e] + rest) && Final(s, [e] + rest) == Final(Next(s, e), rest)
  {
    assert ([e] + rest)[1..] == rest;
  }
}
