/** Judge objections: which are raised, which a later evaluation resolves, and
    what `fully_fixed` promises. */
module Resolutions {
  import opened Wrappers
  datatype Score = Score(scenario: string, passed: bool, reasoning: string)

  datatype Evaluation = Evaluation(
    id: string, ordinal: int, fingerprint: string, revision: string, status: string, scores: seq<Score>,
    feedback: string)

  datatype Objection = Objection(id: string, criterion: Option<string>, feedback: string)

  datatype Disposition = Disposition(id: string, objection: string, criterion: string)

  /** Dispositioned by the first disposition of the objection; not judged, in the
      judge's own word. */
  datatype Status =
    | Dispositioned(disposition: string)
    | Unresolved
    | NotJudged(word: string)
    | Unverified
    | VerifiedFixed

  datatype Resolution = Resolution(objection: string, criterion: Option<string>, status: Status,
                                   later: Option<Evaluation>)

  // ---- objections

  function Failures(e: Evaluation, scores: seq<Score>): seq<Objection> {
    if scores == [] then []
    else (if scores[0].passed then [] else [Objection(e.id, Some(scores[0].scenario), scores[0].reasoning)])
         + Failures(e, scores[1..])
  }

  function Judged(evaluations: seq<Evaluation>): seq<Objection> {
    if evaluations == [] then []
    else Judged(evaluations[..|evaluations| - 1])
         + Failures(evaluations[|evaluations| - 1], evaluations[|evaluations| - 1].scores)
  }

  function Ids(records: seq<Objection>): set<string> { set o | o in records :: o.id }

  /** A disposition of an objection nobody raised raises it. */
  function Disposed(records: seq<Objection>, dispositions: seq<Disposition>): seq<Objection> {
    if dispositions == [] then records
    else
      var before := Disposed(records, dispositions[..|dispositions| - 1]);
      var d := dispositions[|dispositions| - 1];
      if d.objection in Ids(before) then before else before + [Objection(d.objection, Some(d.criterion), "")]
  }

  function Objections(evaluations: seq<Evaluation>, explicit: seq<Objection>,
                      dispositions: seq<Disposition>): seq<Objection> {
    Disposed(Judged(evaluations) + explicit, dispositions)
  }

  // ---- one resolution

  predicate Passes(e: Evaluation, scenario: string) {
    exists s <- e.scores :: s.scenario == scenario && s.passed
  }

  predicate Fails(e: Evaluation, scenario: string) {
    exists s <- e.scores :: s.scenario == scenario && !s.passed
  }

  predicate Recording(e: Evaluation, scenario: string) {
    exists s <- e.scores :: s.scenario == scenario
  }

  function Original(evaluations: seq<Evaluation>, id: string): (r: Option<Evaluation>)
    ensures r.Some? ==> r.value in evaluations && r.value.id == id
  {
    if evaluations == [] then None
    else if evaluations[0].id == id then Some(evaluations[0])
    else Original(evaluations[1..], id)
  }

  predicate Answers(later: Evaluation, original: Evaluation, scenario: string) {
    && later.id != original.id && later.ordinal > original.ordinal
    && later.revision != original.revision && Passes(later, scenario)
  }

  /** The last evaluation, in record order, that answers the original. */
  function LastAnswer(evaluations: seq<Evaluation>, original: Evaluation, scenario: string): Option<Evaluation> {
    if evaluations == [] then None
    else if Answers(evaluations[|evaluations| - 1], original, scenario) then Some(evaluations[|evaluations| - 1])
    else LastAnswer(evaluations[..|evaluations| - 1], original, scenario)
  }

  predicate Convincing(later: Evaluation, original: Evaluation) {
    later.status == "valid" && later.fingerprint == original.fingerprint && later.fingerprint != ""
  }

  function Disposing(dispositions: seq<Disposition>, id: string): Option<Disposition> {
    if dispositions == [] then None
    else if dispositions[0].objection == id then Some(dispositions[0])
    else Disposing(dispositions[1..], id)
  }

  /** `judge_status.replace("_", "-")`. */
  function Dashed(word: string): string {
    seq(|word|, i requires 0 <= i < |word| => if word[i] == '_' then '-' else word[i])
  }

  function Resolve(o: Objection, evaluations: seq<Evaluation>, dispositions: seq<Disposition>, judge: string,
                   contradicted: bool): Resolution {
    if Disposing(dispositions, o.id).Some?
    then Resolution(o.id, o.criterion, Dispositioned(Disposing(dispositions, o.id).value.id), None)
    else if contradicted then Resolution(o.id, o.criterion, Unresolved, None)
    else if judge in {"not_run", "unavailable", "skipped"}
    then Resolution(o.id, o.criterion, NotJudged(Dashed(judge)), None)
    else if o.criterion.None? || o.id == "" then Resolution(o.id, o.criterion, Unverified, None)
    else
      var original := Original(evaluations, o.id);
      if original.None? then Resolution(o.id, o.criterion, Unverified, None)
      else
        var later := LastAnswer(evaluations, original.value, o.criterion.value);
        if later.None? || !Convincing(later.value, original.value) then Resolution(o.id, o.criterion, Unverified, None)
        else Resolution(o.id, o.criterion, VerifiedFixed, later)
  }

  // ---- the report's verdict

  /** A valid evaluation that scored nothing and still complained. */
  predicate Wordless(e: Evaluation) { e.status == "valid" && e.scores == [] && e.feedback != "" }

  function Resolutions(evaluations: seq<Evaluation>, explicit: seq<Objection>, dispositions: seq<Disposition>,
                       judge: Option<string>, contradicted: bool): seq<Resolution> {
    var raised := Objections(evaluations, explicit, dispositions);
    var status := if judge.None? || judge.value == "" then "valid" else judge.value;
    seq(|raised|, i requires 0 <= i < |raised| => Resolve(raised[i], evaluations, dispositions, status, contradicted))
    + WordlessResolutions(evaluations)
  }

  function WordlessResolutions(evaluations: seq<Evaluation>): seq<Resolution> {
    if evaluations == [] then []
    else WordlessResolutions(evaluations[..|evaluations| - 1])
         + (if Wordless(evaluations[|evaluations| - 1])
            then [Resolution(evaluations[|evaluations| - 1].id, None, Unverified, None)] else [])
  }

  predicate FullyFixed(evaluations: seq<Evaluation>, explicit: seq<Objection>, dispositions: seq<Disposition>,
                       judge: Option<string>, contradicted: bool) {
    var all := Resolutions(evaluations, explicit, dispositions, judge, contradicted);
    && all != [] && (forall r <- all :: r.status.VerifiedFixed?)
    && !contradicted && dispositions == [] && (judge.None? || judge.value == "valid")
  }

  // ---- lemmas

  lemma {:induction false} FailuresIn(e: Evaluation, scores: seq<Score>, o: Objection)
    ensures o in Failures(e, scores)
            <==> exists s :: s in scores && !s.passed && o == Objection(e.id, Some(s.scenario), s.reasoning)
  {
    if scores != [] {
      FailuresIn(e, scores[1..], o);
      assert scores == [scores[0]] + scores[1..];
    }
  }

  lemma {:induction false} JudgedIn(evaluations: seq<Evaluation>, o: Objection)
    ensures o in Judged(evaluations) <==> exists e :: e in evaluations && o in Failures(e, e.scores)
  {
    if evaluations != [] {
      var n := |evaluations| - 1;
      JudgedIn(evaluations[..n], o);
      assert evaluations == evaluations[..n] + [evaluations[n]];
    }
  }

  /** Every failed scenario is an objection under its evaluation's id. */
  lemma FailureIsRaised(evaluations: seq<Evaluation>, explicit: seq<Objection>, e: Evaluation, scenario: string)
      returns (o: Objection)
    requires e in evaluations && Fails(e, scenario)
    ensures o in Objections(evaluations, explicit, []) && o.id == e.id && o.criterion == Some(scenario)
  {
    var s :| s in e.scores && s.scenario == scenario && !s.passed;
    o := Objection(e.id, Some(scenario), s.reasoning);
    FailuresIn(e, e.scores, o);
    JudgedIn(evaluations, o);
  }

  lemma {:induction false} LastAnswerIs(evaluations: seq<Evaluation>, original: Evaluation, scenario: string)
    ensures var r := LastAnswer(evaluations, original, scenario);
            && (r.None? <==> forall e <- evaluations :: !Answers(e, original, scenario))
            && (r.Some? ==> r.value in evaluations && Answers(r.value, original, scenario))
  {
    if evaluations != [] {
      var n := |evaluations| - 1;
      LastAnswerIs(evaluations[..n], original, scenario);
      assert evaluations == evaluations[..n] + [evaluations[n]];
    }
  }

  /** A repeated id that is not empty is everybody's id. */
  ghost predicate SafeIds(ids: seq<string>) {
    forall i, j, k | 0 <= i < j < |ids| && 0 <= k < |ids| && ids[i] == ids[j] != "" :: ids[k] == ids[i]
  }

  ghost predicate HasIds(evaluations: seq<Evaluation>, ids: seq<string>) {
    |evaluations| == |ids| && forall i | 0 <= i < |ids| :: evaluations[i].id == ids[i]
  }

  /** No evaluation with the greatest ordinal of those recording a scenario fails it. */
  ghost predicate Closed(evaluations: seq<Evaluation>) {
    forall last, scenario | last in evaluations && Latest(evaluations, last, scenario) :: !Fails(last, scenario)
  }

  ghost predicate Latest(evaluations: seq<Evaluation>, last: Evaluation, scenario: string) {
    Recording(last, scenario) && forall e <- evaluations :: Recording(e, scenario) ==> e.ordinal <= last.ordinal
  }

  /** What answers one failed scenario of a fully fixed report: a valid,
      strictly later pass of another revision under the same criteria. */
  lemma FailureIsAnswered(evaluations: seq<Evaluation>, ids: seq<string>, explicit: seq<Objection>,
                          dispositions: seq<Disposition>, judge: Option<string>, contradicted: bool,
                          e: Evaluation, scenario: string) returns (later: Evaluation)
    requires HasIds(evaluations, ids) && SafeIds(ids)
    requires FullyFixed(evaluations, explicit, dispositions, judge, contradicted)
    requires e in evaluations && Fails(e, scenario)
    ensures later in evaluations && Passes(later, scenario) && later.status == "valid"
    ensures later.ordinal > e.ordinal && later.revision != e.revision
    ensures later.fingerprint == e.fingerprint != ""
  {
    var o := FailureIsRaised(evaluations, explicit, e, scenario);
    var raised := Objections(evaluations, explicit, dispositions);
    var i :| 0 <= i < |raised| && raised[i] == o;
    var r := Resolutions(evaluations, explicit, dispositions, judge, contradicted)[i];
    assert r in Resolutions(evaluations, explicit, dispositions, judge, contradicted);
    var original := Original(evaluations, e.id).value;
    LastAnswerIs(evaluations, original, scenario);
    later := r.later.value;
    OriginalUnder(evaluations, ids, e, later);
  }

  /** An id that another evaluation does not have has one evaluation. */
  lemma OriginalUnder(evaluations: seq<Evaluation>, ids: seq<string>, e: Evaluation, other: Evaluation)
    requires HasIds(evaluations, ids) && SafeIds(ids)
    requires e in evaluations && other in evaluations && other.id != e.id && e.id != ""
    ensures Original(evaluations, e.id) == Some(e)
  {
    var i :| 0 <= i < |ids| && evaluations[i] == e;
    var k :| 0 <= k < |ids| && evaluations[k] == other;
    var f := OriginalAt(evaluations, e.id, i);
    assert ids[f] == ids[i] && ids[k] != ids[i];
  }

  lemma {:induction false} OriginalAt(evaluations: seq<Evaluation>, id: string, i: nat) returns (f: nat)
    requires i < |evaluations| && evaluations[i].id == id
    ensures f <= i && evaluations[f].id == id && Original(evaluations, id) == Some(evaluations[f])
  {
    if evaluations[0].id == id {
      f := 0;
    } else {
      f := OriginalAt(evaluations[1..], id, i - 1);
      f := f + 1;
    }
  }

  /** Objections close for good under safe ids. */
  lemma ClosedForGood(evaluations: seq<Evaluation>, ids: seq<string>, explicit: seq<Objection>,
                      dispositions: seq<Disposition>, judge: Option<string>, contradicted: bool)
    requires HasIds(evaluations, ids) && SafeIds(ids)
    requires FullyFixed(evaluations, explicit, dispositions, judge, contradicted)
    ensures Closed(evaluations)
  {
    forall last, scenario | last in evaluations && Latest(evaluations, last, scenario) ensures !Fails(last, scenario) {
      if Fails(last, scenario) {
        var later := FailureIsAnswered(evaluations, ids, explicit, dispositions, judge, contradicted, last, scenario);
        assert Recording(later, scenario);
        assert false;
      }
    }
  }

  /** Exactly under safe ids: for every other sequence of ids there is a fully
      fixed report whose latest evaluation of a scenario fails it. */
  lemma ClosedExactlyUnderSafeIds(ids: seq<string>)
    ensures SafeIds(ids)
            <==> forall evaluations, explicit, dispositions, judge, contradicted
                   | HasIds(evaluations, ids) && FullyFixed(evaluations, explicit, dispositions, judge, contradicted) ::
                   Closed(evaluations)
  {
    forall evaluations, explicit, dispositions, judge, contradicted
      | SafeIds(ids) && HasIds(evaluations, ids) && FullyFixed(evaluations, explicit, dispositions, judge, contradicted)
      ensures Closed(evaluations)
    {
      ClosedForGood(evaluations, ids, explicit, dispositions, judge, contradicted);
    }
    if !SafeIds(ids) {
      var i, j, k :| 0 <= i < j < |ids| && 0 <= k < |ids| && ids[i] == ids[j] != "" && ids[k] != ids[i];
      var evaluations := UnsafeIdsHide(ids, i, j, k);
    }
  }

  // ---- unsafe ids

  const FAIL := Score("s", false, "")
  const PASS := Score("s", true, "")
  const ELSE := Score("t", true, "")

  /** Evaluation `j` fails last, `k` passed before it and after everyone else. */
  function Hiding(ids: seq<string>, j: nat, k: nat): (r: seq<Evaluation>)
    requires j < |ids| && k < |ids| && j != k
    ensures HasIds(r, ids)
  {
    seq(|ids|, m requires 0 <= m < |ids| =>
      if m == j then Evaluation(ids[m], 3, "c", "r3", "valid", [FAIL], "")
      else if m == k then Evaluation(ids[m], 2, "c", "r2", "valid", [PASS], "")
      else Evaluation(ids[m], 1, "c", "r1", "valid", [ELSE], ""))
  }

  lemma HidingScores(ids: seq<string>, j: nat, k: nat, m: nat)
    requires j < |ids| && k < |ids| && j != k && m < |ids|
    ensures var e := Hiding(ids, j, k)[m];
            && (Fails(e, "s") <==> m == j) && (Passes(e, "s") <==> m == k)
            && (forall o :: o in Failures(e, e.scores) ==> m == j && o == Objection(ids[j], Some("s"), ""))
            && e.scores != []
  {
    var e := Hiding(ids, j, k)[m];
    assert FAIL in [FAIL] && PASS in [PASS] && "s"[0] != "t"[0];
    forall o | o in Failures(e, e.scores) ensures m == j && o == Objection(ids[j], Some("s"), "") {
      FailuresIn(e, e.scores, o);
    }
  }

  lemma HidingIsResolved(ids: seq<string>, i: nat, j: nat, k: nat)
    requires i < j < |ids| && k < |ids| && ids[i] == ids[j] != "" && ids[k] != ids[i]
    ensures var o := Objection(ids[j], Some("s"), "");
            Resolve(o, Hiding(ids, j, k), [], "valid", false).status.VerifiedFixed?
  {
    var evaluations := Hiding(ids, j, k);
    var f := OriginalAt(evaluations, ids[j], i);
    var original := evaluations[f];
    LastAnswerIs(evaluations, original, "s");
    HidingScores(ids, j, k, k);
    assert Answers(evaluations[k], original, "s") by { assert "r1"[1] != "r2"[1]; }
    var later := LastAnswer(evaluations, original, "s").value;
    var m :| 0 <= m < |evaluations| && evaluations[m] == later;
    HidingScores(ids, j, k, m);
    ResolvedByLast(Objection(ids[j], Some("s"), ""), evaluations, original, later);
  }

  lemma {:induction false} UnsafeIdsHide(ids: seq<string>, i: nat, j: nat, k: nat)
      returns (evaluations: seq<Evaluation>)
    requires i < j < |ids| && k < |ids| && ids[i] == ids[j] != "" && ids[k] != ids[i]
    ensures HasIds(evaluations, ids) && FullyFixed(evaluations, [], [], None, false) && !Closed(evaluations)
    ensures evaluations == Hiding(ids, j, k)
  {
    evaluations := Hiding(ids, j, k);
    forall m | 0 <= m < |evaluations| ensures evaluations[m].scores != [] { HidingScores(ids, j, k, m); }
    ScoredIsWordless(evaluations);
    HidingScores(ids, j, k, j);
    HidingIsResolved(ids, i, j, k);
    var found := FailureIsRaised(evaluations, [], evaluations[j], "s");
    forall o | o in Judged(evaluations) ensures o == Objection(ids[j], Some("s"), "") { HidingRaises(ids, j, k, o); }
    AllFixed(evaluations, Objection(ids[j], Some("s"), ""));
    HidingIsOpen(ids, j, k);
  }

  lemma {:induction false} HidingIsOpen(ids: seq<string>, j: nat, k: nat)
    requires j < |ids| && k < |ids| && j != k
    ensures !Closed(Hiding(ids, j, k))
  {
    var evaluations := Hiding(ids, j, k);
    HidingScores(ids, j, k, j);
    assert forall e <- evaluations :: e.ordinal <= evaluations[j].ordinal;
    assert evaluations[j] in evaluations && Latest(evaluations, evaluations[j], "s");
  }

  lemma HidingRaises(ids: seq<string>, j: nat, k: nat, o: Objection)
    requires j < |ids| && k < |ids| && j != k && o in Judged(Hiding(ids, j, k))
    ensures o == Objection(ids[j], Some("s"), "")
  {
    var evaluations := Hiding(ids, j, k);
    JudgedIn(evaluations, o);
    var e :| e in evaluations && o in Failures(e, e.scores);
    var m :| 0 <= m < |evaluations| && evaluations[m] == e;
    HidingScores(ids, j, k, m);
  }

  /** A report whose one objection is resolved is fully fixed. */
  lemma AllFixed(evaluations: seq<Evaluation>, o: Objection)
    requires Judged(evaluations) != [] && WordlessResolutions(evaluations) == []
    requires forall r | r in Judged(evaluations) :: r == o
    requires Resolve(o, evaluations, [], "valid", false).status.VerifiedFixed?
    ensures FullyFixed(evaluations, [], [], None, false)
  {
    var raised := Objections(evaluations, [], []);
    assert raised == Judged(evaluations);
    assert forall i | 0 <= i < |raised| :: raised[i] in raised;
  }

  /** For instance two runs under one id: the first one's ordinal speaks for both. */
  lemma {:induction false} SharedIdHidesFailure() returns (evaluations: seq<Evaluation>)
    ensures FullyFixed(evaluations, [], [], None, false)
    ensures |evaluations| == 3 && Fails(evaluations[1], "s") && evaluations[1].ordinal > evaluations[0].ordinal
    ensures forall e <- evaluations :: e.ordinal <= evaluations[1].ordinal
  {
    var ids := ["x", "x", "y"];
    assert "x"[0] != "y"[0] && ids[0] == ids[1] != "";
    evaluations := UnsafeIdsHide(ids, 0, 1, 2);
    HidingScores(ids, 1, 2, 1);
  }

  lemma {:induction false} ScoredIsWordless(evaluations: seq<Evaluation>)
    requires forall e <- evaluations :: e.scores != []
    ensures WordlessResolutions(evaluations) == []
  {
    if evaluations != [] {
      assert evaluations[|evaluations| - 1] in evaluations;
      ScoredIsWordless(evaluations[..|evaluations| - 1]);
    }
  }

  lemma OneScore(e: Evaluation, s: Score)
    ensures Failures(e, [s]) == if s.passed then [] else [Objection(e.id, Some(s.scenario), s.reasoning)]
  {
    assert [s][1..] == [];
  }

  lemma JudgedMore(evaluations: seq<Evaluation>, e: Evaluation)
    ensures Judged(evaluations + [e]) == Judged(evaluations) + Failures(e, e.scores)
  {
    assert (evaluations + [e])[..|evaluations|] == evaluations;
  }

  lemma ResolvedByLast(o: Objection, evaluations: seq<Evaluation>, original: Evaluation, later: Evaluation)
    requires o.criterion.Some? && o.id != "" && Original(evaluations, o.id) == Some(original)
    requires LastAnswer(evaluations, original, o.criterion.value) == Some(later) && Convincing(later, original)
    ensures Resolve(o, evaluations, [], "valid", false) == Resolution(o.id, o.criterion, VerifiedFixed, Some(later))
  {
    assert "valid"[0] == 'v' && "not_run"[0] == 'n' && "unavailable"[0] == 'u' && "skipped"[0] == 's';
  }

  // ---- what a report says, in evaluations and dispositions alone

  ghost predicate FirstWith(evaluations: seq<Evaluation>, id: string, i: nat) {
    i < |evaluations| && evaluations[i].id == id && forall j | 0 <= j < i :: evaluations[j].id != id
  }

  /** Another, later evaluation of another revision that passes the scenario. */
  ghost predicate Reply(later: Evaluation, original: Evaluation, scenario: string) {
    && later.id != original.id && later.ordinal > original.ordinal && later.revision != original.revision
    && exists s :: s in later.scores && s.scenario == scenario && s.passed
  }

  /** The last one in the order of the records. */
  ghost predicate LastReply(evaluations: seq<Evaluation>, original: Evaluation, scenario: string, i: nat) {
    && i < |evaluations| && Reply(evaluations[i], original, scenario)
    && forall j | i < j < |evaluations| :: !Reply(evaluations[j], original, scenario)
  }

  /** The objection names a scenario of a recorded evaluation, and the last reply
      to that one is valid and under the same criteria, which it names. */
  ghost predicate Fixed(o: Objection, evaluations: seq<Evaluation>, f: nat, l: nat) {
    && o.criterion.Some? && o.id != "" && FirstWith(evaluations, o.id, f)
    && LastReply(evaluations, evaluations[f], o.criterion.value, l)
    && evaluations[l].status == "valid"
    && evaluations[l].fingerprint == evaluations[f].fingerprint && evaluations[l].fingerprint != ""
  }

  lemma {:induction false} OriginalMeans(evaluations: seq<Evaluation>, id: string)
    ensures Original(evaluations, id).None? <==> forall j | 0 <= j < |evaluations| :: evaluations[j].id != id
    ensures forall f: nat | FirstWith(evaluations, id, f) :: Original(evaluations, id) == Some(evaluations[f])
    ensures Original(evaluations, id).Some? ==> exists f: nat :: FirstWith(evaluations, id, f)
  {
    if evaluations != [] {
      var rest := evaluations[1..];
      OriginalMeans(rest, id);
      forall j | 0 < j < |evaluations| ensures evaluations[j] == rest[j - 1] {
      }
      if evaluations[0].id == id {
        assert FirstWith(evaluations, id, 0);
      } else {
        forall f: nat | FirstWith(evaluations, id, f) ensures Original(evaluations, id) == Some(evaluations[f]) {
          assert FirstWith(rest, id, f - 1);
        }
        if Original(rest, id).Some? {
          var f: nat :| FirstWith(rest, id, f);
          assert FirstWith(evaluations, id, f + 1);
        }
      }
    }
  }

  lemma {:induction false} LastAnswerMeans(evaluations: seq<Evaluation>, original: Evaluation, scenario: string, l: nat)
    ensures LastReply(evaluations, original, scenario, l) ==>
              LastAnswer(evaluations, original, scenario) == Some(evaluations[l])
  {
    if LastReply(evaluations, original, scenario, l) && l < |evaluations| - 1 {
      var n := |evaluations| - 1;
      var rest := evaluations[..n];
      assert !Reply(evaluations[n], original, scenario);
      assert rest[l] == evaluations[l] && forall j | l < j < n :: rest[j] == evaluations[j];
      LastAnswerMeans(rest, original, scenario, l);
    }
  }

  lemma {:induction false} LastReplyIs(evaluations: seq<Evaluation>, original: Evaluation, scenario: string)
      returns (l: nat)
    requires LastAnswer(evaluations, original, scenario).Some?
    ensures LastReply(evaluations, original, scenario, l)
  {
    var n := |evaluations| - 1;
    if Reply(evaluations[n], original, scenario) {
      l := n;
    } else {
      var rest := evaluations[..n];
      l := LastReplyIs(rest, original, scenario);
      assert forall j | 0 <= j < n :: rest[j] == evaluations[j];
    }
  }

  ghost predicate FirstDisposing(dispositions: seq<Disposition>, id: string, i: nat) {
    && i < |dispositions| && dispositions[i].objection == id
    && forall j | 0 <= j < i :: dispositions[j].objection != id
  }

  lemma {:induction false} DisposingMeans(dispositions: seq<Disposition>, id: string)
    ensures Disposing(dispositions, id).None?
            <==> forall j | 0 <= j < |dispositions| :: dispositions[j].objection != id
    ensures forall i: nat | FirstDisposing(dispositions, id, i) :: Disposing(dispositions, id) == Some(dispositions[i])
  {
    if dispositions != [] {
      var rest := dispositions[1..];
      DisposingMeans(rest, id);
      forall j | 0 < j < |dispositions| ensures dispositions[j] == rest[j - 1] {
      }
      forall i: nat | FirstDisposing(dispositions, id, i) ensures Disposing(dispositions, id) == Some(dispositions[i]) {
        if i > 0 { assert FirstDisposing(rest, id, i - 1); }
      }
    }
  }

  ghost predicate Disposes(dispositions: seq<Disposition>, id: string) {
    exists i :: 0 <= i < |dispositions| && dispositions[i].objection == id
  }

  /** What became of an objection: a disposition names itself, then come a
      contradiction and a judge that did not run, in its own word; otherwise it
      is fixed exactly as `Fixed` says, by the last reply, and else unverified. */
  lemma {:induction false} ResolvesExactly(o: Objection, evaluations: seq<Evaluation>, dispositions: seq<Disposition>,
                                           judge: string, contradicted: bool)
    ensures var r := Resolve(o, evaluations, dispositions, judge, contradicted);
            var disposed := Disposes(dispositions, o.id);
            var judged := judge != "not_run" && judge != "unavailable" && judge != "skipped";
            var open := !disposed && !contradicted && judged;
            && r.objection == o.id && r.criterion == o.criterion
            && (r.status.Dispositioned? <==> disposed)
            && (forall i: nat | FirstDisposing(dispositions, o.id, i) :: r.status == Dispositioned(dispositions[i].id))
            && (r.status.Unresolved? <==> !disposed && contradicted)
            && (r.status.NotJudged? <==> !disposed && !contradicted && !judged)
            && (r.status.NotJudged? ==>
                  r.status.word == if judge == "not_run" then "not-run" else judge)
            && (r.status.VerifiedFixed? <==> open && exists f: nat, l: nat :: Fixed(o, evaluations, f, l))
            && (r.status.Unverified? <==> open && !exists f: nat, l: nat :: Fixed(o, evaluations, f, l))
            && (r.later.Some? <==> r.status.VerifiedFixed?)
            && (forall f: nat, l: nat | open && Fixed(o, evaluations, f, l) :: r.later == Some(evaluations[l]))
  {
    DisposingMeans(dispositions, o.id);
    if judge in {"not_run", "unavailable", "skipped"} { Words(judge); }
    FixedMeans(o, evaluations);
    if Disposes(dispositions, o.id) {
      var i :| 0 <= i < |dispositions| && dispositions[i].objection == o.id;
    }
  }

  lemma Words(judge: string)
    requires judge in {"not_run", "unavailable", "skipped"}
    ensures Dashed(judge) == if judge == "not_run" then "not-run" else judge
  {
    assert Dashed("not_run") == "not-run" && Dashed("unavailable") == "unavailable" && Dashed("skipped") == "skipped";
  }

  /** The search for an original and its last reply. */
  lemma {:induction false} FixedMeans(o: Objection, evaluations: seq<Evaluation>)
    ensures var original := Original(evaluations, o.id);
            var later := if original.None? || o.criterion.None? then None
                         else LastAnswer(evaluations, original.value, o.criterion.value);
            var fixed := o.criterion.Some? && o.id != "" && later.Some? && Convincing(later.value, original.value);
            && (fixed <==> exists f: nat, l: nat :: Fixed(o, evaluations, f, l))
            && (forall f: nat, l: nat | Fixed(o, evaluations, f, l) :: later == Some(evaluations[l]))
  {
    OriginalMeans(evaluations, o.id);
    var original := Original(evaluations, o.id);
    if original.Some? && o.criterion.Some? {
      var scenario := o.criterion.value;
      forall l: nat | LastReply(evaluations, original.value, scenario, l)
        ensures LastAnswer(evaluations, original.value, scenario) == Some(evaluations[l])
      {
        LastAnswerMeans(evaluations, original.value, scenario, l);
      }
      var f: nat :| FirstWith(evaluations, o.id, f);
      if LastAnswer(evaluations, original.value, scenario).Some? {
        var l := LastReplyIs(evaluations, original.value, scenario);
        if o.id != "" && Convincing(evaluations[l], original.value) { assert Fixed(o, evaluations, f, l); }
      }
    }
  }

  // ---- which objections there are

  ghost predicate Failed(evaluations: seq<Evaluation>, o: Objection) {
    exists e, s :: e in evaluations && s in e.scores && !s.passed
                   && o == Objection(e.id, Some(s.scenario), s.reasoning)
  }

  lemma {:induction false} JudgedMeans(evaluations: seq<Evaluation>, o: Objection)
    ensures o in Judged(evaluations) <==> Failed(evaluations, o)
  {
    JudgedIn(evaluations, o);
    forall e | e in evaluations
      ensures o in Failures(e, e.scores)
              <==> exists s :: s in e.scores && !s.passed && o == Objection(e.id, Some(s.scenario), s.reasoning)
    {
      FailuresIn(e, e.scores, o);
    }
  }

  /** In the order of the evaluations, and of the scores in each. */
  lemma {:induction false} JudgedJoins(a: seq<Evaluation>, b: seq<Evaluation>)
    ensures Judged(a + b) == Judged(a) + Judged(b)
  {
    if b == [] {
      assert a + b == a;
    } else {
      var n := |b| - 1;
      assert a + b == (a + b[..n]) + [b[n]] && b == b[..n] + [b[n]];
      JudgedMore(a + b[..n], b[n]);
      JudgedMore(b[..n], b[n]);
      JudgedJoins(a, b[..n]);
    }
  }

  lemma {:induction false} FailuresJoin(e: Evaluation, a: seq<Score>, b: seq<Score>)
    ensures Failures(e, a + b) == Failures(e, a) + Failures(e, b)
  {
    if a == [] {
      assert a + b == b;
    } else {
      assert (a + b)[0] == a[0] && (a + b)[1..] == a[1..] + b;
      FailuresJoin(e, a[1..], b);
    }
  }

  /** Beyond the records there is one objection for each id they lack that a
      disposition has, as the first one states it. */
  lemma {:induction false} DisposedMeans(records: seq<Objection>, dispositions: seq<Disposition>, o: Objection)
    ensures o in Disposed(records, dispositions)
            <==> o in records
                 || ((forall r <- records :: r.id != o.id)
                     && exists i: nat ::
                          FirstDisposing(dispositions, o.id, i)
                          && o == Objection(dispositions[i].objection, Some(dispositions[i].criterion), ""))
    ensures records <= Disposed(records, dispositions)
    ensures o.id in Ids(Disposed(records, dispositions))
            <==> o.id in Ids(records) || Disposes(dispositions, o.id)
  {
    if dispositions != [] {
      var n := |dispositions| - 1;
      var front := dispositions[..n];
      DisposedMeans(records, front, o);
      DisposedStep(records, dispositions, o);
      forall j | 0 <= j < n ensures dispositions[j] == front[j] {
      }
      forall i: nat ensures FirstDisposing(dispositions, o.id, i)
                            <==> FirstDisposing(front, o.id, i)
                                 || (i == n && dispositions[n].objection == o.id && !Disposes(front, o.id))
      {
      }
    }
  }

  lemma {:induction false} DisposedStep(records: seq<Objection>, dispositions: seq<Disposition>, o: Objection)
    requires dispositions != []
    ensures var n := |dispositions| - 1;
            var before, after := Disposed(records, dispositions[..n]), Disposed(records, dispositions);
            var d := dispositions[n];
            && before <= after
            && (o in after <==> o in before
                                || (d.objection !in Ids(before) && o == Objection(d.objection, Some(d.criterion), "")))
            && (o.id in Ids(after) <==> o.id in Ids(before) || o.id == d.objection)
  {
    var n := |dispositions| - 1;
    var before := Disposed(records, dispositions[..n]);
    var d := dispositions[n];
    if d.objection !in Ids(before) {
      var more := Objection(d.objection, Some(d.criterion), "");
      assert forall x :: x in before + [more] <==> x in before || x == more;
      if o.id == d.objection { assert more in before + [more]; }
    }
  }

  lemma {:induction false} WordlessMeans(evaluations: seq<Evaluation>, r: Resolution)
    ensures r in WordlessResolutions(evaluations)
            <==> exists e :: e in evaluations && e.status == "valid" && |e.scores| == 0 && e.feedback != ""
                             && r == Resolution(e.id, None, Unverified, None)
  {
    if evaluations != [] {
      var n := |evaluations| - 1;
      WordlessMeans(evaluations[..n], r);
      assert evaluations == evaluations[..n] + [evaluations[n]];
    }
  }

  /** The report's word: there was an objection; nothing contradicts, disposes of
      it or leaves it unjudged; each failed scenario and each explicit objection
      is fixed; and no valid evaluation complained without scoring anything. */
  lemma {:induction false} FullyFixedExactly(evaluations: seq<Evaluation>, explicit: seq<Objection>,
                                             dispositions: seq<Disposition>, judge: Option<string>,
                                             contradicted: bool)
    ensures FullyFixed(evaluations, explicit, dispositions, judge, contradicted)
            <==> !contradicted && |dispositions| == 0 && (judge.None? || judge.value == "valid")
                 && (|explicit| > 0 || exists o :: Failed(evaluations, o))
                 && (forall o | o in explicit || Failed(evaluations, o) ::
                       exists f: nat, l: nat :: Fixed(o, evaluations, f, l))
                 && (forall e | e in evaluations ::
                       !(e.status == "valid" && |e.scores| == 0 && e.feedback != ""))
  {
    if !contradicted && dispositions == [] && (judge.None? || judge.value == "valid") {
      var raised := Objections(evaluations, explicit, []);
      assert raised == Judged(evaluations) + explicit;
      forall o ensures o in raised <==> o in explicit || Failed(evaluations, o) { JudgedMeans(evaluations, o); }
      forall o | o in raised
        ensures Resolve(o, evaluations, [], "valid", false).status.VerifiedFixed?
                <==> exists f: nat, l: nat :: Fixed(o, evaluations, f, l)
      {
        JudgeWords();
        ResolvesExactly(o, evaluations, [], "valid", false);
      }
      if |raised| > 0 { assert raised[0] in raised; }
      forall o | o in explicit || Failed(evaluations, o) ensures |raised| > 0 { assert o in raised; }
      if |explicit| > 0 { assert explicit[0] in explicit; }
      VerdictIs(evaluations, explicit, judge, raised);
    }
  }

  lemma JudgeWords()
    ensures "valid" != "not_run" && "valid" != "unavailable" && "valid" != "skipped"
  {
    assert "valid"[0] == 'v' && "not_run"[0] == 'n' && "unavailable"[0] == 'u' && "skipped"[0] == 's';
  }

  lemma {:induction false} VerdictIs(evaluations: seq<Evaluation>, explicit: seq<Objection>, judge: Option<string>,
                                     raised: seq<Objection>)
    requires (judge.None? || judge.value == "valid") && raised == Objections(evaluations, explicit, [])
    ensures FullyFixed(evaluations, explicit, [], judge, false)
            <==> |raised| > 0
                 && (forall o | o in raised :: Resolve(o, evaluations, [], "valid", false).status.VerifiedFixed?)
                 && (forall e | e in evaluations ::
                       !(e.status == "valid" && |e.scores| == 0 && e.feedback != ""))
  {
    var all := Resolutions(evaluations, explicit, [], judge, false);
    var wordless := WordlessResolutions(evaluations);
    forall r ensures r in wordless
                     <==> exists e :: e in evaluations && e.status == "valid" && |e.scores| == 0 && e.feedback != ""
                                      && r == Resolution(e.id, None, Unverified, None)
    {
      WordlessMeans(evaluations, r);
    }
    forall e | e in evaluations && e.status == "valid" && |e.scores| == 0 && e.feedback != ""
      ensures Resolution(e.id, None, Unverified, None) in all
    {
      assert Resolution(e.id, None, Unverified, None) in wordless;
    }
    forall i | 0 <= i < |raised|
      ensures all[i] == Resolve(raised[i], evaluations, [], "valid", false) && all[i] in all
    {
    }
    if wordless != [] { assert wordless[0] in wordless; }
  }

  // ---- the loops

  /** `_objections`, as it gathers. */
  method GatherObjections(evaluations: seq<Evaluation>, explicit: seq<Objection>, dispositions: seq<Disposition>)
      returns (records: seq<Objection>)
    ensures records == Objections(evaluations, explicit, dispositions)
  {
    records := [];
    for i := 0 to |evaluations|
      invariant records == Judged(evaluations[..i])
    {
      var e := evaluations[i];
      assert evaluations[..i + 1][..i] == evaluations[..i];
      ghost var before := records;
      for j := 0 to |e.scores|
        invariant records + Failures(e, e.scores[j..]) == before + Failures(e, e.scores)
      {
        assert e.scores[j..][1..] == e.scores[j + 1..];
        if !e.scores[j].passed {
          records := records + [Objection(e.id, Some(e.scores[j].scenario), e.scores[j].reasoning)];
        }
      }
    }
    assert evaluations[..|evaluations|] == evaluations;
    records := records + explicit;
    ghost var start := records;
    var seen := Ids(records);
    for i := 0 to |dispositions|
      invariant records == Disposed(start, dispositions[..i])
      invariant seen == Ids(records)
    {
      var d := dispositions[i];
      assert dispositions[..i + 1][..i] == dispositions[..i];
      if d.objection !in seen {
        records := records + [Objection(d.objection, Some(d.criterion), "")];
        seen := seen + {d.objection};
      }
    }
    assert dispositions[..|dispositions|] == dispositions;
  }
}
