/** The final usage reading: what it takes to call one complete, and what is kept
    short of that. */
module UsageTeardown {
  import opened Wrappers

  // ---- reading the final usage

  /** A column of a spend-log row: an integer, another number (summed by its
      integer part), or nothing usable. */
  datatype Cell = Integer(n: int) | Fraction(whole: int) | Unreported

  datatype Row = Row(prompt: Cell, completion: Cell, cacheRead: Cell, cacheWrite: Cell, spend: real)

  datatype Aggregate = Aggregate(
    prompt: Option<int>, completion: Option<int>, cacheRead: Option<int>, cacheWrite: Option<int>,
    requests: Option<nat>, spend: real)

  const EMPTY := Aggregate(None, None, None, None, None, 0.0)

  function Accumulate(total: Option<int>, cell: Cell): Option<int> {
    var before := if total.Some? then total.value else 0;
    match cell
    case Integer(n) => Some(n + before)
    case Fraction(n) => Some(n + before)
    case Unreported => total
  }

  /** `aggregate_rows`. */
  function AggregateRows(rows: seq<Row>): Aggregate {
    if rows == [] then EMPTY
    else
      var a, r := AggregateRows(rows[..|rows| - 1]), rows[|rows| - 1];
      Aggregate(Accumulate(a.prompt, r.prompt), Accumulate(a.completion, r.completion),
                Accumulate(a.cacheRead, r.cacheRead), Accumulate(a.cacheWrite, r.cacheWrite),
                Some(1 + if a.requests.Some? then a.requests.value else 0), a.spend + r.spend)
  }

  function One(o: Option<int>): nat { if o.Some? then 1 else 0 }

  /** `_measurement_quality`, a tuple compared left to right. */
  function Quality(a: Aggregate): (nat, nat, nat) {
    (One(a.prompt) + One(a.completion),
     if a.requests.Some? then a.requests.value else 0,
     One(a.cacheRead) + One(a.cacheWrite))
  }

  predicate AtLeast(a: (nat, nat, nat), b: (nat, nat, nat)) {
    a.0 > b.0 || (a.0 == b.0 && (a.1 > b.1 || (a.1 == b.1 && a.2 >= b.2)))
  }

  /** `max(best, current, key=...)` keeps the first of equals. */
  function Better(best: Aggregate, current: Aggregate): Aggregate {
    if AtLeast(Quality(best), Quality(current)) then best else current
  }

  /** What the proxy answers in one round: the spend read, which may refuse for
      good, and the log read. */
  datatype SpendRead = Spend(usd: real) | Unreadable | Rejected
  datatype Round = Round(spend: SpendRead, rows: Option<seq<Row>>)

  datatype Status = Complete | Partial | Unknown

  datatype Reading = Reading(spend: Option<real>, aggregate: Aggregate, status: Status)

  predicate Natural(c: Cell) { c.Integer? && c.n >= 0 }

  predicate Usable(rows: seq<Row>) {
    rows != [] && forall r <- rows :: Natural(r.prompt) && Natural(r.completion)
  }

  function Abs(x: real): real { if x < 0.0 then -x else x }

  function MaxReal(a: real, b: real): real { if a < b then b else a }

  /** `math.isclose(a, b, rel_tol=1e-6, abs_tol=1e-8)`. */
  predicate Close(a: real, b: real) {
    Abs(a - b) <= MaxReal(0.000001 * MaxReal(Abs(a), Abs(b)), 0.00000001)
  }

  const ROUNDS: nat := 3

  /** The spend last read successfully in the first `n` rounds. */
  function LastSpend(rounds: seq<Round>, n: nat): Option<real>
    requires n <= |rounds|
  {
    if n == 0 then None
    else if rounds[n - 1].spend.Spend? then Some(rounds[n - 1].spend.usd)
    else LastSpend(rounds, n - 1)
  }

  /** Rounds `i - 1` and `i` both read the log and agree, the later has rows, each
      with natural counts of both tokens, and is close to the last spend read. */
  predicate Stable(rounds: seq<Round>, i: nat)
    requires i < |rounds|
  {
    && i > 0 && rounds[i - 1].rows.Some? && rounds[i].rows.Some?
    && AggregateRows(rounds[i - 1].rows.value) == AggregateRows(rounds[i].rows.value)
    && rounds[i].rows.value != []
    && (forall r <- rounds[i].rows.value ::
          r.prompt.Integer? && r.prompt.n >= 0 && r.completion.Integer? && r.completion.n >= 0)
    && var spend := LastSpend(rounds, i + 1);
       spend.Some? && Close(AggregateRows(rounds[i].rows.value).spend, spend.value)
  }

  /** The loop's variables: `done` once a reading is confirmed, `stopped` once
      the proxy refused for good. */
  datatype Progress = Progress(spend: Option<real>, best: Aggregate, previous: Option<Aggregate>,
                               done: Option<Reading>, stopped: bool, made: nat)

  function Ended(p: Progress): bool { p.done.Some? || p.stopped }

  function ReadOne(p: Progress, round: Round): Progress {
    if Ended(p) then p
    else if round.spend.Rejected? then p.(stopped := true, made := p.made + 1)
    else
      var spend := if round.spend.Spend? then Some(round.spend.usd) else p.spend;
      if round.rows.None? then p.(spend := spend, previous := None, made := p.made + 1)
      else
        var current := AggregateRows(round.rows.value);
        var best := Better(p.best, current);
        if && Usable(round.rows.value) && spend.Some? && Close(current.spend, spend.value)
           && p.previous == Some(current) then
          Progress(spend, best, p.previous, Some(Reading(spend, current, Complete)), false, p.made + 1)
        else
          Progress(spend, best, Some(current), None, false, p.made + 1)
  }

  function ReadN(rounds: seq<Round>, n: nat): Progress
    requires n <= |rounds|
  {
    if n == 0 then Progress(None, EMPTY, None, None, false, 0)
    else ReadOne(ReadN(rounds, n - 1), rounds[n - 1])
  }

  /** None when nothing at all was read. */
  function Outcome(p: Progress): Option<Reading> {
    if p.done.Some? then p.done
    else if p.spend.None? && p.best.requests.None? then None
    else Some(Reading(p.spend, p.best, if p.best.prompt.Some? || p.best.completion.Some? then Partial else Unknown))
  }

  /** Round `i` confirms the usage. */
  predicate Confirms(rounds: seq<Round>, i: nat)
    requires i < |rounds|
  {
    !rounds[i].spend.Rejected? && Stable(rounds, i)
  }

  /** None of the first `n` rounds refused for good or confirmed. */
  ghost predicate Undecided(rounds: seq<Round>, n: nat)
    requires n <= |rounds|
  {
    forall k | 0 <= k < n :: !rounds[k].spend.Rejected? && !Confirms(rounds, k)
  }

  /** The aggregate of a log read among the first `n` rounds. */
  ghost predicate ReadAt(rounds: seq<Round>, n: nat, a: Aggregate) {
    exists k :: 0 <= k < n && k < |rounds| && LogRead(rounds[k]) && a == AggregateRows(rounds[k].rows.value)
  }

  predicate LogRead(round: Round) { !round.spend.Rejected? && round.rows.Some? }

  /** `_read_final_usage` over everything the proxy could answer; without a client
      nothing is read. The reading is complete exactly when the last round made
      confirmed it, and then it is that round's. Otherwise it has the last spend
      and the best of the log reads, and is partial when that measured a token. */
  method ReadFinalUsage(client: bool, rounds: seq<Round>) returns (reading: Option<Reading>, made: nat)
    requires |rounds| == ROUNDS
    ensures reading == (if client then Outcome(ReadN(rounds, ROUNDS)) else None)
    ensures made == if client then ReadN(rounds, ROUNDS).made else 0
    ensures made <= ROUNDS && (made > 0 ==> Undecided(rounds, made - 1))
    ensures client && made < ROUNDS ==> made > 0 && (rounds[made - 1].spend.Rejected? || Confirms(rounds, made - 1))
    ensures reading.Some? && reading.value.status.Complete? <==> exists i :: 0 <= i < made && Confirms(rounds, i)
    ensures reading.Some? ==> reading.value.spend == LastSpend(rounds, made)
    ensures reading.Some? ==> if reading.value.status.Complete? then LastRound(rounds, made, reading.value.aggregate)
                              else Kept(rounds, made, reading.value)
    ensures reading.None? <==> NothingRead(rounds, made)
  {
    if !client { return None, 0; }
    var spend: Option<real> := None;
    var best := EMPTY;
    var previous: Option<Aggregate> := None;
    made := 0;
    while made < ROUNDS
      invariant made <= ROUNDS
      invariant ReadN(rounds, made) == Progress(spend, best, previous, None, false, made)
    {
      var round := rounds[made];
      EndedStays(rounds, made + 1, ROUNDS);
      made := made + 1;
      if round.spend.Rejected? { break; }
      if round.spend.Spend? { spend := Some(round.spend.usd); }
      if round.rows.None? {
        previous := None;
      } else {
        var current := AggregateRows(round.rows.value);
        best := Better(best, current);
        if Usable(round.rows.value) && spend.Some? && Close(current.spend, spend.value) && previous == Some(current) {
          reading := Some(Reading(spend, current, Complete));
          OutcomeMeans(rounds);
          return reading, made;
        }
        previous := Some(current);
      }
    }
    OutcomeMeans(rounds);
    if spend.None? && best.requests.None? { return None, made; }
    var status := if best.prompt.Some? || best.completion.Some? then Partial else Unknown;
    return Some(Reading(spend, best, status)), made;
  }

  ghost predicate LastRound(rounds: seq<Round>, made: nat, a: Aggregate) {
    0 < made <= |rounds| && rounds[made - 1].rows.Some? && a == AggregateRows(rounds[made - 1].rows.value)
  }

  /** An unconfirmed reading: the best of what was read, and its word for it. */
  ghost predicate Kept(rounds: seq<Round>, made: nat, r: Reading)
    requires made <= |rounds|
  {
    && (ReadAt(rounds, made, r.aggregate) || (r.aggregate == EMPTY && forall k | 0 <= k < made :: !LogRead(rounds[k])))
    && (forall k | 0 <= k < made && LogRead(rounds[k]) ::
          AtLeast(Quality(r.aggregate), Quality(AggregateRows(rounds[k].rows.value))))
    && r.status == (if r.aggregate.prompt.Some? || r.aggregate.completion.Some? then Partial else Unknown)
  }

  /** No spend was read, and no row. */
  ghost predicate NothingRead(rounds: seq<Round>, made: nat)
    requires made <= |rounds|
  {
    forall k | 0 <= k < made :: !rounds[k].spend.Spend? && (LogRead(rounds[k]) ==> rounds[k].rows.value == [])
  }

  lemma {:induction false} EndedStays(rounds: seq<Round>, n: nat, k: nat)
    requires n <= k <= |rounds|
    ensures Ended(ReadN(rounds, n)) ==> ReadN(rounds, k) == ReadN(rounds, n)
    decreases k
  {
    if n < k { EndedStays(rounds, n, k - 1); }
  }

  function AggregateAt(rounds: seq<Round>, i: nat): Option<Aggregate>
    requires i < |rounds|
  {
    if rounds[i].rows.Some? then Some(AggregateRows(rounds[i].rows.value)) else None
  }

  /** What the variables hold while the loop runs. */
  lemma {:induction false} Variables(rounds: seq<Round>, n: nat)
    requires n <= |rounds|
    ensures var p := ReadN(rounds, n);
            && p.made <= n
            && (!Ended(p) ==> p.made == n && p.spend == LastSpend(rounds, n)
                              && p.previous == if n == 0 then None else AggregateAt(rounds, n - 1))
            && (p.stopped ==> 0 < p.made && rounds[p.made - 1].spend.Rejected? && p.spend == LastSpend(rounds, p.made))
  {
    if n > 0 { Variables(rounds, n - 1); }
  }

  /** A reading is `complete` only when two adjacent log reads succeeded and
      agree, every token count of the second is a natural number, and its spend
      is within tolerance of the last spend read. */
  lemma {:induction false} CompleteIsStable(rounds: seq<Round>, n: nat)
    requires n <= |rounds| && ReadN(rounds, n).done.Some?
    ensures var p := ReadN(rounds, n);
            && 0 < p.made <= n && Stable(rounds, p.made - 1)
            && p.done.value.spend == LastSpend(rounds, p.made) && p.done.value.status.Complete?
            && p.done.value.aggregate == AggregateRows(rounds[p.made - 1].rows.value)
  {
    var before := ReadN(rounds, n - 1);
    if Ended(before) {
      CompleteIsStable(rounds, n - 1);
    } else {
      Variables(rounds, n - 1);
    }
  }

  /** And it is complete as soon as that first happens: a stable round the loop
      reached and did not stop in is never passed over. */
  lemma {:induction false} StableIsComplete(rounds: seq<Round>, i: nat, n: nat)
    requires i < n <= |rounds| && Stable(rounds, i) && !rounds[i].spend.Rejected?
    ensures Ended(ReadN(rounds, i)) || (ReadN(rounds, n).done.Some? && ReadN(rounds, n).made == i + 1)
  {
    Variables(rounds, i);
    EndedStays(rounds, i + 1, n);
  }

  lemma BestImproves(p: Progress, round: Round)
    ensures AtLeast(Quality(ReadOne(p, round).best), Quality(p.best))
    ensures !Ended(p) && round.rows.Some? && !round.spend.Rejected? ==>
              AtLeast(Quality(ReadOne(p, round).best), Quality(AggregateRows(round.rows.value)))
  {
  }

  /** Short of that, the reading is at least as good as every log read made. */
  lemma {:induction false} BestOfReads(rounds: seq<Round>, n: nat, i: nat)
    requires n <= |rounds| && i < ReadN(rounds, n).made && i < |rounds|
    requires rounds[i].rows.Some? && !rounds[i].spend.Rejected?
    ensures AtLeast(Quality(ReadN(rounds, n).best), Quality(AggregateRows(rounds[i].rows.value)))
  {
    var before := ReadN(rounds, n - 1);
    Variables(rounds, n - 1);
    BestImproves(before, rounds[n - 1]);
    if i < before.made { BestOfReads(rounds, n - 1, i); }
  }

  // ---- what the caller gets

  /** Every earlier round neither refused nor confirmed; the last one did, if there
      are rounds left. */
  lemma {:induction false} MadeMeans(rounds: seq<Round>, n: nat)
    requires n <= |rounds|
    ensures var p := ReadN(rounds, n);
            && p.made <= n && !(p.done.Some? && p.stopped)
            && (p.made > 0 ==> Undecided(rounds, p.made - 1))
            && (Ended(p) ==> p.made > 0 && (p.stopped <==> rounds[p.made - 1].spend.Rejected?))
            && (Ended(p) ==> (p.done.Some? <==> Confirms(rounds, p.made - 1)))
            && (!Ended(p) ==> p.made == n && Undecided(rounds, n))
  {
    if n > 0 {
      MadeMeans(rounds, n - 1);
      Variables(rounds, n - 1);
      if !Ended(ReadN(rounds, n - 1)) { StepConfirms(rounds, n); }
    }
  }

  lemma {:induction false} StepConfirms(rounds: seq<Round>, n: nat)
    requires 0 < n <= |rounds| && !Ended(ReadN(rounds, n - 1))
    ensures var p := ReadN(rounds, n);
            && p.made == n && (p.stopped <==> rounds[n - 1].spend.Rejected?)
            && (p.done.Some? <==> Confirms(rounds, n - 1))
  {
    Variables(rounds, n - 1);
  }

  lemma {:induction false} BestIsRead(rounds: seq<Round>, n: nat)
    requires n <= |rounds|
    ensures var p := ReadN(rounds, n);
            && p.made <= n
            && (ReadAt(rounds, p.made, p.best)
                || (p.best == EMPTY && forall k | 0 <= k < p.made :: !LogRead(rounds[k])))
  {
    if n > 0 {
      BestIsRead(rounds, n - 1);
      Variables(rounds, n - 1);
      var before, p := ReadN(rounds, n - 1), ReadN(rounds, n);
      if !Ended(before) {
        BestStep(before, rounds[n - 1]);
        if ReadAt(rounds, before.made, before.best) {
          var k :| 0 <= k < before.made && LogRead(rounds[k]) && before.best == AggregateRows(rounds[k].rows.value);
          assert p.best == before.best ==> ReadAt(rounds, p.made, p.best);
        }
      }
    }
  }

  ghost predicate NoWorse(a: Round, b: Round)
    requires LogRead(a) && LogRead(b)
  {
    AtLeast(Quality(AggregateRows(a.rows.value)), Quality(AggregateRows(b.rows.value)))
  }

  /** The log read that beats every earlier one and is no worse than any later one. */
  ghost predicate FirstBest(rounds: seq<Round>, n: nat, k: nat) {
    && k < n <= |rounds| && LogRead(rounds[k])
    && (forall j | 0 <= j < k && LogRead(rounds[j]) :: !NoWorse(rounds[j], rounds[k]))
    && (forall j | k < j < n && LogRead(rounds[j]) :: NoWorse(rounds[k], rounds[j]))
  }

  /** Of equally good reads the earliest is kept. */
  lemma {:induction false} EarliestBestIsKept(rounds: seq<Round>, n: nat, k: nat)
    requires n <= |rounds| && FirstBest(rounds, ReadN(rounds, n).made, k)
    ensures ReadN(rounds, n).best == AggregateRows(rounds[k].rows.value)
  {
    var before := ReadN(rounds, n - 1);
    Variables(rounds, n - 1);
    assert ReadN(rounds, n) == ReadOne(before, rounds[n - 1]);
    if Ended(before) {
      EarliestBestIsKept(rounds, n - 1, k);
    } else if k < n - 1 {
      EarliestBestIsKept(rounds, n - 1, k);
      KeepsBest(before, rounds[k], rounds[n - 1]);
    } else {
      NewBest(rounds, k);
    }
  }

  /** A read that beats every earlier one replaces the best. */
  lemma {:induction false} NewBest(rounds: seq<Round>, k: nat)
    requires k < |rounds| && LogRead(rounds[k]) && !Ended(ReadN(rounds, k))
    requires forall j | 0 <= j < k && LogRead(rounds[j]) :: !NoWorse(rounds[j], rounds[k])
    ensures ReadOne(ReadN(rounds, k), rounds[k]).best == AggregateRows(rounds[k].rows.value)
  {
    var before := ReadN(rounds, k);
    BestIsRead(rounds, k);
    if ReadAt(rounds, before.made, before.best) {
      var j :| 0 <= j < before.made && LogRead(rounds[j]) && before.best == AggregateRows(rounds[j].rows.value);
      TakesBest(before, rounds[j], rounds[k]);
    } else {
      BestStep(before, rounds[k]);
    }
  }

  lemma KeepsBest(p: Progress, kept: Round, round: Round)
    requires !Ended(p) && LogRead(kept) && p.best == AggregateRows(kept.rows.value)
    requires LogRead(round) ==> NoWorse(kept, round)
    ensures ReadOne(p, round).best == p.best
  {
  }

  lemma TakesBest(p: Progress, kept: Round, round: Round)
    requires !Ended(p) && LogRead(kept) && LogRead(round) && p.best == AggregateRows(kept.rows.value)
    requires !NoWorse(kept, round)
    ensures ReadOne(p, round).best == AggregateRows(round.rows.value)
  {
  }

  /** The best is the one before or, if at least one log was read already, what was
      just read. */
  lemma BestStep(p: Progress, round: Round)
    requires !Ended(p)
    ensures var next := ReadOne(p, round);
            && next.made == p.made + 1
            && (!LogRead(round) ==> next.best == p.best)
            && (LogRead(round) ==> next.best == AggregateRows(round.rows.value) || next.best == p.best)
            && (LogRead(round) && p.best == EMPTY ==> next.best == AggregateRows(round.rows.value))
  {
    EmptyIsWorst(if round.rows.Some? then round.rows.value else []);
  }

  /** Only no rows at all measure as little as nothing. */
  lemma EmptyIsWorst(rows: seq<Row>)
    ensures AtLeast(Quality(EMPTY), Quality(AggregateRows(rows))) ==> AggregateRows(rows) == EMPTY
    ensures AggregateRows(rows).requests.None? <==> rows == []
  {
  }

  /** There is none exactly when no spend was read, and the last one read is it. */
  lemma {:induction false} LastSpendIs(rounds: seq<Round>, n: nat, k: nat)
    requires n <= |rounds|
    ensures LastSpend(rounds, n).None? <==> forall j | 0 <= j < n :: !rounds[j].spend.Spend?
    ensures k < n && rounds[k].spend.Spend? && (forall j | k < j < n :: !rounds[j].spend.Spend?) ==>
              LastSpend(rounds, n) == Some(rounds[k].spend.usd)
  {
    if n > 0 { LastSpendIs(rounds, n - 1, k); }
  }

  lemma {:induction false} OutcomeMeans(rounds: seq<Round>)
    requires |rounds| == ROUNDS
    ensures var p := ReadN(rounds, ROUNDS);
            var reading := Outcome(p);
            && p.made <= ROUNDS && (p.made > 0 ==> Undecided(rounds, p.made - 1))
            && (p.made < ROUNDS ==> p.made > 0 && (rounds[p.made - 1].spend.Rejected? || Confirms(rounds, p.made - 1)))
            && (reading.Some? && reading.value.status.Complete? <==> exists i :: 0 <= i < p.made && Confirms(rounds, i))
            && (reading.Some? ==> reading.value.spend == LastSpend(rounds, p.made))
            && (reading.Some? && reading.value.status.Complete? ==> LastRound(rounds, p.made, reading.value.aggregate))
            && (reading.Some? && !reading.value.status.Complete? ==> Kept(rounds, p.made, reading.value))
            && (reading.None? <==> NothingRead(rounds, p.made))
  {
    var p := ReadN(rounds, ROUNDS);
    MadeMeans(rounds, ROUNDS);
    Variables(rounds, ROUNDS);
    BestIsRead(rounds, ROUNDS);
    if p.done.Some? {
      CompleteIsStable(rounds, ROUNDS);
      assert Confirms(rounds, p.made - 1);
      ConfirmedReads(rounds, p.made);
    } else {
      KeptMeans(rounds, p.made);
    }
  }

  lemma ConfirmedReads(rounds: seq<Round>, made: nat)
    requires 0 < made <= |rounds| && Confirms(rounds, made - 1)
    ensures LastSpend(rounds, made).Some? && !NothingRead(rounds, made)
  {
    LastSpendIs(rounds, made, 0);
  }

  /** What is kept when no round confirmed. */
  lemma {:induction false} KeptMeans(rounds: seq<Round>, made: nat)
    requires |rounds| == ROUNDS && ReadN(rounds, ROUNDS).done.None? && made == ReadN(rounds, ROUNDS).made
    ensures made <= ROUNDS
    ensures var reading := Outcome(ReadN(rounds, ROUNDS));
            && (reading.Some? ==> Kept(rounds, made, reading.value))
            && (reading.None? <==> NothingRead(rounds, made))
  {
    var p := ReadN(rounds, ROUNDS);
    Variables(rounds, ROUNDS);
    BestIsRead(rounds, ROUNDS);
    LastSpendIs(rounds, made, 0);
    forall k | 0 <= k < made && LogRead(rounds[k])
      ensures AtLeast(Quality(p.best), Quality(AggregateRows(rounds[k].rows.value)))
      ensures p.best.requests.None? ==> rounds[k].rows.value == []
    {
      BestOfReads(rounds, ROUNDS, k);
      BeatsNothing(p.best, rounds[k].rows.value);
    }
    if p.best.requests.Some? { SomeRowRead(rounds, made, p.best); }
  }

  lemma BeatsNothing(best: Aggregate, rows: seq<Row>)
    requires AtLeast(Quality(best), Quality(AggregateRows(rows)))
    ensures rows != [] ==> best != EMPTY
  {
    EmptyIsWorst(rows);
  }

  lemma SomeRowRead(rounds: seq<Round>, made: nat, best: Aggregate)
    requires made <= |rounds| && best.requests.Some? && ReadAt(rounds, made, best)
    ensures !NothingRead(rounds, made)
  {
    var k :| 0 <= k < made && LogRead(rounds[k]) && best == AggregateRows(rounds[k].rows.value);
    EmptyIsWorst(rounds[k].rows.value);
  }

  // ---- what an aggregate, its quality and the tolerance are

  datatype Field = Prompt | Completion | CacheRead | CacheWrite

  function CellOf(row: Row, f: Field): Cell {
    match f
    case Prompt => row.prompt
    case Completion => row.completion
    case CacheRead => row.cacheRead
    case CacheWrite => row.cacheWrite
  }

  function Total(a: Aggregate, f: Field): Option<int> {
    match f
    case Prompt => a.prompt
    case Completion => a.completion
    case CacheRead => a.cacheRead
    case CacheWrite => a.cacheWrite
  }

  /** What one row reports for a field. */
  function ReportOf(row: Row, f: Field): seq<int> {
    match CellOf(row, f)
    case Integer(n) => [n]
    case Fraction(whole) => [whole]
    case Unreported => []
  }

  /** What the rows report for a field, one after another. */
  function Reports(rows: seq<Row>, f: Field): seq<int> {
    if rows == [] then [] else ReportOf(rows[0], f) + Reports(rows[1..], f)
  }

  function Sum(xs: seq<int>): int { if xs == [] then 0 else xs[0] + Sum(xs[1..]) }

  function Spent(rows: seq<Row>): real { if rows == [] then 0.0 else rows[0].spend + Spent(rows[1..]) }

  /** Each column is the sum of its own reports, None when there are none; each row
      is one request; the spend is the sum of the spends. */
  lemma {:induction false} AggregateIsSums(rows: seq<Row>, f: Field)
    ensures var a := AggregateRows(rows);
            && Total(a, f) == (if Reports(rows, f) == [] then None else Some(Sum(Reports(rows, f))))
            && a.requests == (if rows == [] then None else Some(|rows|))
            && a.spend == Spent(rows)
  {
    if rows != [] {
      var front, last := rows[..|rows| - 1], rows[|rows| - 1];
      AggregateIsSums(front, f);
      assert rows == front + [last];
      SpentAppends(front, last);
      ReportsAppend(front, last, f);
      OneMoreRow(rows, f);
      Accumulates(Total(AggregateRows(front), f), Reports(front, f), last, f);
    }
  }

  lemma OneMoreRow(rows: seq<Row>, f: Field)
    requires rows != []
    ensures var n := |rows| - 1;
            Total(AggregateRows(rows), f) == Accumulate(Total(AggregateRows(rows[..n]), f), CellOf(rows[n], f))
  {
  }

  lemma Accumulates(total: Option<int>, xs: seq<int>, row: Row, f: Field)
    requires total == if xs == [] then None else Some(Sum(xs))
    ensures var ys := xs + ReportOf(row, f);
            Accumulate(total, CellOf(row, f)) == if ys == [] then None else Some(Sum(ys))
  {
    SumAppends(xs, ReportOf(row, f));
    assert xs + [] == xs;
    if n :| ReportOf(row, f) == [n] { assert [n][1..] == [] && Sum([n]) == n; }
  }

  lemma {:induction false} ReportsAppend(rows: seq<Row>, row: Row, f: Field)
    ensures Reports(rows + [row], f) == Reports(rows, f) + ReportOf(row, f)
  {
    if rows == [] {
      assert rows + [row] == [row] && [row][1..] == [];
      assert ReportOf(row, f) + [] == [] + ReportOf(row, f);
    } else {
      assert (rows + [row])[0] == rows[0] && (rows + [row])[1..] == rows[1..] + [row];
      ReportsAppend(rows[1..], row, f);
      Associates(ReportOf(rows[0], f), Reports(rows[1..], f), ReportOf(row, f));
    }
  }

  lemma Associates(a: seq<int>, b: seq<int>, c: seq<int>)
    ensures a + (b + c) == (a + b) + c
  {
  }

  lemma {:induction false} SumAppends(a: seq<int>, b: seq<int>)
    ensures Sum(a + b) == Sum(a) + Sum(b)
  {
    if a == [] {
      assert a + b == b;
    } else {
      assert (a + b)[1..] == a[1..] + b;
      SumAppends(a[1..], b);
    }
  }

  lemma {:induction false} SpentAppends(rows: seq<Row>, row: Row)
    ensures Spent(rows + [row]) == Spent(rows) + row.spend
  {
    if rows == [] {
      assert rows + [row] == [row] && [row][1..] == [];
    } else {
      assert (rows + [row])[1..] == rows[1..] + [row];
      SpentAppends(rows[1..], row);
    }
  }

  ghost predicate Beats(a: Aggregate, b: Aggregate) { !AtLeast(Quality(b), Quality(a)) }

  predicate SameTokens(a: Aggregate, b: Aggregate) {
    (a.prompt.Some? <==> b.prompt.Some?) && (a.completion.Some? <==> b.completion.Some?)
  }

  predicate SameCaches(a: Aggregate, b: Aggregate) {
    (a.cacheRead.Some? <==> b.cacheRead.Some?) && (a.cacheWrite.Some? <==> b.cacheWrite.Some?)
  }

  function Requests(a: Aggregate): nat { if a.requests.Some? then a.requests.value else 0 }

  /** A measurement with more of prompt and completion beats one with less; of equals
      in that the one of more requests; of those the one with more of the cache
      columns; and nothing else beats anything. */
  lemma QualityOrders(a: Aggregate, b: Aggregate)
    ensures a.prompt.Some? && a.completion.Some? && !(b.prompt.Some? && b.completion.Some?) ==> Beats(a, b)
    ensures (a.prompt.Some? || a.completion.Some?) && b.prompt.None? && b.completion.None? ==> Beats(a, b)
    ensures SameTokens(a, b) && Requests(a) > Requests(b) ==> Beats(a, b)
    ensures SameTokens(a, b) && Requests(a) == Requests(b) && a.cacheRead.Some? && a.cacheWrite.Some? ==>
              (b.cacheRead.Some? && b.cacheWrite.Some?) || Beats(a, b)
    ensures SameTokens(a, b) && Requests(a) == Requests(b) && (a.cacheRead.Some? || a.cacheWrite.Some?) ==>
              b.cacheRead.Some? || b.cacheWrite.Some? || Beats(a, b)
    ensures SameTokens(a, b) && Requests(a) == Requests(b) && SameCaches(a, b) ==> !Beats(a, b)
    ensures Beats(a, b) ==> !Beats(b, a)
  {
  }

  predicate Within(a: real, b: real, d: real) { -d <= a - b <= d }

  /** Within tolerance: by a hundred-millionth, or by a millionth of either. */
  lemma CloseMeans(a: real, b: real)
    ensures Close(a, b) <==>
              || Within(a, b, 0.00000001)
              || Within(a, b, 0.000001 * a) || Within(a, b, -0.000001 * a)
              || Within(a, b, 0.000001 * b) || Within(a, b, -0.000001 * b)
  {
    var x := MaxReal(Abs(a), Abs(b));
    assert 0.000001 * x >= 0.000001 * Abs(a) && 0.000001 * x >= 0.000001 * Abs(b);
  }
}
