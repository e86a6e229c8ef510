/** Any number of processes over one registry file, one lock and one shared
    temporary name, interleaved step by step and killed anywhere. */
module RegistryRuns {
  import opened Wrappers
  import opened Registry

  datatype Temp = NoTemp | Partial | Full(file: FileState)

  /** Where a process stands in one command. Everything past `Waiting` is
      inside the lock. */
  datatype Phase =
    | Waiting(op: Op, w: World)
    | Held(op: Op, w: World, ticket: nat)
    | Seen(op: Op, w: World, ticket: nat, file: FileState)
    | Staging(op: Op, w: World, ticket: nat, next: FileState)
    | Staged(op: Op, w: World, ticket: nat, next: FileState)
    | Leaving

  datatype Landing = Landing(op: Op, w: World, ticket: nat)

  /** When a command was requested: how many replaces had landed, and how many
      answers had been given. */
  datatype Asked = Asked(landed: nat, answered: nat)

  /** What a command told its caller, how many replaces had landed when it took
      effect, and when it was requested. */
  datatype Answer = Answer(op: Op, w: World, outcome: Outcome, at: nat, wrote: bool, asked: Asked)

  datatype State = State(
    file: FileState, temp: Temp, holder: Option<nat>, procs: map<nat, Phase>,
    nextTicket: nat, log: seq<Landing>, answers: seq<Answer>,
    readers: map<nat, FileState>, loads: seq<FileState>, asked: map<nat, Asked>)

  datatype Event =
    | Request(p: nat, op: Op, w: World)
    | RefuseEarly(p: nat)
    | GiveUp(p: nat)
    | Lock(p: nat)
    | ReadFile(p: nat)
    | Settle(p: nat)
    | OpenTemp(p: nat)
    | FillTemp(p: nat)
    | Replace(p: nat)
    | Unlock(p: nat)
    | Kill(p: nat)
    | OpenFile(r: nat)
    | Load(r: nat)

  function Initial(file: FileState): State {
    State(file, NoTemp, None, map[], 0, [], [], map[], [], map[])
  }

  predicate EarlyRefusal(op: Op, w: World) {
    match op
    case Register(slug, _, _) => !Registry.Slugs.IsValidSlug(slug)
    case Rebuild(seeds) => exists s <- seeds :: s !in w.managed
    case Forget(_) => false
  }

  ghost predicate Enabled(s: State, e: Event) {
    match e
    case Request(p, _, _) => p !in s.procs
    case RefuseEarly(p) => p in s.procs && s.procs[p].Waiting? && EarlyRefusal(s.procs[p].op, s.procs[p].w)
    case GiveUp(p) => p in s.procs && s.procs[p].Waiting?
    case Lock(p) => p in s.procs && s.procs[p].Waiting? && s.holder.None? && !EarlyRefusal(s.procs[p].op, s.procs[p].w)
    case ReadFile(p) => p in s.procs && s.procs[p].Held?
    case Settle(p) => p in s.procs && s.procs[p].Seen? && !Step(s.procs[p].file, s.procs[p].op, s.procs[p].w).2
    case OpenTemp(p) => p in s.procs && s.procs[p].Seen? && Step(s.procs[p].file, s.procs[p].op, s.procs[p].w).2
    case FillTemp(p) => p in s.procs && s.procs[p].Staging?
    case Replace(p) => p in s.procs && s.procs[p].Staged?
    case Unlock(p) => p in s.procs && s.procs[p].Leaving?
    case Kill(p) => p in s.procs
    case OpenFile(r) => true
    case Load(r) => r in s.readers
  }

  function AskedAt(s: State, p: nat): Asked { if p in s.asked then s.asked[p] else Asked(0, 0) }

  ghost function After(s: State, e: Event): State
    requires Enabled(s, e)
  {
    match e
    case Request(p, op, w) =>
      s.(procs := s.procs[p := Waiting(op, w)], asked := s.asked[p := Asked(|s.log|, |s.answers|)])
    case RefuseEarly(p) =>
      var ph := s.procs[p];
      s.(procs := s.procs - {p},
         answers := s.answers + [Answer(ph.op, ph.w, Step(s.file, ph.op, ph.w).1, |s.log|, false, AskedAt(s, p))])
    case GiveUp(p) => s.(procs := s.procs - {p})
    case Lock(p) =>
      var ph := s.procs[p];
      s.(procs := s.procs[p := Held(ph.op, ph.w, s.nextTicket)], holder := Some(p), nextTicket := s.nextTicket + 1)
    case ReadFile(p) =>
      var ph := s.procs[p];
      s.(procs := s.procs[p := Seen(ph.op, ph.w, ph.ticket, s.file)])
    case Settle(p) =>
      var ph := s.procs[p];
      s.(procs := s.procs[p := Leaving],
         answers := s.answers + [Answer(ph.op, ph.w, Step(ph.file, ph.op, ph.w).1, |s.log|, false, AskedAt(s, p))])
    case OpenTemp(p) =>
      var ph := s.procs[p];
      s.(procs := s.procs[p := Staging(ph.op, ph.w, ph.ticket, Step(ph.file, ph.op, ph.w).0)], temp := Partial)
    case FillTemp(p) =>
      var ph := s.procs[p];
      s.(procs := s.procs[p := Staged(ph.op, ph.w, ph.ticket, ph.next)], temp := Full(ph.next))
    case Replace(p) =>
      var ph := s.procs[p];
      s.(procs := s.procs[p := Leaving], temp := NoTemp,
         file := if s.temp.Full? then s.temp.file else Corrupt,
         log := s.log + [Landing(ph.op, ph.w, ph.ticket)],
         answers := s.answers + [Answer(ph.op, ph.w, Step(s.file, ph.op, ph.w).1, |s.log|, true, AskedAt(s, p))])
    case Unlock(p) => s.(procs := s.procs - {p}, holder := None)
    case Kill(p) => s.(procs := s.procs - {p}, holder := if s.holder == Some(p) then None else s.holder)
    case OpenFile(r) => s.(readers := s.readers[r := s.file])
    case Load(r) => s.(loads := s.loads + [s.readers[r]])
  }

  // ---- the sequential meaning

  /** The commands of `log`, one after another. */
  ghost function Replay(file: FileState, log: seq<Landing>): FileState
    decreases |log|
  {
    if log == [] then file
    else Step(Replay(file, log[..|log| - 1]), log[|log| - 1].op, log[|log| - 1].w).0
  }

  /** Some prefix of the landed commands produced exactly this document. */
  ghost predicate Committed(first: FileState, log: seq<Landing>, file: FileState) {
    exists k :: 0 <= k <= |log| && file == Replay(first, log[..k])
  }

  ghost predicate Answered(first: FileState, log: seq<Landing>, a: Answer) {
    && a.at <= |log|
    && a.outcome == Step(Replay(first, log[..a.at]), a.op, a.w).1
    && (a.wrote ==> a.at < |log| && log[a.at].op == a.op && log[a.at].w == a.w)
    && (!a.wrote ==> !Step(Replay(first, log[..a.at]), a.op, a.w).2)
  }

  ghost predicate InOrder(log: seq<Landing>) {
    forall i, j | 0 <= i < j < |log| :: log[i].ticket < log[j].ticket
  }

  // ---- the invariant

  /** What a process inside the lock knows. */
  ghost predicate Sound(s: State, p: nat, ph: Phase) {
    match ph
    case Waiting(_, _) => true
    case Held(_, _, t) => s.holder == Some(p) && Newest(s, t)
    case Seen(_, _, t, f) => s.holder == Some(p) && Newest(s, t) && f == s.file
    case Staging(op, w, t, next) =>
      s.holder == Some(p) && Newest(s, t) && Step(s.file, op, w).0 == next && Step(s.file, op, w).2
    case Staged(op, w, t, next) =>
      && s.holder == Some(p) && Newest(s, t) && Step(s.file, op, w).0 == next && Step(s.file, op, w).2
      && s.temp == Full(next)
    case Leaving => s.holder == Some(p)
  }

  ghost predicate Newest(s: State, ticket: nat) {
    ticket < s.nextTicket && forall i | 0 <= i < |s.log| :: s.log[i].ticket < ticket
  }

  ghost predicate Inv(first: FileState, s: State) {
    && s.file == Replay(first, s.log)
    && InOrder(s.log) && (forall i | 0 <= i < |s.log| :: s.log[i].ticket < s.nextTicket)
    && (forall p | p in s.procs :: Sound(s, p, s.procs[p]))
    && (s.holder.Some? ==> s.holder.value in s.procs && !s.procs[s.holder.value].Waiting?)
  }

  ghost predicate Histories(first: FileState, s: State) {
    && (forall i | 0 <= i < |s.answers| :: Answered(first, s.log, s.answers[i]))
    && (forall r | r in s.readers :: Committed(first, s.log, s.readers[r]))
    && (forall i | 0 <= i < |s.loads| :: Committed(first, s.log, s.loads[i]))
  }

  /** How many landings an answered command has seen, its own included. */
  function Landed(a: Answer): nat { a.at + if a.wrote then 1 else 0 }

  /** A request comes after the answers given before it. */
  ghost predicate Timely(answers: seq<Answer>, asked: Asked) {
    asked.answered <= |answers| && forall i | 0 <= i < asked.answered :: Landed(answers[i]) <= asked.landed
  }

  ghost predicate InTime(s: State) {
    && (forall p | p in s.procs :: p in s.asked)
    && (forall p | p in s.asked :: s.asked[p].landed <= |s.log| && Timely(s.answers, s.asked[p]))
    && (forall i | 0 <= i < |s.answers| :: Landed(s.answers[i]) <= |s.log|)
    && (forall i | 0 <= i < |s.answers| ::
          s.answers[i].asked.landed <= s.answers[i].at && Timely(s.answers[..i], s.answers[i].asked))
  }

  lemma {:induction false} InTimeStep(s: State, e: Event)
    requires InTime(s) && Enabled(s, e)
    ensures InTime(After(s, e))
  {
    var s' := After(s, e);
    if |s'.answers| > |s.answers| {
      assert s'.answers[..|s.answers|] == s.answers;
      forall i | 0 <= i < |s.answers| ensures s'.answers[..i] == s.answers[..i] {}
    }
  }

  lemma SoundStep(first: FileState, s: State, e: Event, p: nat)
    requires Inv(first, s) && Enabled(s, e) && !e.Replace? && p in After(s, e).procs
    ensures Sound(After(s, e), p, After(s, e).procs[p])
  {
    if p in s.procs { assert Sound(s, p, s.procs[p]); }
    if e.FillTemp? || e.OpenTemp? || e.Settle? || e.ReadFile? || e.Unlock? { assert Sound(s, e.p, s.procs[e.p]); }
  }

  lemma {:induction false} InvStep(first: FileState, s: State, e: Event)
    requires Inv(first, s) && Enabled(s, e)
    ensures Inv(first, After(s, e))
  {
    var s' := After(s, e);
    if e.Replace? {
      ReplaceKeepsInv(first, s, e.p);
    } else {
      assert s'.log == s.log;
      forall p | p in s'.procs ensures Sound(s', p, s'.procs[p]) { SoundStep(first, s, e, p); }
    }
  }

  /** The one step that changes the file: it holds the lock, and its temporary
      file is the whole next document. */
  lemma {:induction false} ReplaceKeepsInv(first: FileState, s: State, p: nat)
    requires Inv(first, s) && Enabled(s, Replace(p))
    ensures Inv(first, After(s, Replace(p)))
  {
    var s' := After(s, Replace(p));
    var ph := s.procs[p];
    ReplacePublishes(first, s, p);
    PublishedInv(first, s, s', p, Landing(ph.op, ph.w, ph.ticket));
  }

  lemma PublishedInv(first: FileState, s: State, s': State, p: nat, more: Landing)
    requires Inv(first, s) && s.holder == Some(p) && Newest(s, more.ticket)
    requires s'.file == Replay(first, s'.log) && s'.log == s.log + [more] && s'.procs == s.procs[p := Leaving]
    requires s'.holder == s.holder && s'.nextTicket == s.nextTicket
    ensures Inv(first, s')
  {
    forall q | q in s'.procs ensures Sound(s', q, s'.procs[q]) {
      if q != p { OthersWait(s, p, q); }
    }
  }

  lemma OthersWait(s: State, p: nat, q: nat)
    requires s.holder == Some(p) && q in s.procs && q != p && Sound(s, q, s.procs[q])
    ensures s.procs[q].Waiting?
  {
  }

  lemma ReplacePublishes(first: FileState, s: State, p: nat)
    requires s.file == Replay(first, s.log) && Enabled(s, Replace(p)) && Sound(s, p, s.procs[p])
    ensures var ph := s.procs[p];
            && s.holder == Some(p) && Newest(s, ph.ticket)
            && After(s, Replace(p)).file == Replay(first, s.log + [Landing(ph.op, ph.w, ph.ticket)])
  {
    var ph := s.procs[p];
    ReplayMore(first, s.log, Landing(ph.op, ph.w, ph.ticket));
  }

  lemma ReplayMore(first: FileState, log: seq<Landing>, more: Landing)
    ensures Replay(first, log + [more]) == Step(Replay(first, log), more.op, more.w).0
  {
    assert (log + [more])[..|log|] == log;
  }

  lemma LogGrows(first: FileState, log: seq<Landing>, more: Landing)
    ensures forall file :: Committed(first, log, file) ==> Committed(first, log + [more], file)
    ensures forall a :: Answered(first, log, a) ==> Answered(first, log + [more], a)
  {
    var longer := log + [more];
    forall k | 0 <= k <= |log| ensures longer[..k] == log[..k] {}
  }

  lemma StandsCommitted(first: FileState, s: State)
    requires s.file == Replay(first, s.log)
    ensures Committed(first, s.log, s.file)
  {
    assert s.log[..|s.log|] == s.log;
  }

  lemma EarlyIsStable(op: Op, w: World, a: FileState, b: FileState)
    requires EarlyRefusal(op, w)
    ensures Step(a, op, w).1 == Step(b, op, w).1 && !Step(a, op, w).2
  {
  }

  lemma {:induction false} ReplaceKeepsHistories(first: FileState, s: State, p: nat)
    requires Inv(first, s) && Histories(first, s) && Enabled(s, Replace(p))
    ensures Histories(first, After(s, Replace(p)))
  {
    var s' := After(s, Replace(p));
    assert s.log[..|s.log|] == s.log;
    assert Sound(s, p, s.procs[p]);
    LogGrows(first, s.log, Landing(s.procs[p].op, s.procs[p].w, s.procs[p].ticket));
    assert s'.log[..|s.log|] == s.log;
    assert Answered(first, s'.log, s'.answers[|s.answers|]);
  }

  lemma {:induction false} HistoriesStep(first: FileState, s: State, e: Event)
    requires Inv(first, s) && Histories(first, s) && Enabled(s, e)
    ensures Histories(first, After(s, e))
  {
    var s' := After(s, e);
    StandsCommitted(first, s);
    assert s.log[..|s.log|] == s.log;
    match e {
      case Replace(p) => ReplaceKeepsHistories(first, s, p);
      case Settle(p) =>
        assert Sound(s, p, s.procs[p]);
        assert Answered(first, s'.log, s'.answers[|s.answers|]);
      case RefuseEarly(p) =>
        EarlyIsStable(s.procs[p].op, s.procs[p].w, s.file, s.file);
        assert Answered(first, s'.log, s'.answers[|s.answers|]);
      case _ =>
    }
  }

  ghost predicate Run(s: State, events: seq<Event>)
    decreases |events|
  {
    events != [] ==> Enabled(s, events[0]) && Run(After(s, events[0]), events[1..])
  }

  ghost function Final(s: State, events: seq<Event>): State
    requires Run(s, events)
    decreases |events|
  {
    if events == [] then s else Final(After(s, events[0]), events[1..])
  }

  lemma {:induction false} InvRun(first: FileState, s: State, events: seq<Event>)
    requires Inv(first, s) && Histories(first, s) && InTime(s) && Run(s, events)
    ensures Inv(first, Final(s, events)) && Histories(first, Final(s, events)) && InTime(Final(s, events))
    decreases |events|
  {
    if events != [] {
      InvStep(first, s, events[0]);
      HistoriesStep(first, s, events[0]);
      InTimeStep(s, events[0]);
      InvRun(first, After(s, events[0]), events[1..]);
    }
  }

  /** In every run, killed processes and all: the committed file is the landed
      commands applied one by one in the order their locks were taken; every
      answer is the one the sequential run gives at that point, with its write
      in the log; every unlocked load returns one whole committed document; and
      at most one process is inside the lock. A command takes effect after it was
      requested, and after every command answered before that. */
  lemma Linearizable(first: FileState, events: seq<Event>)
    requires Run(Initial(first), events)
    ensures var s := Final(Initial(first), events);
            && s.file == Replay(first, s.log) && InOrder(s.log)
            && (forall i | 0 <= i < |s.answers| :: Answered(first, s.log, s.answers[i]))
            && (forall i | 0 <= i < |s.loads| :: Committed(first, s.log, s.loads[i]))
            && (forall p, q | p in s.procs && q in s.procs && !s.procs[p].Waiting? && !s.procs[q].Waiting? :: p == q)
            && (forall i | 0 <= i < |s.answers| ::
                  s.answers[i].asked.landed <= s.answers[i].at && Timely(s.answers[..i], s.answers[i].asked))
  {
    assert Replay(first, []) == first;
    InvRun(first, Initial(first), events);
    var s := Final(Initial(first), events);
    forall p | p in s.procs && !s.procs[p].Waiting? ensures s.holder == Some(p) {
      assert Sound(s, p, s.procs[p]);
    }
  }

  lemma OneMore(s: State, e: Event, rest: seq<Event>)
    requires Enabled(s, e) && Run(After(s, e), rest)
    ensures Run(s, [e] + rest) && Final(s, [e] + rest) == Final(After(s, e), rest)
  {
    assert ([e] + rest)[1..] == rest;
  }

  /** The command's own steps with nothing in between, from inside the lock. */
  lemma {:induction false} LockedRuns(s: State, p: nat) returns (events: seq<Event>)
    requires p in s.procs && s.procs[p].Seen? && s.procs[p].file == s.file
    ensures Run(s, events)
    ensures Does(s, Final(s, events), s.procs[p].op, s.procs[p].w)
    ensures Final(s, events).procs == s.procs - {p} && Final(s, events).holder.None?
  {
    var step := Step(s.file, s.procs[p].op, s.procs[p].w);
    if step.2 {
      var a := After(s, OpenTemp(p));
      var b := After(a, FillTemp(p));
      var c := After(b, Replace(p));
      OneMore(c, Unlock(p), []);
      OneMore(b, Replace(p), [Unlock(p)] + []);
      OneMore(a, FillTemp(p), [Replace(p)] + ([Unlock(p)] + []));
      OneMore(s, OpenTemp(p), [FillTemp(p)] + ([Replace(p)] + ([Unlock(p)] + [])));
      events := [OpenTemp(p)] + ([FillTemp(p)] + ([Replace(p)] + ([Unlock(p)] + [])));
    } else {
      NotWritten(s.file, s.procs[p].op, s.procs[p].w);
      var a := After(s, Settle(p));
      OneMore(a, Unlock(p), []);
      OneMore(s, Settle(p), [Unlock(p)] + []);
      events := [Settle(p)] + ([Unlock(p)] + []);
    }
  }

  /** The file is the command's next one, and it was answered. */
  ghost predicate Does(s: State, t: State, op: Op, w: World) {
    && t.file == Step(s.file, op, w).0 && |t.answers| == |s.answers| + 1 && t.answers[..|s.answers|] == s.answers
    && t.answers[|s.answers|].outcome == Step(s.file, op, w).1
  }

  lemma NotWritten(file: FileState, op: Op, w: World)
    ensures !Step(file, op, w).2 ==> Step(file, op, w).0 == file
  {
  }

  /** Whenever no one holds the lock, after a kill as after a command that
      finished, any command can run to its end, and what it then does to the file
      and answers is the sequential step. */
  lemma {:induction false} CommandIsARun(s: State, p: nat, op: Op, w: World) returns (events: seq<Event>)
    requires p !in s.procs && s.holder.None?
    ensures Run(s, events)
    ensures Does(s, Final(s, events), op, w)
    ensures Final(s, events).procs == s.procs && Final(s, events).holder.None?
  {
    var a := After(s, Request(p, op, w));
    if EarlyRefusal(op, w) {
      EarlyIsStable(op, w, s.file, s.file);
      NotWritten(s.file, op, w);
      OneMore(a, RefuseEarly(p), []);
      OneMore(s, Request(p, op, w), [RefuseEarly(p)] + []);
      events := [Request(p, op, w)] + ([RefuseEarly(p)] + []);
    } else {
      var b := After(a, Lock(p));
      var c := After(b, ReadFile(p));
      var rest := LockedRuns(c, p);
      OneMore(b, ReadFile(p), rest);
      OneMore(a, Lock(p), [ReadFile(p)] + rest);
      OneMore(s, Request(p, op, w), [Lock(p)] + ([ReadFile(p)] + rest));
      events := [Request(p, op, w)] + ([Lock(p)] + ([ReadFile(p)] + rest));
    }
  }

  /** A process killed anywhere leaves the file and the log, and the lock when it
      had it. */
  lemma KillLeaves(first: FileState, s: State, p: nat)
    requires Inv(first, s) && p in s.procs
    ensures var t := After(s, Kill(p));
            && t.file == s.file && t.log == s.log && t.answers == s.answers && t.procs == s.procs - {p}
            && (!s.procs[p].Waiting? ==> t.holder.None?)
  {
    assert Sound(s, p, s.procs[p]);
  }
}
