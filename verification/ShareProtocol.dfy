/** The share submission protocol of bridge/src/share_handler.rs as a machine over the
    atomic steps of all handlers: the duplicate guard, the worker records and the
    counters, with steps of different submissions interleaved in any way. */
module ShareProtocol {
  import opened Bytes
  import opened ExpiringTable
  import opened Verdicts
  import Runs

  // ---------------------------------------------------------- the duplicate guard

  datatype Outcome = InFlight | Accepted | StaleShare | LowDiff | Bad

  type Guard = Table<Outcome>

  /** `insert_inflight`. */
  function Inserted(lim: Limits, g: Guard, key: string, now: nat): Guard {
    var p := Pruned(lim, g, now);
    if key in p.entries then p
    else Table(p.entries[key := Entry(now, InFlight)], p.order + [key])
  }

  /** `set_outcome`: renews the time stamp, not the place in the order. */
  function WithOutcome(lim: Limits, g: Guard, key: string, now: nat, outcome: Outcome): Guard {
    var p := Pruned(lim, g, now);
    if key in p.entries then p.(entries := p.entries[key := Entry(now, outcome)]) else p
  }

  /** The locked section at the start of a submission: the remembered outcome, or a new
      in-flight entry. */
  function Looked(lim: Limits, g: Guard, key: string, now: nat): Guard {
    var p := Pruned(lim, g, now);
    if key in p.entries then p else Inserted(lim, p, key, now)
  }

  predicate Remembered(lim: Limits, g: Guard, key: string, now: nat) {
    key in Pruned(lim, g, now).entries
  }

  // ------------------------------------------------------- verdicts, outcomes, answers

  /** A verdict that the handler lives to act on. */
  type Decision = v: Verdict | v != Underflow witness ValidShare

  function OutcomeOf(d: Decision): Outcome {
    match d
    case ValidShare => Accepted
    case LowDifficulty => LowDiff
    case StaleBlock => StaleShare
    case BadBlock => Bad
  }

  function KindOf(d: Decision): Kind {
    match d
    case ValidShare => Shares
    case LowDifficulty => Invalid
    case StaleBlock => Stale
    case BadBlock => Invalid
  }

  datatype Answer = AnswerTrue | AnswerStale | AnswerLowDiff | AnswerBad

  /** What the handler answers once it has a verdict. */
  function AnswerTo(d: Decision): Answer {
    match d
    case ValidShare => AnswerTrue
    case LowDifficulty => AnswerLowDiff
    case StaleBlock => AnswerStale
    case BadBlock => AnswerBad
  }

  /** What it answers a duplicate. */
  function AnswerToDuplicate(o: Outcome): Answer {
    match o
    case InFlight => AnswerTrue
    case Accepted => AnswerTrue
    case StaleShare => AnswerStale
    case LowDiff => AnswerLowDiff
    case Bad => AnswerBad
  }

  /** A miner is told what is counted: true exactly for a share, stale exactly for a stale share,
      and a duplicate is told the same. */
  lemma AnswersFollowCounts(d: Decision)
    ensures AnswerTo(d) == AnswerTrue <==> KindOf(d) == Shares
    ensures AnswerTo(d) == AnswerStale <==> KindOf(d) == Stale
    ensures AnswerToDuplicate(OutcomeOf(d)) == AnswerTo(d)
  {
  }

  // ------------------------------------------------------------------ the machine

  datatype Kind = Shares | Stale | Invalid | Blocks

  datatype Counters = Counters(shares: nat, stale: nat, invalid: nat, blocks: nat) {
    function Get(k: Kind): nat {
      match k
      case Shares => shares
      case Stale => stale
      case Invalid => invalid
      case Blocks => blocks
    }

    function Bump(k: Kind): Counters {
      match k
      case Shares => this.(shares := shares + 1)
      case Stale => this.(stale := stale + 1)
      case Invalid => this.(invalid := invalid + 1)
      case Blocks => this.(blocks := blocks + 1)
    }
  }

  /** How far a task is with its counters. The worker's counter and the overall counter
      sit behind different locks, so other tasks may run in between. */
  datatype Phase = Working | Holding(kind: Kind, record: nat) | HalfCounted(kind: Kind) | Counted(kind: Kind)

  /** A submission being validated: whether it has started a block confirmation, its verdict,
      and whether the guard has been told. */
  datatype Task =
    | Submission(key: string, spawned: bool, verdict: Option<Decision>, recorded: bool, phase: Phase)
    | Confirmation(phase: Phase)

  /** `records` are all worker records ever created, `stats` the ones not pruned, by name. */
  datatype Machine = Machine(guard: Guard, tasks: seq<Task>, records: seq<Counters>, stats: map<string, nat>, overall: Counters)

  datatype Event =
    | Submit(key: string, now: nat)
    | SpawnConfirmation(task: nat, worker: string)
    | Decide(task: nat, verdict: Decision)
    | Settle(task: nat, worker: string)
    | CountForWorker(task: nat)
    | CountOverall(task: nat)
    | SetOutcome(task: nat, now: nat)
    | Visit(worker: string)
    | PruneStats(keep: set<string>)

  const ZERO := Counters(0, 0, 0, 0)
  const START := Machine(Table(map[], []), [], [], map[], ZERO)

  /** `get_create_stats`: the record of a worker, created on first use. */
  function WithRecord(m: Machine, worker: string): Machine {
    if worker in m.stats then m
    else m.(records := m.records + [ZERO], stats := m.stats[worker := |m.records|])
  }

  function NewTask(key: string): Task {
    Submission(key, false, None, false, Working)
  }

  /** A stale share is recorded before it is counted, any other verdict after. */
  predicate MayRecord(t: Task) {
    && t.Submission? && t.verdict.Some? && !t.recorded
    && if t.verdict.value == StaleBlock then t.phase == Working else t.phase.Counted?
  }

  ghost predicate Step(lim: Limits, m: Machine, e: Event, m': Machine) {
    match e
    case Submit(key, now) =>
      if Remembered(lim, m.guard, key, now) then m' == m.(guard := Looked(lim, m.guard, key, now))
      else m' == m.(guard := Looked(lim, m.guard, key, now), tasks := m.tasks + [NewTask(key)])
    case SpawnConfirmation(i, worker) =>
      && i < |m.tasks| && m.tasks[i].Submission? && m.tasks[i].verdict.None? && m.tasks[i].phase == Working && !m.tasks[i].spawned
      && var r := WithRecord(m, worker);
         m' == r.(tasks := m.tasks[i := m.tasks[i].(spawned := true)] + [Confirmation(Holding(Blocks, r.stats[worker]))])
    case Decide(i, verdict) =>
      && i < |m.tasks| && m.tasks[i].Submission? && m.tasks[i].verdict.None? && m.tasks[i].phase == Working
      && (m.tasks[i].spawned ==> verdict == ValidShare)
      && m' == m.(tasks := m.tasks[i := m.tasks[i].(verdict := Some(verdict))])
    case Settle(i, worker) =>
      && i < |m.tasks| && m.tasks[i].Submission? && m.tasks[i].verdict.Some? && m.tasks[i].phase == Working
      && (m.tasks[i].verdict.value == StaleBlock ==> m.tasks[i].recorded)
      && var r := WithRecord(m, worker);
         m' == r.(tasks := m.tasks[i := m.tasks[i].(phase := Holding(KindOf(m.tasks[i].verdict.value), r.stats[worker]))])
    case CountForWorker(i) =>
      && i < |m.tasks| && m.tasks[i].phase.Holding? && m.tasks[i].phase.record < |m.records|
      && var kind, r := m.tasks[i].phase.kind, m.tasks[i].phase.record;
         m' == m.(records := m.records[r := m.records[r].Bump(kind)],
                  tasks := m.tasks[i := m.tasks[i].(phase := HalfCounted(kind))])
    case CountOverall(i) =>
      && i < |m.tasks| && m.tasks[i].phase.HalfCounted?
      && var kind := m.tasks[i].phase.kind;
         m' == m.(overall := m.overall.Bump(kind), tasks := m.tasks[i := m.tasks[i].(phase := Counted(kind))])
    case SetOutcome(i, now) =>
      && i < |m.tasks| && MayRecord(m.tasks[i])
      && m' == m.(guard := WithOutcome(lim, m.guard, m.tasks[i].key, now, OutcomeOf(m.tasks[i].verdict.value)),
                  tasks := m.tasks[i := m.tasks[i].(recorded := true)])
    case Visit(worker) => m' == WithRecord(m, worker)
    case PruneStats(keep) => m' == m.(stats := map w | w in m.stats && w in keep :: m.stats[w])
  }

  ghost predicate Run(lim: Limits, ms: seq<Machine>, es: seq<Event>) {
    Runs.Run((m, e, m') => Step(lim, m, e, m'), ms, es) && ms[0] == START
  }

  lemma StepAt(lim: Limits, ms: seq<Machine>, es: seq<Event>, i: nat)
    requires Run(lim, ms, es) && i < |es|
    ensures Step(lim, ms[i], es[i], ms[i + 1])
  {
    assert Runs.Taken((m, e, m') => Step(lim, m, e, m'), ms, es, i);
  }

  // ---------------------------------------------------------------------- counting

  datatype Tag = IsSubmission | IsSpawned | IsConfirmation | IsHalf(kind: Kind) | IsCounted(kind: Kind)
               | IsSettled(verdict: Decision) | SubmissionOpen | ConfirmationOpen

  predicate Has(t: Task, tag: Tag) {
    match tag
    case IsSubmission => t.Submission?
    case IsSpawned => t.Submission? && t.spawned
    case IsConfirmation => t.Confirmation?
    case IsHalf(k) => t.phase == HalfCounted(k)
    case IsCounted(k) => t.phase == Counted(k)
    case IsSettled(d) => t.Submission? && t.phase.Counted? && t.verdict == Some(d)
    case SubmissionOpen => t.Submission? && !t.phase.Counted?
    case ConfirmationOpen => t.Confirmation? && !t.phase.Counted?
  }

  function One(b: bool): nat {
    if b then 1 else 0
  }

  function Count(ts: seq<Task>, tag: Tag): nat {
    if ts == [] then 0 else Count(ts[..|ts| - 1], tag) + One(Has(ts[|ts| - 1], tag))
  }

  function Sum(rs: seq<Counters>, k: Kind): nat {
    if rs == [] then 0 else Sum(rs[..|rs| - 1], k) + rs[|rs| - 1].Get(k)
  }

  lemma {:induction false} CountUpdate(ts: seq<Task>, i: nat, t: Task, tag: Tag)
    requires i < |ts|
    ensures Count(ts[i := t], tag) + One(Has(ts[i], tag)) == Count(ts, tag) + One(Has(t, tag))
    decreases |ts|
  {
    var n := |ts| - 1;
    if i == n {
      assert ts[i := t][..n] == ts[..n];
    } else {
      assert ts[i := t][..n] == ts[..n][i := t];
      CountUpdate(ts[..n], i, t, tag);
    }
  }

  lemma CountAppend(ts: seq<Task>, t: Task, tag: Tag)
    ensures Count(ts + [t], tag) == Count(ts, tag) + One(Has(t, tag))
  {
    assert (ts + [t])[..|ts|] == ts;
  }

  lemma {:induction false} SumBump(rs: seq<Counters>, i: nat, k: Kind, j: Kind)
    requires i < |rs|
    ensures Sum(rs[i := rs[i].Bump(k)], j) == Sum(rs, j) + One(j == k)
    decreases |rs|
  {
    var n := |rs| - 1;
    if i == n {
      assert rs[i := rs[i].Bump(k)][..n] == rs[..n];
    } else {
      assert rs[i := rs[i].Bump(k)][..n] == rs[..n][i := rs[..n][i].Bump(k)];
      SumBump(rs[..n], i, k, j);
    }
  }

  lemma SumAppendZero(rs: seq<Counters>, k: Kind)
    ensures Sum(rs + [ZERO], k) == Sum(rs, k)
  {
    assert (rs + [ZERO])[..|rs|] == rs;
  }

  // -------------------------------------------------------------------- invariants

  /** Records in use exist, and only confirmations count blocks. */
  ghost predicate WellTyped(m: Machine) {
    && (forall w :: w in m.stats ==> m.stats[w] < |m.records|)
    && (forall i :: 0 <= i < |m.tasks| ==> TaskFits(m, m.tasks[i]))
  }

  ghost predicate TaskFits(m: Machine, t: Task) {
    && (t.phase.Holding? ==> t.phase.record < |m.records|)
    && (!t.phase.Working? ==> (t.phase.kind == Blocks <==> t.Confirmation?))
    && (t.Confirmation? ==> !t.phase.Working?)
    && (t.Submission? ==> SubmissionFits(t))
  }

  /** The counter follows the verdict, a confirmation means a valid share, and the guard is
      told only what was decided and, but for stale shares, counted. */
  ghost predicate SubmissionFits(t: Task)
    requires t.Submission?
  {
    && (!t.phase.Working? ==> t.verdict.Some? && t.phase.kind == KindOf(t.verdict.value))
    && (t.spawned && t.verdict.Some? ==> t.verdict.value == ValidShare)
    && (t.recorded ==> t.verdict.Some? && (t.verdict.value != StaleBlock ==> t.phase.Counted?))
  }

  /** Kind by kind: the overall counter is the number of tasks done counting it, and the
      worker records together are ahead of it by the tasks half way. */
  ghost predicate Balanced(m: Machine, k: Kind) {
    && m.overall.Get(k) == Count(m.tasks, IsCounted(k))
    && Sum(m.records, k) == m.overall.Get(k) + Count(m.tasks, IsHalf(k))
  }

  ghost predicate Good(lim: Limits, m: Machine) {
    && WellTyped(m)
    && (forall k :: Balanced(m, k))
    && Count(m.tasks, IsSpawned) == Count(m.tasks, IsConfirmation)
    && Exact(m.guard) && |m.guard.entries| <= lim.maxEntries + 1
  }

  lemma PrunedFits(lim: Limits, g: Guard, now: nat)
    requires Exact(g)
    ensures Exact(Pruned(lim, g, now)) && |Pruned(lim, g, now).entries| <= lim.maxEntries
  {
    ExactIsListed(g);
    PrunedExact(lim, g, now);
    PruneBounds(lim, g, now);
  }

  lemma OutcomeFits(lim: Limits, p: Guard, key: string, e: Entry<Outcome>)
    requires Exact(p) && |p.entries| <= lim.maxEntries && key in p.entries
    ensures var g := p.(entries := p.entries[key := e]); Exact(g) && |g.entries| <= lim.maxEntries
  {
    assert p.entries[key := e].Keys == p.entries.Keys;
    assert |p.entries[key := e].Keys| == |p.entries.Keys|;
  }

  lemma InsertedFits(lim: Limits, p: Guard, key: string, now: nat)
    requires Exact(p) && key !in p.entries
    ensures Exact(Inserted(lim, p, key, now)) && |Inserted(lim, p, key, now).entries| <= lim.maxEntries + 1
  {
    PrunedFits(lim, p, now);
    PrunedShrinks(lim, p, now);
    InsertExact(lim, Pruned(lim, p, now), key, Entry(now, InFlight));
  }

  /** The order stays duplicate-free and lists exactly the entries, of which at most
      maxEntries + 1 exist: at the start of a submission ... */
  lemma LookedFits(lim: Limits, g: Guard, key: string, now: nat)
    requires Exact(g)
    ensures Exact(Looked(lim, g, key, now)) && |Looked(lim, g, key, now).entries| <= lim.maxEntries + 1
  {
    PrunedFits(lim, g, now);
    if key !in Pruned(lim, g, now).entries {
      InsertedFits(lim, Pruned(lim, g, now), key, now);
    }
  }

  /** ... and at its end. */
  lemma WithOutcomeFits(lim: Limits, g: Guard, key: string, now: nat, outcome: Outcome)
    requires Exact(g)
    ensures Exact(WithOutcome(lim, g, key, now, outcome)) && |WithOutcome(lim, g, key, now, outcome).entries| <= lim.maxEntries
  {
    PrunedFits(lim, g, now);
    if key in Pruned(lim, g, now).entries {
      OutcomeFits(lim, Pruned(lim, g, now), key, Entry(now, outcome));
    }
  }

  lemma PrunedShrinks<O>(lim: Limits, t: Table<O>, now: nat)
    ensures Pruned(lim, t, now).entries.Keys <= t.entries.Keys
    ensures forall k :: k in Pruned(lim, t, now).entries ==> Pruned(lim, t, now).entries[k] == t.entries[k]
  {
    PrunedIsCut(lim, t, now);
  }

  // ---------------------------------------------------------------------- one step

  lemma TaskStep(m: Machine, i: nat, t: Task, m': Machine)
    requires WellTyped(m) && i < |m.tasks| && m'.tasks == m.tasks[i := t] && m'.stats == m.stats
    requires |m.records| == |m'.records| && TaskFits(m, t)
    ensures WellTyped(m')
  {
    forall j | 0 <= j < |m'.tasks| ensures TaskFits(m', m'.tasks[j]) {
      assert TaskFits(m, if j == i then t else m.tasks[j]);
    }
  }

  lemma CountsAfter(m: Machine, i: nat, t: Task, k: Kind)
    requires i < |m.tasks|
    ensures Count(m.tasks[i := t], IsCounted(k)) + One(Has(m.tasks[i], IsCounted(k))) == Count(m.tasks, IsCounted(k)) + One(Has(t, IsCounted(k)))
    ensures Count(m.tasks[i := t], IsHalf(k)) + One(Has(m.tasks[i], IsHalf(k))) == Count(m.tasks, IsHalf(k)) + One(Has(t, IsHalf(k)))
  {
    CountUpdate(m.tasks, i, t, IsCounted(k));
    CountUpdate(m.tasks, i, t, IsHalf(k));
  }

  /** Creating a record disturbs nothing. */
  lemma WithRecordGood(lim: Limits, m: Machine, worker: string)
    requires Good(lim, m)
    ensures Good(lim, WithRecord(m, worker))
    ensures worker in WithRecord(m, worker).stats && WithRecord(m, worker).stats[worker] < |WithRecord(m, worker).records|
    ensures WithRecord(m, worker).tasks == m.tasks
  {
    var r := WithRecord(m, worker);
    forall i | 0 <= i < |r.tasks| ensures TaskFits(r, r.tasks[i]) {
      assert TaskFits(m, m.tasks[i]);
    }
    forall k ensures Balanced(r, k) {
      assert Balanced(m, k);
      SumAppendZero(m.records, k);
    }
  }

  predicate Uncounted(t: Task) {
    t.phase.Working? || t.phase.Holding?
  }

  lemma QuietAppend(m: Machine, t: Task, m': Machine)
    requires WellTyped(m) && (forall k :: Balanced(m, k)) && TaskFits(m, t) && Uncounted(t)
    requires m'.tasks == m.tasks + [t] && m'.records == m.records && m'.stats == m.stats && m'.overall == m.overall
    ensures WellTyped(m') && forall k :: Balanced(m', k)
  {
    forall k ensures Balanced(m', k) {
      assert Balanced(m, k);
      CountAppend(m.tasks, t, IsCounted(k));
      CountAppend(m.tasks, t, IsHalf(k));
    }
    forall i | 0 <= i < |m'.tasks| ensures TaskFits(m', m'.tasks[i]) {
      if i < |m.tasks| { assert TaskFits(m, m.tasks[i]); }
    }
  }

  lemma QuietUpdate(m: Machine, i: nat, t: Task, m': Machine)
    requires WellTyped(m) && (forall k :: Balanced(m, k)) && i < |m.tasks| && TaskFits(m, t)
    requires (Uncounted(m.tasks[i]) && Uncounted(t)) || m.tasks[i].phase == t.phase
    requires m'.tasks == m.tasks[i := t] && m'.records == m.records && m'.stats == m.stats && m'.overall == m.overall
    ensures WellTyped(m') && forall k :: Balanced(m', k)
  {
    TaskStep(m, i, t, m');
    forall k ensures Balanced(m', k) {
      assert Balanced(m, k);
      CountsAfter(m, i, t, k);
    }
  }

  lemma SubmitKeepsGood(lim: Limits, m: Machine, e: Event, m': Machine)
    requires Good(lim, m) && e.Submit? && Step(lim, m, e, m')
    ensures Good(lim, m')
  {
    LookedFits(lim, m.guard, e.key, e.now);
    if Remembered(lim, m.guard, e.key, e.now) {
      QuietStep(m, m');
    } else {
      var t := NewTask(e.key);
      QuietAppend(m, t, m');
      CountAppend(m.tasks, t, IsSpawned);
      CountAppend(m.tasks, t, IsConfirmation);
    }
  }

  lemma SettleKeepsGood(lim: Limits, m: Machine, e: Event, m': Machine)
    requires Good(lim, m) && e.Settle? && Step(lim, m, e, m')
    ensures Good(lim, m')
  {
    var r := WithRecord(m, e.worker);
    WithRecordGood(lim, m, e.worker);
    assert TaskFits(m, m.tasks[e.task]);
    var t := m.tasks[e.task].(phase := Holding(KindOf(m.tasks[e.task].verdict.value), r.stats[e.worker]));
    QuietUpdate(r, e.task, t, m');
    CountUpdate(m.tasks, e.task, t, IsSpawned);
    CountUpdate(m.tasks, e.task, t, IsConfirmation);
  }

  lemma SpawnKeepsGood(lim: Limits, m: Machine, e: Event, m': Machine)
    requires Good(lim, m) && e.SpawnConfirmation? && Step(lim, m, e, m')
    ensures Good(lim, m')
  {
    var r := WithRecord(m, e.worker);
    WithRecordGood(lim, m, e.worker);
    var t, c := m.tasks[e.task].(spawned := true), Confirmation(Holding(Blocks, r.stats[e.worker]));
    var mid := r.(tasks := m.tasks[e.task := t]);
    assert TaskFits(m, m.tasks[e.task]);
    QuietUpdate(r, e.task, t, mid);
    QuietAppend(mid, c, m');
    CountUpdate(m.tasks, e.task, t, IsSpawned);
    CountUpdate(m.tasks, e.task, t, IsConfirmation);
    CountAppend(mid.tasks, c, IsSpawned);
    CountAppend(mid.tasks, c, IsConfirmation);
  }

  lemma WorkerCountBalances(m: Machine, i: nat, m': Machine, k: Kind)
    requires Balanced(m, k) && i < |m.tasks| && m.tasks[i].phase.Holding? && m.tasks[i].phase.record < |m.records|
    requires m'.records == m.records[m.tasks[i].phase.record := m.records[m.tasks[i].phase.record].Bump(m.tasks[i].phase.kind)]
    requires m'.tasks == m.tasks[i := m.tasks[i].(phase := HalfCounted(m.tasks[i].phase.kind))] && m'.overall == m.overall
    ensures Balanced(m', k)
  {
    CountsAfter(m, i, m'.tasks[i], k);
    SumBump(m.records, m.tasks[i].phase.record, m.tasks[i].phase.kind, k);
  }

  lemma OverallCountBalances(m: Machine, i: nat, m': Machine, k: Kind)
    requires Balanced(m, k) && i < |m.tasks| && m.tasks[i].phase.HalfCounted?
    requires m'.records == m.records && m'.overall == m.overall.Bump(m.tasks[i].phase.kind)
    requires m'.tasks == m.tasks[i := m.tasks[i].(phase := Counted(m.tasks[i].phase.kind))]
    ensures Balanced(m', k)
  {
    CountsAfter(m, i, m'.tasks[i], k);
  }

  lemma CountingKeepsGood(lim: Limits, m: Machine, e: Event, m': Machine)
    requires Good(lim, m) && (e.CountForWorker? || e.CountOverall?) && Step(lim, m, e, m')
    ensures Good(lim, m')
  {
    var t := m'.tasks[e.task];
    assert TaskFits(m, m.tasks[e.task]);
    TaskStep(m, e.task, t, m');
    forall k ensures Balanced(m', k) {
      assert Balanced(m, k);
      if e.CountForWorker? { WorkerCountBalances(m, e.task, m', k); } else { OverallCountBalances(m, e.task, m', k); }
    }
    CountUpdate(m.tasks, e.task, t, IsSpawned);
    CountUpdate(m.tasks, e.task, t, IsConfirmation);
  }

  lemma FlagKeepsGood(lim: Limits, m: Machine, e: Event, m': Machine)
    requires Good(lim, m) && (e.Decide? || e.SetOutcome?) && Step(lim, m, e, m')
    ensures Good(lim, m')
  {
    var t := m'.tasks[e.task];
    assert TaskFits(m, m.tasks[e.task]);
    if e.SetOutcome? {
      WithOutcomeFits(lim, m.guard, t.key, e.now, OutcomeOf(t.verdict.value));
    }
    QuietUpdate(m, e.task, t, m');
    CountUpdate(m.tasks, e.task, t, IsSpawned);
    CountUpdate(m.tasks, e.task, t, IsConfirmation);
  }

  lemma StepKeepsGood(lim: Limits, m: Machine, e: Event, m': Machine)
    requires Good(lim, m) && Step(lim, m, e, m')
    ensures Good(lim, m')
  {
    match e
    case Submit(_, _) => SubmitKeepsGood(lim, m, e, m');
    case Decide(_, _) => FlagKeepsGood(lim, m, e, m');
    case Settle(_, _) => SettleKeepsGood(lim, m, e, m');
    case SpawnConfirmation(_, _) => SpawnKeepsGood(lim, m, e, m');
    case CountForWorker(_) => CountingKeepsGood(lim, m, e, m');
    case CountOverall(_) => CountingKeepsGood(lim, m, e, m');
    case SetOutcome(_, _) => FlagKeepsGood(lim, m, e, m');
    case Visit(worker) => WithRecordGood(lim, m, worker);
    case PruneStats(keep) => QuietStep(m, m');
  }

  lemma QuietStep(m: Machine, m': Machine)
    requires WellTyped(m) && forall k :: Balanced(m, k)
    requires m'.tasks == m.tasks && m'.records == m.records && m'.overall == m.overall
    requires forall w :: w in m'.stats ==> w in m.stats && m'.stats[w] == m.stats[w]
    ensures WellTyped(m') && forall k :: Balanced(m', k)
  {
    forall i | 0 <= i < |m'.tasks| ensures TaskFits(m', m'.tasks[i]) { assert TaskFits(m, m.tasks[i]); }
    forall k ensures Balanced(m', k) { assert Balanced(m, k); }
  }

  // --------------------------------------------------------------------- whole runs

  lemma StartIsGood(lim: Limits)
    ensures Good(lim, START)
  {
    var m := START;
    forall k ensures Balanced(m, k) { }
    assert m.guard.entries.Keys == Keys([]);
  }

  lemma StepsKeepGood(lim: Limits)
    ensures forall m, e, m' :: Good(lim, m) && Step(lim, m, e, m') ==> Good(lim, m')
  {
    forall m, e, m' | Good(lim, m) && Step(lim, m, e, m') ensures Good(lim, m') {
      StepKeepsGood(lim, m, e, m');
    }
  }

  /** Every reachable state, whatever the interleaving. */
  lemma RunStaysGood(lim: Limits, ms: seq<Machine>, es: seq<Event>, n: nat)
    requires Run(lim, ms, es) && n <= |es|
    ensures Good(lim, ms[n])
  {
    StartIsGood(lim);
    StepsKeepGood(lim);
    Runs.Invariant((m, e, m') => Step(lim, m, e, m'), m => Good(lim, m), ms, es, 0, n);
  }

  lemma TaskPartition(m: Machine, t: Task)
    requires TaskFits(m, t)
    ensures One(Has(t, IsSubmission)) ==
            One(Has(t, IsCounted(Shares))) + One(Has(t, IsCounted(Stale))) + One(Has(t, IsCounted(Invalid))) + One(Has(t, SubmissionOpen))
    ensures One(Has(t, IsConfirmation)) == One(Has(t, IsCounted(Blocks))) + One(Has(t, ConfirmationOpen))
  {
  }

  /** Every task is counted or open, whatever its kind. */
  lemma {:induction false} TasksPartition(m: Machine, n: nat)
    requires WellTyped(m) && n <= |m.tasks|
    ensures var ts := m.tasks[..n];
            && Count(ts, IsSubmission) == Count(ts, IsCounted(Shares)) + Count(ts, IsCounted(Stale)) + Count(ts, IsCounted(Invalid)) + Count(ts, SubmissionOpen)
            && Count(ts, IsConfirmation) == Count(ts, IsCounted(Blocks)) + Count(ts, ConfirmationOpen)
    decreases n
  {
    if n > 0 {
      TasksPartition(m, n - 1);
      TaskPartition(m, m.tasks[n - 1]);
      assert m.tasks[..n][..n - 1] == m.tasks[..n - 1];
    }
  }

  /** What is counted under a kind is what was settled with a verdict of that kind. */
  lemma {:induction false} CountedByVerdict(m: Machine, n: nat)
    requires WellTyped(m) && n <= |m.tasks|
    ensures var ts := m.tasks[..n];
            && Count(ts, IsCounted(Shares)) == Count(ts, IsSettled(ValidShare))
            && Count(ts, IsCounted(Stale)) == Count(ts, IsSettled(StaleBlock))
            && Count(ts, IsCounted(Invalid)) == Count(ts, IsSettled(LowDifficulty)) + Count(ts, IsSettled(BadBlock))
    decreases n
  {
    if n > 0 {
      CountedByVerdict(m, n - 1);
      assert TaskFits(m, m.tasks[n - 1]);
      assert m.tasks[..n][..n - 1] == m.tasks[..n - 1];
    }
  }

  /** Share accounting is conserved in every run: the validated submissions are exactly
      the shares, stale shares and invalid shares counted overall plus those still in
      flight, each counted under its verdict; the blocks counted plus the confirmations still open are exactly the
      confirmations started, one per submission at most; and each overall counter is the
      sum over all worker records ever created, pruned ones included, less the tasks
      between their two counters. */
  lemma SharesAreConserved(lim: Limits, ms: seq<Machine>, es: seq<Event>, n: nat)
    requires Run(lim, ms, es) && n <= |es|
    ensures var m := ms[n];
            && Count(m.tasks, IsSubmission) == m.overall.shares + m.overall.stale + m.overall.invalid + Count(m.tasks, SubmissionOpen)
            && m.overall.shares == Count(m.tasks, IsSettled(ValidShare)) && m.overall.stale == Count(m.tasks, IsSettled(StaleBlock))
            && m.overall.invalid == Count(m.tasks, IsSettled(LowDifficulty)) + Count(m.tasks, IsSettled(BadBlock))
            && Count(m.tasks, IsSpawned) == m.overall.blocks + Count(m.tasks, ConfirmationOpen)
            && forall k :: Sum(m.records, k) == m.overall.Get(k) + Count(m.tasks, IsHalf(k))
  {
    RunStaysGood(lim, ms, es, n);
    var m := ms[n];
    TasksPartition(m, |m.tasks|);
    CountedByVerdict(m, |m.tasks|);
    assert m.tasks[..|m.tasks|] == m.tasks;
    forall k ensures m.overall.Get(k) == Count(m.tasks, IsCounted(k)) && Sum(m.records, k) == m.overall.Get(k) + Count(m.tasks, IsHalf(k)) {
      assert Balanced(m, k);
    }
    assert m.overall.Get(Shares) == m.overall.shares && m.overall.Get(Stale) == m.overall.stale;
    assert m.overall.Get(Invalid) == m.overall.invalid && m.overall.Get(Blocks) == m.overall.blocks;
  }

  // -------------------------------------------------------------- answers to duplicates

  /** t is a validation of key whose outcome o the guard was told. */
  predicate Records(t: Task, key: string, o: Outcome) {
    t.Submission? && t.key == key && t.recorded && t.verdict.Some? && OutcomeOf(t.verdict.value) == o
  }

  ghost predicate Explained(ts: seq<Task>, key: string, o: Outcome) {
    exists i :: 0 <= i < |ts| && Records(ts[i], key, o)
  }

  /** t is a validation of key that the guard has not heard of yet. */
  predicate Unrecorded(t: Task, key: string) {
    t.Submission? && t.key == key && !t.recorded
  }

  ghost predicate Awaited(ts: seq<Task>, key: string) {
    exists i :: 0 <= i < |ts| && Unrecorded(ts[i], key)
  }

  /** Every outcome the guard remembers is that of some validation of the same key, and every
      key in flight has a validation that is not recorded. */
  ghost predicate AllExplained(m: Machine) {
    forall k :: k in m.guard.entries ==>
      if m.guard.entries[k].outcome == InFlight then Awaited(m.tasks, k) else Explained(m.tasks, k, m.guard.entries[k].outcome)
  }

  lemma StepKeepsRecords(lim: Limits, m: Machine, e: Event, m': Machine, key: string, o: Outcome)
    requires Step(lim, m, e, m') && Explained(m.tasks, key, o)
    ensures Explained(m'.tasks, key, o)
  {
    var i :| 0 <= i < |m.tasks| && Records(m.tasks[i], key, o);
    assert i < |m'.tasks| && Records(m'.tasks[i], key, o);
  }

  /** A key in flight keeps its unrecorded validation through every step but the recording of
      that key itself, and a new one comes with the submission. */
  lemma StepKeepsAwaited(lim: Limits, m: Machine, e: Event, m': Machine, key: string)
    requires Step(lim, m, e, m') && Awaited(m.tasks, key) && !(e.SetOutcome? && m.tasks[e.task].key == key)
    ensures Awaited(m'.tasks, key)
  {
    var i :| 0 <= i < |m.tasks| && Unrecorded(m.tasks[i], key);
    assert i < |m'.tasks| && Unrecorded(m'.tasks[i], key);
  }

  /** A step leaves an entry's outcome alone, starts it in flight with a new task, or sets it
      to the outcome of a task that records. */
  lemma StepOutcomes(lim: Limits, m: Machine, e: Event, m': Machine, k: string)
    requires Step(lim, m, e, m') && k in m'.guard.entries
    ensures var o := m'.guard.entries[k].outcome;
            || (k in m.guard.entries && o == m.guard.entries[k].outcome && !(e.SetOutcome? && m.tasks[e.task].key == k))
            || (o == InFlight && Awaited(m'.tasks, k))
            || (e.SetOutcome? && o != InFlight && Records(m'.tasks[e.task], k, o))
  {
    match e
    case Submit(key, now) => SubmitOutcomes(lim, m, key, now, m', k);
    case SetOutcome(i, now) => PrunedShrinks(lim, m.guard, now);
    case _ =>
  }

  lemma SubmitOutcomes(lim: Limits, m: Machine, key: string, now: nat, m': Machine, k: string)
    requires Step(lim, m, Submit(key, now), m') && k in m'.guard.entries
    ensures || (k in m.guard.entries && m'.guard.entries[k] == m.guard.entries[k])
            || (m'.guard.entries[k].outcome == InFlight && Awaited(m'.tasks, k))
  {
    PrunedShrinks(lim, m.guard, now);
    PrunedShrinks(lim, Pruned(lim, m.guard, now), now);
    if k == key && key !in Pruned(lim, m.guard, now).entries {
      assert Unrecorded(m'.tasks[|m.tasks|], k);
    }
  }

  lemma StepKeepsExplained(lim: Limits, m: Machine, e: Event, m': Machine)
    requires AllExplained(m) && Step(lim, m, e, m')
    ensures AllExplained(m')
  {
    forall k | k in m'.guard.entries
      ensures if m'.guard.entries[k].outcome == InFlight then Awaited(m'.tasks, k)
              else Explained(m'.tasks, k, m'.guard.entries[k].outcome)
    {
      StepOutcomes(lim, m, e, m', k);
      if k in m.guard.entries && m'.guard.entries[k].outcome == m.guard.entries[k].outcome {
        if m.guard.entries[k].outcome != InFlight {
          StepKeepsRecords(lim, m, e, m', k, m.guard.entries[k].outcome);
        } else if !(e.SetOutcome? && m.tasks[e.task].key == k) {
          StepKeepsAwaited(lim, m, e, m', k);
        }
      }
    }
  }

  lemma StepsKeepExplained(lim: Limits)
    ensures forall m, e, m' :: AllExplained(m) && Step(lim, m, e, m') ==> AllExplained(m')
  {
    forall m, e, m' | AllExplained(m) && Step(lim, m, e, m') ensures AllExplained(m') {
      StepKeepsExplained(lim, m, e, m');
    }
  }

  lemma RunStaysExplained(lim: Limits, ms: seq<Machine>, es: seq<Event>, n: nat)
    requires Run(lim, ms, es) && n <= |es|
    ensures AllExplained(ms[n])
  {
    StepsKeepExplained(lim);
    Runs.Invariant((m, e, m') => Step(lim, m, e, m'), m => AllExplained(m), ms, es, 0, n);
  }

  /** Task i is where the answer to a duplicate of key comes from: a validation of key that is
      not recorded while the key is in flight, and one with the outcome o after. */
  predicate AnswerSource(t: Task, key: string, o: Outcome) {
    if o == InFlight then Unrecorded(t, key) else Records(t, key, o)
  }

  lemma DuplicateOnlyPrunes(lim: Limits, ms: seq<Machine>, es: seq<Event>, n: nat, key: string, now: nat)
    requires Run(lim, ms, es) && n < |es| && es[n] == Submit(key, now) && Remembered(lim, ms[n].guard, key, now)
    ensures ms[n + 1] == ms[n].(guard := Pruned(lim, ms[n].guard, now))
  {
    StepAt(lim, ms, es, n);
  }

  /** In every run the answer a duplicate gets is true while a validation of the same key has
      not been recorded, and otherwise the very answer of a validation of that key. Nothing
      but the guard's pruning changes. */
  lemma DuplicateGetsOriginalAnswer(lim: Limits, ms: seq<Machine>, es: seq<Event>, n: nat, key: string, now: nat) returns (i: nat)
    requires Run(lim, ms, es) && n < |es| && es[n] == Submit(key, now) && Remembered(lim, ms[n].guard, key, now)
    ensures var o := Pruned(lim, ms[n].guard, now).entries[key].outcome;
            && i < |ms[n].tasks| && AnswerSource(ms[n].tasks[i], key, o)
            && AnswerToDuplicate(o) == (if o == InFlight then AnswerTrue else AnswerTo(ms[n].tasks[i].verdict.value))
    ensures ms[n + 1] == ms[n].(guard := Pruned(lim, ms[n].guard, now))
  {
    DuplicateOnlyPrunes(lim, ms, es, n, key, now);
    PrunedShrinks(lim, ms[n].guard, now);
    RunStaysExplained(lim, ms, es, n);
    var o := ms[n].guard.entries[key].outcome;
    if o == InFlight {
      i :| 0 <= i < |ms[n].tasks| && Unrecorded(ms[n].tasks[i], key);
    } else {
      i :| 0 <= i < |ms[n].tasks| && Records(ms[n].tasks[i], key, o);
    }
  }

  // -------------------------------------------------- when an answered share is counted

  /** In this run the n-th event is a duplicate of key, answered from task i, which has been
      recorded with verdict v. */
  ghost predicate AnsweredFrom(lim: Limits, ms: seq<Machine>, es: seq<Event>, n: nat, i: nat, v: Decision) {
    && Run(lim, ms, es) && n < |es| && es[n].Submit? && Remembered(lim, ms[n].guard, es[n].key, es[n].now)
    && i < |ms[n].tasks| && ms[n].tasks[i].Submission? && ms[n].tasks[i].verdict == Some(v)
    && Records(ms[n].tasks[i], es[n].key, Pruned(lim, ms[n].guard, es[n].now).entries[es[n].key].outcome)
  }

  /** A share that a duplicate is answered from is always in its counter already. */
  ghost predicate AlwaysCounted(lim: Limits, v: Decision) {
    forall ms: seq<Machine>, es: seq<Event>, n: nat, i: nat :: AnsweredFrom(lim, ms, es, n, i, v) ==> ms[n].tasks[i].phase == Counted(KindOf(v))
  }

  /** That holds in every run if and only if the verdict is not stale, or the guard has no room
      to remember anything: a stale share is recorded before it is counted. */
  lemma AlwaysCountedExactly(lim: Limits, v: Decision)
    ensures AlwaysCounted(lim, v) <==> v != StaleBlock || lim.maxEntries == 0
  {
    if v == StaleBlock && lim.maxEntries > 0 {
      var ms, es, n := StaleAnsweredEarly(lim, "k");
      assert AnsweredFrom(lim, ms, es, n, 0, v);
    } else {
      forall ms: seq<Machine>, es: seq<Event>, n: nat, i: nat | AnsweredFrom(lim, ms, es, n, i, v) ensures ms[n].tasks[i].phase == Counted(KindOf(v)) {
        RunStaysGood(lim, ms, es, n);
        RememberedNeedsRoom(lim, ms[n].guard, es[n].key, es[n].now);
        assert TaskFits(ms[n], ms[n].tasks[i]);
      }
    }
  }

  lemma RememberedNeedsRoom(lim: Limits, g: Guard, key: string, now: nat)
    requires Exact(g) && Remembered(lim, g, key, now)
    ensures lim.maxEntries > 0
  {
    PrunedFits(lim, g, now);
    var p := Pruned(lim, g, now);
    assert key in p.entries.Keys && |p.entries.Keys| == |p.entries|;
  }

  lemma RunSnoc(lim: Limits, ms: seq<Machine>, es: seq<Event>, e: Event, m: Machine)
    ensures Run(lim, ms, es) && Step(lim, ms[|es|], e, m) ==> Run(lim, ms + [m], es + [e])
  {
    if Run(lim, ms, es) && Step(lim, ms[|es|], e, m) {
      Runs.Snoc((m, e, m') => Step(lim, m, e, m'), ms, es, e, m);
    }
  }

  /** The clock readings of the events never go back, and never past t. */
  ghost predicate ForwardClock(es: seq<Event>, t: nat) {
    && (forall i :: 0 <= i < |es| && Prunes(es[i]) ==> es[i].now <= t)
    && (forall i, j :: 0 <= i < j < |es| && Prunes(es[i]) && Prunes(es[j]) ==> es[i].now <= es[j].now)
  }

  /** m is the last state of some run whose clock goes forward up to t. */
  ghost predicate Reached(lim: Limits, m: Machine, t: nat) {
    exists ms, es :: Run(lim, ms, es) && ms[|es|] == m && ForwardClock(es, t)
  }

  lemma ReachStart(lim: Limits)
    ensures Reached(lim, START, 0)
  {
    assert Run(lim, [START], []) && ForwardClock([], 0);
  }

  lemma ReachStep(lim: Limits, m: Machine, t: nat, e: Event, m': Machine)
    requires Prunes(e) ==> t <= e.now
    ensures Reached(lim, m, t) && Step(lim, m, e, m') ==> Reached(lim, m', if Prunes(e) then e.now else t)
  {
    if Reached(lim, m, t) && Step(lim, m, e, m') {
      var ms, es :| Run(lim, ms, es) && ms[|es|] == m && ForwardClock(es, t);
      RunSnoc(lim, ms, es, e, m');
      var ms', es' := ms + [m'], es + [e];
      assert Run(lim, ms', es') && ms'[|es'|] == m' && ForwardClock(es', if Prunes(e) then e.now else t);
    }
  }

  /** A submission of a key that is not remembered, where there is nothing to prune. */
  lemma SubmitFresh(lim: Limits, m: Machine, key: string, now: nat)
    requires !FrontGoes(lim, m.guard, now) && |m.guard.entries| <= lim.maxEntries && key !in m.guard.entries
    ensures Step(lim, m, Submit(key, now),
                 m.(guard := Table(m.guard.entries[key := Entry(now, InFlight)], m.guard.order + [key]), tasks := m.tasks + [NewTask(key)]))
  {
    NothingToPrune(lim, m.guard, now);
  }

  /** The recording of task i's verdict where there is nothing to prune. */
  lemma RecordFresh(lim: Limits, m: Machine, i: nat, now: nat)
    requires !FrontGoes(lim, m.guard, now) && |m.guard.entries| <= lim.maxEntries
    requires i < |m.tasks| && MayRecord(m.tasks[i]) && m.tasks[i].key in m.guard.entries
    ensures Step(lim, m, SetOutcome(i, now),
                 m.(guard := m.guard.(entries := m.guard.entries[m.tasks[i].key := Entry(now, OutcomeOf(m.tasks[i].verdict.value))]),
                    tasks := m.tasks[i := m.tasks[i].(recorded := true)]))
  {
    NothingToPrune(lim, m.guard, now);
  }

  function StaleTask(key: string, recorded: bool): Task {
    Submission(key, false, Some(StaleBlock), recorded, Working)
  }

  function OneKey(key: string, o: Outcome, t: Task): Machine {
    Machine(Table(map[key := Entry(0, o)], [key]), [t], [], map[], ZERO)
  }

  /** A run whose last event is a duplicate answered with a stale outcome while no counter has
      moved. */
  lemma StaleAnsweredEarly(lim: Limits, key: string) returns (ms: seq<Machine>, es: seq<Event>, n: nat)
    requires lim.maxEntries > 0
    ensures AnsweredFrom(lim, ms, es, n, 0, StaleBlock)
    ensures ms[n].overall == ZERO && ms[n].tasks[0].phase == Working
  {
    var m := OneKey(key, StaleShare, StaleTask(key, true));
    StaleIsReached(lim, key);
    ms, es :| Run(lim, ms, es) && ms[|es|] == m && ForwardClock(es, 0);
    n := |es|;
    DuplicateStep(lim, key);
    RunSnoc(lim, ms, es, Submit(key, 0), m);
    ms, es := ms + [m], es + [Submit(key, 0)];
    AnsweredStale(lim, ms, es, n, key);
  }

  lemma AnsweredStale(lim: Limits, ms: seq<Machine>, es: seq<Event>, n: nat, key: string)
    requires lim.maxEntries > 0 && Run(lim, ms, es) && n < |es| && es[n] == Submit(key, 0)
    requires ms[n] == OneKey(key, StaleShare, StaleTask(key, true))
    ensures AnsweredFrom(lim, ms, es, n, 0, StaleBlock)
    ensures ms[n].overall == ZERO && ms[n].tasks[0].phase == Working
  {
    DuplicateStep(lim, key);
  }

  lemma DuplicateStep(lim: Limits, key: string)
    requires lim.maxEntries > 0
    ensures var m := OneKey(key, StaleShare, StaleTask(key, true));
            && Pruned(lim, m.guard, 0) == m.guard && Remembered(lim, m.guard, key, 0)
            && Step(lim, m, Submit(key, 0), m)
  {
    NothingToPrune(lim, OneKey(key, StaleShare, StaleTask(key, true)).guard, 0);
  }

  lemma StaleIsReached(lim: Limits, key: string)
    requires lim.maxEntries > 0
    ensures Reached(lim, OneKey(key, StaleShare, StaleTask(key, true)), 0)
  {
    var m1, m2 := OneKey(key, InFlight, NewTask(key)), OneKey(key, InFlight, StaleTask(key, false));
    ReachStart(lim);
    FirstStep(lim, key);
    ReachStep(lim, START, 0, Submit(key, 0), m1);
    DecidesOnly(lim, key);
    ReachStep(lim, m1, 0, Decide(0, StaleBlock), m2);
    RecordsOnly(lim, key);
    ReachStep(lim, m2, 0, SetOutcome(0, 0), OneKey(key, StaleShare, StaleTask(key, true)));
  }

  lemma FirstStep(lim: Limits, key: string)
    ensures Step(lim, START, Submit(key, 0), OneKey(key, InFlight, NewTask(key)))
  {
    SubmitFresh(lim, START, key, 0);
    assert map[][key := Entry(0, InFlight)] == map[key := Entry(0, InFlight)];
    assert [] + [key] == [key] && [] + [NewTask(key)] == [NewTask(key)];
  }

  lemma DecidesOnly(lim: Limits, key: string)
    ensures Step(lim, OneKey(key, InFlight, NewTask(key)), Decide(0, StaleBlock), OneKey(key, InFlight, StaleTask(key, false)))
  {
  }

  lemma RecordsOnly(lim: Limits, key: string)
    requires lim.maxEntries > 0
    ensures Step(lim, OneKey(key, InFlight, StaleTask(key, false)), SetOutcome(0, 0), OneKey(key, StaleShare, StaleTask(key, true)))
  {
    var m := OneKey(key, InFlight, StaleTask(key, false));
    RecordFresh(lim, m, 0, 0);
    assert m.guard.entries[key := Entry(0, StaleShare)] == map[key := Entry(0, StaleShare)];
  }

  // ----------------------------------------------------------------- pruning twice

  /** Reached on a forward clock with a time to live of 1 and room for 2: a, renewed at time 1,
      stands before b, which is not; c came last. */
  function Renewed(a: string, b: string, c: string): Guard {
    Table(map[a := Entry(1, StaleShare), b := Entry(0, InFlight), c := Entry(1, InFlight)], [a, b, c])
  }

  /** At time 2 that guard prunes to b and c, and pruned again to c: b has expired behind a. */
  lemma RenewedPrunesTwice(a: string, b: string, c: string)
    requires a != b && b != c && a != c
    ensures Exact(Renewed(a, b, c))
    ensures Pruned(Limits(1, 2), Pruned(Limits(1, 2), Renewed(a, b, c), 2), 2) != Pruned(Limits(1, 2), Renewed(a, b, c), 2)
  {
    RenewedCut(a, b, c);
    RenewedPrunedOnce(a, b, c);
    BehindPruned(b, c);
    assert b in Behind(b, c).entries;
  }

  lemma RenewedCut(a: string, b: string, c: string)
    requires a != b && b != c && a != c
    ensures Exact(Renewed(a, b, c)) && PruneCut(Limits(1, 2), Renewed(a, b, c), 2) == 1
  {
    var lim, g := Limits(1, 2), Renewed(a, b, c);
    assert g.entries.Keys == {a, b, c} == Keys(g.order);
    assert !FrontGoes(lim, g, 2);
    PruneCutIs(lim, g, 2, 0);
  }

  function Behind(b: string, c: string): Guard {
    Table(map[b := Entry(0, InFlight), c := Entry(1, InFlight)], [b, c])
  }

  lemma RenewedPrunedOnce(a: string, b: string, c: string)
    requires a != b && b != c && a != c
    ensures Pruned(Limits(1, 2), Renewed(a, b, c), 2) == Behind(b, c)
  {
    RenewedCut(a, b, c);
    PrunedIsCut(Limits(1, 2), Renewed(a, b, c), 2);
    CutRenewed(a, b, c);
  }

  lemma CutRenewed(a: string, b: string, c: string)
    requires a != b && b != c && a != c
    ensures Cut(Renewed(a, b, c), 1) == Behind(b, c)
  {
    var g := Renewed(a, b, c);
    assert g.order[..1] == [a] && g.order[1..] == [b, c];
    assert Cut(g, 1).entries == Behind(b, c).entries;
  }

  lemma BehindPruned(b: string, c: string)
    requires b != c
    ensures b !in Pruned(Limits(1, 2), Behind(b, c), 2).entries
  {
    assert AllGo(Limits(1, 2), Behind(b, c), 2, 0);
    ForgottenExactly(Limits(1, 2), Behind(b, c), 2, b);
  }

  lemma LookForgets(lim: Limits, g: Guard, p: Guard, d: string, now: nat, b: string)
    requires p == Pruned(lim, g, now) && d !in p.entries && b != d && b !in Pruned(lim, p, now).entries
    ensures b !in Looked(lim, g, d, now).entries
  {
  }

  /** So a new submission then forgets b, which one pruning would have kept: b can be validated
      again while a duplicate of it would still have been recognised. */
  lemma SecondPruningForgets(a: string, b: string, c: string, d: string, m: Machine, m': Machine)
    requires a != b && b != c && a != c && d != b && d != c && m.guard == Renewed(a, b, c)
    requires Step(Limits(1, 2), m, Submit(d, 2), m')
    ensures Remembered(Limits(1, 2), m.guard, b, 2) && b !in m'.guard.entries
  {
    RenewedPrunedOnce(a, b, c);
    BehindPruned(b, c);
    LookForgets(Limits(1, 2), m.guard, Behind(b, c), d, 2, b);
  }

  function TwoInFlight(a: string, b: string): Guard {
    Table(map[a := Entry(0, InFlight), b := Entry(0, InFlight)], [a, b])
  }

  function OneRenewed(a: string, b: string): Guard {
    Table(map[a := Entry(1, StaleShare), b := Entry(0, InFlight)], [a, b])
  }

  function Holds(g: Guard, tasks: seq<Task>): Machine {
    Machine(g, tasks, [], map[], ZERO)
  }

  /** Nothing to prune in either, by age at time 1 or by number. */
  lemma TwoQuiet(a: string, b: string)
    requires a != b
    ensures |TwoInFlight(a, b).entries| == 2 && !FrontGoes(Limits(1, 2), TwoInFlight(a, b), 1)
    ensures |OneRenewed(a, b).entries| == 2 && !FrontGoes(Limits(1, 2), OneRenewed(a, b), 1)
  {
    var t, r := TwoInFlight(a, b).entries, OneRenewed(a, b).entries;
    assert t.Keys == {a, b} && r.Keys == {a, b};
    assert |t.Keys| == 2 && |r.Keys| == 2;
  }

  lemma SecondStep(a: string, b: string)
    requires a != b
    ensures Step(Limits(1, 2), OneKey(a, InFlight, NewTask(a)), Submit(b, 0), Holds(TwoInFlight(a, b), [NewTask(a), NewTask(b)]))
  {
    var m := OneKey(a, InFlight, NewTask(a));
    OneQuiet(a);
    SubmitFresh(Limits(1, 2), m, b, 0);
    SecondKey(a, b);
    assert [NewTask(a)] + [NewTask(b)] == [NewTask(a), NewTask(b)];
  }

  lemma OneQuiet(a: string)
    ensures var g := OneKey(a, InFlight, NewTask(a)).guard; |g.entries| == 1 && !FrontGoes(Limits(1, 2), g, 0)
  {
    var e := OneKey(a, InFlight, NewTask(a)).guard.entries;
    assert e.Keys == {a} && |e.Keys| == 1;
  }

  lemma SecondKey(a: string, b: string)
    requires a != b
    ensures map[a := Entry(0, InFlight)][b := Entry(0, InFlight)] == TwoInFlight(a, b).entries && [a] + [b] == [a, b]
    ensures TwoInFlight(a, b).entries[a := Entry(1, StaleShare)] == OneRenewed(a, b).entries
  {
  }

  lemma RenewStep(a: string, b: string)
    requires a != b
    ensures Step(Limits(1, 2), Holds(TwoInFlight(a, b), [StaleTask(a, false), NewTask(b)]), SetOutcome(0, 1),
                 Holds(OneRenewed(a, b), [StaleTask(a, true), NewTask(b)]))
  {
    var m := Holds(TwoInFlight(a, b), [StaleTask(a, false), NewTask(b)]);
    TwoQuiet(a, b);
    SecondKey(a, b);
    RecordFresh(Limits(1, 2), m, 0, 1);
    assert m.tasks[0 := StaleTask(a, true)] == [StaleTask(a, true), NewTask(b)];
  }

  lemma ThirdStep(a: string, b: string, c: string)
    requires a != b && b != c && a != c
    ensures Step(Limits(1, 2), Holds(OneRenewed(a, b), [StaleTask(a, true), NewTask(b)]), Submit(c, 1),
                 Holds(Renewed(a, b, c), [StaleTask(a, true), NewTask(b)] + [NewTask(c)]))
  {
    var m := Holds(OneRenewed(a, b), [StaleTask(a, true), NewTask(b)]);
    TwoQuiet(a, b);
    ThirdKey(a, b, c);
    SubmitFresh(Limits(1, 2), m, c, 1);
  }

  lemma ThirdKey(a: string, b: string, c: string)
    requires a != b && b != c && a != c
    ensures Table(OneRenewed(a, b).entries[c := Entry(1, InFlight)], OneRenewed(a, b).order + [c]) == Renewed(a, b, c)
    ensures c !in OneRenewed(a, b).entries
  {
    assert OneRenewed(a, b).entries[c := Entry(1, InFlight)] == Renewed(a, b, c).entries;
  }

  lemma TwoReached(a: string, b: string)
    requires a != b
    ensures Reached(Limits(1, 2), Holds(TwoInFlight(a, b), [NewTask(a), NewTask(b)]), 0)
  {
    var lim, m1 := Limits(1, 2), OneKey(a, InFlight, NewTask(a));
    ReachStart(lim);
    FirstStep(lim, a);
    ReachStep(lim, START, 0, Submit(a, 0), m1);
    SecondStep(a, b);
    ReachStep(lim, m1, 0, Submit(b, 0), Holds(TwoInFlight(a, b), [NewTask(a), NewTask(b)]));
  }

  lemma OneRenewedReached(a: string, b: string)
    requires a != b
    ensures Reached(Limits(1, 2), Holds(OneRenewed(a, b), [StaleTask(a, true), NewTask(b)]), 1)
  {
    var lim, m2, m3 := Limits(1, 2), Holds(TwoInFlight(a, b), [NewTask(a), NewTask(b)]), Holds(TwoInFlight(a, b), [StaleTask(a, false), NewTask(b)]);
    TwoReached(a, b);
    assert Step(lim, m2, Decide(0, StaleBlock), m3);
    ReachStep(lim, m2, 0, Decide(0, StaleBlock), m3);
    RenewStep(a, b);
    ReachStep(lim, m3, 0, SetOutcome(0, 1), Holds(OneRenewed(a, b), [StaleTask(a, true), NewTask(b)]));
  }

  /** A run on a forward clock leads there. */
  lemma RenewedIsReached(a: string, b: string, c: string)
    requires a != b && b != c && a != c
    ensures Reached(Limits(1, 2), Holds(Renewed(a, b, c), [StaleTask(a, true), NewTask(b)] + [NewTask(c)]), 1)
  {
    OneRenewedReached(a, b);
    ThirdStep(a, b, c);
    ReachStep(Limits(1, 2), Holds(OneRenewed(a, b), [StaleTask(a, true), NewTask(b)]), 1, Submit(c, 1),
              Holds(Renewed(a, b, c), [StaleTask(a, true), NewTask(b)] + [NewTask(c)]));
  }

  // ----------------------------------------------------------- once while remembered

  predicate Prunes(e: Event) {
    e.Submit? || e.SetOutcome?
  }

  /** The guard after the pruning of an event: a submission that is not a duplicate prunes
      twice, once to look and once to insert. */
  function Swept(lim: Limits, g: Guard, e: Event): Guard
    requires Prunes(e)
  {
    var p := Pruned(lim, g, e.now);
    if e.Submit? && e.key !in p.entries then Pruned(lim, p, e.now) else p
  }

  /** Event e drops key. */
  ghost predicate Drops(lim: Limits, m: Machine, e: Event, key: string) {
    Prunes(e) && key in m.guard.entries && key !in Swept(lim, m.guard, e).entries
  }

  /** Event e is a submission of key that goes on to validation. */
  ghost predicate Validates(lim: Limits, m: Machine, e: Event, key: string) {
    e.Submit? && e.key == key && !Remembered(lim, m.guard, key, e.now)
  }

  lemma SweptIsPart(lim: Limits, g: Guard, e: Event)
    requires Prunes(e)
    ensures Swept(lim, g, e).entries.Keys <= Pruned(lim, g, e.now).entries.Keys
  {
    PrunedShrinks(lim, Pruned(lim, g, e.now), e.now);
  }

  lemma SweptReason(lim: Limits, g: Guard, e: Event, key: string)
    requires Exact(g) && Prunes(e) && key in g.entries && key !in Swept(lim, g, e).entries
    ensures Expired(lim, g, e.now, key) || Crowded(lim, g, key)
  {
    var p := Pruned(lim, g, e.now);
    if key in p.entries {
      PrunedFits(lim, g, e.now);
      PrunedShrinks(lim, g, e.now);
      PruneReason(lim, p, e.now, key);
      NotCrowded(lim, p, key);
    } else {
      PruneReason(lim, g, e.now, key);
    }
  }

  lemma NotCrowded(lim: Limits, p: Guard, key: string)
    requires |p.entries| <= lim.maxEntries
    ensures !Crowded(lim, p, key)
  {
    forall i | 0 <= i < |p.order| ensures LiveFrom(p, i) <= lim.maxEntries {
      var c := Cut(p, i);
      assert c.entries.Keys <= p.entries.Keys;
      SubsetCount(c.entries.Keys, p.entries.Keys);
    }
  }

  lemma LookedKeeps(lim: Limits, g: Guard, key: string, now: nat, k: string)
    ensures k in Swept(lim, g, Submit(key, now)).entries ==> k in Looked(lim, g, key, now).entries
    ensures key !in Pruned(lim, g, now).entries ==> key in Looked(lim, g, key, now).entries
  {
  }

  lemma WithOutcomeKeeps(lim: Limits, g: Guard, key: string, now: nat, outcome: Outcome, k: string)
    ensures k in Pruned(lim, g, now).entries ==> k in WithOutcome(lim, g, key, now, outcome).entries
  {
  }

  lemma StepKeepsKey(lim: Limits, m: Machine, e: Event, m': Machine, key: string)
    requires Step(lim, m, e, m')
    ensures key in m.guard.entries && !Drops(lim, m, e, key) ==> key in m'.guard.entries && !Validates(lim, m, e, key)
    ensures Validates(lim, m, e, key) ==> key in m'.guard.entries
  {
    match e
    case Submit(k, now) =>
      LookedKeeps(lim, m.guard, k, now, key);
      SweptIsPart(lim, m.guard, e);
    case SetOutcome(i, now) => WithOutcomeKeeps(lim, m.guard, m.tasks[i].key, now, OutcomeOf(m.tasks[i].verdict.value), key);
    case _ =>
  }

  lemma StepKeepsKeyAt(lim: Limits, ms: seq<Machine>, es: seq<Event>, key: string, n: nat)
    requires Run(lim, ms, es) && n < |es|
    ensures key in ms[n].guard.entries && !Drops(lim, ms[n], es[n], key) ==>
              key in ms[n + 1].guard.entries && !Validates(lim, ms[n], es[n], key)
    ensures Validates(lim, ms[n], es[n], key) ==> key in ms[n + 1].guard.entries
  {
    StepAt(lim, ms, es, n);
    StepKeepsKey(lim, ms[n], es[n], ms[n + 1], key);
  }

  lemma DroppedBetween(lim: Limits, ms: seq<Machine>, es: seq<Event>, key: string, i: nat, j: nat) returns (n: nat)
    requires Run(lim, ms, es) && i < j < |es|
    requires Validates(lim, ms[i], es[i], key) && Validates(lim, ms[j], es[j], key)
    ensures i < n <= j && Drops(lim, ms[n], es[n], key)
  {
    StepKeepsKeyAt(lim, ms, es, key, i);
    n := i + 1;
    while n < j && !Drops(lim, ms[n], es[n], key)
      invariant i < n <= j && key in ms[n].guard.entries
    {
      StepKeepsKeyAt(lim, ms, es, key, n);
      n := n + 1;
    }
    StepKeepsKeyAt(lim, ms, es, key, n);
  }

  /** A key validated twice was forgotten in between: an event after the first validation
      found it idle for longer than the time to live, or crowded out by maxEntries keys
      listed behind it. So while it is remembered it is validated at most once. */
  lemma ValidatedTwiceOnlyIfForgotten(lim: Limits, ms: seq<Machine>, es: seq<Event>, key: string, i: nat, j: nat) returns (n: nat)
    requires Run(lim, ms, es) && i < j < |es|
    requires Validates(lim, ms[i], es[i], key) && Validates(lim, ms[j], es[j], key)
    ensures i < n <= j && Prunes(es[n]) && key in ms[n].guard.entries
    ensures Expired(lim, ms[n].guard, es[n].now, key) || Crowded(lim, ms[n].guard, key)
  {
    n := DroppedBetween(lim, ms, es, key, i, j);
    RunStaysGood(lim, ms, es, n);
    SweptReason(lim, ms[n].guard, es[n], key);
  }

  /** In every run a submission is validated if and only if its key is not remembered, or its place
      goes: the key and every one listed before it have expired, or at least maxEntries keys are
      listed after it. */
  lemma ValidatedExactly(lim: Limits, ms: seq<Machine>, es: seq<Event>, n: nat, key: string, now: nat)
    requires Run(lim, ms, es) && n < |es| && es[n] == Submit(key, now)
    ensures Validates(lim, ms[n], es[n], key) <==> key !in ms[n].guard.entries || KeyGoes(lim, ms[n].guard, now, key)
  {
    RunStaysGood(lim, ms, es, n);
    ForgottenExactly(lim, ms[n].guard, now, key);
    ForgettableWhenExact(lim, ms[n].guard, now, key);
  }

  /** Event e renews the time stamp of key. */
  ghost predicate Touches(lim: Limits, m: Machine, e: Event, key: string) {
    || Validates(lim, m, e, key)
    || (e.SetOutcome? && e.task < |m.tasks| && m.tasks[e.task].Submission? && m.tasks[e.task].key == key
        && key in Pruned(lim, m.guard, e.now).entries)
  }

  lemma LookedStamps(lim: Limits, g: Guard, key: string, now: nat, k: string)
    requires k in Looked(lim, g, key, now).entries
    ensures if k == key && key !in Pruned(lim, g, now).entries then Looked(lim, g, key, now).entries[k].ts == now
            else k in g.entries && Looked(lim, g, key, now).entries[k] == g.entries[k]
  {
    PrunedShrinks(lim, g, now);
    PrunedShrinks(lim, Pruned(lim, g, now), now);
  }

  lemma OutcomeStamps(lim: Limits, g: Guard, key: string, now: nat, o: Outcome, k: string)
    requires k in WithOutcome(lim, g, key, now, o).entries
    ensures k in Pruned(lim, g, now).entries
    ensures if k == key then WithOutcome(lim, g, key, now, o).entries[k].ts == now
            else k in g.entries && WithOutcome(lim, g, key, now, o).entries[k] == g.entries[k]
  {
    PrunedShrinks(lim, g, now);
  }

  lemma StepStamps(lim: Limits, m: Machine, e: Event, m': Machine, key: string)
    requires Step(lim, m, e, m') && key in m'.guard.entries
    ensures if Touches(lim, m, e, key) then m'.guard.entries[key].ts == e.now
            else key in m.guard.entries && m'.guard.entries[key] == m.guard.entries[key]
  {
    match e
    case Submit(k, now) => LookedStamps(lim, m.guard, k, now, key);
    case SetOutcome(i, now) => OutcomeStamps(lim, m.guard, m.tasks[i].key, now, OutcomeOf(m.tasks[i].verdict.value), key);
    case _ =>
  }

  /** A remembered key carries the time of the last event that touched it: the validation
      it came from or an outcome set since. Together with the previous theorem, expiry
      means no such event within the time to live. */
  lemma StampIsLastTouch(lim: Limits, ms: seq<Machine>, es: seq<Event>, key: string, n: nat) returns (t: nat)
    requires Run(lim, ms, es) && n <= |es| && key in ms[n].guard.entries
    ensures t < n && Touches(lim, ms[t], es[t], key) && ms[n].guard.entries[key].ts == es[t].now
    ensures forall d :: t < d < n ==> !Touches(lim, ms[d], es[d], key)
  {
    t := n - 1;
    StepStampsAt(lim, ms, es, t, key);
    while !Touches(lim, ms[t], es[t], key)
      invariant t < n && key in ms[t + 1].guard.entries && ms[t + 1].guard.entries[key] == ms[n].guard.entries[key]
      invariant forall d :: t < d < n ==> !Touches(lim, ms[d], es[d], key)
      decreases t
    {
      StepStampsAt(lim, ms, es, t, key);
      t := t - 1;
    }
    StepStampsAt(lim, ms, es, t, key);
  }

  lemma StepStampsAt(lim: Limits, ms: seq<Machine>, es: seq<Event>, t: nat, key: string)
    requires Run(lim, ms, es) && t < |es| && key in ms[t + 1].guard.entries
    ensures if Touches(lim, ms[t], es[t], key) then ms[t + 1].guard.entries[key].ts == es[t].now
            else t > 0 && key in ms[t].guard.entries && ms[t + 1].guard.entries[key] == ms[t].guard.entries[key]
  {
    StepAt(lim, ms, es, t);
    StepStamps(lim, ms[t], es[t], ms[t + 1], key);
  }

  // ------------------------------------------------------------- one record per worker

  /** Event e drops the worker's record from the table; the record itself lives on. */
  predicate DropsRecord(e: Event, worker: string) {
    e.PruneStats? && worker !in e.keep
  }

  ghost predicate HasRecord(m: Machine, worker: string, r: nat) {
    worker in m.stats && m.stats[worker] == r
  }

  lemma StepsKeepRecord(lim: Limits, worker: string, r: nat)
    ensures forall m, e, m' :: HasRecord(m, worker, r) && !DropsRecord(e, worker) && Step(lim, m, e, m') ==> HasRecord(m', worker, r)
  {
    forall m, e, m' | HasRecord(m, worker, r) && !DropsRecord(e, worker) && Step(lim, m, e, m') ensures HasRecord(m', worker, r) {
      StepKeepsRecord(lim, m, e, m', worker, r);
    }
  }

  lemma StepKeepsRecord(lim: Limits, m: Machine, e: Event, m': Machine, worker: string, r: nat)
    requires HasRecord(m, worker, r) && !DropsRecord(e, worker) && Step(lim, m, e, m')
    ensures HasRecord(m', worker, r)
  {
  }

  /** A worker keeps one record: in every run the record it has is the one all its counts go to
      until the table of records is pruned of it. */
  lemma RecordKeptUntilPruned(lim: Limits, ms: seq<Machine>, es: seq<Event>, worker: string, i: nat, j: nat) returns (n: nat)
    requires Run(lim, ms, es) && i <= j <= |es| && worker in ms[i].stats
    ensures i <= n <= j && HasRecord(ms[n], worker, ms[i].stats[worker])
    ensures n < j ==> DropsRecord(es[n], worker)
  {
    var r := ms[i].stats[worker];
    StepsKeepRecord(lim, worker, r);
    n := Runs.LostOrKept((m, e, m') => Step(lim, m, e, m'), (m: Machine) => HasRecord(m, worker, r), (m, e) => DropsRecord(e, worker), ms, es, i, j);
  }

  // ------------------------------------------------------------------------ the class

  class DuplicateSubmitGuard {
    const table: PruningTable<Outcome>

    constructor (lim: Limits)
      ensures table.lim == lim && table.Value() == Table(map[], []) && fresh(table)
    {
      table := new PruningTable(lim);
    }

    method Get(key: string, now: nat) returns (known: bool, outcome: Outcome)
      modifies table
      ensures table.Value() == Pruned(table.lim, old(table.Value()), now)
      ensures known <==> key in table.entries
      ensures known ==> outcome == table.entries[key].outcome
    {
      table.Prune(now);
      if key in table.entries {
        return true, table.entries[key].outcome;
      }
      return false, InFlight;
    }

    method InsertInflight(key: string, now: nat)
      modifies table
      ensures table.Value() == Inserted(table.lim, old(table.Value()), key, now)
    {
      table.Prune(now);
      if key in table.entries {
        return;
      }
      table.entries := table.entries[key := Entry(now, InFlight)];
      table.order := table.order + [key];
    }

    method SetOutcome(key: string, now: nat, outcome: Outcome)
      modifies table
      ensures table.Value() == WithOutcome(table.lim, old(table.Value()), key, now, outcome)
    {
      table.Prune(now);
      if key in table.entries {
        table.entries := table.entries[key := Entry(now, outcome)];
      }
    }

    /** The locked section at the start of `handle_submit`: what it replies to a duplicate,
        or that the submission is to be validated. */
    method Look(key: string, now: nat) returns (duplicate: bool, outcome: Outcome)
      modifies table
      ensures table.Value() == Looked(table.lim, old(table.Value()), key, now)
      ensures duplicate <==> Remembered(table.lim, old(table.Value()), key, now)
      ensures duplicate ==> outcome == Pruned(table.lim, old(table.Value()), now).entries[key].outcome
    {
      duplicate, outcome := Get(key, now);
      if !duplicate {
        InsertInflight(key, now);
      }
    }
  }
}
