/** `BlockSubmitGuard` and its use by `submit_block` (bridge/src/kaspaapi.rs): a block
    hash is sent to the node once, unless the node's refusal releases it. */
module BlockGuard {
  import opened ExpiringTable
  import opened Runs
  import opened Verdicts

  type Guard = Table<()>

  function MarkOutcome(lim: Limits, g: Guard, hash: string, now: nat): (Guard, bool) {
    var p := Pruned(lim, g, now);
    if hash in p.entries then (p, false)
    else (Table(p.entries[hash := Entry(now, ())], p.order + [hash]), true)
  }

  /** The listing stays in the order. */
  function Release(lim: Limits, g: Guard, hash: string, now: nat): Guard {
    var p := Pruned(lim, g, now);
    p.(entries := p.entries - {hash})
  }

  datatype Event =
    | Mark(hash: string, now: nat, ok: bool)
    | Remove(hash: string, now: nat)

  predicate Step(lim: Limits, g: Guard, e: Event, g': Guard) {
    match e
    case Mark(hash, now, ok) => MarkOutcome(lim, g, hash, now) == (g', ok)
    case Remove(hash, now) => Release(lim, g, hash, now) == g'
  }

  ghost predicate GuardRun(lim: Limits, guards: seq<Guard>, events: seq<Event>) {
    Run((g, e, g') => Step(lim, g, e, g'), guards, events)
  }

  lemma StepAt(lim: Limits, guards: seq<Guard>, events: seq<Event>, i: nat)
    requires GuardRun(lim, guards, events) && i < |events|
    ensures Step(lim, guards[i], events[i], guards[i + 1])
  {
    assert Taken((g, e, g') => Step(lim, g, e, g'), guards, events, i);
  }

  ghost predicate Good(lim: Limits, g: Guard) {
    Listed(g) && |g.entries| <= lim.maxEntries + 1
  }

  lemma StepKeepsGood(lim: Limits, g: Guard, e: Event, g': Guard)
    ensures Good(lim, g) && Step(lim, g, e, g') ==>
              Good(lim, g') && (e.Remove? ==> |g'.entries| <= lim.maxEntries)
  {
    if Good(lim, g) {
      PruneBounds(lim, g, e.now);
      AddOrRemoveOne(lim, Pruned(lim, g, e.now), e.hash, e.now);
    }
  }

  lemma AddOrRemoveOne(lim: Limits, p: Guard, hash: string, now: nat)
    requires Listed(p) && |p.entries| <= lim.maxEntries
    ensures Good(lim, p) && Good(lim, Table(p.entries[hash := Entry(now, ())], p.order + [hash]))
    ensures Good(lim, p.(entries := p.entries - {hash})) && |p.entries - {hash}| <= lim.maxEntries
  {
    var more, fewer := p.entries[hash := Entry(now, ())], p.entries - {hash};
    assert more.Keys == p.entries.Keys + {hash} && fewer.Keys == p.entries.Keys - {hash};
    assert |more.Keys| <= |p.entries.Keys| + 1 && |fewer.Keys| <= |p.entries.Keys|;
  }

  /** In every run every live entry stays listed, despite stale and repeated listings,
      and at most maxEntries + 1 entries live. */
  lemma GuardStaysGood(lim: Limits, guards: seq<Guard>, events: seq<Event>, n: nat)
    requires GuardRun(lim, guards, events) && Good(lim, guards[0]) && n <= |events|
    ensures Good(lim, guards[n])
  {
    forall g, e, g' ensures Good(lim, g) && Step(lim, g, e, g') ==> Good(lim, g') {
      StepKeepsGood(lim, g, e, g');
    }
    Invariant((g, e, g') => Step(lim, g, e, g'), g => Good(lim, g), guards, events, 0, n);
  }

  /** Event e lets go of hash: it releases it, or its pruning drops it. */
  ghost predicate Loses(lim: Limits, g: Guard, e: Event, hash: string) {
    hash in g.entries && ((e.Remove? && e.hash == hash) || hash !in Pruned(lim, g, e.now).entries)
  }

  lemma StepKeepsMark(lim: Limits, g: Guard, e: Event, g': Guard, hash: string)
    ensures Step(lim, g, e, g') && hash in g.entries && !Loses(lim, g, e, hash) ==>
              hash in g'.entries && !(e.Mark? && e.hash == hash && e.ok)
  {
  }

  /** A hash marked twice was released, had expired, or was crowded out in between. */
  lemma MarkedTwiceOnlyIfForgotten(lim: Limits, guards: seq<Guard>, events: seq<Event>, hash: string, i: nat, j: nat)
    requires GuardRun(lim, guards, events) && i < j < |events|
    requires events[i].Mark? && events[i].hash == hash && events[i].ok
    requires events[j].Mark? && events[j].hash == hash && events[j].ok
    ensures exists m :: i < m <= j && hash in guards[m].entries &&
              ((events[m].Remove? && events[m].hash == hash)
               || Expired(lim, guards[m], events[m].now, hash) || Crowded(lim, guards[m], hash))
  {
    var m := LostBetween(lim, guards, events, hash, i, j);
    if !(events[m].Remove? && events[m].hash == hash) {
      PruneReason(lim, guards[m], events[m].now, hash);
    }
  }

  lemma LostBetween(lim: Limits, guards: seq<Guard>, events: seq<Event>, hash: string, i: nat, j: nat) returns (m: nat)
    requires GuardRun(lim, guards, events) && i < j < |events|
    requires events[i].Mark? && events[i].hash == hash && events[i].ok
    requires events[j].Mark? && events[j].hash == hash && events[j].ok
    ensures i < m <= j && Loses(lim, guards[m], events[m], hash)
  {
    MarkedAfter(lim, guards, events, hash, i);
    StepsKeepMark(lim, hash);
    m := LostOrKept((g, e, g') => Step(lim, g, e, g'), (g: Guard) => hash in g.entries, (g, e) => Loses(lim, g, e, hash),
                    guards, events, i + 1, j);
    MarkNeedsLoss(lim, guards, events, hash, j);
  }

  lemma StepsKeepMark(lim: Limits, hash: string)
    ensures forall g, e, g' :: Step(lim, g, e, g') && hash in g.entries && !Loses(lim, g, e, hash) ==> hash in g'.entries
  {
    forall g, e, g' ensures Step(lim, g, e, g') && hash in g.entries && !Loses(lim, g, e, hash) ==> hash in g'.entries {
      StepKeepsMark(lim, g, e, g', hash);
    }
  }

  lemma MarkedAfter(lim: Limits, guards: seq<Guard>, events: seq<Event>, hash: string, i: nat)
    requires GuardRun(lim, guards, events) && i < |events|
    requires events[i].Mark? && events[i].hash == hash && events[i].ok
    ensures hash in guards[i + 1].entries
  {
    StepAt(lim, guards, events, i);
  }

  lemma MarkNeedsLoss(lim: Limits, guards: seq<Guard>, events: seq<Event>, hash: string, j: nat)
    requires GuardRun(lim, guards, events) && j < |events|
    requires events[j].Mark? && events[j].hash == hash && events[j].ok
    ensures hash in guards[j].entries ==> Loses(lim, guards[j], events[j], hash)
  {
    StepAt(lim, guards, events, j);
    StepKeepsMark(lim, guards[j], events[j], guards[j + 1], hash);
  }

  lemma OthersDoNotMark(lim: Limits, g: Guard, e: Event, g': Guard, hash: string)
    ensures Step(lim, g, e, g') && hash !in g.entries && !(e.Mark? && e.hash == hash) ==> hash !in g'.entries
  {
    PrunedIsCut(lim, g, e.now);
  }

  lemma StaysUnmarked(lim: Limits, guards: seq<Guard>, events: seq<Event>, hash: string, i: nat, j: nat)
    requires GuardRun(lim, guards, events) && i <= j <= |events| && hash !in guards[i].entries
    requires forall m :: i <= m < j ==> !(events[m].Mark? && events[m].hash == hash)
    ensures hash !in guards[j].entries
  {
    forall m | i <= m < j
      ensures hash !in guards[m].entries && Step(lim, guards[m], events[m], guards[m + 1]) ==> hash !in guards[m + 1].entries
    {
      OthersDoNotMark(lim, guards[m], events[m], guards[m + 1], hash);
    }
    Invariant((g, e, g') => Step(lim, g, e, g'), (g: Guard) => hash !in g.entries, guards, events, i, j);
  }

  /** A mark succeeds if and only if the hash is not remembered, or some listing of it is dropped:
      because it has expired and every listing before it is stale or has expired too, or because
      more than maxEntries hashes live from there on. */
  lemma MarkExactly(lim: Limits, g: Guard, e: Event, g': Guard)
    requires e.Mark? && Step(lim, g, e, g')
    ensures e.ok <==> e.hash !in g.entries || Forgettable(lim, g, e.now, e.hash)
  {
    ForgottenExactly(lim, g, e.now, e.hash);
  }

  /** So a hash whose time to live is over can be marked again, unless a live hash that has not
      expired is listed before it: the stale listings that releases leave do not stand in the way. */
  lemma ExpiredCanMark(lim: Limits, g: Guard, e: Event, g': Guard, i: nat)
    requires e.Mark? && Step(lim, g, e, g') && i < |g.order| && g.order[i] == e.hash
    requires e.hash in g.entries && e.now > g.entries[e.hash].ts + lim.ttl
    requires forall j :: 0 <= j < i && g.order[j] in g.entries ==> e.now > g.entries[g.order[j]].ts + lim.ttl
    ensures e.ok
  {
    MarkExactly(lim, g, e, g');
    assert AllGo(lim, g, e.now, i);
  }

  /** After a release the next attempt to mark the same hash succeeds. */
  lemma MarkAfterRemoveSucceeds(lim: Limits, guards: seq<Guard>, events: seq<Event>, hash: string, i: nat, j: nat)
    requires GuardRun(lim, guards, events) && i < j < |events|
    requires events[i].Remove? && events[i].hash == hash
    requires events[j].Mark? && events[j].hash == hash
    requires forall m :: i < m < j ==> !(events[m].Mark? && events[m].hash == hash)
    ensures events[j].ok && hash in guards[j + 1].entries
  {
    ReleasedAfter(lim, guards, events, i);
    StaysUnmarked(lim, guards, events, hash, i + 1, j);
    UnmarkedCanMark(lim, guards, events, j);
  }

  lemma ReleasedAfter(lim: Limits, guards: seq<Guard>, events: seq<Event>, i: nat)
    requires GuardRun(lim, guards, events) && i < |events| && events[i].Remove?
    ensures events[i].hash !in guards[i + 1].entries
  {
    StepAt(lim, guards, events, i);
  }

  lemma UnmarkedCanMark(lim: Limits, guards: seq<Guard>, events: seq<Event>, j: nat)
    requires GuardRun(lim, guards, events) && j < |events| && events[j].Mark? && events[j].hash !in guards[j].entries
    ensures events[j].ok && events[j].hash in guards[j + 1].entries
  {
    PrunedIsCut(lim, guards[j], events[j].now);
    StepAt(lim, guards, events, j);
  }

  /** One live hash with n stale listings of another behind it. */
  function Littered(n: nat): Guard {
    Table(map["a" := Entry(0, ())], ["a"] + seq(n, _ => "b"))
  }

  /** The number of live entries is bounded, the order is not: marking and releasing one
      hash behind a live entry adds a stale listing every time. */
  lemma OrderHasNoBound(lim: Limits, n: nat)
    requires lim.maxEntries >= 2
    ensures MarkOutcome(lim, Table(map[], []), "a", 0) == (Littered(0), true)
    ensures var (marked, ok) := MarkOutcome(lim, Littered(n), "b", 0);
            ok && Release(lim, marked, "b", 0) == Littered(n + 1)
    ensures |Littered(n).order| == n + 1 && |Littered(n).entries| == 1
  {
    FirstMark(lim);
    MarkBehind(lim, n);
    ReleaseBehind(lim, n);
  }

  function BothLive(n: nat): Guard {
    Table(map["a" := Entry(0, ()), "b" := Entry(0, ())], ["a"] + seq(n, _ => "b"))
  }

  lemma MarkBehind(lim: Limits, n: nat)
    requires lim.maxEntries >= 2
    ensures MarkOutcome(lim, Littered(n), "b", 0) == (BothLive(n + 1), true)
  {
    var g := Littered(n);
    NothingToPrune(lim, g, 0);
    assert g.order + ["b"] == BothLive(n + 1).order;
    assert g.entries["b" := Entry(0, ())] == BothLive(n + 1).entries;
  }

  lemma ReleaseBehind(lim: Limits, n: nat)
    requires lim.maxEntries >= 2
    ensures Release(lim, BothLive(n + 1), "b", 0) == Littered(n + 1)
  {
    var g := BothLive(n + 1);
    NothingToPrune(lim, g, 0);
    assert g.entries - {"b"} == Littered(n + 1).entries;
  }

  lemma FirstMark(lim: Limits)
    ensures MarkOutcome(lim, Table(map[], []), "a", 0) == (Littered(0), true)
  {
    NothingToPrune<()>(lim, Table(map[], []), 0);
    assert [] + ["a"] == ["a"] + seq(0, _ => "b");
  }

  /** Event e releases a hash that is live: its listing stays behind. */
  predicate ReleasesLive(lim: Limits, g: Guard, e: Event) {
    e.Remove? && e.hash in Pruned(lim, g, e.now).entries
  }

  /** One event keeps the order listing exactly the live hashes, each once, if and only if it
      does not release a live one. */
  lemma StepKeepsExactly(lim: Limits, g: Guard, e: Event, g': Guard)
    ensures Exact(g) && Step(lim, g, e, g') ==> (Exact(g') <==> !ReleasesLive(lim, g, e))
  {
    if Exact(g) {
      PrunedExact(lim, g, e.now);
      ExactIsListed(g);
      PruneBounds(lim, g, e.now);
      AfterPruning(lim, Pruned(lim, g, e.now), e.hash, e.now);
    }
  }

  lemma AfterPruning(lim: Limits, p: Guard, hash: string, now: nat)
    requires Exact(p) && |p.entries| <= lim.maxEntries
    ensures hash !in p.entries ==> Exact(Table(p.entries[hash := Entry(now, ())], p.order + [hash]))
    ensures Exact(p.(entries := p.entries - {hash})) <==> hash !in p.entries
  {
    if hash in p.entries {
      assert hash in Keys(p.order) && hash !in (p.entries - {hash}).Keys;
    } else {
      InsertExact(lim, p, hash, Entry(now, ()));
      assert p.entries - {hash} == p.entries;
    }
  }

  ghost predicate AlwaysExact(guards: seq<Guard>) {
    forall i :: 0 <= i < |guards| ==> Exact(guards[i])
  }

  ghost predicate NeverReleasesLive(lim: Limits, guards: seq<Guard>, events: seq<Event>) {
    |guards| == |events| + 1 && forall i {:trigger events[i]} :: 0 <= i < |events| ==> !ReleasesLive(lim, guards[i], events[i])
  }

  lemma ExactStepAt(lim: Limits, guards: seq<Guard>, events: seq<Event>, i: nat)
    requires GuardRun(lim, guards, events) && i < |events|
    ensures Exact(guards[i]) ==> (Exact(guards[i + 1]) <==> !ReleasesLive(lim, guards[i], events[i]))
  {
    StepAt(lim, guards, events, i);
    StepKeepsExactly(lim, guards[i], events[i], guards[i + 1]);
  }

  lemma StaysExact(lim: Limits, guards: seq<Guard>, events: seq<Event>, n: nat)
    requires GuardRun(lim, guards, events) && Exact(guards[0]) && NeverReleasesLive(lim, guards, events) && n <= |events|
    ensures Exact(guards[n])
  {
    forall m | 0 <= m < n ensures Exact(guards[m]) ==> Exact(guards[m + 1]) {
      ExactStepAt(lim, guards, events, m);
      assert !ReleasesLive(lim, guards[m], events[m]);
    }
    Invariant((g, e, g') => Step(lim, g, e, g'), g => Exact(g), guards, events, 0, n);
  }

  /** In every run from the empty guard the order always lists exactly the live hashes if and
      only if no event releases a live one ... */
  lemma AlwaysExactExactly(lim: Limits, guards: seq<Guard>, events: seq<Event>)
    requires GuardRun(lim, guards, events) && guards[0] == Table(map[], [])
    ensures AlwaysExact(guards) <==> NeverReleasesLive(lim, guards, events)
  {
    assert guards[0].entries.Keys == Keys([]);
    if NeverReleasesLive(lim, guards, events) {
      forall i | 0 <= i < |guards| ensures Exact(guards[i]) {
        StaysExact(lim, guards, events, i);
      }
    }
    if AlwaysExact(guards) {
      forall i | 0 <= i < |events| ensures !ReleasesLive(lim, guards[i], events[i]) {
        assert Exact(guards[i]) && Exact(guards[i + 1]);
        ExactStepAt(lim, guards, events, i);
      }
    }
  }

  /** ... and then the order is bounded like the entries. */
  lemma ExactOrderIsBounded(lim: Limits, guards: seq<Guard>, events: seq<Event>, n: nat)
    requires GuardRun(lim, guards, events) && guards[0] == Table(map[], []) && NeverReleasesLive(lim, guards, events) && n <= |events|
    ensures |guards[n].order| == |guards[n].entries| <= lim.maxEntries + 1
  {
    assert guards[0].entries.Keys == Keys([]);
    StaysExact(lim, guards, events, n);
    GuardStaysGood(lim, guards, events, n);
    KeysCount(guards[n].order);
    assert |guards[n].entries.Keys| == |guards[n].entries|;
  }

  /** Which of the events release a live hash, and how many of the first n do. */
  ghost function LiveReleases(lim: Limits, guards: seq<Guard>, events: seq<Event>): (bs: seq<bool>)
    requires |guards| == |events| + 1
    ensures |bs| == |events|
  {
    seq(|events|, i requires 0 <= i < |events| => ReleasesLive(lim, guards[i], events[i]))
  }

  function Trues(bs: seq<bool>, n: nat): nat
    requires n <= |bs|
  {
    if n == 0 then 0 else Trues(bs, n - 1) + if bs[n - 1] then 1 else 0
  }

  lemma {:induction false} GrowsByTrues(a: seq<int>, bs: seq<bool>, n: nat)
    requires |a| == |bs| + 1 && n <= |bs|
    requires forall i {:trigger bs[i]} :: 0 <= i < |bs| ==> a[i + 1] <= a[i] + if bs[i] then 1 else 0
    ensures a[n] <= a[0] + Trues(bs, n)
    decreases n
  {
    if n > 0 {
      GrowsByTrues(a, bs, n - 1);
      assert a[n] <= a[n - 1] + if bs[n - 1] then 1 else 0;
    }
  }

  lemma StepListings(lim: Limits, g: Guard, e: Event, g': Guard)
    ensures Step(lim, g, e, g') ==>
              |g'.order| + |g.entries| <= |g.order| + |g'.entries| + if ReleasesLive(lim, g, e) then 1 else 0
  {
    var p := Pruned(lim, g, e.now);
    PrunedIsCut(lim, g, e.now);
    CutSize(g, PruneCut(lim, g, e.now));
    assert |p.order| + |g.entries| <= |g.order| + |p.entries|;
    OneMoreOrLess(p, e.hash, e.now);
  }

  lemma OneMoreOrLess(p: Guard, hash: string, now: nat)
    ensures hash !in p.entries ==> |p.entries[hash := Entry(now, ())]| == |p.entries| + 1 && p.entries - {hash} == p.entries
    ensures hash in p.entries ==> |p.entries - {hash}| == |p.entries| - 1
  {
    var more, fewer := p.entries[hash := Entry(now, ())], p.entries - {hash};
    assert more.Keys == p.entries.Keys + {hash} && fewer.Keys == p.entries.Keys - {hash};
    assert |more| == |more.Keys| && |fewer| == |fewer.Keys| && |p.entries| == |p.entries.Keys|;
  }

  lemma ListingsAt(lim: Limits, guards: seq<Guard>, events: seq<Event>, i: nat)
    requires GuardRun(lim, guards, events) && i < |events|
    ensures |guards[i + 1].order| + |guards[i].entries| <=
            |guards[i].order| + |guards[i + 1].entries| + if ReleasesLive(lim, guards[i], events[i]) then 1 else 0
  {
    StepAt(lim, guards, events, i);
    StepListings(lim, guards[i], events[i], guards[i + 1]);
  }

  ghost function StaleListings(guards: seq<Guard>): (ns: seq<int>)
    ensures |ns| == |guards|
  {
    seq(|guards|, i requires 0 <= i < |guards| => |guards[i].order| - |guards[i].entries|)
  }

  lemma StaleGrows(lim: Limits, guards: seq<Guard>, events: seq<Event>, i: nat)
    requires GuardRun(lim, guards, events) && i < |events|
    ensures StaleListings(guards)[i + 1] <= StaleListings(guards)[i] + if LiveReleases(lim, guards, events)[i] then 1 else 0
  {
    ListingsAt(lim, guards, events, i);
  }

  /** In every run the stale listings are no more than the live hashes released so far: only
      releases make the order grow beyond the entries. */
  lemma OrderBoundedByReleases(lim: Limits, guards: seq<Guard>, events: seq<Event>, n: nat)
    requires GuardRun(lim, guards, events) && guards[0] == Table(map[], []) && n <= |events|
    ensures |guards[n].order| <= |guards[n].entries| + Trues(LiveReleases(lim, guards, events), n)
  {
    var stale, bs := StaleListings(guards), LiveReleases(lim, guards, events);
    forall i | 0 <= i < |bs| ensures stale[i + 1] <= stale[i] + if bs[i] then 1 else 0 {
      StaleGrows(lim, guards, events, i);
    }
    GrowsByTrues(stale, bs, n);
    assert stale[0] == 0 && stale[n] == |guards[n].order| - |guards[n].entries|;
  }

  // ------------------------------------------------------------------- the class

  class BlockSubmitGuard {
    const table: PruningTable<()>

    constructor (lim: Limits)
      ensures table.lim == lim && table.Value() == Table(map[], []) && fresh(table)
    {
      table := new PruningTable(lim);
    }

    method TryMark(hash: string, now: nat) returns (ok: bool)
      modifies table
      ensures Step(table.lim, old(table.Value()), Mark(hash, now, ok), table.Value())
      ensures ok <==> hash !in old(table.entries) || Forgettable(table.lim, old(table.Value()), now, hash)
    {
      ForgottenExactly(table.lim, table.Value(), now, hash);
      table.Prune(now);
      if hash in table.entries {
        return false;
      }
      table.entries := table.entries[hash := Entry(now, ())];
      table.order := table.order + [hash];
      ok := true;
    }

    method Remove(hash: string, now: nat)
      modifies table
      ensures Step(table.lim, old(table.Value()), Event.Remove(hash, now), table.Value())
    {
      table.Prune(now);
      table.entries := table.entries - {hash};
    }

    /** `submit_block` with the node's reply given: the block is sent exactly when the mark
        succeeds, and stays marked exactly when the node then reports success. The share
        behind it is valid in that case, stale if the block was not sent, and bad otherwise;
        no failed call is ever taken for a duplicate. */
    method SubmitBlock(hash: string, now: nat, later: nat, reply: NodeReply) returns (r: BlockResult, sent: bool)
      modifies table
      ensures sent <==> hash !in old(table.entries) || Forgettable(table.lim, old(table.Value()), now, hash)
      ensures !sent ==> table.Value() == Pruned(table.lim, old(table.Value()), now)
      ensures sent ==>
                var marked := MarkOutcome(table.lim, old(table.Value()), hash, now).0;
                table.Value() == if reply.Success? then marked else Release(table.lim, marked, hash, later)
      ensures r == Ok(true) <==> sent && reply.Success?
      ensures BlockVerdict(r) == if !sent then StaleBlock else if reply.Success? then ValidShare else BadBlock
    {
      AlreadySubmittedIsStale();
      var ok := TryMark(hash, now);
      if !ok {
        return Err(ALREADY_SUBMITTED), false;
      }
      match reply {
        case CallFailed(cause) =>
          FailedCallNeverLooksDuplicate(cause);
          var text := Display(FailedCall(cause));
          if !LooksDuplicate(text) {
            Remove(hash, later);
          }
          return Err(text), true;
        case Reject(reason) =>
          RejectionIsBad(reason);
          Remove(hash, later);
          return Err(Rejection(reason)), true;
        case Success =>
          return Ok(true), true;
      }
    }
  }
}
