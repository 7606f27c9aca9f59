/** The ring of the last 300 jobs (bridge/src/mining_state.rs) and the walk back over it
    that forgives a wrong job id (the loop of `handle_submit`,
    bridge/src/share_handler.rs). */
module JobRing {
  import opened Bytes
  import opened Verdicts

  const MAX_JOBS: nat := 300

  // -------------------------------------------------------------------- the ring

  /** The largest id up to n that falls into the slot of id, 0 if there is none. Jobs are
      numbered from 1. */
  function NewestInSlot(n: nat, id: nat): (r: nat)
    ensures r <= n
  {
    if n == 0 then 0 else if n % MAX_JOBS == id % MAX_JOBS then n else NewestInSlot(n - 1, id)
  }

  lemma {:induction false} NewestInSlotIs(n: nat, id: nat)
    ensures NewestInSlot(n, id) > 0 ==> NewestInSlot(n, id) % MAX_JOBS == id % MAX_JOBS
    ensures forall j :: NewestInSlot(n, id) < j <= n ==> j % MAX_JOBS != id % MAX_JOBS
    decreases n
  {
    if n > 0 {
      NewestInSlotIs(n - 1, id);
    }
  }

  /** What the slot of id holds after the given jobs have been issued, the job with id i
      being issued[i - 1]. */
  function Newest<J>(issued: seq<J>, id: nat): Option<J> {
    var r := NewestInSlot(|issued|, id);
    if r == 0 then None else Some(issued[r - 1])
  }

  /** The ring answers with the exact job for the last 300 ids. */
  lemma RecentJobsAreExact<J>(issued: seq<J>, id: nat)
    requires 1 <= id <= |issued| < id + MAX_JOBS
    ensures Newest(issued, id) == Some(issued[id - 1])
  {
    var n, r := |issued|, NewestInSlot(|issued|, id);
    NewestInSlotIs(n, id);
    assert r >= id;
    SameSlotNearby(id, r);
  }

  lemma SameSlotNearby(a: nat, b: nat)
    requires a <= b < a + MAX_JOBS && a % MAX_JOBS == b % MAX_JOBS
    ensures a == b
  {
    assert a == MAX_JOBS * (a / MAX_JOBS) + a % MAX_JOBS;
    assert b == MAX_JOBS * (b / MAX_JOBS) + b % MAX_JOBS;
  }

  /** An older id gets another, newer job: the ring never checks the id. */
  lemma OverwrittenJobsAreReplaced<J>(issued: seq<J>, id: nat)
    requires 1 <= id && id + MAX_JOBS <= |issued|
    ensures var r := NewestInSlot(|issued|, id); id < r && Newest(issued, id) == Some(issued[r - 1])
  {
    NewestInSlotIs(|issued|, id);
    assert (id + MAX_JOBS) % MAX_JOBS == id % MAX_JOBS;
  }

  /** Issuing one more job changes the one slot it falls into. */
  lemma SlotAfterAdd<J>(issued: seq<J>, job: J, s: nat)
    requires s < MAX_JOBS
    ensures var id := |issued| + 1;
            && NewestInSlot(id, s) == (if s == id % MAX_JOBS then id else NewestInSlot(id - 1, s))
            && Newest(issued + [job], s) == (if s == id % MAX_JOBS then Some(job) else Newest(issued, s))
  {
    SlotMod(s);
  }

  class MiningState<J> {
    var jobs: map<nat, J>
    var jobIds: map<nat, nat>
    var jobCounter: nat
    ghost var issued: seq<J>

    ghost predicate Valid()
      reads this
    {
      && jobCounter == |issued|
      && (forall slot: nat :: slot in jobs <==> slot < MAX_JOBS && NewestInSlot(jobCounter, slot) > 0)
      && jobs.Keys == jobIds.Keys
      && (forall slot :: slot in jobs ==> Some(jobs[slot]) == Newest(issued, slot) && jobIds[slot] == NewestInSlot(jobCounter, slot))
    }

    constructor ()
      ensures Valid() && issued == []
    {
      jobs, jobIds, jobCounter, issued := map[], map[], 0, [];
    }

    method AddJob(job: J) returns (id: nat)
      requires Valid()
      modifies this
      ensures Valid() && issued == old(issued) + [job] && id == |issued|
    {
      jobCounter := jobCounter + 1;
      id := jobCounter;
      var slot := id % MAX_JOBS;
      jobs := jobs[slot := job];
      jobIds := jobIds[slot := id];
      forall s: nat | s < MAX_JOBS
        ensures NewestInSlot(id, s) == if s == slot then id else NewestInSlot(id - 1, s)
        ensures Newest(issued + [job], s) == if s == slot then Some(job) else Newest(issued, s)
      {
        SlotAfterAdd(issued, job, s);
      }
      issued := issued + [job];
    }

    /** What the ring answers for every id. */
    ghost function Answers(): nat -> Option<J>
      reads this
    {
      var jobs := issued;
      (id: nat) => Newest(jobs, id)
    }

    method GetJob(id: nat) returns (job: Option<J>)
      requires Valid()
      ensures job == Newest(issued, id) == Answers()(id)
    {
      var slot := id % MAX_JOBS;
      assert NewestInSlot(jobCounter, id) == NewestInSlot(jobCounter, slot) by { SlotOnly(jobCounter, id); }
      if slot in jobs {
        job := Some(jobs[slot]);
      } else {
        job := None;
      }
    }

    method GetJobIdAtSlot(slot: nat) returns (id: Option<nat>)
      requires Valid()
      ensures id == if NewestInSlot(|issued|, slot) == 0 then None else Some(NewestInSlot(|issued|, slot))
    {
      SlotOnly(jobCounter, slot);
      if slot % MAX_JOBS in jobIds {
        id := Some(jobIds[slot % MAX_JOBS]);
      } else {
        id := None;
      }
    }
  }

  lemma SlotMod(s: nat)
    requires s < MAX_JOBS
    ensures s % MAX_JOBS == s
  {
  }

  lemma {:induction false} SlotOnly(n: nat, id: nat)
    ensures NewestInSlot(n, id) == NewestInSlot(n, id % MAX_JOBS)
    decreases n
  {
    if n > 0 {
      SlotOnly(n - 1, id);
    }
  }

  // -------------------------------------------------------------- the walk back

  /** What the handler sees of the shared state during one round: the ring's answers and
      the pool target. Other handlers may change both between rounds. */
  datatype View<!J> = View(getJob: nat -> Option<J>, poolTarget: nat)

  /** The proof-of-work value of a job with the submitted nonce, and its network target. */
  datatype Work<!J> = Work(value: J -> nat, networkTarget: J -> nat)

  predicate MeetsNetwork<J>(w: Work<J>, job: J) {
    w.value(job) <= w.networkTarget(job)
  }

  /** The job decides the submission: it meets the network target, or beats the pool target. */
  predicate Beats<J>(w: Work<J>, view: View<J>, job: J) {
    MeetsNetwork(w, job) || w.value(job) < view.poolTarget
  }

  /** The loop's test for having gone all the way round. */
  predicate WentRound(id: nat, jobId: nat) {
    id == 1 || id % MAX_JOBS == (jobId % MAX_JOBS + 1) % MAX_JOBS
  }

  /** The test first holds at id 1 or after exactly 299 steps back. */
  lemma WentRoundExactly(jobId: nat, i: nat)
    requires i < MAX_JOBS && i < jobId
    ensures WentRound(jobId - i, jobId) <==> jobId - i == 1 || i == MAX_JOBS - 1
  {
    var q, r := jobId / MAX_JOBS, jobId % MAX_JOBS;
    assert jobId == MAX_JOBS * q + r;
    if i <= r {
      ModIs(jobId - i, q, r - i);
    } else {
      ModIs(jobId - i, q - 1, r + MAX_JOBS - i);
    }
  }

  lemma ModIs(n: nat, q: int, r: nat)
    requires n == MAX_JOBS * q + r && r < MAX_JOBS
    ensures n % MAX_JOBS == r
  {
  }

  /** The steps of one walk land in pairwise different slots. */
  lemma NoSlotTwice(jobId: nat, i: nat, j: nat)
    requires i < j < MAX_JOBS && j <= jobId
    ensures (jobId - i) % MAX_JOBS != (jobId - j) % MAX_JOBS
  {
    var a, d := jobId - j, j - i;
    var q, r := a / MAX_JOBS, a % MAX_JOBS;
    if r + d < MAX_JOBS {
      ModIs(a + d, q, r + d);
    } else {
      ModIs(a + d, q + 1, r + d - MAX_JOBS);
    }
  }

  /** The jobs visited: the submitted one, then the ring's answers for the ids before it. */
  ghost predicate IsWalk<J(!new)>(jobId: nat, first: J, world: nat -> View<J>, visited: seq<J>) {
    && 0 < |visited| <= MAX_JOBS && visited[0] == first
    && (forall i {:trigger visited[i]} :: 1 <= i < |visited| ==> i < jobId && world(i - 1).getJob(jobId - i) == Some(visited[i]))
  }

  /** None of the first n jobs visited decides. */
  ghost predicate Undecided<J(!new)>(w: Work<J>, world: nat -> View<J>, visited: seq<J>, n: nat)
    requires n <= |visited|
  {
    forall i {:trigger visited[i]} :: 0 <= i < n ==> !Beats(w, world(i), visited[i])
  }

  /** That is: with each of them the proof of work is above the network target and not below the
      pool target of its round. */
  lemma UndecidedMeans<J(!new)>(w: Work<J>, world: nat -> View<J>, visited: seq<J>, n: nat)
    requires n <= |visited|
    ensures Undecided(w, world, visited, n) <==>
            forall i {:trigger visited[i]} :: 0 <= i < n ==>
              w.value(visited[i]) > w.networkTarget(visited[i]) && w.value(visited[i]) >= world(i).poolTarget
  {
    forall i | 0 <= i < n
      ensures Beats(w, world(i), visited[i]) <==>
              !(w.value(visited[i]) > w.networkTarget(visited[i]) && w.value(visited[i]) >= world(i).poolTarget)
    {
    }
  }

  /** Why a walk may end without a decision: id 1 reached, all 300 slots seen, or no job
      in the next slot. */
  ghost predicate Exhausted<J(!new)>(jobId: nat, world: nat -> View<J>, visited: seq<J>)
    requires 0 < |visited| <= jobId
  {
    var last := |visited| - 1;
    jobId - last == 1 || last == MAX_JOBS - 1 || world(last).getJob(jobId - last - 1) == None
  }

  datatype Next<+J> = Block | Stop | Trap | Previous(job: J)

  /** One round: evaluate the job, and decide, stop, or step back. `invalid` is the flag the
      verdict is read from when the loop stops. */
  method Round<J(!new)>(jobId: nat, currentId: nat, job: J, view: View<J>, w: Work<J>, invalid: bool) returns (next: Next<J>, invalid': bool)
    requires currentId <= jobId < currentId + MAX_JOBS && (currentId == 0 ==> jobId == 0)
    requires invalid <==> currentId != jobId
    ensures MeetsNetwork(w, job) <==> next == Block
    ensures next == Stop ==> (invalid' <==> !Beats(w, view, job))
    ensures Beats(w, view, job) ==> next == Block || next == Stop
    ensures !Beats(w, view, job) ==> invalid'
    ensures !Beats(w, view, job) && currentId > 0 ==>
              (next == Stop <==> currentId == 1 || jobId - currentId == MAX_JOBS - 1 || view.getJob(currentId - 1) == None)
    ensures next.Previous? ==> currentId > 1 && view.getJob(currentId - 1) == Some(next.job)
    ensures next == Trap <==> !Beats(w, view, job) && jobId == 0
  {
    if currentId > 0 { WentRoundExactly(jobId, jobId - currentId); }
    invalid' := invalid;
    if w.value(job) <= w.networkTarget(job) {
      return Block, invalid';
    }
    if w.value(job) >= view.poolTarget {
      if currentId == jobId {
        invalid' := true;
      }
      if currentId == 1 || currentId % MAX_JOBS == (jobId % MAX_JOBS + 1) % MAX_JOBS {
        return Stop, invalid';
      }
      if currentId == 0 {
        return Trap, invalid';
      }
      var prev := view.getJob(currentId - 1);
      match prev {
        case Some(prevJob) => return Previous(prevJob), invalid';
        case None => return Stop, invalid';
      }
    }
    return Stop, false;
  }

  /** The loop of `handle_submit`. Whatever happens to the ring and to the pool target
      during the walk: at most 300 evaluations, no id below 1, at most one block sent; the
      first job that decides does; and the walk ends low-difficulty, a node rejection
      aside, exactly when no visited job decides. Only the submitted id 0, which no job
      has, traps. */
  method WalkBack<J(!new)>(jobId: nat, first: J, world: nat -> View<J>, w: Work<J>, reply: BlockResult)
    returns (verdict: Verdict, visited: seq<J>, sent: nat)
    ensures IsWalk(jobId, first, world, visited)
    ensures Undecided(w, world, visited, |visited| - 1)
    ensures sent <= 1
    ensures sent == 1 <==> w.value(visited[|visited| - 1]) <= w.networkTarget(visited[|visited| - 1])
    ensures sent == 1 ==> verdict == BlockVerdict(reply)
    ensures sent == 0 ==> (verdict == ValidShare <==> !Undecided(w, world, visited, |visited|))
    ensures sent == 0 ==> (verdict == LowDifficulty <==> Undecided(w, world, visited, |visited|) && jobId > 0)
    ensures verdict == LowDifficulty && sent == 0 ==> |visited| <= jobId && Exhausted(jobId, world, visited)
    ensures verdict == Underflow <==> jobId == 0 && !Beats(w, world(0), first)
  {
    var currentId, job, i := jobId, first, 0;
    var invalid := false;
    visited := [first];
    while true
      invariant i < MAX_JOBS && i + 1 == |visited| && visited[i] == job
      invariant i <= jobId && currentId == jobId - i && (i > 0 ==> currentId > 0)
      invariant invalid <==> i > 0
      invariant IsWalk(jobId, first, world, visited)
      invariant Undecided(w, world, visited, |visited| - 1)
      decreases MAX_JOBS - i
    {
      DecidedByLast(w, world, visited);
      var next;
      next, invalid := Round(jobId, currentId, job, world(i), w, invalid);
      match next {
        case Block =>
          return BlockVerdict(reply), visited, 1;
        case Trap =>
          return Underflow, visited, 0;
        case Stop =>
          return if invalid then LowDifficulty else ValidShare, visited, 0;
        case Previous(prevJob) =>
          ExtendWalk(w, jobId, first, world, visited, prevJob, i);
          currentId, job, i := currentId - 1, prevJob, i + 1;
          visited := visited + [job];
      }
    }
  }

  lemma DecidedByLast<J(!new)>(w: Work<J>, world: nat -> View<J>, visited: seq<J>)
    requires visited != []
    ensures var last := |visited| - 1;
            Undecided(w, world, visited, last) ==> (Undecided(w, world, visited, |visited|) <==> !Beats(w, world(last), visited[last]))
  {
  }

  lemma ExtendWalk<J(!new)>(w: Work<J>, jobId: nat, first: J, world: nat -> View<J>, visited: seq<J>, job: J, i: nat)
    requires |visited| == i + 1 < MAX_JOBS && i + 1 < jobId
    requires world(i).getJob(jobId - i - 1) == Some(job)
    ensures IsWalk(jobId, first, world, visited) ==> IsWalk(jobId, first, world, visited + [job])
    ensures Undecided(w, world, visited, |visited|) ==> Undecided(w, world, visited + [job], |visited|)
  {
    var longer := visited + [job];
    if IsWalk(jobId, first, world, visited) {
      forall j | 1 <= j < |longer| ensures j < jobId && world(j - 1).getJob(jobId - j) == Some(longer[j]) {
        if j < |visited| {
          assert world(j - 1).getJob(jobId - j) == Some(visited[j]);
        }
      }
    }
  }

  /** The views are those of a ring that has issued `issued(i)` by round i. */
  ghost predicate OfRing<J(!new)>(world: nat -> View<J>, issued: nat -> seq<J>) {
    forall i: nat, id: nat :: world(i).getJob(id) == Newest(issued(i), id)
  }

  /** Over a ring that had issued `start` when the submitted job was looked up and `issued(i)`
      by round i, while others keep adding jobs: each job visited, the first included, is the
      newest issued one in its slot, and the very job of its id if that is among the last 300. */
  lemma WalkVisitsNewest<J(!new)>(jobId: nat, first: J, world: nat -> View<J>, start: seq<J>, issued: nat -> seq<J>, visited: seq<J>, i: nat)
    requires IsWalk(jobId, first, world, visited) && i < |visited| && i <= jobId
    requires Newest(start, jobId) == Some(first) && OfRing(world, issued)
    ensures var jobs := if i == 0 then start else issued(i - 1);
            var r := NewestInSlot(|jobs|, jobId - i);
            && r > 0 && visited[i] == jobs[r - 1]
            && (1 <= jobId - i <= |jobs| < jobId - i + MAX_JOBS ==> visited[i] == jobs[jobId - i - 1])
  {
    var jobs, id := if i == 0 then start else issued(i - 1), jobId - i;
    assert i > 0 ==> world(i - 1).getJob(id) == Some(visited[i]);
    if 1 <= id <= |jobs| < id + MAX_JOBS {
      RecentJobsAreExact(jobs, id);
    }
  }
}
