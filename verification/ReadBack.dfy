/** What the calls of a record store answer, said in the bytes that the database holds and in
    the calls made before (database/src/access.rs). */
module ReadBack {
  import opened Bytes
  import opened Db
  import opened Cache
  import opened WriteBehind
  import opened Store

  // -------------------------------------------------------------- one call, in bytes

  /** Neither cached nor stored. */
  ghost predicate Missing<V(!new)>(cfg: Config<V>, s: State<V>, k: Bytes) {
    k !in s.cache && cfg.prefix + k !in s.db
  }

  /** Not cached, and stored as bytes that do not decode. */
  ghost predicate Undecodable<V(!new)>(cfg: Config<V>, s: State<V>, k: Bytes) {
    k !in s.cache && cfg.prefix + k in s.db && cfg.dec(s.db[cfg.prefix + k]) == None
  }

  /** Cached as v, or not cached and stored as bytes that decode to v. */
  ghost predicate Readable<V(!new)>(cfg: Config<V>, s: State<V>, k: Bytes, v: V) {
    if k in s.cache then s.cache[k] == v
    else cfg.prefix + k in s.db && cfg.dec(s.db[cfg.prefix + k]) == Some(v)
  }

  lemma GetIs<V(!new)>(cfg: Config<V>, s: State<V>, k: Bytes)
    ensures k !in s.cache ==> (Get(cfg, Committed(cfg, s), k) == Absent <==> Missing(cfg, s, k))
    ensures k !in s.cache ==> (Get(cfg, Committed(cfg, s), k) == Corrupt <==> Undecodable(cfg, s, k))
    ensures k !in s.cache ==> forall v :: Get(cfg, Committed(cfg, s), k) == Value(v) <==> Readable(cfg, s, k, v)
  {
    TableLookup(cfg, s.db, k);
  }

  /** A read says that a key is absent exactly when it is neither cached nor stored, fails to
      decode exactly when the stored bytes are read and do not decode, and otherwise gives the
      cached or decoded record. */
  lemma ReadAnswersBytes<V(!new)>(cfg: Config<V>, s: State<V>, k: Bytes, r: Found<V>, s': State<V>)
    requires Step(cfg, s, Read(k), One(r), s')
    ensures r == Absent <==> Missing(cfg, s, k)
    ensures r == Corrupt <==> Undecodable(cfg, s, k)
    ensures forall v :: r == Value(v) <==> Readable(cfg, s, k, v)
  {
    GetIs(cfg, s, k);
    var view := View(cfg, Committed(cfg, s));
    assert view(k) == Get(cfg, Committed(cfg, s), k);
  }

  /** What a multi-read's slot says of its key. */
  ghost predicate SlotOf<V(!new)>(cfg: Config<V>, s: State<V>, k: Bytes, slot: Option<V>) {
    match slot
    case None => Missing(cfg, s, k)
    case Some(v) => Readable(cfg, s, k, v)
  }

  /** The positions of ks whose key is cached. */
  function HitsIn<V>(c: map<Bytes, V>, ks: seq<Bytes>): set<nat> {
    set i: nat | i < |ks| && ks[i] in c
  }

  lemma {:induction false} MissesCounted<V>(c: map<Bytes, V>, ks: seq<Bytes>)
    ensures |MissKeys(c, ks)| + |HitsIn(c, ks)| == |ks|
  {
    if ks == [] {
      assert HitsIn(c, ks) == {};
    } else {
      var n := |ks| - 1;
      MissesCounted(c, ks[..n]);
      assert HitsIn(c, ks) == if ks[n] in c then HitsIn(c, ks[..n]) + {n} else HitsIn(c, ks[..n]);
    }
  }

  /** A multi-read fails exactly when some key asked for is undecodable. Otherwise every slot
      holds its key's record, or nothing if there is none, and a key counts as a hit exactly when
      it is cached. */
  lemma ReadManyAnswersBytes<V(!new)>(cfg: Config<V>, s: State<V>, ks: seq<Bytes>, r: Result<V>, s': State<V>)
    requires Step(cfg, s, ReadMany(ks), r, s')
    ensures r == DecodeFailed <==> exists k :: k in ks && Undecodable(cfg, s, k)
    ensures r != DecodeFailed ==>
              && r.Slots? && |r.slots| == |ks| && (forall i :: 0 <= i < |ks| ==> SlotOf(cfg, s, ks[i], r.slots[i]))
              && r.hits == |HitsIn(s.cache, ks)| && r.hits + r.misses == |ks|
  {
    FailsExactly(cfg, s, ks);
    MissesCounted(s.cache, ks);
    if !Fetched(cfg, Committed(cfg, s), MissKeys(s.cache, ks)).failed {
      forall i | 0 <= i < |ks| ensures SlotOf(cfg, s, ks[i], r.slots[i]) {
        SlotIs(cfg, s, ks, i);
      }
    }
  }

  lemma FailsExactly<V(!new)>(cfg: Config<V>, s: State<V>, ks: seq<Bytes>)
    ensures Fetched(cfg, Committed(cfg, s), MissKeys(s.cache, ks)).failed <==> exists k :: k in ks && Undecodable(cfg, s, k)
  {
    MissKeysAre(s.cache, ks);
    FetchedAre(cfg, Committed(cfg, s), MissKeys(s.cache, ks));
    forall k ensures k in MissKeys(s.cache, ks) && Get(cfg, Committed(cfg, s), k) == Corrupt <==> k in ks && Undecodable(cfg, s, k) {
      GetIs(cfg, s, k);
    }
  }

  lemma SlotIs<V(!new)>(cfg: Config<V>, s: State<V>, ks: seq<Bytes>, i: nat)
    requires i < |ks| && !Fetched(cfg, Committed(cfg, s), MissKeys(s.cache, ks)).failed
    ensures SlotOf(cfg, s, ks[i], MixedSlots(cfg, s.cache, Committed(cfg, s), ks)[i])
  {
    FailsExactly(cfg, s, ks);
    assert ks[i] in ks;
    GetIs(cfg, s, ks[i]);
  }

  /** A key is present exactly when it is cached or stored. */
  lemma HasAnswersBytes<V(!new)>(cfg: Config<V>, s: State<V>, k: Bytes, there: bool, s': State<V>)
    requires Step(cfg, s, Has(k), Present(there), s')
    ensures !there <==> Missing(cfg, s, k)
  {
    TableLookup(cfg, s.db, k);
  }

  // ---------------------------------------------------------- a run, in earlier calls

  /** What a call does to key k. */
  datatype Mark<+V> = Untouched | Removed | Put(value: V)

  /** The last of a series of writes to k decides. */
  function LastPut<V>(items: seq<(Bytes, V)>, k: Bytes): (m: Mark<V>)
    ensures m == Untouched <==> forall i :: 0 <= i < |items| ==> items[i].0 != k
    ensures m != Removed
    ensures m.Put? ==> exists i :: 0 <= i < |items| && items[i] == (k, m.value) && LastOfKey(items, i)
  {
    if items == [] then Untouched
    else
      var n := |items| - 1;
      if items[n].0 == k then
        assert LastOfKey(items, n) && items[n] == (k, items[n].1);
        Put(items[n].1)
      else
        var m := LastPut(items[..n], k);
        assert m.Put? ==> exists i :: 0 <= i < |items| && items[i] == (k, m.value) && LastOfKey(items, i) by {
          if m.Put? {
            var i :| 0 <= i < n && items[..n][i] == (k, m.value) && LastOfKey(items[..n], i);
            LastAmongMore(items, i);
          }
        }
        m
  }

  lemma LastAmongMore<V>(items: seq<(Bytes, V)>, i: nat)
    requires i < |items| - 1 && LastOfKey(items[..|items| - 1], i) && items[|items| - 1].0 != items[i].0
    ensures LastOfKey(items, i)
  {
    forall j | i < j < |items| ensures items[j].0 != items[i].0 {
      assert j < |items| - 1 ==> items[j] == items[..|items| - 1][j];
    }
  }

  function MarkOf<V>(m: Mutation<V>, k: Bytes): Mark<V> {
    match m
    case Write(j, v) => if j == k then Put(v) else Untouched
    case WriteMany(items) => LastPut(items, k)
    case WriteManyWithoutCache(items) => LastPut(items, k)
    case Delete(j) => if j == k then Removed else Untouched
    case DeleteMany(ks) => if k in ks then Removed else Untouched
    case DeleteAll => Removed
  }

  function CallMark<V>(op: Op<V>, k: Bytes): Mark<V> {
    match op
    case Direct(m) => MarkOf(m, k)
    case Stage(m) => MarkOf(m, k)
    case _ => Untouched
  }

  /** table' holds under k what a call with this mark leaves there. */
  ghost predicate Marked<V(!new)>(cfg: Config<V>, table: map<Bytes, Bytes>, mark: Mark<V>, k: Bytes, table': map<Bytes, Bytes>) {
    match mark
    case Untouched => SameAt(table', table, k)
    case Removed => k !in table'
    case Put(v) => k in table' && table'[k] == cfg.enc(v)
  }

  lemma {:induction false} PutAllMarked<V(!new)>(cfg: Config<V>, table: map<Bytes, Bytes>, items: seq<(Bytes, V)>, k: Bytes)
    ensures Marked(cfg, table, LastPut(items, k), k, PutAll(table, Encoded(cfg, items)))
  {
    if items == [] {
      assert Encoded(cfg, items) == [];
    } else {
      var n := |items| - 1;
      assert Encoded(cfg, items)[..n] == Encoded(cfg, items[..n]);
      PutAllMarked(cfg, table, items[..n], k);
    }
  }

  lemma CallMarked<V(!new)>(cfg: Config<V>, table: map<Bytes, Bytes>, op: Op<V>, k: Bytes)
    ensures Marked(cfg, table, CallMark(op, k), k, RefStep(cfg, table, op))
  {
    if op.Direct? || op.Stage? {
      match op.m
      case WriteMany(items) => PutAllMarked(cfg, table, items, k);
      case WriteManyWithoutCache(items) => PutAllMarked(cfg, table, items, k);
      case _ =>
    }
  }

  /** The call at place j < n was the last before place n that touched k. */
  ghost predicate LastCall<V(!new)>(ops: seq<Op<V>>, n: nat, j: nat, k: Bytes) {
    j < n <= |ops| && CallMark(ops[j], k) != Untouched && forall i :: j < i < n ==> CallMark(ops[i], k) == Untouched
  }

  ghost predicate NoCall<V(!new)>(ops: seq<Op<V>>, n: nat, k: Bytes) {
    n <= |ops| && forall i :: 0 <= i < n ==> CallMark(ops[i], k) == Untouched
  }

  lemma MarkedThenSame<V(!new)>(cfg: Config<V>, table: map<Bytes, Bytes>, mark: Mark<V>, k: Bytes, a: map<Bytes, Bytes>, b: map<Bytes, Bytes>)
    ensures Marked(cfg, table, mark, k, a) && SameAt(b, a, k) ==> Marked(cfg, table, mark, k, b)
  {
  }

  lemma LastStepMarked<V(!new)>(cfg: Config<V>, table: map<Bytes, Bytes>, ops: seq<Op<V>>, n: nat, k: Bytes)
    requires 0 < n <= |ops|
    ensures Marked(cfg, RefRun(cfg, table, ops[..n - 1]), CallMark(ops[n - 1], k), k, RefRun(cfg, table, ops[..n]))
  {
    TakeMore(ops, n - 1);
    CallMarked(cfg, RefRun(cfg, table, ops[..n - 1]), ops[n - 1], k);
  }

  lemma {:induction false} RunUnmarked<V(!new)>(cfg: Config<V>, table: map<Bytes, Bytes>, ops: seq<Op<V>>, n: nat, k: Bytes)
    requires NoCall(ops, n, k)
    ensures SameAt(RefRun(cfg, table, ops[..n]), table, k)
    decreases n
  {
    if n > 0 {
      RunUnmarked(cfg, table, ops, n - 1, k);
      LastStepMarked(cfg, table, ops, n, k);
    }
  }

  lemma {:induction false} RunMarked<V(!new)>(cfg: Config<V>, table: map<Bytes, Bytes>, ops: seq<Op<V>>, n: nat, j: nat, k: Bytes)
    requires LastCall(ops, n, j, k)
    ensures Marked(cfg, table, CallMark(ops[j], k), k, RefRun(cfg, table, ops[..n]))
    decreases n
  {
    LastStepMarked(cfg, table, ops, n, k);
    if j < n - 1 {
      RunMarked(cfg, table, ops, n - 1, j, k);
      MarkedThenSame(cfg, table, CallMark(ops[j], k), k, RefRun(cfg, table, ops[..n - 1]), RefRun(cfg, table, ops[..n]));
    }
  }

  /** The answer about k that a call with this mark calls for. */
  ghost predicate Tells<V(!new)>(mark: Mark<V>, k: Bytes, op: Op<V>, r: Result<V>)
    requires mark != Untouched
  {
    match op
    case Read(j) => j == k ==> r == One(if mark.Put? then Value(mark.value) else Absent)
    case Has(j) => j == k ==> r == Present(mark.Put?)
    case ReadMany(ks) =>
      r.Slots? ==> |r.slots| == |ks| && forall i :: 0 <= i < |ks| && ks[i] == k ==> r.slots[i] == if mark.Put? then Some(mark.value) else None
    case _ => true
  }

  lemma MatchTells<V(!new)>(cfg: Config<V>, table: map<Bytes, Bytes>, mark: Mark<V>, k: Bytes, table': map<Bytes, Bytes>, op: Op<V>, r: Result<V>)
    requires cfg.Valid() && mark != Untouched && Marked(cfg, table, mark, k, table') && Matches(cfg, table', op, r)
    ensures Tells(mark, k, op, r)
  {
    assert Get(cfg, table', k) == if mark.Put? then Value(mark.value) else Absent;
  }

  /** Reading back: in every admissible run, whatever is cached, evicted or staged, a call that
      asks fresh tells of a key what the last call that touched it left: the value it wrote, or
      nothing if it deleted it. */
  lemma LastCallDecides<V(!new)>(cfg: Config<V>, states: seq<State<V>>, ops: seq<Op<V>>, results: seq<Result<V>>, n: nat, j: nat, k: Bytes)
    requires cfg.Valid() && Run(cfg, states, ops, results) && Good(cfg, states[0])
    requires forall i {:trigger Admissible(cfg, states[i], ops[i])} :: 0 <= i < |ops| ==> Admissible(cfg, states[i], ops[i])
    requires n < |ops| && LastCall(ops, n, j, k) && AsksFresh(cfg, states[n], ops[n])
    ensures Tells(CallMark(ops[j], k), k, ops[n], results[n])
  {
    var start := Pending(cfg, states[0]);
    WriteBehindCoherence(cfg, states, ops, results, n);
    RunMarked(cfg, start, ops, n, j, k);
    MatchTells(cfg, start, CallMark(ops[j], k), k, RefRun(cfg, start, ops[..n]), ops[n], results[n]);
  }

  /** Through a direct writer every call reads back the last call, ... */
  lemma DirectReadsBack<V(!new)>(cfg: Config<V>, states: seq<State<V>>, ops: seq<Op<V>>, results: seq<Result<V>>, n: nat, j: nat, k: Bytes)
    requires cfg.Valid() && Run(cfg, states, ops, results) && Good(cfg, states[0])
    requires states[0].pending == [] && forall i :: 0 <= i < |ops| ==> !ops[i].Stage?
    requires n < |ops| && LastCall(ops, n, j, k)
    ensures Tells(CallMark(ops[j], k), k, ops[n], results[n])
  {
    var start := Committed(cfg, states[0]);
    assert states[0].Overlay() == states[0].db;
    DirectStoreRefinesMap(cfg, states, ops, results, n);
    RunMarked(cfg, start, ops, n, j, k);
    MatchTells(cfg, start, CallMark(ops[j], k), k, RefRun(cfg, start, ops[..n]), ops[n], results[n]);
  }

  /** ... and of a key that no call touched, what the bytes at the start say: absent if there
      were none, a failure to decode if they do not decode, and their record otherwise. */
  lemma DirectReadsStart<V(!new)>(cfg: Config<V>, states: seq<State<V>>, ops: seq<Op<V>>, results: seq<Result<V>>, n: nat, k: Bytes)
    requires cfg.Valid() && Run(cfg, states, ops, results) && Good(cfg, states[0])
    requires states[0].pending == [] && forall i :: 0 <= i < |ops| ==> !ops[i].Stage?
    requires n < |ops| && NoCall(ops, n, k) && ops[n] == Read(k)
    ensures results[n] == One(Absent) <==> cfg.prefix + k !in states[0].db
    ensures results[n] == One(Corrupt) <==> cfg.prefix + k in states[0].db && cfg.dec(states[0].db[cfg.prefix + k]) == None
    ensures forall v :: results[n] == One(Value(v)) <==> cfg.prefix + k in states[0].db && cfg.dec(states[0].db[cfg.prefix + k]) == Some(v)
  {
    assert states[0].Overlay() == states[0].db;
    DirectStoreRefinesMap(cfg, states, ops, results, n);
    RunUnmarked(cfg, Committed(cfg, states[0]), ops, n, k);
    TableLookup(cfg, states[0].db, k);
  }
}
