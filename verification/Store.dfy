/** `CachedDbAccess`: a typed, cached key-value store over a prefix of the byte
    database (database/src/access.rs), for direct and for batched writers. */
module Store {
  import opened Bytes
  import opened Db
  import opened Cache
  import opened WriteBehind
  import Runs

  /** What a store is made with. `enc`/`dec` are its record codec; `dec` may fail and
      may also accept bytes written under older layouts. */
  datatype Config<!V(!new)> = Config(prefix: Bytes, enc: V -> Bytes, dec: Bytes -> Option<V>, policy: Policy, size: V -> nat) {
    /** The codec is lossless and the prefix does not consist of 0xFF bytes alone. */
    ghost predicate Valid() {
      && PrefixEnd(prefix).Some?
      && forall v :: dec(enc(v)) == Some(v)
    }
  }

  datatype Mutation<+V> =
    | Write(key: Bytes, value: V)
    | WriteMany(items: seq<(Bytes, V)>)
    | WriteManyWithoutCache(items: seq<(Bytes, V)>)
    | Delete(key: Bytes)
    | DeleteMany(keys: seq<Bytes>)
    | DeleteAll

  // ------------------------------------------------- the plain map reference

  /** The part of the database the store owns, keyed without the prefix. */
  function Table<V(!new)>(cfg: Config<V>, db: DbMap): map<Bytes, Bytes> {
    map k | k in Suffixes(cfg.prefix, db) :: db[cfg.prefix + k]
  }

  lemma TableLookup<V(!new)>(cfg: Config<V>, db: DbMap, k: Bytes)
    ensures k in Table(cfg, db) <==> cfg.prefix + k in db
    ensures k in Table(cfg, db) ==> Table(cfg, db)[k] == db[cfg.prefix + k]
  {
  }

  function Get<V(!new)>(cfg: Config<V>, table: map<Bytes, Bytes>, k: Bytes): Found<V> {
    if k !in table then Absent
    else match cfg.dec(table[k])
         case Some(v) => Value(v)
         case None => Corrupt
  }

  function View<V(!new)>(cfg: Config<V>, table: map<Bytes, Bytes>): Bytes -> Found<V> {
    k => Get(cfg, table, k)
  }

  /** Every cached record is the one the table holds for its key. */
  ghost predicate InStep<V(!new)>(cfg: Config<V>, c: map<Bytes, V>, table: map<Bytes, Bytes>) {
    forall k :: k in c ==> Get(cfg, table, k) == Value(c[k])
  }

  lemma InStepIsCoherent<V(!new)>(cfg: Config<V>, c: map<Bytes, V>, table: map<Bytes, Bytes>)
    ensures InStep(cfg, c, table) <==> Coherent(c, View(cfg, table))
  {
    var view := View(cfg, table);
    assert forall k :: view(k) == Get(cfg, table, k);
  }

  function Encoded<V(!new)>(cfg: Config<V>, items: seq<(Bytes, V)>): seq<(Bytes, Bytes)> {
    seq(|items|, i requires 0 <= i < |items| => (items[i].0, cfg.enc(items[i].1)))
  }

  /** What a mutation means to a plain map. */
  function RefApply<V(!new)>(cfg: Config<V>, table: map<Bytes, Bytes>, m: Mutation<V>): map<Bytes, Bytes> {
    match m
    case Write(k, v) => table[k := cfg.enc(v)]
    case WriteMany(items) => PutAll(table, Encoded(cfg, items))
    case WriteManyWithoutCache(items) => PutAll(table, Encoded(cfg, items))
    case Delete(k) => table - {k}
    case DeleteMany(ks) => table - Elems(ks)
    case DeleteAll => map[]
  }

  function Slot<V(!new)>(cfg: Config<V>, table: map<Bytes, Bytes>, k: Bytes): Option<V> {
    match Get(cfg, table, k)
    case Value(v) => Some(v)
    case _ => None
  }

  function RefSlots<V(!new)>(cfg: Config<V>, table: map<Bytes, Bytes>, ks: seq<Bytes>): seq<Option<V>> {
    seq(|ks|, i requires 0 <= i < |ks| => Slot(cfg, table, ks[i]))
  }

  // ------------------------------------------------------ what the store does

  /** The database operations a mutation issues. */
  function Emitted<V(!new)>(cfg: Config<V>, m: Mutation<V>): seq<WriteOp> {
    match m
    case Write(k, v) => [PutKey(cfg.prefix + k, cfg.enc(v))]
    case WriteMany(items) => Puts(cfg, items)
    case WriteManyWithoutCache(items) => Puts(cfg, items)
    case Delete(k) => [DeleteKey(cfg.prefix + k)]
    case DeleteMany(ks) => Deletes(cfg, ks)
    case DeleteAll =>
      match PrefixEnd(cfg.prefix)
      case Some(end) => [DeleteRange(cfg.prefix, end)]
      case None => []
  }

  function Puts<V(!new)>(cfg: Config<V>, items: seq<(Bytes, V)>): seq<WriteOp> {
    seq(|items|, i requires 0 <= i < |items| => PutKey(cfg.prefix + items[i].0, cfg.enc(items[i].1)))
  }

  function Deletes<V(!new)>(cfg: Config<V>, ks: seq<Bytes>): seq<WriteOp> {
    seq(|ks|, i requires 0 <= i < |ks| => DeleteKey(cfg.prefix + ks[i]))
  }

  /** What a mutation does to the cache. */
  ghost predicate CacheEffect<V(!new)>(cfg: Config<V>, c: map<Bytes, V>, m: Mutation<V>, c': map<Bytes, V>) {
    match m
    case Write(k, v) => Inserts(cfg.policy, cfg.size, c, k, v, c')
    case WriteMany(items) => InsertsAll(cfg.policy, cfg.size, c, items, c')
    case WriteManyWithoutCache(items) => c' == map[]
    case Delete(k) => c' == c - {k}
    case DeleteMany(ks) => c' == c - Elems(ks)
    case DeleteAll => c' == map[]
  }

  function MissKeys<V>(c: map<Bytes, V>, ks: seq<Bytes>): seq<Bytes> {
    if ks == [] then []
    else
      var front, last := MissKeys(c, ks[..|ks| - 1]), ks[|ks| - 1];
      if last in c then front else front + [last]
  }

  datatype Fetch<+V> = Fetch(items: seq<(Bytes, V)>, failed: bool)

  /** The records a multi-get of ks brings in, up to the first one that does not decode. */
  function Fetched<V(!new)>(cfg: Config<V>, table: map<Bytes, Bytes>, ks: seq<Bytes>): Fetch<V> {
    if ks == [] then Fetch([], false)
    else
      var front, last := Fetched(cfg, table, ks[..|ks| - 1]), ks[|ks| - 1];
      if front.failed then front
      else match Get(cfg, table, last)
           case Value(v) => Fetch(front.items + [(last, v)], false)
           case Absent => front
           case Corrupt => Fetch(front.items, true)
  }

  datatype Result<+V> =
    | One(found: Found<V>)
    | Slots(slots: seq<Option<V>>, hits: nat, misses: nat)
    | DecodeFailed
    | Present(there: bool)
    | Done

  function MixedSlots<V(!new)>(cfg: Config<V>, c: map<Bytes, V>, table: map<Bytes, Bytes>, ks: seq<Bytes>): seq<Option<V>> {
    seq(|ks|, i requires 0 <= i < |ks| => if ks[i] in c then Some(c[ks[i]]) else Slot(cfg, table, ks[i]))
  }

  ghost predicate ReadManyStep<V(!new)>(cfg: Config<V>, c: map<Bytes, V>, table: map<Bytes, Bytes>, ks: seq<Bytes>,
                                        r: Result<V>, c': map<Bytes, V>)
  {
    var misses := MissKeys(c, ks);
    var fetch := Fetched(cfg, table, misses);
    && InsertsAll(cfg.policy, cfg.size, c, fetch.items, c')
    && (if fetch.failed then r == DecodeFailed
        else |misses| <= |ks| && r == Slots(MixedSlots(cfg, c, table, ks), |ks| - |misses|, |misses|))
  }

  // --------------------------------------------------------------- state machine

  datatype State<+V> = State(cache: map<Bytes, V>, db: DbMap, pending: seq<WriteOp>) {
    /** The database as it will be once everything pending is committed. */
    function Overlay(): DbMap {
      ApplyAll(db, pending)
    }
  }

  /** The store's records as committed, and as they will be. */
  function Committed<V(!new)>(cfg: Config<V>, s: State<V>): map<Bytes, Bytes> {
    Table(cfg, s.db)
  }

  function Pending<V(!new)>(cfg: Config<V>, s: State<V>): map<Bytes, Bytes> {
    Table(cfg, s.Overlay())
  }

  ghost predicate FreshKey<V(!new)>(cfg: Config<V>, s: State<V>, k: Bytes) {
    k in s.cache || Get(cfg, Committed(cfg, s), k) == Get(cfg, Pending(cfg, s), k)
  }

  ghost predicate AllFresh<V(!new)>(cfg: Config<V>, s: State<V>, ks: seq<Bytes>) {
    forall k :: k in ks ==> FreshKey(cfg, s, k)
  }

  ghost predicate AnyCorrupt<V(!new)>(cfg: Config<V>, table: map<Bytes, Bytes>, ks: seq<Bytes>) {
    exists k :: k in ks && Get(cfg, table, k) == Corrupt
  }

  datatype Op<+V> =
    | Read(key: Bytes)
    | ReadMany(keys: seq<Bytes>)
    | Has(key: Bytes)
    | Direct(m: Mutation<V>)
    | Stage(m: Mutation<V>)
    | Commit(n: nat)

  /** One call on the store, or the commit of the oldest n staged operations. */
  ghost predicate Step<V(!new)>(cfg: Config<V>, s: State<V>, op: Op<V>, r: Result<V>, s': State<V>) {
    match op
    case Read(k) =>
      && r.One? && s' == s.(cache := s'.cache)
      && ReadStep(cfg.policy, cfg.size, s.cache, View(cfg, Committed(cfg, s)), k, r.found, s'.cache)
    case ReadMany(ks) =>
      && s' == s.(cache := s'.cache)
      && ReadManyStep(cfg, s.cache, Committed(cfg, s), ks, r, s'.cache)
    case Has(k) =>
      && s' == s
      && r == Present(k in s.cache || k in Committed(cfg, s))
    case Direct(m) =>
      && r == Done
      && CacheEffect(cfg, s.cache, m, s'.cache)
      && s'.db == ApplyAll(s.db, Emitted(cfg, m)) && s'.pending == s.pending
    case Stage(m) =>
      && r == Done
      && CacheEffect(cfg, s.cache, m, s'.cache)
      && s'.db == s.db && s'.pending == s.pending + Emitted(cfg, m)
    case Commit(n) =>
      && r == Done && n <= |s.pending|
      && s' == State(s.cache, ApplyAll(s.db, s.pending[..n]), s.pending[n..])
  }

  /** The records a multi-read loads into the cache. */
  function Loads<V(!new)>(cfg: Config<V>, s: State<V>, ks: seq<Bytes>): seq<(Bytes, V)> {
    Fetched(cfg, Committed(cfg, s), MissKeys(s.cache, ks)).items
  }

  /** A mutation would not change the pending record of any key that a staged operation
      touches. */
  ghost predicate DirectFits<V(!new)>(cfg: Config<V>, s: State<V>, m: Mutation<V>) {
    forall k :: Touched(s.pending, cfg.prefix + k) ==> SameAt(RefApply(cfg, Pending(cfg, s), m), Pending(cfg, s), k)
  }

  /** The side condition of write-behind caching, checkable before each call: no read
      miss that may cache a record with a different one pending, no direct change of a
      record that a staged operation touches. */
  ghost predicate Admissible<V(!new)>(cfg: Config<V>, s: State<V>, op: Op<V>) {
    match op
    case Read(k) => SafeRead(cfg.policy, cfg.size, s.cache, View(cfg, Committed(cfg, s)), View(cfg, Pending(cfg, s)), k)
    case ReadMany(ks) => SafeSeries(cfg.policy, cfg.size, View(cfg, Pending(cfg, s)), Loads(cfg, s, ks))
    case Direct(m) => DirectFits(cfg, s, m)
    case _ => true
  }

  /** The call is answered from records as they are pending: a key is cached or committed as it
      is pending; presence only needs to be the same; and a multi-read that meets an
      undecodable record is right to fail iff some key asked for is undecodable pending. */
  ghost predicate AsksFresh<V(!new)>(cfg: Config<V>, s: State<V>, op: Op<V>) {
    match op
    case Read(k) => FreshKey(cfg, s, k)
    case ReadMany(ks) =>
      if Fetched(cfg, Committed(cfg, s), MissKeys(s.cache, ks)).failed
      then AnyCorrupt(cfg, Pending(cfg, s), ks)
      else AllFresh(cfg, s, ks)
    case Has(k) => k in s.cache || (k in Committed(cfg, s) <==> k in Pending(cfg, s))
    case _ => true
  }

  /** The answer a plain map holding `table` would give. */
  ghost predicate Matches<V(!new)>(cfg: Config<V>, table: map<Bytes, Bytes>, op: Op<V>, r: Result<V>) {
    match op
    case Read(k) => r == One(Get(cfg, table, k))
    case ReadMany(ks) =>
      if AnyCorrupt(cfg, table, ks) then r == DecodeFailed
      else r.Slots? && r.slots == RefSlots(cfg, table, ks) && r.hits + r.misses == |ks|
    case Has(k) => r == Present(k in table)
    case _ => r == Done
  }

  function RefStep<V(!new)>(cfg: Config<V>, table: map<Bytes, Bytes>, op: Op<V>): map<Bytes, Bytes> {
    match op
    case Direct(m) => RefApply(cfg, table, m)
    case Stage(m) => RefApply(cfg, table, m)
    case _ => table
  }

  function RefRun<V(!new)>(cfg: Config<V>, table: map<Bytes, Bytes>, ops: seq<Op<V>>): map<Bytes, Bytes> {
    if ops == [] then table
    else RefStep(cfg, RefRun(cfg, table, ops[..|ops| - 1]), ops[|ops| - 1])
  }

  lemma RefRunExtend<V(!new)>(cfg: Config<V>, table: map<Bytes, Bytes>, ops: seq<Op<V>>, n: nat, last: map<Bytes, Bytes>, next: map<Bytes, Bytes>)
    requires 0 < n <= |ops|
    requires last == RefRun(cfg, table, ops[..n - 1]) && next == RefStep(cfg, last, ops[n - 1])
    ensures next == RefRun(cfg, table, ops[..n])
  {
    assert ops[..n][..n - 1] == ops[..n - 1];
  }

  /** The cache is within its bounds and agrees with the pending view of the database. */
  ghost predicate Good<V(!new)>(cfg: Config<V>, s: State<V>) {
    Bounded(cfg.policy, cfg.size, s.cache) && InStep(cfg, s.cache, Pending(cfg, s))
  }

  /** A sequence of calls, each answered and each leading to the next state. */
  ghost predicate Run<V(!new)>(cfg: Config<V>, states: seq<State<V>>, ops: seq<Op<V>>, results: seq<Result<V>>) {
    && |states| == |ops| + 1 && |results| == |ops|
    && forall i {:trigger results[i]} :: 0 <= i < |ops| ==> Step(cfg, states[i], ops[i], results[i], states[i + 1])
  }

  // ------------------------------------------- mutations on bytes and on the cache

  lemma TablePut<V(!new)>(cfg: Config<V>, db: DbMap, k: Bytes, b: Bytes)
    ensures Table(cfg, Apply(db, PutKey(cfg.prefix + k, b))) == Table(cfg, db)[k := b]
  {
    var db' := Apply(db, PutKey(cfg.prefix + k, b));
    forall j
      ensures j in Table(cfg, db') <==> j in Table(cfg, db)[k := b]
      ensures j in Table(cfg, db') ==> Table(cfg, db')[j] == Table(cfg, db)[k := b][j]
    {
      TableLookup(cfg, db', j);
      TableLookup(cfg, db, j);
      if cfg.prefix + j == cfg.prefix + k { PrefixedInjective(cfg.prefix, j, k); }
    }
  }

  lemma TableDelete<V(!new)>(cfg: Config<V>, db: DbMap, k: Bytes)
    ensures Table(cfg, Apply(db, DeleteKey(cfg.prefix + k))) == Table(cfg, db) - {k}
  {
    var db' := Apply(db, DeleteKey(cfg.prefix + k));
    forall j
      ensures j in Table(cfg, db') <==> j in Table(cfg, db) - {k}
      ensures j in Table(cfg, db') ==> Table(cfg, db')[j] == Table(cfg, db)[j]
    {
      TableLookup(cfg, db', j);
      TableLookup(cfg, db, j);
      if cfg.prefix + j == cfg.prefix + k { PrefixedInjective(cfg.prefix, j, k); }
    }
  }

  lemma {:induction false} TablePuts<V(!new)>(cfg: Config<V>, db: DbMap, items: seq<(Bytes, V)>)
    ensures Table(cfg, ApplyAll(db, Puts(cfg, items))) == PutAll(Table(cfg, db), Encoded(cfg, items))
  {
    if items == [] {
      assert Puts(cfg, items) == [];
    } else {
      var n := |items| - 1;
      assert Puts(cfg, items)[..n] == Puts(cfg, items[..n]);
      assert Encoded(cfg, items)[..n] == Encoded(cfg, items[..n]);
      TablePuts(cfg, db, items[..n]);
      TablePut(cfg, ApplyAll(db, Puts(cfg, items[..n])), items[n].0, cfg.enc(items[n].1));
    }
  }

  lemma {:induction false} TableDeletes<V(!new)>(cfg: Config<V>, db: DbMap, ks: seq<Bytes>)
    ensures Table(cfg, ApplyAll(db, Deletes(cfg, ks))) == Table(cfg, db) - Elems(ks)
  {
    if ks == [] {
      assert Deletes(cfg, ks) == [];
      RemoveNone(Table(cfg, db));
    } else {
      var n := |ks| - 1;
      assert Deletes(cfg, ks)[..n] == Deletes(cfg, ks[..n]);
      TableDeletes(cfg, db, ks[..n]);
      TableDelete(cfg, ApplyAll(db, Deletes(cfg, ks[..n])), ks[n]);
      RemoveLast(Table(cfg, db), ks);
    }
  }

  lemma TableDeleteAll<V(!new)>(cfg: Config<V>, db: DbMap)
    requires PrefixEnd(cfg.prefix).Some?
    ensures Table(cfg, Apply(db, DeleteRange(cfg.prefix, PrefixEnd(cfg.prefix).value))) == map[]
  {
    var db' := Apply(db, DeleteRange(cfg.prefix, PrefixEnd(cfg.prefix).value));
    forall k ensures k !in Table(cfg, db') {
      TableLookup(cfg, db', k);
      PrefixRangeExact(cfg.prefix, cfg.prefix + k);
    }
  }

  /** On the store's own keys, the bytes issued for a mutation do to the database what
      the mutation does to a plain map. */
  lemma MutationRefines<V(!new)>(cfg: Config<V>, db: DbMap, m: Mutation<V>)
    requires cfg.Valid()
    ensures Table(cfg, ApplyAll(db, Emitted(cfg, m))) == RefApply(cfg, Table(cfg, db), m)
  {
    match m
    case Write(k, v) =>
      ApplyOne(db, PutKey(cfg.prefix + k, cfg.enc(v)));
      TablePut(cfg, db, k, cfg.enc(v));
    case WriteMany(items) => TablePuts(cfg, db, items);
    case WriteManyWithoutCache(items) => TablePuts(cfg, db, items);
    case Delete(k) =>
      ApplyOne(db, DeleteKey(cfg.prefix + k));
      TableDelete(cfg, db, k);
    case DeleteMany(ks) => TableDeletes(cfg, db, ks);
    case DeleteAll =>
      ApplyOne(db, DeleteRange(cfg.prefix, PrefixEnd(cfg.prefix).value));
      TableDeleteAll(cfg, db);
  }

  /** Keys outside the store's prefix are none of its business: no mutation touches them. */
  lemma {:induction false} ForeignKeysUntouched<V(!new)>(cfg: Config<V>, db: DbMap, ops: seq<WriteOp>, m: Mutation<V>, x: Bytes)
    requires ops <= Emitted(cfg, m) && !(cfg.prefix <= x)
    ensures x in ApplyAll(db, ops) <==> x in db
    ensures x in db ==> ApplyAll(db, ops)[x] == db[x]
    decreases |ops|
  {
    if ops != [] {
      var n := |ops| - 1;
      ForeignKeysUntouched(cfg, db, ops[..n], m, x);
      assert ops[n] == Emitted(cfg, m)[n];
      if m.DeleteAll? {
        PrefixRangeExact(cfg.prefix, x);
      } else {
        assert !ops[n].DeleteRange? && cfg.prefix <= ops[n].key;
      }
    }
  }

  lemma {:induction false} PutAllInStep<V(!new)>(cfg: Config<V>, c: map<Bytes, V>, table: map<Bytes, Bytes>, items: seq<(Bytes, V)>)
    requires cfg.Valid() && InStep(cfg, c, table)
    ensures InStep(cfg, PutAll(c, items), PutAll(table, Encoded(cfg, items)))
  {
    if items == [] {
      assert Encoded(cfg, items) == [];
    } else {
      var n := |items| - 1;
      assert Encoded(cfg, items)[..n] == Encoded(cfg, items[..n]);
      PutAllInStep(cfg, c, table, items[..n]);
    }
  }

  lemma SubmapInStep<V(!new)>(cfg: Config<V>, c: map<Bytes, V>, c': map<Bytes, V>, table: map<Bytes, Bytes>)
    requires InStep(cfg, c, table) && Submap(c', c)
    ensures InStep(cfg, c', table)
  {
  }

  lemma WriteKeepsCoherence<V(!new)>(cfg: Config<V>, c: map<Bytes, V>, table: map<Bytes, Bytes>, k: Bytes, v: V, c': map<Bytes, V>)
    requires cfg.Valid() && Bounded(cfg.policy, cfg.size, c) && InStep(cfg, c, table)
    requires Inserts(cfg.policy, cfg.size, c, k, v, c')
    ensures Bounded(cfg.policy, cfg.size, c') && InStep(cfg, c', table[k := cfg.enc(v)])
  {
    InsertsSubmap(cfg.policy, cfg.size, c, k, v, c');
    SubmapInStep(cfg, c[k := v], c', table[k := cfg.enc(v)]);
  }

  lemma WriteManyKeepsCoherence<V(!new)>(cfg: Config<V>, c: map<Bytes, V>, table: map<Bytes, Bytes>, items: seq<(Bytes, V)>, c': map<Bytes, V>)
    requires cfg.Valid() && Bounded(cfg.policy, cfg.size, c) && InStep(cfg, c, table)
    requires InsertsAll(cfg.policy, cfg.size, c, items, c')
    ensures Bounded(cfg.policy, cfg.size, c') && InStep(cfg, c', PutAll(table, Encoded(cfg, items)))
  {
    InsertsAllSubmap(cfg.policy, cfg.size, c, items, c');
    PutAllInStep(cfg, c, table, items);
    SubmapInStep(cfg, PutAll(c, items), c', PutAll(table, Encoded(cfg, items)));
  }

  lemma RemovalInStep<V(!new)>(cfg: Config<V>, c: map<Bytes, V>, table: map<Bytes, Bytes>, ks: set<Bytes>)
    requires InStep(cfg, c, table)
    ensures InStep(cfg, c - ks, table - ks)
  {
  }

  /** Whatever is evicted, a mutation leaves the cache agreeing with the plain map after it. */
  lemma MutationKeepsCoherence<V(!new)>(cfg: Config<V>, c: map<Bytes, V>, table: map<Bytes, Bytes>, m: Mutation<V>, c': map<Bytes, V>)
    requires cfg.Valid() && Bounded(cfg.policy, cfg.size, c) && InStep(cfg, c, table)
    requires CacheEffect(cfg, c, m, c')
    ensures Bounded(cfg.policy, cfg.size, c') && InStep(cfg, c', RefApply(cfg, table, m))
  {
    match m
    case Write(k, v) => WriteKeepsCoherence(cfg, c, table, k, v, c');
    case WriteMany(items) => WriteManyKeepsCoherence(cfg, c, table, items, c');
    case WriteManyWithoutCache(items) => EmptyBounded(cfg);
    case Delete(k) =>
      RemovalBounded(cfg.policy, cfg.size, c, k);
      RemovalInStep(cfg, c, table, {k});
    case DeleteMany(ks) =>
      RemovalsBounded(cfg.policy, cfg.size, c, ks);
      RemovalInStep(cfg, c, table, Elems(ks));
    case DeleteAll => EmptyBounded(cfg);
  }

  lemma EmptyBounded<V(!new)>(cfg: Config<V>)
    ensures Bounded<Bytes, V>(cfg.policy, cfg.size, map[])
  {
  }

  lemma {:induction false} RemovalsBounded<K, V>(p: Policy, size: V -> nat, c: map<K, V>, ks: seq<K>)
    requires Bounded(p, size, c)
    ensures Bounded(p, size, c - Elems(ks))
  {
    if ks == [] {
      RemoveNone(c);
    } else {
      var n := |ks| - 1;
      RemoveLast(c, ks);
      RemovalsBounded(p, size, c, ks[..n]);
      RemovalBounded(p, size, c - Elems(ks[..n]), ks[n]);
    }
  }

  // ---------------------------------------------------------------- multi-reads

  lemma {:induction false} MissKeysAre<V>(c: map<Bytes, V>, ks: seq<Bytes>)
    ensures |MissKeys(c, ks)| <= |ks|
    ensures forall k :: k in MissKeys(c, ks) <==> k in ks && k !in c
  {
    if ks != [] {
      var n := |ks| - 1;
      MissKeysAre(c, ks[..n]);
      assert ks == ks[..n] + [ks[n]];
    }
  }

  lemma {:induction false} FetchedAre<V(!new)>(cfg: Config<V>, table: map<Bytes, Bytes>, ks: seq<Bytes>)
    ensures Fetched(cfg, table, ks).failed <==> exists k :: k in ks && Get(cfg, table, k) == Corrupt
    ensures forall i :: 0 <= i < |Fetched(cfg, table, ks).items| ==>
              var (k, v) := Fetched(cfg, table, ks).items[i]; k in ks && Get(cfg, table, k) == Value(v)
  {
    if ks != [] {
      var n := |ks| - 1;
      FetchedAre(cfg, table, ks[..n]);
      assert ks == ks[..n] + [ks[n]];
      var f := Fetched(cfg, table, ks[..n]);
      if f.failed {
        var k :| k in ks[..n] && Get(cfg, table, k) == Corrupt;
        assert k in ks;
      }
    }
  }

  lemma ReadManyKeepsGood<V(!new)>(cfg: Config<V>, s: State<V>, ks: seq<Bytes>, r: Result<V>, c': map<Bytes, V>)
    requires Good(cfg, s) && Admissible(cfg, s, ReadMany(ks))
    requires ReadManyStep(cfg, s.cache, Committed(cfg, s), ks, r, c')
    ensures Bounded(cfg.policy, cfg.size, c') && InStep(cfg, c', Pending(cfg, s))
  {
    InStepIsCoherent(cfg, s.cache, Pending(cfg, s));
    SafeSeriesKeeps(cfg.policy, cfg.size, s.cache, View(cfg, Pending(cfg, s)), Loads(cfg, s, ks), c');
    InStepIsCoherent(cfg, c', Pending(cfg, s));
  }

  lemma InadmissibleReadManyBreaksGood<V(!new)>(cfg: Config<V>, s: State<V>, ks: seq<Bytes>) returns (r: Result<V>, s': State<V>)
    requires Good(cfg, s) && !Admissible(cfg, s, ReadMany(ks))
    ensures Step(cfg, s, ReadMany(ks), r, s') && !Good(cfg, s')
  {
    var c' := LoadsOutOfStep(cfg, s, ks);
    s' := s.(cache := c');
    r := SomeResult(cfg, s.cache, Committed(cfg, s), ks, c');
  }

  lemma LoadsConsistent<V(!new)>(cfg: Config<V>, s: State<V>, ks: seq<Bytes>)
    ensures var kvs := Loads(cfg, s, ks);
            forall i, j :: 0 <= i < |kvs| && 0 <= j < |kvs| && kvs[i].0 == kvs[j].0 ==> kvs[i].1 == kvs[j].1
  {
    FetchedAre(cfg, Committed(cfg, s), MissKeys(s.cache, ks));
  }

  lemma LoadsOutOfStep<V(!new)>(cfg: Config<V>, s: State<V>, ks: seq<Bytes>) returns (c': map<Bytes, V>)
    requires Bounded(cfg.policy, cfg.size, s.cache)
    requires !SafeSeries(cfg.policy, cfg.size, View(cfg, Pending(cfg, s)), Loads(cfg, s, ks))
    ensures InsertsAll(cfg.policy, cfg.size, s.cache, Loads(cfg, s, ks), c') && !InStep(cfg, c', Pending(cfg, s))
  {
    LoadsConsistent(cfg, s, ks);
    c' := UnsafeSeriesBreaks(cfg.policy, cfg.size, s.cache, View(cfg, Pending(cfg, s)), Loads(cfg, s, ks));
    InStepIsCoherent(cfg, c', Pending(cfg, s));
  }

  lemma SomeResult<V(!new)>(cfg: Config<V>, c: map<Bytes, V>, table: map<Bytes, Bytes>, ks: seq<Bytes>, c': map<Bytes, V>) returns (r: Result<V>)
    requires InsertsAll(cfg.policy, cfg.size, c, Fetched(cfg, table, MissKeys(c, ks)).items, c')
    ensures ReadManyStep(cfg, c, table, ks, r, c')
  {
    var misses := MissKeys(c, ks);
    MissKeysAre(c, ks);
    r := if Fetched(cfg, table, misses).failed then DecodeFailed
         else Slots(MixedSlots(cfg, c, table, ks), |ks| - |misses|, |misses|);
  }

  /** The side condition on multi-reads is exact too. */
  lemma ReadManyAdmissibleExactly<V(!new)>(cfg: Config<V>, s: State<V>, ks: seq<Bytes>)
    requires Good(cfg, s)
    ensures (forall r, s' :: Step(cfg, s, ReadMany(ks), r, s') ==> Good(cfg, s')) <==> Admissible(cfg, s, ReadMany(ks))
  {
    if Admissible(cfg, s, ReadMany(ks)) {
      forall r, s' | Step(cfg, s, ReadMany(ks), r, s') ensures Good(cfg, s') {
        ReadManyKeepsGood(cfg, s, ks, r, s'.cache);
      }
    } else {
      var r, s' := InadmissibleReadManyBreaksGood(cfg, s, ks);
    }
  }

  /** A multi-read answers as the pending plain map would (every slot right, duplicates
      included, and each key one hit or one miss; or failed) exactly when it asks fresh. */
  lemma ReadManyAnswer<V(!new)>(cfg: Config<V>, s: State<V>, ks: seq<Bytes>, r: Result<V>, c': map<Bytes, V>)
    requires Good(cfg, s) && ReadManyStep(cfg, s.cache, Committed(cfg, s), ks, r, c')
    ensures Matches(cfg, Pending(cfg, s), ReadMany(ks), r) <==> AsksFresh(cfg, s, ReadMany(ks))
  {
    if !Fetched(cfg, Committed(cfg, s), MissKeys(s.cache, ks)).failed {
      SlotsAnswer(cfg, s, ks);
    }
  }

  lemma SlotsAnswer<V(!new)>(cfg: Config<V>, s: State<V>, ks: seq<Bytes>)
    requires Good(cfg, s) && !Fetched(cfg, Committed(cfg, s), MissKeys(s.cache, ks)).failed
    ensures AllFresh(cfg, s, ks) <==>
            && !AnyCorrupt(cfg, Pending(cfg, s), ks)
            && MixedSlots(cfg, s.cache, Committed(cfg, s), ks) == RefSlots(cfg, Pending(cfg, s), ks)
  {
    NoneCorrupt(cfg, s, ks);
    if !AnyCorrupt(cfg, Pending(cfg, s), ks) {
      SlotsAgreeExactly(cfg, s, ks);
    }
  }

  /** Where nothing fails to decode, a key that is undecodable pending is not fresh. */
  lemma NoneCorrupt<V(!new)>(cfg: Config<V>, s: State<V>, ks: seq<Bytes>)
    requires Good(cfg, s) && !Fetched(cfg, Committed(cfg, s), MissKeys(s.cache, ks)).failed
    ensures forall k :: k in ks && k !in s.cache ==> Get(cfg, Committed(cfg, s), k) != Corrupt
    ensures forall k :: k in ks && Get(cfg, Pending(cfg, s), k) == Corrupt ==> !FreshKey(cfg, s, k)
  {
    MissKeysAre(s.cache, ks);
    FetchedAre(cfg, Committed(cfg, s), MissKeys(s.cache, ks));
    forall k | k in ks && k !in s.cache ensures Get(cfg, Committed(cfg, s), k) != Corrupt {
      assert k in MissKeys(s.cache, ks);
    }
  }

  lemma SlotFresh<V(!new)>(cfg: Config<V>, s: State<V>, k: Bytes)
    requires InStep(cfg, s.cache, Pending(cfg, s))
    requires k !in s.cache ==> Get(cfg, Committed(cfg, s), k) != Corrupt
    requires Get(cfg, Pending(cfg, s), k) != Corrupt
    ensures (if k in s.cache then Some(s.cache[k]) else Slot(cfg, Committed(cfg, s), k)) == Slot(cfg, Pending(cfg, s), k) <==>
            FreshKey(cfg, s, k)
  {
  }

  lemma SlotsAt<V(!new)>(cfg: Config<V>, c: map<Bytes, V>, committed: map<Bytes, Bytes>, pending: map<Bytes, Bytes>, ks: seq<Bytes>, i: nat)
    requires i < |ks|
    ensures |MixedSlots(cfg, c, committed, ks)| == |RefSlots(cfg, pending, ks)| == |ks|
    ensures MixedSlots(cfg, c, committed, ks)[i] == if ks[i] in c then Some(c[ks[i]]) else Slot(cfg, committed, ks[i])
    ensures RefSlots(cfg, pending, ks)[i] == Slot(cfg, pending, ks[i])
  {
  }

  /** Where nothing fails to decode, all slots are right exactly when all keys are fresh. */
  lemma SlotsAgreeExactly<V(!new)>(cfg: Config<V>, s: State<V>, ks: seq<Bytes>)
    requires InStep(cfg, s.cache, Pending(cfg, s))
    requires forall k :: k in ks && k !in s.cache ==> Get(cfg, Committed(cfg, s), k) != Corrupt
    requires !AnyCorrupt(cfg, Pending(cfg, s), ks)
    ensures AllFresh(cfg, s, ks) <==>
            MixedSlots(cfg, s.cache, Committed(cfg, s), ks) == RefSlots(cfg, Pending(cfg, s), ks)
  {
    var a, b := MixedSlots(cfg, s.cache, Committed(cfg, s), ks), RefSlots(cfg, Pending(cfg, s), ks);
    assert |a| == |b| == |ks|;
    forall i | 0 <= i < |ks| ensures a[i] == b[i] <==> FreshKey(cfg, s, ks[i]) {
      assert ks[i] in ks;
      SlotsAt(cfg, s.cache, Committed(cfg, s), Pending(cfg, s), ks, i);
      SlotFresh(cfg, s, ks[i]);
    }
    AllOrNone(a, b, ks, k => FreshKey(cfg, s, k));
  }

  lemma AllOrNone<K(!new), S>(a: seq<S>, b: seq<S>, ks: seq<K>, p: K -> bool)
    requires |a| == |b| == |ks| && forall i :: 0 <= i < |ks| ==> (a[i] == b[i] <==> p(ks[i]))
    ensures (forall k :: k in ks ==> p(k)) <==> a == b
  {
    if forall k :: k in ks ==> p(k) {
      assert forall i :: 0 <= i < |ks| ==> ks[i] in ks;
    }
  }

  lemma InsertsAllSnoc<K(!new), V(!new)>(p: Policy, size: V -> nat, c: map<K, V>, kvs: seq<(K, V)>, mid: map<K, V>, k: K, v: V, c': map<K, V>)
    requires InsertsAll(p, size, c, kvs, mid) && Inserts(p, size, mid, k, v, c')
    ensures InsertsAll(p, size, c, kvs + [(k, v)], c')
  {
    assert (kvs + [(k, v)])[..|kvs|] == kvs;
  }

  lemma {:induction false} FailureSticks<V(!new)>(cfg: Config<V>, table: map<Bytes, Bytes>, ks: seq<Bytes>, m: nat)
    requires m <= |ks| && Fetched(cfg, table, ks[..m]).failed
    ensures Fetched(cfg, table, ks) == Fetched(cfg, table, ks[..m])
    decreases |ks|
  {
    if m == |ks| {
      assert ks[..m] == ks;
    } else {
      assert ks[..|ks| - 1][..m] == ks[..m];
      FailureSticks(cfg, table, ks[..|ks| - 1], m);
    }
  }

  // -------------------------------------------------------------- one step

  lemma DirectAt<V(!new)>(cfg: Config<V>, s: State<V>, m: Mutation<V>, s': State<V>, k: Bytes)
    requires cfg.Valid() && s'.db == ApplyAll(s.db, Emitted(cfg, m)) && s'.pending == s.pending
    ensures if Touched(s.pending, cfg.prefix + k) then SameAt(Pending(cfg, s'), Pending(cfg, s), k)
            else SameAt(Pending(cfg, s'), RefApply(cfg, Pending(cfg, s), m), k)
  {
    DirectUnderBatch(s.db, Emitted(cfg, m), s.pending, cfg.prefix + k);
    MutationRefines(cfg, s.Overlay(), m);
    TableLookup(cfg, s'.Overlay(), k);
    TableLookup(cfg, s.Overlay(), k);
    TableLookup(cfg, ApplyAll(s.Overlay(), Emitted(cfg, m)), k);
  }

  lemma SameEverywhere(a: DbMap, b: DbMap)
    requires forall k :: SameAt(a, b, k)
    ensures a == b
  {
    assert forall k :: k in a <==> k in b by {
      forall k ensures k in a <==> k in b { assert SameAt(a, b, k); }
    }
    assert forall k :: k in a ==> a[k] == b[k] by {
      forall k | k in a ensures a[k] == b[k] { assert SameAt(a, b, k); }
    }
  }

  /** A direct mutation, whatever is pending, does to the pending records what it does to a
      plain map if and only if it changes no record that a staged operation touches. */
  lemma DirectRefinesExactly<V(!new)>(cfg: Config<V>, s: State<V>, m: Mutation<V>, s': State<V>)
    requires cfg.Valid() && s'.db == ApplyAll(s.db, Emitted(cfg, m)) && s'.pending == s.pending
    ensures Pending(cfg, s') == RefApply(cfg, Pending(cfg, s), m) <==> DirectFits(cfg, s, m)
  {
    var before, after, ref := Pending(cfg, s), Pending(cfg, s'), RefApply(cfg, Pending(cfg, s), m);
    if DirectFits(cfg, s, m) {
      forall k ensures SameAt(after, ref, k) {
        DirectAt(cfg, s, m, s', k);
      }
      SameEverywhere(after, ref);
    } else {
      var k :| Touched(s.pending, cfg.prefix + k) && !SameAt(ref, before, k);
      DirectAt(cfg, s, m, s', k);
      assert SameAt(after, before, k);
    }
  }

  lemma MutationHasOutcome<V(!new)>(cfg: Config<V>, c: map<Bytes, V>, m: Mutation<V>) returns (c': map<Bytes, V>)
    requires Bounded(cfg.policy, cfg.size, c)
    ensures CacheEffect(cfg, c, m, c')
  {
    match m
    case Write(k, v) => c' := InsertionHasOutcome(cfg.policy, cfg.size, c, k, v);
    case WriteMany(items) => c' := SeriesHasOutcome(cfg.policy, cfg.size, c, items);
    case WriteManyWithoutCache(items) => c' := map[];
    case Delete(k) => c' := c - {k};
    case DeleteMany(ks) => c' := c - Elems(ks);
    case DeleteAll => c' := map[];
  }

  lemma DirectHasOutcome<V(!new)>(cfg: Config<V>, s: State<V>, m: Mutation<V>) returns (s': State<V>)
    requires Bounded(cfg.policy, cfg.size, s.cache)
    ensures Step(cfg, s, Direct(m), Done, s')
  {
    var c' := MutationHasOutcome(cfg, s.cache, m);
    s' := State(c', ApplyAll(s.db, Emitted(cfg, m)), s.pending);
  }

  lemma FittingDirect<V(!new)>(cfg: Config<V>, s: State<V>, m: Mutation<V>, s': State<V>)
    requires cfg.Valid() && Good(cfg, s) && DirectFits(cfg, s, m) && Step(cfg, s, Direct(m), Done, s')
    ensures Good(cfg, s') && Pending(cfg, s') == RefApply(cfg, Pending(cfg, s), m)
  {
    DirectRefinesExactly(cfg, s, m, s');
    MutationKeepsCoherence(cfg, s.cache, Pending(cfg, s), m, s'.cache);
  }

  /** The side condition on direct mutations is exact too: one keeps the cache in step with the
      pending records, and those the ones of a plain map, whatever is evicted, iff it is
      admissible. */
  lemma DirectAdmissibleExactly<V(!new)>(cfg: Config<V>, s: State<V>, m: Mutation<V>)
    requires cfg.Valid() && Good(cfg, s)
    ensures (forall r, s' :: Step(cfg, s, Direct(m), r, s') ==> Good(cfg, s') && Pending(cfg, s') == RefApply(cfg, Pending(cfg, s), m))
       <==> Admissible(cfg, s, Direct(m))
  {
    if Admissible(cfg, s, Direct(m)) {
      forall r, s' | Step(cfg, s, Direct(m), r, s') ensures Good(cfg, s') && Pending(cfg, s') == RefApply(cfg, Pending(cfg, s), m) {
        FittingDirect(cfg, s, m, s');
      }
    } else {
      var s' := DirectHasOutcome(cfg, s, m);
      DirectRefinesExactly(cfg, s, m, s');
    }
  }

  /** The records a mutation puts into the cache. */
  function Caches<V>(m: Mutation<V>): seq<(Bytes, V)> {
    match m
    case Write(k, v) => [(k, v)]
    case WriteMany(items) => items
    case _ => []
  }

  /** No record that may end up cached differs from the pending one of a key that a staged
      operation touches. */
  ghost predicate CachesFit<V(!new)>(cfg: Config<V>, s: State<V>, m: Mutation<V>) {
    forall k, v :: MayEnd(cfg.policy, cfg.size, Caches(m), k, v) && Touched(s.pending, cfg.prefix + k) ==>
        Get(cfg, Pending(cfg, s), k) == Value(v)
  }

  lemma CachedOrigin<V(!new)>(cfg: Config<V>, c: map<Bytes, V>, m: Mutation<V>, c': map<Bytes, V>, k: Bytes)
    requires Bounded(cfg.policy, cfg.size, c) && CacheEffect(cfg, c, m, c') && k in c'
    ensures (k in c && c'[k] == c[k]) || MayEnd(cfg.policy, cfg.size, Caches(m), k, c'[k])
  {
    match m
    case Write(j, v) =>
      InsertedOrKept(cfg.policy, cfg.size, c, j, v, c', k);
      if j == k { LastMayEnd(cfg.policy, cfg.size, [(k, v)], k, v); }
    case WriteMany(items) => InsertsAllOrigin(cfg.policy, cfg.size, c, items, c', k);
    case _ =>
  }

  lemma CanCache<V(!new)>(cfg: Config<V>, c: map<Bytes, V>, m: Mutation<V>, k: Bytes, v: V) returns (c': map<Bytes, V>)
    requires Bounded(cfg.policy, cfg.size, c) && MayEnd(cfg.policy, cfg.size, Caches(m), k, v)
    ensures CacheEffect(cfg, c, m, c') && k in c' && c'[k] == v
  {
    match m
    case Write(_, _) => c' := InsertionCanKeep(cfg.policy, cfg.size, c, k, v);
    case WriteMany(items) => c' := SeriesCanEnd(cfg.policy, cfg.size, c, items, k, v);
  }

  lemma MisfitBreaksGood<V(!new)>(cfg: Config<V>, s: State<V>, m: Mutation<V>, k: Bytes, v: V) returns (s': State<V>)
    requires cfg.Valid() && Bounded(cfg.policy, cfg.size, s.cache) && MayEnd(cfg.policy, cfg.size, Caches(m), k, v)
    requires Touched(s.pending, cfg.prefix + k) && Get(cfg, Pending(cfg, s), k) != Value(v)
    ensures Step(cfg, s, Direct(m), Done, s') && !Good(cfg, s')
  {
    var c' := CanCache(cfg, s.cache, m, k, v);
    s' := State(c', ApplyAll(s.db, Emitted(cfg, m)), s.pending);
    StillPending(cfg, s, m, s', k);
  }

  lemma StillPending<V(!new)>(cfg: Config<V>, s: State<V>, m: Mutation<V>, s': State<V>, k: Bytes)
    requires cfg.Valid() && s'.db == ApplyAll(s.db, Emitted(cfg, m)) && s'.pending == s.pending
    requires Touched(s.pending, cfg.prefix + k)
    ensures Get(cfg, Pending(cfg, s'), k) == Get(cfg, Pending(cfg, s), k)
  {
    DirectAt(cfg, s, m, s', k);
  }

  /** A direct mutation keeps the cache in step under every eviction iff it caches nothing that
      a staged operation is about to supersede. Deletions always do. */
  lemma DirectKeepsGoodExactly<V(!new)>(cfg: Config<V>, s: State<V>, m: Mutation<V>)
    requires cfg.Valid() && Good(cfg, s)
    ensures (forall r, s' :: Step(cfg, s, Direct(m), r, s') ==> Good(cfg, s')) <==> CachesFit(cfg, s, m)
  {
    if CachesFit(cfg, s, m) {
      forall r, s' | Step(cfg, s, Direct(m), r, s') ensures Good(cfg, s') {
        FittingCacheKeepsGood(cfg, s, m, s');
      }
    } else {
      var k, v :| MayEnd(cfg.policy, cfg.size, Caches(m), k, v) && Touched(s.pending, cfg.prefix + k) && Get(cfg, Pending(cfg, s), k) != Value(v);
      var s' := MisfitBreaksGood(cfg, s, m, k, v);
    }
  }

  lemma FittingEntry<V(!new)>(cfg: Config<V>, s: State<V>, m: Mutation<V>, s': State<V>, k: Bytes)
    requires cfg.Valid() && s'.db == ApplyAll(s.db, Emitted(cfg, m)) && s'.pending == s.pending && k in s'.cache
    requires Get(cfg, RefApply(cfg, Pending(cfg, s), m), k) == Value(s'.cache[k])
    requires Touched(s.pending, cfg.prefix + k) ==> Get(cfg, Pending(cfg, s), k) == Value(s'.cache[k])
    ensures Get(cfg, Pending(cfg, s'), k) == Value(s'.cache[k])
  {
    DirectAt(cfg, s, m, s', k);
  }

  lemma FittingCacheKeepsGood<V(!new)>(cfg: Config<V>, s: State<V>, m: Mutation<V>, s': State<V>)
    requires cfg.Valid() && Good(cfg, s) && CachesFit(cfg, s, m) && Step(cfg, s, Direct(m), Done, s')
    ensures Good(cfg, s')
  {
    MutationKeepsCoherence(cfg, s.cache, Pending(cfg, s), m, s'.cache);
    forall k | k in s'.cache ensures Get(cfg, Pending(cfg, s'), k) == Value(s'.cache[k]) {
      CachedOrigin(cfg, s.cache, m, s'.cache, k);
      FittingEntry(cfg, s, m, s', k);
    }
  }

  /** Every call does to the pending records what it does to a plain map. */
  lemma StepRefines<V(!new)>(cfg: Config<V>, s: State<V>, op: Op<V>, r: Result<V>, s': State<V>)
    requires cfg.Valid() && Step(cfg, s, op, r, s') && (op.Direct? ==> DirectFits(cfg, s, op.m))
    ensures Pending(cfg, s') == RefStep(cfg, Pending(cfg, s), op)
  {
    match op
    case Direct(m) => DirectRefinesExactly(cfg, s, m, s');
    case Stage(m) =>
      ApplyAllConcat(s.db, s.pending, Emitted(cfg, m));
      MutationRefines(cfg, s.Overlay(), m);
    case Commit(n) => CommitKeepsOverlay(s.db, s.pending, n);
    case _ =>
  }

  lemma AdmissibleReadKeepsGood<V(!new)>(cfg: Config<V>, s: State<V>, k: Bytes, r: Result<V>, s': State<V>)
    requires Good(cfg, s) && Admissible(cfg, s, Read(k)) && Step(cfg, s, Read(k), r, s')
    ensures Good(cfg, s')
  {
    var committed, pending := View(cfg, Committed(cfg, s)), View(cfg, Pending(cfg, s));
    InStepIsCoherent(cfg, s.cache, Pending(cfg, s));
    SafeReadStep(cfg.policy, cfg.size, s.cache, committed, pending, k, r.found, s'.cache);
    InStepIsCoherent(cfg, s'.cache, Pending(cfg, s));
  }

  lemma StepKeepsGood<V(!new)>(cfg: Config<V>, s: State<V>, op: Op<V>, r: Result<V>, s': State<V>)
    requires cfg.Valid() && Good(cfg, s) && Step(cfg, s, op, r, s') && Admissible(cfg, s, op)
    ensures Good(cfg, s')
  {
    StepRefines(cfg, s, op, r, s');
    match op
    case Read(k) => AdmissibleReadKeepsGood(cfg, s, k, r, s');
    case ReadMany(ks) => ReadManyKeepsGood(cfg, s, ks, r, s'.cache);
    case Direct(m) => MutationKeepsCoherence(cfg, s.cache, Pending(cfg, s), m, s'.cache);
    case Stage(m) => MutationKeepsCoherence(cfg, s.cache, Pending(cfg, s), m, s'.cache);
    case _ =>
  }

  /** Every call is answered as the pending plain map would answer it exactly when it asks
      fresh. */
  lemma StepAnswers<V(!new)>(cfg: Config<V>, s: State<V>, op: Op<V>, r: Result<V>, s': State<V>)
    requires Good(cfg, s) && Step(cfg, s, op, r, s')
    ensures Matches(cfg, Pending(cfg, s), op, r) <==> AsksFresh(cfg, s, op)
  {
    match op
    case Read(k) =>
      assert View(cfg, Committed(cfg, s))(k) == Get(cfg, Committed(cfg, s), k);
    case ReadMany(ks) => ReadManyAnswer(cfg, s, ks, r, s'.cache);
    case Has(k) =>
      assert k in s.cache ==> Get(cfg, Pending(cfg, s), k) == Value(s.cache[k]);
    case _ =>
  }

  lemma InadmissibleReadBreaksGood<V(!new)>(cfg: Config<V>, s: State<V>, k: Bytes) returns (r: Result<V>, s': State<V>)
    requires Good(cfg, s) && !Admissible(cfg, s, Read(k))
    ensures Step(cfg, s, Read(k), r, s') && !Good(cfg, s')
  {
    var committed, pending := View(cfg, Committed(cfg, s)), View(cfg, Pending(cfg, s));
    InStepIsCoherent(cfg, s.cache, Pending(cfg, s));
    ReadKeepsCoherenceExactly(cfg.policy, cfg.size, s.cache, committed, pending, k);
    var found, c' :| ReadStep(cfg.policy, cfg.size, s.cache, committed, k, found, c') && !Coherent(c', pending);
    InStepIsCoherent(cfg, c', Pending(cfg, s));
    r, s' := One(found), s.(cache := c');
  }

  /** The side condition on reads is exact for the store: a read keeps the cache in
      step with the pending records, whatever is evicted, iff it is admissible. */
  lemma ReadAdmissibleExactly<V(!new)>(cfg: Config<V>, s: State<V>, k: Bytes)
    requires Good(cfg, s)
    ensures (forall r, s' :: Step(cfg, s, Read(k), r, s') ==> Good(cfg, s')) <==> Admissible(cfg, s, Read(k))
  {
    if Admissible(cfg, s, Read(k)) {
      forall r, s' | Step(cfg, s, Read(k), r, s') ensures Good(cfg, s') {
        AdmissibleReadKeepsGood(cfg, s, k, r, s');
      }
    } else {
      var r, s' := InadmissibleReadBreaksGood(cfg, s, k);
    }
  }

  // -------------------------------------------------------------- whole runs

  lemma StepAt<V(!new)>(cfg: Config<V>, states: seq<State<V>>, ops: seq<Op<V>>, results: seq<Result<V>>, i: nat)
    requires cfg.Valid() && Run(cfg, states, ops, results) && i < |ops|
    ensures Good(cfg, states[i]) && Admissible(cfg, states[i], ops[i]) ==>
              Good(cfg, states[i + 1]) && Pending(cfg, states[i + 1]) == RefStep(cfg, Pending(cfg, states[i]), ops[i])
  {
    if Good(cfg, states[i]) && Admissible(cfg, states[i], ops[i]) {
      assert Step(cfg, states[i], ops[i], results[i], states[i + 1]);
      StepKeepsGood(cfg, states[i], ops[i], results[i], states[i + 1]);
      StepRefines(cfg, states[i], ops[i], results[i], states[i + 1]);
    }
  }

  lemma StepsKeepGood<V(!new)>(cfg: Config<V>, states: seq<State<V>>, ops: seq<Op<V>>, results: seq<Result<V>>, n: nat, good: nat -> bool)
    requires cfg.Valid() && Run(cfg, states, ops, results) && n <= |ops|
    requires forall i {:trigger Admissible(cfg, states[i], ops[i])} :: 0 <= i < |ops| ==> Admissible(cfg, states[i], ops[i])
    requires forall i: nat :: good(i) == (i <= n ==> Good(cfg, states[i]))
    ensures forall i: nat :: i < n && good(i) ==> good(i + 1)
  {
    forall i: nat | i < n && good(i) ensures good(i + 1) {
      StepAt(cfg, states, ops, results, i);
    }
  }

  lemma RunKeepsGood<V(!new)>(cfg: Config<V>, states: seq<State<V>>, ops: seq<Op<V>>, results: seq<Result<V>>, n: nat)
    requires cfg.Valid() && Run(cfg, states, ops, results) && Good(cfg, states[0])
    requires forall i {:trigger Admissible(cfg, states[i], ops[i])} :: 0 <= i < |ops| ==> Admissible(cfg, states[i], ops[i])
    requires n <= |ops|
    ensures Good(cfg, states[n])
  {
    var good := (i: nat) => i <= n ==> Good(cfg, states[i]);
    StepsKeepGood(cfg, states, ops, results, n, good);
    Runs.Stepwise(good, n);
  }

  lemma {:induction false} RunRefines<V(!new)>(cfg: Config<V>, states: seq<State<V>>, ops: seq<Op<V>>, results: seq<Result<V>>, n: nat)
    requires cfg.Valid() && Run(cfg, states, ops, results) && Good(cfg, states[0])
    requires forall i {:trigger Admissible(cfg, states[i], ops[i])} :: 0 <= i < |ops| ==> Admissible(cfg, states[i], ops[i])
    requires n <= |ops|
    ensures Pending(cfg, states[n]) == RefRun(cfg, Pending(cfg, states[0]), ops[..n])
    decreases n
  {
    if n > 0 {
      RunRefines(cfg, states, ops, results, n - 1);
      RunKeepsGood(cfg, states, ops, results, n - 1);
      StepAt(cfg, states, ops, results, n - 1);
      RefRunExtend(cfg, Pending(cfg, states[0]), ops, n, Pending(cfg, states[n - 1]), Pending(cfg, states[n]));
    }
  }

  /** Write-behind coherence, over every run of reads, staged or direct mutations and
      in-order commits, for every policy and every eviction: as long as each call is
      admissible, the cache always agrees with the database plus what is pending; the
      pending database is what a plain map would hold; a call gets the plain map's
      answer exactly when it asks fresh; and whenever nothing is pending the cache agrees
      with the database. */
  lemma WriteBehindCoherence<V(!new)>(cfg: Config<V>, states: seq<State<V>>, ops: seq<Op<V>>, results: seq<Result<V>>, n: nat)
    requires cfg.Valid() && Run(cfg, states, ops, results) && Good(cfg, states[0])
    requires forall i {:trigger Admissible(cfg, states[i], ops[i])} :: 0 <= i < |ops| ==> Admissible(cfg, states[i], ops[i])
    requires n <= |ops|
    ensures Good(cfg, states[n])
    ensures Pending(cfg, states[n]) == RefRun(cfg, Pending(cfg, states[0]), ops[..n])
    ensures n < |ops| ==>
              (Matches(cfg, RefRun(cfg, Pending(cfg, states[0]), ops[..n]), ops[n], results[n]) <==> AsksFresh(cfg, states[n], ops[n]))
    ensures states[n].pending == [] ==> InStep(cfg, states[n].cache, Committed(cfg, states[n]))
  {
    RunKeepsGood(cfg, states, ops, results, n);
    RunRefines(cfg, states, ops, results, n);
    if n < |ops| {
      StepAnswers(cfg, states[n], ops[n], results[n], states[n + 1]);
    }
  }

  /** Store refinement: through a direct writer the cached store is a plain map. Every
      call of every run is answered as the plain map would, for every policy and every
      eviction, and the store's keys hold exactly the plain map. */
  lemma DirectStoreRefinesMap<V(!new)>(cfg: Config<V>, states: seq<State<V>>, ops: seq<Op<V>>, results: seq<Result<V>>, n: nat)
    requires cfg.Valid() && Run(cfg, states, ops, results)
    requires Bounded(cfg.policy, cfg.size, states[0].cache) && InStep(cfg, states[0].cache, Committed(cfg, states[0]))
    requires states[0].pending == [] && forall i :: 0 <= i < |ops| ==> !ops[i].Stage?
    requires n <= |ops|
    ensures Committed(cfg, states[n]) == RefRun(cfg, Committed(cfg, states[0]), ops[..n])
    ensures n < |ops| ==> Matches(cfg, RefRun(cfg, Committed(cfg, states[0]), ops[..n]), ops[n], results[n])
  {
    forall i | 0 <= i < |ops|
      ensures states[i].pending == []
      ensures Admissible(cfg, states[i], ops[i]) && AsksFresh(cfg, states[i], ops[i])
    {
      NothingStaged(cfg, states, ops, results, i);
      NothingPendingAdmits(cfg, states[i], ops[i]);
    }
    NothingStaged(cfg, states, ops, results, n);
    WriteBehindCoherence(cfg, states, ops, results, n);
  }

  lemma NothingPendingAdmits<V(!new)>(cfg: Config<V>, s: State<V>, op: Op<V>)
    requires s.pending == []
    ensures Admissible(cfg, s, op) && AsksFresh(cfg, s, op)
  {
    assert s.Overlay() == s.db;
    if op.ReadMany? {
      MissKeysAre(s.cache, op.keys);
      FetchedAre(cfg, Committed(cfg, s), MissKeys(s.cache, op.keys));
    }
  }

  lemma {:induction false} NothingStaged<V(!new)>(cfg: Config<V>, states: seq<State<V>>, ops: seq<Op<V>>, results: seq<Result<V>>, n: nat)
    requires Run(cfg, states, ops, results) && n <= |ops|
    requires states[0].pending == [] && forall i :: 0 <= i < |ops| ==> !ops[i].Stage?
    ensures states[n].pending == []
    decreases n
  {
    if n > 0 {
      NothingStaged(cfg, states, ops, results, n - 1);
      assert Step(cfg, states[n - 1], ops[n - 1], results[n - 1], states[n]);
    }
  }

  /** The side condition is needed: with a counting cache, staging a delete, reading the
      key and committing always ends with the deleted record served from the cache. */
  lemma StagedDeleteThenReadGoesStale<V(!new)>(cfg: Config<V>, s0: State<V>, s1: State<V>, s2: State<V>, s3: State<V>,
                                               r: Found<V>, k: Bytes)
    requires cfg.Valid() && cfg.policy.Count? && cfg.policy.max > 0
    requires Good(cfg, s0) && s0.pending == [] && Get(cfg, Committed(cfg, s0), k).Value?
    requires Step(cfg, s0, Stage(Delete(k)), Done, s1)
    requires Step(cfg, s1, Read(k), One(r), s2)
    requires Step(cfg, s2, Commit(1), Done, s3)
    ensures k !in Committed(cfg, s3)
    ensures r == Get(cfg, Committed(cfg, s0), k)
    ensures k in s3.cache && Value(s3.cache[k]) == r
  {
    DeleteStaged(cfg, s0, s1, k);
    StaleInsert(cfg, s1, s2, r, k);
    DeleteCommitted(cfg, s2, s3, k);
  }

  lemma DeleteStaged<V(!new)>(cfg: Config<V>, s: State<V>, s': State<V>, k: Bytes)
    requires Bounded(cfg.policy, cfg.size, s.cache) && s.pending == [] && Step(cfg, s, Stage(Delete(k)), Done, s')
    ensures Bounded(cfg.policy, cfg.size, s'.cache) && k !in s'.cache
    ensures s'.db == s.db && s'.pending == Emitted(cfg, Delete(k))
  {
    RemovalBounded(cfg.policy, cfg.size, s.cache, k);
  }

  lemma DeleteCommitted<V(!new)>(cfg: Config<V>, s: State<V>, s': State<V>, k: Bytes)
    requires cfg.Valid() && s.pending == Emitted(cfg, Delete(k)) && Step(cfg, s, Commit(1), Done, s')
    ensures k !in Committed(cfg, s') && s'.cache == s.cache
  {
    TakeAll(s.pending);
    MutationRefines(cfg, s.db, Delete(k));
  }

  lemma StaleInsert<V(!new)>(cfg: Config<V>, s: State<V>, s': State<V>, r: Found<V>, k: Bytes)
    requires cfg.policy.Count? && cfg.policy.max > 0 && Bounded(cfg.policy, cfg.size, s.cache)
    requires k !in s.cache && Get(cfg, Committed(cfg, s), k).Value?
    requires Step(cfg, s, Read(k), One(r), s')
    ensures r == Get(cfg, Committed(cfg, s), k) && k in s'.cache && Value(s'.cache[k]) == r
    ensures s' == s.(cache := s'.cache)
  {
    var view := View(cfg, Committed(cfg, s));
    assert view(k) == Get(cfg, Committed(cfg, s), k);
    InsertsSubmap(cfg.policy, cfg.size, s.cache, k, r.value, s'.cache);
  }
}
