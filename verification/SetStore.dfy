/** `CachedDbSetAccess`: a cached store of sets. Each element is one database key,
    prefix + bucket key + encoded element, with an empty value
    (database/src/set_access.rs, database/src/key.rs). */
module SetStore {
  import opened Bytes
  import opened Db
  import opened Cache
  import opened WriteBehind

  datatype Config<!T(!new)> =
    Config(prefix: Bytes, keyLen: nat, enc: T -> Bytes, dec: Bytes -> Option<T>, policy: Policy, size: set<T> -> nat)
  {
    ghost predicate Valid() {
      && PrefixEnd(prefix).Some?
      && forall t :: dec(enc(t)) == Some(t)
    }

    /** The key type has one fixed length. */
    predicate IsKey(k: Bytes) {
      |k| == keyLen
    }
  }

  datatype Mutation<+T> =
    | Write(key: Bytes, item: T)
    | Delete(key: Bytes, item: T)
    | DeleteBucket(key: Bytes)

  // ------------------------------------------------------- buckets in the bytes

  /** x has the form prefix + key + encoded element. */
  ghost predicate Canonical<T(!new)>(cfg: Config<T>, x: Bytes) {
    var n := |cfg.prefix| + cfg.keyLen;
    n <= |x| && exists t :: x == x[..n] + cfg.enc(t)
  }

  /** Only this store writes under its prefix. */
  ghost predicate WellFormed<T(!new)>(cfg: Config<T>, db: DbMap) {
    forall x :: x in db && cfg.prefix <= x ==> Canonical(cfg, x)
  }

  function Members<T(==,!new)>(cfg: Config<T>, db: DbMap, k: Bytes): set<T> {
    set x | x in Suffixes(cfg.prefix + k, db) && cfg.dec(x).Some? :: cfg.dec(x).value
  }

  /** What reading a bucket from the database yields. */
  function Bucket<T(==,!new)>(cfg: Config<T>, db: DbMap, k: Bytes): Found<set<T>> {
    if forall x :: x in Suffixes(cfg.prefix + k, db) ==> cfg.dec(x).Some? then Value(Members(cfg, db, k))
    else Corrupt
  }

  /** In a well-formed store, t is in bucket k exactly when its key is in the database. */
  lemma MemberIff<T(!new)>(cfg: Config<T>, db: DbMap, k: Bytes, t: T)
    requires cfg.Valid() && WellFormed(cfg, db) && cfg.IsKey(k)
    ensures t in Members(cfg, db, k) <==> cfg.prefix + k + cfg.enc(t) in db
  {
    var bp := cfg.prefix + k;
    if bp + cfg.enc(t) in db {
      assert cfg.enc(t) in Suffixes(bp, db) && cfg.dec(cfg.enc(t)) == Some(t);
    }
    if t in Members(cfg, db, k) {
      var x :| x in Suffixes(bp, db) && cfg.dec(x) == Some(t);
      SuffixCanonical(cfg, db, k, x);
    }
  }

  lemma SuffixCanonical<T(!new)>(cfg: Config<T>, db: DbMap, k: Bytes, x: Bytes)
    requires cfg.Valid() && WellFormed(cfg, db) && cfg.IsKey(k) && x in Suffixes(cfg.prefix + k, db)
    ensures cfg.dec(x).Some? && x == cfg.enc(cfg.dec(x).value)
  {
    var bp := cfg.prefix + k;
    var y := bp + x;
    assert cfg.prefix <= y && y in db;
    var t :| y == y[..|bp|] + cfg.enc(t);
    assert x == y[|bp|..] == cfg.enc(t);
  }

  lemma BucketReadable<T(!new)>(cfg: Config<T>, db: DbMap, k: Bytes)
    requires cfg.Valid() && WellFormed(cfg, db) && cfg.IsKey(k)
    ensures Bucket(cfg, db, k) == Value(Members(cfg, db, k))
  {
    forall x | x in Suffixes(cfg.prefix + k, db) ensures cfg.dec(x).Some? {
      SuffixCanonical(cfg, db, k, x);
    }
  }

  /** Element keys determine bucket and element. */
  lemma ItemKeyInjective<T(!new)>(cfg: Config<T>, k: Bytes, t: T, k': Bytes, t': T)
    requires cfg.Valid() && cfg.IsKey(k) && cfg.IsKey(k')
    requires cfg.prefix + k + cfg.enc(t) == cfg.prefix + k' + cfg.enc(t')
    ensures k == k' && t == t'
  {
    var x, y, n := cfg.prefix + k + cfg.enc(t), cfg.prefix + k' + cfg.enc(t'), |cfg.prefix|;
    assert k == x[n..n + cfg.keyLen] && k' == y[n..n + cfg.keyLen];
    assert cfg.enc(t) == x[n + cfg.keyLen..] && cfg.enc(t') == y[n + cfg.keyLen..];
    assert cfg.dec(cfg.enc(t)) == Some(t) && cfg.dec(cfg.enc(t')) == Some(t');
  }

  /** Why the key length must be fixed: two buckets share no database key exactly when
      neither bucket key starts with the other. */
  lemma BucketsDisjointExactly(prefix: Bytes, k: Bytes, k': Bytes)
    ensures (forall a: Bytes, b: Bytes :: prefix + k + a != prefix + k' + b) <==> !(k <= k') && !(k' <= k)
  {
    var n := |prefix|;
    if k <= k' {
      assert prefix + k + k'[|k|..] == prefix + k' + [];
    } else if k' <= k {
      assert prefix + k + [] == prefix + k' + k[|k'|..];
    } else {
      forall a: Bytes, b: Bytes ensures prefix + k + a != prefix + k' + b {
        var x, y := prefix + k + a, prefix + k' + b;
        assert x[n..n + |k|] == k && y[n..n + |k'|] == k';
        assert |k| <= |k'| ==> y[n..n + |k|] == k'[..|k|];
        assert |k'| <= |k| ==> x[n..n + |k'|] == k[..|k'|];
      }
    }
  }

  // -------------------------------------------------------- what mutations do

  function ItemKey<T(==,!new)>(cfg: Config<T>, k: Bytes, t: T): Bytes {
    cfg.prefix + k + cfg.enc(t)
  }

  function Emitted<T(==,!new)>(cfg: Config<T>, m: Mutation<T>): seq<WriteOp> {
    match m
    case Write(k, t) => [PutKey(ItemKey(cfg, k, t), [])]
    case Delete(k, t) => [DeleteKey(ItemKey(cfg, k, t))]
    case DeleteBucket(k) =>
      match PrefixEnd(cfg.prefix + k)
      case Some(end) => [DeleteRange(cfg.prefix + k, end)]
      case None => []
  }

  ghost predicate CacheEffect<T(!new)>(cfg: Config<T>, c: map<Bytes, set<T>>, m: Mutation<T>, c': map<Bytes, set<T>>) {
    match m
    case Write(k, t) => Updates(cfg.policy, cfg.size, c, k, (s: set<T>) => s + {t}, c')
    case Delete(k, t) => Updates(cfg.policy, cfg.size, c, k, (s: set<T>) => s - {t}, c')
    case DeleteBucket(k) => c' == c - {k}
  }

  /** What a mutation means to bucket k of a plain map of sets. */
  function RefBucket<T(==,!new)>(m: Mutation<T>, k: Bytes, s: set<T>): set<T> {
    if m.key != k then s
    else match m
         case Write(_, t) => s + {t}
         case Delete(_, t) => s - {t}
         case DeleteBucket(_) => {}
  }

  lemma PrefixEndOfLonger(p: Bytes, k: Bytes)
    requires PrefixEnd(p).Some?
    ensures PrefixEnd(p + k).Some?
  {
    PrefixEndExists(p);
    PrefixEndExists(p + k);
    var i :| 0 <= i < |p| && p[i] != 255;
    assert (p + k)[i] != 255;
  }

  lemma MutationKeepsWellFormed<T(!new)>(cfg: Config<T>, db: DbMap, m: Mutation<T>)
    requires cfg.Valid() && WellFormed(cfg, db) && cfg.IsKey(m.key)
    ensures WellFormed(cfg, ApplyAll(db, Emitted(cfg, m)))
    ensures forall i :: 0 <= i < |Emitted(cfg, m)| ==> WellFormedOp(cfg, Emitted(cfg, m)[i])
  {
    match m
    case Write(k, t) =>
      var x := ItemKey(cfg, k, t);
      ApplyOne(db, PutKey(x, []));
      assert x[..|cfg.prefix| + cfg.keyLen] == cfg.prefix + k;
      assert Canonical(cfg, x);
    case Delete(k, t) => ApplyOne(db, DeleteKey(ItemKey(cfg, k, t)));
    case DeleteBucket(k) =>
      PrefixEndOfLonger(cfg.prefix, k);
      ApplyOne(db, Emitted(cfg, m)[0]);
  }

  ghost predicate WellFormedOp<T(!new)>(cfg: Config<T>, op: WriteOp) {
    op.PutKey? && cfg.prefix <= op.key ==> Canonical(cfg, op.key)
  }

  lemma {:induction false} OpsKeepWellFormed<T(!new)>(cfg: Config<T>, db: DbMap, ops: seq<WriteOp>)
    requires WellFormed(cfg, db) && forall i :: 0 <= i < |ops| ==> WellFormedOp(cfg, ops[i])
    ensures WellFormed(cfg, ApplyAll(db, ops))
  {
    if ops != [] {
      OpsKeepWellFormed(cfg, db, ops[..|ops| - 1]);
    }
  }

  /** The issued bytes change each bucket exactly as the mutation changes a plain map
      of sets: writes and deletes one element of one bucket, and a bucket delete's
      byte range takes that whole bucket and nothing of any other. */
  lemma MutationRefines<T(!new)>(cfg: Config<T>, db: DbMap, m: Mutation<T>, k: Bytes)
    requires cfg.Valid() && WellFormed(cfg, db) && cfg.IsKey(m.key) && cfg.IsKey(k)
    ensures Members(cfg, ApplyAll(db, Emitted(cfg, m)), k) == RefBucket(m, k, Members(cfg, db, k))
  {
    MutationKeepsWellFormed(cfg, db, m);
    var db' := ApplyAll(db, Emitted(cfg, m));
    forall t ensures t in Members(cfg, db', k) <==> t in RefBucket(m, k, Members(cfg, db, k)) {
      MemberIff(cfg, db', k, t);
      MemberIff(cfg, db, k, t);
      MutationOnItem(cfg, db, m, k, t);
    }
  }

  lemma MutationOnItem<T(!new)>(cfg: Config<T>, db: DbMap, m: Mutation<T>, k: Bytes, t: T)
    requires cfg.Valid() && cfg.IsKey(m.key) && cfg.IsKey(k)
    ensures ItemKey(cfg, k, t) in ApplyAll(db, Emitted(cfg, m)) <==>
            t in RefBucket(m, k, if ItemKey(cfg, k, t) in db then {t} else {})
  {
    var x := ItemKey(cfg, k, t);
    match m
    case Write(j, u) =>
      ApplyOne(db, Emitted(cfg, m)[0]);
      if x == ItemKey(cfg, j, u) { ItemKeyInjective(cfg, k, t, j, u); }
    case Delete(j, u) =>
      ApplyOne(db, Emitted(cfg, m)[0]);
      if x == ItemKey(cfg, j, u) { ItemKeyInjective(cfg, k, t, j, u); }
    case DeleteBucket(j) =>
      PrefixEndOfLonger(cfg.prefix, j);
      ApplyOne(db, Emitted(cfg, m)[0]);
      PrefixRangeExact(cfg.prefix + j, x);
      assert x[..|cfg.prefix + j|] == cfg.prefix + k;
      if cfg.prefix + j == cfg.prefix + k { PrefixedInjective(cfg.prefix, j, k); }
  }

  /** No mutation touches a key outside the store's prefix. */
  lemma ForeignKeysUntouched<T(!new)>(cfg: Config<T>, db: DbMap, m: Mutation<T>, x: Bytes)
    requires cfg.Valid() && !(cfg.prefix <= x)
    ensures x in ApplyAll(db, Emitted(cfg, m)) <==> x in db
    ensures x in db ==> ApplyAll(db, Emitted(cfg, m))[x] == db[x]
  {
    if m.DeleteBucket? {
      PrefixEndOfLonger(cfg.prefix, m.key);
      PrefixRangeExact(cfg.prefix + m.key, x);
      assert cfg.prefix <= cfg.prefix + m.key;
    } else {
      assert cfg.prefix <= ItemKey(cfg, m.key, m.item);
    }
    ApplyOne(db, Emitted(cfg, m)[0]);
  }

  // --------------------------------------------------------------- state machine

  datatype State<T> = State(cache: map<Bytes, set<T>>, db: DbMap, pending: seq<WriteOp>) {
    function Overlay(): DbMap {
      ApplyAll(db, pending)
    }
  }

  datatype Op<+T> =
    | Read(key: Bytes)
    | Direct(m: Mutation<T>)
    | Stage(m: Mutation<T>)
    | Commit(n: nat)

  function View<T(==,!new)>(cfg: Config<T>, db: DbMap): Bytes -> Found<set<T>> {
    k => Bucket(cfg, db, k)
  }

  /** One call, or the commit of the oldest n staged operations; only reads answer. */
  ghost predicate Step<T(!new)>(cfg: Config<T>, s: State<T>, op: Op<T>, r: Found<set<T>>, s': State<T>) {
    match op
    case Read(k) =>
      && s' == s.(cache := s'.cache)
      && ReadStep(cfg.policy, cfg.size, s.cache, View(cfg, s.db), k, r, s'.cache)
    case Direct(m) =>
      && r == Absent
      && CacheEffect(cfg, s.cache, m, s'.cache)
      && s'.db == ApplyAll(s.db, Emitted(cfg, m)) && s'.pending == s.pending
    case Stage(m) =>
      && r == Absent
      && CacheEffect(cfg, s.cache, m, s'.cache)
      && s'.db == s.db && s'.pending == s.pending + Emitted(cfg, m)
    case Commit(n) =>
      && r == Absent && n <= |s.pending|
      && s' == State(s.cache, ApplyAll(s.db, s.pending[..n]), s.pending[n..])
  }

  ghost predicate KeysFit<T(!new)>(cfg: Config<T>, op: Op<T>) {
    match op
    case Read(k) => cfg.IsKey(k)
    case Direct(m) => cfg.IsKey(m.key)
    case Stage(m) => cfg.IsKey(m.key)
    case Commit(_) => true
  }

  /** A mutation would not change the pending membership of any element that a staged
      operation touches. */
  ghost predicate DirectFits<T(!new)>(cfg: Config<T>, s: State<T>, m: Mutation<T>) {
    var bucket := Members(cfg, s.Overlay(), m.key);
    forall t :: Touched(s.pending, ItemKey(cfg, m.key, t)) ==> (t in RefBucket(m, m.key, bucket) <==> t in bucket)
  }

  /** The side condition, checkable before the call: no read miss on a bucket with
      staged changes, no direct change of an element that a staged operation touches. */
  ghost predicate Admissible<T(!new)>(cfg: Config<T>, s: State<T>, op: Op<T>) {
    match op
    case Read(k) => SafeRead(cfg.policy, cfg.size, s.cache, View(cfg, s.db), View(cfg, s.Overlay()), k)
    case Direct(m) => DirectFits(cfg, s, m)
    case _ => true
  }

  /** Every cached set is the bucket as it will be. */
  ghost predicate InStep<T(!new)>(cfg: Config<T>, c: map<Bytes, set<T>>, db: DbMap) {
    forall k :: k in c ==> cfg.IsKey(k) && Members(cfg, db, k) == c[k]
  }

  ghost predicate Good<T(!new)>(cfg: Config<T>, s: State<T>) {
    && Bounded(cfg.policy, cfg.size, s.cache)
    && WellFormed(cfg, s.db)
    && (forall i :: 0 <= i < |s.pending| ==> WellFormedOp(cfg, s.pending[i]))
    && InStep(cfg, s.cache, s.Overlay())
  }

  ghost predicate Run<T(!new)>(cfg: Config<T>, states: seq<State<T>>, ops: seq<Op<T>>, results: seq<Found<set<T>>>) {
    && |states| == |ops| + 1 && |results| == |ops|
    && forall i {:trigger results[i]} :: 0 <= i < |ops| ==> KeysFit(cfg, ops[i]) && Step(cfg, states[i], ops[i], results[i], states[i + 1])
  }

  /** Bucket k of a plain map of sets that held s at the start, after ops. */
  function RefRun<T(==,!new)>(ops: seq<Op<T>>, k: Bytes, s: set<T>): set<T> {
    if ops == [] then s
    else
      RefOp(ops[|ops| - 1], k, RefRun(ops[..|ops| - 1], k, s))
  }

  function RefOp<T(==,!new)>(op: Op<T>, k: Bytes, s: set<T>): set<T> {
    match op
    case Direct(m) => RefBucket(m, k, s)
    case Stage(m) => RefBucket(m, k, s)
    case _ => s
  }

  // ------------------------------------------------------------------ one step

  lemma InStepIsCoherent<T(!new)>(cfg: Config<T>, c: map<Bytes, set<T>>, db: DbMap)
    requires cfg.Valid() && WellFormed(cfg, db) && forall k :: k in c ==> cfg.IsKey(k)
    ensures InStep(cfg, c, db) <==> Coherent(c, View(cfg, db))
  {
    forall k | k in c ensures View(cfg, db)(k) == Value(Members(cfg, db, k)) {
      BucketReadable(cfg, db, k);
    }
  }

  lemma ReadKeysFit<T(!new)>(cfg: Config<T>, s: State<T>, k: Bytes, r: Found<set<T>>, s': State<T>)
    requires Good(cfg, s) && cfg.IsKey(k) && Step(cfg, s, Read(k), r, s')
    ensures forall j :: j in s'.cache ==> cfg.IsKey(j)
  {
    if k !in s.cache && r.Value? {
      InsertsSubmap(cfg.policy, cfg.size, s.cache, k, r.value, s'.cache);
    }
  }

  lemma ReadKeepsGood<T(!new)>(cfg: Config<T>, s: State<T>, k: Bytes, r: Found<set<T>>, s': State<T>)
    requires cfg.Valid() && Good(cfg, s) && cfg.IsKey(k)
    requires Step(cfg, s, Read(k), r, s') && Admissible(cfg, s, Read(k))
    ensures Good(cfg, s')
  {
    OpsKeepWellFormed(cfg, s.db, s.pending);
    InStepIsCoherent(cfg, s.cache, s.Overlay());
    SafeReadStep(cfg.policy, cfg.size, s.cache, View(cfg, s.db), View(cfg, s.Overlay()), k, r, s'.cache);
    ReadKeysFit(cfg, s, k, r, s');
    InStepIsCoherent(cfg, s'.cache, s.Overlay());
  }

  lemma EffectOnEntries<T(!new)>(cfg: Config<T>, c: map<Bytes, set<T>>, m: Mutation<T>, c': map<Bytes, set<T>>)
    requires Bounded(cfg.policy, cfg.size, c) && CacheEffect(cfg, c, m, c')
    ensures Bounded(cfg.policy, cfg.size, c')
    ensures forall k :: k in c' ==> k in c && c'[k] == RefBucket(m, k, c[k])
  {
    match m
    case Write(k, t) => UpdatesSubmap(cfg.policy, cfg.size, c, k, (s: set<T>) => s + {t}, c');
    case Delete(k, t) => UpdatesSubmap(cfg.policy, cfg.size, c, k, (s: set<T>) => s - {t}, c');
    case DeleteBucket(k) => RemovalBounded(cfg.policy, cfg.size, c, k);
  }

  /** The cache follows a mutation of the pending database db, whatever is evicted. */
  lemma CacheFollows<T(!new)>(cfg: Config<T>, c: map<Bytes, set<T>>, db: DbMap, m: Mutation<T>, c': map<Bytes, set<T>>)
    requires cfg.Valid() && WellFormed(cfg, db) && cfg.IsKey(m.key)
    requires Bounded(cfg.policy, cfg.size, c) && InStep(cfg, c, db) && CacheEffect(cfg, c, m, c')
    ensures Bounded(cfg.policy, cfg.size, c') && InStep(cfg, c', ApplyAll(db, Emitted(cfg, m)))
  {
    EffectOnEntries(cfg, c, m, c');
    forall k | k in c'
      ensures cfg.IsKey(k) && Members(cfg, ApplyAll(db, Emitted(cfg, m)), k) == c'[k]
    {
      MutationRefines(cfg, db, m, k);
    }
  }

  lemma StepKeepsGood<T(!new)>(cfg: Config<T>, s: State<T>, op: Op<T>, r: Found<set<T>>, s': State<T>, k: Bytes)
    requires cfg.Valid() && Good(cfg, s) && KeysFit(cfg, op) && cfg.IsKey(k)
    requires Step(cfg, s, op, r, s') && Admissible(cfg, s, op)
    ensures Good(cfg, s')
    ensures Members(cfg, s'.Overlay(), k) == RefOp(op, k, Members(cfg, s.Overlay(), k))
  {
    OpsKeepWellFormed(cfg, s.db, s.pending);
    match op
    case Read(j) => ReadKeepsGood(cfg, s, j, r, s');
    case Direct(m) =>
      DirectKeepsGood(cfg, s, m, s');
      DirectRefinesExactly(cfg, s, m, s');
    case Stage(m) =>
      StageKeepsGood(cfg, s, m, s');
      MutationRefines(cfg, s.Overlay(), m, k);
    case Commit(n) => CommitKeepsGood(cfg, s, n, s');
  }

  lemma DirectKeepsWellFormed<T(!new)>(cfg: Config<T>, s: State<T>, m: Mutation<T>, s': State<T>)
    requires cfg.Valid() && Good(cfg, s) && cfg.IsKey(m.key) && Step(cfg, s, Direct(m), Absent, s')
    ensures WellFormed(cfg, s'.db) && WellFormed(cfg, s.Overlay()) && WellFormed(cfg, s'.Overlay())
  {
    MutationKeepsWellFormed(cfg, s.db, m);
    OpsKeepWellFormed(cfg, s.db, s.pending);
    OpsKeepWellFormed(cfg, s'.db, s.pending);
  }

  /** What a direct mutation makes of one element: the staged operations have the last word on
      the elements they touch. */
  lemma DirectOnElement<T(!new)>(cfg: Config<T>, s: State<T>, m: Mutation<T>, s': State<T>, k: Bytes, t: T)
    requires cfg.Valid() && Good(cfg, s) && cfg.IsKey(m.key) && cfg.IsKey(k) && Step(cfg, s, Direct(m), Absent, s')
    ensures t in Members(cfg, s'.Overlay(), k) <==>
            if Touched(s.pending, ItemKey(cfg, k, t)) then t in Members(cfg, s.Overlay(), k)
            else t in RefBucket(m, k, Members(cfg, s.Overlay(), k))
  {
    var now := ApplyAll(s.Overlay(), Emitted(cfg, m));
    DirectKeepsWellFormed(cfg, s, m, s');
    DirectUnderBatch(s.db, Emitted(cfg, m), s.pending, ItemKey(cfg, k, t));
    MutationKeepsWellFormed(cfg, s.Overlay(), m);
    MutationRefines(cfg, s.Overlay(), m, k);
    MemberIff(cfg, s'.Overlay(), k, t);
    MemberIff(cfg, s.Overlay(), k, t);
    MemberIff(cfg, now, k, t);
  }

  /** Every bucket is as after the mutation of a plain map of sets. */
  ghost predicate Refined<T(!new)>(cfg: Config<T>, s: State<T>, m: Mutation<T>, s': State<T>) {
    forall k :: cfg.IsKey(k) ==> Members(cfg, s'.Overlay(), k) == RefBucket(m, k, Members(cfg, s.Overlay(), k))
  }

  /** A direct mutation, whatever is pending, does to every pending bucket what it does to a
      plain map of sets if and only if it changes no element that a staged operation touches. */
  lemma DirectRefinesExactly<T(!new)>(cfg: Config<T>, s: State<T>, m: Mutation<T>, s': State<T>)
    requires cfg.Valid() && Good(cfg, s) && cfg.IsKey(m.key) && Step(cfg, s, Direct(m), Absent, s')
    ensures Refined(cfg, s, m, s') <==> DirectFits(cfg, s, m)
  {
    if DirectFits(cfg, s, m) {
      forall k | cfg.IsKey(k) ensures Members(cfg, s'.Overlay(), k) == RefBucket(m, k, Members(cfg, s.Overlay(), k)) {
        forall t ensures t in Members(cfg, s'.Overlay(), k) <==> t in RefBucket(m, k, Members(cfg, s.Overlay(), k)) {
          DirectOnElement(cfg, s, m, s', k, t);
        }
      }
    } else {
      var bucket := Members(cfg, s.Overlay(), m.key);
      var t :| Touched(s.pending, ItemKey(cfg, m.key, t)) && !(t in RefBucket(m, m.key, bucket) <==> t in bucket);
      DirectOnElement(cfg, s, m, s', m.key, t);
    }
  }

  lemma DirectKeepsGood<T(!new)>(cfg: Config<T>, s: State<T>, m: Mutation<T>, s': State<T>)
    requires cfg.Valid() && Good(cfg, s) && cfg.IsKey(m.key) && Step(cfg, s, Direct(m), Absent, s')
    requires DirectFits(cfg, s, m)
    ensures Good(cfg, s')
  {
    DirectKeepsWellFormed(cfg, s, m, s');
    DirectRefinesExactly(cfg, s, m, s');
    EffectOnEntries(cfg, s.cache, m, s'.cache);
  }

  lemma CommitKeepsGood<T(!new)>(cfg: Config<T>, s: State<T>, n: nat, s': State<T>)
    requires Good(cfg, s) && Step(cfg, s, Commit(n), Absent, s')
    ensures Good(cfg, s') && s'.Overlay() == s.Overlay()
  {
    CommitKeepsOverlay(s.db, s.pending, n);
    OpsKeepWellFormed(cfg, s.db, s.pending[..n]);
  }

  lemma StageKeepsGood<T(!new)>(cfg: Config<T>, s: State<T>, m: Mutation<T>, s': State<T>)
    requires cfg.Valid() && Good(cfg, s) && cfg.IsKey(m.key) && Step(cfg, s, Stage(m), Absent, s')
    ensures Good(cfg, s') && s'.Overlay() == ApplyAll(s.Overlay(), Emitted(cfg, m))
  {
    OpsKeepWellFormed(cfg, s.db, s.pending);
    ApplyAllConcat(s.db, s.pending, Emitted(cfg, m));
    MutationKeepsWellFormed(cfg, s.Overlay(), m);
    CacheFollows(cfg, s.cache, s.Overlay(), m, s'.cache);
  }

  /** A bucket read keeps the cache in step, whatever is evicted, iff it is admissible. */
  lemma ReadAdmissibleExactly<T(!new)>(cfg: Config<T>, s: State<T>, k: Bytes)
    requires cfg.Valid() && Good(cfg, s) && cfg.IsKey(k)
    ensures (forall r, s' :: Step(cfg, s, Read(k), r, s') ==> Good(cfg, s')) <==> Admissible(cfg, s, Read(k))
  {
    OpsKeepWellFormed(cfg, s.db, s.pending);
    InStepIsCoherent(cfg, s.cache, s.Overlay());
    var committed, pending := View(cfg, s.db), View(cfg, s.Overlay());
    ReadKeepsCoherenceExactly(cfg.policy, cfg.size, s.cache, committed, pending, k);
    if Admissible(cfg, s, Read(k)) {
      forall r, s' | Step(cfg, s, Read(k), r, s') ensures Good(cfg, s') {
        ReadKeepsGood(cfg, s, k, r, s');
      }
    } else {
      var r, c' :| ReadStep(cfg.policy, cfg.size, s.cache, committed, k, r, c') && !Coherent(c', pending);
      var s' := s.(cache := c');
      assert Step(cfg, s, Read(k), r, s');
      ReadKeysFit(cfg, s, k, r, s');
      InStepIsCoherent(cfg, c', s.Overlay());
      assert !Good(cfg, s');
    }
  }

  // ----------------------------------------------------------------- whole runs

  lemma {:induction false} RunKeepsGood<T(!new)>(cfg: Config<T>, states: seq<State<T>>, ops: seq<Op<T>>, results: seq<Found<set<T>>>, n: nat, k: Bytes)
    requires cfg.Valid() && Run(cfg, states, ops, results) && Good(cfg, states[0])
    requires forall i {:trigger Admissible(cfg, states[i], ops[i])} :: 0 <= i < |ops| ==> Admissible(cfg, states[i], ops[i])
    requires n <= |ops| && cfg.IsKey(k)
    ensures Good(cfg, states[n])
    ensures Members(cfg, states[n].Overlay(), k) == RefRun(ops[..n], k, Members(cfg, states[0].Overlay(), k))
    decreases n
  {
    if n > 0 {
      RunKeepsGood(cfg, states, ops, results, n - 1, k);
      StepAt(cfg, states, ops, results, n - 1, k);
      TakeMore(ops, n - 1);
    }
  }

  lemma StepAt<T(!new)>(cfg: Config<T>, states: seq<State<T>>, ops: seq<Op<T>>, results: seq<Found<set<T>>>, i: nat, k: Bytes)
    requires cfg.Valid() && Run(cfg, states, ops, results) && i < |ops| && cfg.IsKey(k)
    ensures Good(cfg, states[i]) && Admissible(cfg, states[i], ops[i]) ==>
              Good(cfg, states[i + 1]) &&
              Members(cfg, states[i + 1].Overlay(), k) == RefOp(ops[i], k, Members(cfg, states[i].Overlay(), k))
  {
    assert Step(cfg, states[i], ops[i], results[i], states[i + 1]);
    if Good(cfg, states[i]) && Admissible(cfg, states[i], ops[i]) {
      StepKeepsGood(cfg, states[i], ops[i], results[i], states[i + 1], k);
    }
  }

  /** Reading bucket k answers with exactly the elements written and not deleted since,
      provided the bucket is cached or has nothing different pending. */
  lemma ReadAnswers<T(!new)>(cfg: Config<T>, s: State<T>, k: Bytes, r: Found<set<T>>, s': State<T>)
    requires cfg.Valid() && Good(cfg, s) && cfg.IsKey(k) && Step(cfg, s, Read(k), r, s')
    ensures r == Value(Members(cfg, s.Overlay(), k)) <==>
            k in s.cache || Members(cfg, s.db, k) == Members(cfg, s.Overlay(), k)
  {
    OpsKeepWellFormed(cfg, s.db, s.pending);
    BucketReadable(cfg, s.db, k);
    var view := View(cfg, s.db);
    assert view(k) == Bucket(cfg, s.db, k);
  }

  /** Write-behind coherence of the set store, over every run. */
  lemma SetWriteBehindCoherence<T(!new)>(cfg: Config<T>, states: seq<State<T>>, ops: seq<Op<T>>, results: seq<Found<set<T>>>, n: nat)
    requires cfg.Valid() && Run(cfg, states, ops, results) && Good(cfg, states[0])
    requires forall i {:trigger Admissible(cfg, states[i], ops[i])} :: 0 <= i < |ops| ==> Admissible(cfg, states[i], ops[i])
    requires n <= |ops|
    ensures Good(cfg, states[n])
    ensures forall k :: cfg.IsKey(k) ==>
              Members(cfg, states[n].Overlay(), k) == RefRun(ops[..n], k, Members(cfg, states[0].Overlay(), k))
    ensures states[n].pending == [] ==> InStep(cfg, states[n].cache, states[n].db)
  {
    forall k | cfg.IsKey(k)
      ensures Members(cfg, states[n].Overlay(), k) == RefRun(ops[..n], k, Members(cfg, states[0].Overlay(), k))
    {
      RunKeepsGood(cfg, states, ops, results, n, k);
    }
    RunKeepsGood(cfg, states, ops, results, n, seq(cfg.keyLen, _ => 0));
  }

  /** Set-bucket refinement: through a direct writer, every read of every run answers
      with exactly the elements written to that bucket and not deleted since, whether
      the bucket was cached, evicted or reloaded. */
  lemma DirectSetStoreRefinesMap<T(!new)>(cfg: Config<T>, states: seq<State<T>>, ops: seq<Op<T>>, results: seq<Found<set<T>>>, n: nat, k: Bytes)
    requires cfg.Valid() && Run(cfg, states, ops, results) && Good(cfg, states[0])
    requires states[0].pending == [] && forall i :: 0 <= i < |ops| ==> !ops[i].Stage?
    requires n < |ops| && cfg.IsKey(k) && ops[n] == Read(k)
    ensures results[n] == Value(RefRun(ops[..n], k, Members(cfg, states[0].db, k)))
  {
    forall i | 0 <= i < |ops| ensures Admissible(cfg, states[i], ops[i]) {
      NothingStaged(cfg, states, ops, results, i);
      assert states[i].Overlay() == states[i].db;
    }
    NothingStaged(cfg, states, ops, results, n);
    RunKeepsGood(cfg, states, ops, results, n, k);
    ReadAnswers(cfg, states[n], k, results[n], states[n + 1]);
  }

  lemma {:induction false} NothingStaged<T(!new)>(cfg: Config<T>, states: seq<State<T>>, ops: seq<Op<T>>, results: seq<Found<set<T>>>, n: nat)
    requires Run(cfg, states, ops, results) && n <= |ops|
    requires states[0].pending == [] && forall i :: 0 <= i < |ops| ==> !ops[i].Stage?
    ensures states[n].pending == []
    decreases n
  {
    if n > 0 {
      NothingStaged(cfg, states, ops, results, n - 1);
      assert Step(cfg, states[n - 1], ops[n - 1], results[n - 1], states[n]);
    }
  }
}
