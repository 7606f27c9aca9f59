/** A cache in front of a store whose writes may still be pending.

    A `view` answers lookups by key. `dbView` is the committed store, which is what
    a read miss sees; `pendingView` is the store once everything staged has been
    committed, which is what writes keep the cache in step with. */
module WriteBehind {
  import opened Cache

  datatype Found<+V> = Absent | Corrupt | Value(value: V)

  /** Every cached value is the value the view gives for its key. */
  ghost predicate Coherent<K(!new), V>(c: map<K, V>, view: K -> Found<V>) {
    forall k :: k in c ==> view(k) == Value(c[k])
  }

  /** A read of k: a hit answers from the cache, a miss asks the store and caches
      the value it finds. */
  ghost predicate ReadStep<K(!new), V>(p: Policy, size: V -> nat, c: map<K, V>, dbView: K -> Found<V>, k: K,
                                       r: Found<V>, c': map<K, V>)
  {
    if k in c then r == Value(c[k]) && c' == c
    else
      && r == dbView(k)
      && (if r.Value? then Inserts(p, size, c, k, r.value, c') else c' == c)
  }

  /** A miss on k would find in the store what is also pending. */
  ghost predicate Fresh<K, V>(c: map<K, V>, dbView: K -> Found<V>, pendingView: K -> Found<V>, k: K) {
    k in c || dbView(k) == pendingView(k)
  }

  /** Decidable before the read: it cannot leave a superseded value in the cache. */
  ghost predicate SafeRead<K, V>(p: Policy, size: V -> nat, c: map<K, V>, dbView: K -> Found<V>,
                                 pendingView: K -> Found<V>, k: K)
  {
    || Fresh(c, dbView, pendingView, k)
    || !dbView(k).Value?
    || !CanKeep(p, size, dbView(k).value)
  }

  /** A read answers with the pending value exactly when it is fresh. */
  lemma ReadAnswer<K(!new), V>(p: Policy, size: V -> nat, c: map<K, V>, dbView: K -> Found<V>,
                               pendingView: K -> Found<V>, k: K, r: Found<V>, c': map<K, V>)
    requires Coherent(c, pendingView)
    requires ReadStep(p, size, c, dbView, k, r, c')
    ensures r == pendingView(k) <==> Fresh(c, dbView, pendingView, k)
  {
  }

  lemma SafeReadStep<K(!new), V>(p: Policy, size: V -> nat, c: map<K, V>, dbView: K -> Found<V>,
                                 pendingView: K -> Found<V>, k: K, r: Found<V>, c': map<K, V>)
    requires Bounded(p, size, c) && Coherent(c, pendingView)
    requires SafeRead(p, size, c, dbView, pendingView, k)
    requires ReadStep(p, size, c, dbView, k, r, c')
    ensures Bounded(p, size, c') && Coherent(c', pendingView)
  {
    if k !in c && r.Value? {
      InsertsSubmap(p, size, c, k, r.value, c');
      if !CanKeep(p, size, r.value) {
        InsertionMustDrop(p, size, c, k, r.value, c');
      }
    }
  }

  /** Reading k keeps the cache coherent whatever is evicted if and only if the read
      is safe: the side condition of write-behind caching is exact. */
  lemma ReadKeepsCoherenceExactly<K(!new), V(!new)>(p: Policy, size: V -> nat, c: map<K, V>, dbView: K -> Found<V>,
                                                    pendingView: K -> Found<V>, k: K)
    requires Bounded(p, size, c) && Coherent(c, pendingView)
    ensures (forall r, c' :: ReadStep(p, size, c, dbView, k, r, c') ==> Coherent(c', pendingView))
       <==> SafeRead(p, size, c, dbView, pendingView, k)
  {
    if SafeRead(p, size, c, dbView, pendingView, k) {
      forall r, c' | ReadStep(p, size, c, dbView, k, r, c')
        ensures Coherent(c', pendingView)
      {
        SafeReadStep(p, size, c, dbView, pendingView, k, r, c');
      }
    } else {
      var v := dbView(k).value;
      var stale := InsertionCanKeep(p, size, c, k, v);
      assert ReadStep(p, size, c, dbView, k, Value(v), stale);
      assert !Coherent(stale, pendingView);
    }
  }

  /** With a counting cache the harm is certain, not just possible: after an unsafe
      read every outcome holds the superseded value. */
  lemma UnsafeReadPoisonsCountCache<K(!new), V>(p: Policy, size: V -> nat, c: map<K, V>, dbView: K -> Found<V>,
                                                pendingView: K -> Found<V>, k: K, r: Found<V>, c': map<K, V>)
    requires p.Count? && Bounded(p, size, c) && Coherent(c, pendingView)
    requires !SafeRead(p, size, c, dbView, pendingView, k)
    requires ReadStep(p, size, c, dbView, k, r, c')
    ensures k in c' && Value(c'[k]) == dbView(k) != pendingView(k)
    ensures !Coherent(c', pendingView)
  {
    InsertsSubmap(p, size, c, k, r.value, c');
  }

  /** No entry of the series that may stay in the cache differs from the view. */
  ghost predicate SafeSeries<K(!new), V(!new)>(p: Policy, size: V -> nat, view: K -> Found<V>, kvs: seq<(K, V)>) {
    forall i :: 0 <= i < |kvs| && MayStay(p, size, kvs, i) ==> view(kvs[i].0) == Value(kvs[i].1)
  }

  /** A safe series of insertions keeps the cache coherent whatever is evicted ... */
  lemma SafeSeriesKeeps<K(!new), V(!new)>(p: Policy, size: V -> nat, c: map<K, V>, view: K -> Found<V>,
                                          kvs: seq<(K, V)>, c': map<K, V>)
    requires Bounded(p, size, c) && Coherent(c, view) && SafeSeries(p, size, view, kvs)
    requires InsertsAll(p, size, c, kvs, c')
    ensures Bounded(p, size, c') && Coherent(c', view)
  {
    InsertsAllSubmap(p, size, c, kvs, c');
    forall k | k in c' ensures view(k) == Value(c'[k]) {
      InsertsAllOrigin(p, size, c, kvs, c', k);
    }
  }

  /** ... and any other has an outcome that does not. */
  lemma UnsafeSeriesBreaks<K(!new), V(!new)>(p: Policy, size: V -> nat, c: map<K, V>, view: K -> Found<V>,
                                             kvs: seq<(K, V)>) returns (c': map<K, V>)
    requires Bounded(p, size, c) && !SafeSeries(p, size, view, kvs)
    requires forall i, j :: 0 <= i < |kvs| && 0 <= j < |kvs| && kvs[i].0 == kvs[j].0 ==> kvs[i].1 == kvs[j].1
    ensures InsertsAll(p, size, c, kvs, c') && !Coherent(c', view)
  {
    var i :| 0 <= i < |kvs| && MayStay(p, size, kvs, i) && view(kvs[i].0) != Value(kvs[i].1);
    c' := SeriesCanKeep(p, size, c, kvs, i);
  }
}
