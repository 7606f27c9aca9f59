/** The randomly evicting, size-accounted cache (database/src/cache.rs).

    The random index of the source becomes an arbitrary choice of entry, so every
    contract below holds for every sequence of evictions. */
module Cache {

  datatype Policy =
    | Empty
    | Count(max: nat)
    | Tracked(max: nat, minItems: nat)
  {
    function MaxSize(): nat {
      match this
      case Empty => 0
      case Count(m) => m
      case Tracked(m, _) => m
    }
  }

  // ---------------------------------------------------------------- sizes

  ghost predicate Submap<K, V>(a: map<K, V>, b: map<K, V>) {
    a.Keys <= b.Keys && forall k :: k in a ==> a[k] == b[k]
  }

  ghost function TotalSize<K, V>(size: V -> nat, m: map<K, V>): nat
    decreases |m|
  {
    if m == map[] then 0
    else
      var k :| k in m;
      assert |m - {k}| < |m| by { Shrinks(m, k); }
      size(m[k]) + TotalSize(size, m - {k})
  }

  lemma Shrinks<K, V>(m: map<K, V>, k: K)
    requires k in m
    ensures |m - {k}| == |m| - 1
  {
    assert (m - {k}).Keys == m.Keys - {k};
    assert |(m - {k}).Keys| == |m - {k}|;
    assert |m.Keys| == |m|;
  }

  /** The total does not depend on the order in which entries are counted. */
  lemma {:induction false} TotalSizeSplit<K, V>(size: V -> nat, m: map<K, V>, k: K)
    requires k in m
    ensures TotalSize(size, m) == size(m[k]) + TotalSize(size, m - {k})
    decreases |m|
  {
    var j :| j in m && TotalSize(size, m) == size(m[j]) + TotalSize(size, m - {j});
    if j != k {
      Shrinks(m, j);
      Shrinks(m, k);
      TotalSizeSplit(size, m - {j}, k);
      TotalSizeSplit(size, m - {k}, j);
      assert m - {j} - {k} == m - {k} - {j};
    }
  }

  lemma TotalSizeUpdate<K, V>(size: V -> nat, m: map<K, V>, k: K, v: V)
    ensures TotalSize(size, m[k := v]) ==
            TotalSize(size, m) + size(v) - (if k in m then size(m[k]) else 0)
  {
    var m' := m[k := v];
    TotalSizeSplit(size, m', k);
    if k in m {
      TotalSizeSplit(size, m, k);
      assert m' - {k} == m - {k};
    } else {
      assert m' - {k} == m;
    }
  }

  function Elems<T>(s: seq<T>): set<T> {
    set x | x in s
  }

  lemma RemovePrefix<K, V>(m: map<K, V>, ks: seq<K>, i: nat)
    requires i < |ks|
    ensures m - Elems(ks[..i]) - {ks[i]} == m - Elems(ks[..i + 1])
  {
    assert ks[..i + 1] == ks[..i] + [ks[i]];
    assert Elems(ks[..i + 1]) == Elems(ks[..i]) + {ks[i]};
  }

  lemma RemoveLast<K, V>(m: map<K, V>, ks: seq<K>)
    requires ks != []
    ensures m - Elems(ks[..|ks| - 1]) - {ks[|ks| - 1]} == m - Elems(ks)
  {
    RemovePrefix(m, ks, |ks| - 1);
    assert ks[..|ks|] == ks;
  }

  lemma RemoveNone<K, V>(m: map<K, V>)
    ensures m - Elems([]) == m
  {
  }

  // ------------------------------------------------------- outcome relations

  /** The eviction loop's guard. */
  ghost predicate Over<K, V>(p: Policy, size: V -> nat, m: map<K, V>) {
    p.Tracked? && TotalSize(size, m) > p.max && |m| > p.minItems
  }

  /** m' is a possible outcome of the eviction loop on m: nothing but removals, the
      limit met, and no removal beyond the one that met it (see EvictsExactly). */
  ghost predicate Evicts<K(!new), V>(p: Policy, size: V -> nat, m: map<K, V>, m': map<K, V>) {
    && Submap(m', m)
    && !Over(p, size, m')
    && (m' == m || exists k :: EvictedLast(p, size, m, m', k))
  }

  ghost predicate EvictedLast<K, V>(p: Policy, size: V -> nat, m: map<K, V>, m': map<K, V>, k: K) {
    k in m && k !in m' && Over(p, size, m'[k := m[k]])
  }

  /** c' is a possible cache after inserting k -> v into c. */
  ghost predicate Inserts<K(!new), V>(p: Policy, size: V -> nat, c: map<K, V>, k: K, v: V, c': map<K, V>) {
    if p.MaxSize() == 0 then c' == c
    else if p.Tracked? then Evicts(p, size, c[k := v], c')
    else if |c| == p.MaxSize() then exists victim :: victim in c && c' == (c - {victim})[k := v]
    else c' == c[k := v]
  }

  /** c' is a possible cache after updating k in place with f. */
  ghost predicate Updates<K(!new), V>(p: Policy, size: V -> nat, c: map<K, V>, k: K, f: V -> V, c': map<K, V>) {
    if p.MaxSize() == 0 || k !in c then c' == c
    else Evicts(p, size, c[k := f(c[k])], c')
  }

  /** What every cache keeps: the bounds of its policy. */
  ghost predicate Bounded<K, V>(p: Policy, size: V -> nat, c: map<K, V>) {
    && (p.MaxSize() == 0 ==> c == map[])
    && (!p.Tracked? ==> |c| <= p.MaxSize())
    && !Over(p, size, c)
  }

  /** An entry of this value can survive its own insertion. */
  ghost predicate CanKeep<V>(p: Policy, size: V -> nat, v: V) {
    p.MaxSize() > 0 && (p.Tracked? ==> size(v) <= p.max || p.minItems >= 1)
  }

  ghost predicate InsertsAll<K(!new), V(!new)>(p: Policy, size: V -> nat, c: map<K, V>, kvs: seq<(K, V)>, c': map<K, V>)
    decreases |kvs|
  {
    if kvs == [] then c' == c
    else
      var front, last := kvs[..|kvs| - 1], kvs[|kvs| - 1];
      exists mid: map<K, V> :: InsertsAll(p, size, c, front, mid) && Inserts(p, size, mid, last.0, last.1, c')
  }

  function PutAll<K, V>(c: map<K, V>, kvs: seq<(K, V)>): map<K, V> {
    if kvs == [] then c
    else PutAll(c, kvs[..|kvs| - 1])[kvs[|kvs| - 1].0 := kvs[|kvs| - 1].1]
  }

  lemma InsertsSubmap<K(!new), V>(p: Policy, size: V -> nat, c: map<K, V>, k: K, v: V, c': map<K, V>)
    requires Bounded(p, size, c)
    requires Inserts(p, size, c, k, v, c')
    ensures Submap(c', c[k := v])
    ensures Bounded(p, size, c')
    ensures !p.Tracked? && p.MaxSize() > 0 ==> k in c' && c'[k] == v
  {
    if p.MaxSize() > 0 && !p.Tracked? {
      if |c| == p.MaxSize() {
        var victim :| victim in c && c' == (c - {victim})[k := v];
        Shrinks(c, victim);
        InsertLength(c - {victim}, k, v);
      } else {
        InsertLength(c, k, v);
      }
    }
  }

  /** With j back, m' exceeds the limit with more items than the minimum. */
  ghost predicate OneTooMany<K, V>(p: Policy, size: V -> nat, m: map<K, V>, m': map<K, V>, j: K)
    requires p.Tracked? && j in m
  {
    TotalSize(size, m'[j := m[j]]) > p.max && |m'[j := m[j]]| > p.minItems
  }

  /** m' is m after evictions that a tracked cache owes: it is within the limit or has no more
      items than the minimum, and if anything is gone, the last removal was owed. */
  ghost predicate EvictedAsOwed<K(!new), V>(p: Policy, size: V -> nat, m: map<K, V>, m': map<K, V>)
    requires p.Tracked?
  {
    && (TotalSize(size, m') <= p.max || |m'| <= p.minItems)
    && (m' != m ==> exists j :: j in m && j !in m' && OneTooMany(p, size, m, m', j))
  }

  lemma EvictsAsOwed<K(!new), V>(p: Policy, size: V -> nat, m: map<K, V>, m': map<K, V>)
    requires p.Tracked? && Evicts(p, size, m, m')
    ensures EvictedAsOwed(p, size, m, m')
  {
    if m' != m {
      var j :| EvictedLast(p, size, m, m', j);
      assert OneTooMany(p, size, m, m', j);
    }
  }

  /** An insertion in numbers. A tracked cache ends within its limit or with no more items than
      its minimum, and evicts only as long as it must. A counting cache evicts one entry if it
      was full and none otherwise. A cache of size zero stays empty. */
  lemma InsertionInNumbers<K(!new), V>(p: Policy, size: V -> nat, c: map<K, V>, k: K, v: V, c': map<K, V>)
    requires Bounded(p, size, c) && Inserts(p, size, c, k, v, c')
    ensures p.Tracked? && p.max > 0 ==> EvictedAsOwed(p, size, c[k := v], c')
    ensures p.Count? && |c| < p.max ==> c' == c[k := v]
    ensures p.Count? && |c| == p.max > 0 ==> exists victim :: victim in c && c' == (c - {victim})[k := v]
    ensures p.Count? ==> |c'| <= p.max
    ensures p.Empty? || p.max == 0 ==> c' == map[]
  {
    InsertsSubmap(p, size, c, k, v, c');
    if p.Tracked? && p.max > 0 {
      EvictsAsOwed(p, size, c[k := v], c');
    }
  }

  /** A full counting cache may evict any entry, also the one that is about to be replaced. */
  lemma CountEvictsAny<K(!new), V>(p: Policy, size: V -> nat, c: map<K, V>, k: K, v: V, victim: K)
    requires p.Count? && |c| == p.max > 0 && victim in c
    ensures Inserts(p, size, c, k, v, (c - {victim})[k := v])
  {
  }

  /** An update in place, in numbers: an absent key changes nothing, a counting cache evicts
      nothing, and a tracked one evicts as after an insertion. */
  lemma UpdateInNumbers<K(!new), V>(p: Policy, size: V -> nat, c: map<K, V>, k: K, f: V -> V, c': map<K, V>)
    requires Bounded(p, size, c) && Updates(p, size, c, k, f, c')
    ensures k !in c ==> c' == c
    ensures k in c && p.Tracked? ==> EvictedAsOwed(p, size, c[k := f(c[k])], c')
    ensures k in c && !p.Tracked? ==> c' == c[k := f(c[k])]
  {
    if k in c && p.Tracked? {
      EvictsAsOwed(p, size, c[k := f(c[k])], c');
    }
  }

  lemma UpdatesSubmap<K(!new), V>(p: Policy, size: V -> nat, c: map<K, V>, k: K, f: V -> V, c': map<K, V>)
    requires Bounded(p, size, c) && Updates(p, size, c, k, f, c')
    ensures Submap(c', if k in c then c[k := f(c[k])] else c)
    ensures Bounded(p, size, c')
  {
    if k in c && !p.Tracked? {
      InsertLength(c, k, f(c[k]));
    }
  }

  lemma InsertLength<K, V>(m: map<K, V>, k: K, v: V)
    ensures |m[k := v]| == if k in m then |m| else |m| + 1
  {
    var m' := m[k := v];
    Shrinks(m', k);
    if k in m {
      Shrinks(m, k);
      assert m' - {k} == m - {k};
    } else {
      assert m' - {k} == m;
    }
  }

  lemma {:induction false} InsertsAllSubmap<K(!new), V(!new)>(p: Policy, size: V -> nat, c: map<K, V>, kvs: seq<(K, V)>, c': map<K, V>)
    requires Bounded(p, size, c)
    requires InsertsAll(p, size, c, kvs, c')
    ensures Submap(c', PutAll(c, kvs))
    ensures Bounded(p, size, c')
    decreases |kvs|
  {
    if kvs != [] {
      var n := |kvs| - 1;
      var mid: map<K, V> :| InsertsAll(p, size, c, kvs[..n], mid) && Inserts(p, size, mid, kvs[n].0, kvs[n].1, c');
      InsertsAllSubmap(p, size, c, kvs[..n], mid);
      InsertsSubmap(p, size, mid, kvs[n].0, kvs[n].1, c');
    }
  }

  lemma OtherKey<K, V>(m: map<K, V>, k: K)
    requires k in m
    ensures m == map[k := m[k]] || exists j :: j in m && j != k
  {
    if forall j :: j in m ==> j == k {
      assert m == map[k := m[k]];
    }
  }

  /** Some eviction order keeps k, provided k alone is within the limit. */
  lemma {:induction false} EvictionCanKeep<K(!new), V>(p: Policy, size: V -> nat, m: map<K, V>, k: K) returns (m': map<K, V>)
    requires k in m && !Over(p, size, map[k := m[k]])
    ensures Evicts(p, size, m, m') && k in m'
    decreases |m|
  {
    if !Over(p, size, m) {
      m' := m;
    } else {
      OtherKey(m, k);
      var j :| j in m && j != k;
      Shrinks(m, j);
      m' := EvictionCanKeep(p, size, m - {j}, k);
      EvictsMore(p, size, m, j, m');
    }
  }

  /** Some outcome of an insertion keeps the new entry, exactly when its value can be kept. */
  lemma InsertionCanKeep<K(!new), V>(p: Policy, size: V -> nat, c: map<K, V>, k: K, v: V) returns (c': map<K, V>)
    requires Bounded(p, size, c) && CanKeep(p, size, v)
    ensures Inserts(p, size, c, k, v, c') && k in c' && c'[k] == v
  {
    if p.Tracked? {
      var m := c[k := v];
      NotOverAlone(p, size, k, m[k]);
      c' := EvictionCanKeep(p, size, m, k);
    } else if |c| == p.MaxSize() {
      var victim :| victim in c;
      c' := (c - {victim})[k := v];
    } else {
      c' := c[k := v];
    }
  }

  lemma InsertionMustDrop<K(!new), V>(p: Policy, size: V -> nat, c: map<K, V>, k: K, v: V, c': map<K, V>)
    requires Bounded(p, size, c) && !CanKeep(p, size, v)
    requires Inserts(p, size, c, k, v, c')
    ensures k !in c'
  {
    if p.MaxSize() > 0 && k in c' {
      TotalSizeSplit(size, c', k);
      Shrinks(c', k);
      assert Over(p, size, c');
    }
  }

  /** The eviction loop, removing the given entries in turn, gets from m to m' and stops there:
      the sizes are within the limit, or no more than the minimum of items is left. */
  ghost predicate EvictionRun<K(!new), V>(p: Policy, size: V -> nat, m: map<K, V>, ks: seq<K>, m': map<K, V>) {
    && (forall i {:trigger RemovesAt(p, size, m, ks, i)} :: 0 <= i < |ks| ==> RemovesAt(p, size, m, ks, i))
    && m' == m - Elems(ks) && (p.Tracked? ==> TotalSize(size, m') <= p.max || |m'| <= p.minItems)
  }

  /** Round i of the loop: the sizes exceed the limit, there are more items than the minimum, and
      ks[i] is still there to be removed. */
  ghost predicate RemovesAt<K(!new), V>(p: Policy, size: V -> nat, m: map<K, V>, ks: seq<K>, i: nat)
    requires i < |ks|
  {
    var left := m - Elems(ks[..i]);
    p.Tracked? && TotalSize(size, left) > p.max && |left| > p.minItems && ks[i] in left
  }

  lemma {:induction false} OverMonotone<K, V>(p: Policy, size: V -> nat, a: map<K, V>, b: map<K, V>)
    requires Submap(a, b) && Over(p, size, a)
    ensures Over(p, size, b)
    decreases |b|
  {
    if a.Keys == b.Keys {
      assert a == b;
    } else {
      var k :| k in b && k !in a;
      Shrinks(b, k);
      TotalSizeSplit(size, b, k);
      OverMonotone(p, size, a, b - {k});
    }
  }

  lemma EvictsMore<K(!new), V>(p: Policy, size: V -> nat, m: map<K, V>, j: K, m': map<K, V>)
    requires j in m && Over(p, size, m) && Evicts(p, size, m - {j}, m')
    ensures Evicts(p, size, m, m')
  {
    if m' == m - {j} {
      assert m'[j := m[j]] == m;
      assert EvictedLast(p, size, m, m', j);
    } else {
      var i :| EvictedLast(p, size, m - {j}, m', i);
      assert EvictedLast(p, size, m, m', i);
    }
  }

  lemma ElemsLast<T>(s: seq<T>, x: T)
    ensures Elems(s + [x]) == Elems(s) + {x}
  {
  }

  lemma PutBack<K, V>(m: map<K, V>, gone: set<K>, k: K)
    requires k in m && k !in gone
    ensures (m - (gone + {k}))[k := m[k]] == m - gone
    ensures Submap(m - (gone + {k}), m)
  {
  }

  lemma RunEvicts<K(!new), V>(p: Policy, size: V -> nat, m: map<K, V>, ks: seq<K>, m': map<K, V>)
    requires EvictionRun(p, size, m, ks, m')
    ensures Evicts(p, size, m, m')
  {
    if ks == [] {
      RemoveNone(m);
    } else {
      var n := |ks| - 1;
      assert RemovesAt(p, size, m, ks, n);
      assert ks == ks[..n] + [ks[n]];
      ElemsLast(ks[..n], ks[n]);
      PutBack(m, Elems(ks[..n]), ks[n]);
      assert EvictedLast(p, size, m, m', ks[n]);
    }
  }

  /** The elements of a finite set, in some order. */
  lemma {:induction false} Listing<K>(s: set<K>) returns (ks: seq<K>)
    ensures Elems(ks) == s && forall i :: 0 <= i < |ks| ==> ks[i] !in Elems(ks[..i])
    decreases |s|
  {
    if s == {} {
      ks := [];
      assert Elems(ks) == {};
    } else {
      var k :| k in s;
      var front := Listing(s - {k});
      ElemsLast(front, k);
      assert k !in Elems(front);
      ks := front + [k];
      forall i | 0 <= i < |ks| ensures ks[i] !in Elems(ks[..i]) {
        assert ks[..i] == front[..i];
        assert front[..|front|] == front;
      }
    }
  }

  lemma EvictsHasRun<K(!new), V>(p: Policy, size: V -> nat, m: map<K, V>, m': map<K, V>) returns (ks: seq<K>)
    requires Evicts(p, size, m, m')
    ensures EvictionRun(p, size, m, ks, m')
  {
    if m' == m {
      ks := [];
      RemoveNone(m);
    } else {
      var k :| EvictedLast(p, size, m, m', k);
      var front := Listing(m.Keys - m'.Keys - {k});
      ks := front + [k];
      RunToLast(p, size, m, m', k, front);
    }
  }

  lemma RunToLast<K(!new), V>(p: Policy, size: V -> nat, m: map<K, V>, m': map<K, V>, k: K, front: seq<K>)
    requires Submap(m', m) && !Over(p, size, m') && EvictedLast(p, size, m, m', k)
    requires Elems(front) == m.Keys - m'.Keys - {k} && forall i :: 0 <= i < |front| ==> front[i] !in Elems(front[..i])
    ensures EvictionRun(p, size, m, front + [k], m')
  {
    var ks := front + [k];
    AllGone(m, m', k, front);
    forall i | 0 <= i < |ks| ensures RemovesAt(p, size, m, ks, i) {
      RemovesInTurn(p, size, m, m', k, front, i);
    }
  }

  lemma AllGone<K, V>(m: map<K, V>, m': map<K, V>, k: K, front: seq<K>)
    requires Submap(m', m) && k in m && k !in m' && Elems(front) == m.Keys - m'.Keys - {k}
    ensures m' == m - Elems(front + [k])
  {
    ElemsLast(front, k);
    assert Elems(front + [k]) == m.Keys - m'.Keys;
  }

  lemma RemovesInTurn<K(!new), V>(p: Policy, size: V -> nat, m: map<K, V>, m': map<K, V>, k: K, front: seq<K>, i: nat)
    requires Submap(m', m) && EvictedLast(p, size, m, m', k) && i <= |front|
    requires Elems(front) == m.Keys - m'.Keys - {k} && forall i :: 0 <= i < |front| ==> front[i] !in Elems(front[..i])
    ensures RemovesAt(p, size, m, front + [k], i)
  {
    StillOver(p, size, m, m', k, front, i);
    assert (front + [k])[..i] == front[..i];
    if i < |front| {
      assert (front + [k])[i] == front[i] && front[i] in Elems(front);
    }
  }

  lemma StillOver<K(!new), V>(p: Policy, size: V -> nat, m: map<K, V>, m': map<K, V>, k: K, front: seq<K>, i: nat)
    requires Submap(m', m) && EvictedLast(p, size, m, m', k) && i <= |front|
    requires Elems(front) == m.Keys - m'.Keys - {k}
    ensures k !in front && Over(p, size, m - Elems(front[..i]))
  {
    var gone, last := Elems(front[..i]), m'[k := m[k]];
    forall j | j in gone ensures j in m && j !in last {
      assert j in Elems(front);
    }
    assert k !in Elems(front);
    assert Submap(last, m - gone);
    OverMonotone(p, size, last, m - gone);
  }

  /** The outcome relation is exact: m' is related to m iff the loop, removing some entries
      in some order, gets from m to m'. */
  lemma EvictsExactly<K(!new), V>(p: Policy, size: V -> nat, m: map<K, V>, m': map<K, V>)
    ensures Evicts(p, size, m, m') <==> exists ks :: EvictionRun(p, size, m, ks, m')
  {
    if Evicts(p, size, m, m') {
      var ks := EvictsHasRun(p, size, m, m');
      assert EvictionRun(p, size, m, ks, m');
    } else if ks :| EvictionRun(p, size, m, ks, m') {
      RunEvicts(p, size, m, ks, m');
    }
  }

  // ------------------------------------------------------ several insertions in a row

  /** Entry i of a series can still be there at the end: it can survive its own insertion,
      and a cache of one entry keeps the last. */
  ghost predicate MayStay<K, V>(p: Policy, size: V -> nat, kvs: seq<(K, V)>, i: nat)
    requires i < |kvs|
  {
    CanKeep(p, size, kvs[i].1) && (p.Count? && p.max == 1 ==> i == |kvs| - 1)
  }

  /** Some entry (k, v) of a series may stay, and no later one has its key. */
  ghost predicate MayEnd<K(!new), V>(p: Policy, size: V -> nat, kvs: seq<(K, V)>, k: K, v: V) {
    exists i :: 0 <= i < |kvs| && kvs[i] == (k, v) && MayStay(p, size, kvs, i) && LastOfKey(kvs, i)
  }

  ghost predicate LastOfKey<K, V>(kvs: seq<(K, V)>, i: nat)
    requires i < |kvs|
  {
    forall j :: i < j < |kvs| ==> kvs[j].0 != kvs[i].0
  }

  lemma LastMayEnd<K(!new), V>(p: Policy, size: V -> nat, kvs: seq<(K, V)>, k: K, v: V)
    requires kvs != [] && kvs[|kvs| - 1] == (k, v) && CanKeep(p, size, v)
    ensures MayEnd(p, size, kvs, k, v)
  {
    var n := |kvs| - 1;
    assert MayStay(p, size, kvs, n) && LastOfKey(kvs, n);
  }

  lemma MayEndMore<K(!new), V>(p: Policy, size: V -> nat, kvs: seq<(K, V)>, k: K, v: V)
    requires kvs != [] && kvs[|kvs| - 1].0 != k && !(p.Count? && p.max == 1)
    requires MayEnd(p, size, kvs[..|kvs| - 1], k, v)
    ensures MayEnd(p, size, kvs, k, v)
  {
    var front := kvs[..|kvs| - 1];
    var i :| 0 <= i < |front| && front[i] == (k, v) && MayStay(p, size, front, i) && LastOfKey(front, i);
    assert MayStay(p, size, kvs, i);
    forall j | i < j < |kvs| ensures kvs[j].0 != kvs[i].0 {
      assert j < |front| ==> kvs[j] == front[j];
    }
  }

  /** Every entry left after a series was there before or is the last one for its key, and one
      that may stay. */
  lemma {:induction false} InsertsAllOrigin<K(!new), V(!new)>(p: Policy, size: V -> nat, c: map<K, V>, kvs: seq<(K, V)>, c': map<K, V>, k: K)
    requires Bounded(p, size, c) && InsertsAll(p, size, c, kvs, c') && k in c'
    ensures (k in c && c'[k] == c[k]) || MayEnd(p, size, kvs, k, c'[k])
    decreases |kvs|
  {
    if kvs != [] {
      var n := |kvs| - 1;
      var mid: map<K, V> :| InsertsAll(p, size, c, kvs[..n], mid) && Inserts(p, size, mid, kvs[n].0, kvs[n].1, c');
      InsertsAllSubmap(p, size, c, kvs[..n], mid);
      InsertedOrKept(p, size, mid, kvs[n].0, kvs[n].1, c', k);
      if k == kvs[n].0 {
        LastMayEnd(p, size, kvs, k, c'[k]);
      } else {
        InsertsAllOrigin(p, size, c, kvs[..n], mid, k);
        if MayEnd(p, size, kvs[..n], k, mid[k]) { MayEndMore(p, size, kvs, k, mid[k]); }
      }
    }
  }

  lemma InsertedOrKept<K(!new), V>(p: Policy, size: V -> nat, c: map<K, V>, k: K, v: V, c': map<K, V>, j: K)
    requires Bounded(p, size, c) && Inserts(p, size, c, k, v, c') && j in c'
    ensures j == k ==> c'[j] == v && CanKeep(p, size, v)
    ensures j != k ==> j in c && c'[j] == c[j] && !(p.Count? && p.max == 1)
  {
    InsertsSubmap(p, size, c, k, v, c');
    if !CanKeep(p, size, v) {
      InsertionMustDrop(p, size, c, k, v, c');
    }
    TwoKeys(c', j, k);
  }

  lemma TwoKeys<K, V>(m: map<K, V>, j: K, k: K)
    ensures j in m && k in m && j != k ==> |m| >= 2
  {
    if j in m && k in m && j != k {
      Shrinks(m, j);
      Shrinks(m - {j}, k);
    }
  }

  /** Some outcome of one more insertion keeps k. */
  lemma InsertionCanSpare<K(!new), V>(p: Policy, size: V -> nat, m: map<K, V>, k: K, j: K, w: V) returns (c': map<K, V>)
    requires Bounded(p, size, m) && k in m && CanKeep(p, size, m[k]) && (j == k ==> w == m[k]) && !(p.Count? && p.max == 1)
    ensures Inserts(p, size, m, j, w, c') && k in c' && c'[k] == m[k]
  {
    if p.Tracked? {
      var all := m[j := w];
      NotOverAlone(p, size, k, m[k]);
      c' := EvictionCanKeep(p, size, all, k);
    } else if |m| == p.MaxSize() {
      var victim := if j == k then k else OtherThan(m, k);
      c' := (m - {victim})[j := w];
    } else {
      c' := m[j := w];
    }
  }

  ghost function OtherThan<K, V>(m: map<K, V>, k: K): (j: K)
    requires k in m && |m| >= 2
    ensures j in m && j != k
  {
    OtherKey(m, k);
    assert |map[k := m[k]]| == 1;
    var j :| j in m && j != k;
    j
  }

  lemma NotOverAlone<K, V>(p: Policy, size: V -> nat, k: K, v: V)
    requires CanKeep(p, size, v)
    ensures !Over(p, size, map[k := v])
  {
    TotalSizeUpdate(size, map[], k, v);
    assert map[][k := v] == map[k := v];
    assert |map[k := v]| == 1;
  }

  /** Every insertion has an outcome. */
  lemma InsertionHasOutcome<K(!new), V>(p: Policy, size: V -> nat, c: map<K, V>, k: K, v: V) returns (c': map<K, V>)
    requires Bounded(p, size, c)
    ensures Inserts(p, size, c, k, v, c')
  {
    if CanKeep(p, size, v) {
      c' := InsertionCanKeep(p, size, c, k, v);
    } else if p.MaxSize() == 0 {
      c' := c;
    } else {
      c' := map[];
      TotalSizeUpdate(size, map[], k, v);
      assert map[][k := c[k := v][k]] == map[][k := v];
      assert |map[][k := v]| == 1;
      assert EvictedLast(p, size, c[k := v], c', k);
    }
  }

  lemma InsertsAllLast<K(!new), V(!new)>(p: Policy, size: V -> nat, c: map<K, V>, kvs: seq<(K, V)>, mid: map<K, V>, c': map<K, V>)
    requires kvs != [] && Bounded(p, size, mid)
    requires InsertsAll(p, size, c, kvs[..|kvs| - 1], mid) && Inserts(p, size, mid, kvs[|kvs| - 1].0, kvs[|kvs| - 1].1, c')
    ensures InsertsAll(p, size, c, kvs, c') && Bounded(p, size, c')
  {
    InsertsSubmap(p, size, mid, kvs[|kvs| - 1].0, kvs[|kvs| - 1].1, c');
  }

  lemma {:induction false} SeriesHasOutcome<K(!new), V(!new)>(p: Policy, size: V -> nat, c: map<K, V>, kvs: seq<(K, V)>) returns (c': map<K, V>)
    requires Bounded(p, size, c)
    ensures InsertsAll(p, size, c, kvs, c') && Bounded(p, size, c')
    decreases |kvs|
  {
    if kvs == [] {
      c' := c;
    } else {
      var n := |kvs| - 1;
      var mid := SeriesHasOutcome(p, size, c, kvs[..n]);
      c' := InsertionHasOutcome(p, size, mid, kvs[n].0, kvs[n].1);
      InsertsAllLast(p, size, c, kvs, mid, c');
    }
  }

  /** An entry that may stay does so in some outcome of the series. */
  lemma {:induction false} SeriesCanKeep<K(!new), V(!new)>(p: Policy, size: V -> nat, c: map<K, V>, kvs: seq<(K, V)>, i: nat) returns (c': map<K, V>)
    requires Bounded(p, size, c) && i < |kvs| && MayStay(p, size, kvs, i)
    requires forall j :: i < j < |kvs| && kvs[j].0 == kvs[i].0 ==> kvs[j].1 == kvs[i].1
    ensures InsertsAll(p, size, c, kvs, c') && Bounded(p, size, c') && kvs[i].0 in c' && c'[kvs[i].0] == kvs[i].1
    decreases |kvs|
  {
    var n := |kvs| - 1;
    var mid: map<K, V>;
    if i == n {
      mid := SeriesHasOutcome(p, size, c, kvs[..n]);
      c' := InsertionCanKeep(p, size, mid, kvs[n].0, kvs[n].1);
    } else {
      mid := SeriesCanKeep(p, size, c, kvs[..n], i);
      c' := InsertionCanSpare(p, size, mid, kvs[i].0, kvs[n].0, kvs[n].1);
    }
    InsertsAllLast(p, size, c, kvs, mid, c');
  }

  lemma SeriesCanEnd<K(!new), V(!new)>(p: Policy, size: V -> nat, c: map<K, V>, kvs: seq<(K, V)>, k: K, v: V) returns (c': map<K, V>)
    requires Bounded(p, size, c) && MayEnd(p, size, kvs, k, v)
    ensures InsertsAll(p, size, c, kvs, c') && k in c' && c'[k] == v
  {
    var i :| 0 <= i < |kvs| && kvs[i] == (k, v) && MayStay(p, size, kvs, i) && LastOfKey(kvs, i);
    c' := SeriesCanKeep(p, size, c, kvs, i);
  }

  /** There is room for the insertion that leads from `before` to `after` in a plain map. */
  ghost predicate HasRoom<K, V>(p: Policy, size: V -> nat, before: map<K, V>, after: map<K, V>) {
    match p
    case Empty => false
    case Count(max) => |before| < max
    case Tracked(max, minItems) => max > 0 && (TotalSize(size, after) <= max || |after| <= minItems)
  }

  /** There is room for each insertion of a series, one after the other. */
  ghost predicate RoomAllAlong<K, V>(p: Policy, size: V -> nat, c: map<K, V>, kvs: seq<(K, V)>)
    decreases |kvs|
  {
    kvs == [] ||
    (RoomAllAlong(p, size, c, kvs[..|kvs| - 1]) && HasRoom(p, size, PutAll(c, kvs[..|kvs| - 1]), PutAll(c, kvs)))
  }

  /** Such a series evicts nothing. */
  lemma {:induction false} SeriesKeepsAll<K(!new), V(!new)>(p: Policy, size: V -> nat, c: map<K, V>, kvs: seq<(K, V)>, c': map<K, V>)
    requires InsertsAll(p, size, c, kvs, c') && RoomAllAlong(p, size, c, kvs)
    ensures c' == PutAll(c, kvs)
    decreases |kvs|
  {
    if kvs != [] {
      var n := |kvs| - 1;
      var mid: map<K, V> :| InsertsAll(p, size, c, kvs[..n], mid) && Inserts(p, size, mid, kvs[n].0, kvs[n].1, c');
      SeriesKeepsAll(p, size, c, kvs[..n], mid);
      KeepsWithRoom(p, size, mid, kvs[n].0, kvs[n].1, c');
    }
  }

  lemma KeepsWithRoom<K(!new), V>(p: Policy, size: V -> nat, c: map<K, V>, k: K, v: V, c': map<K, V>)
    requires Inserts(p, size, c, k, v, c') && HasRoom(p, size, c, c[k := v])
    ensures c' == c[k := v]
  {
    if p.Tracked? && c' != c[k := v] {
      var j :| EvictedLast(p, size, c[k := v], c', j);
      OverMonotone(p, size, c'[j := c[k := v][j]], c[k := v]);
    }
  }

  /** Removing entries keeps a cache within its bounds. */
  lemma RemovalBounded<K, V>(p: Policy, size: V -> nat, c: map<K, V>, k: K)
    requires Bounded(p, size, c)
    ensures Bounded(p, size, c - {k})
  {
    if k in c {
      Shrinks(c, k);
      TotalSizeSplit(size, c, k);
    } else {
      assert c - {k} == c;
    }
  }

  // ------------------------------------------------------------------ class

  /** An arbitrary entry: the random index of the source. */
  method PickKey<K, V>(m: map<K, V>) returns (k: K)
    requires |m| > 0
    ensures k in m
  {
    assert m.Keys != {} by {
      assert |m.Keys| == |m|;
    }
    k :| k in m.Keys;
  }

  lemma DropsLast<K, V>(p: Policy, size: V -> nat, full: map<K, V>, m: map<K, V>, k: K)
    requires Submap(m, full) && k in m && Over(p, size, m)
    ensures Submap(m - {k}, full) && EvictedLast(p, size, full, m - {k}, k)
  {
    assert (m - {k})[k := full[k]] == m;
  }

  class Cache<K(==,!new), V(!new)> {
    const policy: Policy
    const size: V -> nat
    var entries: map<K, V>
    var trackedSize: nat

    /** The tracked size is the sum of the sizes held, and the policy's bounds hold. */
    ghost predicate Valid()
      reads this
    {
      && Bounded(policy, size, entries)
      && trackedSize == (if policy.Tracked? then TotalSize(size, entries) else 0)
    }

    constructor (policy: Policy, size: V -> nat)
      ensures Valid() && entries == map[] && this.policy == policy && this.size == size
    {
      this.policy := policy;
      this.size := size;
      entries := map[];
      trackedSize := 0;
    }

    method TrackedEvict()
      requires policy.Tracked? && trackedSize == TotalSize(size, entries)
      modifies this
      ensures Evicts(policy, size, old(entries), entries)
      ensures EvictedAsOwed(policy, size, old(entries), entries)
      ensures trackedSize == TotalSize(size, entries)
    {
      ghost var full := entries;
      ghost var dropped: seq<K> := [];
      while trackedSize > policy.max && |entries| > policy.minItems
        invariant trackedSize == TotalSize(size, entries)
        invariant Submap(entries, full)
        invariant dropped == [] ==> entries == full
        invariant dropped != [] ==> EvictedLast(policy, size, full, entries, dropped[0])
        decreases |entries|
      {
        var k := PickKey(entries);
        TotalSizeSplit(size, entries, k);
        Shrinks(entries, k);
        DropsLast(policy, size, full, entries, k);
        trackedSize := trackedSize - size(entries[k]);
        entries := entries - {k};
        dropped := [k];
      }
      assert !Over(policy, size, entries);
      EvictsAsOwed(policy, size, full, entries);
    }

    method Insert(k: K, v: V)
      requires Valid()
      modifies this
      ensures Valid() && Inserts(policy, size, old(entries), k, v, entries)
      ensures policy.Tracked? ==> TotalSize(size, entries) <= policy.max || |entries| <= policy.minItems
      ensures policy.Tracked? && policy.max > 0 ==> EvictedAsOwed(policy, size, old(entries)[k := v], entries)
    {
      if policy.MaxSize() == 0 {
        return;
      }
      if policy.Tracked? {
        TotalSizeUpdate(size, entries, k, v);
        trackedSize := trackedSize + size(v);
        var removed := k in entries;
        if removed {
          TotalSizeSplit(size, entries, k);
          trackedSize := trackedSize - size(entries[k]);
        }
        entries := entries[k := v];
        TrackedEvict();
      } else {
        ghost var before := entries;
        if |entries| == policy.MaxSize() {
          var victim := PickKey(entries);
          entries := entries - {victim};
        }
        entries := entries[k := v];
        InsertsSubmap(policy, size, before, k, v, entries);
      }
    }

    method InsertMany(kvs: seq<(K, V)>)
      requires Valid()
      modifies this
      ensures Valid() && InsertsAll(policy, size, old(entries), kvs, entries)
      ensures policy.Tracked? ==> TotalSize(size, entries) <= policy.max || |entries| <= policy.minItems
      ensures RoomAllAlong(policy, size, old(entries), kvs) ==> entries == PutAll(old(entries), kvs)
    {
      ghost var before := entries;
      if policy.MaxSize() == 0 {
        NothingInserted(policy, size, entries, kvs);
        return;
      }
      for i := 0 to |kvs|
        invariant Valid() && InsertsAll(policy, size, old(entries), kvs[..i], entries)
      {
        assert kvs[..i + 1][..i] == kvs[..i];
        Insert(kvs[i].0, kvs[i].1);
      }
      assert kvs[..|kvs|] == kvs;
      if RoomAllAlong(policy, size, before, kvs) {
        SeriesKeepsAll(policy, size, before, kvs, entries);
      }
    }

    method UpdateIfEntryExists(k: K, f: V -> V)
      requires Valid()
      modifies this
      ensures Valid() && Updates(policy, size, old(entries), k, f, entries)
      ensures policy.Tracked? ==> TotalSize(size, entries) <= policy.max || |entries| <= policy.minItems
      ensures policy.Tracked? && k in old(entries) ==> EvictedAsOwed(policy, size, old(entries)[k := f(old(entries)[k])], entries)
    {
      if policy.MaxSize() == 0 {
        return;
      }
      if k in entries {
        var v := f(entries[k]);
        if policy.Tracked? {
          TotalSizeUpdate(size, entries, k, v);
          TotalSizeSplit(size, entries, k);
          trackedSize := trackedSize - size(entries[k]);
          entries := entries[k := v];
          trackedSize := trackedSize + size(v);
          TrackedEvict();
        } else {
          InsertLength(entries, k, v);
          entries := entries[k := v];
        }
      }
    }

    method Remove(k: K)
      requires Valid()
      modifies this
      ensures Valid() && entries == old(entries) - {k}
    {
      if policy.MaxSize() == 0 {
        assert entries - {k} == entries;
        return;
      }
      RemovalBounded(policy, size, entries, k);
      if k in entries {
        if policy.Tracked? {
          TotalSizeSplit(size, entries, k);
          trackedSize := trackedSize - size(entries[k]);
        }
        entries := entries - {k};
      } else {
        assert entries - {k} == entries;
      }
    }

    method RemoveMany(ks: seq<K>)
      requires Valid()
      modifies this
      ensures Valid() && entries == old(entries) - Elems(ks)
    {
      if policy.MaxSize() == 0 {
        assert entries - Elems(ks) == entries;
        return;
      }
      ghost var full := entries;
      for i := 0 to |ks|
        invariant Valid()
        invariant entries == full - Elems(ks[..i])
      {
        RemovePrefix(full, ks, i);
        Remove(ks[i]);
      }
      assert ks[..|ks|] == ks;
    }

    method RemoveAll()
      requires Valid()
      modifies this
      ensures Valid() && entries == map[]
    {
      if policy.MaxSize() == 0 {
        return;
      }
      entries := map[];
      if policy.Tracked? {
        trackedSize := 0;
      }
    }
  }

  lemma {:induction false} NothingInserted<K(!new), V(!new)>(p: Policy, size: V -> nat, c: map<K, V>, kvs: seq<(K, V)>)
    requires p.MaxSize() == 0
    ensures InsertsAll(p, size, c, kvs, c)
    decreases |kvs|
  {
    if kvs != [] {
      NothingInserted(p, size, c, kvs[..|kvs| - 1]);
    }
  }
}
