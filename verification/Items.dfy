/** The single-value stores of database/src/item.rs: a cached record and a cached set,
    each kept by itself in memory and written through a direct or a batch writer. */
module Items {
  import opened Bytes
  import opened Db
  import opened Cache
  import opened WriteBehind
  import SetStore
  import SetAccess

  // ================================================================ the set item

  /** The set item is one bucket with the empty key. */
  type SetConfig<!T(!new)> = SetStore.Config<T>

  datatype SetState<T> = SetState(cached: Option<set<T>>, db: DbMap, pending: seq<WriteOp>) {
    function Overlay(): DbMap {
      ApplyAll(db, pending)
    }
  }

  datatype SetOp<+T> =
    | ReadSet
    | UpdateDirect(added: seq<T>, removed: seq<T>)
    | UpdateStaged(added: seq<T>, removed: seq<T>)
    | CommitSet(n: nat)

  function Stored<T(==,!new)>(cfg: SetConfig<T>, db: DbMap): set<T> {
    SetStore.Members(cfg, db, [])
  }

  /** The operations of one update: all removals, then all additions. */
  function UpdateOps<T(!new)>(cfg: SetConfig<T>, added: seq<T>, removed: seq<T>): seq<WriteOp> {
    Removals(cfg, removed) + Additions(cfg, added)
  }

  function Removals<T(!new)>(cfg: SetConfig<T>, items: seq<T>): seq<WriteOp> {
    seq(|items|, i requires 0 <= i < |items| => DeleteKey(cfg.prefix + [] + cfg.enc(items[i])))
  }

  function Additions<T(!new)>(cfg: SetConfig<T>, items: seq<T>): seq<WriteOp> {
    seq(|items|, i requires 0 <= i < |items| => PutKey(cfg.prefix + [] + cfg.enc(items[i]), []))
  }

  /** The set a call works on: the cached one, or the one it loads. */
  function Loaded<T(==,!new)>(cfg: SetConfig<T>, s: SetState<T>): Found<set<T>> {
    match s.cached
    case Some(c) => Value(c)
    case None => SetStore.Bucket(cfg, s.db, [])
  }

  ghost predicate SetStep<T(!new)>(cfg: SetConfig<T>, s: SetState<T>, op: SetOp<T>, r: Found<set<T>>, s': SetState<T>) {
    match op
    case ReadSet =>
      && r == Loaded(cfg, s)
      && s' == if r.Value? then s.(cached := Some(r.value)) else s
    case UpdateDirect(added, removed) =>
      && r == Updated(Loaded(cfg, s), added, removed)
      && s' == if r.Value? then SetState(Some(r.value), ApplyAll(s.db, UpdateOps(cfg, added, removed)), s.pending) else s
    case UpdateStaged(added, removed) =>
      && r == Updated(Loaded(cfg, s), added, removed)
      && s' == if r.Value? then SetState(Some(r.value), s.db, s.pending + UpdateOps(cfg, added, removed)) else s
    case CommitSet(n) =>
      && n <= |s.pending| && r == Absent
      && s' == SetState(s.cached, ApplyAll(s.db, s.pending[..n]), s.pending[n..])
  }

  function Updated<T(==)>(s: Found<set<T>>, added: seq<T>, removed: seq<T>): Found<set<T>> {
    match s
    case Value(items) => Value(items - Elems(removed) + Elems(added))
    case _ => s
  }

  ghost predicate SetValid<T(!new)>(cfg: SetConfig<T>) {
    cfg.Valid() && cfg.keyLen == 0
  }

  ghost predicate SetGood<T(!new)>(cfg: SetConfig<T>, s: SetState<T>) {
    && SetStore.WellFormed(cfg, s.db)
    && (forall i :: 0 <= i < |s.pending| ==> SetStore.WellFormedOp(cfg, s.pending[i]))
    && (s.cached.None? ==> s.pending == [])
    && (s.cached.Some? ==> s.cached.value == Stored(cfg, s.Overlay()))
  }

  ghost predicate SetRun<T(!new)>(cfg: SetConfig<T>, states: seq<SetState<T>>, ops: seq<SetOp<T>>, results: seq<Found<set<T>>>) {
    && |states| == |ops| + 1 && |results| == |ops|
    && forall i :: 0 <= i < |ops| ==> SetTaken(cfg, states, ops, results, i)
  }

  ghost predicate SetTaken<T(!new)>(cfg: SetConfig<T>, states: seq<SetState<T>>, ops: seq<SetOp<T>>, results: seq<Found<set<T>>>, i: nat)
    requires i < |ops| == |results| && |states| == |ops| + 1
  {
    SetStep(cfg, states[i], ops[i], results[i], states[i + 1])
  }

  /** What a call does to a plain set. */
  function RefCall<T(==)>(s: set<T>, op: SetOp<T>): set<T> {
    match op
    case UpdateDirect(added, removed) => s - Elems(removed) + Elems(added)
    case UpdateStaged(added, removed) => s - Elems(removed) + Elems(added)
    case _ => s
  }

  /** A direct update changes no element that a staged operation touches. */
  ghost predicate SetFits<T(!new)>(cfg: SetConfig<T>, s: SetState<T>, op: SetOp<T>) {
    op.UpdateDirect? ==>
      var now := Stored(cfg, s.Overlay());
      forall t :: Touched(s.pending, SetStore.ItemKey(cfg, [], t)) ==> (t in RefCall(now, op) <==> t in now)
  }

  /** A plain set, taken through the calls. */
  function RefSet<T(==)>(s: set<T>, ops: seq<SetOp<T>>): set<T> {
    if ops == [] then s else RefCall(RefSet(s, ops[..|ops| - 1]), ops[|ops| - 1])
  }

  lemma ElemsExtend<T>(items: seq<T>, n: nat)
    requires |items| == n + 1
    ensures Elems(items) == Elems(items[..n]) + {items[n]}
  {
    assert items == items[..n] + [items[n]];
  }

  lemma RemovalsExtend<T(!new)>(cfg: SetConfig<T>, db: DbMap, items: seq<T>, n: nat)
    requires |items| == n + 1
    ensures ApplyAll(db, Removals(cfg, items)) == Apply(ApplyAll(db, Removals(cfg, items[..n])), DeleteKey(cfg.prefix + [] + cfg.enc(items[n])))
  {
    assert Removals(cfg, items)[..n] == Removals(cfg, items[..n]);
  }

  lemma AdditionsExtend<T(!new)>(cfg: SetConfig<T>, db: DbMap, items: seq<T>, n: nat)
    requires |items| == n + 1
    ensures ApplyAll(db, Additions(cfg, items)) == Apply(ApplyAll(db, Additions(cfg, items[..n])), PutKey(cfg.prefix + [] + cfg.enc(items[n]), []))
  {
    assert Additions(cfg, items)[..n] == Additions(cfg, items[..n]);
  }

  lemma RemovalStored<T(!new)>(cfg: SetConfig<T>, db: DbMap, item: T)
    requires SetValid(cfg) && SetStore.WellFormed(cfg, db)
    ensures var op := DeleteKey(cfg.prefix + [] + cfg.enc(item));
            && SetStore.WellFormed(cfg, Apply(db, op)) && Stored(cfg, Apply(db, op)) == Stored(cfg, db) - {item}
  {
    var m := SetStore.Delete([], item);
    ApplyOne(db, DeleteKey(cfg.prefix + [] + cfg.enc(item)));
    SetStore.MutationKeepsWellFormed(cfg, db, m);
    SetStore.MutationRefines(cfg, db, m, []);
  }

  lemma {:induction false} RemovalsStored<T(!new)>(cfg: SetConfig<T>, db: DbMap, items: seq<T>)
    requires SetValid(cfg) && SetStore.WellFormed(cfg, db)
    ensures SetStore.WellFormed(cfg, ApplyAll(db, Removals(cfg, items)))
    ensures Stored(cfg, ApplyAll(db, Removals(cfg, items))) == Stored(cfg, db) - Elems(items)
  {
    if items == [] {
      assert Removals(cfg, items) == [];
    } else {
      var n := |items| - 1;
      RemovalsStored(cfg, db, items[..n]);
      RemovalStored(cfg, ApplyAll(db, Removals(cfg, items[..n])), items[n]);
      RemovalsExtend(cfg, db, items, n);
      ElemsExtend(items, n);
    }
  }

  lemma AdditionStored<T(!new)>(cfg: SetConfig<T>, db: DbMap, item: T)
    requires SetValid(cfg) && SetStore.WellFormed(cfg, db)
    ensures var op := PutKey(cfg.prefix + [] + cfg.enc(item), []);
            && SetStore.WellFormed(cfg, Apply(db, op)) && Stored(cfg, Apply(db, op)) == Stored(cfg, db) + {item}
            && SetStore.WellFormedOp(cfg, op)
  {
    var m := SetStore.Write([], item);
    ApplyOne(db, PutKey(cfg.prefix + [] + cfg.enc(item), []));
    SetStore.MutationKeepsWellFormed(cfg, db, m);
    SetStore.MutationRefines(cfg, db, m, []);
    assert SetStore.WellFormedOp(cfg, SetStore.Emitted(cfg, m)[0]);
  }

  lemma {:induction false} AdditionsStored<T(!new)>(cfg: SetConfig<T>, db: DbMap, items: seq<T>)
    requires SetValid(cfg) && SetStore.WellFormed(cfg, db)
    ensures SetStore.WellFormed(cfg, ApplyAll(db, Additions(cfg, items)))
    ensures Stored(cfg, ApplyAll(db, Additions(cfg, items))) == Stored(cfg, db) + Elems(items)
  {
    if items == [] {
      assert Additions(cfg, items) == [];
    } else {
      var n := |items| - 1;
      AdditionsStored(cfg, db, items[..n]);
      AdditionStored(cfg, ApplyAll(db, Additions(cfg, items[..n])), items[n]);
      AdditionsExtend(cfg, db, items, n);
      ElemsExtend(items, n);
    }
  }

  /** The issued bytes of an update leave (old minus removed) plus added, also for an
      element named in both lists. */
  lemma UpdateStored<T(!new)>(cfg: SetConfig<T>, db: DbMap, added: seq<T>, removed: seq<T>)
    requires SetValid(cfg) && SetStore.WellFormed(cfg, db)
    ensures SetStore.WellFormed(cfg, ApplyAll(db, UpdateOps(cfg, added, removed)))
    ensures Stored(cfg, ApplyAll(db, UpdateOps(cfg, added, removed))) == Stored(cfg, db) - Elems(removed) + Elems(added)
    ensures forall i :: 0 <= i < |UpdateOps(cfg, added, removed)| ==> SetStore.WellFormedOp(cfg, UpdateOps(cfg, added, removed)[i])
  {
    ApplyAllConcat(db, Removals(cfg, removed), Additions(cfg, added));
    RemovalsStored(cfg, db, removed);
    AdditionsStored(cfg, ApplyAll(db, Removals(cfg, removed)), added);
    forall i | 0 <= i < |UpdateOps(cfg, added, removed)|
      ensures SetStore.WellFormedOp(cfg, UpdateOps(cfg, added, removed)[i])
    {
      if i >= |removed| {
        AdditionStored(cfg, db, added[i - |removed|]);
      }
    }
  }

  lemma SetStepKeepsGood<T(!new)>(cfg: SetConfig<T>, s: SetState<T>, op: SetOp<T>, r: Found<set<T>>, s': SetState<T>)
    requires SetValid(cfg) && SetGood(cfg, s) && SetStep(cfg, s, op, r, s') && SetFits(cfg, s, op)
    ensures SetGood(cfg, s')
    ensures Stored(cfg, s'.Overlay()) == RefCall(Stored(cfg, s.Overlay()), op)
    ensures !op.CommitSet? ==> r == Value(Stored(cfg, s'.Overlay()))
  {
    LoadedIsStored(cfg, s);
    match op
    case ReadSet =>
    case UpdateDirect(added, removed) =>
      DirectUpdateExactly(cfg, s, added, removed, s');
      DirectKeepsWellFormed(cfg, s, added, removed, s');
    case UpdateStaged(added, removed) =>
      StagedKeepsGood(cfg, s, added, removed, r.value, s');
    case CommitSet(n) =>
      CommitKeepsGood(cfg, s, n, s');
  }

  lemma LoadedIsStored<T(!new)>(cfg: SetConfig<T>, s: SetState<T>)
    requires SetValid(cfg) && SetGood(cfg, s)
    ensures Loaded(cfg, s) == Value(Stored(cfg, s.Overlay()))
  {
    if s.cached.None? { SetStore.BucketReadable(cfg, s.db, []); }
  }

  ghost predicate DirectlyUpdated<T(!new)>(cfg: SetConfig<T>, s: SetState<T>, added: seq<T>, removed: seq<T>, s': SetState<T>) {
    s'.db == ApplyAll(s.db, UpdateOps(cfg, added, removed)) && s'.pending == s.pending
  }

  lemma DirectKeepsWellFormed<T(!new)>(cfg: SetConfig<T>, s: SetState<T>, added: seq<T>, removed: seq<T>, s': SetState<T>)
    requires SetValid(cfg) && SetGood(cfg, s) && DirectlyUpdated(cfg, s, added, removed, s')
    ensures SetStore.WellFormed(cfg, s'.db) && SetStore.WellFormed(cfg, s.Overlay()) && SetStore.WellFormed(cfg, s'.Overlay())
  {
    UpdateStored(cfg, s.db, added, removed);
    SetStore.OpsKeepWellFormed(cfg, s.db, s.pending);
    SetStore.OpsKeepWellFormed(cfg, s'.db, s.pending);
  }

  lemma DirectOnElement<T(!new)>(cfg: SetConfig<T>, s: SetState<T>, added: seq<T>, removed: seq<T>, s': SetState<T>, t: T)
    requires SetValid(cfg) && SetGood(cfg, s) && DirectlyUpdated(cfg, s, added, removed, s')
    ensures t in Stored(cfg, s'.Overlay()) <==>
            if Touched(s.pending, SetStore.ItemKey(cfg, [], t)) then t in Stored(cfg, s.Overlay())
            else t in Stored(cfg, s.Overlay()) - Elems(removed) + Elems(added)
  {
    DirectKeepsWellFormed(cfg, s, added, removed, s');
    UpdateStored(cfg, s.Overlay(), added, removed);
    DirectUnderBatch(s.db, UpdateOps(cfg, added, removed), s.pending, SetStore.ItemKey(cfg, [], t));
    SetStore.MemberIff(cfg, s'.Overlay(), [], t);
    SetStore.MemberIff(cfg, s.Overlay(), [], t);
    SetStore.MemberIff(cfg, ApplyAll(s.Overlay(), UpdateOps(cfg, added, removed)), [], t);
  }

  /** A direct update, whatever is staged, does to the pending set what it does to a plain set if
      and only if it changes no element that a staged operation touches. */
  lemma DirectUpdateExactly<T(!new)>(cfg: SetConfig<T>, s: SetState<T>, added: seq<T>, removed: seq<T>, s': SetState<T>)
    requires SetValid(cfg) && SetGood(cfg, s) && DirectlyUpdated(cfg, s, added, removed, s')
    ensures Stored(cfg, s'.Overlay()) == Stored(cfg, s.Overlay()) - Elems(removed) + Elems(added) <==>
            SetFits(cfg, s, UpdateDirect(added, removed))
  {
    var now, next, ref := Stored(cfg, s.Overlay()), Stored(cfg, s'.Overlay()), Stored(cfg, s.Overlay()) - Elems(removed) + Elems(added);
    if SetFits(cfg, s, UpdateDirect(added, removed)) {
      forall t ensures t in next <==> t in ref {
        DirectOnElement(cfg, s, added, removed, s', t);
      }
    } else {
      var t :| Touched(s.pending, SetStore.ItemKey(cfg, [], t)) && !(t in ref <==> t in now);
      DirectOnElement(cfg, s, added, removed, s', t);
    }
  }

  lemma StagedKeepsGood<T(!new)>(cfg: SetConfig<T>, s: SetState<T>, added: seq<T>, removed: seq<T>, c: set<T>, s': SetState<T>)
    requires SetValid(cfg) && SetGood(cfg, s) && c == Stored(cfg, s.Overlay()) - Elems(removed) + Elems(added)
    requires s' == SetState(Some(c), s.db, s.pending + UpdateOps(cfg, added, removed))
    ensures SetGood(cfg, s') && Stored(cfg, s'.Overlay()) == c
  {
    SetStore.OpsKeepWellFormed(cfg, s.db, s.pending);
    UpdateStored(cfg, s.Overlay(), added, removed);
    ApplyAllConcat(s.db, s.pending, UpdateOps(cfg, added, removed));
  }

  lemma CommitKeepsGood<T(!new)>(cfg: SetConfig<T>, s: SetState<T>, n: nat, s': SetState<T>)
    requires SetGood(cfg, s) && n <= |s.pending|
    requires s' == SetState(s.cached, ApplyAll(s.db, s.pending[..n]), s.pending[n..])
    ensures SetGood(cfg, s') && s'.Overlay() == s.Overlay()
  {
    CommitKeepsOverlay(s.db, s.pending, n);
    SetStore.OpsKeepWellFormed(cfg, s.db, s.pending[..n]);
  }

  /** The set item needs no side condition on reads and staged updates: in every run of reads,
      updates and in-order commits whose direct updates fit, the cached set is the committed set
      overlaid with everything staged, and every call answers with the plain set taken through
      the same calls. */
  lemma {:induction false} SetItemAlwaysExact<T(!new)>(cfg: SetConfig<T>, states: seq<SetState<T>>, ops: seq<SetOp<T>>, results: seq<Found<set<T>>>, n: nat)
    requires SetValid(cfg) && SetRun(cfg, states, ops, results) && SetGood(cfg, states[0]) && n <= |ops|
    requires forall i {:trigger ops[i]} :: 0 <= i < |ops| ==> SetFits(cfg, states[i], ops[i])
    ensures SetGood(cfg, states[n])
    ensures Stored(cfg, states[n].Overlay()) == RefSet(Stored(cfg, states[0].Overlay()), ops[..n])
    ensures n > 0 && !ops[n - 1].CommitSet? ==> results[n - 1] == Value(RefSet(Stored(cfg, states[0].Overlay()), ops[..n]))
    decreases n
  {
    if n > 0 {
      SetItemAlwaysExact(cfg, states, ops, results, n - 1);
      SetStepAt(cfg, states, ops, results, n - 1);
      RefSetExtend(Stored(cfg, states[0].Overlay()), ops, n - 1);
    }
  }

  lemma SetStepAt<T(!new)>(cfg: SetConfig<T>, states: seq<SetState<T>>, ops: seq<SetOp<T>>, results: seq<Found<set<T>>>, i: nat)
    requires SetValid(cfg) && SetRun(cfg, states, ops, results) && i < |ops| && SetGood(cfg, states[i]) && SetFits(cfg, states[i], ops[i])
    ensures SetGood(cfg, states[i + 1])
    ensures Stored(cfg, states[i + 1].Overlay()) == RefCall(Stored(cfg, states[i].Overlay()), ops[i])
    ensures !ops[i].CommitSet? ==> results[i] == Value(Stored(cfg, states[i + 1].Overlay()))
  {
    assert SetTaken(cfg, states, ops, results, i);
    SetStepKeepsGood(cfg, states[i], ops[i], results[i], states[i + 1]);
  }

  lemma RefSetExtend<T>(s: set<T>, ops: seq<SetOp<T>>, n: nat)
    requires n < |ops|
    ensures RefSet(s, ops[..n + 1]) == RefCall(RefSet(s, ops[..n]), ops[n])
  {
    TakeMore(ops, n);
  }

  class CachedDbSetItem<T(==,!new)> {
    const cfg: SetConfig<T>
    const db: Database
    var cachedSet: Option<set<T>>

    constructor (cfg: SetConfig<T>, db: Database)
      ensures this.cfg == cfg && this.db == db && cachedSet == None
    {
      this.cfg := cfg;
      this.db := db;
      cachedSet := None;
    }

    ghost function Now(w: Writer): SetState<T>
      reads this, db, w.Target()
    {
      SetState(cachedSet, db.contents, Ops(w))
    }

    /** The state with the given operations staged elsewhere. */
    ghost function With(pending: seq<WriteOp>): SetState<T>
      reads this, db
    {
      SetState(cachedSet, db.contents, pending)
    }

    method ReadLockedSet() returns (r: Found<set<T>>)
      modifies this
      ensures forall pending :: SetStep(cfg, old(With(pending)), ReadSet, r, With(pending))
    {
      if cachedSet.Some? {
        return Value(cachedSet.value);
      }
      r := SetAccess.CollectBucket(cfg, db, []);
      if r.Value? {
        cachedSet := Some(r.value);
      }
    }

    /** The first loop of an update: takes the removed elements out of the database
        (or into the batch) and out of the set. */
    method RemoveItems(w: Writer, s0: set<T>, removed: seq<T>) returns (s: set<T>)
      modifies w.Target()
      ensures s == s0 - Elems(removed)
      ensures Issued(w, old(Contents(w)), old(Ops(w)), Removals(cfg, removed))
    {
      s := s0;
      ghost var ops := Removals(cfg, removed);
      for i := 0 to |removed|
        invariant Issued(w, old(Contents(w)), old(Ops(w)), ops[..i]) && s == s0 - Elems(removed[..i])
      {
        TakeMore(ops, i);
        TakeMore(removed, i);
        w.Issue(DeleteKey(cfg.prefix + [] + cfg.enc(removed[i])));
        s := s - {removed[i]};
      }
      TakeAll(ops);
      TakeAll(removed);
    }

    /** The second loop of an update. */
    method AddItems(w: Writer, s0: set<T>, added: seq<T>) returns (s: set<T>)
      modifies w.Target()
      ensures s == s0 + Elems(added)
      ensures Issued(w, old(Contents(w)), old(Ops(w)), Additions(cfg, added))
    {
      s := s0;
      ghost var ops := Additions(cfg, added);
      for i := 0 to |added|
        invariant Issued(w, old(Contents(w)), old(Ops(w)), ops[..i]) && s == s0 + Elems(added[..i])
      {
        TakeMore(ops, i);
        TakeMore(added, i);
        w.Issue(PutKey(cfg.prefix + [] + cfg.enc(added[i]), []));
        s := s + {added[i]};
      }
      TakeAll(ops);
      TakeAll(added);
    }

    method Update(w: Writer, added: seq<T>, removed: seq<T>) returns (r: Found<set<T>>)
      requires w.DirectWriter? ==> w.db == db
      modifies this, w.Target()
      ensures SetStep(cfg, old(Now(w)), if w.DirectWriter? then UpdateDirect(added, removed) else UpdateStaged(added, removed), r, Now(w))
    {
      r := ReadLockedSet();
      assert SetStep(cfg, old(With([])), ReadSet, r, With([]));
      if r.Value? {
        var s := Apply(w, r.value, added, removed);
        cachedSet := Some(s);
        r := Value(s);
      }
    }

    /** Both loops of an update. */
    method Apply(w: Writer, s0: set<T>, added: seq<T>, removed: seq<T>) returns (s: set<T>)
      modifies w.Target()
      ensures s == s0 - Elems(removed) + Elems(added)
      ensures Issued(w, old(Contents(w)), old(Ops(w)), UpdateOps(cfg, added, removed))
    {
      ApplyAllConcat(Contents(w), Removals(cfg, removed), Additions(cfg, added));
      s := RemoveItems(w, s0, removed);
      s := AddItems(w, s, added);
    }
  }

  // ============================================================ the record item

  datatype ItemConfig<!V(!new)> = ItemConfig(key: Bytes, enc: V -> Bytes, dec: Bytes -> Option<V>) {
    ghost predicate Valid() {
      forall v :: dec(enc(v)) == Some(v)
    }

    function Lookup(db: DbMap): Found<V> {
      if key !in db then Absent
      else match dec(db[key])
           case Some(v) => Value(v)
           case None => Corrupt
    }
  }

  datatype ItemState<+V> = ItemState(cached: Option<V>, db: DbMap, pending: seq<WriteOp>) {
    function Overlay(): DbMap {
      ApplyAll(db, pending)
    }
  }

  datatype ItemOp<!V> =
    | ReadItem
    | WriteItem(item: V)
    | RemoveItem
    | UpdateItem(f: V -> V)
    | CommitItem(n: nat)

  function LoadedItem<V(!new)>(cfg: ItemConfig<V>, s: ItemState<V>): Found<V> {
    match s.cached
    case Some(v) => Value(v)
    case None => cfg.Lookup(s.db)
  }

  function Emit<V>(s: ItemState<V>, direct: bool, op: WriteOp): ItemState<V> {
    if direct then s.(db := Apply(s.db, op)) else s.(pending := s.pending + [op])
  }

  /** One call through a direct or a batch writer. */
  ghost predicate ItemStep<V(!new)>(cfg: ItemConfig<V>, s: ItemState<V>, direct: bool, op: ItemOp<V>, r: Found<V>, s': ItemState<V>) {
    match op
    case ReadItem =>
      && r == LoadedItem(cfg, s)
      && s' == if r.Value? then s.(cached := Some(r.value)) else s
    case WriteItem(v) => r == Value(v) && s' == Emit(s, direct, PutKey(cfg.key, cfg.enc(v))).(cached := Some(v))
    case RemoveItem => r == Absent && s' == Emit(s, direct, DeleteKey(cfg.key)).(cached := None)
    case UpdateItem(f) =>
      var loaded := LoadedItem(cfg, s);
      if !loaded.Value? then r == loaded && s' == s
      else
        var v := f(loaded.value);
        r == Value(v) && s' == Emit(s, direct, PutKey(cfg.key, cfg.enc(v))).(cached := Some(v))
    case CommitItem(n) =>
      && n <= |s.pending| && r == Absent
      && s' == ItemState(s.cached, ApplyAll(s.db, s.pending[..n]), s.pending[n..])
  }

  ghost predicate ItemGood<V(!new)>(cfg: ItemConfig<V>, s: ItemState<V>) {
    s.cached.Some? ==> cfg.Lookup(s.Overlay()) == Value(s.cached.value)
  }

  /** Nothing is cached and the committed record is not the one staged operations lead to. */
  ghost predicate Outdated<V(!new)>(cfg: ItemConfig<V>, s: ItemState<V>) {
    s.cached.None? && cfg.Lookup(s.db) != cfg.Lookup(s.Overlay())
  }

  ghost predicate AsksOutdated<V(!new)>(cfg: ItemConfig<V>, s: ItemState<V>, op: ItemOp<V>) {
    (op.ReadItem? || op.UpdateItem?) && Outdated(cfg, s)
  }

  /** What a plain cell holding `cell` does. */
  function RefCell<V(!new)>(cell: Found<V>, op: ItemOp<V>): Found<V> {
    match op
    case WriteItem(v) => Value(v)
    case RemoveItem => Absent
    case UpdateItem(f) => if cell.Value? then Value(f(cell.value)) else cell
    case _ => cell
  }

  /** A direct call writes the very record that staged operations on the item's key, if there
      are any, lead to. */
  ghost predicate ItemFits<V(!new)>(cfg: ItemConfig<V>, s: ItemState<V>, direct: bool, op: ItemOp<V>) {
    direct && Touched(s.pending, cfg.key) ==>
      var pending := cfg.Lookup(s.Overlay());
      match op
      case WriteItem(v) => pending == Value(v)
      case RemoveItem => pending == Absent
      case UpdateItem(f) =>
        var loaded := LoadedItem(cfg, s);
        loaded.Value? ==> pending == Value(f(loaded.value))
      case _ => true
  }

  /** A direct operation counts as the last one unless a staged operation touches the item's key
      and leaves another record. */
  lemma EmitLookup<V(!new)>(cfg: ItemConfig<V>, s: ItemState<V>, direct: bool, op: WriteOp)
    ensures var next := cfg.Lookup(Apply(s.Overlay(), op));
            cfg.Lookup(Emit(s, direct, op).Overlay()) == next <==>
            (direct && Touched(s.pending, cfg.key) ==> cfg.Lookup(s.Overlay()) == next)
  {
    ApplyOne(s.Overlay(), op);
    if direct {
      ApplyOne(s.db, op);
      DirectUnderBatch(s.db, [op], s.pending, cfg.key);
    } else {
      ApplyAllConcat(s.db, s.pending, [op]);
    }
  }

  /** A call that does not find the item outdated, direct or staged, does to the pending record
      what it does to a plain cell if and only if it fits. */
  lemma ItemFitsExactly<V(!new)>(cfg: ItemConfig<V>, s: ItemState<V>, direct: bool, op: ItemOp<V>, r: Found<V>, s': ItemState<V>)
    requires cfg.Valid() && ItemGood(cfg, s) && ItemStep(cfg, s, direct, op, r, s') && !AsksOutdated(cfg, s, op)
    ensures cfg.Lookup(s'.Overlay()) == RefCell(cfg.Lookup(s.Overlay()), op) <==> ItemFits(cfg, s, direct, op)
  {
    match op
    case ReadItem =>
    case WriteItem(v) => EmitLookup(cfg, s, direct, PutKey(cfg.key, cfg.enc(v)));
    case RemoveItem => EmitLookup(cfg, s, direct, DeleteKey(cfg.key));
    case UpdateItem(f) =>
      var loaded := LoadedItem(cfg, s);
      if loaded.Value? { EmitLookup(cfg, s, direct, PutKey(cfg.key, cfg.enc(f(loaded.value)))); }
    case CommitItem(n) => CommitKeepsOverlay(s.db, s.pending, n);
  }

  /** For the record item the side condition is exact, call by call. In a good state, for calls
      that fit: a read keeps the cached record equal to the pending one iff the item is not
      outdated or holds no readable committed record; every other call always does. A read
      answers with the pending record iff the item is not outdated, and every call but a read
      or an update of an outdated item does to the pending record what it does to a plain cell. */
  lemma ItemStepExactly<V(!new)>(cfg: ItemConfig<V>, s: ItemState<V>, direct: bool, op: ItemOp<V>, r: Found<V>, s': ItemState<V>)
    requires cfg.Valid() && ItemGood(cfg, s) && ItemFits(cfg, s, direct, op) && ItemStep(cfg, s, direct, op, r, s')
    ensures ItemGood(cfg, s') <==> !(op.ReadItem? && Outdated(cfg, s) && cfg.Lookup(s.db).Value?)
    ensures op.ReadItem? ==> (r == cfg.Lookup(s.Overlay()) <==> !Outdated(cfg, s))
    ensures !AsksOutdated(cfg, s, op) ==> cfg.Lookup(s'.Overlay()) == RefCell(cfg.Lookup(s.Overlay()), op)
    ensures !AsksOutdated(cfg, s, op) && !op.CommitItem? ==> r == cfg.Lookup(s'.Overlay())
  {
    match op
    case ReadItem =>
    case WriteItem(v) => EmitLookup(cfg, s, direct, PutKey(cfg.key, cfg.enc(v)));
    case RemoveItem => EmitLookup(cfg, s, direct, DeleteKey(cfg.key));
    case UpdateItem(f) =>
      var loaded := LoadedItem(cfg, s);
      if loaded.Value? { EmitLookup(cfg, s, direct, PutKey(cfg.key, cfg.enc(f(loaded.value)))); }
    case CommitItem(n) => CommitKeepsOverlay(s.db, s.pending, n);
  }

  ghost predicate ItemRun<V(!new)>(cfg: ItemConfig<V>, states: seq<ItemState<V>>, direct: seq<bool>, ops: seq<ItemOp<V>>, results: seq<Found<V>>) {
    && |states| == |ops| + 1 && |direct| == |results| == |ops|
    && forall i {:trigger ops[i]} :: 0 <= i < |ops| ==> ItemStep(cfg, states[i], direct[i], ops[i], results[i], states[i + 1])
  }

  function RefCells<V(!new)>(cell: Found<V>, ops: seq<ItemOp<V>>): Found<V> {
    if ops == [] then cell else RefCell(RefCells(cell, ops[..|ops| - 1]), ops[|ops| - 1])
  }

  /** Over every run of fitting calls in which no read or update finds the item outdated, the
      record item is a plain cell: the cached record is the pending one and every call answers with it. */
  lemma {:induction false} RecordItemExact<V(!new)>(cfg: ItemConfig<V>, states: seq<ItemState<V>>, direct: seq<bool>, ops: seq<ItemOp<V>>,
                                                    results: seq<Found<V>>, n: nat)
    requires cfg.Valid() && ItemRun(cfg, states, direct, ops, results) && ItemGood(cfg, states[0]) && n <= |ops|
    requires forall i :: 0 <= i < |ops| ==> !AsksOutdated(cfg, states[i], ops[i]) && ItemFits(cfg, states[i], direct[i], ops[i])
    ensures ItemGood(cfg, states[n])
    ensures cfg.Lookup(states[n].Overlay()) == RefCells(cfg.Lookup(states[0].Overlay()), ops[..n])
    ensures n > 0 && !ops[n - 1].CommitItem? ==> results[n - 1] == RefCells(cfg.Lookup(states[0].Overlay()), ops[..n])
    decreases n
  {
    if n > 0 {
      RecordItemExact(cfg, states, direct, ops, results, n - 1);
      TakeMore(ops, n - 1);
      ItemStepExactly(cfg, states[n - 1], direct[n - 1], ops[n - 1], results[n - 1], states[n]);
    }
  }

  class CachedDbItem<V(!new)> {
    const cfg: ItemConfig<V>
    const db: Database
    var cachedItem: Option<V>

    constructor (cfg: ItemConfig<V>, db: Database)
      ensures this.cfg == cfg && this.db == db && cachedItem == None
    {
      this.cfg := cfg;
      this.db := db;
      cachedItem := None;
    }

    ghost function Now(w: Writer): ItemState<V>
      reads this, db, w.Target()
    {
      ItemState(cachedItem, db.contents, Ops(w))
    }

    /** The state with the given operations staged elsewhere. */
    ghost function With(pending: seq<WriteOp>): ItemState<V>
      reads this, db
    {
      ItemState(cachedItem, db.contents, pending)
    }

    method Read() returns (r: Found<V>)
      modifies this
      ensures forall pending, direct :: ItemStep(cfg, old(With(pending)), direct, ReadItem, r, With(pending))
      ensures r == Absent <==> old(cachedItem).None? && cfg.key !in db.contents
      ensures r == Corrupt <==> old(cachedItem).None? && cfg.key in db.contents && cfg.dec(db.contents[cfg.key]) == None
    {
      if cachedItem.Some? {
        return Value(cachedItem.value);
      }
      r := cfg.Lookup(db.contents);
      if r.Value? {
        cachedItem := Some(r.value);
      }
    }

    method Write(w: Writer, item: V)
      requires w.DirectWriter? ==> w.db == db
      modifies this, w.Target()
      ensures ItemStep(cfg, old(Now(w)), w.DirectWriter?, WriteItem(item), Value(item), Now(w))
    {
      cachedItem := Some(item);
      w.Issue(PutKey(cfg.key, cfg.enc(item)));
    }

    method Remove(w: Writer)
      requires w.DirectWriter? ==> w.db == db
      modifies this, w.Target()
      ensures ItemStep(cfg, old(Now(w)), w.DirectWriter?, RemoveItem, Absent, Now(w))
    {
      cachedItem := None;
      w.Issue(DeleteKey(cfg.key));
    }

    method Update(w: Writer, op: V -> V) returns (r: Found<V>)
      requires w.DirectWriter? ==> w.db == db
      modifies this, w.Target()
      ensures ItemStep(cfg, old(Now(w)), w.DirectWriter?, UpdateItem(op), r, Now(w))
      ensures r == Absent <==> old(cachedItem).None? && cfg.key !in old(db.contents)
      ensures r == Corrupt <==> old(cachedItem).None? && cfg.key in old(db.contents) && cfg.dec(old(db.contents)[cfg.key]) == None
    {
      var item: V;
      if cachedItem.Some? {
        item := cachedItem.value;
        cachedItem := None;
      } else {
        r := cfg.Lookup(db.contents);
        if !r.Value? {
          return;
        }
        item := r.value;
      }
      item := op(item);
      cachedItem := Some(item);
      w.Issue(PutKey(cfg.key, cfg.enc(item)));
      r := Value(item);
    }
  }
}
