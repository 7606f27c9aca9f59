/** The store object of database/src/access.rs: every method is a step of the machine
    in module Store. */
module Access {
  import opened Bytes
  import opened Db
  import opened Cache
  import opened WriteBehind
  import opened Store
  import opened ReadBack

  /** What a slot holds for key k while a multi-read is under way. */
  ghost predicate SlotState<V(!new)>(cfg: Config<V>, c: map<Bytes, V>, table: map<Bytes, Bytes>, k: Bytes, fetched: bool, slot: Option<V>) {
    slot == if k in c then Some(c[k]) else if fetched then Slot(cfg, table, k) else None
  }

  /** The state after the cache pass: slots hold the hits, the misses are listed by index and key. */
  ghost predicate Probed<V(!new)>(c: map<Bytes, V>, keys: seq<Bytes>, slots: seq<Option<V>>, missIndices: seq<nat>, missKeys: seq<Bytes>) {
    && |slots| == |keys| && missKeys == MissKeys(c, keys) && |missKeys| == |missIndices|
    && (forall j :: 0 <= j < |missIndices| ==> missIndices[j] < |keys| && keys[missIndices[j]] == missKeys[j])
    && (forall j :: 0 <= j < |keys| ==> slots[j] == (if keys[j] in c then Some(c[keys[j]]) else None))
    && (forall j :: 0 <= j < |keys| && keys[j] !in c ==> j in missIndices)
  }

  ghost predicate SlotStates<V(!new)>(cfg: Config<V>, c: map<Bytes, V>, table: map<Bytes, Bytes>, keys: seq<Bytes>, done: seq<nat>, slots: seq<Option<V>>) {
    |slots| == |keys| && forall j :: 0 <= j < |keys| ==> SlotState(cfg, c, table, keys[j], j in done, slots[j])
  }

  lemma SlotFilled<V(!new)>(cfg: Config<V>, c: map<Bytes, V>, table: map<Bytes, Bytes>, keys: seq<Bytes>, done: seq<nat>, slots: seq<Option<V>>,
                            i: nat, found: Found<V>)
    requires SlotStates(cfg, c, table, keys, done, slots) && i < |keys| && keys[i] !in c
    requires found == Store.Get(cfg, table, keys[i]) && found != Corrupt
    ensures SlotStates(cfg, c, table, keys, done + [i], if found.Value? then slots[i := Some(found.value)] else slots)
  {
    var slots' := if found.Value? then slots[i := Some(found.value)] else slots;
    forall j | 0 <= j < |keys| ensures SlotState(cfg, c, table, keys[j], j in done + [i], slots'[j]) {
      assert SlotState(cfg, c, table, keys[j], j in done, slots[j]);
    }
  }

  lemma SlotsDone<V(!new)>(cfg: Config<V>, c: map<Bytes, V>, table: map<Bytes, Bytes>, keys: seq<Bytes>, missIndices: seq<nat>, slots: seq<Option<V>>)
    requires SlotStates(cfg, c, table, keys, missIndices, slots)
    requires forall j :: 0 <= j < |keys| && keys[j] !in c ==> j in missIndices
    ensures slots == MixedSlots(cfg, c, table, keys)
  {
    var mixed := MixedSlots(cfg, c, table, keys);
    assert |mixed| == |slots|;
    forall j | 0 <= j < |keys| ensures slots[j] == mixed[j] {
      assert SlotState(cfg, c, table, keys[j], j in missIndices, slots[j]);
    }
  }

  /** The state after the fetch pass, which stops where a record fails to decode. */
  ghost predicate Filled<V(!new)>(cfg: Config<V>, c: map<Bytes, V>, table: map<Bytes, Bytes>, keys: seq<Bytes>, missIndices: seq<nat>,
                                  missKeys: seq<Bytes>, ok: bool, filled: seq<Option<V>>, c': map<Bytes, V>)
  {
    && |filled| == |keys| && (ok <==> !Fetched(cfg, table, missKeys).failed)
    && InsertsAll(cfg.policy, cfg.size, c, Fetched(cfg, table, missKeys).items, c')
    && (ok ==> SlotStates(cfg, c, table, keys, missIndices, filled))
  }

  lemma SlotsAreStep<V(!new)>(cfg: Config<V>, c: map<Bytes, V>, table: map<Bytes, Bytes>, keys: seq<Bytes>, missKeys: seq<Bytes>,
                              filled: seq<Option<V>>, c': map<Bytes, V>)
    requires missKeys == MissKeys(c, keys) && |missKeys| <= |keys|
    requires InsertsAll(cfg.policy, cfg.size, c, Fetched(cfg, table, missKeys).items, c')
    ensures !Fetched(cfg, table, missKeys).failed && filled == MixedSlots(cfg, c, table, keys) ==>
              ReadManyStep(cfg, c, table, keys, Slots(filled, |keys| - |missKeys|, |missKeys|), c')
    ensures Fetched(cfg, table, missKeys).failed ==> ReadManyStep(cfg, c, table, keys, DecodeFailed, c')
  {
  }

  lemma FilledIsStep<V(!new)>(cfg: Config<V>, c: map<Bytes, V>, table: map<Bytes, Bytes>, keys: seq<Bytes>, slots: seq<Option<V>>,
                              missIndices: seq<nat>, missKeys: seq<Bytes>, hits: nat, ok: bool, filled: seq<Option<V>>,
                              c': map<Bytes, V>)
    requires Probed(c, keys, slots, missIndices, missKeys) && hits + |missIndices| == |keys|
    requires Filled(cfg, c, table, keys, missIndices, missKeys, ok, filled, c')
    ensures ReadManyStep(cfg, c, table, keys, if ok then Slots(filled, hits, |missIndices|) else DecodeFailed, c')
  {
    if ok {
      SlotsDone(cfg, c, table, keys, missIndices, filled);
    }
    SlotsAreStep(cfg, c, table, keys, missKeys, filled, c');
  }

  class CachedDbAccess<V(!new)> {
    const cfg: Config<V>
    const db: Database
    const cache: Cache<Bytes, V>

    ghost predicate Valid()
      reads cache
    {
      cache.Valid() && cache.policy == cfg.policy && cache.size == cfg.size
    }

    constructor (cfg: Config<V>, db: Database)
      ensures Valid() && this.cfg == cfg && this.db == db && fresh(cache) && cache.entries == map[]
    {
      this.cfg := cfg;
      this.db := db;
      this.cache := new Cache(cfg.policy, cfg.size);
    }

    /** The machine state this object and a writer stand for. */
    ghost function Now(w: Writer): State<V>
      reads cache, db, w.Target()
    {
      State(cache.entries, db.contents, Ops(w))
    }

    /** The machine state with the given operations staged elsewhere. */
    ghost function With(pending: seq<WriteOp>): State<V>
      reads cache, db
    {
      State(cache.entries, db.contents, pending)
    }

    /** A mutation through w, as a call of the machine. */
    static function Call(w: Writer, m: Mutation<V>): Op<V> {
      if w.DirectWriter? then Direct(m) else Stage(m)
    }

    method Read(key: Bytes) returns (r: Found<V>)
      requires Valid()
      modifies cache
      ensures Valid()
      ensures forall pending :: Step(cfg, old(With(pending)), Op.Read(key), One(r), With(pending))
      ensures r == Absent <==> key !in old(cache.entries) && cfg.prefix + key !in db.contents
      ensures r == Corrupt <==>
              key !in old(cache.entries) && cfg.prefix + key in db.contents && cfg.dec(db.contents[cfg.prefix + key]) == None
      ensures forall v :: r == Value(v) <==> Readable(cfg, old(With([])), key, v)
    {
      if key in cache.entries {
        return Value(cache.entries[key]);
      }
      var dbKey := cfg.prefix + key;
      TableLookup(cfg, db.contents, key);
      if dbKey in db.contents {
        match cfg.dec(db.contents[dbKey]) {
          case Some(data) =>
            cache.Insert(key, data);
            r := Value(data);
          case None =>
            r := Corrupt;
        }
      } else {
        r := Absent;
      }
    }

    method Has(key: Bytes) returns (there: bool)
      requires Valid()
      ensures forall pending :: Step(cfg, With(pending), Op.Has(key), Present(there), With(pending))
    {
      TableLookup(cfg, db.contents, key);
      there := key in cache.entries || cfg.prefix + key in db.contents;
    }

    /** The cache pass of a multi-read: which slots hit, and which keys to fetch. */
    method Probe(keys: seq<Bytes>) returns (slots: seq<Option<V>>, missIndices: seq<nat>, missKeys: seq<Bytes>, hits: nat)
      ensures Probed(cache.entries, keys, slots, missIndices, missKeys) && hits + |missIndices| == |keys|
    {
      slots, missIndices, missKeys, hits := [], [], [], 0;
      for i := 0 to |keys|
        invariant |slots| == i && hits + |missIndices| == i
        invariant missKeys == MissKeys(cache.entries, keys[..i]) && |missKeys| == |missIndices|
        invariant forall j :: 0 <= j < |missIndices| ==> missIndices[j] < i && keys[missIndices[j]] == missKeys[j]
        invariant forall j :: 0 <= j < i ==> slots[j] == (if keys[j] in cache.entries then Some(cache.entries[keys[j]]) else None)
        invariant forall j :: 0 <= j < i && keys[j] !in cache.entries ==> j in missIndices
      {
        assert keys[..i + 1][..i] == keys[..i];
        if keys[i] in cache.entries {
          slots := slots + [Some(cache.entries[keys[i]])];
          hits := hits + 1;
        } else {
          slots := slots + [None];
          missIndices := missIndices + [i];
          missKeys := missKeys + [keys[i]];
        }
      }
      assert keys[..|keys|] == keys;
    }

    /** One fetched record of a multi-read: decode, cache, fill its slot. */
    method Fetch(key: Bytes, ghost c0: map<Bytes, V>, ghost front: seq<Bytes>) returns (found: Found<V>)
      requires Valid()
      requires !Fetched(cfg, Table(cfg, db.contents), front).failed
      requires InsertsAll(cfg.policy, cfg.size, c0, Fetched(cfg, Table(cfg, db.contents), front).items, cache.entries)
      modifies cache
      ensures Valid() && found == Store.Get(cfg, Table(cfg, db.contents), key)
      ensures Fetched(cfg, Table(cfg, db.contents), front + [key]).failed <==> found == Corrupt
      ensures InsertsAll(cfg.policy, cfg.size, c0, Fetched(cfg, Table(cfg, db.contents), front + [key]).items, cache.entries)
    {
      assert (front + [key])[..|front|] == front;
      TableLookup(cfg, db.contents, key);
      var dbKey := cfg.prefix + key;
      if dbKey in db.contents {
        match cfg.dec(db.contents[dbKey]) {
          case Some(data) =>
            ghost var before, items := cache.entries, Fetched(cfg, Table(cfg, db.contents), front).items;
            cache.Insert(key, data);
            InsertsAllSnoc(cfg.policy, cfg.size, c0, items, before, key, data, cache.entries);
            found := Value(data);
          case None =>
            found := Corrupt;
        }
      } else {
        found := Absent;
      }
    }

    /** The fetch pass: fills the missed slots until a record fails to decode. */
    method Fill(keys: seq<Bytes>, missIndices: seq<nat>, missKeys: seq<Bytes>, slots: seq<Option<V>>)
      returns (ok: bool, filled: seq<Option<V>>)
      requires Valid() && Probed(cache.entries, keys, slots, missIndices, missKeys)
      modifies cache
      ensures Valid() && Filled(cfg, old(cache.entries), Table(cfg, db.contents), keys, missIndices, missKeys, ok, filled, cache.entries)
    {
      ghost var c0, table := cache.entries, Table(cfg, db.contents);
      MissKeysAre(c0, keys);
      filled := slots;
      for m := 0 to |missKeys|
        invariant Valid()
        invariant !Fetched(cfg, table, missKeys[..m]).failed
        invariant InsertsAll(cfg.policy, cfg.size, c0, Fetched(cfg, table, missKeys[..m]).items, cache.entries)
        invariant SlotStates(cfg, c0, table, keys, missIndices[..m], filled)
      {
        TakeMore(missKeys, m);
        TakeMore(missIndices, m);
        assert missKeys[m] in missKeys;
        var found := Fetch(missKeys[m], c0, missKeys[..m]);
        if found == Corrupt {
          FailureSticks(cfg, table, missKeys, m + 1);
          return false, filled;
        }
        SlotFilled(cfg, c0, table, keys, missIndices[..m], filled, missIndices[m], found);
        if found.Value? {
          filled := filled[missIndices[m] := Some(found.value)];
        }
      }
      TakeAll(missKeys);
      TakeAll(missIndices);
      ok := true;
    }

    /** Both passes of a multi-read. */
    method Resolve(keys: seq<Bytes>) returns (r: Result<V>)
      requires Valid()
      modifies cache
      ensures Valid()
      ensures ReadManyStep(cfg, old(cache.entries), Table(cfg, db.contents), keys, r, cache.entries)
    {
      ghost var c0 := cache.entries;
      var slots, missIndices, missKeys, hits := Probe(keys);
      var ok, filled := Fill(keys, missIndices, missKeys, slots);
      FilledIsStep(cfg, c0, Table(cfg, db.contents), keys, slots, missIndices, missKeys, hits, ok, filled, cache.entries);
      r := if ok then Slots(filled, hits, |missIndices|) else DecodeFailed;
    }

    method ReadMany(keys: seq<Bytes>) returns (r: Result<V>)
      requires Valid()
      modifies cache
      ensures Valid()
      ensures forall pending :: Step(cfg, old(With(pending)), Op.ReadMany(keys), r, With(pending))
      ensures r == DecodeFailed <==> exists k :: k in keys && Undecodable(cfg, old(With([])), k)
      ensures r != DecodeFailed ==>
                && r.Slots? && |r.slots| == |keys| && r.hits == |HitsIn(old(cache.entries), keys)| && r.hits + r.misses == |keys|
                && forall i :: 0 <= i < |keys| ==> SlotOf(cfg, old(With([])), keys[i], r.slots[i])
    {
      ghost var s := With([]);
      r := Resolve(keys);
      assert Step(cfg, s, Op.ReadMany(keys), r, With([]));
      ReadManyAnswersBytes(cfg, s, keys, r, With([]));
    }

    method Write(w: Writer, key: Bytes, data: V)
      requires Valid() && (w.DirectWriter? ==> w.db == db)
      modifies cache, w.Target()
      ensures Valid() && Step(cfg, old(Now(w)), Call(w, Mutation.Write(key, data)), Done, Now(w))
    {
      var bytes := cfg.enc(data);
      ApplyOne(db.contents, PutKey(cfg.prefix + key, bytes));
      cache.Insert(key, data);
      w.Issue(PutKey(cfg.prefix + key, bytes));
    }

    method WriteMany(w: Writer, items: seq<(Bytes, V)>)
      requires Valid() && (w.DirectWriter? ==> w.db == db)
      modifies cache, w.Target()
      ensures Valid() && Step(cfg, old(Now(w)), Call(w, Mutation.WriteMany(items)), Done, Now(w))
    {
      cache.InsertMany(items);
      IssuePuts(w, items);
    }

    method WriteManyWithoutCache(w: Writer, items: seq<(Bytes, V)>)
      requires Valid() && (w.DirectWriter? ==> w.db == db)
      modifies cache, w.Target()
      ensures Valid() && Step(cfg, old(Now(w)), Call(w, Mutation.WriteManyWithoutCache(items)), Done, Now(w))
      ensures cache.entries == map[]
    {
      IssuePuts(w, items);
      cache.RemoveAll();
    }

    method IssuePuts(w: Writer, items: seq<(Bytes, V)>)
      modifies w.Target()
      ensures Issued(w, old(Contents(w)), old(Ops(w)), Puts(cfg, items))
    {
      ghost var ops := Puts(cfg, items);
      for i := 0 to |items|
        invariant Issued(w, old(Contents(w)), old(Ops(w)), ops[..i])
      {
        TakeMore(ops, i);
        w.Issue(PutKey(cfg.prefix + items[i].0, cfg.enc(items[i].1)));
      }
      TakeAll(ops);
    }

    method Delete(w: Writer, key: Bytes)
      requires Valid() && (w.DirectWriter? ==> w.db == db)
      modifies cache, w.Target()
      ensures Valid() && Step(cfg, old(Now(w)), Call(w, Mutation.Delete(key)), Done, Now(w))
      ensures key !in cache.entries
    {
      ApplyOne(db.contents, DeleteKey(cfg.prefix + key));
      cache.Remove(key);
      w.Issue(DeleteKey(cfg.prefix + key));
    }

    method DeleteMany(w: Writer, keys: seq<Bytes>)
      requires Valid() && (w.DirectWriter? ==> w.db == db)
      modifies cache, w.Target()
      ensures Valid() && Step(cfg, old(Now(w)), Call(w, Mutation.DeleteMany(keys)), Done, Now(w))
    {
      cache.RemoveMany(keys);
      IssueDeletes(w, keys);
    }

    method IssueDeletes(w: Writer, keys: seq<Bytes>)
      modifies w.Target()
      ensures Issued(w, old(Contents(w)), old(Ops(w)), Deletes(cfg, keys))
    {
      ghost var ops := Deletes(cfg, keys);
      for i := 0 to |keys|
        invariant Issued(w, old(Contents(w)), old(Ops(w)), ops[..i])
      {
        TakeMore(ops, i);
        w.Issue(DeleteKey(cfg.prefix + keys[i]));
      }
      TakeAll(ops);
    }

    /** `ok` is false when the source would panic for want of an upper bound. */
    method DeleteAll(w: Writer) returns (ok: bool)
      requires Valid() && (w.DirectWriter? ==> w.db == db)
      modifies cache, w.Target()
      ensures Valid() && Step(cfg, old(Now(w)), Call(w, Mutation.DeleteAll), Done, Now(w))
      ensures cache.entries == map[]
      ensures ok <==> exists i :: 0 <= i < |cfg.prefix| && cfg.prefix[i] != 255
    {
      cache.RemoveAll();
      PrefixEndExists(cfg.prefix);
      match PrefixEnd(cfg.prefix) {
        case Some(end) =>
          ApplyOne(db.contents, DeleteRange(cfg.prefix, end));
          w.Issue(DeleteRange(cfg.prefix, end));
          ok := true;
        case None =>
          ok := false;
      }
    }
  }
}
