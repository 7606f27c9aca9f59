/** The set store object of database/src/set_access.rs: every method is a step of the
    machine in module SetStore. */
module SetAccess {
  import opened Bytes
  import opened Db
  import opened Cache
  import opened WriteBehind
  import opened SetStore

  /** The traversal behind a bucket read: decodes every key under the bucket's prefix
      and stops at the first that does not decode. */
  method CollectBucket<T(==,!new)>(cfg: Config<T>, db: Database, key: Bytes) returns (r: Found<set<T>>)
    ensures r == Bucket(cfg, db.contents, key)
  {
    var all := Suffixes(cfg.prefix + key, db.contents);
    var rest, items := all, {};
    while rest != {}
      invariant rest <= all
      invariant forall x :: x in all - rest ==> cfg.dec(x).Some?
      invariant items == Decoded(cfg, all - rest)
      decreases |rest|
    {
      var x :| x in rest;
      match cfg.dec(x) {
        case Some(t) =>
          DecodedMore(cfg, all - rest, x);
          assert all - (rest - {x}) == all - rest + {x};
          items := items + {t};
          rest := rest - {x};
        case None =>
          return Corrupt;
      }
    }
    assert all - rest == all;
    r := Value(items);
  }

  /** In bytes: reading a bucket fails exactly when some key under the bucket's prefix does not
      decode, and otherwise gives what those keys decode to. */
  lemma BucketBytes<T(!new)>(cfg: Config<T>, db: DbMap, key: Bytes)
    ensures var r := Bucket(cfg, db, key);
            && (r == Corrupt <==> exists x :: cfg.prefix + key + x in db && cfg.dec(x) == None)
            && (r != Corrupt ==> r.Value? && forall t :: t in r.value <==> exists x :: cfg.prefix + key + x in db && cfg.dec(x) == Some(t))
  {
    assert forall x :: x in Suffixes(cfg.prefix + key, db) <==> cfg.prefix + key + x in db;
  }

  ghost function Decoded<T(!new)>(cfg: Config<T>, xs: set<Bytes>): set<T> {
    set x | x in xs && cfg.dec(x).Some? :: cfg.dec(x).value
  }

  lemma DecodedMore<T(!new)>(cfg: Config<T>, xs: set<Bytes>, x: Bytes)
    requires cfg.dec(x).Some?
    ensures Decoded(cfg, xs + {x}) == Decoded(cfg, xs) + {cfg.dec(x).value}
  {
  }

  class CachedDbSetAccess<T(==,!new)> {
    const cfg: Config<T>
    const db: Database
    const cache: Cache<Bytes, set<T>>

    ghost predicate Valid()
      reads cache
    {
      cache.Valid() && cache.policy == cfg.policy && cache.size == cfg.size
    }

    constructor (cfg: Config<T>, db: Database)
      ensures Valid() && this.cfg == cfg && this.db == db && fresh(cache) && cache.entries == map[]
    {
      this.cfg := cfg;
      this.db := db;
      this.cache := new Cache(cfg.policy, cfg.size);
    }

    ghost function Now(w: Writer): State<T>
      reads cache, db, w.Target()
    {
      State(cache.entries, db.contents, Ops(w))
    }

    static function Call(w: Writer, m: Mutation<T>): Op<T> {
      if w.DirectWriter? then Direct(m) else Stage(m)
    }

    /** The machine state with the given operations staged elsewhere. */
    ghost function With(pending: seq<WriteOp>): State<T>
      reads cache, db
    {
      State(cache.entries, db.contents, pending)
    }

    method Read(key: Bytes) returns (r: Found<set<T>>)
      requires Valid()
      modifies cache
      ensures Valid() && forall pending :: Step(cfg, old(With(pending)), Op.Read(key), r, With(pending))
    {
      if key in cache.entries {
        return Value(cache.entries[key]);
      }
      r := CollectBucket(cfg, db, key);
      if r.Value? {
        cache.Insert(key, r.value);
      }
    }

    method Write(w: Writer, key: Bytes, item: T)
      requires Valid() && (w.DirectWriter? ==> w.db == db)
      modifies cache, w.Target()
      ensures Valid()
      ensures Step(cfg, old(Now(w)), Call(w, Mutation.Write(key, item)), Absent, Now(w))
    {
      ApplyOne(db.contents, PutKey(ItemKey(cfg, key, item), []));
      cache.UpdateIfEntryExists(key, (s: set<T>) => s + {item});
      w.Issue(PutKey(ItemKey(cfg, key, item), []));
    }

    method Delete(w: Writer, key: Bytes, item: T)
      requires Valid() && (w.DirectWriter? ==> w.db == db)
      modifies cache, w.Target()
      ensures Valid()
      ensures Step(cfg, old(Now(w)), Call(w, Mutation.Delete(key, item)), Absent, Now(w))
    {
      ApplyOne(db.contents, DeleteKey(ItemKey(cfg, key, item)));
      cache.UpdateIfEntryExists(key, (s: set<T>) => s - {item});
      w.Issue(DeleteKey(ItemKey(cfg, key, item)));
    }

    /** `ok` is false when the source would panic for want of an upper bound. */
    method DeleteBucket(w: Writer, key: Bytes) returns (ok: bool)
      requires Valid() && (w.DirectWriter? ==> w.db == db)
      modifies cache, w.Target()
      ensures Valid() && (ok <==> PrefixEnd(cfg.prefix + key).Some?)
      ensures Step(cfg, old(Now(w)), Call(w, Mutation.DeleteBucket(key)), Absent, Now(w))
    {
      cache.Remove(key);
      match PrefixEnd(cfg.prefix + key) {
        case Some(end) =>
          ApplyOne(db.contents, DeleteRange(cfg.prefix + key, end));
          w.Issue(DeleteRange(cfg.prefix + key, end));
          ok := true;
        case None =>
          ok := false;
      }
    }
  }
}
