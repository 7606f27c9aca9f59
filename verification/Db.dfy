/** The ordered byte store and its two writers: a direct writer changes the
    store at once, a batch writer only records the operation
    (database/src/writer.rs). */
module Db {
  import opened Bytes

  type DbMap = map<Bytes, Bytes>

  datatype WriteOp =
    | PutKey(key: Bytes, value: Bytes)
    | DeleteKey(key: Bytes)
    | DeleteRange(from: Bytes, to: Bytes)

  function Apply(db: DbMap, op: WriteOp): DbMap {
    match op
    case PutKey(k, v) => db[k := v]
    case DeleteKey(k) => db - {k}
    case DeleteRange(from, to) => map k | k in db && !InRange(from, to, k) :: db[k]
  }

  function ApplyAll(db: DbMap, ops: seq<WriteOp>): DbMap {
    if ops == [] then db
    else Apply(ApplyAll(db, ops[..|ops| - 1]), ops[|ops| - 1])
  }

  lemma {:induction false} ApplyAllConcat(db: DbMap, a: seq<WriteOp>, b: seq<WriteOp>)
    ensures ApplyAll(db, a + b) == ApplyAll(ApplyAll(db, a), b)
  {
    if b == [] {
      assert a + b == a;
    } else {
      var n := |b| - 1;
      assert (a + b)[..|a + b| - 1] == a + b[..n];
      ApplyAllConcat(db, a, b[..n]);
    }
  }

  lemma ApplyOne(db: DbMap, op: WriteOp)
    ensures ApplyAll(db, [op]) == Apply(db, op)
  {
    assert [op][..0] == [];
    assert ApplyAll(db, [op][..0]) == db;
  }

  /** The keys under a prefix, with the prefix cut off: what a prefix iterator yields. */
  function Suffixes(prefix: Bytes, db: DbMap): (ks: set<Bytes>)
    ensures forall k :: k in ks <==> prefix + k in db
  {
    var ks := set x | x in db && prefix <= x :: x[|prefix|..];
    assert forall k :: k in ks <==> prefix + k in db by {
      forall k ensures k in ks <==> prefix + k in db {
        var x := prefix + k;
        assert prefix <= x && x[|prefix|..] == k;
        if k in ks {
          var y :| y in db && prefix <= y && y[|prefix|..] == k;
          assert y == y[..|prefix|] + y[|prefix|..] == x;
        }
      }
    }
    ks
  }

  /** Committing the oldest n staged operations leaves the pending view alone. */
  lemma CommitKeepsOverlay(db: DbMap, pending: seq<WriteOp>, n: nat)
    requires n <= |pending|
    ensures ApplyAll(ApplyAll(db, pending[..n]), pending[n..]) == ApplyAll(db, pending)
  {
    ApplyAllConcat(db, pending[..n], pending[n..]);
    assert pending[..n] + pending[n..] == pending;
  }

  /** Both maps hold the same under x. */
  predicate SameAt(a: DbMap, b: DbMap, x: Bytes) {
    (x in a <==> x in b) && (x in a ==> a[x] == b[x])
  }

  predicate OpTouches(op: WriteOp, x: Bytes) {
    match op
    case PutKey(k, _) => k == x
    case DeleteKey(k) => k == x
    case DeleteRange(from, to) => InRange(from, to, x)
  }

  /** Some operation writes or deletes x. */
  predicate Touched(ops: seq<WriteOp>, x: Bytes) {
    ops != [] && (OpTouches(ops[|ops| - 1], x) || Touched(ops[..|ops| - 1], x))
  }

  /** What operations make of x depends on what they start from only if they do not touch it,
      and then they leave it alone. */
  lemma {:induction false} ApplyAllAt(a: DbMap, b: DbMap, ops: seq<WriteOp>, x: Bytes)
    ensures Touched(ops, x) || SameAt(a, b, x) ==> SameAt(ApplyAll(a, ops), ApplyAll(b, ops), x)
    ensures !Touched(ops, x) ==> SameAt(ApplyAll(a, ops), a, x)
  {
    if ops != [] {
      ApplyAllAt(a, b, ops[..|ops| - 1], x);
    }
  }

  /** A direct write of ops under a batch that is committed later: the batch has the last word
      on every key it touches, and every other key goes as if ops had come last. */
  lemma DirectUnderBatch(db: DbMap, ops: seq<WriteOp>, pending: seq<WriteOp>, x: Bytes)
    ensures var before, after := ApplyAll(db, pending), ApplyAll(ApplyAll(db, ops), pending);
            if Touched(pending, x) then SameAt(after, before, x) else SameAt(after, ApplyAll(before, ops), x)
  {
    var before, now := ApplyAll(db, pending), ApplyAll(db, ops);
    ApplyAllAt(now, db, pending, x);
    ApplyAllAt(db, now, pending, x);
    ApplyAllAt(db, before, ops, x);
  }

  class Database {
    var contents: DbMap

    constructor ()
      ensures contents == map[]
    {
      contents := map[];
    }

    /** Writes a batch: its operations one after the other. */
    method Commit(batch: WriteBatch)
      modifies this
      ensures contents == ApplyAll(old(contents), batch.ops)
    {
      for i := 0 to |batch.ops|
        invariant contents == ApplyAll(old(contents), batch.ops[..i])
      {
        assert batch.ops[..i + 1][..i] == batch.ops[..i];
        contents := Apply(contents, batch.ops[i]);
      }
      assert batch.ops[..|batch.ops|] == batch.ops;
    }
  }

  class WriteBatch {
    var ops: seq<WriteOp>

    constructor (ops: seq<WriteOp>)
      ensures this.ops == ops
    {
      this.ops := ops;
    }
  }

  datatype Writer = DirectWriter(db: Database) | BatchWriter(batch: WriteBatch) {

    function Target(): object {
      match this
      case DirectWriter(d) => d
      case BatchWriter(b) => b
    }

    /** Issues one operation: at once, or into the batch. */
    method Issue(op: WriteOp)
      modifies Target()
      ensures DirectWriter? ==> db.contents == Apply(old(db.contents), op)
      ensures BatchWriter? ==> batch.ops == old(batch.ops) + [op]
    {
      match this
      case DirectWriter(d) =>
        if op.DeleteRange? {
          // a range goes through a batch of its own, written at once
          var batch := new WriteBatch([op]);
          ApplyOne(d.contents, op);
          d.Commit(batch);
        } else {
          d.contents := Apply(d.contents, op);
        }
      case BatchWriter(b) => b.ops := b.ops + [op];
    }
  }

  function Contents(w: Writer): DbMap
    reads w.Target()
  {
    if w.DirectWriter? then w.db.contents else map[]
  }

  function Ops(w: Writer): seq<WriteOp>
    reads w.Target()
  {
    if w.BatchWriter? then w.batch.ops else []
  }

  /** The writer has carried out ops since the state in which its database held
      db and its batch held pending. */
  ghost predicate Issued(w: Writer, db: DbMap, pending: seq<WriteOp>, ops: seq<WriteOp>)
    reads w.Target()
  {
    match w
    case DirectWriter(d) => d.contents == ApplyAll(db, ops)
    case BatchWriter(b) => b.ops == pending + ops
  }
}
