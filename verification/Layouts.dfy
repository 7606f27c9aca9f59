/** Reading records written under older layouts (the decode fallbacks of
    database/src/access.rs and database/src/item.rs).

    A record is a list of fields, decoded by position: decoding fails when the bytes
    run out and ignores surplus bytes. A layout is the first n fields of the newest
    one, and every layout extends the previous by trailing fields. */
module Layouts {
  import opened Bytes
  import opened Words

  datatype Field<!F> = Field(fits: F -> bool, enc: F -> Bytes, dec: Bytes -> Option<(F, Bytes)>)

  /** A field decodes to what was encoded and leaves what follows. */
  ghost predicate Lawful<F(!new)>(f: Field<F>) {
    forall v, rest :: f.fits(v) ==> f.dec(f.enc(v) + rest) == Some((v, rest))
  }

  /** A field needs at least one byte. */
  ghost predicate NonEmpty<F>(f: Field<F>) {
    f.dec([]).None?
  }

  ghost predicate HasOther<F(!new)>(f: Field<F>, d: F) {
    exists v :: f.fits(v) && v != d
  }

  function Encode<F>(fields: seq<Field<F>>, vals: seq<F>): Bytes
    requires |fields| == |vals|
  {
    if fields == [] then [] else fields[0].enc(vals[0]) + Encode(fields[1..], vals[1..])
  }

  function Decode<F>(fields: seq<Field<F>>, bytes: Bytes): Option<seq<F>> {
    if fields == [] then Some([])
    else
      match fields[0].dec(bytes)
      case None => None
      case Some((v, rest)) =>
        match Decode(fields[1..], rest)
        case None => None
        case Some(vs) => Some([v] + vs)
  }

  /** The history of a record type: all fields, the number of fields of the first
      layout, and the values that later fields take when a record is upgraded. */
  datatype Schema<!F(!new)> = Schema(fields: seq<Field<F>>, base: nat, defaults: seq<F>) {
    ghost predicate Valid() {
      && base <= |fields| == |defaults|
      && (forall i :: 0 <= i < |fields| ==> Lawful(fields[i]))
      && (forall i :: base <= i < |fields| ==> NonEmpty(fields[i]))
    }

    /** vals is a record of the layout with n fields. */
    ghost predicate IsRecord(n: nat, vals: seq<F>) {
      && base <= n <= |fields| && |vals| == n
      && forall i :: 0 <= i < n ==> fields[i].fits(vals[i])
    }

    /** The record as given, and the defaults for the fields it has not got. */
    function Upgrade(vals: seq<F>): (all: seq<F>)
      requires |vals| <= |defaults|
      ensures |all| == |defaults|
      ensures forall i :: 0 <= i < |all| ==> all[i] == if i < |vals| then vals[i] else defaults[i]
    {
      vals + defaults[|vals|..]
    }
  }

  /** Tries the layouts in the given order and upgrades the first that decodes. */
  function DecodeChain<F(!new)>(sc: Schema<F>, order: seq<nat>, bytes: Bytes): Option<seq<F>>
    requires |sc.fields| == |sc.defaults|
    requires forall i :: 0 <= i < |order| ==> order[i] <= |sc.fields|
  {
    if order == [] then None
    else
      match Decode(sc.fields[..order[0]], bytes)
      case Some(vals) => if |vals| <= |sc.defaults| then Some(sc.Upgrade(vals)) else None
      case None => DecodeChain(sc, order[1..], bytes)
  }

  /** Bytes of an n-field record, read under an m-field layout, give the first m fields
      if m <= n and fail if m > n. */
  lemma {:induction false} DecodeUnder<F(!new)>(fields: seq<Field<F>>, vals: seq<F>, m: nat)
    requires |vals| <= |fields| && m <= |fields|
    requires forall i :: 0 <= i < |fields| ==> Lawful(fields[i])
    requires forall i :: 0 <= i < |vals| ==> fields[i].fits(vals[i])
    requires forall i :: |vals| <= i < |fields| ==> NonEmpty(fields[i])
    ensures Decode(fields[..m], Encode(fields[..|vals|], vals)) == if m <= |vals| then Some(vals[..m]) else None
    decreases m
  {
    var n := |vals|;
    var bytes := Encode(fields[..n], vals);
    if m > 0 {
      assert fields[..m][1..] == fields[1..][..m - 1];
      if n > 0 {
        assert fields[..n][1..] == fields[1..][..n - 1];
        var rest := Encode(fields[1..][..n - 1], vals[1..]);
        assert bytes == fields[0].enc(vals[0]) + rest;
        assert Lawful(fields[0]);
        assert fields[0].dec(bytes) == Some((vals[0], rest));
        DecodeUnder(fields[1..], vals[1..], m - 1);
        if m <= n {
          assert [vals[0]] + vals[1..][..m - 1] == vals[..m];
        }
      } else {
        assert bytes == [] && NonEmpty(fields[0]);
      }
    }
  }

  /** The first layout in the order that is no longer than n; |order| if there is none. */
  function FirstAtMost(order: seq<nat>, n: nat): (i: nat)
    ensures i <= |order|
    ensures forall j :: 0 <= j < i ==> order[j] > n
    ensures i < |order| ==> order[i] <= n
  {
    if order == [] then 0
    else if order[0] <= n then 0
    else
      var i := FirstAtMost(order[1..], n);
      assert forall j :: 0 <= j < i + 1 ==> order[j] > n by {
        forall j | 0 <= j < i + 1 ensures order[j] > n {
          if j > 0 { assert order[j] == order[1..][j - 1]; }
        }
      }
      i + 1
  }

  /** For any order of attempts: bytes written under n fields come back as the record
      cut to the first attempted layout of at most n fields, upgraded from there. */
  lemma {:induction false} ChainReads<F(!new)>(sc: Schema<F>, order: seq<nat>, n: nat, vals: seq<F>)
    requires sc.Valid() && sc.IsRecord(n, vals)
    requires forall i :: 0 <= i < |order| ==> order[i] <= |sc.fields|
    ensures var i := FirstAtMost(order, n);
            DecodeChain(sc, order, Encode(sc.fields[..n], vals)) ==
            if i < |order| then Some(sc.Upgrade(vals[..order[i]])) else None
  {
    if order != [] {
      DecodeUnder(sc.fields, vals, order[0]);
      if order[0] > n {
        ChainReads(sc, order[1..], n, vals);
      }
    }
  }

  ghost predicate NewestFirst(order: seq<nat>) {
    forall i, j :: 0 <= i < j < |order| ==> order[i] >= order[j]
  }

  ghost predicate Distinct(order: seq<nat>) {
    forall i, j :: 0 <= i < j < |order| ==> order[i] != order[j]
  }

  /** Every record written under a layout in the order is read back upgraded. */
  ghost predicate ReadsAll<F(!new)>(sc: Schema<F>, order: seq<nat>)
    requires sc.Valid()
    requires forall i :: 0 <= i < |order| ==> order[i] <= |sc.fields|
  {
    forall n, vals :: n in order && sc.IsRecord(n, vals) ==>
      DecodeChain(sc, order, Encode(sc.fields[..n], vals)) == Some(sc.Upgrade(vals))
  }

  /** Newest-first is not just enough but needed: an order of attempts reads back every
      record of every layout in it if and only if no layout is tried before a longer one.
      (Each field added later must be able to hold something other than its default.) */
  lemma NewestFirstExactly<F(!new)>(sc: Schema<F>, order: seq<nat>)
    requires sc.Valid()
    requires forall i :: 0 <= i < |order| ==> sc.base <= order[i] <= |sc.fields|
    requires forall i :: 0 <= i < |sc.fields| ==> HasOther(sc.fields[i], sc.defaults[i])
    requires Distinct(order)
    ensures ReadsAll(sc, order) <==> NewestFirst(order)
  {
    if NewestFirst(order) {
      forall n, vals | n in order && sc.IsRecord(n, vals)
        ensures DecodeChain(sc, order, Encode(sc.fields[..n], vals)) == Some(sc.Upgrade(vals))
      {
        NewestFirstReads(sc, order, n, vals);
      }
    } else {
      var i, j :| 0 <= i < j < |order| && order[i] < order[j];
      OldestFirstMisreads(sc, order, i, j);
    }
  }

  lemma NewestFirstReads<F(!new)>(sc: Schema<F>, order: seq<nat>, n: nat, vals: seq<F>)
    requires sc.Valid() && sc.IsRecord(n, vals) && n in order && NewestFirst(order)
    requires forall i :: 0 <= i < |order| ==> order[i] <= |sc.fields|
    ensures DecodeChain(sc, order, Encode(sc.fields[..n], vals)) == Some(sc.Upgrade(vals))
  {
    ChainReads(sc, order, n, vals);
    var i := FirstAtMost(order, n);
    var j :| 0 <= j < |order| && order[j] == n;
    assert i <= j;
    assert order[i] == n && vals[..n] == vals;
  }

  /** A layout tried before a longer one silently drops that one's extra fields. */
  lemma OldestFirstMisreads<F(!new)>(sc: Schema<F>, order: seq<nat>, i: nat, j: nat)
    requires sc.Valid() && Distinct(order) && i < j < |order| && order[i] < order[j]
    requires forall a :: 0 <= a < |order| ==> sc.base <= order[a] <= |sc.fields|
    requires forall a :: 0 <= a < |sc.fields| ==> HasOther(sc.fields[a], sc.defaults[a])
    ensures !ReadsAll(sc, order)
  {
    var n := order[j];
    var vals := OffDefault(sc, n);
    assert sc.IsRecord(n, vals);
    ChainReads(sc, order, n, vals);
    var m := order[FirstAtMost(order, n)];
    assert m < n;
    assert sc.Upgrade(vals[..m])[m] == sc.defaults[m];
    assert sc.Upgrade(vals)[m] == vals[m] != sc.defaults[m];
  }

  ghost function OffDefault<F(!new)>(sc: Schema<F>, n: nat): (vals: seq<F>)
    requires n <= |sc.fields| == |sc.defaults|
    requires forall a :: 0 <= a < |sc.fields| ==> HasOther(sc.fields[a], sc.defaults[a])
    ensures |vals| == n && forall a :: 0 <= a < n ==> sc.fields[a].fits(vals[a]) && vals[a] != sc.defaults[a]
  {
    if n == 0 then []
    else
      var f, d := sc.fields[n - 1], sc.defaults[n - 1];
      assert HasOther(f, d);
      var v :| f.fits(v) && v != d;
      OffDefault(sc, n - 1) + [v]
  }

  // ---------------------------------------------------- the readers of the store

  /** `read_with_decode_fallback`, `read_with_fallbacks`: the newest layout, then one older. */
  function DecodeFallback1<F(!new)>(sc: Schema<F>, n0: nat, n1: nat, bytes: Bytes): Option<seq<F>>
    requires n0 <= |sc.fields| == |sc.defaults| && n1 <= |sc.fields|
  {
    match As(sc, n0, bytes)
    case Some(data) => Some(data)
    case None => As(sc, n1, bytes)
  }

  /** `read_with_fallbacks3`: two older layouts. */
  function DecodeFallback2<F(!new)>(sc: Schema<F>, n0: nat, n1: nat, n2: nat, bytes: Bytes): Option<seq<F>>
    requires n0 <= |sc.fields| == |sc.defaults| && n1 <= |sc.fields| && n2 <= |sc.fields|
  {
    match As(sc, n0, bytes)
    case Some(data) => Some(data)
    case None =>
      match As(sc, n1, bytes)
      case Some(data) => Some(data)
      case None => As(sc, n2, bytes)
  }

  /** `read_with_fallbacks4`: three older layouts. */
  function DecodeFallback3<F(!new)>(sc: Schema<F>, n0: nat, n1: nat, n2: nat, n3: nat, bytes: Bytes): Option<seq<F>>
    requires n0 <= |sc.fields| == |sc.defaults| && n1 <= |sc.fields| && n2 <= |sc.fields| && n3 <= |sc.fields|
  {
    match As(sc, n0, bytes)
    case Some(data) => Some(data)
    case None =>
      match As(sc, n1, bytes)
      case Some(data) => Some(data)
      case None =>
        match As(sc, n2, bytes)
        case Some(data) => Some(data)
        case None => As(sc, n3, bytes)
  }

  /** Decode under one layout and convert to the newest. */
  function As<F(!new)>(sc: Schema<F>, n: nat, bytes: Bytes): Option<seq<F>>
    requires n <= |sc.fields| == |sc.defaults|
  {
    match Decode(sc.fields[..n], bytes)
    case Some(vals) => if |vals| <= |sc.defaults| then Some(sc.Upgrade(vals)) else None
    case None => None
  }

  lemma AsUnder<F(!new)>(sc: Schema<F>, m: nat, n: nat, vals: seq<F>)
    requires sc.Valid() && sc.IsRecord(n, vals) && m <= |sc.fields|
    ensures As(sc, m, Encode(sc.fields[..n], vals)) == if m <= n then Some(sc.Upgrade(vals[..m])) else None
    ensures vals[..n] == vals
  {
    DecodeUnder(sc.fields, vals, m);
  }

  /** A record written under any of the layouts a reader knows comes back upgraded: with one
      fallback, ... */
  lemma Fallback1Correct<F(!new)>(sc: Schema<F>, n0: nat, n1: nat, n: nat, vals: seq<F>)
    requires sc.Valid() && sc.IsRecord(n, vals) && |sc.fields| >= n0 > n1 && n in [n0, n1]
    ensures DecodeFallback1(sc, n0, n1, Encode(sc.fields[..n], vals)) == Some(sc.Upgrade(vals))
  {
    AsUnder(sc, n0, n, vals);
    AsUnder(sc, n1, n, vals);
  }

  /** ... with two, ... */
  lemma Fallback2Correct<F(!new)>(sc: Schema<F>, n0: nat, n1: nat, n2: nat, n: nat, vals: seq<F>)
    requires sc.Valid() && sc.IsRecord(n, vals) && |sc.fields| >= n0 > n1 > n2 && n in [n0, n1, n2]
    ensures DecodeFallback2(sc, n0, n1, n2, Encode(sc.fields[..n], vals)) == Some(sc.Upgrade(vals))
  {
    AsUnder(sc, n0, n, vals);
    AsUnder(sc, n1, n, vals);
    AsUnder(sc, n2, n, vals);
  }

  /** ... and with three. */
  lemma Fallback3Correct<F(!new)>(sc: Schema<F>, n0: nat, n1: nat, n2: nat, n3: nat, n: nat, vals: seq<F>)
    requires sc.Valid() && sc.IsRecord(n, vals) && |sc.fields| >= n0 > n1 > n2 > n3 && n in [n0, n1, n2, n3]
    ensures DecodeFallback3(sc, n0, n1, n2, n3, Encode(sc.fields[..n], vals)) == Some(sc.Upgrade(vals))
  {
    AsUnder(sc, n0, n, vals);
    AsUnder(sc, n1, n, vals);
    AsUnder(sc, n2, n, vals);
    AsUnder(sc, n3, n, vals);
  }

  // ------------------------------------------- entries that grow inside a record

  /** n entries off the front. */
  function TakeEntries<E>(n: nat, dec: Bytes -> Option<(E, Bytes)>, bytes: Bytes): Option<(seq<E>, Bytes)> {
    if n == 0 then Some(([], bytes))
    else
      match dec(bytes)
      case None => None
      case Some((e, rest)) =>
        match TakeEntries(n - 1, dec, rest)
        case None => None
        case Some((es, rest')) => Some(([e] + es, rest'))
  }

  /** A list as the codec reads one: a 64-bit count, then the entries. */
  function DecodeList<E>(dec: Bytes -> Option<(E, Bytes)>, bytes: Bytes): Option<(seq<E>, Bytes)> {
    if |bytes| < 8 then None
    else TakeEntries(LittleValue(bytes[..8]), dec, bytes[8..])
  }

  /** Two lists in a row, like the additions and removals of a stored diff. */
  function DecodeTwoLists<E>(dec: Bytes -> Option<(E, Bytes)>, bytes: Bytes): Option<(seq<E>, seq<E>)> {
    match DecodeList(dec, bytes)
    case None => None
    case Some((first, rest)) =>
      match DecodeList(dec, rest)
      case None => None
      case Some((second, _)) => Some((first, second))
  }

  function Flat<E>(f: Field<E>, es: seq<E>): Bytes {
    if es == [] then [] else f.enc(es[0]) + Flat(f, es[1..])
  }

  function EncodeList<E>(f: Field<E>, es: seq<E>): Bytes {
    Little(8, |es|) + Flat(f, es)
  }

  ghost predicate Entries<E(!new)>(f: Field<E>, es: seq<E>) {
    |es| < Pow256(8) && forall i :: 0 <= i < |es| ==> f.fits(es[i])
  }

  lemma {:induction false} EntriesDecode<E(!new)>(f: Field<E>, es: seq<E>, rest: Bytes)
    requires Lawful(f) && forall i :: 0 <= i < |es| ==> f.fits(es[i])
    ensures TakeEntries(|es|, f.dec, Flat(f, es) + rest) == Some((es, rest))
  {
    if es == [] {
      assert Flat(f, es) + rest == rest;
    } else {
      EntriesDecode(f, es[1..], rest);
      assert Flat(f, es) + rest == f.enc(es[0]) + (Flat(f, es[1..]) + rest);
      assert [es[0]] + es[1..] == es;
    }
  }

  lemma ListDecodes<E(!new)>(f: Field<E>, es: seq<E>, rest: Bytes)
    requires Lawful(f) && Entries(f, es)
    ensures DecodeList(f.dec, EncodeList(f, es) + rest) == Some((es, rest))
  {
    LittleRoundTrip(8, |es|);
    SplitFront(Little(8, |es|), Flat(f, es), rest, 8);
    EntriesDecode(f, es, rest);
  }

  /** The codec of entries that have grown by a trailing 64-bit field. */
  function Grown<E>(dec: Bytes -> Option<(E, Bytes)>): Bytes -> Option<((E, nat), Bytes)> {
    (bytes: Bytes) =>
      match dec(bytes)
      case None => None
      case Some((e, rest)) => if |rest| < 8 then None else Some(((e, LittleValue(rest[..8])), rest[8..]))
  }

  /** For entries of any codec, of whatever sizes: one entry, then a list whose first entry
      starts with eight zero bytes, decodes under the grown codec, with the second count for
      the new field and an empty second list. The fallback is never tried. */
  lemma GrownEntriesCanMisread<E(!new)>(f: Field<E>, e: E, second: seq<E>)
    requires Lawful(f) && f.fits(e) && Entries(f, second) && second != []
    requires [0, 0, 0, 0, 0, 0, 0, 0] <= f.enc(second[0])
    ensures var bytes := EncodeList(f, [e]) + EncodeList(f, second);
            && DecodeTwoLists(f.dec, bytes) == Some(([e], second))
            && DecodeTwoLists(Grown(f.dec), bytes) == Some(([(e, |second|)], []))
  {
    ReadsAsOld(f, e, second);
    ReadsAsGrown(f, e, second);
  }

  lemma ReadsAsOld<E(!new)>(f: Field<E>, e: E, second: seq<E>)
    requires Lawful(f) && f.fits(e) && Entries(f, second)
    ensures DecodeTwoLists(f.dec, EncodeList(f, [e]) + EncodeList(f, second)) == Some(([e], second))
  {
    assert Pow256(8) > 1 by { EightBytes(); }
    ListDecodes(f, [e], EncodeList(f, second));
    ListDecodes(f, second, []);
    assert EncodeList(f, second) + [] == EncodeList(f, second);
  }

  lemma ReadsAsGrown<E(!new)>(f: Field<E>, e: E, second: seq<E>)
    requires Lawful(f) && f.fits(e) && Entries(f, second) && second != []
    requires [0, 0, 0, 0, 0, 0, 0, 0] <= f.enc(second[0])
    ensures DecodeTwoLists(Grown(f.dec), EncodeList(f, [e]) + EncodeList(f, second)) == Some(([(e, |second|)], []))
  {
    var b := EncodeList(f, [e]) + EncodeList(f, second);
    FirstGrown(f, e, second);
    ZeroCount(f, second);
    assert DecodeList(Grown(f.dec), b) == Some(([(e, |second|)], Flat(f, second)));
  }

  lemma FirstGrown<E(!new)>(f: Field<E>, e: E, second: seq<E>)
    requires Lawful(f) && f.fits(e) && Entries(f, second)
    ensures DecodeList(Grown(f.dec), EncodeList(f, [e]) + EncodeList(f, second)) == Some(([(e, |second|)], Flat(f, second)))
  {
    var rest := EncodeList(f, second);
    OneEncoded(f, [e], rest);
    GrownDecodes(f, e, second);
    OneEntry(Grown(f.dec), f.enc(e) + rest, (e, |second|), Flat(f, second));
  }

  lemma OneEncoded<E(!new)>(f: Field<E>, es: seq<E>, rest: Bytes)
    requires |es| == 1
    ensures var b := EncodeList(f, es) + rest;
            |b| >= 8 && LittleValue(b[..8]) == |es| && b[8..] == f.enc(es[0]) + rest
  {
    var b := EncodeList(f, es) + rest;
    assert Pow256(8) > |es| by { EightBytes(); }
    LittleRoundTrip(8, |es|);
    assert Flat(f, es) == f.enc(es[0]) + Flat(f, []);
    assert b[..8] == Little(8, |es|);
  }

  lemma GrownDecodes<E(!new)>(f: Field<E>, e: E, second: seq<E>)
    requires Lawful(f) && f.fits(e) && Entries(f, second)
    ensures Grown(f.dec)(f.enc(e) + EncodeList(f, second)) == Some(((e, |second|), Flat(f, second)))
  {
    var rest := EncodeList(f, second);
    LittleRoundTrip(8, |second|);
    assert f.dec(f.enc(e) + rest) == Some((e, rest));
    assert rest[..8] == Little(8, |second|) && rest[8..] == Flat(f, second);
  }

  lemma OneEntry<E>(dec: Bytes -> Option<(E, Bytes)>, bytes: Bytes, e: E, rest: Bytes)
    requires dec(bytes) == Some((e, rest))
    ensures TakeEntries(1, dec, bytes) == Some(([e], rest))
  {
    assert TakeEntries(0, dec, rest) == Some(([], rest));
    assert [e] + [] == [e];
  }

  lemma ZeroCount<E(!new)>(f: Field<E>, second: seq<E>)
    requires second != [] && [0, 0, 0, 0, 0, 0, 0, 0] <= f.enc(second[0])
    ensures DecodeList(Grown(f.dec), Flat(f, second)) == Some(([], Flat(f, second)[8..]))
  {
    var b := Flat(f, second);
    assert b == f.enc(second[0]) + Flat(f, second[1..]);
    assert b[..8] == [0, 0, 0, 0, 0, 0, 0, 0];
    ZerosCount(b[..8]);
  }

  lemma {:induction false} ZerosCount(b: Bytes)
    requires forall i :: 0 <= i < |b| ==> b[i] == 0
    ensures LittleValue(b) == 0
  {
    if b != [] {
      ZerosCount(b[1..]);
    }
  }

  // ------------------------------------------------------- entries of one size

  /** Opaque entries of a fixed size. */
  function Raw(size: nat): Field<Bytes> {
    Field((b: Bytes) => |b| == size, (b: Bytes) => b, (b: Bytes) => if |b| < size then None else Some((b[..size], b[size..])))
  }

  lemma {:induction false} TakeEntriesExactly(n: nat, size: nat, bytes: Bytes)
    ensures TakeEntries(n, Raw(size).dec, bytes).Some? <==> n * size <= |bytes|
    ensures TakeEntries(n, Raw(size).dec, bytes).Some? ==> TakeEntries(n, Raw(size).dec, bytes).value.1 == bytes[n * size..]
    decreases n
  {
    if n > 0 {
      assert n * size == size + (n - 1) * size && (n - 1) * size >= 0;
      if size <= |bytes| {
        TakeEntriesExactly(n - 1, size, bytes[size..]);
      }
    }
  }

  lemma {:induction false} FlatLength(es: seq<Bytes>, size: nat)
    requires forall i :: 0 <= i < |es| ==> |es[i]| == size
    ensures |Flat(Raw(size), es)| == |es| * size
  {
    if es != [] {
      FlatLength(es[1..], size);
      assert |es| * size == size + (|es| - 1) * size;
    }
  }

  lemma EncodedList(es: seq<Bytes>, size: nat, rest: Bytes)
    requires Entries(Raw(size), es)
    ensures var b := EncodeList(Raw(size), es) + rest;
            |b| == 8 + |es| * size + |rest| && LittleValue(b[..8]) == |es|
  {
    var b := EncodeList(Raw(size), es) + rest;
    assert forall i :: 0 <= i < |es| ==> Raw(size).fits(es[i]) ==> |es[i]| == size;
    FlatLength(es, size);
    LittleRoundTrip(8, |es|);
    assert b[..8] == Little(8, |es|);
  }

  /** A list of entries of one size that ends its record is safe to grow: read with longer
      entries, it underflows unless it is empty. */
  lemma LastListUnderflowsExactly(es: seq<Bytes>, size: nat, grown: nat)
    requires Entries(Raw(size), es) && size < grown
    ensures DecodeList(Raw(grown).dec, EncodeList(Raw(size), es)).None? <==> es != []
  {
    var b := EncodeList(Raw(size), es);
    EncodedList(es, size, []);
    assert b + [] == b;
    TakeEntriesExactly(|es|, grown, b[8..]);
    Longer(|es|, size, grown);
  }

  lemma Longer(n: nat, a: nat, b: nat)
    requires a < b
    ensures n > 0 ==> n * a < n * b
  {
  }

  /** The bytes that the grown layout takes for the second count, where it finds any. */
  function MistakenCount(bytes: Bytes, n: nat, grown: nat): nat
    requires 16 + n * grown <= |bytes|
  {
    LittleValue(bytes[8 + n * grown..16 + n * grown])
  }

  /** Of two lists in a row the first is not safe to grow: the grown layout underflows
      exactly when its longer entries leave no eight bytes for a second count, or the
      count it finds there asks for more than is left. */
  lemma TwoListsUnderflowExactly(first: seq<Bytes>, second: seq<Bytes>, size: nat, grown: nat)
    requires Entries(Raw(size), first) && Entries(Raw(size), second)
    ensures var b := EncodeList(Raw(size), first) + EncodeList(Raw(size), second);
            && |b| == 16 + (|first| + |second|) * size
            && (DecodeTwoLists(Raw(grown).dec, b).None? <==>
                || |first| * grown > (|first| + |second|) * size
                || MistakenCount(b, |first|, grown) * grown > (|first| + |second|) * size - |first| * grown)
  {
    var b, n := EncodeList(Raw(size), first) + EncodeList(Raw(size), second), |first|;
    EncodedList(first, size, EncodeList(Raw(size), second));
    EncodedList(second, size, []);
    assert EncodeList(Raw(size), second) + [] == EncodeList(Raw(size), second);
    Distribute(n, |second|, size);
    TwoListsDecode(b, n, n * grown, grown);
  }

  lemma TwoListsDecode(b: Bytes, n: nat, taken: nat, grown: nat)
    requires |b| >= 16 && LittleValue(b[..8]) == n && taken == n * grown
    ensures DecodeTwoLists(Raw(grown).dec, b).None? <==>
            taken + 16 > |b| || LittleValue(b[8 + taken..16 + taken]) * grown > |b| - 16 - taken
  {
    TakeEntriesExactly(n, grown, b[8..]);
    if 8 + taken <= |b| {
      var rest := b[8..][taken..];
      assert rest == b[8 + taken..];
      if 8 <= |rest| {
        assert rest[..8] == b[8 + taken..16 + taken];
        TakeEntriesExactly(LittleValue(rest[..8]), grown, rest[8..]);
      }
    }
  }

  lemma Distribute(m: nat, n: nat, e: nat)
    ensures (m + n) * e == m * e + n * e
  {
  }

  /** The sizes at hand: entries of 8 bytes or more that grow by 8. One entry, then a second
      list whose first entry starts with eight zero bytes, meets neither condition. */
  lemma EmbeddedGrowthCanMisread(entry: Bytes, second: seq<Bytes>, size: nat)
    requires size >= 8 && |entry| == size && Entries(Raw(size), second) && second != []
    requires [0, 0, 0, 0, 0, 0, 0, 0] <= second[0]
    ensures DecodeTwoLists(Grown(Raw(size).dec), EncodeList(Raw(size), [entry]) + EncodeList(Raw(size), second)) ==
            Some(([(entry, |second|)], []))
  {
    RawLawful(size);
    GrownEntriesCanMisread(Raw(size), entry, second);
  }

  lemma RawLawful(size: nat)
    ensures Lawful(Raw(size))
  {
    forall v: Bytes, rest: Bytes | |v| == size ensures Raw(size).dec(v + rest) == Some((v, rest)) {
      assert (v + rest)[..size] == v && (v + rest)[size..] == rest;
    }
  }
}
