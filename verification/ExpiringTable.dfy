/** The table behind both submission guards: entries with a time stamp, listed in
    order of arrival, pruned by age and by number from the front
    (`prune` in bridge/src/share_handler.rs and bridge/src/kaspaapi.rs). */
module ExpiringTable {

  datatype Entry<+O> = Entry(ts: nat, outcome: O)

  datatype Table<+O> = Table(entries: map<string, Entry<O>>, order: seq<string>)

  datatype Limits = Limits(ttl: nat, maxEntries: nat)

  function Keys(s: seq<string>): set<string> {
    set k | k in s
  }

  /** Time since ts, zero if the clock reading is older. */
  function Elapsed(now: nat, ts: nat): nat {
    if now >= ts then now - ts else 0
  }

  predicate Expired<O>(lim: Limits, t: Table<O>, now: nat, k: string) {
    k in t.entries && Elapsed(now, t.entries[k].ts) > lim.ttl
  }

  /** The front of the order is stale or expired. */
  predicate FrontGoes<O>(lim: Limits, t: Table<O>, now: nat) {
    t.order != [] && (t.order[0] !in t.entries || Expired(lim, t, now, t.order[0]))
  }

  function Without<O>(m: map<string, Entry<O>>, s: seq<string>): map<string, Entry<O>> {
    map k | k in m && k !in s :: m[k]
  }

  /** The table with its n oldest listings, and their entries, gone. */
  function Cut<O>(t: Table<O>, n: nat): Table<O>
    requires n <= |t.order|
  {
    Table(Without(t.entries, t.order[..n]), t.order[n..])
  }

  /** How many listings the age loop drops. */
  function AgeCut<O>(lim: Limits, t: Table<O>, now: nat): (n: nat)
    ensures n <= |t.order|
    decreases |t.order|
  {
    if FrontGoes(lim, t, now) then 1 + AgeCut(lim, Cut(t, 1), now) else 0
  }

  /** How many more the number loop drops. */
  function ExcessCut<O>(lim: Limits, t: Table<O>): (n: nat)
    ensures n <= |t.order|
    decreases |t.order|
  {
    if |t.entries| > lim.maxEntries && t.order != [] then 1 + ExcessCut(lim, Cut(t, 1)) else 0
  }

  function Pruned<O>(lim: Limits, t: Table<O>, now: nat): Table<O> {
    var aged := Cut(t, AgeCut(lim, t, now));
    Cut(aged, ExcessCut(lim, aged))
  }

  // ------------------------------------------------------------------ invariants

  /** Every live entry is listed; listings may be stale or repeated. */
  ghost predicate Listed<O>(t: Table<O>) {
    forall k :: k in t.entries ==> k in t.order
  }

  ghost predicate NoRepeats(s: seq<string>) {
    forall i, j :: 0 <= i < j < |s| ==> s[i] != s[j]
  }

  /** The order lists exactly the live entries, each once. */
  ghost predicate Exact<O>(t: Table<O>) {
    NoRepeats(t.order) && t.entries.Keys == Keys(t.order)
  }

  // ------------------------------------------------------------------ properties

  lemma CutCut<O>(t: Table<O>, a: nat, b: nat)
    requires a + b <= |t.order|
    ensures Cut(Cut(t, a), b) == Cut(t, a + b)
  {
    assert t.order[a..][..b] == t.order[a..a + b];
    assert t.order[..a + b] == t.order[..a] + t.order[a..a + b];
    assert t.order[a..][b..] == t.order[a + b..];
    assert Without(Without(t.entries, t.order[..a]), t.order[a..a + b]) == Without(t.entries, t.order[..a + b]);
  }

  /** Pruning drops a prefix of the order together with its entries and changes nothing else. */
  function PruneCut<O>(lim: Limits, t: Table<O>, now: nat): (n: nat)
    ensures n <= |t.order|
  {
    var a := AgeCut(lim, t, now);
    a + ExcessCut(lim, Cut(t, a))
  }

  lemma PrunedIsCut<O>(lim: Limits, t: Table<O>, now: nat)
    ensures Pruned(lim, t, now) == Cut(t, PruneCut(lim, t, now))
  {
    var a := AgeCut(lim, t, now);
    var b := ExcessCut(lim, Cut(t, a));
    assert Pruned(lim, t, now) == Cut(Cut(t, a), b) && PruneCut(lim, t, now) == a + b;
    CutCut(t, a, b);
  }

  lemma CutListed<O>(t: Table<O>, n: nat)
    requires n <= |t.order|
    ensures Listed(t) ==> Listed(Cut(t, n))
  {
    assert t.order == t.order[..n] + t.order[n..];
  }

  lemma CutKeeps<O>(t: Table<O>, n: nat)
    requires n <= |t.order|
    ensures Exact(t) ==> Exact(Cut(t, n)) && |Cut(t, n).entries| == |t.order| - n
  {
    var c := Cut(t, n);
    assert t.order == t.order[..n] + t.order[n..];
    if Exact(t) {
      assert NoRepeats(c.order);
      assert c.entries.Keys == Keys(c.order);
      KeysCount(c.order);
    }
  }

  lemma {:induction false} KeysCount(s: seq<string>)
    requires NoRepeats(s)
    ensures |Keys(s)| == |s|
  {
    if s != [] {
      var n := |s| - 1;
      KeysCount(s[..n]);
      assert s == s[..n] + [s[n]];
      assert Keys(s) == Keys(s[..n]) + {s[n]};
    }
  }

  /** The entries left once the first i listings are gone. */
  ghost function LiveFrom<O>(t: Table<O>, i: nat): nat
    requires i <= |t.order|
  {
    |Cut(t, i).entries|
  }

  lemma LiveFromCut<O>(t: Table<O>, a: nat, i: nat)
    requires a + i <= |t.order|
    ensures LiveFrom(Cut(t, a), i) == LiveFrom(t, a + i)
  {
    CutCut(t, a, i);
  }

  lemma {:induction false} ExcessCutStops<O>(lim: Limits, t: Table<O>)
    ensures ExcessCut(lim, t) < |t.order| ==> LiveFrom(t, ExcessCut(lim, t)) <= lim.maxEntries
    decreases |t.order|
  {
    if |t.entries| > lim.maxEntries && t.order != [] {
      ExcessCutStops(lim, Cut(t, 1));
      LiveFromCut(t, 1, ExcessCut(lim, Cut(t, 1)));
    } else {
      CutNone(t);
    }
  }

  lemma AllCut<O>(t: Table<O>)
    ensures Listed(t) ==> LiveFrom(t, |t.order|) == 0
  {
    assert t.order[..|t.order|] == t.order;
    if Listed(t) {
      assert Cut(t, |t.order|).entries == map[];
    }
  }

  lemma {:induction false} KeysAtMost(s: seq<string>)
    ensures |Keys(s)| <= |s|
  {
    if s != [] {
      var n := |s| - 1;
      KeysAtMost(s[..n]);
      assert s == s[..n] + [s[n]];
      assert Keys(s) == Keys(s[..n]) + {s[n]};
    }
  }

  /** Dropping n listings drops at most n entries. */
  lemma CutSize<O>(t: Table<O>, n: nat)
    requires n <= |t.order|
    ensures |t.entries| <= |Cut(t, n).entries| + n
  {
    var gone, left := Keys(t.order[..n]), Cut(t, n).entries.Keys;
    KeysAtMost(t.order[..n]);
    assert t.entries.Keys == left + (t.entries.Keys - left);
    assert t.entries.Keys - left <= gone;
    SubsetCount(t.entries.Keys - left, gone);
    assert |t.entries.Keys| == |t.entries| && |left| == |Cut(t, n).entries|;
  }

  lemma SubsetCount<T>(a: set<T>, b: set<T>)
    requires a <= b
    ensures |a| <= |b|
  {
    assert b == a + (b - a);
  }

  /** With every entry listed, the number loop never runs out of listings too early. */
  lemma ExcessCutSuffices<O>(lim: Limits, t: Table<O>)
    ensures Listed(t) ==> LiveFrom(t, ExcessCut(lim, t)) <= lim.maxEntries
  {
    ExcessCutStops(lim, t);
    AllCut(t);
  }

  /** After pruning at most maxEntries entries live, and all are still listed. */
  lemma PruneBounds<O>(lim: Limits, t: Table<O>, now: nat)
    requires Listed(t)
    ensures Listed(Pruned(lim, t, now)) && |Pruned(lim, t, now).entries| <= lim.maxEntries
  {
    var a := AgeCut(lim, t, now);
    CutListed(t, a);
    ExcessCutSuffices(lim, Cut(t, a));
    CutListed(Cut(t, a), ExcessCut(lim, Cut(t, a)));
  }

  /** From a listing of k on, more than maxEntries entries live: k and at least
      maxEntries others listed behind it. */
  ghost predicate Crowded<O>(lim: Limits, t: Table<O>, k: string) {
    exists i :: 0 <= i < |t.order| && t.order[i] == k && LiveFrom(t, i) > lim.maxEntries
  }

  lemma {:induction false} AgeCutReason<O>(lim: Limits, t: Table<O>, now: nat, k: string)
    requires k in t.entries && k in t.order[..AgeCut(lim, t, now)]
    ensures Expired(lim, t, now, k)
    decreases |t.order|
  {
    var rest := Cut(t, 1);
    if k != t.order[0] {
      assert k in rest.entries;
      var i :| 0 <= i < AgeCut(lim, t, now) && t.order[i] == k;
      assert rest.order[i - 1] == k;
      AgeCutReason(lim, rest, now, k);
    }
  }

  /** What the number loop drops stood at a place from which on too many entries live. */
  lemma {:induction false} ExcessCutReason<O>(lim: Limits, t: Table<O>, i: nat)
    requires i < ExcessCut(lim, t)
    ensures LiveFrom(t, i) > lim.maxEntries
    decreases |t.order|
  {
    if i == 0 {
      CutNone(t);
    } else {
      assert i - 1 < ExcessCut(lim, Cut(t, 1));
      ExcessCutReason(lim, Cut(t, 1), i - 1);
      LiveFromCut(t, 1, i - 1);
    }
  }

  /** An entry is forgotten by pruning only when idle longer than the time to live or
      crowded out by number. */
  lemma PruneReason<O>(lim: Limits, t: Table<O>, now: nat, k: string)
    requires k in t.entries && k !in Pruned(lim, t, now).entries
    ensures Expired(lim, t, now, k) || Crowded(lim, t, k)
  {
    var a := AgeCut(lim, t, now);
    if k in t.order[..a] {
      AgeCutReason(lim, t, now, k);
    } else {
      CrowdedOut(lim, t, a, k);
    }
  }

  lemma CrowdedOut<O>(lim: Limits, t: Table<O>, a: nat, k: string)
    requires a <= |t.order| && k in t.order[a..][..ExcessCut(lim, Cut(t, a))]
    ensures Crowded(lim, t, k)
  {
    var j :| 0 <= j < ExcessCut(lim, Cut(t, a)) && t.order[a..][j] == k;
    ExcessCutReason(lim, Cut(t, a), j);
    LiveFromCut(t, a, j);
    assert t.order[a + j] == k;
  }

  /** A listing of k goes by age: nothing is remembered of k, or its time to live is over. */
  ghost predicate Goes<O>(lim: Limits, t: Table<O>, now: nat, k: string) {
    k !in t.entries || now > t.entries[k].ts + lim.ttl
  }

  /** The first n listings go by age and the next one does not. */
  ghost predicate IsLeading<O>(lim: Limits, t: Table<O>, now: nat, n: nat) {
    && n <= |t.order|
    && (forall i :: 0 <= i < n ==> Goes(lim, t, now, t.order[i]))
    && (n < |t.order| ==> !Goes(lim, t, now, t.order[n]))
  }

  /** The age loop drops the longest run of listings at the front that all go by age, also with
      stale and repeated listings. */
  lemma {:induction false} AgeCutExactly<O>(lim: Limits, t: Table<O>, now: nat)
    ensures IsLeading(lim, t, now, AgeCut(lim, t, now))
    decreases |t.order|
  {
    if FrontGoes(lim, t, now) {
      AgeCutExactly(lim, Cut(t, 1), now);
      LeadingShifts(lim, t, now, AgeCut(lim, Cut(t, 1), now));
    }
  }

  lemma LeadingShifts<O>(lim: Limits, t: Table<O>, now: nat, n: nat)
    requires FrontGoes(lim, t, now) && IsLeading(lim, Cut(t, 1), now, n)
    ensures IsLeading(lim, t, now, n + 1)
  {
    var rest := Cut(t, 1);
    assert t.order[..1] == [t.order[0]];
    forall i | 0 <= i < n + 1 ensures Goes(lim, t, now, t.order[i]) {
      assert i > 0 ==> rest.order[i - 1] == t.order[i];
    }
    assert n + 1 < |t.order| ==> rest.order[n] == t.order[n + 1];
  }

  lemma LiveFromShrinks<O>(t: Table<O>, a: nat, b: nat)
    requires a <= b <= |t.order|
    ensures LiveFrom(t, b) <= LiveFrom(t, a)
  {
    var more, less := Cut(t, a).entries.Keys, Cut(t, b).entries.Keys;
    assert t.order[..b] == t.order[..a] + t.order[a..b];
    assert less <= more;
    SubsetCount(less, more);
    assert |more| == LiveFrom(t, a) && |less| == LiveFrom(t, b);
  }

  /** n is the first place, from lead on, from which on at most maxEntries entries live. */
  ghost predicate IsExcess<O>(lim: Limits, t: Table<O>, lead: nat, n: nat) {
    && lead <= n <= |t.order|
    && (forall m :: lead <= m < n ==> LiveFrom(t, m) > lim.maxEntries)
    && (n < |t.order| ==> LiveFrom(t, n) <= lim.maxEntries)
  }

  /** What pruning does to any table, with whatever stale and repeated listings: it drops the
      longest run of listings at the front that go by age, and then as many more as it takes to
      leave at most maxEntries entries, with their entries and nothing else. */
  lemma PruneExactly<O>(lim: Limits, t: Table<O>, now: nat) returns (lead: nat, n: nat)
    ensures IsLeading(lim, t, now, lead) && IsExcess(lim, t, lead, n)
    ensures Pruned(lim, t, now) == Cut(t, n) && n == PruneCut(lim, t, now)
  {
    lead := AgeCut(lim, t, now);
    n := PruneCut(lim, t, now);
    AgeCutExactly(lim, t, now);
    PrunedIsCut(lim, t, now);
    ExcessAfter(lim, t, lead);
  }

  lemma ExcessAfter<O>(lim: Limits, t: Table<O>, lead: nat)
    requires lead <= |t.order|
    ensures IsExcess(lim, t, lead, lead + ExcessCut(lim, Cut(t, lead)))
  {
    var rest := Cut(t, lead);
    var x := ExcessCut(lim, rest);
    forall m | lead <= m < lead + x ensures LiveFrom(t, m) > lim.maxEntries {
      ExcessCutReason(lim, rest, m - lead);
      LiveFromCut(t, lead, m - lead);
    }
    ExcessCutStops(lim, rest);
    LiveFromCut(t, lead, x);
  }

  /** Some listing of k is dropped: it and all before it go by age, or too many entries live from
      it on. */
  ghost predicate Forgettable<O>(lim: Limits, t: Table<O>, now: nat, k: string) {
    exists i :: 0 <= i < |t.order| && t.order[i] == k && (AllGo(lim, t, now, i) || LiveFrom(t, i) > lim.maxEntries)
  }

  ghost predicate AllGo<O>(lim: Limits, t: Table<O>, now: nat, i: nat)
    requires i < |t.order|
  {
    forall j :: 0 <= j <= i ==> Goes(lim, t, now, t.order[j])
  }

  lemma DroppedExactly<O>(lim: Limits, t: Table<O>, now: nat, lead: nat, n: nat, i: nat)
    requires IsLeading(lim, t, now, lead) && IsExcess(lim, t, lead, n) && i < |t.order|
    ensures i < n <==> AllGo(lim, t, now, i) || LiveFrom(t, i) > lim.maxEntries
  {
    if n <= i {
      LiveFromShrinks(t, n, i);
      assert !Goes(lim, t, now, t.order[lead]);
    }
  }

  /** Pruning forgets an entry if and only if some listing of it is dropped so. */
  lemma ForgottenExactly<O>(lim: Limits, t: Table<O>, now: nat, k: string)
    ensures k !in Pruned(lim, t, now).entries <==> k !in t.entries || Forgettable(lim, t, now, k)
  {
    var lead, n := PruneExactly(lim, t, now);
    ListedInFront(t, n, k);
    forall i | 0 <= i < |t.order| ensures i < n <==> AllGo(lim, t, now, i) || LiveFrom(t, i) > lim.maxEntries {
      DroppedExactly(lim, t, now, lead, n, i);
    }
  }

  lemma ListedInFront<O>(t: Table<O>, n: nat, k: string)
    requires n <= |t.order|
    ensures k !in Cut(t, n).entries <==> k !in t.entries || exists i :: 0 <= i < |t.order| && t.order[i] == k && i < n
  {
    assert k in t.order[..n] <==> exists i :: 0 <= i < n && t.order[i] == k;
  }

  lemma {:induction false} ExcessCutExactly<O>(lim: Limits, t: Table<O>)
    requires Exact(t)
    ensures ExcessCut(lim, t) == if |t.order| > lim.maxEntries then |t.order| - lim.maxEntries else 0
    decreases |t.order|
  {
    KeysCount(t.order);
    assert |t.entries| == |t.entries.Keys| == |t.order|;
    if |t.order| > lim.maxEntries {
      CutKeeps(t, 1);
      ExcessCutExactly(lim, Cut(t, 1));
    }
  }

  lemma PrunedExact<O>(lim: Limits, t: Table<O>, now: nat)
    requires Exact(t)
    ensures Exact(Pruned(lim, t, now))
  {
    PrunedIsCut(lim, t, now);
    CutKeeps(t, PruneCut(lim, t, now));
  }

  lemma PruneCutIs<O>(lim: Limits, t: Table<O>, now: nat, a: nat)
    requires Exact(t) && a == AgeCut(lim, t, now)
    ensures PruneCut(lim, t, now) == if a >= |t.order| - lim.maxEntries then a else |t.order| - lim.maxEntries
  {
    ExcessAfterAge(lim, t, a);
  }

  /** When the order lists exactly the entries, pruning drops exactly the leading expired
      ones, or as many as it takes to leave maxEntries, whichever is more. */
  lemma PruneExactOrder<O>(lim: Limits, t: Table<O>, now: nat) returns (lead: nat)
    requires Exact(t)
    ensures IsLeading(lim, t, now, lead)
    ensures Pruned(lim, t, now) == Cut(t, if lead >= |t.order| - lim.maxEntries then lead else |t.order| - lim.maxEntries)
  {
    lead := AgeCut(lim, t, now);
    AgeCutExactly(lim, t, now);
    PruneCutIs(lim, t, now, lead);
    PrunedIsCut(lim, t, now);
  }

  lemma ExcessAfterAge<O>(lim: Limits, t: Table<O>, a: nat)
    requires Exact(t) && a <= |t.order|
    ensures a + ExcessCut(lim, Cut(t, a)) == if a >= |t.order| - lim.maxEntries then a else |t.order| - lim.maxEntries
  {
    CutKeeps(t, a);
    ExcessCutExactly(lim, Cut(t, a));
  }

  /** Place i of the order goes: it and all before it by age, or as one of too many. */
  ghost predicate PlaceGoes<O>(lim: Limits, t: Table<O>, now: nat, i: nat)
    requires i < |t.order|
  {
    AllGo(lim, t, now, i) || |t.order| - i > lim.maxEntries
  }

  ghost predicate KeyGoes<O>(lim: Limits, t: Table<O>, now: nat, k: string) {
    exists i :: 0 <= i < |t.order| && t.order[i] == k && PlaceGoes(lim, t, now, i)
  }

  lemma ForgettableWhenExact<O>(lim: Limits, t: Table<O>, now: nat, k: string)
    requires Exact(t)
    ensures Forgettable(lim, t, now, k) <==> KeyGoes(lim, t, now, k)
  {
    forall i | 0 <= i < |t.order|
      ensures PlaceGoes(lim, t, now, i) <==> AllGo(lim, t, now, i) || LiveFrom(t, i) > lim.maxEntries
    {
      CutKeeps(t, i);
    }
  }

  lemma NothingToPrune<O>(lim: Limits, t: Table<O>, now: nat)
    requires !FrontGoes(lim, t, now) && |t.entries| <= lim.maxEntries
    ensures Pruned(lim, t, now) == t
  {
    CutNone(t);
  }

  lemma InsertExact<O>(lim: Limits, p: Table<O>, key: string, e: Entry<O>)
    requires Exact(p) && |p.entries| <= lim.maxEntries && key !in p.entries
    ensures var g := Table(p.entries[key := e], p.order + [key]); Exact(g) && |g.entries| <= lim.maxEntries + 1
  {
    var g := Table(p.entries[key := e], p.order + [key]);
    assert Keys(g.order) == Keys(p.order) + {key};
    assert |g.entries.Keys| == |p.entries.Keys| + 1;
  }

  lemma ExactIsListed<O>(t: Table<O>)
    requires Exact(t)
    ensures Listed(t)
  {
    forall k | k in t.entries ensures k in t.order {
      assert k in Keys(t.order);
    }
  }

  /** Pruning again at the same time changes nothing if and only if nothing is left, or the first
      listing left is the first one of its key and does not go by age: the age loop stops at such
      a listing, and dropping it by number can uncover one behind it that goes. */
  lemma PruneAgainExactly<O>(lim: Limits, t: Table<O>, now: nat)
    ensures var n := PruneCut(lim, t, now);
            Pruned(lim, Pruned(lim, t, now), now) == Pruned(lim, t, now) <==>
            n == |t.order| || (t.order[n] !in t.order[..n] && !Goes(lim, t, now, t.order[n]))
  {
    var lead, n := PruneExactly(lim, t, now);
    var p := Pruned(lim, t, now);
    PrunedIsCut(lim, p, now);
    CutKept(p, PruneCut(lim, p, now));
    NothingLeftOver(lim, t, n);
    FrontGoesExactly(lim, t, now, n);
    if !FrontGoes(lim, p, now) { CutNone(p); }
  }

  lemma NothingLeftOver<O>(lim: Limits, t: Table<O>, n: nat)
    requires n <= |t.order| && (n < |t.order| ==> LiveFrom(t, n) <= lim.maxEntries)
    ensures ExcessCut(lim, Cut(t, n)) == 0
  {
  }

  lemma CutKept<O>(t: Table<O>, n: nat)
    requires n <= |t.order|
    ensures Cut(t, n) == t <==> n == 0
  {
    if n == 0 {
      CutNone(t);
    } else {
      assert |Cut(t, n).order| < |t.order|;
    }
  }

  lemma FrontGoesExactly<O>(lim: Limits, t: Table<O>, now: nat, n: nat)
    requires n <= |t.order|
    ensures FrontGoes(lim, Cut(t, n), now) <==> n < |t.order| && (t.order[n] in t.order[..n] || Goes(lim, t, now, t.order[n]))
  {
    assert n < |t.order| ==> Cut(t, n).order[0] == t.order[n];
  }

  // ------------------------------------------------------------------------ class

  class PruningTable<O> {
    const lim: Limits
    var entries: map<string, Entry<O>>
    var order: seq<string>

    function Value(): Table<O>
      reads this
    {
      Table(entries, order)
    }

    constructor (lim: Limits)
      ensures this.lim == lim && Value() == Table(map[], [])
    {
      this.lim := lim;
      entries := map[];
      order := [];
    }

    method PopFront()
      requires order != []
      modifies this
      ensures Value() == Cut(old(Value()), 1)
    {
      assert order[..1] == [order[0]];
      assert entries - {order[0]} == Without(entries, order[..1]);
      entries := entries - {order[0]};
      order := order[1..];
    }

    method Prune(now: nat)
      modifies this
      ensures Value() == Pruned(lim, old(Value()), now)
    {
      DropExpired(now);
      DropExcess();
    }

    method DropExpired(now: nat)
      modifies this
      ensures Value() == Cut(old(Value()), AgeCut(lim, old(Value()), now))
    {
      ghost var t0 := Value();
      ghost var n := 0;
      CutNone(t0);
      while order != [] && (order[0] !in entries || Elapsed(now, entries[order[0]].ts) > lim.ttl)
        invariant n <= |t0.order| && Value() == Cut(t0, n)
        invariant AgeCut(lim, t0, now) == n + AgeCut(lim, Cut(t0, n), now)
        decreases |order|
      {
        AgeCutStep(lim, t0, now, n);
        PopFront();
        n := n + 1;
      }
      assert !FrontGoes(lim, Cut(t0, n), now);
    }

    method DropExcess()
      modifies this
      ensures Value() == Cut(old(Value()), ExcessCut(lim, old(Value())))
    {
      ghost var t0 := Value();
      ghost var n := 0;
      CutNone(t0);
      while |entries| > lim.maxEntries && order != []
        invariant n <= |t0.order| && Value() == Cut(t0, n)
        invariant ExcessCut(lim, t0) == n + ExcessCut(lim, Cut(t0, n))
        decreases |order|
      {
        CutCut(t0, n, 1);
        PopFront();
        n := n + 1;
      }
    }
  }

  lemma AgeCutStep<O>(lim: Limits, t: Table<O>, now: nat, n: nat)
    requires n <= |t.order| && FrontGoes(lim, Cut(t, n), now)
    ensures AgeCut(lim, Cut(t, n), now) == 1 + AgeCut(lim, Cut(t, n + 1), now)
    ensures Cut(Cut(t, n), 1) == Cut(t, n + 1)
  {
    CutCut(t, n, 1);
  }

  lemma CutNone<O>(t: Table<O>)
    ensures Cut(t, 0) == t
  {
    assert Without(t.entries, t.order[..0]) == t.entries;
    assert t.order[0..] == t.order;
  }
}
