/** Variable difficulty (bridge/src/share_handler.rs) over the real numbers: what one
    adjustment computes, and what every sequence of adjustments keeps. */
module VarDiff {
  import opened Bytes

  const MIN_ELAPSED := 30.0
  const MAX_ELAPSED_NO_SHARES := 90.0
  const MIN_SHARES := 3
  const LOWER_RATIO := 0.75
  const UPPER_RATIO := 1.25
  const MAX_STEP_UP := 2.0
  const MAX_STEP_DOWN := 0.5
  const EPSILON := 1.0 / 4503599627370496.0

  function Max(a: real, b: real): real {
    if a >= b then a else b
  }

  function Scale(a: real, b: real): real {
    a * b
  }

  function Distance(a: real, b: real): real {
    if a >= b then a - b else b - a
  }

  // ---------------------------------------------------------------- powers of two

  function Pow2(n: nat): (p: real)
    ensures p >= 1.0
  {
    if n == 0 then 1.0 else 2.0 * Pow2(n - 1)
  }

  ghost predicate IsPow2(p: real) {
    exists n: nat :: p == Pow2(n)
  }

  /** The least p * 2^k that is at least x. */
  function CeilFrom(p: real, x: real): real
    requires p >= 1.0
    decreases if p < x then x.Floor + 1 - p.Floor else 0
  {
    if p >= x then p else CeilFrom(2.0 * p, x)
  }

  /** The greatest p * 2^k that is at most x; p itself if x is smaller. */
  function FloorFrom(p: real, x: real): real
    requires p >= 1.0
    decreases if 2.0 * p <= x then x.Floor + 1 - p.Floor else 0
  {
    if 2.0 * p <= x then FloorFrom(2.0 * p, x) else p
  }

  /** `vardiff_pow2_clamp_towards`: rounds next to a power of two, up if the difficulty
      rises and down if it falls, and never below 1. Logarithms of values below 1 round
      to exponents of at most 0, hence to 1. */
  function ClampTowards(current: real, next: real): real {
    if next < 1.0 then 1.0
    else if next >= current then CeilFrom(1.0, next)
    else FloorFrom(1.0, next)
  }

  lemma {:induction false} Pow2Monotone(a: nat, b: nat)
    requires a <= b
    ensures Pow2(a) <= Pow2(b)
    decreases b
  {
    if a < b {
      Pow2Monotone(a, b - 1);
    }
  }

  lemma {:induction false} CeilMonotone(p: real, x: real, y: real)
    requires p >= 1.0 && x <= y
    ensures x <= CeilFrom(p, x) <= CeilFrom(p, y)
    ensures CeilFrom(p, x) >= p
    decreases if p < y then y.Floor + 1 - p.Floor else 0
  {
    if p < y {
      if p < x { CeilMonotone(2.0 * p, x, y); } else { CeilAtLeast(p, y); }
    }
  }

  lemma {:induction false} CeilAtLeast(p: real, x: real)
    requires p >= 1.0
    ensures CeilFrom(p, x) >= p && CeilFrom(p, x) >= x
    decreases if p < x then x.Floor + 1 - p.Floor else 0
  {
    if p < x { CeilAtLeast(2.0 * p, x); }
  }

  lemma {:induction false} FloorMonotone(p: real, x: real, y: real)
    requires p >= 1.0 && p <= x <= y
    ensures p <= FloorFrom(p, x) <= FloorFrom(p, y)
    ensures FloorFrom(p, x) <= x
    decreases if 2.0 * p <= y then y.Floor + 1 - p.Floor else 0
  {
    if 2.0 * p <= x {
      FloorMonotone(2.0 * p, x, y);
    } else if 2.0 * p <= y {
      FloorMonotone(2.0 * p, y, y);
    }
  }

  lemma {:induction false} FloorBounds(p: real, x: real)
    requires 1.0 <= p <= x
    ensures FloorFrom(p, x) <= x < 2.0 * FloorFrom(p, x)
    decreases if 2.0 * p <= x then x.Floor + 1 - p.Floor else 0
  {
    if 2.0 * p <= x { FloorBounds(2.0 * p, x); }
  }

  lemma {:induction false} CeilBounds(p: real, x: real)
    requires p >= 1.0 && p / 2.0 < x
    ensures CeilFrom(p, x) / 2.0 < x <= CeilFrom(p, x)
    decreases if p < x then x.Floor + 1 - p.Floor else 0
  {
    if p < x { CeilBounds(2.0 * p, x); }
  }

  lemma {:induction false} FloorIsPow2(k: nat, x: real)
    ensures IsPow2(FloorFrom(Pow2(k), x))
    decreases if 2.0 * Pow2(k) <= x then x.Floor + 1 - Pow2(k).Floor else 0
  {
    if 2.0 * Pow2(k) <= x {
      assert Pow2(k + 1) == 2.0 * Pow2(k);
      FloorIsPow2(k + 1, x);
    }
  }

  lemma {:induction false} CeilIsPow2(k: nat, x: real)
    ensures IsPow2(CeilFrom(Pow2(k), x))
    decreases if Pow2(k) < x then x.Floor + 1 - Pow2(k).Floor else 0
  {
    if Pow2(k) < x {
      assert Pow2(k + 1) == 2.0 * Pow2(k);
      CeilIsPow2(k + 1, x);
    }
  }

  // -------------------------------------------------------------- one adjustment

  /** One measurement window: the shares seen in it, its length, the shares per minute
      wanted, the ratio of observed to wanted, and the square root of that ratio. */
  datatype Window = Window(shares: nat, elapsed: real, expectedSpm: real, ratio: real, root: real) {
    ghost predicate Valid() {
      && (elapsed > 0.0 ==> ratio == shares as real / elapsed * 60.0 / Max(expectedSpm, 1.0))
      && root >= 0.0 && root * root == ratio
    }
  }

  function Step(w: Window): real {
    if w.root < MAX_STEP_DOWN then MAX_STEP_DOWN else if w.root > MAX_STEP_UP then MAX_STEP_UP else w.root
  }

  /** The new difficulty for the scaled value `raw`: at least 1, rounded if asked. */
  function Target(current: real, raw: real, pow2: bool): real {
    var next := Max(raw, 1.0);
    if pow2 then ClampTowards(current, next) else next
  }

  /** `vardiff_compute_next_diff`, given the ratio of observed to expected shares, half
      the current difficulty, and the current difficulty scaled by the step. */
  function Decide(current: real, shares: nat, elapsed: real, ratio: real, halved: real, scaled: real, pow2: bool): Option<real> {
    if current <= 0.0 || elapsed <= 0.0 then None
    else if shares == 0 && elapsed >= MAX_ELAPSED_NO_SHARES then
      var next := Target(current, halved, pow2);
      if Distance(next, current) > EPSILON then Some(next) else None
    else if elapsed < MIN_ELAPSED || shares < MIN_SHARES then None
    else if ratio <= 0.0 || LOWER_RATIO < ratio < UPPER_RATIO then None
    else
      var next := Target(current, scaled, pow2);
      if Distance(next, current) / Max(current, 1.0) < 0.10 then None
      else if Distance(next, current) > EPSILON then Some(next) else None
  }

  function NextDiff(current: real, w: Window, pow2: bool): Option<real> {
    Decide(current, w.shares, w.elapsed, w.ratio, Scale(current, MAX_STEP_DOWN), Scale(current, Step(w)), pow2)
  }

  /** The difficulty after the adjustment. */
  function After(current: real, w: Window, pow2: bool): real {
    match NextDiff(current, w, pow2)
    case Some(next) => next
    case None => current
  }

  lemma SquareMonotone(a: real, b: real)
    requires 0.0 <= a <= b
    ensures a * a <= b * b
  {
    assert a * a <= a * b <= b * b;
  }

  lemma RootBounds(w: Window)
    requires w.Valid()
    ensures w.ratio <= LOWER_RATIO ==> w.root < 0.9
    ensures w.ratio >= UPPER_RATIO ==> w.root > 1.1
  {
    if w.root >= 0.9 { SquareMonotone(0.9, w.root); }
    if w.root <= 1.1 { SquareMonotone(w.root, 1.1); }
  }

  lemma Scaled(c: real, lo: real, s: real, hi: real)
    requires c > 0.0 && lo <= s <= hi
    ensures c * lo <= c * s <= c * hi
  {
  }

  lemma Between(c: real, lo: real, s: real, hi: real, raw: real)
    requires c > 0.0 && lo <= s <= hi && raw == c * s
    ensures lo * c <= raw <= hi * c
  {
    Scaled(c, lo, s, hi);
  }

  lemma DecideIs(d: real, shares: nat, elapsed: real, ratio: real, halved: real, scaled: real, pow2: bool)
    ensures var r := Decide(d, shares, elapsed, ratio, halved, scaled, pow2);
            || r == None
            || (shares == 0 && r == Some(Target(d, halved, pow2)))
            || (shares > 0 && (ratio <= LOWER_RATIO || ratio >= UPPER_RATIO) && r == Some(Target(d, scaled, pow2)))
  {
  }

  lemma AfterIs(d: real, w: Window, pow2: bool)
    ensures || After(d, w, pow2) == d
            || After(d, w, pow2) == Target(d, Scale(d, MAX_STEP_DOWN), pow2)
            || (After(d, w, pow2) == Target(d, Scale(d, Step(w)), pow2) && (w.ratio <= LOWER_RATIO || w.ratio >= UPPER_RATIO))
  {
    DecideIs(d, w.shares, w.elapsed, w.ratio, Scale(d, MAX_STEP_DOWN), Scale(d, Step(w)), pow2);
  }

  lemma StepBounds(w: Window)
    requires w.Valid() && (w.ratio <= LOWER_RATIO || w.ratio >= UPPER_RATIO)
    ensures 0.5 <= Step(w) <= 0.9 || 1.1 <= Step(w) <= 2.0
  {
    RootBounds(w);
  }

  lemma RawBounds(d: real, f: real, raw: real)
    requires d > 0.0 && raw == Scale(d, f) && (0.5 <= f <= 0.9 || 1.1 <= f <= 2.0)
    ensures d / 2.0 <= raw <= 0.9 * d || 1.1 * d <= raw <= 2.0 * d
  {
    if f <= 0.9 {
      Between(d, 0.5, f, 0.9, raw);
    } else {
      Between(d, 1.1, f, 2.0, raw);
    }
  }

  /** What the gates at the end of an adjustment let through. */
  function Gated(d: real, next: real): real {
    if Distance(next, d) / Max(d, 1.0) < 0.10 then d else next
  }

  lemma DecideGated(d: real, shares: nat, elapsed: real, ratio: real, halved: real, scaled: real, pow2: bool)
    requires d > 0.0 && shares >= MIN_SHARES
    ensures var r := Decide(d, shares, elapsed, ratio, halved, scaled, pow2);
            (if r.Some? then r.value else d) ==
            if elapsed < MIN_ELAPSED || ratio <= 0.0 || LOWER_RATIO < ratio < UPPER_RATIO then d
            else Gated(d, Target(d, scaled, pow2))
  {
    var x := Distance(Target(d, scaled, pow2), d);
    if x / Max(d, 1.0) >= 0.10 {
      assert x >= 0.10 by { DivBound(x, Max(d, 1.0)); }
    }
  }

  lemma DivBound(x: real, m: real)
    requires m >= 1.0 && x / m >= 0.10
    ensures x >= 0.10
  {
    Scaled(m, 0.10, x / m, x / m);
  }

  predicate Middling(ratio: real) {
    LOWER_RATIO < ratio < UPPER_RATIO
  }


  lemma AfterGated(d: real, w: Window, pow2: bool)
    requires d > 0.0 && w.shares >= MIN_SHARES
    ensures After(d, w, pow2) ==
            if w.elapsed < MIN_ELAPSED || w.ratio <= 0.0 || Middling(w.ratio) then d
            else Gated(d, Target(d, Scale(d, Step(w)), pow2))
  {
    DecideGated(d, w.shares, w.elapsed, w.ratio, Scale(d, MAX_STEP_DOWN), Scale(d, Step(w)), pow2);
  }

  lemma RatioPositive(w: Window)
    requires w.Valid() && w.shares >= MIN_SHARES && w.elapsed > 0.0
    ensures w.ratio > 0.0
  {
    DivPositive(w.shares as real, w.elapsed);
    DivPositive(w.shares as real / w.elapsed * 60.0, Max(w.expectedSpm, 1.0));
  }

  lemma DivPositive(a: real, m: real)
    requires a > 0.0 && m > 0.0
    ensures a / m > 0.0
  {
  }

  lemma MulPos(a: real, b: real)
    requires a > 0.0 && b > 0.0
    ensures a * b > 0.0
  {
  }

  lemma DivMonotone(a: real, b: real, m: real)
    requires a <= b && m > 0.0
    ensures a / m <= b / m
  {
    assert b / m - a / m == (b - a) / m;
  }

  lemma CeilOfOne()
    ensures CeilFrom(1.0, 1.0) == 1.0
  {
  }

  /** Ninety seconds without a share. */
  predicate Silent(w: Window) {
    w.shares == 0 && w.elapsed >= 90.0
  }

  /** A window long enough, with enough shares, that observes a quarter or more above (or below)
      the wanted number of shares. */
  predicate Busy(w: Window) {
    w.elapsed >= 30.0 && w.shares >= 3 && w.shares as real * 60.0 >= 1.25 * Scale(w.elapsed, Max(w.expectedSpm, 1.0))
  }

  predicate Slow(w: Window) {
    w.elapsed >= 30.0 && w.shares >= 3 && w.shares as real * 60.0 <= 0.75 * Scale(w.elapsed, Max(w.expectedSpm, 1.0))
  }

  lemma DivTimes(a: real, m: real)
    requires m > 0.0
    ensures a / m * m == a
  {
  }

  lemma ScaleCompares(a: real, b: real, m: real)
    requires m > 0.0
    ensures a <= b <==> a * m <= b * m
  {
    if a <= b { Scaled(m, a, a, b); } else { MulPos(a - b, m); }
  }

  /** The ratio against c, without dividing. */
  lemma RatioCompares(w: Window, c: real)
    requires w.Valid() && w.elapsed > 0.0
    ensures w.ratio <= c <==> w.shares as real * 60.0 <= c * Scale(w.elapsed, Max(w.expectedSpm, 1.0))
    ensures w.ratio >= c <==> w.shares as real * 60.0 >= c * Scale(w.elapsed, Max(w.expectedSpm, 1.0))
  {
    var e, m := w.elapsed, Max(w.expectedSpm, 1.0);
    var spm := w.shares as real / e * 60.0;
    DivTimes(w.shares as real, e);
    DivTimes(spm, m);
    MulPos(e, m);
    RatioTimes(w.shares as real, e, m, spm, w.ratio);
    ScaleCompares(w.ratio, c, e * m);
    ScaleCompares(c, w.ratio, e * m);
  }

  lemma RatioTimes(shares: real, e: real, m: real, spm: real, ratio: real)
    requires e > 0.0 && m > 0.0 && spm == shares / e * 60.0 && shares / e * e == shares && ratio * m == spm
    ensures ratio * (e * m) == shares * 60.0
  {
    assert ratio * (e * m) == (ratio * m) * e;
    assert spm * e == (shares / e * e) * 60.0;
  }

  /** Where a measured window leads: nowhere, or past the last gate. */
  lemma MeasuredLeads(d: real, w: Window, pow2: bool)
    requires d > 0.0 && w.Valid() && w.elapsed >= 30.0 && w.shares >= 3
    ensures After(d, w, pow2) == if Busy(w) || Slow(w) then Gated(d, Target(d, Scale(d, Step(w)), pow2)) else d
    ensures Busy(w) <==> w.ratio >= UPPER_RATIO
    ensures Slow(w) <==> w.ratio <= LOWER_RATIO
  {
    AfterGated(d, w, pow2);
    RatioPositive(w);
    RatioCompares(w, UPPER_RATIO);
    RatioCompares(w, LOWER_RATIO);
  }

  /** A window that is neither silent nor busy nor slow changes nothing. */
  lemma OtherwiseUnchanged(d: real, w: Window, pow2: bool)
    requires w.Valid() && !Silent(w) && !Busy(w) && !Slow(w)
    ensures After(d, w, pow2) == d
  {
    if d > 0.0 && w.elapsed >= 30.0 && w.shares >= 3 {
      MeasuredLeads(d, w, pow2);
    }
  }

  /** r is what `next` rounds to: down to a power of two if the difficulty falls, up if it rises. */
  ghost predicate RoundsTo(d: real, next: real, r: real) {
    IsPow2(r) && if next < d then r <= next < 2.0 * r else r / 2.0 < next <= r
  }

  lemma TargetIs(d: real, raw: real)
    requires d > 0.0
    ensures Target(d, raw, false) == Max(raw, 1.0)
    ensures RoundsTo(d, Max(raw, 1.0), Target(d, raw, true))
  {
    var next := Max(raw, 1.0);
    assert Pow2(0) == 1.0;
    if next < d {
      FloorBounds(1.0, next);
      FloorIsPow2(0, next);
    } else {
      CeilBounds(1.0, next);
      CeilIsPow2(0, next);
    }
  }

  /** The target: `next` itself, or what it rounds to. */
  ghost predicate Reaches(d: real, next: real, pow2: bool, r: real) {
    if pow2 then RoundsTo(d, next, r) else r == next
  }

  /** After a silent window the difficulty is half of what it was, at least 1, rounded down if
      rounding is on. Only a difficulty within the machine epsilon of 1 stays where it is. */
  lemma SilentHalves(d: real, w: Window, pow2: bool)
    requires d > 0.0 && Silent(w)
    ensures Distance(d, 1.0) > EPSILON ==> Reaches(d, Max(d / 2.0, 1.0), pow2, After(d, w, pow2))
    ensures Distance(d, 1.0) <= EPSILON ==> After(d, w, pow2) == d
    ensures d > 1.0 + EPSILON ==> After(d, w, pow2) < d
  {
    var raw := Scale(d, MAX_STEP_DOWN);
    assert raw == d / 2.0;
    TargetIs(d, raw);
    SilentDecides(d, w.elapsed, w.ratio, raw, Scale(d, Step(w)), pow2);
    NearOne(d, Max(raw, 1.0), Target(d, raw, pow2), pow2);
  }

  lemma SilentDecides(d: real, elapsed: real, ratio: real, halved: real, scaled: real, pow2: bool)
    requires d > 0.0 && elapsed >= 90.0
    ensures var next := Target(d, halved, pow2);
            Decide(d, 0, elapsed, ratio, halved, scaled, pow2) == if Distance(next, d) > EPSILON then Some(next) else None
  {
  }

  lemma NearOne(d: real, next: real, r: real, pow2: bool)
    requires d > 0.0 && next == Max(d / 2.0, 1.0) && Reaches(d, next, pow2, r)
    ensures Distance(r, d) > EPSILON <==> Distance(d, 1.0) > EPSILON
    ensures d > 1.0 ==> r < d
  {
    if pow2 {
      AtLeastOne(r);
      if next == 1.0 { OneRoundsToOne(d, r); }
    }
  }

  lemma AtLeastOne(r: real)
    requires IsPow2(r)
    ensures r >= 1.0 && (r == 1.0 || r >= 2.0)
  {
    var n: nat :| r == Pow2(n);
    if n > 0 { assert Pow2(n) == 2.0 * Pow2(n - 1); }
  }

  lemma OneRoundsToOne(d: real, r: real)
    requires RoundsTo(d, 1.0, r)
    ensures r == 1.0
  {
    AtLeastOne(r);
  }

  /** The step that a busy or slow window asks for: the root of the ratio, at most 2 and at least
      one half. */
  lemma StepSides(d: real, w: Window)
    requires d > 0.0 && w.Valid()
    ensures w.ratio >= UPPER_RATIO ==> 1.1 * d < Scale(d, Step(w)) <= 2.0 * d
    ensures w.ratio <= LOWER_RATIO ==> d / 2.0 <= Scale(d, Step(w)) < 0.9 * d
  {
    RootBounds(w);
    if w.ratio >= UPPER_RATIO {
      ScaledUp(d, Step(w), Scale(d, Step(w)));
    } else if w.ratio <= LOWER_RATIO {
      ScaledDown(d, Step(w), Scale(d, Step(w)));
    }
  }

  lemma Grows(d: real, a: real, b: real)
    requires d > 0.0 && a < b
    ensures a * d < b * d
  {
    MulPos(b - a, d);
  }

  lemma ScaledUp(d: real, f: real, raw: real)
    requires d > 0.0 && 1.1 < f <= 2.0 && raw == d * f
    ensures 1.1 * d < raw <= 2.0 * d
  {
    Between(d, 1.1, f, 2.0, raw);
    Grows(d, 1.1, f);
  }

  lemma ScaledDown(d: real, f: real, raw: real)
    requires d > 0.0 && 0.5 <= f < 0.9 && raw == d * f
    ensures d / 2.0 <= raw < 0.9 * d
  {
    Between(d, 0.5, f, 0.9, raw);
    Grows(d, f, 0.9);
  }

  lemma GateOpen(d: real, next: real)
    requires d > 0.0
    ensures Gated(d, next) == if Distance(next, d) >= 0.1 * Max(d, 1.0) then next else d
  {
    QuotientCompares(Distance(next, d), Max(d, 1.0), 0.10);
  }

  lemma QuotientCompares(x: real, m: real, c: real)
    requires m > 0.0
    ensures x / m < c <==> x < c * m
  {
    var q := x / m;
    DivTimes(x, m);
    ScaleCompares(c, q, m);
  }

  /** After a busy window a difficulty of at least 1 is multiplied by the root of the ratio, at
      most doubled, rounded up if rounding is on: it is strictly above what it was. */
  lemma BusyRaises(d: real, w: Window, pow2: bool)
    requires d >= 1.0 && w.Valid() && Busy(w)
    ensures Reaches(d, if w.root > 2.0 then 2.0 * d else Scale(d, w.root), pow2, After(d, w, pow2))
    ensures After(d, w, pow2) > 1.1 * d
  {
    var raw := Scale(d, Step(w));
    MeasuredLeads(d, w, pow2);
    RootBounds(w);
    StepSides(d, w);
    TargetIs(d, raw);
    GateOpen(d, Target(d, raw, pow2));
    assert Scale(d, 2.0) == 2.0 * d;
  }

  /** After a slow window a difficulty of at least 10/9 is multiplied by the root of the ratio, at
      most halved, kept at least 1, rounded down if rounding is on: it is strictly below what it
      was. One between 1 and 10/9 stays: the change would be under a tenth. */
  lemma SlowLowers(d: real, w: Window, pow2: bool)
    requires d >= 1.0 && w.Valid() && Slow(w)
    ensures 0.9 * d >= 1.0 ==> Reaches(d, Max(if w.root < 0.5 then d / 2.0 else Scale(d, w.root), 1.0), pow2, After(d, w, pow2))
    ensures 0.9 * d >= 1.0 ==> After(d, w, pow2) <= 0.9 * d
    ensures 0.9 * d < 1.0 ==> After(d, w, pow2) == d
  {
    var raw := Scale(d, Step(w));
    MeasuredLeads(d, w, pow2);
    RootBounds(w);
    StepSides(d, w);
    TargetIs(d, raw);
    GateOpen(d, Target(d, raw, pow2));
    assert Scale(d, 0.5) == d / 2.0;
    if pow2 && Max(raw, 1.0) == 1.0 { OneRoundsToOne(d, Target(d, raw, pow2)); }
  }

  /** A difficulty below 1 only ever rises. After a slow window it is 1, unless that is less than a
      tenth away; after a busy one it is multiplied like any other, to 1 at least, unless that
      changes it by less than a tenth. */
  lemma BelowOneRises(d: real, w: Window, pow2: bool) returns (r: real)
    requires 0.0 < d < 1.0 && w.Valid() && (Busy(w) || Slow(w))
    ensures Slow(w) ==> r == 1.0
    ensures Busy(w) ==> Reaches(d, Max(if w.root > 2.0 then 2.0 * d else Scale(d, w.root), 1.0), pow2, r)
    ensures After(d, w, pow2) == if r - d >= 0.1 then r else d
  {
    var raw := Scale(d, Step(w));
    r := Target(d, raw, pow2);
    MeasuredLeads(d, w, pow2);
    RootBounds(w);
    StepSides(d, w);
    TargetIs(d, raw);
    GateOpen(d, r);
    assert Scale(d, 2.0) == 2.0 * d;
    if pow2 { AtLeastOne(r); }
    if pow2 && Slow(w) { OneRoundsToOne(d, r); }
  }

  /** An adjustment changes nothing, or heads for a value clearly below or clearly above
      the current one, by a factor of at most two. */
  lemma AfterHeadsFor(d: real, w: Window, pow2: bool) returns (raw: real)
    requires d > 0.0 && w.Valid()
    ensures After(d, w, pow2) == d || After(d, w, pow2) == Target(d, raw, pow2)
    ensures d / 2.0 <= raw <= 0.9 * d || 1.1 * d <= raw <= 2.0 * d
  {
    AfterIs(d, w, pow2);
    if After(d, w, pow2) == d || After(d, w, pow2) == Target(d, Scale(d, MAX_STEP_DOWN), pow2) {
      raw := Scale(d, MAX_STEP_DOWN);
      RawBounds(d, MAX_STEP_DOWN, raw);
    } else {
      raw := Scale(d, Step(w));
      StepBounds(w);
      RawBounds(d, Step(w), raw);
    }
  }

  /** Without rounding, from a difficulty of at least 1, an adjustment at most halves or
      doubles and never goes below 1. */
  lemma PlainStepBounds(d: real, w: Window)
    requires d >= 1.0 && w.Valid()
    ensures Max(1.0, d / 2.0) <= After(d, w, false) <= 2.0 * d
  {
    var raw := AfterHeadsFor(d, w, false);
  }

  /** The exponent after a window: one less if it is silent or slow, but not below zero, one more
      if it is busy, and the same otherwise. */
  function Moved(n: nat, w: Window): nat {
    if Silent(w) || Slow(w) then (if n == 0 then 0 else n - 1)
    else if Busy(w) then n + 1
    else n
  }

  /** With rounding, from a power of two, an adjustment exactly halves after a silent or slow
      window, down to 1, exactly doubles after a busy one, and changes nothing otherwise. */
  lemma Pow2Step(n: nat, w: Window)
    requires w.Valid()
    ensures After(Pow2(n), w, true) == Pow2(Moved(n, w))
  {
    var d := Pow2(n);
    if Silent(w) {
      SilentHalves(d, w, true);
      if n > 0 { Pow2RoundsDown(n, d / 2.0, After(d, w, true)); }
    } else if Slow(w) {
      Pow2Slows(n, w);
    } else if Busy(w) {
      Pow2Rises(n, w);
    } else {
      OtherwiseUnchanged(d, w, true);
    }
  }

  lemma {:induction false} Pow2Injective(a: nat, b: nat)
    requires Pow2(a) < 2.0 * Pow2(b) && Pow2(b) < 2.0 * Pow2(a)
    ensures a == b
  {
    if a < b { Pow2Monotone(a + 1, b); }
    if b < a { Pow2Monotone(b + 1, a); }
  }

  lemma Pow2RoundsDown(n: nat, next: real, r: real)
    requires n > 0 && Pow2(n) / 2.0 <= next < Pow2(n) && RoundsTo(Pow2(n), next, r)
    ensures r == Pow2(n - 1)
  {
    var k: nat :| r == Pow2(k);
    Pow2Injective(k, n - 1);
  }

  lemma Pow2RoundsUp(n: nat, next: real, r: real)
    requires Pow2(n) < next <= 2.0 * Pow2(n) && RoundsTo(Pow2(n), next, r)
    ensures r == Pow2(n + 1)
  {
    var k: nat :| r == Pow2(k);
    Pow2Injective(k, n + 1);
  }

  lemma Pow2Slows(n: nat, w: Window)
    requires w.Valid() && Slow(w)
    ensures After(Pow2(n), w, true) == Pow2(if n == 0 then 0 else n - 1)
  {
    var d := Pow2(n);
    SlowLowers(d, w, true);
    MeasuredLeads(d, w, true);
    StepSides(d, w);
    assert Scale(d, 0.5) == d / 2.0;
    if n > 0 { Pow2RoundsDown(n, Max(Scale(d, Step(w)), 1.0), After(d, w, true)); }
  }

  lemma Pow2Rises(n: nat, w: Window)
    requires w.Valid() && Busy(w)
    ensures After(Pow2(n), w, true) == Pow2(n + 1)
  {
    var d := Pow2(n);
    BusyRaises(d, w, true);
    MeasuredLeads(d, w, true);
    StepSides(d, w);
    assert Scale(d, 2.0) == 2.0 * d;
    Pow2RoundsUp(n, Scale(d, Step(w)), After(d, w, true));
  }

  // ------------------------------------------------------------------- whole runs

  /** The difficulties of one worker under a sequence of windows. */
  ghost predicate Run(ds: seq<real>, ws: seq<Window>, pow2: bool) {
    && |ds| == |ws| + 1
    && forall i :: 0 <= i < |ws| ==> ws[i].Valid() && ds[i + 1] == After(ds[i], ws[i], pow2)
  }

  /** The configured start: rounded down to a power of two when rounding is on, 4 if unset. */
  function StartDiff(configured: nat, pow2: bool): real {
    if configured == 0 then 4.0
    else if pow2 then FloorFrom(1.0, configured as real)
    else configured as real
  }

  /** With rounding on, a worker starts at the greatest power of two up to the configured
      difficulty. */
  lemma StartIsPow2(configured: nat)
    ensures IsPow2(StartDiff(configured, true))
    ensures configured > 0 ==> StartDiff(configured, true) <= configured as real < 2.0 * StartDiff(configured, true)
  {
    if configured == 0 {
      assert Pow2(2) == 2.0 * Pow2(1) == 4.0;
    } else {
      assert Pow2(0) == 1.0;
      FloorIsPow2(0, configured as real);
      FloorBounds(1.0, configured as real);
    }
  }

  /** With rounding on, every difficulty of every run is a power of two of at least 1, and
      every change exactly doubles or halves it. */
  lemma {:induction false} Pow2RunStaysPow2(configured: nat, ds: seq<real>, ws: seq<Window>, n: nat)
    requires Run(ds, ws, true) && ds[0] == StartDiff(configured, true) && n <= |ws|
    ensures IsPow2(ds[n]) && ds[n] >= 1.0
    ensures n > 0 ==> ds[n] == ds[n - 1] || ds[n] == 2.0 * ds[n - 1] || ds[n] == ds[n - 1] / 2.0
    decreases n
  {
    if n == 0 {
      StartIsPow2(configured);
    } else {
      Pow2RunStaysPow2(configured, ds, ws, n - 1);
      var k: nat :| ds[n - 1] == Pow2(k);
      assert ds[n] == After(ds[n - 1], ws[n - 1], true);
      Pow2Step(k, ws[n - 1]);
      assert Pow2(0) == 1.0;
    }
    var j: nat :| ds[n] == Pow2(j);
  }

  /** The exponent after a sequence of windows. */
  function Walk(n: nat, ws: seq<Window>): nat {
    if ws == [] then n else Moved(Walk(n, ws[..|ws| - 1]), ws[|ws| - 1])
  }

  /** With rounding on, every run is a walk of the exponent: each silent or slow window takes one
      step down, to zero at least, and each busy one takes one step up. */
  lemma {:induction false} Pow2RunIsWalk(start: nat, ds: seq<real>, ws: seq<Window>, n: nat)
    requires Run(ds, ws, true) && ds[0] == Pow2(start) && n <= |ws|
    ensures ds[n] == Pow2(Walk(start, ws[..n]))
    decreases n
  {
    if n > 0 {
      Pow2RunIsWalk(start, ds, ws, n - 1);
      TakeMore(ws, n - 1);
      Pow2Step(Walk(start, ws[..n - 1]), ws[n - 1]);
    }
  }

  /** So a miner that stays silent is down at 1 after as many windows as the exponent. */
  lemma {:induction false} SilentRunComesDown(start: nat, ds: seq<real>, ws: seq<Window>, n: nat)
    requires Run(ds, ws, true) && ds[0] == Pow2(start) && n <= |ws| && forall i :: 0 <= i < |ws| ==> Silent(ws[i])
    ensures ds[n] == if n <= start then Pow2(start - n) else 1.0
    decreases n
  {
    if n > 0 {
      SilentRunComesDown(start, ds, ws, n - 1);
      var k := if n - 1 <= start then start - (n - 1) else 0;
      assert ds[n - 1] == Pow2(k);
      Pow2Step(k, ws[n - 1]);
    }
  }

  /** Without rounding every difficulty of every run is at least 1 and within a factor of
      two of the one before. */
  lemma {:induction false} PlainRunStaysBounded(configured: nat, ds: seq<real>, ws: seq<Window>, n: nat)
    requires Run(ds, ws, false) && ds[0] == StartDiff(configured, false) && n <= |ws|
    ensures ds[n] >= 1.0
    ensures n > 0 ==> Max(1.0, ds[n - 1] / 2.0) <= ds[n] <= 2.0 * ds[n - 1]
    decreases n
  {
    if n > 0 {
      PlainRunStaysBounded(configured, ds, ws, n - 1);
      PlainStepBounds(ds[n - 1], ws[n - 1]);
    }
  }

  // ----------------------------------------------------------- more shares, harder

  /** Two windows of the same length and expectation, the second with at least as many
      shares, and enough of them in both. */
  ghost predicate MoreShares(v: Window, w: Window) {
    && v.Valid() && w.Valid() && v.elapsed == w.elapsed && v.expectedSpm == w.expectedSpm
    && MIN_SHARES <= v.shares <= w.shares
  }

  lemma RatioMonotone(v: Window, w: Window)
    requires MoreShares(v, w) && v.elapsed > 0.0
    ensures v.ratio <= w.ratio && v.root <= w.root
  {
    var e, m := v.elapsed, Max(v.expectedSpm, 1.0);
    DivMonotone(v.shares as real, w.shares as real, e);
    DivMonotone(v.shares as real / e * 60.0, w.shares as real / e * 60.0, m);
    RootMonotone(v.root, w.root);
  }

  lemma RootMonotone(a: real, b: real)
    requires a >= 0.0 && b >= 0.0
    ensures a > b ==> a * a > b * b
  {
    if a > b {
      MulPos(a - b, a + b);
    }
  }

  /** A larger scaled value on the same side of the current difficulty gives a larger target. */
  lemma TargetMonotone(d: real, x: real, y: real, pow2: bool)
    requires d >= 1.0 && x <= y && (x >= d || y < d)
    ensures Target(d, x, pow2) <= Target(d, y, pow2)
    ensures y < d ==> Target(d, y, pow2) <= d
    ensures x >= d ==> Target(d, x, pow2) >= d
  {
    if pow2 {
      var a, b := Max(x, 1.0), Max(y, 1.0);
      CeilMonotone(1.0, a, b);
      FloorMonotone(1.0, a, b);
      FloorMonotone(1.0, b, b);
      CeilOfOne();
    }
  }

  lemma GatedMonotone(d: real, x: real, y: real)
    requires d > 0.0 && x <= y && (x >= d || y <= d)
    ensures Gated(d, x) <= Gated(d, y)
    ensures y <= d ==> Gated(d, y) <= d
    ensures x >= d ==> Gated(d, x) >= d
  {
    if x >= d {
      DivMonotone(Distance(x, d), Distance(y, d), Max(d, 1.0));
    } else {
      DivMonotone(Distance(y, d), Distance(x, d), Max(d, 1.0));
    }
  }

  /** Heading down never leads up, and further down with a smaller value. */
  lemma DownMonotone(d: real, x: real, y: real, pow2: bool)
    requires d > 0.9 && x <= y <= 0.9 * d
    ensures Gated(d, Target(d, x, pow2)) <= Gated(d, Target(d, y, pow2)) <= d
  {
    if d >= 1.0 {
      TargetMonotone(d, x, y, pow2);
      GatedMonotone(d, Target(d, x, pow2), Target(d, y, pow2));
    } else {
      CeilOfOne();
    }
  }

  lemma UpMonotone(d: real, x: real, y: real, pow2: bool)
    requires d > 0.9 && 1.1 * d <= x <= y
    ensures d <= Gated(d, Target(d, x, pow2)) <= Gated(d, Target(d, y, pow2))
  {
    var a, b := Max(x, 1.0), Max(y, 1.0);
    CeilMonotone(1.0, a, b);
    GatedMonotone(d, Target(d, x, pow2), Target(d, y, pow2));
  }

  lemma RawOf(d: real, w: Window) returns (raw: real)
    requires d > 0.0 && w.Valid() && !Middling(w.ratio)
    ensures raw == Scale(d, Step(w))
    ensures w.ratio <= LOWER_RATIO ==> raw <= 0.9 * d
    ensures w.ratio >= UPPER_RATIO ==> raw >= 1.1 * d
  {
    raw := Scale(d, Step(w));
    RootBounds(w);
    if w.ratio <= LOWER_RATIO {
      Between(d, 0.5, Step(w), 0.9, raw);
    } else {
      Between(d, 1.1, Step(w), 2.0, raw);
    }
  }

  lemma ScaleMonotone(d: real, v: Window, w: Window)
    requires d > 0.0 && v.root <= w.root
    ensures Scale(d, Step(v)) <= Scale(d, Step(w))
  {
    Scaled(d, Step(v), Step(v), Step(w));
  }

  lemma MonotoneAbove(d: real, v: Window, w: Window, pow2: bool)
    requires d > 0.9 && MoreShares(v, w)
    ensures After(d, v, pow2) <= After(d, w, pow2)
  {
    AfterGated(d, v, pow2);
    AfterGated(d, w, pow2);
    if v.elapsed >= MIN_ELAPSED {
      RatioPositive(v);
      RatioPositive(w);
      RatioMonotone(v, w);
      GatedSidesMonotone(d, v, w, pow2);
    }
  }

  lemma GatedSidesMonotone(d: real, v: Window, w: Window, pow2: bool)
    requires d > 0.9 && v.Valid() && w.Valid() && v.ratio <= w.ratio && v.root <= w.root
    ensures (if Middling(v.ratio) then d else Gated(d, Target(d, Scale(d, Step(v)), pow2)))
         <= (if Middling(w.ratio) then d else Gated(d, Target(d, Scale(d, Step(w)), pow2)))
  {
    ScaleMonotone(d, v, w);
    if !Middling(v.ratio) {
      var x := RawOf(d, v);
      if v.ratio <= LOWER_RATIO { DownMonotone(d, x, x, pow2); } else { UpMonotone(d, x, x, pow2); }
    }
    if !Middling(w.ratio) {
      var y := RawOf(d, w);
      if w.ratio <= LOWER_RATIO { DownMonotone(d, Scale(d, Step(v)), y, pow2); } else { UpMonotone(d, y, y, pow2); }
    }
    if v.ratio >= UPPER_RATIO {
      UpMonotone(d, Scale(d, Step(v)), Scale(d, Step(w)), pow2);
    }
  }

  /** More shares in the same window never lead to a lower difficulty. */
  ghost predicate Monotone(d: real, pow2: bool) {
    forall v, w :: MoreShares(v, w) ==> After(d, v, pow2) <= After(d, w, pow2)
  }

  lemma DecideFew(d: real, halved: real, scaled: real, pow2: bool)
    requires 0.0 < d <= 0.9 && scaled < 1.0
    ensures Decide(d, 9, 60.0, 0.5625, halved, scaled, pow2) == Some(1.0)
    ensures Decide(d, 16, 60.0, 1.0, halved, scaled, pow2) == None
  {
    CeilOfOne();
    assert Target(d, scaled, pow2) == 1.0;
  }

  /** From a difficulty of at most 0.9, too few shares lead up to 1 while the wanted
      number changes nothing. */
  lemma FewSharesLeadUp(d: real, pow2: bool) returns (few: Window, enough: Window)
    requires 0.0 < d <= 0.9
    ensures MoreShares(few, enough) && After(d, few, pow2) == 1.0 && After(d, enough, pow2) == d
  {
    few, enough := Window(9, 60.0, 16.0, 0.5625, 0.75), Window(16, 60.0, 16.0, 1.0, 1.0);
    Between(d, 0.75, Step(few), 0.75, Scale(d, Step(few)));
    Between(d, 1.0, Step(enough), 1.0, Scale(d, Step(enough)));
    DecideFew(d, Scale(d, MAX_STEP_DOWN), Scale(d, Step(few)), pow2);
    DecideFew(d, Scale(d, MAX_STEP_DOWN), Scale(d, Step(enough)), pow2);
  }

  lemma NeverAdjusted(d: real, w: Window, pow2: bool)
    requires d <= 0.0
    ensures After(d, w, pow2) == d
  {
  }

  /** Monotonicity is false in general. It holds exactly for difficulties above 0.9, or not
      positive, which are never adjusted. */
  lemma MonotoneExactly(d: real, pow2: bool)
    ensures Monotone(d, pow2) <==> d <= 0.0 || d > 0.9
  {
    if 0.0 < d <= 0.9 {
      var few, enough := FewSharesLeadUp(d, pow2);
    } else {
      forall v, w | MoreShares(v, w) ensures After(d, v, pow2) <= After(d, w, pow2) {
        if d > 0.9 {
          MonotoneAbove(d, v, w, pow2);
        } else {
          NeverAdjusted(d, v, pow2);
          NeverAdjusted(d, w, pow2);
        }
      }
    }
  }
}
