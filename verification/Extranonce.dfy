/** How the nonce space is split between miners: assignment of extranonces
    (bridge/src/client_handler.rs) and assembly of submitted nonces and of the key that
    identifies a submission (bridge/src/share_handler.rs). */
module Extranonce {
  import opened Bytes
  import opened Hex

  const MAX_EXTRANONCE: int := 65535
  const TWO_48: int := 0x1_0000_0000_0000
  const TWO_64: int := 0x1_0000_0000_0000_0000

  // --------------------------------------------------------------------- assignment

  /** The counter shared by all clients; `issued` counts the assignments made from it. */
  class ExtranonceCounter {
    var next: int
    ghost var issued: nat

    ghost predicate Valid()
      reads this
    {
      next == issued % 65536
    }

    constructor ()
      ensures Valid() && issued == 0
    {
      next, issued := 0, 0;
    }

    /** `assign_extranonce_for_miner`: none for a Bitmain miner; otherwise the counter's value
        as four digits, and the counter moves on, wrapping to zero. */
    method Assign(isBitmain: bool) returns (extranonce: string)
      requires Valid()
      modifies this
      ensures Valid()
      ensures isBitmain ==> extranonce == "" && issued == old(issued) && next == old(next)
      ensures !isBitmain ==> extranonce == Assigned(old(issued)) && issued == old(issued) + 1
    {
      if isBitmain {
        return "";
      }
      var val := next;
      if val < MAX_EXTRANONCE {
        next := val + 1;
      } else {
        next := 0;
      }
      issued := issued + 1;
      extranonce := Padded(4, val);
    }
  }

  /** The n-th extranonce handed out, counting from zero. */
  function Assigned(n: nat): (e: string)
    ensures |e| == 4
  {
    Padded(4, n % 65536)
  }

  lemma Pow16Of4()
    ensures Pow16(4) == 65536
  {
    assert Pow16(2) == 256;
  }

  lemma Pow16Of12()
    ensures Pow16(12) == TWO_48 && Pow16(16) == TWO_64
  {
    Pow16Of4();
    assert Pow16(6) == 0x100_0000;
    assert Pow16(8) == 0x1_0000_0000;
    assert Pow16(10) == 0x100_0000_0000;
    assert Pow16(12) == TWO_48;
    assert Pow16(14) == 0x100_0000_0000_0000;
  }

  /** Two assignments coincide exactly when a whole number of rounds lies between them; so
      any 65536 in a row are pairwise distinct. */
  lemma AssignedTwiceExactly(m: nat, n: nat)
    ensures Assigned(m) == Assigned(n) <==> m % 65536 == n % 65536
    ensures m < n < m + 65536 ==> Assigned(m) != Assigned(n)
  {
    Pow16Of4();
    PaddedReadsBack(4, m % 65536);
    PaddedReadsBack(4, n % 65536);
  }

  // ----------------------------------------------------------------------- assembly

  function Zeros(n: nat): string { seq(n, _ => '0') }

  /** The extranonce in front and zeros between, unless the nonce is too long for that. */
  function Assembled(extranonce: string, nonce: string): string
    requires |extranonce| <= 16
  {
    if extranonce != "" && |nonce| <= 16 - |extranonce|
    then extranonce + Zeros(16 - |extranonce| - |nonce|) + nonce
    else nonce
  }

  /** Parsing as an unsigned 64-bit number in base 16: an optional plus sign, then one or more
      digits, leading zeros without limit. */
  function Parsed(s: string): Option<nat> {
    var digits := if s != "" && s[0] == '+' then s[1..] else s;
    if digits == "" then None
    else
      match DigitsOf(digits)
      case Some(v) => if v < TWO_64 then Some(v) else None
      case None => None
  }

  function NonceOf(extranonce: string, nonce: string): Option<nat>
    requires |extranonce| <= 16
  {
    Parsed(Assembled(extranonce, nonce))
  }

  lemma {:induction false} ZerosValue(n: nat)
    ensures DigitsOf(Zeros(n)) == Some(0)
  {
    if n > 0 {
      ZerosValue(n - 1);
      assert Zeros(n)[..n - 1] == Zeros(n - 1);
    }
  }

  /** A nonce of up to 12 characters under the n-th extranonce: it is taken exactly when
      all its characters are digits, and it sets the low 48 bits under the extranonce. */
  lemma ShortNonce(n: nat, nonce: string)
    requires |nonce| <= 12
    ensures NonceOf(Assigned(n), nonce).Some? <==> DigitsOf(nonce).Some?
    ensures NonceOf(Assigned(n), nonce).Some? ==>
              && NonceOf(Assigned(n), nonce).value == (n % 65536) * TWO_48 + DigitsOf(nonce).value
              && DigitsOf(nonce).value < TWO_48
  {
    var low := Zeros(12 - |nonce|) + nonce;
    LowDigits(nonce);
    HighAndLow(n, low);
    AssembledParts(n, nonce);
    NoSign(Assigned(n) + low);
  }

  lemma AssembledParts(n: nat, nonce: string)
    requires |nonce| <= 12
    ensures Assembled(Assigned(n), nonce) == Assigned(n) + (Zeros(12 - |nonce|) + nonce)
    ensures Assembled(Assigned(n), nonce)[0] != '+'
  {
    PaddedLowercase(4, n % 65536);
    assert LowercaseDigit(Assigned(n)[0]);
  }

  lemma HighAndLow(n: nat, low: string)
    requires |low| == 12
    ensures DigitsOf(Assigned(n) + low) ==
            if DigitsOf(low).Some? then Some((n % 65536) * TWO_48 + DigitsOf(low).value) else None
  {
    assert Pow16(|low|) == TWO_48 by { Pow16Of12(); }
    assert DigitsOf(Assigned(n)) == Some(n % 65536) by {
      Pow16Of4();
      PaddedReadsBack(4, n % 65536);
    }
    DigitsOfConcat(Assigned(n), low);
  }

  lemma LowDigits(nonce: string)
    requires |nonce| <= 12
    ensures DigitsOf(Zeros(12 - |nonce|) + nonce) == DigitsOf(nonce)
    ensures DigitsOf(nonce).Some? ==> DigitsOf(nonce).value < TWO_48
  {
    ZerosAddNothing(12 - |nonce|, nonce);
    TwelveDigits(Zeros(12 - |nonce|) + nonce);
  }

  lemma TwelveDigits(s: string)
    requires |s| == 12
    ensures DigitsOf(s).Some? ==> DigitsOf(s).value < TWO_48
  {
    if DigitsOf(s).Some? {
      DigitsOfBelow(s);
      assert Pow16(12) == TWO_48 by { Pow16Of12(); }
    }
  }

  lemma ZerosAddNothing(z: nat, s: string)
    ensures DigitsOf(Zeros(z) + s) == DigitsOf(s)
  {
    ZerosValue(z);
    DigitsOfConcat(Zeros(z), s);
    assert 0 * Pow16(|s|) == 0;
  }

  lemma NoSign(s: string)
    requires s != "" && s[0] != '+'
    ensures Parsed(s) == if DigitsOf(s).Some? && DigitsOf(s).value < TWO_64 then DigitsOf(s) else None
  {
  }

  // ---------------------------------------------------------------------- partition

  /** An extranonce that a miner can have: a number from the counter, or none. */
  ghost predicate IsExtranonce(e: string) {
    e == "" || exists n: nat :: e == Assigned(n)
  }

  /** The text is short enough to be placed under the extranonce. */
  predicate Bound(e: string, s: string) {
    e != "" && |s| <= 12
  }

  /** A bound text of the n-th extranonce means the nonce v exactly when v's upper 16 bits are
      the extranonce and its lower 48 the text's value. */
  lemma BoundMeans(n: nat, s: string, v: nat)
    requires |s| <= 12 && NonceOf(Assigned(n), s).Some?
    ensures NonceOf(Assigned(n), s).value == v <==> v / TWO_48 == n % 65536 && DigitsOf(s) == Some(v % TWO_48)
  {
    ShortNonce(n, s);
    HighLow(n % 65536, DigitsOf(s).value, v);
  }

  lemma HighLow(h: nat, l: nat, v: nat)
    requires l < TWO_48
    ensures h * TWO_48 + l == v <==> v / TWO_48 == h && v % TWO_48 == l
  {
  }

  /** An unbound text means the same to every miner. */
  lemma UnboundMeans(e: string, s: string)
    requires IsExtranonce(e) && !Bound(e, s)
    ensures NonceOf(e, s) == Parsed(s)
  {
  }

  lemma ParsedInAnyCase(s: string)
    ensures Parsed(LowerText(s)) == Parsed(s)
  {
    if s != "" && s[0] == '+' {
      AnyCase(s[1..]);
      assert LowerText(s)[1..] == LowerText(s[1..]);
    } else {
      AnyCase(s);
    }
  }

  lemma BoundInAnyCase(n: nat, s: string)
    requires |s| <= 12
    ensures NonceOf(Assigned(n), LowerText(s)) == NonceOf(Assigned(n), s)
  {
    AnyCase(s);
    ShortNonce(n, s);
    ShortNonce(n, LowerText(s));
  }

  /** The case of a submitted nonce does not matter, to any miner. */
  lemma NonceInAnyCase(e: string, s: string)
    requires IsExtranonce(e)
    ensures NonceOf(e, LowerText(s)) == NonceOf(e, s)
  {
    if Bound(e, s) {
      var n: nat :| e == Assigned(n);
      BoundInAnyCase(n, s);
    } else {
      ParsedInAnyCase(s);
      UnboundMeans(e, s);
      UnboundMeans(e, LowerText(s));
    }
  }

  /** Whether two submissions of miners with different extranonces are the same nonce. */
  ghost predicate Meet(e: string, s: string, f: string, t: string)
    requires IsExtranonce(e) && IsExtranonce(f) && NonceOf(e, s).Some? && NonceOf(f, t).Some?
  {
    if Bound(e, s) && Bound(f, t) then false
    else if Bound(e, s) then DigitsOf(e) == Some(Parsed(t).value / TWO_48) && DigitsOf(s) == Some(Parsed(t).value % TWO_48)
    else if Bound(f, t) then DigitsOf(f) == Some(Parsed(s).value / TWO_48) && DigitsOf(t) == Some(Parsed(s).value % TWO_48)
    else Parsed(s) == Parsed(t)
  }

  lemma AssignedReads(n: nat)
    ensures DigitsOf(Assigned(n)) == Some(n % 65536)
  {
    Pow16Of4();
    PaddedReadsBack(4, n % 65536);
  }

  /** For all extranonces and texts of all lengths: nonces of miners with different extranonces
      never meet while both texts are bound; a bound and an unbound text meet exactly when the
      unbound one spells the other's extranonce and value; two unbound texts exactly when they
      are the same number. */
  lemma MeetExactly(e: string, s: string, f: string, t: string)
    requires IsExtranonce(e) && IsExtranonce(f) && e != f && NonceOf(e, s).Some? && NonceOf(f, t).Some?
    ensures NonceOf(e, s) == NonceOf(f, t) <==> Meet(e, s, f, t)
  {
    if Bound(e, s) && Bound(f, t) {
      BothBound(e, s, f, t);
    } else if Bound(e, s) {
      UnboundMeans(f, t);
      OneBound(e, s, NonceOf(f, t).value);
    } else if Bound(f, t) {
      UnboundMeans(e, s);
      OneBound(f, t, NonceOf(e, s).value);
    } else {
      UnboundMeans(e, s);
      UnboundMeans(f, t);
    }
  }

  lemma BothBound(e: string, s: string, f: string, t: string)
    requires IsExtranonce(e) && IsExtranonce(f) && e != f && Bound(e, s) && Bound(f, t)
    requires NonceOf(e, s).Some? && NonceOf(f, t).Some?
    ensures NonceOf(e, s) != NonceOf(f, t)
  {
    var m: nat :| e == Assigned(m);
    var n: nat :| f == Assigned(n);
    BoundMeans(m, s, NonceOf(e, s).value);
    BoundMeans(n, t, NonceOf(f, t).value);
    AssignedTwiceExactly(m, n);
  }

  lemma OneBound(e: string, s: string, v: nat)
    requires IsExtranonce(e) && Bound(e, s) && NonceOf(e, s).Some?
    ensures NonceOf(e, s).value == v <==> DigitsOf(e) == Some(v / TWO_48) && DigitsOf(s) == Some(v % TWO_48)
  {
    var n: nat :| e == Assigned(n);
    AssignedReads(n);
    BoundMeans(n, s, v);
  }

  /** Texts of up to 12 characters keep all numbered miners apart. A miner without an
      extranonce meets exactly the one numbered zero, on equal values. */
  lemma ShortTextsMeetExactly(e: string, s: string, f: string, t: string)
    requires |s| <= 12 && |t| <= 12
    requires IsExtranonce(e) && IsExtranonce(f) && e != f && NonceOf(e, s).Some? && NonceOf(f, t).Some?
    ensures NonceOf(e, s) == NonceOf(f, t) <==>
            || (e == "" && f == Assigned(0) && Parsed(s) == DigitsOf(t))
            || (f == "" && e == Assigned(0) && Parsed(t) == DigitsOf(s))
  {
    MeetExactly(e, s, f, t);
    if e == "" {
      MeetsZero(s, f, t);
    } else if f == "" {
      MeetsZero(t, e, s);
    }
  }

  lemma MeetsZero(s: string, f: string, t: string)
    requires |s| <= 12 && |t| <= 12 && f != "" && IsExtranonce(f) && Parsed(s).Some? && NonceOf(f, t).Some?
    ensures DigitsOf(f) == Some(Parsed(s).value / TWO_48) && DigitsOf(t) == Some(Parsed(s).value % TWO_48) <==>
            f == Assigned(0) && Parsed(s) == DigitsOf(t)
  {
    var v := Parsed(s).value;
    ShortParsed(s);
    SmallSplit(v);
    ReadsZero(f);
  }

  lemma SmallSplit(v: nat)
    requires v < TWO_48
    ensures v / TWO_48 == 0 && v % TWO_48 == v
  {
  }

  lemma ReadsZero(f: string)
    requires f != "" && IsExtranonce(f)
    ensures DigitsOf(f) == Some(0) <==> f == Assigned(0)
  {
    var n: nat :| f == Assigned(n);
    AssignedReads(n);
    AssignedTwiceExactly(n, 0);
  }

  lemma ShortParsed(s: string)
    requires |s| <= 12 && Parsed(s).Some?
    ensures Parsed(s).value < TWO_48
  {
    LowDigits(if s[0] == '+' then s[1..] else s);
  }

  /** For every text of 1 to 12 digits there is a collision, with every miner numbered zero. */
  lemma UnnumberedMinerCollides(s: string, n: nat)
    requires 1 <= |s| <= 12 && DigitsOf(s).Some? && n % 65536 == 0
    ensures NonceOf("", s).Some? && NonceOf("", s) == NonceOf(Assigned(n), s)
  {
    MinerZero(s, n);
    PlainText(s);
  }

  lemma MinerZero(s: string, n: nat)
    requires |s| <= 12 && DigitsOf(s).Some? && n % 65536 == 0
    ensures NonceOf(Assigned(n), s) == DigitsOf(s)
  {
    var v := DigitsOf(s).value;
    assert NonceOf(Assigned(n), s).Some? && v < TWO_48 by { ShortNonce(n, s); }
    SmallSplit(v);
    BoundMeans(n, s, v);
  }

  lemma PlainText(s: string)
    requires 1 <= |s| <= 12 && DigitsOf(s).Some?
    ensures NonceOf("", s) == DigitsOf(s)
  {
    PlusIsNoDigit(s);
    NoSign(s);
    assert DigitsOf(s).value < TWO_48 by { LowDigits(s); }
  }

  lemma {:induction false} PlusIsNoDigit(s: string)
    requires s != "" && DigitsOf(s).Some?
    ensures s[0] != '+'
  {
    if |s| > 1 {
      PlusIsNoDigit(s[..|s| - 1]);
    }
  }

  /** Submitted by any two miners with different extranonces, the two texts are different
      nonces. */
  ghost predicate KeepApart(s: string, t: string) {
    forall e, f | IsExtranonce(e) && IsExtranonce(f) && e != f && NonceOf(e, s).Some? && NonceOf(f, t).Some? ::
      NonceOf(e, s) != NonceOf(f, t)
  }

  /** The low 48 bits of s, as every unbound reader has it, are what t spells. */
  predicate LowEqual(s: string, t: string) {
    Parsed(s).Some? && DigitsOf(t) == Some(Parsed(s).value % TWO_48)
  }

  predicate SameNumber(s: string, t: string) {
    Parsed(s).Some? && Parsed(s) == Parsed(t)
  }

  /** What two texts must not do, decided by their lengths and values alone. */
  predicate MayMeet(s: string, t: string) {
    if |s| <= 12 && |t| <= 12 then LowEqual(s, t) || LowEqual(t, s)
    else if |t| <= 12 then SameNumber(s, t) || LowEqual(s, t)
    else if |s| <= 12 then SameNumber(s, t) || LowEqual(t, s)
    else SameNumber(s, t)
  }

  /** Two texts keep all pairs of miners apart if and only if they may not meet. */
  lemma KeepApartExactly(s: string, t: string)
    ensures KeepApart(s, t) <==> !MayMeet(s, t)
  {
    if MayMeet(s, t) {
      var e, f := Meeting(s, t);
    } else {
      forall e, f | IsExtranonce(e) && IsExtranonce(f) && e != f && NonceOf(e, s).Some? && NonceOf(f, t).Some?
        ensures NonceOf(e, s) != NonceOf(f, t)
      {
        MeetExactly(e, s, f, t);
        NotMeeting(e, s, f, t);
      }
    }
  }

  lemma NotMeeting(e: string, s: string, f: string, t: string)
    requires IsExtranonce(e) && IsExtranonce(f) && e != f && NonceOf(e, s).Some? && NonceOf(f, t).Some? && !MayMeet(s, t)
    ensures !Meet(e, s, f, t)
  {
  }

  /** Miners on whom two texts meet. */
  lemma Meeting(s: string, t: string) returns (e: string, f: string)
    requires MayMeet(s, t)
    ensures IsExtranonce(e) && IsExtranonce(f) && e != f && NonceOf(e, s).Some? && NonceOf(e, s) == NonceOf(f, t)
  {
    if |t| <= 12 && LowEqual(s, t) {
      f := Landing(s, t);
      e := "";
    } else if |s| <= 12 && LowEqual(t, s) {
      e := Landing(t, s);
      f := "";
    } else if |s| > 12 {
      e, f := Assigned(0), "";
    } else {
      e, f := "", Assigned(0);
    }
  }

  /** The numbered miner under whom t is the number s. */
  lemma Landing(s: string, t: string) returns (f: string)
    requires |t| <= 12 && LowEqual(s, t)
    ensures f != "" && IsExtranonce(f) && NonceOf(f, t) == Parsed(s)
  {
    var v := Parsed(s).value;
    var n: nat := v / TWO_48;
    f := Assigned(n);
    ShortNonce(n, t);
    BoundMeans(n, t, v);
  }

  // ----------------------------------------------------------------- submission keys

  function Decimal(n: nat): (s: string)
    ensures |s| > 0
  {
    if n < 10 then [(('0' as int) + n) as char] else Decimal(n / 10) + [(('0' as int) + n % 10) as char]
  }

  function SubmitKey(worker: string, job: nat, nonce: string): string {
    worker + "|" + Decimal(job) + "|" + nonce
  }

  lemma {:induction false} DecimalDigits(n: nat)
    ensures forall i :: 0 <= i < |Decimal(n)| ==> '0' <= Decimal(n)[i] <= '9'
  {
    if n >= 10 {
      DecimalDigits(n / 10);
    }
  }

  lemma {:induction false} DecimalInjective(m: nat, n: nat)
    requires Decimal(m) == Decimal(n)
    ensures m == n
  {
    var a, b := Decimal(m), Decimal(n);
    assert a[|a| - 1] == b[|b| - 1];
    assert m % 10 == n % 10;
    if m >= 10 && n >= 10 {
      assert a[..|a| - 1] == Decimal(m / 10) && b[..|b| - 1] == Decimal(n / 10);
      DecimalInjective(m / 10, n / 10);
    }
  }

  function DecimalValue(s: string): int {
    if s == "" then 0 else 10 * DecimalValue(s[..|s| - 1]) + (s[|s| - 1] as int - '0' as int)
  }

  /** The decimal digits of n spell n. */
  lemma {:induction false} DecimalReads(n: nat)
    ensures DecimalValue(Decimal(n)) == n
  {
    var s := Decimal(n);
    if n >= 10 {
      DecimalReads(n / 10);
      AppendOne(Decimal(n / 10), s[|s| - 1]);
    } else {
      assert s[..0] == "";
    }
  }

  /** Cutting at the last separator is unambiguous. */
  lemma LastCut(x: string, a: string, y: string, b: string)
    requires x + "|" + a == y + "|" + b
    requires '|' !in a && '|' !in b
    ensures x == y && a == b
  {
    var s, t := x + "|" + a, y + "|" + b;
    assert s[|x|] == '|' && t[|y|] == '|';
    assert s[..|x|] == x && t[..|y|] == y && s[|x| + 1..] == a && t[|y| + 1..] == b;
  }

  lemma {:induction false} DigitsHaveNoBar(s: string)
    requires DigitsOf(s).Some?
    ensures '|' !in s
  {
    if s != "" {
      DigitsHaveNoBar(s[..|s| - 1]);
      assert s == s[..|s| - 1] + [s[|s| - 1]];
    }
  }

  lemma ParsedHasNoBar(s: string)
    requires Parsed(s).Some?
    ensures '|' !in s
  {
    var digits := if s != "" && s[0] == '+' then s[1..] else s;
    DigitsHaveNoBar(digits);
    assert s[0] == '+' ==> s == ['+'] + digits;
  }

  /** Keys of nonces that parse, under any worker names, agree exactly when worker, job and
      nonce text all do: a separator inside a worker name cannot confuse them. */
  lemma SubmitKeyInjective(w: string, i: nat, s: string, x: string, j: nat, t: string)
    requires Parsed(s).Some? && Parsed(t).Some?
    ensures SubmitKey(w, i, s) == SubmitKey(x, j, t) <==> w == x && i == j && s == t
  {
    if SubmitKey(w, i, s) == SubmitKey(x, j, t) {
      ParsedHasNoBar(s);
      ParsedHasNoBar(t);
      LastCut(w + "|" + Decimal(i), s, x + "|" + Decimal(j), t);
      DecimalDigits(i);
      DecimalDigits(j);
      LastCut(w, Decimal(i), x, Decimal(j));
      DecimalInjective(i, j);
    }
  }

  /** The text is 16 lowercase digits. */
  predicate Canonical(s: string) {
    |s| == 16 && Lowercase(s)
  }

  /** For every extranonce and every text that parses: what is assembled is the 16-digit
      spelling of its nonce exactly when it has 16 characters, all lowercase digits. */
  lemma CanonicalExactly(e: string, s: string)
    requires |e| <= 16 && NonceOf(e, s).Some?
    ensures Assembled(e, s) == Padded(16, NonceOf(e, s).value) <==> Canonical(Assembled(e, s))
  {
    var a := Assembled(e, s);
    PaddedLowercase(16, NonceOf(e, s).value);
    if Canonical(a) {
      assert LowercaseDigit(a[0]);
      NoSign(a);
      LowercaseIsPadded(a);
    }
  }

  /** Told from extranonce and text: bound texts need only be lowercase, any other text must be
      16 lowercase digits itself. */
  lemma AssembledCanonicalExactly(e: string, s: string)
    requires IsExtranonce(e)
    ensures Canonical(Assembled(e, s)) <==> Lowercase(s) && (Bound(e, s) || |s| == 16)
  {
    if Bound(e, s) {
      var n: nat :| e == Assigned(n);
      PaddedLowercase(4, n % 65536);
      var a, front := Assembled(e, s), e + Zeros(12 - |s|);
      assert a == front + s && Lowercase(front);
      LowercaseBack(front, s);
    }
  }

  lemma LowercaseBack(a: string, b: string)
    requires Lowercase(a)
    ensures Lowercase(a + b) <==> Lowercase(b)
  {
    if Lowercase(a + b) {
      forall i | 0 <= i < |b| ensures LowercaseDigit(b[i]) {
        assert (a + b)[|a| + i] == b[i];
      }
    }
  }

  /** The key under which a share goes when its nonce is spelled with 16 lowercase digits. */
  function CanonicalKey(worker: string, job: nat, nonce: nat): string {
    SubmitKey(worker, job, Padded(16, nonce))
  }

  lemma CanonicalParses(v: nat)
    requires v < TWO_64
    ensures Parsed(Padded(16, v)) == Some(v)
  {
    PaddedLowercase(16, v);
    assert Pow16(16) == TWO_64 by { Pow16Of12(); }
    PaddedReadsBack(16, v);
    assert LowercaseDigit(Padded(16, v)[0]);
    NoSign(Padded(16, v));
  }

  /** A submission goes under the canonical key of its share if and only if its text is lowercase
      and bound or 16 digits long; and canonical keys agree exactly when the shares, that is
      worker, job and 64-bit nonce, do. */
  lemma KeyIsCanonicalExactly(w: string, i: nat, e: string, s: string)
    requires IsExtranonce(e) && NonceOf(e, s).Some?
    ensures SubmitKey(w, i, Assembled(e, s)) == CanonicalKey(w, i, NonceOf(e, s).value) <==> Lowercase(s) && (Bound(e, s) || |s| == 16)
  {
    CanonicalExactly(e, s);
    AssembledCanonicalExactly(e, s);
    CanonicalParses(NonceOf(e, s).value);
    SubmitKeyInjective(w, i, Assembled(e, s), w, i, Padded(16, NonceOf(e, s).value));
  }

  lemma CanonicalKeysAgreeExactly(w: string, i: nat, u: nat, x: string, j: nat, v: nat)
    requires u < TWO_64 && v < TWO_64
    ensures CanonicalKey(w, i, u) == CanonicalKey(x, j, v) <==> w == x && i == j && u == v
  {
    CanonicalParses(u);
    CanonicalParses(v);
    SubmitKeyInjective(w, i, Padded(16, u), x, j, Padded(16, v));
  }

  /** Of two submissions of one share, the first with a canonical text, the second goes under the
      same key exactly when its text is canonical too. */
  lemma KeyIdentifiesShare(w: string, i: nat, e: string, s: string, x: string, j: nat, f: string, t: string)
    requires IsExtranonce(e) && IsExtranonce(f) && NonceOf(e, s).Some? && NonceOf(f, t).Some?
    requires Lowercase(s) && (Bound(e, s) || |s| == 16)
    ensures SubmitKey(w, i, Assembled(e, s)) == SubmitKey(x, j, Assembled(f, t)) <==>
            && w == x && i == j && NonceOf(e, s) == NonceOf(f, t)
            && Lowercase(t) && (Bound(f, t) || |t| == 16)
  {
    CanonicalExactly(e, s);
    CanonicalExactly(f, t);
    AssembledCanonicalExactly(e, s);
    AssembledCanonicalExactly(f, t);
    SubmitKeyInjective(w, i, Assembled(e, s), x, j, Assembled(f, t));
  }

  /** No key is a share's only key: every submission has an alias, another text of the same
      miner that is the same nonce and goes under a different key. */
  lemma EveryShareHasAnAlias(w: string, i: nat, e: string, s: string) returns (t: string)
    requires |e| <= 16 && NonceOf(e, s).Some?
    ensures NonceOf(e, t) == NonceOf(e, s) && SubmitKey(w, i, Assembled(e, t)) != SubmitKey(w, i, Assembled(e, s))
  {
    var v := NonceOf(e, s).value;
    var z := if |Assembled(e, s)| == 17 then 2 else 1;
    t := Zeros(z) + Padded(16, v);
    PaddedAlias(z, v);
    assert Assembled(e, t) == t;
    SubmitKeyInjective(w, i, Assembled(e, s), w, i, t);
  }

  lemma PaddedAlias(z: nat, v: nat)
    requires v < TWO_64 && z > 0
    ensures Parsed(Zeros(z) + Padded(16, v)) == Some(v)
  {
    assert Pow16(16) == TWO_64 by { Pow16Of12(); }
    PaddedReadsBack(16, v);
    ZerosAddNothing(z, Padded(16, v));
    NoSign(Zeros(z) + Padded(16, v));
  }
}
