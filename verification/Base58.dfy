/** Base58 encoding by carry propagation over a digit vector
    (`base58btc_encode` in inference/src/ai_payload.rs). */
module Base58 {
  import opened Bytes
  import opened Words

  type digit = d: int | 0 <= d < 58

  // ------------------------------------------------------------------- numbers

  /** The number a little-endian base-58 digit string stands for. */
  function DigitsValue(ds: seq<digit>): nat {
    if ds == [] then 0 else ds[0] + 58 * DigitsValue(ds[1..])
  }

  // ------------------------------------------------------------- the digit vector

  function Push(carry: nat): seq<digit> {
    if carry == 0 then [] else [carry % 58] + Push(carry / 58)
  }

  /** One input byte: every digit times 256, plus the byte. */
  function MulAdd(ds: seq<digit>, carry: nat): seq<digit> {
    if ds == [] then Push(carry)
    else
      var c: nat := carry + 256 * (ds[0] as int);
      [c % 58] + MulAdd(ds[1..], c / 58)
  }

  function Digits(input: Bytes): seq<digit> {
    if input == [] then [0] else MulAdd(Digits(input[..|input| - 1]), input[|input| - 1])
  }

  /** No digit to spare: the top digit is nonzero, or there is just the digit 0. */
  predicate Canonical(ds: seq<digit>) {
    ds == [0] || (ds != [] && ds[|ds| - 1] != 0)
  }

  lemma {:induction false} PushValue(carry: nat)
    ensures DigitsValue(Push(carry)) == carry
    ensures carry > 0 ==> Push(carry) != [] && Push(carry)[|Push(carry)| - 1] != 0
    decreases carry
  {
    if carry > 0 {
      PushValue(carry / 58);
      assert Push(carry)[1..] == Push(carry / 58);
    }
  }

  lemma {:induction false} MulAddValue(ds: seq<digit>, carry: nat)
    ensures DigitsValue(MulAdd(ds, carry)) == 256 * DigitsValue(ds) + carry
    decreases ds
  {
    if ds == [] {
      PushValue(carry);
    } else {
      var c: nat := carry + 256 * (ds[0] as int);
      MulAddValue(ds[1..], c / 58);
      assert MulAdd(ds, carry)[1..] == MulAdd(ds[1..], c / 58);
      assert c == 58 * (c / 58) + c % 58;
    }
  }

  lemma {:induction false} MulAddTop(ds: seq<digit>, carry: nat)
    requires ds != [] && ds[|ds| - 1] != 0
    ensures MulAdd(ds, carry) != [] && MulAdd(ds, carry)[|MulAdd(ds, carry)| - 1] != 0
    decreases ds
  {
    var c: nat := carry + 256 * (ds[0] as int);
    if |ds| == 1 {
      assert MulAdd(ds[1..], c / 58) == Push(c / 58);
      assert c / 58 > 0;
      PushValue(c / 58);
    } else {
      MulAddTop(ds[1..], c / 58);
    }
  }

  lemma MulAddCanonical(ds: seq<digit>, carry: nat)
    requires Canonical(ds)
    ensures Canonical(MulAdd(ds, carry))
  {
    if ds == [0] {
      assert MulAdd(ds[1..], carry / 58) == Push(carry / 58);
      PushValue(carry / 58);
    } else {
      MulAddTop(ds, carry);
    }
  }

  /** The digit vector spells the input's number in base 58, without a leading zero unless
      the number is zero. */
  lemma {:induction false} DigitsSpellInput(input: Bytes)
    ensures DigitsValue(Digits(input)) == BytesValue(input)
    ensures Canonical(Digits(input))
  {
    if input != [] {
      var front, last := input[..|input| - 1], input[|input| - 1];
      DigitsSpellInput(front);
      MulAddValue(Digits(front), last);
      MulAddCanonical(Digits(front), last);
    } else {
      assert [0][1..] == [];
      assert DigitsValue([0][1..]) == 0;
    }
  }

  // -------------------------------------------------------------------- the text

  function LeadingZeros(b: Bytes): (n: nat)
    ensures n <= |b|
    ensures forall i :: 0 <= i < n ==> b[i] == 0
    ensures n < |b| ==> b[n] != 0
  {
    if b == [] || b[0] != 0 then 0 else 1 + LeadingZeros(b[1..])
  }

  /** The alphabet: 1-9, A-Z without I and O, a-z without l. */
  function CharOf(d: digit): char {
    if d < 9 then ('1' as int + d) as char
    else if d < 17 then ('A' as int + d - 9) as char
    else if d < 22 then ('J' as int + d - 17) as char
    else if d < 33 then ('P' as int + d - 22) as char
    else if d < 44 then ('a' as int + d - 33) as char
    else ('m' as int + d - 44) as char
  }

  const ALPHABET: string := "123456789" + "ABCDEFGH" + "JKLMN" + "PQRSTUVWXYZ" + "abcdefghijk" + "mnopqrstuvwxyz"

  lemma AlphabetIs(d: digit)
    ensures |ALPHABET| == 58 && CharOf(d) == ALPHABET[d]
  {
  }

  function Text(ds: seq<digit>): string {
    seq(|ds|, i requires 0 <= i < |ds| => CharOf(ds[|ds| - 1 - i]))
  }

  function Ones(n: nat): string {
    seq(n, _ => '1')
  }

  function Encoded(input: Bytes): string {
    Ones(LeadingZeros(input)) + Text(Digits(input))
  }

  // -------------------------------------------------------------------- the method

  /** The two inner loops for one byte. The carry never exceeds 255. */
  method AbsorbByte(ds: seq<digit>, b: byte) returns (digits: seq<digit>)
    ensures digits == MulAdd(ds, b)
  {
    digits := ds;
    var carry: nat := b;
    for j := 0 to |digits|
      invariant |digits| == |ds| && carry <= 255 && digits[j..] == ds[j..]
      invariant digits[..j] + MulAdd(ds[j..], carry) == MulAdd(ds, b)
    {
      assert ds[j..][0] == digits[j] && ds[j..][1..] == ds[j + 1..];
      ghost var c: nat, low := carry + 256 * (digits[j] as int), digits[..j];
      assert low + MulAdd(ds[j..], carry) == low + [c % 58] + MulAdd(ds[j + 1..], c / 58);
      carry := carry + 256 * (digits[j] as int);
      digits := digits[j := carry % 58];
      carry := carry / 58;
      assert digits[..j + 1] == low + [c % 58];
    }
    assert digits[..|digits|] == digits && ds[|digits|..] == [];
    while carry > 0
      invariant carry <= 255 && digits + Push(carry) == MulAdd(ds, b)
      decreases carry
    {
      assert digits + Push(carry) == digits + [carry % 58] + Push(carry / 58);
      digits := digits + [carry % 58];
      carry := carry / 58;
    }
    assert digits + [] == digits;
  }

  method Encode(input: Bytes) returns (out: string)
    ensures out == Encoded(input)
  {
    var digits: seq<digit> := [0];
    for i := 0 to |input|
      invariant digits == Digits(input[..i])
    {
      TakeMore(input, i);
      digits := AbsorbByte(digits, input[i]);
    }
    TakeAll(input);
    var leadingZeros := 0;
    while leadingZeros < |input| && input[leadingZeros] == 0
      invariant leadingZeros <= LeadingZeros(input)
    {
      leadingZeros := leadingZeros + 1;
    }
    out := Spell(leadingZeros, digits);
  }

  method Spell(leadingZeros: nat, digits: seq<digit>) returns (out: string)
    ensures out == Ones(leadingZeros) + Text(digits)
  {
    out := [];
    for i := 0 to leadingZeros
      invariant out == Ones(i)
    {
      out := out + ['1'];
    }
    ghost var ones, text := out, Text(digits);
    for i := 0 to |digits|
      invariant out == ones + text[..i]
    {
      TakeMore(text, i);
      assert ones + text[..i + 1] == ones + text[..i] + [text[i]];
      out := out + [CharOf(digits[|digits| - 1 - i])];
    }
    TakeAll(text);
  }

  // ------------------------------------------------------------------- injectivity

  /** Position of a character in the alphabet. */
  function IndexOf(c: char): int {
    if '1' <= c <= '9' then c as int - '1' as int
    else if 'A' <= c <= 'H' then 9 + (c as int - 'A' as int)
    else if 'J' <= c <= 'N' then 17 + (c as int - 'J' as int)
    else if 'P' <= c <= 'Z' then 22 + (c as int - 'P' as int)
    else if 'a' <= c <= 'k' then 33 + (c as int - 'a' as int)
    else 44 + (c as int - 'm' as int)
  }

  lemma AlphabetIndexed(d: digit)
    ensures IndexOf(CharOf(d)) == d
  {
  }

  /** All-zero input is spelled by '1's alone ... */
  lemma ZeroSpelled(input: Bytes)
    requires BytesValue(input) == 0
    ensures Encoded(input) == Ones(|input| + 1)
  {
    DigitsSpellInput(input);
    ZeroValue(input);
    ZeroDigits(Digits(input));
    OneMore(|input|);
  }

  lemma OneMore(n: nat)
    ensures Ones(n) + Text([0]) == Ones(n + 1)
  {
    var zero: seq<digit> := [0];
    assert CharOf(zero[0]) == '1';
    assert Text(zero) == ['1'];
  }

  /** ... and any other input by one '1' per leading zero byte, then something else. */
  lemma NonZeroSpelled(input: Bytes)
    requires BytesValue(input) > 0
    ensures Text(Digits(input)) != [] && Text(Digits(input))[0] != '1'
  {
    DigitsSpellInput(input);
    NonZeroDigits(Digits(input));
  }

  lemma NonZeroDigits(ds: seq<digit>)
    requires Canonical(ds) && DigitsValue(ds) > 0
    ensures Text(ds) != [] && Text(ds)[0] != '1'
  {
    ZeroDigitValue();
    AlphabetIndexed(ds[|ds| - 1]);
    AlphabetIndexed(0);
  }

  lemma ZeroDigitValue()
    ensures DigitsValue([0]) == 0
  {
    assert [0][1..] == [];
    assert DigitsValue([0][1..]) == 0;
  }

  /** The text consists of '1's alone exactly for all-zero input. */
  lemma AllOnesExactly(input: Bytes)
    ensures (forall i :: 0 <= i < |Encoded(input)| ==> Encoded(input)[i] == '1') <==> BytesValue(input) == 0
  {
    if BytesValue(input) == 0 {
      ZeroSpelled(input);
    } else {
      NonZeroSpelled(input);
      assert Encoded(input)[LeadingZeros(input)] == Text(Digits(input))[0];
    }
  }

  lemma {:induction false} ZeroValue(b: Bytes)
    ensures BytesValue(b) == 0 <==> LeadingZeros(b) == |b|
  {
    if b != [] {
      var front := b[..|b| - 1];
      ZeroValue(front);
      assert forall i :: 0 <= i < |front| ==> front[i] == b[i];
      if LeadingZeros(b) == |b| {
        assert b[|b| - 1] == 0;
        assert LeadingZeros(front) == |front|;
      }
    }
  }

  lemma {:induction false} ZeroDigits(ds: seq<digit>)
    requires Canonical(ds) && DigitsValue(ds) == 0
    ensures ds == [0]
  {
    if ds != [0] {
      TopPositive(ds);
    }
  }

  lemma {:induction false} TopPositive(ds: seq<digit>)
    requires ds != [] && ds[|ds| - 1] != 0
    ensures DigitsValue(ds) > 0
  {
    if |ds| > 1 { TopPositive(ds[1..]); }
  }

  lemma TextInjective(a: seq<digit>, b: seq<digit>)
    requires Text(a) == Text(b)
    ensures a == b
  {
    assert |a| == |Text(a)| == |Text(b)| == |b|;
    forall i | 0 <= i < |a| ensures a[i] == b[i] {
      var j := |a| - 1 - i;
      assert Text(a)[j] == CharOf(a[i]) && Text(b)[j] == CharOf(b[i]);
      AlphabetIndexed(a[i]);
      AlphabetIndexed(b[i]);
    }
  }

  /** Without leading zeros the number determines the bytes. */
  lemma {:induction false} BytesDetermined(a: Bytes, b: Bytes)
    requires BytesValue(a) == BytesValue(b)
    requires (a == [] || a[0] != 0) && (b == [] || b[0] != 0)
    ensures a == b
    decreases |a|
  {
    ZeroValue(a);
    ZeroValue(b);
    if a != [] && b != [] {
      var x, y := a[..|a| - 1], b[..|b| - 1];
      assert a[|a| - 1] == b[|b| - 1] && BytesValue(x) == BytesValue(y);
      assert x == [] || x[0] == a[0];
      assert y == [] || y[0] == b[0];
      BytesDetermined(x, y);
      assert a == x + [a[|a| - 1]] && b == y + [b[|b| - 1]];
    }
  }

  lemma {:induction false} SkipZeros(b: Bytes, n: nat)
    requires n <= |b| && forall i :: 0 <= i < n ==> b[i] == 0
    ensures BytesValue(b[n..]) == BytesValue(b)
    decreases |b|
  {
    if n == |b| {
      assert b[n..] == [];
      ZeroValue(b);
      assert LeadingZeros(b) == |b|;
    } else {
      var m := |b| - 1;
      SkipZeros(b[..m], n);
      assert b[n..][..|b[n..]| - 1] == b[..m][n..];
    }
  }

  /** Counting the '1's in front of a text that does not start with one. */
  lemma OnesCounted(m: nat, s: string, n: nat, t: string)
    requires Ones(m) + s == Ones(n) + t
    requires s != [] && t != [] && s[0] != '1' && t[0] != '1'
    ensures m == n && s == t
  {
    var x, y := Ones(m) + s, Ones(n) + t;
    assert x[m] == s[0] && y[n] == t[0];
    assert x[m..] == s && y[n..] == t;
  }

  /** Distinct byte strings, of whatever lengths, have distinct encodings. */
  lemma EncodingInjective(a: Bytes, b: Bytes)
    requires Encoded(a) == Encoded(b)
    ensures a == b
  {
    AllOnesExactly(a);
    AllOnesExactly(b);
    if BytesValue(a) == 0 {
      ZeroSpelled(a);
      ZeroSpelled(b);
      assert |Encoded(a)| == |a| + 1 && |Encoded(b)| == |b| + 1;
      ZeroValue(a);
      ZeroValue(b);
    } else {
      NonZeroInjective(a, b);
    }
  }

  lemma NonZeroInjective(a: Bytes, b: Bytes)
    requires Encoded(a) == Encoded(b) && BytesValue(a) > 0 && BytesValue(b) > 0
    ensures a == b
  {
    var m, n := LeadingZeros(a), LeadingZeros(b);
    NonZeroSpelled(a);
    NonZeroSpelled(b);
    OnesCounted(m, Text(Digits(a)), n, Text(Digits(b)));
    TextInjective(Digits(a), Digits(b));
    DigitsSpellInput(a);
    DigitsSpellInput(b);
    ValueAndZerosDetermine(a, b);
  }

  lemma ValueAndZerosDetermine(a: Bytes, b: Bytes)
    requires LeadingZeros(a) == LeadingZeros(b) && BytesValue(a) == BytesValue(b)
    ensures a == b
  {
    var m := LeadingZeros(a);
    SkipZeros(a, m);
    SkipZeros(b, m);
    BytesDetermined(a[m..], b[m..]);
    SameFrontAndRest(a, b, m);
  }

  lemma SameFrontAndRest(a: Bytes, b: Bytes, m: nat)
    requires m <= |a| && m <= |b| && a[..m] == b[..m] && a[m..] == b[m..]
    ensures a == b
  {
    assert a == a[..m] + a[m..] && b == b[..m] + b[m..];
  }

  /** The encoding of section 3 of draft-msporny-base58-03: one '1' per leading zero byte, then
      the number's digits, none for zero. */
  function Section3(input: Bytes): string {
    Ones(LeadingZeros(input)) + Text(Push(BytesValue(input)))
  }

  /** A digit vector with a nonzero top is the digits of its value. */
  lemma {:induction false} PushSpells(ds: seq<digit>)
    requires ds != [] && ds[|ds| - 1] != 0
    ensures DigitsValue(ds) > 0 && Push(DigitsValue(ds)) == ds
  {
    if |ds| == 1 {
      assert ds[1..] == [] && DigitsValue(ds) == ds[0];
      assert Push(ds[0] / 58) == [];
    } else {
      PushSpells(ds[1..]);
      assert DigitsValue(ds) % 58 == ds[0] && DigitsValue(ds) / 58 == DigitsValue(ds[1..]);
    }
  }

  /** The code agrees with that section exactly on input that is not all zero. */
  lemma Section3Exactly(input: Bytes)
    ensures Encoded(input) == Section3(input) <==> BytesValue(input) > 0
  {
    if BytesValue(input) > 0 {
      DigitsSpellInput(input);
      ZeroDigitValue();
      PushSpells(Digits(input));
    } else {
      ZeroSpelled(input);
      assert |Section3(input)| == LeadingZeros(input) <= |input|;
    }
  }

  /** All-zero input gets one '1' more than it has bytes. */
  lemma AllZeroInput(n: nat)
    ensures Encoded(seq(n, _ => 0)) == Ones(n + 1)
  {
    var z := seq(n, _ => 0);
    ZeroValue(z);
    assert LeadingZeros(z) == n;
    ZeroSpelled(z);
  }
}
