/** Hexadecimal text: of byte strings, and of integers padded to a width. */
module Hex {
  import opened Bytes
  import opened Words

  function HexChar(d: int): char
    requires 0 <= d < 16
  {
    if d < 10 then ('0' as int + d) as char else ('a' as int + d - 10) as char
  }

  /** Parsing takes either case. */
  function HexDigit(c: char): (d: Option<int>)
    ensures d.Some? ==> 0 <= d.value < 16
  {
    if '0' <= c <= '9' then Some(c as int - '0' as int)
    else if 'a' <= c <= 'f' then Some(c as int - 'a' as int + 10)
    else if 'A' <= c <= 'F' then Some(c as int - 'A' as int + 10)
    else None
  }

  predicate LowercaseDigit(c: char) {
    '0' <= c <= '9' || 'a' <= c <= 'f'
  }

  predicate Lowercase(s: string) {
    forall i :: 0 <= i < |s| ==> LowercaseDigit(s[i])
  }

  /** Two lowercase digits per byte. */
  function HexOf(b: Bytes): (s: string)
    ensures |s| == 2 * |b|
  {
    if b == [] then "" else HexOf(b[..|b| - 1]) + [HexChar(b[|b| - 1] / 16), HexChar(b[|b| - 1] % 16)]
  }

  lemma {:induction false} HexOfLowercase(b: Bytes)
    ensures Lowercase(HexOf(b))
  {
    if b != [] {
      HexOfLowercase(b[..|b| - 1]);
    }
  }

  function HexByte(h: char, l: char): Option<byte> {
    var hi, lo := HexDigit(h), HexDigit(l);
    if hi.Some? && lo.Some? then Some(16 * hi.value + lo.value) else None
  }

  function Unhex(s: string): Option<Bytes> {
    if s == "" then Some([])
    else if |s| == 1 then None
    else
      var b, x := Unhex(s[..|s| - 2]), HexByte(s[|s| - 2], s[|s| - 1]);
      if b.Some? && x.Some? then Some(b.value + [x.value]) else None
  }

  lemma {:induction false} UnhexInverts(b: Bytes)
    ensures Unhex(HexOf(b)) == Some(b)
  {
    if b != [] {
      var q, x := b[..|b| - 1], b[|b| - 1];
      assert b == q + [x];
      UnhexInverts(q);
      ByteReadsBack(x);
      UnhexLast(HexOf(q), HexChar(x / 16), HexChar(x % 16));
      HexOfLast(q, x);
    }
  }

  lemma ByteReadsBack(x: byte)
    ensures HexByte(HexChar(x / 16), HexChar(x % 16)) == Some(x)
  {
    CharReadsBack(x / 16);
    CharReadsBack(x % 16);
  }

  lemma UnhexLast(s: string, h: char, l: char)
    requires Unhex(s).Some? && HexByte(h, l).Some?
    ensures Unhex(s + [h, l]) == Some(Unhex(s).value + [HexByte(h, l).value])
  {
    AppendTwo(s, h, l);
  }

  lemma CharReadsBack(d: int)
    requires 0 <= d < 16
    ensures HexDigit(HexChar(d)) == Some(d)
  {
  }

  lemma DigitSpellsBack(c: char)
    requires LowercaseDigit(c)
    ensures HexDigit(c).Some? && HexChar(HexDigit(c).value) == c
  {
  }

  /** Lowercase text that decodes is the text of what it decodes to. */
  lemma {:induction false} HexOfInverts(s: string)
    requires Lowercase(s) && Unhex(s).Some?
    ensures HexOf(Unhex(s).value) == s
  {
    if s != "" {
      var q, h, l := UnhexParts(s);
      LowercaseParts(q, h, l);
      HexOfInverts(q);
      TwoMoreDigits(q, h, l);
    }
  }

  lemma LowercaseParts(q: string, h: char, l: char)
    ensures Lowercase(q + [h, l]) ==> Lowercase(q) && LowercaseDigit(h) && LowercaseDigit(l)
  {
    var s := q + [h, l];
    assert s[|q|] == h && s[|q| + 1] == l && s[..|q|] == q;
  }

  lemma TwoMoreDigits(q: string, h: char, l: char)
    requires Unhex(q).Some? && HexOf(Unhex(q).value) == q && LowercaseDigit(h) && LowercaseDigit(l)
    ensures Unhex(q + [h, l]).Some? && HexOf(Unhex(q + [h, l]).value) == q + [h, l]
  {
    ByteSpellsBack(h, l);
    UnhexLast(q, h, l);
    HexOfLast(Unhex(q).value, HexByte(h, l).value);
  }

  lemma ByteSpellsBack(h: char, l: char)
    requires LowercaseDigit(h) && LowercaseDigit(l)
    ensures HexByte(h, l).Some?
    ensures HexChar(HexByte(h, l).value / 16) == h && HexChar(HexByte(h, l).value % 16) == l
  {
    DigitSpellsBack(h);
    DigitSpellsBack(l);
    var x := HexByte(h, l).value;
    assert x / 16 == HexDigit(h).value && x % 16 == HexDigit(l).value;
  }

  lemma UnhexParts(s: string) returns (q: string, h: char, l: char)
    requires s != "" && Unhex(s).Some?
    ensures s == q + [h, l] && Unhex(q).Some? && HexByte(h, l).Some?
  {
    q, h, l := s[..|s| - 2], s[|s| - 2], s[|s| - 1];
  }

  lemma HexOfLast(b: Bytes, x: byte)
    ensures HexOf(b + [x]) == HexOf(b) + [HexChar(x / 16), HexChar(x % 16)]
  {
    AppendOne(b, x);
  }

  /** The low w digits of v; all of v's digits when v is below 16^w. */
  function Padded(w: nat, v: nat): (s: string)
    ensures |s| == w
  {
    if w == 0 then "" else Padded(w - 1, v / 16) + [HexChar(v % 16)]
  }

  lemma {:induction false} PaddedLowercase(w: nat, v: nat)
    ensures Lowercase(Padded(w, v))
  {
    if w > 0 {
      PaddedLowercase(w - 1, v / 16);
    }
  }

  /** A padded number spells its big-endian bytes. */
  lemma {:induction false} PaddedSpellsBytes(b: Bytes)
    ensures Padded(2 * |b|, BytesValue(b)) == HexOf(b)
  {
    if b != [] {
      var q, x: int := b[..|b| - 1], b[|b| - 1];
      var v := BytesValue(b);
      PaddedSpellsBytes(q);
      assert v / 16 / 16 == BytesValue(q) && v / 16 % 16 == x / 16 && v % 16 == x % 16;
      assert Padded(2 * |b|, v) == Padded(2 * |b| - 1, v / 16) + [HexChar(v % 16)];
      assert Padded(2 * |b| - 1, v / 16) == Padded(2 * |q|, v / 16 / 16) + [HexChar(v / 16 % 16)];
    }
  }

  function Pow16(n: nat): (p: nat)
    ensures p > 0
  {
    if n == 0 then 1 else 16 * Pow16(n - 1)
  }

  /** The number a digit string stands for, None when some character is no digit. */
  function DigitsOf(s: string): Option<nat> {
    if s == "" then Some(0)
    else
      var v, d := DigitsOf(s[..|s| - 1]), HexDigit(s[|s| - 1]);
      if v.Some? && d.Some? then Some(16 * v.value + d.value) else None
  }

  lemma {:induction false} PaddedReadsBack(w: nat, v: nat)
    requires v < Pow16(w)
    ensures DigitsOf(Padded(w, v)) == Some(v)
  {
    if w > 0 {
      PaddedReadsBack(w - 1, v / 16);
      assert Padded(w, v)[..w - 1] == Padded(w - 1, v / 16);
    }
  }

  /** A lowercase digit string is the padding of its own value. */
  lemma {:induction false} LowercaseIsPadded(s: string)
    requires Lowercase(s)
    ensures DigitsOf(s).Some? && Padded(|s|, DigitsOf(s).value) == s
  {
    if s != "" {
      var q, c := s[..|s| - 1], s[|s| - 1];
      assert s == q + [c];
      LowercaseIsPadded(q);
      DigitSpellsBack(c);
      DigitsLast(q, c);
      PaddedLast(|q|, DigitsOf(q).value, HexDigit(c).value);
    }
  }

  lemma DigitsLast(s: string, c: char)
    requires DigitsOf(s).Some? && HexDigit(c).Some?
    ensures DigitsOf(s + [c]) == Some(16 * DigitsOf(s).value + HexDigit(c).value)
  {
    AppendOne(s, c);
  }

  lemma PaddedLast(w: nat, v: nat, d: int)
    requires 0 <= d < 16
    ensures Padded(w + 1, 16 * v + d) == Padded(w, v) + [HexChar(d)]
  {
    assert (16 * v + d) / 16 == v && (16 * v + d) % 16 == d;
  }

  /** Reading a concatenation: the front shifts up by the length of the back. */
  function LowerChar(c: char): char {
    if 'A' <= c <= 'Z' then (c as int + 32) as char else c
  }

  function LowerText(s: string): string {
    seq(|s|, i requires 0 <= i < |s| => LowerChar(s[i]))
  }

  /** An uppercase digit is worth what the lowercase one is: 10 for 'A' and 'a', up to 15 for 'F'
      and 'f'. */
  lemma UppercaseDigit(c: char)
    ensures HexDigit(LowerChar(c)) == HexDigit(c)
    ensures 'A' <= c <= 'F' ==> HexDigit(c) == Some(c as int - 'A' as int + 10)
  {
  }

  /** So a text is worth the same in any case. */
  lemma {:induction false} AnyCase(s: string)
    ensures DigitsOf(LowerText(s)) == DigitsOf(s)
  {
    if s != "" {
      var n := |s| - 1;
      AnyCase(s[..n]);
      UppercaseDigit(s[n]);
      assert LowerText(s)[..n] == LowerText(s[..n]);
    }
  }

  lemma {:induction false} DigitsOfConcat(s: string, t: string)
    ensures DigitsOf(s + t).Some? <==> DigitsOf(s).Some? && DigitsOf(t).Some?
    ensures DigitsOf(s + t).Some? ==> DigitsOf(s + t).value == DigitsOf(s).value * Pow16(|t|) + DigitsOf(t).value
  {
    if t == "" {
      assert s + t == s;
    } else {
      var q := t[..|t| - 1];
      DigitsOfConcat(s, q);
      assert (s + t)[..|s + t| - 1] == s + q;
      if DigitsOf(s + t).Some? {
        ShiftUp(DigitsOf(s).value, Pow16(|q|), DigitsOf(q).value);
      }
    }
  }

  lemma ShiftUp(a: nat, p: nat, b: nat)
    ensures 16 * (a * p + b) == a * (16 * p) + 16 * b
  {
  }

  lemma {:induction false} DigitsOfBelow(s: string)
    requires DigitsOf(s).Some?
    ensures DigitsOf(s).value < Pow16(|s|)
  {
    if s != "" {
      DigitsOfBelow(s[..|s| - 1]);
    }
  }
}
