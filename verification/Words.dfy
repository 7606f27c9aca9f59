/** Integers as byte strings, in both byte orders. */
module Words {
  import opened Bytes

  function Pow256(n: nat): (p: nat)
    ensures p > 0
  {
    if n == 0 then 1 else 256 * Pow256(n - 1)
  }

  /** The number a big-endian byte string stands for. */
  function BytesValue(b: Bytes): nat {
    if b == [] then 0 else 256 * BytesValue(b[..|b| - 1]) + b[|b| - 1]
  }

  /** The number a little-endian byte string stands for. */
  function LittleValue(b: Bytes): nat {
    if b == [] then 0 else b[0] + 256 * LittleValue(b[1..])
  }

  /** The w low bytes of v, least significant first. */
  function Little(w: nat, v: nat): (b: Bytes)
    ensures |b| == w
  {
    if w == 0 then [] else [v % 256] + Little(w - 1, v / 256)
  }

  /** The w low bytes of v, most significant first. */
  function Big(w: nat, v: nat): (b: Bytes)
    ensures |b| == w
  {
    if w == 0 then [] else Big(w - 1, v / 256) + [v % 256]
  }

  function Reversed(b: Bytes): (r: Bytes)
    ensures |r| == |b|
  {
    if b == [] then [] else Reversed(b[1..]) + [b[0]]
  }

  lemma {:induction false} LittleRoundTrip(w: nat, v: nat)
    requires v < Pow256(w)
    ensures LittleValue(Little(w, v)) == v
  {
    if w > 0 {
      LittleRoundTrip(w - 1, v / 256);
      assert Little(w, v)[1..] == Little(w - 1, v / 256);
    }
  }

  lemma {:induction false} LittleCanonical(b: Bytes)
    ensures LittleValue(b) < Pow256(|b|) && Little(|b|, LittleValue(b)) == b
  {
    if b != [] {
      LittleCanonical(b[1..]);
      assert LittleValue(b) / 256 == LittleValue(b[1..]);
    }
  }

  /** Writing in one order what was read in the other reverses the bytes. */
  lemma {:induction false} SwapReverses(b: Bytes)
    ensures Big(|b|, LittleValue(b)) == Reversed(b)
  {
    if b != [] {
      SwapReverses(b[1..]);
      assert LittleValue(b) / 256 == LittleValue(b[1..]);
    }
  }

  lemma {:induction false} BigReversed(w: nat, v: nat)
    ensures Reversed(Big(w, v)) == Little(w, v)
  {
    if w > 0 {
      BigReversed(w - 1, v / 256);
      ReversedLast(Big(w - 1, v / 256), v % 256);
    }
  }

  lemma {:induction false} ReversedLast(b: Bytes, x: byte)
    ensures Reversed(b + [x]) == [x] + Reversed(b)
  {
    if b == [] {
      assert b + [x] == [x] && [x][1..] == [];
    } else {
      ReversedLast(b[1..], x);
      assert (b + [x])[1..] == b[1..] + [x];
    }
  }

  lemma EightBytes()
    ensures Pow256(8) == 0x1_0000_0000_0000_0000
  {
    assert Pow256(2) == 0x1_0000;
    assert Pow256(4) == 0x1_0000_0000;
    assert Pow256(6) == 0x1_0000_0000_0000;
  }
}
