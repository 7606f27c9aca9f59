/** Byte strings, their lexicographic order, and the half-open key range that
    covers exactly the keys with a given prefix. */
module Bytes {

  type byte = x: int | 0 <= x < 256
  type Bytes = seq<byte>

  datatype Option<+T> = None | Some(value: T)

  /** Strict lexicographic order, the key order of the database. */
  predicate Below(a: Bytes, b: Bytes) {
    b != [] && (a == [] || a[0] < b[0] || (a[0] == b[0] && Below(a[1..], b[1..])))
  }

  /** k lies in the half-open range [from, to). */
  predicate InRange(from: Bytes, to: Bytes, k: Bytes) {
    !Below(k, from) && Below(k, to)
  }

  /** The upper bound of the range of keys starting with p: drop trailing 0xFF
      bytes and increment the last byte left; None when nothing is left. */
  function PrefixEnd(p: Bytes): Option<Bytes> {
    if p == [] then None
    else if p[|p| - 1] == 255 then PrefixEnd(p[..|p| - 1])
    else Some(p[..|p| - 1] + [p[|p| - 1] + 1])
  }

  /** PrefixEnd read from the front. */
  lemma {:induction false} PrefixEndFront(b: byte, q: Bytes)
    ensures PrefixEnd([b] + q) ==
            match PrefixEnd(q)
            case Some(e) => Some([b] + e)
            case None => if b == 255 then None else Some([b + 1])
  {
    var p := [b] + q;
    if q == [] {
      assert p == [b] && p[..|p| - 1] == [];
      assert b != 255 ==> [] + [b + 1] == [b + 1];
    } else {
      assert p[..|p| - 1] == [b] + q[..|q| - 1];
      if q[|q| - 1] == 255 {
        PrefixEndFront(b, q[..|q| - 1]);
      } else {
        assert p[..|p| - 1] + [q[|q| - 1] + 1] == [b] + (q[..|q| - 1] + [q[|q| - 1] + 1]);
      }
    }
  }

  /** The bound exists exactly when some byte of the prefix is not 0xFF. */
  lemma {:induction false} PrefixEndExists(p: Bytes)
    ensures PrefixEnd(p).Some? <==> exists i :: 0 <= i < |p| && p[i] != 255
  {
    if p != [] {
      var q := p[..|p| - 1];
      PrefixEndExists(q);
      if p[|p| - 1] == 255 {
        assert forall i :: 0 <= i < |q| ==> q[i] == p[i];
        if i :| 0 <= i < |p| && p[i] != 255 {
          assert q[i] != 255;
        }
      }
    }
  }

  /** The range [p, PrefixEnd(p)) holds exactly the keys that start with p; with
      no upper bound, [p, infinity) does. */
  lemma {:induction false} PrefixRangeExact(p: Bytes, k: Bytes)
    ensures PrefixEnd(p).Some? ==> (InRange(p, PrefixEnd(p).value, k) <==> p <= k)
    ensures PrefixEnd(p).None? ==> (!Below(k, p) <==> p <= k)
  {
    if p != [] {
      var b, q := p[0], p[1..];
      assert p == [b] + q;
      PrefixEndFront(b, q);
      if k != [] {
        PrefixRangeExact(q, k[1..]);
        assert p <= k <==> b == k[0] && q <= k[1..];
        if PrefixEnd(q).Some? {
          assert ([b] + PrefixEnd(q).value)[1..] == PrefixEnd(q).value;
        } else if b != 255 {
          assert PrefixEnd(p) == Some([b + 1]);
          assert !Below(k[1..], [b + 1][1..]);
          assert p[1..] == q;
        }
      }
    }
  }

  /** Concatenation after a fixed prefix is injective. */
  lemma PrefixedInjective(p: Bytes, a: Bytes, b: Bytes)
    requires p + a == p + b
    ensures a == b
  {
    assert a == (p + a)[|p|..] == b;
  }

  lemma TakeMore<T>(s: seq<T>, m: nat)
    requires m < |s|
    ensures s[..m + 1] == s[..m] + [s[m]] && s[..m + 1][..m] == s[..m]
  {
  }

  lemma TakeAll<T>(s: seq<T>)
    ensures s[..|s|] == s
  {
  }

  lemma SplitFront<T>(a: seq<T>, b: seq<T>, c: seq<T>, n: nat)
    requires n == |a|
    ensures var s := a + b + c; |s| >= n && s[..n] == a && s[n..] == b + c
  {
  }

  lemma AppendOne<T>(s: seq<T>, x: T)
    ensures var t := s + [x]; |t| == |s| + 1 && t[..|t| - 1] == s && t[|t| - 1] == x
  {
  }

  lemma AppendTwo<T>(s: seq<T>, x: T, y: T)
    ensures var t := s + [x, y]; |t| == |s| + 2 && t[..|t| - 2] == s && t[|t| - 2] == x && t[|t| - 1] == y
  {
  }
}
