/** The job texts sent to miners (bridge/src/hasher.rs): two generators written
    independently give the same 80 digits, and both formats decode back. */
module JobFormat {
  import opened Bytes
  import opened Words
  import opened Hex

  /** The header hash and the little-endian timestamp, as hex text. */
  function IceRiverParams(hash: Bytes, timestamp: nat): string {
    HexOf(hash) + HexOf(Little(8, timestamp))
  }

  /** What a miner reads from the text. */
  function Decoded(text: string): Option<(Bytes, nat)> {
    match Unhex(text)
    case Some(b) => if |b| == 40 then Some((b[..32], LittleValue(b[32..]))) else None
    case None => None
  }

  /** The big-endian 64-bit words of the header that fit, at most the first n. */
  function BigWords(header: Bytes, n: nat): seq<nat> {
    if n == 0 then []
    else if 8 * n <= |header| then BigWords(header, n - 1) + [BytesValue(header[8 * (n - 1)..8 * n])]
    else BigWords(header, n - 1)
  }

  function LittleWords(header: Bytes, n: nat): seq<nat> {
    if n == 0 then []
    else if 8 * n <= |header| then LittleWords(header, n - 1) + [LittleValue(header[8 * (n - 1)..8 * n])]
    else LittleWords(header, n - 1)
  }

  /** The bytes that a little-endian word list stands for. */
  function Unwords(ws: seq<nat>): Bytes {
    if ws == [] then [] else Unwords(ws[..|ws| - 1]) + Little(8, ws[|ws| - 1])
  }

  function PaddedAll(ws: seq<nat>): string {
    if ws == [] then "" else PaddedAll(ws[..|ws| - 1]) + Padded(16, ws[|ws| - 1])
  }

  // ------------------------------------------------------------- the two generators

  /** `generate_large_job_params`: four big-endian words, then the byte-swapped timestamp.
      Indexing past the words read aborts, so a header below 32 bytes gives None. */
  method GenerateLargeJobParams(header: Bytes, timestamp: nat) returns (r: Option<string>)
    requires timestamp < 0x1_0000_0000_0000_0000
    ensures r == if |header| >= 32 then Some(IceRiverParams(header[..32], timestamp)) else None
  {
    var ids: seq<nat> := [];
    for i := 0 to 4
      invariant ids == BigWords(header, i)
    {
      var offset := i * 8;
      if offset + 8 <= |header| {
        ids := ids + [BytesValue(header[offset..offset + 8])];
      }
    }
    var swapped := LittleValue(Big(8, timestamp));
    ids := ids + [swapped];
    WordCount(header, 4);
    if |ids| < 5 {
      return None;
    }
    WordsSpellHeader(header, 4);
    SwappedSpellsLittle(timestamp);
    assert [ids[0], ids[1], ids[2], ids[3]] == BigWords(header, 4);
    FourPadded(ids[0], ids[1], ids[2], ids[3]);
    r := Some(Padded(16, ids[0]) + Padded(16, ids[1]) + Padded(16, ids[2]) + Padded(16, ids[3]) + Padded(16, ids[4]));
  }

  /** `generate_job_header`: the little-endian words of the first 32 bytes. */
  method GenerateJobHeader(header: Bytes) returns (ids: seq<nat>)
    ensures |header| >= 32 ==> |ids| == 4 && Unwords(ids) == header[..32]
    ensures |header| < 32 ==> |ids| == |header| / 8 && Unwords(ids) == header[..8 * (|header| / 8)]
  {
    ids := [];
    for i := 0 to 4
      invariant ids == LittleWords(header, i)
    {
      var offset := i * 8;
      if offset + 8 <= |header| {
        ids := ids + [LittleValue(header[offset..offset + 8])];
      }
    }
    LittleWordsWhole(header, 4);
    UnwordsInverts(header, Whole(header, 4));
  }

  /** How many of the first n words fit the header. */
  function Whole(header: Bytes, n: nat): (k: nat)
    ensures 8 * k <= |header|
  {
    if 8 * n <= |header| then n else |header| / 8
  }

  lemma {:induction false} LittleWordsWhole(header: Bytes, n: nat)
    ensures LittleWords(header, n) == LittleWords(header, Whole(header, n))
  {
    if 8 * n > |header| {
      LittleWordsWhole(header, n - 1);
    }
  }

  lemma {:induction false} UnwordsInverts(header: Bytes, n: nat)
    requires 8 * n <= |header|
    ensures |LittleWords(header, n)| == n && Unwords(LittleWords(header, n)) == header[..8 * n]
  {
    if n > 0 {
      var m := 8 * (n - 1);
      var w := header[m..8 * n];
      assert header[..8 * n] == header[..m] + w;
      UnwordsInverts(header, n - 1);
      LittleCanonical(w);
      UnwordsLast(LittleWords(header, n - 1), LittleValue(w));
    }
  }

  lemma UnwordsLast(ws: seq<nat>, v: nat)
    ensures Unwords(ws + [v]) == Unwords(ws) + Little(8, v)
  {
    AppendOne(ws, v);
  }

  lemma {:induction false} WordCount(header: Bytes, n: nat)
    ensures |BigWords(header, n)| == Whole(header, n)
  {
    if n > 0 {
      WordCount(header, n - 1);
    }
  }

  lemma {:induction false} WordsSpellHeader(header: Bytes, n: nat)
    requires 8 * n <= |header|
    ensures PaddedAll(BigWords(header, n)) == HexOf(header[..8 * n])
  {
    if n > 0 {
      var m := 8 * (n - 1);
      WordsSpellHeader(header, n - 1);
      PaddedSpellsBytes(header[m..8 * n]);
      var ws := BigWords(header, n);
      assert ws[..|ws| - 1] == BigWords(header, n - 1);
      HexOfConcat(header[..m], header[m..8 * n]);
      assert header[..8 * n] == header[..m] + header[m..8 * n];
    }
  }

  lemma {:induction false} HexOfConcat(a: Bytes, b: Bytes)
    ensures HexOf(a + b) == HexOf(a) + HexOf(b)
  {
    if b == [] {
      assert a + b == a;
    } else {
      HexOfConcat(a, b[..|b| - 1]);
      assert (a + b)[..|a + b| - 1] == a + b[..|b| - 1];
    }
  }

  lemma FourPadded(a: nat, b: nat, c: nat, d: nat)
    ensures PaddedAll([a, b, c, d]) == Padded(16, a) + Padded(16, b) + Padded(16, c) + Padded(16, d)
  {
    assert [a, b, c, d][..3] == [a, b, c] && [a, b, c][..2] == [a, b] && [a, b][..1] == [a] && [a][..0] == [];
    assert PaddedAll([a]) == Padded(16, a);
    assert PaddedAll([a, b]) == PaddedAll([a]) + Padded(16, b);
    assert PaddedAll([a, b, c]) == PaddedAll([a, b]) + Padded(16, c);
  }

  /** The double byte swap: printing the swapped number spells the little-endian bytes. */
  lemma SwappedSpellsLittle(timestamp: nat)
    ensures Padded(16, LittleValue(Big(8, timestamp))) == HexOf(Little(8, timestamp))
  {
    var be := Big(8, timestamp);
    var v := LittleValue(be);
    SwapReverses(be);
    BigReversed(8, timestamp);
    var le := Little(8, timestamp);
    assert Big(8, v) == le;
    LittleCanonical(be);
    BigOf(8, v);
    PaddedSpellsBytes(le);
  }

  lemma {:induction false} BigOf(w: nat, v: nat)
    requires v < Pow256(w)
    ensures BytesValue(Big(w, v)) == v
  {
    if w > 0 {
      BigOf(w - 1, v / 256);
      assert Big(w, v)[..w - 1] == Big(w - 1, v / 256);
    }
  }

  /** 80 lowercase digits that decode to the hash and the timestamp. */
  lemma ParamsDecode(hash: Bytes, timestamp: nat)
    requires |hash| == 32 && timestamp < 0x1_0000_0000_0000_0000
    ensures |IceRiverParams(hash, timestamp)| == 80 && Lowercase(IceRiverParams(hash, timestamp))
    ensures Decoded(IceRiverParams(hash, timestamp)) == Some((hash, timestamp))
  {
    var le := Little(8, timestamp);
    HexOfLowercase(hash);
    HexOfLowercase(le);
    HexOfConcat(hash, le);
    UnhexInverts(hash + le);
    EightBytes();
    LittleRoundTrip(8, timestamp);
    assert (hash + le)[..32] == hash && (hash + le)[32..] == le;
  }
}
