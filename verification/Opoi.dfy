/** The fixed-point network behind the proof-of-inference tag (bridge/src/opoi.rs): every
    intermediate value fits its machine type, so the arithmetic is exact. */
module Opoi {
  import opened Bytes
  import opened Hex
  import opened Words

  const TWO_31: int := 0x8000_0000
  const TWO_32: int := 0x1_0000_0000
  const TWO_64: int := 0x1_0000_0000_0000_0000

  const N_IN: nat := 32
  const N_H1: nat := 256
  const N_H2: nat := 128
  const N_OUT: nat := 32
  const HE_L1: int := 256
  const HE_L2: int := 90
  const HE_L3: int := 128
  const NORM: int := 1024
  const MODEL_SEED: nat := 0x4B65_7279_784F_5000

  // --------------------------------------------------------------------- weights

  type u64 = x: int | 0 <= x < 0x1_0000_0000_0000_0000

  function NextState(s: u64): u64 {
    (s * 6364136223846793005 + 1442695040888963407) % TWO_64
  }

  /** The upper half of the state, read as a signed 32-bit number. */
  function Signed32(s: u64): int {
    var hi := s / TWO_32;
    if hi >= TWO_31 then hi - TWO_32 else hi
  }

  /** The shift is arithmetic: it rounds towards minus infinity. */
  function WeightOf(s: u64, he: int): int {
    (Signed32(s) * he) / TWO_31
  }

  function Weights(s: u64, n: nat, he: int): (ws: seq<int>)
    ensures |ws| == n
    decreases n
  {
    if n == 0 then [] else [WeightOf(NextState(s), he)] + Weights(NextState(s), n - 1, he)
  }

  function LayerSeed(layer: nat): u64 {
    (MODEL_SEED + layer * 0xDEAD_BEEF_CAFE_1337) % TWO_64
  }

  /** A weight never reaches its scale from below: it lies in [-he, he - 1]. */
  lemma WeightBounds(s: u64, he: int)
    requires he > 0
    ensures -he <= WeightOf(s, he) < he
  {
    var r := Signed32(s);
    assert -TWO_31 <= r < TWO_31;
    DivBounds(r, he);
  }

  lemma DivBounds(r: int, he: int)
    requires he > 0 && -TWO_31 <= r < TWO_31
    ensures -he <= (r * he) / TWO_31 < he
  {
    MulMonotone(-TWO_31, r, he);
    MulMonotone(r + 1, TWO_31, he);
    assert (r + 1) * he == r * he + he;
    QuotientBounds(r * he, he);
  }

  lemma MulMonotone(a: int, b: int, c: int)
    requires a <= b && c > 0
    ensures a * c <= b * c
  {
  }

  lemma QuotientBounds(p: int, he: int)
    requires -TWO_31 * he <= p < TWO_31 * he
    ensures -he <= p / TWO_31 < he
  {
  }

  /** A weight in numbers: with r the upper half of the state as a signed 32-bit number, it is
      r * he / 2^31 rounded towards minus infinity. */
  lemma WeightInNumbers(s: u64, he: int) returns (r: int)
    ensures (r - s / 0x1_0000_0000) % 0x1_0000_0000 == 0 && -0x8000_0000 <= r < 0x8000_0000
    ensures 0x8000_0000 * WeightOf(s, he) <= r * he < 0x8000_0000 * WeightOf(s, he) + 0x8000_0000
  {
    r := Signed32(s);
  }

  /** The state after n steps of the generator. */
  function StateAfter(s: u64, n: nat): u64 {
    if n == 0 then s else NextState(StateAfter(s, n - 1))
  }

  lemma {:induction false} StateAfterFirst(s: u64, n: nat)
    ensures StateAfter(NextState(s), n) == StateAfter(s, n + 1)
  {
    if n > 0 { StateAfterFirst(s, n - 1); }
  }

  /** Weight i comes from the state after i + 1 steps. */
  lemma {:induction false} WeightsAt(s: u64, n: nat, he: int, i: nat)
    requires i < n
    ensures Weights(s, n, he)[i] == WeightOf(StateAfter(s, i + 1), he)
    decreases n
  {
    if i == 0 {
      assert StateAfter(s, 1) == NextState(StateAfter(s, 0));
    } else {
      WeightsAt(NextState(s), n - 1, he, i - 1);
      StateAfterFirst(s, i);
    }
  }

  lemma {:induction false} WeightsBounds(s: u64, n: nat, he: int)
    requires he > 0
    ensures forall i :: 0 <= i < n ==> -he <= Weights(s, n, he)[i] < he
    decreases n
  {
    if n > 0 {
      WeightBounds(NextState(s), he);
      WeightsBounds(NextState(s), n - 1, he);
    }
  }

  method LcgWeight(state: u64, he: int) returns (state': u64, w: int)
    requires he > 0
    ensures state' == NextState(state) && w == WeightOf(state', he)
    ensures -he <= w < he
  {
    state' := (state * 6364136223846793005 + 1442695040888963407) % TWO_64;
    var raw := state' / TWO_32;
    if raw >= TWO_31 {
      raw := raw - TWO_32;
    }
    w := (raw * he) / TWO_31;
    WeightBounds(state', he);
  }

  method MakeWeights(rows: nat, cols: nat, layer: nat, he: int) returns (ws: seq<int>)
    requires he > 0
    ensures ws == Weights(LayerSeed(layer), rows * cols, he)
  {
    var s, n := LayerSeed(layer), rows * cols;
    ws := [];
    ghost var all := Weights(s, n, he);
    for i := 0 to n
      invariant ws + Weights(s, n - i, he) == all
    {
      WeightsStep(ws, s, n - i, he);
      var w;
      s, w := LcgWeight(s, he);
      ws := ws + [w];
    }
    assert ws + [] == ws;
  }

  lemma WeightsStep(ws: seq<int>, s: u64, n: nat, he: int)
    requires n > 0
    ensures ws + Weights(s, n, he) == ws + [WeightOf(NextState(s), he)] + Weights(NextState(s), n - 1, he)
  {
  }

  // ---------------------------------------------------------------------- layers

  /** The sum of the first n products of xs with one row of a matrix. */
  function Dot(xs: seq<int>, ws: seq<int>, row: nat, n: nat): int
    requires n <= |xs| && (row + 1) * |xs| <= |ws|
  {
    if n == 0 then 0 else Dot(xs, ws, row, n - 1) + xs[n - 1] * ws[RowIndex(|xs|, row, n - 1, |ws|)]
  }

  function RowIndex(cols: nat, row: nat, j: nat, len: nat): (i: nat)
    requires j < cols && (row + 1) * cols <= len
    ensures i < len
  {
    assert (row + 1) * cols == row * cols + cols;
    row * cols + j
  }

  /** The inner product of two sequences. */
  function Inner(a: seq<int>, b: seq<int>): int
    requires |a| == |b|
  {
    if a == [] then 0 else Inner(a[..|a| - 1], b[..|b| - 1]) + a[|a| - 1] * b[|b| - 1]
  }

  function Row(ws: seq<int>, row: nat, cols: nat): (r: seq<int>)
    requires (row + 1) * cols <= |ws|
    ensures |r| == cols
  {
    assert (row + 1) * cols == row * cols + cols;
    ws[row * cols..row * cols + cols]
  }

  /** The flat weights are a matrix row by row: each sum is an inner product with one row. */
  lemma {:induction false} DotIsRowProduct(xs: seq<int>, ws: seq<int>, row: nat, n: nat)
    requires n <= |xs| && (row + 1) * |xs| <= |ws|
    ensures Dot(xs, ws, row, n) == Inner(xs[..n], Row(ws, row, |xs|)[..n])
  {
    if n > 0 {
      var r := Row(ws, row, |xs|);
      DotIsRowProduct(xs, ws, row, n - 1);
      TakeMore(xs, n - 1);
      TakeMore(r, n - 1);
      assert r[n - 1] == ws[RowIndex(|xs|, row, n - 1, |ws|)];
    }
  }

  /** h is the neuron of row i: its sum divided by 1024, rounded down, or 0 if the sum is negative. */
  ghost predicate Neuron(xs: seq<int>, ws: seq<int>, i: nat, h: int)
    requires (i + 1) * |xs| <= |ws|
  {
    var sum := Inner(xs, Row(ws, i, |xs|));
    if sum >= 0 then 1024 * h <= sum < 1024 * h + 1024 else h == 0
  }

  /** A hidden layer: the sums, shifted down and cut off at zero. */
  function Layer(xs: seq<int>, ws: seq<int>, rows: nat): (h: seq<int>)
    requires rows * |xs| <= |ws|
    ensures |h| == rows
  {
    seq(rows, i requires 0 <= i < rows => Relu(Dot(xs, ws, RowFits(rows, i, |xs|, |ws|), |xs|)))
  }

  lemma MulLe(a: nat, b: nat, c: nat)
    requires a <= b
    ensures a * c <= b * c
  {
  }

  function RowFits(rows: nat, i: nat, cols: nat, len: nat): (r: nat)
    requires i < rows && rows * cols <= len
    ensures r == i && (r + 1) * cols <= len
  {
    MulLe(i + 1, rows, cols);
    i
  }

  function Relu(acc: int): nat {
    if acc / NORM > 0 then acc / NORM else 0
  }

  /** Every partial sum of a row of bounded products is bounded: nothing overflows on the way. */
  lemma {:induction false} DotBounded(xs: seq<int>, ws: seq<int>, row: nat, n: nat, x: int, w: int)
    requires n <= |xs| && (row + 1) * |xs| <= |ws|
    requires forall i :: 0 <= i < |xs| ==> -x <= xs[i] <= x
    requires forall i :: 0 <= i < |ws| ==> -w <= ws[i] <= w
    requires x >= 0 && w >= 0
    ensures -(n * (x * w)) <= Dot(xs, ws, row, n) <= n * (x * w)
  {
    if n > 0 {
      DotBounded(xs, ws, row, n - 1, x, w);
      ProductBounded(xs[n - 1], ws[RowIndex(|xs|, row, n - 1, |ws|)], x, w);
      assert n * (x * w) == (n - 1) * (x * w) + x * w;
    }
  }

  lemma ProductBounded(a: int, b: int, x: int, w: int)
    requires x >= 0 && w >= 0 && -x <= a <= x && -w <= b <= w
    ensures -(x * w) <= a * b <= x * w
  {
    var m: nat := if a >= 0 then a else -a;
    ScaledBounded(m, b, w);
    MulLe(m, x, w);
    assert a < 0 ==> a * b == -(m * b);
  }

  lemma ScaledBounded(m: nat, b: int, w: int)
    requires -w <= b <= w
    ensures -(m * w) <= m * b <= m * w
  {
    assert m * (w - b) >= 0 && m * (w + b) >= 0;
  }

  lemma LayerBounded(xs: seq<int>, ws: seq<int>, rows: nat, x: int, w: int, top: nat)
    requires rows * |xs| <= |ws|
    requires forall i :: 0 <= i < |xs| ==> -x <= xs[i] <= x
    requires forall i :: 0 <= i < |ws| ==> -w <= ws[i] <= w
    requires x >= 0 && w >= 0 && |xs| * (x * w) <= top * NORM
    ensures forall i :: 0 <= i < rows ==> 0 <= Layer(xs, ws, rows)[i] <= top
  {
    forall i | 0 <= i < rows ensures 0 <= Layer(xs, ws, rows)[i] <= top {
      DotBounded(xs, ws, RowFits(rows, i, |xs|, |ws|), |xs|, x, w);
    }
  }

  lemma WholeRow(xs: seq<int>, ws: seq<int>, row: nat)
    requires (row + 1) * |xs| <= |ws|
    ensures Dot(xs, ws, row, |xs|) == Inner(xs, Row(ws, row, |xs|))
  {
    DotIsRowProduct(xs, ws, row, |xs|);
    TakeAll(xs);
    TakeAll(Row(ws, row, |xs|));
  }

  lemma ReluIsNeuron(xs: seq<int>, ws: seq<int>, row: nat, h: int)
    requires (row + 1) * |xs| <= |ws|
    ensures Neuron(xs, ws, row, h) <==> h == Relu(Dot(xs, ws, row, |xs|))
  {
    WholeRow(xs, ws, row);
  }

  method Sum(xs: seq<int>, ws: seq<int>, row: nat) returns (acc: int)
    requires (row + 1) * |xs| <= |ws|
    ensures acc == Inner(xs, Row(ws, row, |xs|))
  {
    acc := 0;
    for j := 0 to |xs|
      invariant acc == Dot(xs, ws, row, j)
    {
      acc := acc + xs[j] * ws[RowIndex(|xs|, row, j, |ws|)];
    }
    WholeRow(xs, ws, row);
  }

  /** A hidden layer: every neuron divides its sum by 1024 with an arithmetic shift, and cuts off
      at zero. */
  method Hidden(xs: seq<int>, ws: seq<int>, rows: nat) returns (h: seq<int>)
    requires rows * |xs| <= |ws|
    ensures |h| == rows && forall i :: 0 <= i < rows ==> Neuron(xs, ws, RowFits(rows, i, |xs|, |ws|), h[i])
  {
    h := [];
    for i := 0 to rows
      invariant |h| == i && forall j :: 0 <= j < i ==> Neuron(xs, ws, RowFits(rows, j, |xs|, |ws|), h[j])
    {
      var acc := Sum(xs, ws, RowFits(rows, i, |xs|, |ws|));
      var shifted := acc / NORM;
      h := h + [if shifted > 0 then shifted else 0];
    }
  }

  // ------------------------------------------------------------------- the network

  function Centred(input: Bytes): (xs: seq<int>)
    ensures |xs| == |input| && forall i :: 0 <= i < |xs| ==> -128 <= xs[i] <= 128
  {
    seq(|input|, i requires 0 <= i < |input| => input[i] as int - 128)
  }

  function W1(): (ws: seq<int>) ensures |ws| == 8192 { Weights(LayerSeed(0), 8192, HE_L1) }
  function W2(): (ws: seq<int>) ensures |ws| == 32768 { Weights(LayerSeed(1), 32768, HE_L2) }
  function W3(): (ws: seq<int>) ensures |ws| == 4096 { Weights(LayerSeed(2), 4096, HE_L3) }

  function H1(input: Bytes): seq<int>
    requires |input| == N_IN
  {
    Layer(Centred(input), W1(), N_H1)
  }

  function H2(input: Bytes): seq<int>
    requires |input| == N_IN
  {
    Layer(H1(input), W2(), N_H2)
  }

  /** An output accumulator after n of its 128 products. */
  function Accumulator(input: Bytes, i: nat, n: nat): int
    requires |input| == N_IN && i < N_OUT && n <= N_H2
  {
    Dot(H2(input), W3(), i, n)
  }

  lemma H1Bounded(input: Bytes)
    requires |input| == N_IN
    ensures forall i :: 0 <= i < N_H1 ==> 0 <= H1(input)[i] <= 1024
  {
    WeightsBounds(LayerSeed(0), 8192, HE_L1);
    LayerBounded(Centred(input), W1(), N_H1, 128, HE_L1, 1024);
  }

  lemma H2Bounded(input: Bytes)
    requires |input| == N_IN
    ensures forall i :: 0 <= i < N_H2 ==> 0 <= H2(input)[i] <= 23040
  {
    H1Bounded(input);
    WeightsBounds(LayerSeed(1), 32768, HE_L2);
    LayerBounded(H1(input), W2(), N_H2, 1024, HE_L2, 23040);
  }

  /** Partial sums of the hidden layers stay within 2^20 and 23592960. */
  lemma HiddenSumsFit(input: Bytes, i: nat, m: nat, j: nat, n: nat)
    requires |input| == N_IN && i < N_H1 && m <= N_IN && j < N_H2 && n <= N_H1
    ensures -1048576 <= Dot(Centred(input), W1(), i, m) <= 1048576
    ensures -23592960 <= Dot(H1(input), W2(), j, n) <= 23592960
  {
    WeightsBounds(LayerSeed(0), 8192, HE_L1);
    DotBounded(Centred(input), W1(), i, m, 128, HE_L1);
    H1Bounded(input);
    WeightsBounds(LayerSeed(1), 32768, HE_L2);
    DotBounded(H1(input), W2(), j, n, 1024, HE_L2);
  }

  /** Every partial output sum stays within 377487360, far from the limits of the 64-bit
      accumulator. */
  lemma NothingOverflows(input: Bytes, i: nat, n: nat)
    requires |input| == N_IN && i < N_OUT && n <= N_H2
    ensures -377487360 <= Accumulator(input, i, n) <= 377487360
  {
    H2Bounded(input);
    WeightsBounds(LayerSeed(2), 4096, HE_L3);
    DotBounded(H2(input), W3(), i, n, 23040, HE_L3);
  }

  // -------------------------------------------------------------------- the output

  /** The XOR of the low four bytes of v in two's complement. */
  function LowFold(v: int): bv8 {
    ((v % 256) as bv8) ^ ((v / 0x100 % 256) as bv8) ^ ((v / 0x1_0000 % 256) as bv8) ^ ((v / 0x100_0000 % 256) as bv8)
  }

  /** The network, neuron by neuron: x is the input centred, h1 and h2 are the hidden layers, h3
      the output sums, and out folds their low bytes. */
  ghost predicate Network(input: Bytes, x: seq<int>, h1: seq<int>, h2: seq<int>, h3: seq<int>, out: Bytes) {
    && |input| == |x| == |h3| == |out| == 32 && |h1| == 256 && |h2| == 128
    && (forall i :: 0 <= i < 32 ==> x[i] == input[i] as int - 128)
    && (forall i {:trigger h1[i]} :: 0 <= i < 256 ==> Neuron(x, W1(), i, h1[i]))
    && (forall i {:trigger h2[i]} :: 0 <= i < 128 ==> Neuron(h1, W2(), i, h2[i]))
    && (forall i {:trigger h3[i]} :: 0 <= i < 32 ==> h3[i] == Inner(h2, Row(W3(), i, 128)))
    && (forall i {:trigger out[i]} :: 0 <= i < 32 ==> out[i] == LowFold(h3[i]) as int)
  }

  /** The 64-bit two's complement of v, least significant byte first. */
  function I64Bytes(v: int): (b: Bytes)
    ensures |b| == 8
  {
    Little(8, v % TWO_64)
  }

  /** The XOR of all the bytes. */
  function Fold(b: Bytes): bv8 {
    if b == [] then 0 else Fold(b[..|b| - 1]) ^ (b[|b| - 1] as bv8)
  }

  function FoldedByte(v: int): byte {
    Fold(I64Bytes(v)) as int
  }

  function OutByte(input: Bytes, i: nat): byte
    requires |input| == N_IN && i < N_OUT
  {
    FoldedByte(Accumulator(input, i, N_H2))
  }

  function Output(input: Bytes): (out: Bytes)
    requires |input| == N_IN
    ensures |out| == N_OUT
  {
    seq(N_OUT, i requires 0 <= i < N_OUT => OutByte(input, i))
  }

  lemma FourBytes(w: nat, u: nat)
    ensures Little(w + 4, u) ==
            [u % 256, u / 256 % 256, u / 0x1_0000 % 256, u / 0x100_0000 % 256] + Little(w, u / TWO_32)
  {
    assert u / 256 / 256 == u / 0x1_0000 && u / 0x1_0000 / 256 == u / 0x100_0000 && u / 0x100_0000 / 256 == u / TWO_32;
    assert Little(w + 4, u) == [u % 256] + Little(w + 3, u / 256);
    assert Little(w + 3, u / 256) == [u / 256 % 256] + Little(w + 2, u / 0x1_0000);
    assert Little(w + 2, u / 0x1_0000) == [u / 0x1_0000 % 256] + Little(w + 1, u / 0x100_0000);
  }

  lemma SplitWord(u: nat)
    ensures Little(8, u) == Little(4, u) + Little(4, u / TWO_32)
  {
    FourBytes(4, u);
    FourBytes(0, u);
  }

  lemma SignWord(u: nat)
    requires u == 0 || u == TWO_32 - 1
    ensures var s: byte := if u == 0 then 0 else 255; Little(4, u) == [s, s, s, s]
  {
    FourBytes(0, u);
  }

  lemma FoldLast(b: Bytes, x: byte)
    ensures Fold(b + [x]) == Fold(b) ^ (x as bv8)
  {
    AppendOne(b, x);
  }

  lemma TwoEqualCancel(x: bv8, s: bv8)
    ensures x ^ s ^ s == x
  {
  }

  lemma FoldFour(b: Bytes, s: byte)
    ensures Fold(b + [s, s, s, s]) == Fold(b)
  {
    FoldTwo(b, s);
    FoldTwo(b + [s, s], s);
    assert b + [s, s, s, s] == b + [s, s] + [s, s];
  }

  lemma FoldTwo(b: Bytes, s: byte)
    ensures Fold(b + [s, s]) == Fold(b)
  {
    FoldLast(b, s);
    FoldLast(b + [s], s);
    TwoEqualCancel(Fold(b), s as bv8);
    assert b + [s, s] == b + [s] + [s];
  }

  /** Of a value in the 32-bit range the upper four bytes all repeat the sign and cancel
      out of the fold. */
  lemma FoldIgnoresSignBytes(v: int)
    requires -TWO_31 <= v < TWO_31
    ensures Fold(I64Bytes(v)) == Fold(I64Bytes(v)[..4])
  {
    var u: nat := v % TWO_64;
    SplitWord(u);
    SignWord(u / TWO_32);
    FoldFour(Little(4, u), if u / TWO_32 == 0 then 0 else 255);
    assert Little(8, u)[..4] == Little(4, u);
  }

  /** Every output byte is the XOR of the low four bytes of its accumulator. */
  lemma OutputFoldsLowHalf(input: Bytes, i: nat)
    requires |input| == N_IN && i < N_OUT
    ensures -TWO_31 <= Accumulator(input, i, N_H2) < TWO_31
    ensures Output(input)[i] == Fold(I64Bytes(Accumulator(input, i, N_H2))[..4]) as int
  {
    NothingOverflows(input, i, N_H2);
    FoldIgnoresSignBytes(Accumulator(input, i, N_H2));
  }

  lemma FoldOfFour(a: byte, b: byte, c: byte, d: byte)
    ensures Fold([a, b, c, d]) == (a as bv8) ^ (b as bv8) ^ (c as bv8) ^ (d as bv8)
  {
    FoldLast([], a);
    FoldLast([a], b);
    FoldLast([a, b], c);
    FoldLast([a, b, c], d);
    assert [] + [a] == [a] && [a] + [b] == [a, b] && [a, b] + [c] == [a, b, c] && [a, b, c] + [d] == [a, b, c, d];
    ZeroCancels(a as bv8);
  }

  lemma ZeroCancels(x: bv8)
    ensures 0 ^ x == x
  {
  }

  lemma LowBytes(v: int)
    ensures I64Bytes(v)[..4] == [v % 256, v / 0x100 % 256, v / 0x1_0000 % 256, v / 0x100_0000 % 256]
  {
    var u: nat := v % TWO_64;
    FourBytes(4, u);
    SameLowBytes(v, u);
  }

  lemma SameLowBytes(v: int, u: int)
    requires u == v % TWO_64
    ensures u % 256 == v % 256 && u / 0x100 % 256 == v / 0x100 % 256
    ensures u / 0x1_0000 % 256 == v / 0x1_0000 % 256 && u / 0x100_0000 % 256 == v / 0x100_0000 % 256
  {
    var q := v / TWO_64;
    ShiftByte(v, u, q * 0x100_0000_0000_0000);
    ShiftByte(v / 0x100, u / 0x100, q * 0x1_0000_0000_0000);
    ShiftByte(v / 0x1_0000, u / 0x1_0000, q * 0x100_0000_0000);
    ShiftByte(v / 0x100_0000, u / 0x100_0000, q * 0x1_0000_0000);
    DivTwice(v);
    DivTwice(u);
  }

  /** Multiples of 256 do not show in the low byte. */
  lemma ShiftByte(v: int, u: int, t: int)
    ensures v == u + 256 * t ==> v % 256 == u % 256 && v / 256 == u / 256 + t
  {
  }

  lemma DivTwice(v: int)
    ensures v / 0x1_0000 == v / 0x100 / 256 && v / 0x100_0000 == v / 0x1_0000 / 256
  {
  }

  /** The fold of all eight bytes of a value in the 32-bit range is the fold of its low four. */
  lemma FoldIsLow(v: int)
    requires -TWO_31 <= v < TWO_31
    ensures Fold(I64Bytes(v)) == LowFold(v)
  {
    FoldIgnoresSignBytes(v);
    LowBytes(v);
    FoldOfFour(v % 256, v / 0x100 % 256, v / 0x1_0000 % 256, v / 0x100_0000 % 256);
  }

  lemma LayerExactly(xs: seq<int>, ws: seq<int>, rows: nat, h: seq<int>)
    requires rows * |xs| <= |ws|
    ensures h == Layer(xs, ws, rows) <==>
            |h| == rows && forall i :: 0 <= i < rows ==> Neuron(xs, ws, RowFits(rows, i, |xs|, |ws|), h[i])
  {
    var layer := Layer(xs, ws, rows);
    if |h| == rows {
      forall i | 0 <= i < rows ensures h[i] == layer[i] <==> Neuron(xs, ws, RowFits(rows, i, |xs|, |ws|), h[i]) {
        ReluIsNeuron(xs, ws, RowFits(rows, i, |xs|, |ws|), h[i]);
      }
    }
  }

  /** The output sums. */
  function H3(input: Bytes): (h: seq<int>)
    requires |input| == N_IN
    ensures |h| == N_OUT
  {
    seq(N_OUT, i requires 0 <= i < N_OUT => Accumulator(input, i, N_H2))
  }

  lemma SumAt(input: Bytes, i: nat)
    requires |input| == N_IN && i < N_OUT
    ensures H3(input)[i] == Inner(H2(input), Row(W3(), i, 128))
  {
    WholeRow(H2(input), W3(), i);
  }

  lemma OutAt(input: Bytes, i: nat)
    requires |input| == N_IN && i < N_OUT
    ensures Output(input)[i] == LowFold(H3(input)[i]) as int
  {
    NothingOverflows(input, i, N_H2);
    FoldIsLow(Accumulator(input, i, N_H2));
  }

  lemma CentredExactly(input: Bytes, x: seq<int>)
    requires |input| == 32
    ensures x == Centred(input) <==> |x| == 32 && forall i :: 0 <= i < 32 ==> x[i] == input[i] as int - 128
  {
  }

  lemma SumsExactly(input: Bytes, h3: seq<int>)
    requires |input| == 32
    ensures h3 == H3(input) <==> |h3| == 32 && forall i {:trigger h3[i]} :: 0 <= i < 32 ==> h3[i] == Inner(H2(input), Row(W3(), i, 128))
  {
    var sums := H3(input);
    if |h3| == 32 {
      forall i | 0 <= i < 32 ensures h3[i] == sums[i] <==> h3[i] == Inner(H2(input), Row(W3(), i, 128)) {
        SumAt(input, i);
      }
    }
  }

  lemma OutExactly(input: Bytes, out: Bytes)
    requires |input| == 32
    ensures out == Output(input) <==> |out| == 32 && forall i {:trigger out[i]} :: 0 <= i < 32 ==> out[i] == LowFold(H3(input)[i]) as int
  {
    var all := Output(input);
    if |out| == 32 {
      forall i | 0 <= i < 32 ensures out[i] == all[i] <==> out[i] == LowFold(H3(input)[i]) as int {
        OutAt(input, i);
      }
    }
  }

  /** The neurons determine the network: its layers and its output are the only ones there are. */
  lemma NetworkExactly(input: Bytes, x: seq<int>, h1: seq<int>, h2: seq<int>, h3: seq<int>, out: Bytes)
    requires |input| == 32
    ensures Network(input, x, h1, h2, h3, out) <==>
            x == Centred(input) && h1 == H1(input) && h2 == H2(input) && h3 == H3(input) && out == Output(input)
  {
    CentredExactly(input, x);
    FirstExactly(input, h1);
    SecondExactly(input, h2);
    SumsExactly(input, h3);
    OutExactly(input, out);
  }

  lemma FirstExactly(input: Bytes, h1: seq<int>)
    requires |input| == 32
    ensures h1 == H1(input) <==> |h1| == 256 && forall i {:trigger h1[i]} :: 0 <= i < 256 ==> Neuron(Centred(input), W1(), i, h1[i])
  {
    LayerExactly(Centred(input), W1(), N_H1, h1);
  }

  lemma SecondExactly(input: Bytes, h2: seq<int>)
    requires |input| == 32
    ensures h2 == H2(input) <==> |h2| == 128 && forall i {:trigger h2[i]} :: 0 <= i < 128 ==> Neuron(H1(input), W2(), i, h2[i])
  {
    LayerExactly(H1(input), W2(), N_H2, h2);
  }

  method Sums(h2: seq<int>) returns (h3: seq<int>)
    requires |h2| == N_H2
    ensures |h3| == 32 && forall i {:trigger h3[i]} :: 0 <= i < 32 ==> h3[i] == Inner(h2, Row(W3(), i, 128))
  {
    h3 := [];
    for i := 0 to 32
      invariant |h3| == i && forall j {:trigger h3[j]} :: 0 <= j < i ==> h3[j] == Inner(h2, Row(W3(), j, 128))
    {
      var acc := Sum(h2, W3(), i);
      h3 := h3 + [acc];
    }
  }

  method FoldAll(h3: seq<int>) returns (out: Bytes)
    requires |h3| == N_OUT
    ensures |out| == N_OUT && forall i :: 0 <= i < N_OUT ==> out[i] == FoldedByte(h3[i])
  {
    out := [];
    for i := 0 to N_OUT
      invariant |out| == i && forall j :: 0 <= j < i ==> out[j] == FoldedByte(h3[j])
    {
      out := out + [FoldedByte(h3[i])];
    }
  }

  /** The forward pass, layer by layer. */
  method Forward(input: Bytes) returns (out: Bytes, ghost x: seq<int>, ghost h1: seq<int>, ghost h2: seq<int>, ghost h3: seq<int>)
    requires |input| == N_IN
    ensures Network(input, x, h1, h2, h3, out) && out == Output(input)
  {
    var centred := seq(N_IN, i requires 0 <= i < N_IN => input[i] as int - 128);
    var first := Hidden(centred, W1(), N_H1);
    var second := Hidden(first, W2(), N_H2);
    var sums := Sums(second);
    out := FoldAll(sums);
    x, h1, h2, h3 := centred, first, second, sums;
    CentredExactly(input, x);
    LayerExactly(centred, W1(), N_H1, first);
    LayerExactly(first, W2(), N_H2, second);
    SumsExactly(input, h3);
    assert out == Output(input);
    NetworkExactly(input, x, h1, h2, h3, out);
  }

  // ----------------------------------------------------------------------- the tag

  function Seeds(n: nat): (b: Bytes)
    ensures |b| == 8 * n
  {
    if n == 0 then [] else Seeds(n - 1) + Little(8, MODEL_SEED)
  }

  /** The nonce, then the model seed three times. */
  function InputOf(nonce: u64): (input: Bytes)
    ensures |input| == N_IN
  {
    Little(8, nonce) + Seeds(3)
  }

  method InputFromNonce(nonce: u64) returns (input: Bytes)
    ensures input == InputOf(nonce)
  {
    var seed := Little(8, MODEL_SEED);
    input := Little(8, nonce);
    for chunk := 0 to 3
      invariant input == Little(8, nonce) + Seeds(chunk)
    {
      input := input + seed;
    }
  }

  /** The first eight bytes spell the nonce and each of the other three groups of eight the seed,
      least significant byte first. */
  lemma InputLayout(nonce: u64, j: nat)
    requires 1 <= j <= 3
    ensures LittleValue(InputOf(nonce)[..8]) == nonce
    ensures LittleValue(InputOf(nonce)[8 * j..8 * j + 8]) == MODEL_SEED
  {
    EightBytes();
    LittleRoundTrip(8, nonce);
    LittleRoundTrip(8, MODEL_SEED);
    SeedsAt(3, j - 1);
    assert InputOf(nonce)[..8] == Little(8, nonce);
    DropFront(Little(8, nonce), Seeds(3), 8, 8 * (j - 1), 8);
  }

  lemma DropFront<T>(a: seq<T>, b: seq<T>, n: nat, i: nat, w: nat)
    requires |a| == n && i + w <= |b|
    ensures (a + b)[n + i..n + i + w] == b[i..i + w]
  {
  }

  lemma {:induction false} SeedsAt(n: nat, j: nat)
    requires j < n
    ensures Seeds(n)[8 * j..8 * j + 8] == Little(8, MODEL_SEED)
  {
    if j < n - 1 {
      SeedsAt(n - 1, j);
      assert Seeds(n)[8 * j..8 * j + 8] == Seeds(n - 1)[8 * j..8 * j + 8];
    } else {
      assert Seeds(n)[8 * j..8 * j + 8] == Little(8, MODEL_SEED);
    }
  }

  const SALT: bv64 := 0x0032_3A58_5952_454B

  function Salted(nonce: bv64): u64 {
    (nonce ^ SALT) as int
  }

  function Tag(nonce: bv64): string {
    HexOf(Output(InputOf(Salted(nonce)))[..8])
  }

  predicate VerifyTag(nonce: bv64, claimed: string) {
    Tag(nonce) == claimed
  }

  /** Distinct nonces put distinct inputs through the network. */
  lemma InputsDistinct(m: bv64, n: bv64)
    ensures InputOf(Salted(m)) == InputOf(Salted(n)) <==> m == n
  {
    if InputOf(Salted(m)) == InputOf(Salted(n)) {
      InputInjective(Salted(m), Salted(n));
      AsIntInjective(m ^ SALT, n ^ SALT);
      SaltCancels(m, n);
    }
  }

  lemma InputInjective(a: u64, b: u64)
    requires InputOf(a) == InputOf(b)
    ensures a == b
  {
    assert Little(8, a) == InputOf(a)[..8] && Little(8, b) == InputOf(b)[..8];
    EightBytes();
    LittleRoundTrip(8, a);
    LittleRoundTrip(8, b);
  }

  lemma AsIntInjective(x: bv64, y: bv64)
    requires x as int == y as int
    ensures x == y
  {
    assert (x as int) as bv64 == x && (y as int) as bv64 == y;
  }

  lemma SaltCancels(x: bv64, y: bv64)
    requires x ^ SALT == y ^ SALT
    ensures x == y
  {
  }

  /** One string is accepted per nonce: sixteen lowercase digits, and among lowercase texts
      exactly the one that decodes to the first eight output bytes. */
  lemma VerifyTagExactly(nonce: bv64, claimed: string)
    ensures VerifyTag(nonce, claimed) <==>
            Lowercase(claimed) && Unhex(claimed) == Some(Output(InputOf(Salted(nonce)))[..8])
    ensures VerifyTag(nonce, claimed) ==> |claimed| == 16
  {
    var b := Output(InputOf(Salted(nonce)))[..8];
    HexOfLowercase(b);
    UnhexInverts(b);
    if Lowercase(claimed) && Unhex(claimed) == Some(b) {
      HexOfInverts(claimed);
    }
  }
}
