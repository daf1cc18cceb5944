/**
 * fft_radix2_float: the in-place radix-2 decimation-in-time FFT of one row of
 * size samples, held from index off of a larger buffer. A pass of swaps driven by
 * the bit-reversal table, then the stage/block/butterfly loop nest reading one
 * twiddle pair per butterfly.
 */
module Radix2 {
  import opened Powers
  import opened Cplx
  import opened Twiddle
  import opened BitReverse

  /** The lower index k + j of the butterfly at a trip. */
  function Lo(st: Step): nat
  {
    Start(st) + st.j
  }

  /** The upper index k + j + m/2 of the butterfly at a trip. */
  function Hi(st: Step): nat
  {
    Lo(st) + Pow2(st.s)
  }

  /** The two indices of the p-th butterfly of the nest; both lie inside the row. */
  function PairAt(size: int, p: nat): (r: (nat, nat))
    requires IsPow2(size) && p < PairCount(size)
    ensures r.0 < r.1 < size
  {
    StepIndex(size, p);
    WithinStage(size, StepOf(size, p));
    (Lo(StepOf(size, p)), Hi(StepOf(size, p)))
  }

  /** The index pairs of every butterfly, in loop-nest order. */
  function PairIndices(size: int): (L: seq<(nat, nat)>)
    requires IsPow2(size)
    ensures |L| == PairCount(size)
  {
    seq(PairCount(size), p requires 0 <= p < PairCount(size) => PairAt(size, p))
  }

  /** Every index pair of L addresses a row of size samples. */
  predicate InRow(L: seq<(nat, nat)>, size: int)
  {
    forall q :: 0 <= q < |L| ==> L[q].0 < size && L[q].1 < size
  }

  lemma PairIndicesInRow(size: int)
    requires IsPow2(size)
    ensures InRow(PairIndices(size), size)
  {
  }

  /** At the trip st, the pair table holds the trip's own indices k + j and k + j + m/2. */
  lemma PairIndicesAt(size: int, st: Step, lo: int, hi: int)
    requires ValidStep(size, st) && lo == Lo(st) && hi == Hi(st)
    ensures PairIndex(size, st) < |PairIndices(size)|
    ensures PairIndices(size)[PairIndex(size, st)] == (lo, hi)
  {
    StepAt(size, st);
  }

  /** L holds, at the index of every trip of the loop nest, that trip's two indices. */
  ghost predicate PairTable(L: seq<(nat, nat)>, size: int)
  {
    size >= 0 && forall st :: ValidStep(size, st) ==> PairIndex(size, st) < |L| && L[PairIndex(size, st)] == (Lo(st), Hi(st))
  }

  lemma PairIndicesTable(size: int)
    requires IsPow2(size)
    ensures PairTable(PairIndices(size), size)
  {
    forall st | ValidStep(size, st)
      ensures PairIndex(size, st) < |PairIndices(size)| && PairIndices(size)[PairIndex(size, st)] == (Lo(st), Hi(st))
    {
      PairIndicesAt(size, st, Lo(st), Hi(st));
    }
  }

  /**
   * One butterfly with twiddle w on samples lo and hi: u = x[lo] and t = w * x[hi]
   * become u + t at lo and u - t at hi.
   */
  function Butterfly(x: seq<Complex>, lo: int, hi: int, w: Complex): (r: seq<Complex>)
    requires 0 <= lo < |x| && 0 <= hi < |x|
    ensures |r| == |x|
  {
    var u := x[lo];
    var t := Mul(w, x[hi]);
    x[lo := Add(u, t)][hi := Sub(u, t)]
  }

  /** The butterfly written with its operands u = x[lo] and t = w * x[hi] named. */
  lemma ButterflyOf(x: seq<Complex>, lo: int, hi: int, w: Complex, u: Complex, t: Complex)
    requires 0 <= lo < |x| && 0 <= hi < |x| && u == x[lo] && t == Mul(w, x[hi])
    ensures Butterfly(x, lo, hi, w) == x[lo := Add(u, t)][hi := Sub(u, t)]
  {
  }

  /** The butterfly's effect: u - t at hi, u + t at lo when lo and hi differ, every other sample as it was. */
  lemma ButterflyEffect(x: seq<Complex>, lo: int, hi: int, w: Complex)
    requires 0 <= lo < |x| && 0 <= hi < |x|
    ensures Butterfly(x, lo, hi, w)[hi] == Sub(x[lo], Mul(w, x[hi]))
    ensures lo != hi ==> Butterfly(x, lo, hi, w)[lo] == Add(x[lo], Mul(w, x[hi]))
    ensures forall t :: 0 <= t < |x| && t != lo && t != hi ==> Butterfly(x, lo, hi, w)[t] == x[t]
  {
  }

  /**
   * The first p butterflies of a network on the row of size samples held from off
   * in x: butterfly q on samples off + L[q].0 and off + L[q].1 with twiddle W[q].
   */
  function Stages(W: seq<Complex>, L: seq<(nat, nat)>, size: int, x: seq<Complex>, off: int, p: nat): (r: seq<Complex>)
    requires 0 <= off && off + size <= |x| && InRow(L, size) && p <= |L| && p <= |W|
    ensures |r| == |x|
  {
    if p == 0 then x
    else Butterfly(Stages(W, L, size, x, off, p - 1), off + L[p - 1].0, off + L[p - 1].1, W[p - 1])
  }

  /** One more butterfly of the network. */
  lemma StagesNext(W: seq<Complex>, L: seq<(nat, nat)>, size: int, x: seq<Complex>, off: int, p: nat)
    requires 0 <= off && off + size <= |x| && InRow(L, size) && p < |L| && p < |W|
    ensures Stages(W, L, size, x, off, p + 1)
         == Butterfly(Stages(W, L, size, x, off, p), off + L[p].0, off + L[p].1, W[p])
  {
  }

  /** The swap pass on the row held from off: pair (lut[q], lut[q + 1]) swaps off + lut[q] and off + lut[q + 1]. */
  function SwapsAt<T>(x: seq<T>, off: int, size: int, lut: seq<int>, c: nat): (r: seq<T>)
    requires 0 <= off && off + size <= |x| && c % 2 == 0 && c <= |lut|
    requires forall t :: 0 <= t < c ==> 0 <= lut[t] < size
    ensures |r| == |x|
  {
    if c == 0 then x else Swap(SwapsAt(x, off, size, lut, c - 2), off + lut[c - 2], off + lut[c - 1])
  }

  /** One more pair of the swap pass. */
  lemma SwapsAtNext<T>(x: seq<T>, off: int, size: int, lut: seq<int>, c: nat)
    requires 0 <= off && off + size <= |x| && c % 2 == 0 && c + 2 <= |lut|
    requires forall t :: 0 <= t < c + 2 ==> 0 <= lut[t] < size
    ensures SwapsAt(x, off, size, lut, c + 2) == Swap(SwapsAt(x, off, size, lut, c), off + lut[c], off + lut[c + 1])
  {
  }

  /**
   * What fft_radix2_float computes on the row x, from the twiddle floats tw and the
   * first count entries of the swap table: the swaps, then every butterfly of the nest.
   */
  function Radix2(size: int, tw: seq<real>, lut: seq<int>, count: nat, x: seq<Complex>): (r: seq<Complex>)
    requires IsPow2(size) && |x| == size && 2 * PairCount(size) <= |tw|
    requires count % 2 == 0 && count <= |lut| && forall t :: 0 <= t < count ==> 0 <= lut[t] < size
    ensures |r| == size
  {
    PairIndicesInRow(size);
    Stages(Pairs(tw), PairIndices(size), size, Swaps(x, lut, count), 0, PairCount(size))
  }

  /** The same transform applied to the row held from off in the buffer A. */
  function Radix2At(size: int, tw: seq<real>, lut: seq<int>, count: nat, A: seq<Complex>, off: int): (r: seq<Complex>)
    requires IsPow2(size) && 0 <= off && off + size <= |A| && 2 * PairCount(size) <= |tw|
    requires count % 2 == 0 && count <= |lut| && forall t :: 0 <= t < count ==> 0 <= lut[t] < size
    ensures |r| == |A|
  {
    PairIndicesInRow(size);
    Stages(Pairs(tw), PairIndices(size), size, SwapsAt(A, off, size, lut, count), off, PairCount(size))
  }

  /** Two writes inside the row held from off, seen from the row and from outside it. */
  lemma UpdateTwoRow<T>(X: seq<T>, off: int, size: int, lo: int, hi: int, v1: T, v2: T)
    requires 0 <= off && 0 <= size && off + size <= |X| && 0 <= lo < size && 0 <= hi < size
    ensures X[off + lo := v1][off + hi := v2][off..off + size] == X[off..off + size][lo := v1][hi := v2]
    ensures forall t :: 0 <= t < |X| && !(off <= t < off + size) ==> X[off + lo := v1][off + hi := v2][t] == X[t]
  {
  }

  /** The swap pass on a row held from off acts on that row alone, as Swaps acts on the row. */
  lemma {:induction false} SwapsAtRow<T>(x: seq<T>, off: int, size: int, lut: seq<int>, c: nat)
    requires 0 <= off && 0 <= size && off + size <= |x| && c % 2 == 0 && c <= |lut|
    requires forall t :: 0 <= t < c ==> 0 <= lut[t] < size
    ensures forall u :: off <= u < off + size ==> SwapsAt(x, off, size, lut, c)[u] == Swaps(x[off..off + size], lut, c)[u - off]
    ensures forall t :: 0 <= t < |x| && !(off <= t < off + size) ==> SwapsAt(x, off, size, lut, c)[t] == x[t]
  {
    if c > 0 {
      SwapsAtRow(x, off, size, lut, c - 2);
      var B := SwapsAt(x, off, size, lut, c - 2);
      var b := Swaps(x[off..off + size], lut, c - 2);
      var l0, l1 := lut[c - 2], lut[c - 1];
      var i0, i1 := off + l0, off + l1;
      forall u | off <= u < off + size
        ensures Swap(B, i0, i1)[u] == Swap(b, l0, l1)[u - off]
      {
        var t := u - off;
        if t != l0 && t != l1 {
          assert Swap(B, i0, i1)[u] == B[u];
        }
      }
    }
  }

  /** The butterfly network on a row held from off acts on that row alone, as it acts on the row. */
  lemma {:induction false} StagesRow(W: seq<Complex>, L: seq<(nat, nat)>, size: int, x: seq<Complex>, off: int, p: nat)
    requires 0 <= off && 0 <= size && off + size <= |x| && InRow(L, size) && p <= |L| && p <= |W|
    ensures forall u :: off <= u < off + size ==> Stages(W, L, size, x, off, p)[u] == Stages(W, L, size, x[off..off + size], 0, p)[u - off]
    ensures forall t :: 0 <= t < |x| && !(off <= t < off + size) ==> Stages(W, L, size, x, off, p)[t] == x[t]
  {
    if p > 0 {
      StagesRow(W, L, size, x, off, p - 1);
      var B := Stages(W, L, size, x, off, p - 1);
      var b := Stages(W, L, size, x[off..off + size], 0, p - 1);
      var l0, l1, w := L[p - 1].0, L[p - 1].1, W[p - 1];
      ButterflyEffect(B, off + l0, off + l1, w);
      ButterflyEffect(b, l0, l1, w);
      assert Stages(W, L, size, x[off..off + size], 0, p) == Butterfly(b, 0 + l0, 0 + l1, w);
    }
  }

  /** The slice from off of X is Y when X holds Y's elements from off on. */
  lemma SliceOf<T>(X: seq<T>, Y: seq<T>, off: int, size: int)
    requires 0 <= off && 0 <= size && off + size <= |X| && |Y| == size
    requires forall u :: off <= u < off + size ==> X[u] == Y[u - off]
    ensures X[off..off + size] == Y
  {
    forall t | 0 <= t < size
      ensures X[off..off + size][t] == Y[t]
    {
      var u := off + t;
      assert X[u] == Y[u - off];
    }
  }

  /**
   * The transform of the row held from off: that row becomes Radix2 of it and every
   * other sample of the buffer is left as it was.
   */
  lemma Radix2AtRow(size: int, tw: seq<real>, lut: seq<int>, count: nat, A: seq<Complex>, off: int)
    requires IsPow2(size) && 0 <= off && off + size <= |A| && 2 * PairCount(size) <= |tw|
    requires count % 2 == 0 && count <= |lut| && forall t :: 0 <= t < count ==> 0 <= lut[t] < size
    ensures Radix2At(size, tw, lut, count, A, off)[off..off + size] == Radix2(size, tw, lut, count, A[off..off + size])
    ensures forall t :: 0 <= t < |A| && !(off <= t < off + size) ==> Radix2At(size, tw, lut, count, A, off)[t] == A[t]
  {
    PairIndicesInRow(size);
    var W, L := Pairs(tw), PairIndices(size);
    var S := SwapsAt(A, off, size, lut, count);
    var s := Swaps(A[off..off + size], lut, count);
    SwapsAtRow(A, off, size, lut, count);
    SliceOf(S, s, off, size);
    StagesRow(W, L, size, S, off, PairCount(size));
    SliceOf(Radix2At(size, tw, lut, count, A, off), Stages(W, L, size, s, 0, PairCount(size)), off, size);
  }

  /** x with its indices bit-reversed: element t comes from index Rev(t). */
  function BitReversed<T>(x: seq<T>, n: nat): (r: seq<T>)
    requires |x| == Pow2(n)
    ensures |r| == |x|
  {
    seq(|x|, t requires 0 <= t < |x| => x[Rev(t, n)])
  }

  /**
   * Fed the tables the builders produce, the kernel is the butterfly network over
   * the bit-reversed row, butterfly (m, k, j) on samples k + j and k + j + m/2 using
   * the root cos - i sin of 2*pi*j/m.
   */
  lemma KernelWithTables(trig: Trig, size: int, tw: seq<real>, lut: seq<int>, count: nat, x: seq<Complex>)
    requires IsPow2(size) && |x| == size
    requires tw == TwiddleTable(trig, size)
    requires count == |Lut(Log2(size))| && count <= |lut| && lut[..count] == Lut(Log2(size))
    ensures count % 2 == 0 && forall t :: 0 <= t < count ==> 0 <= lut[t] < size
    ensures InRow(PairIndices(size), size)
    ensures Radix2(size, tw, lut, count, x)
         == Stages(RootPairs(trig, size), PairIndices(size), size, BitReversed(x, Log2(size)), 0, PairCount(size))
  {
    var n := Log2(size);
    var L := Lut(n);
    LutRealisesBitReversal(n, x);
    LutPairs(n, Pow2(n) - 1);
    forall t | 0 <= t < count
      ensures 0 <= lut[t] < size
    {
      assert lut[t] == L[t];
    }
    SwapsPrefix(x, lut, L, count);
    assert Swaps(x, L, count) == BitReversed(x, n);
    TablePairs(trig, size);
    PairIndicesInRow(size);
  }

  /** Value p of the pairs of t is made of floats i = 2p and i + 1. */
  lemma TwiddleAtFloat(t: seq<real>, p: int, i: int)
    requires 0 <= p && i == 2 * p && i + 1 < |t|
    ensures Pairs(t)[p] == Complex(t[i], t[i + 1])
  {
  }

  /** The LUT pass of fft_radix2_float: swap whole samples, pair by pair. */
  method SwapPass(a: array<Complex>, off: int, lut: seq<int>, count: int, size: int)
    requires 0 <= off && 0 <= size && off + size <= a.Length
    requires 0 <= count <= |lut| && count % 2 == 0
    requires forall t :: 0 <= t < count ==> 0 <= lut[t] < size
    modifies a
    ensures a[..] == SwapsAt(old(a[..]), off, size, lut, count)
  {
    ghost var A0 := a[..];
    var i := 0;
    while i < count
      invariant 0 <= i <= count && i % 2 == 0
      invariant a[..] == SwapsAt(A0, off, size, lut, i)
    {
      var lo := lut[i];
      var hi := lut[i + 1];
      SwapsAtNext(A0, off, size, lut, i);
      var dword := a[off + lo];
      a[off + lo] := a[off + hi];
      a[off + hi] := dword;
      i := i + 2;
    }
  }

  /** The states of a butterfly network, one after each butterfly: N[q + 1] is butterfly q applied to N[q]. */
  ghost predicate Net(N: seq<seq<Complex>>, W: seq<Complex>, L: seq<(nat, nat)>, size: int, off: int)
  {
    && |N| == |L| + 1 && |L| <= |W| && InRow(L, size) && 0 <= off
    && forall q {:trigger L[q]} :: 0 <= q < |L| ==>
         off + size <= |N[q]| && N[q + 1] == Butterfly(N[q], off + L[q].0, off + L[q].1, W[q])
  }

  /** Every intermediate state of the network from x. */
  function Trace(W: seq<Complex>, L: seq<(nat, nat)>, size: int, x: seq<Complex>, off: int): (N: seq<seq<Complex>>)
    requires 0 <= off && off + size <= |x| && InRow(L, size) && |L| <= |W|
    ensures |N| == |L| + 1
  {
    seq(|L| + 1, q requires 0 <= q <= |L| => Stages(W, L, size, x, off, q))
  }

  lemma TraceNet(W: seq<Complex>, L: seq<(nat, nat)>, size: int, x: seq<Complex>, off: int)
    requires 0 <= off && off + size <= |x| && InRow(L, size) && |L| <= |W|
    ensures Net(Trace(W, L, size, x, off), W, L, size, off)
    ensures Trace(W, L, size, x, off)[0] == x
    ensures Trace(W, L, size, x, off)[|L|] == Stages(W, L, size, x, off, |L|)
  {
    var N := Trace(W, L, size, x, off);
    forall q | 0 <= q < |L|
      ensures off + size <= |N[q]| && N[q + 1] == Butterfly(N[q], off + L[q].0, off + L[q].1, W[q])
    {
      StagesNext(W, L, size, x, off, q);
    }
  }

  /**
   * fft_radix2_float on the size samples from a[off]: the swap pass, then the
   * butterflies, the twiddle read index advancing by two per butterfly.
   */
  method FftRadix2(a: array<Complex>, off: int, tw: seq<real>, lut: seq<int>, count: int, size: int)
    requires IsPow2(size) && 0 <= off && off + size <= a.Length && 2 * PairCount(size) <= |tw|
    requires 0 <= count <= |lut| && count % 2 == 0
    requires forall t :: 0 <= t < count ==> 0 <= lut[t] < size
    modifies a
    ensures a[..] == Radix2At(size, tw, lut, count, old(a[..]), off)
  {
    SwapPass(a, off, lut, count, size);
    PairIndicesTable(size);
    PairIndicesInRow(size);
    TraceNet(Pairs(tw), PairIndices(size), size, a[..], off);
    var i := Butterflies(a, off, tw, size, Pairs(tw), PairIndices(size), Trace(Pairs(tw), PairIndices(size), size, a[..], off));
  }

  /**
   * The stage loop of fft_radix2_float: m = 2, 4, ... up to size, each stage one
   * call of ButterflyStage; the buffer goes through every state of the network N,
   * and the twiddle read index ends at the table length.
   */
  method Butterflies(a: array<Complex>, off: int, tw: seq<real>, size: int, ghost W: seq<Complex>,
                     ghost L: seq<(nat, nat)>, ghost N: seq<seq<Complex>>) returns (i: int)
    requires IsPow2(size) && off + size <= a.Length && 2 * PairCount(size) <= |tw|
    requires W == Pairs(tw) && PairTable(L, size) && |L| == PairCount(size) && Net(N, W, L, size, off)
    requires a[..] == N[0]
    modifies a
    ensures a[..] == N[PairCount(size)]
    ensures i == 2 * PairCount(size)
  {
    ghost var n := Log2(size);
    i := 0;
    ghost var p := 0;
    var m := 2;
    ghost var s: nat := 0;
    while m <= size
      invariant s <= n && m == Pow2(s + 1)
      invariant p == Times(s, size / 2) && p <= PairCount(size) && i == 2 * p
      invariant a[..] == N[p]
      decreases n - s
    {
      StageGuard(size, s);
      i, p := ButterflyStage(a, off, tw, size, W, L, N, s, m, i, p);
      m := m * 2;
      s := s + 1;
    }
    StageGuard(size, s);
  }

  /**
   * The block loop of fft_radix2_float for stage s with span m = 2^(s+1): the blocks
   * k = 0, m, 2m, ... below size, each one call of ButterflyBlock.
   */
  method ButterflyStage(a: array<Complex>, off: int, tw: seq<real>, size: int, ghost W: seq<Complex>,
                        ghost L: seq<(nat, nat)>, ghost N: seq<seq<Complex>>, ghost s: nat, m: int, i0: int, ghost p0: nat)
    returns (i: int, ghost p: nat)
    requires IsPow2(size) && off + size <= a.Length && 2 * PairCount(size) <= |tw|
    requires s < Log2(size) && m == Pow2(s + 1)
    requires W == Pairs(tw) && PairTable(L, size) && |L| == PairCount(size) && Net(N, W, L, size, off)
    requires p0 == Times(s, size / 2) && p0 <= PairCount(size) && i0 == 2 * p0
    requires a[..] == N[p0]
    modifies a
    ensures p == Times(s + 1, size / 2) && p <= PairCount(size) && i == 2 * p
    ensures a[..] == N[p]
  {
    i := i0;
    p := p0;
    ghost var c: nat := 0;
    var k := 0;
    while k < size
      invariant c <= Blocks(size, s) && k == Times(c, m)
      invariant p == Times(s, size / 2) + Times(c, Pow2(s)) && p <= PairCount(size) && i == 2 * p
      invariant a[..] == N[p]
      decreases Blocks(size, s) - c
    {
      BlockGuard(size, s, c);
      i, p := ButterflyBlock(a, off, tw, size, W, L, N, s, c, m, k, i, p);
      TimesSucc(c, m);
      TimesSucc(c, Pow2(s));
      k := k + m;
      c := c + 1;
    }
    BlockGuard(size, s, c);
    BlocksCover(size, s);
    TimesSucc(s, size / 2);
  }

  /** The butterfly at trip (s, c, j) of the nest is entry p of the pair table. */
  lemma TripPair(size: int, L: seq<(nat, nat)>, s: nat, c: nat, j: nat, m: int, k: int, lo: int, hi: int, p: int)
    requires IsPow2(size) && PairTable(L, size) && s < Log2(size) && c < Blocks(size, s) && j < Pow2(s)
    requires m == Pow2(s + 1) && k == Times(c, m) && lo == k + j && hi == lo + m / 2
    requires p == Times(s, size / 2) + Times(c, Pow2(s)) + j
    ensures 0 <= p < |L| && L[p] == (lo, hi)
  {
    var st := Step(s, c, j);
    assert m / 2 == Pow2(s);
    assert Lo(st) == lo && Hi(st) == hi;
    assert ValidStep(size, st);
    assert PairIndex(size, st) == p;
  }

  /**
   * The innermost loop of fft_radix2_float at block start k = c * m of stage s:
   * the m / 2 butterflies (k + j, k + j + m/2), reading twiddle floats from i0 = 2 * p0.
   * The products are written with Mul, Add and Sub, whose components are the
   * source's t_reel, t_im and the two sums and differences.
   */
  method ButterflyBlock(a: array<Complex>, off: int, tw: seq<real>, size: int, ghost W: seq<Complex>,
                        ghost L: seq<(nat, nat)>, ghost N: seq<seq<Complex>>, ghost s: nat, ghost c: nat,
                        m: int, k: int, i0: int, ghost p0: nat)
    returns (i: int, ghost p: nat)
    requires IsPow2(size) && off + size <= a.Length && 2 * PairCount(size) <= |tw|
    requires s < Log2(size) && c < Blocks(size, s) && m == Pow2(s + 1) && k == Times(c, m)
    requires W == Pairs(tw) && PairTable(L, size) && |L| == PairCount(size) && Net(N, W, L, size, off)
    requires p0 == Times(s, size / 2) + Times(c, Pow2(s)) && p0 <= PairCount(size) && i0 == 2 * p0
    requires a[..] == N[p0]
    modifies a
    ensures p == p0 + Pow2(s) && p <= PairCount(size) && i == 2 * p
    ensures a[..] == N[p]
  {
    BlockEnd(size, s, c);
    i := i0;
    p := p0;
    var j := 0;
    while j < m / 2
      invariant 0 <= j <= m / 2 && m / 2 == Pow2(s)
      invariant p == p0 + j && p <= PairCount(size) && i == 2 * p
      invariant a[..] == N[p]
    {
      var lo := k + j;
      var hi := lo + m / 2;
      TripPair(size, L, s, c, j, m, k, lo, hi, p);
      assert N[p + 1] == Butterfly(N[p], off + lo, off + hi, W[p]);
      TwiddleAtFloat(tw, p, i);
      var w := Complex(tw[i + 0], tw[i + 1]);
      i := i + 2;
      var t := Mul(w, a[off + hi]);
      var u := a[off + lo];
      ButterflyOf(N[p], off + lo, off + hi, w, u, t);
      a[off + lo] := Add(u, t);
      a[off + hi] := Sub(u, t);
      p := p + 1;
      j := j + 1;
    }
  }
}
