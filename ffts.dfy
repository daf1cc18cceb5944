/**
 * ffts / ffts_ in src/cluster/cluster.c: the radix-2 kernel run on every row of a
 * tile, the rows split over the cores by the partition and each core's rows done
 * one after the other at offsets i * TILE_WIDTH.
 *
 * The row transform is a parameter K, a map on rows of size samples; IsKernel says
 * that K is fft_radix2_float with the given tables, and only RowFft, the call of the
 * kernel on one row, looks inside it.
 */
module Ffts {
  import opened Powers
  import opened Cplx
  import opened Config
  import opened Twiddle
  import opened Radix2
  import opened Partition

  /**
   * What fft_radix2_float needs to run on the first size samples of a row: a power
   * of two that fits in the row, enough twiddle floats, and count swap entries
   * below size.
   */
  predicate Tables(size: int, tw: seq<real>, lut: seq<int>, count: int)
  {
    && IsPow2(size) && size <= TILE_WIDTH
    && 2 * PairCount(size) <= |tw|
    && 0 <= count <= |lut| && count % 2 == 0
    && forall t :: 0 <= t < count ==> 0 <= lut[t] < size
  }

  /** K maps rows of size samples to rows of size samples. */
  ghost predicate KeepsLength(K: seq<Complex> -> seq<Complex>, size: int)
  {
    forall x :: |x| == size ==> |K(x)| == size
  }

  /** K is the transform fft_radix2_float computes with the tables tw, lut and count. */
  ghost predicate IsKernel(K: seq<Complex> -> seq<Complex>, size: int, tw: seq<real>, lut: seq<int>, count: int)
  {
    && Tables(size, tw, lut, count)
    && KeepsLength(K, size)
    && forall x {:trigger Radix2.Radix2(size, tw, lut, count, x)} :: |x| == size ==> K(x) == Radix2.Radix2(size, tw, lut, count, x)
  }

  /** The buffer A with the samples from off on replaced by y. */
  function Splice(A: seq<Complex>, off: int, y: seq<Complex>): (r: seq<Complex>)
    requires 0 <= off && off + |y| <= |A|
    ensures |r| == |A|
  {
    A[..off] + y + A[off + |y|..]
  }

  lemma SpliceAt(A: seq<Complex>, off: int, y: seq<Complex>, u: int)
    requires 0 <= off && off + |y| <= |A| && 0 <= u < |A|
    ensures Splice(A, off, y)[u] == if off <= u < off + |y| then y[u - off] else A[u]
  {
    if u < off + |y| {
      assert Splice(A, off, y)[u] == (A[..off] + y)[u];
    }
  }

  /** B is A with the samples from off on replaced by y when it agrees with y there and with A elsewhere. */
  lemma SpliceOf(A: seq<Complex>, B: seq<Complex>, off: int, y: seq<Complex>)
    requires |B| == |A| && 0 <= off && off + |y| <= |A| && B[off..off + |y|] == y
    requires forall t :: 0 <= t < |A| && !(off <= t < off + |y|) ==> B[t] == A[t]
    ensures B == Splice(A, off, y)
  {
    forall u | 0 <= u < |A|
      ensures B[u] == Splice(A, off, y)[u]
    {
      if off <= u < off + |y| {
        assert B[off..off + |y|][u - off] == y[u - off];
      }
    }
  }

  /** The first size samples of row r of the matrix X. */
  function Row(X: seq<Complex>, r: int, size: int): (x: seq<Complex>)
    requires 0 <= r && 0 <= size <= TILE_WIDTH && RowOff(r + 1) <= |X|
    ensures |x| == size
  {
    X[RowOff(r)..RowOff(r) + size]
  }

  /**
   * Row r of Y transformed in place by K. A K that changed the length of a row would
   * leave it as it was; the kernel never does (IsKernel).
   */
  function Step(Y: seq<Complex>, K: seq<Complex> -> seq<Complex>, size: int, r: int): (Z: seq<Complex>)
    requires 0 <= r && 0 <= size <= TILE_WIDTH && RowOff(r + 1) <= |Y|
    ensures |Z| == |Y|
  {
    var y := K(Row(Y, r, size));
    if |y| == size then Splice(Y, RowOff(r), y) else Y
  }

  lemma StepAt(Y: seq<Complex>, K: seq<Complex> -> seq<Complex>, size: int, r: int, u: int)
    requires 0 <= r && 0 <= size <= TILE_WIDTH && RowOff(r + 1) <= |Y| && 0 <= u < |Y|
    ensures Step(Y, K, size, r)[u]
         == if RowOff(r) <= u < RowOff(r) + size && |K(Row(Y, r, size))| == size then K(Row(Y, r, size))[u - RowOff(r)] else Y[u]
  {
  }

  /** Global rows lo .. hi-1 of X transformed in place by K, one after the other. */
  function FftRows(X: seq<Complex>, K: seq<Complex> -> seq<Complex>, size: int, lo: int, hi: int): (r: seq<Complex>)
    requires 0 <= size <= TILE_WIDTH && 0 <= lo <= hi && RowOff(hi) <= |X|
    ensures |r| == |X|
    decreases hi - lo, 0
  {
    if hi == lo then X else FftRow(X, K, size, lo, hi - 1)
  }

  /** Global rows lo .. r of X transformed: row r done after rows lo .. r-1. */
  function FftRow(X: seq<Complex>, K: seq<Complex> -> seq<Complex>, size: int, lo: int, r: int): (Z: seq<Complex>)
    requires 0 <= size <= TILE_WIDTH && 0 <= lo <= r && RowOff(r + 1) <= |X|
    ensures |Z| == |X|
    decreases r - lo, 1
  {
    Step(FftRows(X, K, size, lo, r), K, size, r)
  }

  /** One more row: row hi transformed in the result for rows lo .. hi-1. */
  lemma FftRowsNext(X: seq<Complex>, K: seq<Complex> -> seq<Complex>, size: int, lo: int, hi: int)
    requires 0 <= size <= TILE_WIDTH && 0 <= lo <= hi && RowOff(hi + 1) <= |X|
    ensures FftRows(X, K, size, lo, hi + 1) == Step(FftRows(X, K, size, lo, hi), K, size, hi)
  {
    assert FftRows(X, K, size, lo, hi + 1) == FftRow(X, K, size, lo, hi);
  }

  /** Samples outside rows lo .. hi-1 are left alone. */
  lemma {:induction false} FftRowsFrame(X: seq<Complex>, K: seq<Complex> -> seq<Complex>, size: int, lo: int, hi: int, u: int)
    requires 0 <= size <= TILE_WIDTH && 0 <= lo <= hi && RowOff(hi) <= |X|
    requires 0 <= u < |X| && !(RowOff(lo) <= u < RowOff(hi))
    ensures FftRows(X, K, size, lo, hi)[u] == X[u]
    decreases hi - lo
  {
    if hi > lo {
      var Y := FftRows(X, K, size, lo, hi - 1);
      FftRowsNext(X, K, size, lo, hi - 1);
      FftRowsFrame(X, K, size, lo, hi - 1, u);
      StepAt(Y, K, size, hi - 1, u);
    }
  }

  /** The samples of row r past the first size are left alone too. */
  lemma {:induction false} FftRowsTail(X: seq<Complex>, K: seq<Complex> -> seq<Complex>, size: int, lo: int, hi: int, r: int, t: int)
    requires 0 <= size <= TILE_WIDTH && 0 <= lo <= hi && RowOff(hi) <= |X|
    requires 0 <= r && size <= t < TILE_WIDTH && RowOff(r + 1) <= |X|
    ensures FftRows(X, K, size, lo, hi)[RowOff(r) + t] == X[RowOff(r) + t]
    decreases hi - lo
  {
    if hi > lo {
      var Y := FftRows(X, K, size, lo, hi - 1);
      FftRowsNext(X, K, size, lo, hi - 1);
      FftRowsTail(X, K, size, lo, hi - 1, r, t);
      StepAt(Y, K, size, hi - 1, RowOff(r) + t);
      assert !(RowOff(hi - 1) <= RowOff(r) + t < RowOff(hi - 1) + size) by {
        if r < hi - 1 {
          assert RowOff(r) + t < RowOff(r + 1) <= RowOff(hi - 1);
        } else if r > hi - 1 {
          assert RowOff(hi) <= RowOff(r);
        }
      }
    }
  }

  /** Rows from hi on still hold what they held in X. */
  lemma FftRowsAbove(X: seq<Complex>, K: seq<Complex> -> seq<Complex>, size: int, lo: int, hi: int, r: int)
    requires 0 <= size <= TILE_WIDTH && 0 <= lo <= hi <= r && RowOff(r + 1) <= |X|
    ensures Row(FftRows(X, K, size, lo, hi), r, size) == Row(X, r, size)
  {
    forall t | 0 <= t < size
      ensures Row(FftRows(X, K, size, lo, hi), r, size)[t] == Row(X, r, size)[t]
    {
      FftRowsFrame(X, K, size, lo, hi, RowOff(r) + t);
    }
  }

  /** Sample t of a row lo .. hi-1 ends up as sample t of the transform of what the row held. */
  lemma {:induction false} FftRowsAt(X: seq<Complex>, K: seq<Complex> -> seq<Complex>, size: int, lo: int, hi: int, r: int, t: int)
    requires KeepsLength(K, size) && 0 <= size <= TILE_WIDTH && 0 <= lo <= r < hi && RowOff(hi) <= |X| && 0 <= t < size
    ensures FftRows(X, K, size, lo, hi)[RowOff(r) + t] == K(Row(X, r, size))[t]
    decreases hi - lo
  {
    var Y := FftRows(X, K, size, lo, hi - 1);
    FftRowsNext(X, K, size, lo, hi - 1);
    StepAt(Y, K, size, hi - 1, RowOff(r) + t);
    if r == hi - 1 {
      FftRowsAbove(X, K, size, lo, hi - 1, r);
    } else {
      assert RowOff(r) + t < RowOff(r + 1) <= RowOff(hi - 1);
      FftRowsAt(X, K, size, lo, hi - 1, r, t);
    }
  }

  /** Each row lo .. hi-1 ends up as the transform of what it held before. */
  lemma FftRowsRow(X: seq<Complex>, K: seq<Complex> -> seq<Complex>, size: int, lo: int, hi: int, r: int)
    requires KeepsLength(K, size) && 0 <= size <= TILE_WIDTH && 0 <= lo <= r < hi && RowOff(hi) <= |X|
    ensures Row(FftRows(X, K, size, lo, hi), r, size) == K(Row(X, r, size))
  {
    forall t | 0 <= t < size
      ensures Row(FftRows(X, K, size, lo, hi), r, size)[t] == K(Row(X, r, size))[t]
    {
      FftRowsAt(X, K, size, lo, hi, r, t);
    }
  }

  /** Doing rows lo .. mid-1 and then mid .. hi-1 is doing rows lo .. hi-1. */
  lemma {:induction false} FftRowsSplit(X: seq<Complex>, K: seq<Complex> -> seq<Complex>, size: int, lo: int, mid: int, hi: int)
    requires 0 <= size <= TILE_WIDTH && 0 <= lo <= mid <= hi && RowOff(hi) <= |X|
    ensures FftRows(FftRows(X, K, size, lo, mid), K, size, mid, hi) == FftRows(X, K, size, lo, hi)
    decreases hi - mid
  {
    if hi > mid {
      FftRowsSplit(X, K, size, lo, mid, hi - 1);
      FftRowsNext(FftRows(X, K, size, lo, mid), K, size, mid, hi - 1);
      FftRowsNext(X, K, size, lo, hi - 1);
    }
  }

  /**
   * One call of fft_radix2_float on row r, held from off: when the buffer holds X
   * with rows lo .. r-1 done, it then holds X with rows lo .. r done.
   */
  method RowFft(a: array<Complex>, off: int, size: int, tw: seq<real>, lut: seq<int>, count: int,
                ghost K: seq<Complex> -> seq<Complex>, ghost X: seq<Complex>, ghost lo: int, ghost r: int)
    requires IsKernel(K, size, tw, lut, count) && 0 <= lo <= r && off == RowOff(r) && RowOff(r + 1) <= a.Length == |X|
    requires a[..] == FftRows(X, K, size, lo, r)
    modifies a
    ensures a[..] == FftRows(X, K, size, lo, r + 1)
  {
    ghost var A := a[..];
    FftRadix2(a, off, tw, lut, count, size);
    KernelStep(A, K, size, tw, lut, count, r);
    FftRowsNext(X, K, size, lo, r);
  }

  /** fft_radix2_float on the row held from RowOff(r) is one Step of K. */
  lemma KernelStep(A: seq<Complex>, K: seq<Complex> -> seq<Complex>, size: int, tw: seq<real>, lut: seq<int>, count: int, r: int)
    requires IsKernel(K, size, tw, lut, count) && 0 <= r && RowOff(r + 1) <= |A|
    ensures Radix2At(size, tw, lut, count, A, RowOff(r)) == Step(A, K, size, r)
  {
    var off := RowOff(r);
    var x := Row(A, r, size);
    var B := Radix2At(size, tw, lut, count, A, off);
    Radix2AtRow(size, tw, lut, count, A, off);
    assert x == A[off..off + size];
    var y := K(x);
    assert y == Radix2.Radix2(size, tw, lut, count, x);
    assert B[off..off + |y|] == y;
    SpliceOf(A, B, off, y);
  }

  /**
   * ffts_ for one core: its height rows from local row start of the tile at global
   * row base, row i at offset i * TILE_WIDTH from the first. The ghost X and lo say
   * what the buffer holds on entry: X with rows lo .. base+start-1 already done.
   */
  method FftsChunk(a: array<Complex>, size: int, tw: seq<real>, lut: seq<int>, count: int, ghost K: seq<Complex> -> seq<Complex>,
                   base: int, start: int, height: int, ghost X: seq<Complex>, ghost lo: int)
    requires IsKernel(K, size, tw, lut, count)
    requires 0 <= lo <= base + start && 0 <= start && 0 <= height && RowOff(base + start + height) <= a.Length == |X|
    requires a[..] == FftRows(X, K, size, lo, base + start)
    modifies a
    ensures a[..] == FftRows(X, K, size, lo, base + start + height)
  {
    var input := RowOff(base + start);
    var i := 0;
    while i < height
      invariant 0 <= i <= height
      invariant a[..] == FftRows(X, K, size, lo, base + start + i)
    {
      ghost var r := base + start + i;
      var offset := input + i * TILE_WIDTH;
      assert offset == RowOff(r);
      RowFft(a, offset, size, tw, lut, count, K, X, lo, r);
      i := i + 1;
      assert base + start + i == r + 1;
    }
  }

  /**
   * ffts on the tile at global row base: core i gets RowCount rows from RowStart;
   * the threads are run one after the other.
   */
  method Ffts(a: array<Complex>, size: int, tw: seq<real>, lut: seq<int>, count: int, ghost K: seq<Complex> -> seq<Complex>,
              base: int, th: int, cores: int)
    requires IsKernel(K, size, tw, lut, count)
    requires 0 <= base && th >= 0 && RowOff(base + th) <= a.Length && cores >= 1
    modifies a
    ensures a[..] == FftRows(old(a[..]), K, size, base, base + th)
  {
    ghost var X := a[..];
    StartEnds(th, cores);
    var i := 0;
    while i < cores
      invariant 0 <= i <= cores && 0 <= RowStart(th, cores, i) <= th
      invariant a[..] == FftRows(X, K, size, base, base + RowStart(th, cores, i))
    {
      var nbFft := RowCount(th, cores, i);
      var start := RowStart(th, cores, i);
      InTile(th, cores, i);
      StartNext(th, cores, i);
      FftsChunk(a, size, tw, lut, count, K, base, start, nbFft, X, base);
      i := i + 1;
      assert base + RowStart(th, cores, i) == base + start + nbFft;
    }
  }
}
