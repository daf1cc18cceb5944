/**
 * main in src/cluster/cluster.c: the tables built once, then NB_FFT_ITER times the
 * fixed stage order ingest, transpose, row FFTs, transpose, correction, row FFTs,
 * transpose, emit. Every cluster's part of a stage is taken together, one cluster
 * after the other, on the NB_CLUSTER tiles stacked in one TILE x TILE matrix; the
 * barriers between the stages only order them.
 *
 * FourStep states what one iteration computes without the buffers: the transform
 * of every column, each sample twisted by a power of its row's root, then the
 * transform of every row, read out column-wise.
 */
module Driver {
  import opened Powers
  import opened Cplx
  import opened Config
  import opened Twiddle
  import opened BitReverse
  import opened Radix2
  import opened Ffts
  import opened Correction
  import opened Transpose

  /** fft_radix2_float with the tables tw, lut and count as a map on rows; a row of another length is kept. */
  function Kernel(size: int, tw: seq<real>, lut: seq<int>, count: int): seq<Complex> -> seq<Complex>
  {
    x => if |x| == size && Tables(size, tw, lut, count) then Radix2.Radix2(size, tw, lut, count, x) else x
  }

  /** With tables the kernel accepts, Kernel is that kernel. */
  lemma KernelIsKernel(size: int, tw: seq<real>, lut: seq<int>, count: int)
    requires Tables(size, tw, lut, count)
    ensures IsKernel(Kernel(size, tw, lut, count), size, tw, lut, count)
  {
    var K := Kernel(size, tw, lut, count);
    forall x | |x| == size
      ensures K(x) == Radix2.Radix2(size, tw, lut, count, x) && |K(x)| == size
    {
    }
  }

  /** The tables main builds for rows of TILE_WIDTH samples are ones the kernel accepts. */
  lemma BenchTables(trig: Trig)
    ensures IsPow2(TILE_WIDTH)
    ensures Tables(TILE_WIDTH, TwiddleTable(trig, TILE_WIDTH), Lut(8), |Lut(8)|)
  {
    TileWidthIsPow2();
    Pow2Table();
    LutRealisesBitReversal(8, seq(TILE_WIDTH, t => One));
  }

  /** The row transform of the benchmark: the kernel with the twiddle table and swap table of TILE_WIDTH. */
  function BenchKernel(trig: Trig): seq<Complex> -> seq<Complex>
  {
    BenchTables(trig);
    Kernel(TILE_WIDTH, TwiddleTable(trig, TILE_WIDTH), Lut(8), |Lut(8)|)
  }

  /**
   * The tables as the builders hand them over (the swap buffer holds size ints, of
   * which count are used) make fft_radix2_float the benchmark's row transform.
   */
  lemma BenchKernelIs(trig: Trig, tw: seq<real>, lut: seq<int>, count: int)
    requires tw == TwiddleTable(trig, TILE_WIDTH) && count == |Lut(8)| && count <= |lut| && lut[..count] == Lut(8)
    ensures IsKernel(BenchKernel(trig), TILE_WIDTH, tw, lut, count)
  {
    BenchTables(trig);
    var K := BenchKernel(trig);
    var L := Lut(8);
    SwapBufferTables(TILE_WIDTH, tw, lut, L, count);
    forall x | |x| == TILE_WIDTH
      ensures K(x) == Radix2.Radix2(TILE_WIDTH, tw, lut, count, x) && |K(x)| == TILE_WIDTH
    {
      SwapBufferKernel(TILE_WIDTH, tw, lut, L, count, x);
    }
  }

  /** Only the first count entries of the swap buffer matter to the tables... */
  lemma SwapBufferTables(size: int, tw: seq<real>, lut: seq<int>, L: seq<int>, count: int)
    requires Tables(size, tw, L, count) && count == |L| <= |lut| && lut[..count] == L
    ensures Tables(size, tw, lut, count)
  {
    assert L[..count] == L;
    forall t | 0 <= t < count
      ensures 0 <= lut[t] < size
    {
      assert lut[t] == lut[..count][t] == L[..count][t];
    }
  }

  /** ... and to the kernel. */
  lemma SwapBufferKernel(size: int, tw: seq<real>, lut: seq<int>, L: seq<int>, count: int, x: seq<Complex>)
    requires Tables(size, tw, L, count) && Tables(size, tw, lut, count) && count == |L| <= |lut| && lut[..count] == L
    requires |x| == size
    ensures Radix2.Radix2(size, tw, lut, count, x) == Radix2.Radix2(size, tw, L, count, x)
    ensures |Radix2.Radix2(size, tw, lut, count, x)| == size
  {
    assert L[..count] == L;
    SwapsPrefix(x, lut, L, count);
  }

  /**
   * Fed the benchmark's tables, the row transform is the radix-2 butterfly network
   * run on the bit-reversed row, with the roots cos - i sin of 2*pi*j/m.
   */
  lemma BenchKernelNetwork(trig: Trig, x: seq<Complex>)
    requires |x| == TILE_WIDTH
    ensures IsPow2(TILE_WIDTH) && Log2(TILE_WIDTH) == 8
    ensures BenchKernel(trig)(x)
         == Stages(RootPairs(trig, TILE_WIDTH), PairIndices(TILE_WIDTH), TILE_WIDTH, BitReversed(x, 8), 0, PairCount(TILE_WIDTH))
  {
    BenchTables(trig);
    TileWidthIsPow2();
    var L := Lut(8);
    assert L[..|L|] == L;
    KernelWithTables(trig, TILE_WIDTH, TwiddleTable(trig, TILE_WIDTH), L, |L|, x);
  }

  /** ffts on every cluster's tile: all TILE rows of the stacked matrix, each through K. */
  function FftAll(X: seq<Complex>, K: seq<Complex> -> seq<Complex>): (r: seq<Complex>)
    requires |X| == CELLS
    ensures |r| == CELLS
  {
    FftRows(X, K, TILE_WIDTH, 0, |X| / TILE_WIDTH)
  }

  /** The correction roots of all TILE global rows of the WIDTH x HEIGHT matrix, as one float table. */
  function GlobalTable(trig: Trig): (t: seq<real>)
    ensures |t| == 2 * TILE
  {
    CorrectionTable(trig, 0, TILE, WIDTH, WIDTH)
  }

  /** twiddle_correction on every cluster's tile: every global row R twisted by its root. */
  function CorrectAll(trig: Trig, X: seq<Complex>): (r: seq<Complex>)
    requires |X| == CELLS
    ensures |r| == CELLS
  {
    CorrectRows(X, GlobalTable(trig), 0, 0, |X| / TILE_WIDTH)
  }

  /** What one iteration of main's loop leaves in the output, stage by stage (cluster.c:300-338). */
  function Pipeline(K: seq<Complex> -> seq<Complex>, trig: Trig, A: seq<Complex>): (r: seq<Complex>)
    requires |A| == CELLS
    ensures |r| == CELLS
  {
    var b1 := Transposed(A);
    var b2 := FftAll(b1, K);
    var a3 := Transposed(b2);
    var a4 := CorrectAll(trig, a3);
    var a5 := FftAll(a4, K);
    Transposed(a5)
  }

  /** Column c of the stacked matrix, top to bottom. */
  function Column(A: seq<Complex>, c: int): (x: seq<Complex>)
    requires |A| == CELLS && 0 <= c < TILE
    ensures |x| == TILE
  {
    seq(TILE, r requires 0 <= r < TILE => A[At(r, c)])
  }

  /**
   * Row R of the four-step form: sample R of the transform of every column c,
   * times the c-th power of the root of R / (WIDTH * HEIGHT) turns.
   */
  ghost function Twisted(K: seq<Complex> -> seq<Complex>, trig: Trig, A: seq<Complex>, R: int): (x: seq<Complex>)
    requires KeepsLength(K, TILE_WIDTH) && |A| == CELLS && 0 <= R < TILE
    ensures |x| == TILE
  {
    seq(TILE, c requires 0 <= c < TILE => Mul(K(Column(A, c))[R], CPow(Root(trig, CorrectionAngle(R, WIDTH, WIDTH)), c)))
  }

  /** The four-step form: the sample in row c, column R is sample c of the transform of twisted row R. */
  ghost function FourStep(K: seq<Complex> -> seq<Complex>, trig: Trig, A: seq<Complex>): (r: seq<Complex>)
    requires KeepsLength(K, TILE_WIDTH) && |A| == CELLS
    ensures |r| == CELLS
  {
    seq(CELLS, u requires 0 <= u < CELLS => K(Twisted(K, trig, A, u % TILE))[u / TILE])
  }

  /** Row r of the transposed matrix is column r of the matrix. */
  lemma TransposedRow(A: seq<Complex>, r: int)
    requires |A| == CELLS && 0 <= r < TILE
    ensures Row(Transposed(A), r, TILE_WIDTH) == Column(A, r)
  {
    forall c | 0 <= c < TILE
      ensures Row(Transposed(A), r, TILE_WIDTH)[c] == Column(A, r)[c]
    {
      assert Row(Transposed(A), r, TILE_WIDTH)[c] == Transposed(A)[At(r, c)];
    }
  }

  /** After the first three stages, the sample in row R, column c is sample R of the transform of column c. */
  lemma FirstPassAt(K: seq<Complex> -> seq<Complex>, A: seq<Complex>, R: int, c: int)
    requires KeepsLength(K, TILE_WIDTH) && |A| == CELLS && 0 <= R < TILE && 0 <= c < TILE
    ensures Transposed(FftAll(Transposed(A), K))[At(R, c)] == K(Column(A, c))[R]
  {
    FftRowsAt(Transposed(A), K, TILE_WIDTH, 0, TILE, c, R);
    TransposedRow(A, c);
  }

  /** The root the correction gives global row R. */
  lemma GlobalRoot(trig: Trig, R: int)
    requires 0 <= R < TILE
    ensures RowRoot(GlobalTable(trig), 0, R) == Root(trig, CorrectionAngle(R, WIDTH, WIDTH))
  {
    CorrectionEntry(trig, 0, TILE, WIDTH, WIDTH, R);
  }

  /** After the correction, row R is the twisted row R of the four-step form. */
  lemma CorrectedRow(K: seq<Complex> -> seq<Complex>, trig: Trig, A: seq<Complex>, R: int)
    requires KeepsLength(K, TILE_WIDTH) && |A| == CELLS && 0 <= R < TILE
    ensures Row(CorrectAll(trig, Transposed(FftAll(Transposed(A), K))), R, TILE_WIDTH) == Twisted(K, trig, A, R)
  {
    var Z := Transposed(FftAll(Transposed(A), K));
    GlobalRoot(trig, R);
    forall c | 0 <= c < TILE
      ensures Row(CorrectAll(trig, Z), R, TILE_WIDTH)[c] == Twisted(K, trig, A, R)[c]
    {
      CorrectRowsAt(Z, GlobalTable(trig), 0, 0, |Z| / TILE_WIDTH, R, c);
      FirstPassAt(K, A, R, c);
    }
  }

  /** One iteration computes the four-step form of its input. */
  lemma PipelineIsFourStep(K: seq<Complex> -> seq<Complex>, trig: Trig, A: seq<Complex>)
    requires KeepsLength(K, TILE_WIDTH) && |A| == CELLS
    ensures Pipeline(K, trig, A) == FourStep(K, trig, A)
  {
    var C := CorrectAll(trig, Transposed(FftAll(Transposed(A), K)));
    var F := FftAll(C, K);
    forall c, R | 0 <= c < TILE && 0 <= R < TILE
      ensures Pipeline(K, trig, A)[At(c, R)] == FourStep(K, trig, A)[At(c, R)]
    {
      FftRowsAt(C, K, TILE_WIDTH, 0, |C| / TILE_WIDTH, R, c);
      CorrectedRow(K, trig, A, R);
      assert Pipeline(K, trig, A)[At(c, R)] == F[At(R, c)];
    }
    CellsEqual(Pipeline(K, trig, A), FourStep(K, trig, A));
  }

  /** The first global row of cluster q's tile: the heights of the tiles above it added up. */
  function TileBase(nb: int, q: nat): (b: int)
    requires ValidClusterCount(nb)
    ensures b >= 0
  {
    if q == 0 then 0 else TileBase(nb, q - 1) + TileHeight(nb)
  }

  /** Cluster q's tile starts at global row q * TILE_HEIGHT. */
  lemma {:induction false} TileBaseProduct(nb: int, q: nat)
    requires ValidClusterCount(nb)
    ensures TileBase(nb, q) == TileHeight(nb) * q
  {
    if q > 0 {
      TileBaseProduct(nb, q - 1);
      assert TileHeight(nb) * q == TileHeight(nb) * (q - 1) + TileHeight(nb);
    }
  }

  /** The tiles follow one another from row 0 and the last one ends at row TILE. */
  lemma TileRows(nb: int, q: nat)
    requires ValidClusterCount(nb) && q < nb
    ensures TileBase(nb, 0) == 0 && TileBase(nb, nb) == TILE
    ensures 0 <= TileBase(nb, q) && TileBase(nb, q + 1) == TileBase(nb, q) + TileHeight(nb) <= TILE
  {
    TileBaseProduct(nb, q);
    TileBaseProduct(nb, q + 1);
    TileBaseProduct(nb, nb);
    MulMonotone(q + 1, nb, TileHeight(nb));
  }

  /** Cluster q's own correction table hands each of its rows the root the global table gives it. */
  lemma ClusterRoot(trig: Trig, q: int, th: nat, base: int, R: int)
    requires base == q * th && 0 <= base <= R < base + th <= TILE
    ensures RowRoot(CorrectionTable(trig, q, th, WIDTH, WIDTH), base, R) == RowRoot(GlobalTable(trig), 0, R)
  {
    CorrectionEntry(trig, q, th, WIDTH, WIDTH, R - base);
    GlobalRoot(trig, R);
  }

  /** The correction table of the th rows from row base = q * th corrects them as the global table does. */
  lemma ClusterTable(trig: Trig, q: int, th: nat, base: int, Y: seq<Complex>)
    requires base == q * th && 0 <= base && base + th <= TILE && |Y| == CELLS
    ensures CorrectRows(Y, CorrectionTable(trig, q, th, WIDTH, WIDTH), base, base, base + th)
         == CorrectRows(Y, GlobalTable(trig), 0, base, base + th)
  {
    var W := CorrectionTable(trig, q, th, WIDTH, WIDTH);
    forall R | base <= R < base + th
      ensures RowRoot(W, base, R) == RowRoot(GlobalTable(trig), 0, R)
    {
      ClusterRoot(trig, q, th, base, R);
    }
    CorrectRowsSameRoots(Y, W, base, GlobalTable(trig), 0, base, base + th);
  }

  /** Every cluster's get_spaced of its TILE_HEIGHT rows: the stacked tiles take the input matrix. */
  method Ingest(inp: seq<Complex>, a: array<Complex>)
    requires |inp| == a.Length
    modifies a
    ensures a[..] == inp
  {
    forall u | 0 <= u < a.Length {
      a[u] := inp[u];
    }
  }

  /** Every cluster's put_spaced of its tile: the output matrix takes the stacked tiles. */
  method Emit(b: array<Complex>, out: array<Complex>)
    requires b != out && b.Length == out.Length
    modifies out
    ensures out[..] == b[..]
  {
    forall u | 0 <= u < out.Length {
      out[u] := b[u];
    }
  }

  /** Cluster q's ffts: with the tiles above it done, its own tile is done too. */
  method ClusterFfts(a: array<Complex>, nb: int, q: int, cores: int, tw: seq<real>, lut: seq<int>, count: int,
                     ghost K: seq<Complex> -> seq<Complex>, ghost X: seq<Complex>)
    requires IsKernel(K, TILE_WIDTH, tw, lut, count)
    requires ValidClusterCount(nb) && ValidCoreCount(cores) && 0 <= q < nb && a.Length == CELLS == |X|
    requires TileBase(nb, q) + TileHeight(nb) <= TILE
    requires a[..] == FftRows(X, K, TILE_WIDTH, 0, TileBase(nb, q))
    modifies a
    ensures a[..] == FftRows(X, K, TILE_WIDTH, 0, TileBase(nb, q + 1))
  {
    TileRows(nb, q);
    var th := TileHeight(nb);
    var base := TileBase(nb, q);
    Ffts.Ffts(a, TILE_WIDTH, tw, lut, count, K, base, th, cores);
    FftRowsSplit(X, K, TILE_WIDTH, 0, base, base + th);
  }

  /** ffts on every cluster: cluster q's call transforms global rows q * TILE_HEIGHT onwards. */
  method AllFfts(a: array<Complex>, nb: int, cores: int, tw: seq<real>, lut: seq<int>, count: int, ghost K: seq<Complex> -> seq<Complex>)
    requires IsKernel(K, TILE_WIDTH, tw, lut, count)
    requires ValidClusterCount(nb) && ValidCoreCount(cores) && a.Length == CELLS
    modifies a
    ensures a[..] == FftAll(old(a[..]), K)
  {
    ghost var X := a[..];
    TileRows(nb, 0);
    var q := 0;
    while q < nb
      invariant 0 <= q <= nb && TileBase(nb, q) <= TILE
      invariant a[..] == FftRows(X, K, TILE_WIDTH, 0, TileBase(nb, q))
    {
      TileRows(nb, q);
      ClusterFfts(a, nb, q, cores, tw, lut, count, K, X);
      q := q + 1;
    }
    assert TileBase(nb, q) == |X| / TILE_WIDTH;
  }

  /** Cluster q's twiddle_correction with its own table: with the tiles above it done, its own tile is done too. */
  method ClusterCorrection(a: array<Complex>, nb: int, q: int, cores: int, ct: seq<real>, ghost trig: Trig, ghost X: seq<Complex>)
    requires ValidClusterCount(nb) && ValidCoreCount(cores) && 0 <= q < nb && a.Length == CELLS == |X|
    requires ct == CorrectionTable(trig, q, TileHeight(nb), WIDTH, Height(nb))
    requires TileBase(nb, q) + TileHeight(nb) <= TILE
    requires a[..] == CorrectRows(X, GlobalTable(trig), 0, 0, TileBase(nb, q))
    modifies a
    ensures a[..] == CorrectRows(X, GlobalTable(trig), 0, 0, TileBase(nb, q + 1))
  {
    TileRows(nb, q);
    var th := TileHeight(nb);
    var base := TileBase(nb, q);
    ghost var Y := a[..];
    TwiddleCorrection(a, ct, base, th, cores);
    ClusterCorrected(trig, nb, q, X, Y);
  }

  /** With the tiles above cluster q corrected, cluster q's own table corrects its tile as well. */
  lemma ClusterCorrected(trig: Trig, nb: int, q: int, X: seq<Complex>, Y: seq<Complex>)
    requires ValidClusterCount(nb) && 0 <= q < nb && |X| == CELLS
    requires TileBase(nb, q) + TileHeight(nb) <= TILE
    requires Y == CorrectRows(X, GlobalTable(trig), 0, 0, TileBase(nb, q))
    ensures CorrectRows(Y, CorrectionTable(trig, q, TileHeight(nb), WIDTH, Height(nb)), TileBase(nb, q), TileBase(nb, q), TileBase(nb, q) + TileHeight(nb))
         == CorrectRows(X, GlobalTable(trig), 0, 0, TileBase(nb, q + 1))
  {
    TileRows(nb, q);
    var base, th, G := TileBase(nb, q), TileHeight(nb), GlobalTable(trig);
    TileBaseProduct(nb, q);
    assert base == q * th && Height(nb) == WIDTH;
    ClusterTable(trig, q, th, base, Y);
    CorrectRowsSplit(X, G, 0, 0, base, base + th);
    assert CorrectRows(Y, G, 0, base, base + th) == CorrectRows(X, G, 0, 0, base + th);
    assert CorrectRows(Y, CorrectionTable(trig, q, th, WIDTH, Height(nb)), base, base, base + th) == CorrectRows(Y, G, 0, base, base + th);
    assert base + th == TileBase(nb, q + 1);
  }

  /** Table q is the correction table cluster q builds for its own rows. */
  predicate ClusterTables(cts: seq<seq<real>>, nb: int, trig: Trig)
    requires ValidClusterCount(nb)
  {
    |cts| == nb && forall q :: 0 <= q < nb ==> cts[q] == CorrectionTable(trig, q, TileHeight(nb), WIDTH, Height(nb))
  }

  /** twiddle_correction on every cluster, cluster q with the table it built for its own rows. */
  method AllCorrections(a: array<Complex>, nb: int, cores: int, cts: seq<seq<real>>, ghost trig: Trig)
    requires ValidClusterCount(nb) && ValidCoreCount(cores) && a.Length == CELLS
    requires ClusterTables(cts, nb, trig)
    modifies a
    ensures a[..] == CorrectAll(trig, old(a[..]))
  {
    ghost var X := a[..];
    TileRows(nb, 0);
    var q := 0;
    while q < nb
      invariant 0 <= q <= nb && TileBase(nb, q) <= TILE
      invariant a[..] == CorrectRows(X, GlobalTable(trig), 0, 0, TileBase(nb, q))
    {
      TileRows(nb, q);
      ClusterCorrection(a, nb, q, cores, cts[q], trig, X);
      q := q + 1;
    }
    assert TileBase(nb, q) == |X| / TILE_WIDTH;
  }

  /** fft_get_correction_twiddle(WIDTH, HEIGHT) on every cluster: table q for cluster q's rows. */
  method CorrectionTables(trig: Trig, nb: int) returns (cts: seq<seq<real>>)
    requires ValidClusterCount(nb)
    ensures ClusterTables(cts, nb, trig)
  {
    cts := [];
    var q := 0;
    while q < nb
      invariant 0 <= q <= nb && |cts| == q
      invariant forall p :: 0 <= p < q ==> cts[p] == CorrectionTable(trig, p, TileHeight(nb), WIDTH, Height(nb))
    {
      var ct := GetCorrectionTwiddle(trig, nb, q, WIDTH, Height(nb));
      cts := cts + [ct[..]];
      q := q + 1;
    }
  }

  /** Three distinct buffers of one matrix each, and the input segment of the same size. */
  predicate Buffers(inp: seq<Complex>, out: array<Complex>, a: array<Complex>, b: array<Complex>)
  {
    a != b && a != out && b != out &&
    |inp| == CELLS && out.Length == CELLS && a.Length == CELLS && b.Length == CELLS
  }

  /** What main has built before its loop: the kernel's tables and every cluster's correction table. */
  ghost predicate Setup(nb: int, cores: int, tw: seq<real>, lut: seq<int>, count: int, cts: seq<seq<real>>,
                        K: seq<Complex> -> seq<Complex>, trig: Trig)
  {
    ValidClusterCount(nb) && ValidCoreCount(cores) &&
    IsKernel(K, TILE_WIDTH, tw, lut, count) &&
    ClusterTables(cts, nb, trig)
  }

  /**
   * One iteration of main's loop on the input matrix inp: A takes the input, B its
   * transpose, the row FFTs on B, A the transpose of B, the correction and the row
   * FFTs on A, B the transpose of A, and the output takes B. Each transpose bumps
   * every cluster's DMA job counter by (NB_CLUSTER - 1) * TILE_HEIGHT.
   */
  method Iteration(inp: seq<Complex>, out: array<Complex>, a: array<Complex>, b: array<Complex>, nb: int, cores: int,
                   tw: seq<real>, lut: seq<int>, count: int, cts: seq<seq<real>>, ghost K: seq<Complex> -> seq<Complex>,
                   ghost trig: Trig, jobs: seq<int>) returns (jobs': seq<int>)
    requires Buffers(inp, out, a, b) && Setup(nb, cores, tw, lut, count, cts, K, trig) && |jobs| == nb
    modifies a, b, out
    ensures a[..] == FftAll(CorrectAll(trig, Transposed(FftAll(Transposed(inp), K))), K)
    ensures b[..] == Pipeline(K, trig, inp) && out[..] == b[..]
    ensures |jobs'| == nb && forall q :: 0 <= q < nb ==> jobs'[q] == jobs[q] + 3 * ((nb - 1) * TileHeight(nb))
  {
    ghost var th := TileHeight(nb);
    Ingest(inp, a);
    var j1 := FlatTranspose(a, b, nb, jobs);
    AllFfts(b, nb, cores, tw, lut, count, K);
    var j2 := FlatTranspose(b, a, nb, j1);
    AllCorrections(a, nb, cores, cts, trig);
    AllFfts(a, nb, cores, tw, lut, count, K);
    jobs' := FlatTranspose(a, b, nb, j2);
    Emit(b, out);
  }

  /**
   * main on all clusters: the swap table, the twiddle table and each cluster's
   * correction table, then NB_FFT_ITER iterations on the same input. The output
   * ends as the four-step form of the input, and each cluster's DMA job counter
   * at 3 * NB_FFT_ITER * (NB_CLUSTER - 1) * TILE_HEIGHT.
   */
  method Run(trig: Trig, nb: int, cores: int, inp: seq<Complex>, out: array<Complex>) returns (jobs: seq<int>)
    requires ValidClusterCount(nb) && ValidCoreCount(cores)
    requires |inp| == CELLS && out.Length == CELLS
    modifies out
    ensures out[..] == Pipeline(BenchKernel(trig), trig, inp)
    ensures |jobs| == nb && forall q :: 0 <= q < nb ==> jobs[q] == NB_FFT_ITER * (3 * ((nb - 1) * TileHeight(nb)))
  {
    TileWidthIsPow2();
    var lut, count := GetBitReverse(TILE_WIDTH);
    var tw := GetTwiddle(trig, TILE_WIDTH);
    var cts := CorrectionTables(trig, nb);
    var twiddle, swaps := tw[..], lut[..];
    ghost var K := BenchKernel(trig);
    BenchKernelIs(trig, twiddle, swaps, count);
    var a := new Complex[CELLS];
    var b := new Complex[CELLS];
    jobs := Iterations(inp, out, a, b, nb, cores, twiddle, swaps, count, cts, K, trig);
  }

  /** main's loop: NB_FFT_ITER iterations on the same input, every cluster's DMA job counter from 0. */
  method Iterations(inp: seq<Complex>, out: array<Complex>, a: array<Complex>, b: array<Complex>, nb: int, cores: int,
                    tw: seq<real>, lut: seq<int>, count: int, cts: seq<seq<real>>, ghost K: seq<Complex> -> seq<Complex>,
                    ghost trig: Trig) returns (jobs: seq<int>)
    requires Buffers(inp, out, a, b) && Setup(nb, cores, tw, lut, count, cts, K, trig)
    modifies a, b, out
    ensures out[..] == Pipeline(K, trig, inp)
    ensures |jobs| == nb && forall q :: 0 <= q < nb ==> jobs[q] == NB_FFT_ITER * (3 * ((nb - 1) * TileHeight(nb)))
  {
    var per := 3 * ((nb - 1) * TileHeight(nb));
    jobs := seq(nb, q => 0);
    ghost var done := 0;
    var i := 0;
    while i < NB_FFT_ITER
      invariant 0 <= i <= NB_FFT_ITER && done == i * per
      invariant |jobs| == nb && forall q :: 0 <= q < nb ==> jobs[q] == done
      invariant i > 0 ==> out[..] == Pipeline(K, trig, inp)
    {
      jobs := Iteration(inp, out, a, b, nb, cores, tw, lut, count, cts, K, trig, jobs);
      done := done + per;
      assert (i + 1) * per == i * per + per;
      i := i + 1;
    }
  }
}
