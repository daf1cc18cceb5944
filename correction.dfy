/**
 * The twiddle correction between the two FFT passes: the table of per-row roots
 * cluster cid builds with fft_get_correction_twiddle (src/cluster/fft_kernels.c),
 * and twiddle_correction / twiddle_correction_ (src/cluster/cluster.c), which
 * multiply column j of global row R by the j-th power of that row's root, the
 * powers taken by a running phasor.
 *
 * Rows are numbered globally: the NB_CLUSTER tiles are stacked in one TILE x TILE
 * matrix, and the tile of cluster q holds global rows q * TILE_HEIGHT onwards.
 */
module Correction {
  import opened Powers
  import opened Cplx
  import opened Config
  import opened Twiddle
  import opened Partition

  /** The correction angle of global row R of a w x h matrix, in turns: R / (w * h). */
  function CorrectionAngle(R: int, w: int, h: int): real
    requires w > 0 && h > 0
  {
    R as real / (w * h) as real
  }

  /** The roots of the th rows of cluster cid, its rows starting at global row cid * th. */
  function CorrectionRoots(trig: Trig, cid: int, th: nat, w: int, h: int): (ws: seq<Complex>)
    requires w > 0 && h > 0
    ensures |ws| == th
  {
    seq(th, r requires 0 <= r < th => Root(trig, CorrectionAngle(r + cid * th, w, h)))
  }

  /** The floats correction_twiddle holds: the roots as (cos, -sin) pairs. */
  function CorrectionTable(trig: Trig, cid: int, th: nat, w: int, h: int): (t: seq<real>)
    requires w > 0 && h > 0
    ensures |t| == 2 * th
  {
    Interleave(CorrectionRoots(trig, cid, th, w, h))
  }

  /**
   * Entry r of the table is (cos(2*pi*(r + cid*th)/(w*h)), -sin(2*pi*(r + cid*th)/(w*h))),
   * and read back two floats at a time it is the root of global row cid * th + r.
   */
  lemma CorrectionEntry(trig: Trig, cid: int, th: nat, w: int, h: int, r: int)
    requires w > 0 && h > 0 && 0 <= r < th
    ensures CorrectionTable(trig, cid, th, w, h)[2 * r] == trig.cos((r + cid * th) as real / (w * h) as real)
    ensures CorrectionTable(trig, cid, th, w, h)[2 * r + 1] == -trig.sin((r + cid * th) as real / (w * h) as real)
    ensures RowRoot(CorrectionTable(trig, cid, th, w, h), cid * th, cid * th + r) == Root(trig, CorrectionAngle(cid * th + r, w, h))
  {
    InterleaveAt(CorrectionRoots(trig, cid, th, w, h), r);
  }

  /**
   * fft_get_correction_twiddle(w, h) on cluster cid: TILE_HEIGHT pairs, pair i the
   * cosine and minus the sine of (i + cid * TILE_HEIGHT) / (w * h) turns.
   */
  method GetCorrectionTwiddle(trig: Trig, nb: int, cid: int, w: int, h: int) returns (ct: array<real>)
    requires ValidClusterCount(nb) && 0 <= cid < nb && w > 0 && h > 0
    ensures fresh(ct)
    ensures ct.Length == 2 * TileHeight(nb)
    ensures ct[..] == CorrectionTable(trig, cid, TileHeight(nb), w, h)
  {
    var th := TileHeight(nb);
    ghost var W := CorrectionRoots(trig, cid, th, w, h);
    var iBase := cid * th;
    ct := new real[th * 2];
    var i := 0;
    var j := 0;
    while i < th
      invariant 0 <= i <= th && j == 2 * i
      invariant Holds(ct[..], W, i)
    {
      var omegaC := trig.cos((i + iBase) as real / (w * h) as real);
      var omegaS := -trig.sin((i + iBase) as real / (w * h) as real);
      ghost var before := ct[..];
      ct[j] := omegaC;
      ct[j + 1] := omegaS;
      assert ct[..] == before[j := omegaC][j + 1 := omegaS];
      HoldsNext(before, W, i, omegaC, omegaS);
      i := i + 1;
      j := j + 2;
    }
    HoldsAll(ct[..], W);
  }

  /** The first n samples of the row starting at off, sample j multiplied by omega^j. */
  function ScaleRow(X: seq<Complex>, off: int, omega: Complex, n: nat): (r: seq<Complex>)
    requires 0 <= off && off + n <= |X|
    ensures |r| == |X|
  {
    if n == 0 then X
    else ScaleRow(X, off, omega, n - 1)[off + n - 1 := Mul(X[off + n - 1], CPow(omega, n - 1))]
  }

  /** Column j of the row ends up multiplied by omega^j, for j < n; no other sample changes. */
  lemma {:induction false} ScaleRowAt(X: seq<Complex>, off: int, omega: Complex, n: nat, u: int)
    requires 0 <= off && off + n <= |X| && 0 <= u < |X|
    ensures ScaleRow(X, off, omega, n)[u] == if off <= u < off + n then Mul(X[u], CPow(omega, u - off)) else X[u]
  {
    if n > 0 {
      ScaleRowAt(X, off, omega, n - 1, u);
    }
  }

  /**
   * The root of global row R as the float table of the cluster whose rows start at
   * global row base hands it out: floats 2 * (R - base) and 2 * (R - base) + 1.
   */
  function RowRoot(t: seq<real>, base: int, R: int): Complex
    requires 0 <= R - base && 2 * (R - base) + 1 < |t|
  {
    Complex(t[2 * (R - base)], t[2 * (R - base) + 1])
  }

  /**
   * Global rows lo .. hi-1 corrected, row R with its root from the float table W.
   * The recursion goes through CorrectRow so that the verifier unfolds one row at a
   * time (CorrectRowsNext states the step).
   */
  function CorrectRows(X: seq<Complex>, W: seq<real>, base: int, lo: int, hi: int): (r: seq<Complex>)
    requires 0 <= lo <= hi && RowOff(hi) <= |X| && base <= lo && 2 * (hi - base) <= |W|
    ensures |r| == |X|
    decreases hi - lo, 0
  {
    if hi == lo then X else CorrectRow(X, W, base, lo, hi - 1)
  }

  /** Rows lo .. R-1 corrected, then row R. */
  function CorrectRow(X: seq<Complex>, W: seq<real>, base: int, lo: int, R: int): (r: seq<Complex>)
    requires 0 <= lo <= R && RowOff(R + 1) <= |X| && base <= lo && 2 * (R + 1 - base) <= |W|
    ensures |r| == |X|
    decreases R - lo, 1
  {
    ScaleRow(CorrectRows(X, W, base, lo, R), RowOff(R), RowRoot(W, base, R), TILE_WIDTH)
  }

  /** Correcting one more row scales that row by its root. */
  lemma CorrectRowsNext(X: seq<Complex>, W: seq<real>, base: int, lo: int, hi: int)
    requires 0 <= lo <= hi && RowOff(hi + 1) <= |X| && base <= lo && 2 * (hi + 1 - base) <= |W|
    ensures CorrectRows(X, W, base, lo, hi + 1) == ScaleRow(CorrectRows(X, W, base, lo, hi), RowOff(hi), RowRoot(W, base, hi), TILE_WIDTH)
  {
    assert CorrectRows(X, W, base, lo, hi + 1) == CorrectRow(X, W, base, lo, hi);
  }

  /**
   * Sample c of a corrected row R is the input sample times the c-th power of the
   * row's root; every sample outside the rows is left alone.
   */
  lemma {:induction false} CorrectRowsAt(X: seq<Complex>, W: seq<real>, base: int, lo: int, hi: int, R: int, c: int)
    requires 0 <= lo <= hi && RowOff(hi) <= |X| && base <= lo && 2 * (hi - base) <= |W|
    requires 0 <= R && 0 <= c < TILE_WIDTH && RowOff(R) + c < |X|
    ensures CorrectRows(X, W, base, lo, hi)[RowOff(R) + c] ==
      if lo <= R < hi then Mul(X[RowOff(R) + c], CPow(RowRoot(W, base, R), c)) else X[RowOff(R) + c]
    decreases hi - lo
  {
    if hi > lo {
      var Y := CorrectRows(X, W, base, lo, hi - 1);
      CorrectRowsNext(X, W, base, lo, hi - 1);
      CorrectRowsAt(X, W, base, lo, hi - 1, R, c);
      ScaleRowAt(Y, RowOff(hi - 1), RowRoot(W, base, hi - 1), TILE_WIDTH, RowOff(R) + c);
      if R != hi - 1 {
        assert !(RowOff(hi - 1) <= RowOff(R) + c < RowOff(hi - 1) + TILE_WIDTH);
      }
    }
  }

  /** Correcting lo .. mid-1 and then mid .. hi-1 corrects lo .. hi-1. */
  lemma {:induction false} CorrectRowsSplit(X: seq<Complex>, W: seq<real>, base: int, lo: int, mid: int, hi: int)
    requires 0 <= lo <= mid <= hi && RowOff(hi) <= |X| && base <= lo && 2 * (hi - base) <= |W|
    ensures CorrectRows(CorrectRows(X, W, base, lo, mid), W, base, mid, hi) == CorrectRows(X, W, base, lo, hi)
    decreases hi - mid
  {
    if hi > mid {
      CorrectRowsSplit(X, W, base, lo, mid, hi - 1);
      CorrectRowsNext(CorrectRows(X, W, base, lo, mid), W, base, mid, hi - 1);
      CorrectRowsNext(X, W, base, lo, hi - 1);
    }
  }

  /** Two root tables that agree on rows lo .. hi-1 correct those rows alike. */
  lemma {:induction false} CorrectRowsSameRoots(X: seq<Complex>, W: seq<real>, base: int, W': seq<real>, base': int, lo: int, hi: int)
    requires 0 <= lo <= hi && RowOff(hi) <= |X| && base <= lo && 2 * (hi - base) <= |W| && base' <= lo && 2 * (hi - base') <= |W'|
    requires forall R :: lo <= R < hi ==> RowRoot(W, base, R) == RowRoot(W', base', R)
    ensures CorrectRows(X, W, base, lo, hi) == CorrectRows(X, W', base', lo, hi)
    decreases hi - lo
  {
    if hi > lo {
      CorrectRowsSameRoots(X, W, base, W', base', lo, hi - 1);
      CorrectRowsNext(X, W, base, lo, hi - 1);
      CorrectRowsNext(X, W', base', lo, hi - 1);
    }
  }

  /** Sample c of row R = cid * th + r is multiplied by the c-th power of the root of R / (w * h) turns. */
  lemma CorrectionFactor(trig: Trig, X: seq<Complex>, cid: int, th: int, w: int, h: int, r: int, c: int)
    requires 0 <= cid && w > 0 && h > 0
    requires 0 <= r < th && 0 <= c < TILE_WIDTH && RowOff(cid * th + th) <= |X|
    ensures CorrectRows(X, CorrectionTable(trig, cid, th, w, h), cid * th, cid * th, cid * th + th)[RowOff(cid * th + r) + c]
         == Mul(X[RowOff(cid * th + r) + c], CPow(Root(trig, CorrectionAngle(cid * th + r, w, h)), c))
  {
    var R := cid * th + r;
    var W := CorrectionTable(trig, cid, th, w, h);
    CorrectionEntry(trig, cid, th, w, h, r);
    assert RowRoot(W, cid * th, R) == Root(trig, CorrectionAngle(R, w, h));
    CorrectRowsAt(X, W, cid * th, cid * th, cid * th + th, R, c);
  }

  /** Under exact trigonometry, sample c of row R is turned by c * R / (w * h) turns. */
  lemma CorrectionIsRoot(trig: Trig, X: seq<Complex>, cid: int, th: int, w: int, h: int, r: int, c: int)
    requires Exact(trig) && 0 <= cid && w > 0 && h > 0
    requires 0 <= r < th && 0 <= c < TILE_WIDTH && RowOff(cid * th + th) <= |X|
    ensures CorrectRows(X, CorrectionTable(trig, cid, th, w, h), cid * th, cid * th, cid * th + th)[RowOff(cid * th + r) + c]
         == Mul(X[RowOff(cid * th + r) + c], Root(trig, Turns(c, CorrectionAngle(cid * th + r, w, h))))
  {
    CorrectionFactor(trig, X, cid, th, w, h, r, c);
    RootPower(trig, CorrectionAngle(cid * th + r, w, h), c);
  }

  /**
   * One sample of the inner loop: the sample times the phasor, and the phasor
   * times the row's root, both in the component order of the source.
   */
  lemma PhasorStep(x: real, y: real, c: real, s: real, omegaC: real, omegaS: real)
    ensures Complex(x * c - y * s, y * c + x * s) == Mul(Complex(x, y), Complex(c, s))
    ensures Complex(c * omegaC - s * omegaS, c * omegaS + s * omegaC) == Mul(Complex(c, s), Complex(omegaC, omegaS))
  {
  }

  /** The inner loop of twiddle_correction_ on the row from off: sample j times omega^j. */
  method ScaleRowLoop(a: array<Complex>, off: int, omegaC: real, omegaS: real)
    requires 0 <= off && off + TILE_WIDTH <= a.Length
    modifies a
    ensures a[..] == ScaleRow(old(a[..]), off, Complex(omegaC, omegaS), TILE_WIDTH)
  {
    ghost var Y := a[..];
    ghost var omega := Complex(omegaC, omegaS);
    var c: real := 1.0;
    var s: real := 0.0;
    var j := 0;
    while j < TILE_WIDTH
      invariant 0 <= j <= TILE_WIDTH
      invariant Complex(c, s) == CPow(omega, j)
      invariant a[..] == ScaleRow(Y, off, omega, j)
    {
      ScaleRowAt(Y, off, omega, j, off + j);
      var x := a[off + j].re;
      var y := a[off + j].im;
      PhasorStep(x, y, c, s, omegaC, omegaS);
      a[off + j] := Complex(x * c - y * s, y * c + x * s);
      var x' := c;
      c := x' * omegaC - s * omegaS;
      s := x' * omegaS + s * omegaC;
      j := j + 1;
    }
  }

  /**
   * twiddle_correction_ on the height rows of one core, local rows start ..
   * start + height - 1 of the tile at global row base: each row's root read from
   * floats k = 2 * (start + i) and k + 1, the phasor (c, s) starting at (1, 0) and
   * multiplied by the root after every sample.
   */
  method CorrectionChunk(a: array<Complex>, ct: seq<real>, base: int, start: int, height: int)
    requires 0 <= base && 0 <= start && 0 <= height && RowOff(base + start + height) <= a.Length
    requires 2 * (start + height) <= |ct|
    modifies a
    ensures a[..] == CorrectRows(old(a[..]), ct, base, base + start, base + start + height)
  {
    ghost var X := a[..];
    var k := start * 2;
    var i := 0;
    while i < height
      invariant 0 <= i <= height && k == 2 * (start + i)
      invariant a[..] == CorrectRows(X, ct, base, base + start, base + start + i)
    {
      var omegaC := ct[k + 0];
      var omegaS := ct[k + 1];
      assert Complex(omegaC, omegaS) == RowRoot(ct, base, base + start + i);
      k := k + 2;
      ScaleRowLoop(a, RowOff(base + start + i), omegaC, omegaS);
      CorrectRowsNext(X, ct, base, base + start, base + start + i);
      i := i + 1;
    }
  }

  /** Core i corrects rows RowStart .. RowStart + RowCount - 1, and reads only floats below 2 * th. */
  lemma CorrectionReads(th: int, cores: int, i: int, row: int)
    requires th >= 0 && cores >= 1 && 0 <= i < cores && 0 <= row < RowCount(th, cores, i)
    ensures 0 <= 2 * (RowStart(th, cores, i) + row) && 2 * (RowStart(th, cores, i) + row) + 1 < 2 * th
  {
    InTile(th, cores, i);
  }

  /**
   * twiddle_correction on the tile at global row base: the cores in turn, core i
   * on its RowCount rows from RowStart, all with the cluster's table ct.
   */
  method TwiddleCorrection(a: array<Complex>, ct: seq<real>, base: int, th: int, cores: int)
    requires 0 <= base && th >= 0 && RowOff(base + th) <= a.Length && |ct| == 2 * th && cores >= 1
    modifies a
    ensures a[..] == CorrectRows(old(a[..]), ct, base, base, base + th)
  {
    ghost var X := a[..];
    StartEnds(th, cores);
    var i := 0;
    while i < cores
      invariant 0 <= i <= cores && 0 <= RowStart(th, cores, i) <= th
      invariant a[..] == CorrectRows(X, ct, base, base, base + RowStart(th, cores, i))
    {
      var nbTwid := RowCount(th, cores, i);
      var startTwid := RowStart(th, cores, i);
      InTile(th, cores, i);
      StartNext(th, cores, i);
      ghost var next := startTwid + nbTwid;
      assert next <= th && next == RowStart(th, cores, i + 1);
      CorrectionChunk(a, ct, base, startTwid, nbTwid);
      CorrectRowsSplit(X, ct, base, base, base + startTwid, base + next);
      i := i + 1;
    }
  }
}
