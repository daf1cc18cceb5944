/**
 * The build-time constants of the benchmark and the guards on the cluster and
 * core counts. NB_CLUSTER and N_CORES are chosen at build time, so they are
 * parameters here, constrained by the guards.
 */
module Config {
  import opened Powers

  /** Side of the in-chip transpose matrix. */
  const TILE: int := 256
  /** A tile row holds a whole matrix row. */
  const TILE_WIDTH: int := TILE
  const WIDTH: int := TILE_WIDTH
  const NB_FFT_ITER: int := 500

  /** The supported cluster counts: 1, 2, 4, 8 or 16. */
  predicate ValidClusterCount(nb: int)
  {
    nb == 1 || nb == 2 || nb == 4 || nb == 8 || nb == 16
  }

  /** The supported core counts: 1 to 16. */
  predicate ValidCoreCount(cores: int)
  {
    1 <= cores <= 16
  }

  /**
   * TILE_HEIGHT: the rows of the global matrix each cluster holds.
   * TILE_HEIGHT = TILE / NB_CLUSTER, written out for the five supported cluster
   * counts so that it stays linear arithmetic; TileHeightFacts states the quotient.
   */
  function TileHeight(nb: int): (th: int)
    requires ValidClusterCount(nb)
    ensures 16 <= th <= TILE
  {
    if nb == 1 then 256 else if nb == 2 then 128 else if nb == 4 then 64 else if nb == 8 then 32 else 16
  }

  /** The admitted cluster counts are exactly the powers of two up to 16. */
  lemma {:induction false} ClusterGuard(nb: int)
    ensures ValidClusterCount(nb) <==> IsPow2(nb) && nb <= 16
  {
    if IsPow2(nb) && nb <= 16 {
      SmallPow2(nb);
    }
    if ValidClusterCount(nb) {
      Pow2Table();
      assert Pow2(0) == 1 && Pow2(1) == 2 && Pow2(2) == 4 && Pow2(3) == 8;
      if nb == 1 { Pow2IsPow2(0); }
      else if nb == 2 { Pow2IsPow2(1); }
      else if nb == 4 { Pow2IsPow2(2); }
      else if nb == 8 { Pow2IsPow2(3); }
      else { Pow2IsPow2(4); }
    }
  }

  /** A power of two up to 16 is one of the admitted cluster counts. */
  lemma {:induction false} SmallPow2(x: int)
    requires IsPow2(x) && x <= 16
    ensures ValidClusterCount(x)
  {
    if x != 1 {
      assert x % 2 == 0 && IsPow2(x / 2);
      SmallPow2(x / 2);
    }
  }

  /** TILE_HEIGHT is TILE / NB_CLUSTER, the clusters' tiles exactly fill TILE rows, and it is a power of two. */
  lemma TileHeightFacts(nb: int)
    requires ValidClusterCount(nb)
    ensures TileHeight(nb) == TILE / nb && TileHeight(nb) * nb == TILE && IsPow2(TileHeight(nb))
  {
    Pow2Table();
    if nb == 1 { Pow2IsPow2(8); }
    else if nb == 2 { Pow2IsPow2(7); }
    else if nb == 4 { Pow2IsPow2(6); }
    else if nb == 8 { Pow2IsPow2(5); }
    else { Pow2IsPow2(4); }
  }

  lemma Pow2Table()
    ensures Pow2(4) == 16 && Pow2(5) == 32 && Pow2(6) == 64 && Pow2(7) == 128 && Pow2(8) == 256
  {
    assert Pow2(2) == 4;
  }

  /** HEIGHT: all the clusters' tiles stacked. */
  function Height(nb: int): (h: int)
    requires ValidClusterCount(nb)
    ensures h == WIDTH
  {
    TileHeight(nb) * nb
  }

  /** The row length the radix-2 kernel is run on is a power of two (2^8). */
  lemma TileWidthIsPow2()
    ensures IsPow2(TILE_WIDTH) && Log2(TILE_WIDTH) == 8
  {
    assert Pow2(8) == 256;
    Pow2IsPow2(8);
  }

  /**
   * The first sample of row r of a matrix stored row after row, TILE_WIDTH
   * samples each. The stride is written as the literal 256 so that offsets stay
   * linear arithmetic; RowOffStride ties it to TILE_WIDTH.
   */
  function RowOff(r: int): int
  {
    r * 256
  }

  lemma RowOffStride(r: int)
    ensures RowOff(r) == r * TILE_WIDTH && RowOff(r + 1) == RowOff(r) + TILE_WIDTH
  {
  }

  /** Every core of a cluster has at least one row of the tile to work on. */
  lemma CoresFitTile(nb: int, cores: int)
    requires ValidClusterCount(nb) && ValidCoreCount(cores)
    ensures TileHeight(nb) / cores >= 1
  {
  }
}
