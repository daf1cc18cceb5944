/**
 * The split of a tile's rows over the cores of a cluster, shared by ffts and
 * twiddle_correction in src/cluster/cluster.c: core i gets th / cores rows, one
 * more when i < th % cores, starting right after the rows of cores 0 .. i-1.
 */
module Partition {

  function Min(a: int, b: int): int
  {
    if a < b then a else b
  }

  /** nb_fft / nb_twid: the number of rows core i works on. */
  function RowCount(th: int, cores: int, i: int): (n: int)
    requires th >= 0 && cores >= 1 && i >= 0
    ensures n == th / cores || n == th / cores + 1
    ensures n == th / cores + 1 <==> i < th % cores
  {
    th / cores + (if th % cores > i then 1 else 0)
  }

  /** start_twid, and the row offset of fft[i].in: the first row of core i. */
  function RowStart(th: int, cores: int, i: int): (s: int)
    requires th >= 0 && cores >= 1 && i >= 0
    ensures 0 <= s
  {
    i * (th / cores) + Min(i, th % cores)
  }

  /** The range of core i ends where the range of core i + 1 begins. */
  lemma StartNext(th: int, cores: int, i: int)
    requires th >= 0 && cores >= 1 && i >= 0
    ensures RowStart(th, cores, i + 1) == RowStart(th, cores, i) + RowCount(th, cores, i)
  {
    var q := th / cores;
    assert (i + 1) * q == i * q + q;
  }

  /** The ranges start at row 0 and the last one ends at row th. */
  lemma StartEnds(th: int, cores: int)
    requires th >= 0 && cores >= 1
    ensures RowStart(th, cores, 0) == 0
    ensures RowStart(th, cores, cores) == th
  {
    assert cores * (th / cores) + th % cores == th;
  }

  lemma {:induction false} StartMonotone(th: int, cores: int, i: int, k: int)
    requires th >= 0 && cores >= 1 && 0 <= i <= k
    ensures RowStart(th, cores, i) <= RowStart(th, cores, k)
  {
    if i < k {
      StartMonotone(th, cores, i, k - 1);
      StartNext(th, cores, k - 1);
    }
  }

  /** The rows of two different cores do not overlap. */
  lemma Disjoint(th: int, cores: int, i: int, k: int)
    requires th >= 0 && cores >= 1 && 0 <= i < k
    ensures RowStart(th, cores, i) + RowCount(th, cores, i) <= RowStart(th, cores, k)
  {
    StartNext(th, cores, i);
    StartMonotone(th, cores, i + 1, k);
  }

  /** Every range lies inside the tile. */
  lemma InTile(th: int, cores: int, i: int)
    requires th >= 0 && cores >= 1 && 0 <= i < cores
    ensures 0 <= RowStart(th, cores, i) && RowStart(th, cores, i) + RowCount(th, cores, i) <= th
  {
    StartEnds(th, cores);
    StartMonotone(th, cores, 0, i);
    StartNext(th, cores, i);
    StartMonotone(th, cores, i + 1, cores);
  }

  /** Core i is responsible for row r. */
  predicate Owns(th: int, cores: int, i: int, r: int)
    requires th >= 0 && cores >= 1 && i >= 0
  {
    RowStart(th, cores, i) <= r < RowStart(th, cores, i) + RowCount(th, cores, i)
  }

  /** The core that owns row r, found by walking the ranges from core i on. */
  function OwnerFrom(th: int, cores: int, r: int, i: int): (k: int)
    requires th >= 0 && cores >= 1 && 0 <= i < cores
    requires RowStart(th, cores, i) <= r < th
    ensures i <= k < cores && Owns(th, cores, k, r)
    decreases cores - i
  {
    StartNext(th, cores, i);
    if r < RowStart(th, cores, i + 1) then i
    else
      assert i + 1 < cores by {
        if i + 1 == cores {
          StartEnds(th, cores);
        }
      }
      OwnerFrom(th, cores, r, i + 1)
  }

  /** Every row of the tile has exactly one owner. */
  lemma UniqueOwner(th: int, cores: int, r: int)
    requires th >= 0 && cores >= 1 && 0 <= r < th
    ensures exists i :: 0 <= i < cores && Owns(th, cores, i, r)
    ensures forall i, k :: 0 <= i < cores && 0 <= k < cores && Owns(th, cores, i, r) && Owns(th, cores, k, r) ==> i == k
  {
    StartEnds(th, cores);
    var o := OwnerFrom(th, cores, r, 0);
    forall i, k | 0 <= i < cores && 0 <= k < cores && Owns(th, cores, i, r) && Owns(th, cores, k, r)
      ensures i == k
    {
      if i < k {
        Disjoint(th, cores, i, k);
      } else if k < i {
        Disjoint(th, cores, k, i);
      }
    }
  }

  /** Any two cores' row counts differ by at most one. */
  lemma Balanced(th: int, cores: int, i: int, k: int)
    requires th >= 0 && cores >= 1 && 0 <= i && 0 <= k
    ensures RowCount(th, cores, i) <= RowCount(th, cores, k) + 1
    ensures i <= k ==> RowCount(th, cores, k) <= RowCount(th, cores, i)
  {
  }

  /** The row counts of cores 0 .. n-1 added up. */
  function Rows(th: int, cores: int, n: nat): int
    requires th >= 0 && cores >= 1
  {
    if n == 0 then 0 else Rows(th, cores, n - 1) + RowCount(th, cores, n - 1)
  }

  /** The counts of all the cores add up to the tile height. */
  lemma {:induction false} RowsTotal(th: int, cores: int, n: nat)
    requires th >= 0 && cores >= 1
    ensures Rows(th, cores, n) == RowStart(th, cores, n)
    ensures n == cores ==> Rows(th, cores, n) == th
  {
    if n > 0 {
      RowsTotal(th, cores, n - 1);
      StartNext(th, cores, n - 1);
    } else {
      StartEnds(th, cores);
    }
    if n == cores {
      StartEnds(th, cores);
    }
  }

  /** With at least as many rows as cores, no core is idle. */
  lemma NoIdleCore(th: int, cores: int, i: int)
    requires cores >= 1 && th >= cores && 0 <= i
    ensures RowCount(th, cores, i) >= 1
  {
    assert th / cores >= 1 by {
      assert th == cores * (th / cores) + th % cores;
    }
  }
}
