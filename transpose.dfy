/**
 * flat_transpose in src/cluster/cluster.c, every cluster's call taken together as
 * one sequential exchange step. The NB_CLUSTER tiles are held stacked in one
 * row-major TILE x TILE matrix: row y of cluster q's tile is global row
 * q * TILE_HEIGHT + y. The rendezvous counter, the events and the barriers only
 * order the transfers and are not modelled.
 */
module Transpose {
  import opened Powers
  import opened Cplx
  import opened Config

  /** The number of samples of the global matrix (WIDTH x HEIGHT). */
  const CELLS: int := TILE * TILE

  /** The flat index of row r, column c of a TILE-wide matrix. */
  function At(r: int, c: int): (u: int)
    requires 0 <= r && 0 <= c < TILE
    ensures 0 <= u && u / TILE == r && u % TILE == c
    ensures r < TILE ==> u < CELLS
  {
    DivModUnique(r * 256 + c, 256, r, c);
    r * 256 + c
  }

  /** Every flat index is the index of its row and column. */
  lemma AtCover(u: int)
    requires 0 <= u < CELLS
    ensures u / TILE < TILE && u == At(u / TILE, u % TILE)
  {
  }

  /** nb bands of th rows each make up the TILE rows of the matrix. */
  predicate Layout(nb: int, th: int)
  {
    nb >= 1 && th >= 1 && nb * th == TILE
  }

  lemma ClusterLayout(nb: int)
    requires ValidClusterCount(nb)
    ensures Layout(nb, TileHeight(nb))
  {
  }

  /** Global row (or column) x of cluster t's band of th rows (or columns). */
  function Blk(nb: int, th: int, t: int, x: int): (r: int)
    requires Layout(nb, th) && 0 <= t < nb && 0 <= x < th
    ensures 0 <= r < TILE && r / th == t && r % th == x
  {
    DivModUnique(t * th + x, th, t, x);
    MulMonotone(t + 1, nb, th);
    t * th + x
  }

  /** Row x of band p and column y of band q exist. */
  predicate InBands(nb: int, th: int, p: int, x: int, q: int, y: int)
  {
    0 <= p < nb && 0 <= x < th && 0 <= q < nb && 0 <= y < th
  }

  /** Every global row lies in exactly one band, at one offset. */
  lemma BlkCover(nb: int, th: int, r: int)
    requires Layout(nb, th) && 0 <= r < TILE
    ensures r / th < nb && r == Blk(nb, th, r / th, r % th)
  {
    assert r == th * (r / th) + r % th;
    if r / th >= nb {
      MulMonotone(nb, r / th, th);
    }
  }

  /** The global matrix transposed. */
  function Transposed(A: seq<Complex>): (T: seq<Complex>)
    requires |A| == CELLS
    ensures |T| == CELLS
    ensures forall r, c :: 0 <= r < TILE && 0 <= c < TILE ==> T[At(r, c)] == A[At(c, r)]
  {
    seq(CELLS, u requires 0 <= u < CELLS => A[At(u % TILE, u / TILE)])
  }

  /** Two matrices that agree on every row and column are equal. */
  lemma CellsEqual(X: seq<Complex>, Y: seq<Complex>)
    requires |X| == CELLS && |Y| == CELLS
    requires forall r, c :: 0 <= r < TILE && 0 <= c < TILE ==> X[At(r, c)] == Y[At(r, c)]
    ensures X == Y
  {
    forall u | 0 <= u < CELLS
      ensures X[u] == Y[u]
    {
      AtCover(u);
    }
  }

  /** The flat index of row x of band p, column y of band q. */
  function CellOf(nb: int, th: int, p: int, x: int, q: int, y: int): (u: int)
    requires Layout(nb, th) && InBands(nb, th, p, x, q, y)
    ensures 0 <= u < CELLS
  {
    CellIsAt(nb, th, p, x, q, y);
    (p * th + x) * 256 + (q * th + y)
  }

  /** CellOf is At of the two global coordinates. */
  lemma CellIsAt(nb: int, th: int, p: int, x: int, q: int, y: int)
    requires Layout(nb, th) && InBands(nb, th, p, x, q, y)
    ensures (p * th + x) * 256 + (q * th + y) == At(Blk(nb, th, p, x), Blk(nb, th, q, y))
  {
  }

  /** What the transpose puts in that cell: row y of band q, column x of band p of A. */
  function Moved(A: seq<Complex>, nb: int, th: int, p: int, x: int, q: int, y: int): Complex
    requires |A| == CELLS && Layout(nb, th) && InBands(nb, th, p, x, q, y)
  {
    A[CellOf(nb, th, q, y, p, x)]
  }

  /**
   * One mppa_async_sput_spaced of cluster cid to cluster t, its first n samples:
   * source column TILE_HEIGHT * t + j, read with a stride of TILE_WIDTH, lands in
   * row j of t's tile, columns TILE_HEIGHT * cid onwards.
   */
  function Put(B: seq<Complex>, A: seq<Complex>, nb: int, th: int, cid: int, t: int, j: int, n: int): (r: seq<Complex>)
    requires |B| == CELLS && |A| == CELLS && Layout(nb, th)
    requires 0 <= cid < nb && 0 <= t < nb && 0 <= j < th && 0 <= n <= th
    ensures |r| == CELLS
  {
    if n == 0 then B
    else Put(B, A, nb, th, cid, t, j, n - 1)[CellOf(nb, th, t, j, cid, n - 1) := Moved(A, nb, th, t, j, cid, n - 1)]
  }

  /** The first j puts of cluster cid to cluster t. */
  function Send(B: seq<Complex>, A: seq<Complex>, nb: int, th: int, cid: int, t: int, j: int): (r: seq<Complex>)
    requires |B| == CELLS && |A| == CELLS && Layout(nb, th)
    requires 0 <= cid < nb && 0 <= t < nb && 0 <= j <= th
    ensures |r| == CELLS
  {
    if j == 0 then B else Put(Send(B, A, nb, th, cid, t, j - 1), A, nb, th, cid, t, j - 1, th)
  }

  /** Column TILE_HEIGHT * cid + y of cluster cid's own block, its first n rows. */
  function Column(B: seq<Complex>, A: seq<Complex>, nb: int, th: int, cid: int, y: int, n: int): (r: seq<Complex>)
    requires |B| == CELLS && |A| == CELLS && Layout(nb, th)
    requires 0 <= cid < nb && 0 <= y < th && 0 <= n <= th
    ensures |r| == CELLS
  {
    if n == 0 then B
    else Column(B, A, nb, th, cid, y, n - 1)[CellOf(nb, th, cid, n - 1, cid, y) := Moved(A, nb, th, cid, n - 1, cid, y)]
  }

  /** The first y columns of cluster cid's own block. */
  function Local(B: seq<Complex>, A: seq<Complex>, nb: int, th: int, cid: int, y: int): (r: seq<Complex>)
    requires |B| == CELLS && |A| == CELLS && Layout(nb, th)
    requires 0 <= cid < nb && 0 <= y <= th
    ensures |r| == CELLS
  {
    if y == 0 then B else Column(Local(B, A, nb, th, cid, y - 1), A, nb, th, cid, y - 1, th)
  }

  /** The transfer loop of cluster cid over i in cid .. i-1, peer i % NB_CLUSTER, skipping cid. */
  function Sends(B: seq<Complex>, A: seq<Complex>, nb: int, th: int, cid: int, i: int): (r: seq<Complex>)
    requires |B| == CELLS && |A| == CELLS && Layout(nb, th)
    requires 0 <= cid < nb && cid <= i <= nb + cid
    ensures |r| == CELLS
    decreases i - cid
  {
    if i == cid then B
    else if i - 1 == cid then Sends(B, A, nb, th, cid, i - 1)
    else Send(Sends(B, A, nb, th, cid, i - 1), A, nb, th, cid, (i - 1) % nb, th)
  }

  /** One cluster's flat_transpose: the transfers to every peer, then the local block. */
  function Node(B: seq<Complex>, A: seq<Complex>, nb: int, th: int, cid: int): (r: seq<Complex>)
    requires |B| == CELLS && |A| == CELLS && Layout(nb, th) && 0 <= cid < nb
    ensures |r| == CELLS
  {
    Local(Sends(B, A, nb, th, cid, nb + cid), A, nb, th, cid, th)
  }

  /**
   * The calls of clusters 0 .. k-1, one after the other. The recursion goes through
   * Exchanged so that the verifier unfolds one call at a time (ExchangeNext states
   * the step).
   */
  function Exchange(B: seq<Complex>, A: seq<Complex>, nb: int, th: int, k: int): (r: seq<Complex>)
    requires |B| == CELLS && |A| == CELLS && Layout(nb, th) && 0 <= k <= nb
    ensures |r| == CELLS
    decreases k, 0
  {
    if k == 0 then B else Exchanged(B, A, nb, th, k - 1)
  }

  /** The calls of clusters 0 .. c-1, then the call of cluster c. */
  function Exchanged(B: seq<Complex>, A: seq<Complex>, nb: int, th: int, c: int): (r: seq<Complex>)
    requires |B| == CELLS && |A| == CELLS && Layout(nb, th) && 0 <= c < nb
    ensures |r| == CELLS
    decreases c, 1
  {
    Node(Exchange(B, A, nb, th, c), A, nb, th, c)
  }

  /** One more cluster's call is one more Node. */
  lemma ExchangeNext(B: seq<Complex>, A: seq<Complex>, nb: int, th: int, c: int)
    requires |B| == CELLS && |A| == CELLS && Layout(nb, th) && 0 <= c < nb
    ensures Exchange(B, A, nb, th, c + 1) == Node(Exchange(B, A, nb, th, c), A, nb, th, c)
  {
    assert Exchange(B, A, nb, th, c + 1) == Exchanged(B, A, nb, th, c);
  }

  /** Distinct band coordinates name distinct cells. */
  lemma CellOfInjective(nb: int, th: int, p: int, x: int, q: int, y: int, p': int, x': int, q': int, y': int)
    requires Layout(nb, th) && InBands(nb, th, p, x, q, y) && InBands(nb, th, p', x', q', y')
    ensures CellOf(nb, th, p, x, q, y) == CellOf(nb, th, p', x', q', y') <==> (p, x, q, y) == (p', x', q', y')
  {
    CellIsAt(nb, th, p, x, q, y);
    CellIsAt(nb, th, p', x', q', y');
  }

  /** Put changes row j of band t, columns of band cid below n, to the transposed samples. */
  lemma {:induction false} PutAt(B: seq<Complex>, A: seq<Complex>, nb: int, th: int, cid: int, t: int, j: int, n: int,
                                 p: int, x: int, q: int, y: int)
    requires |B| == CELLS && |A| == CELLS && Layout(nb, th) && InBands(nb, th, p, x, q, y)
    requires 0 <= cid < nb && 0 <= t < nb && 0 <= j < th && 0 <= n <= th
    ensures Put(B, A, nb, th, cid, t, j, n)[CellOf(nb, th, p, x, q, y)] ==
      if p == t && x == j && q == cid && y < n then Moved(A, nb, th, p, x, q, y) else B[CellOf(nb, th, p, x, q, y)]
  {
    if n > 0 {
      PutAt(B, A, nb, th, cid, t, j, n - 1, p, x, q, y);
      CellOfInjective(nb, th, p, x, q, y, t, j, cid, n - 1);
    }
  }

  /** Send fills rows below j of band t, column band cid. */
  lemma {:induction false} SendAt(B: seq<Complex>, A: seq<Complex>, nb: int, th: int, cid: int, t: int, j: int,
                                  p: int, x: int, q: int, y: int)
    requires |B| == CELLS && |A| == CELLS && Layout(nb, th) && InBands(nb, th, p, x, q, y)
    requires 0 <= cid < nb && 0 <= t < nb && 0 <= j <= th
    ensures Send(B, A, nb, th, cid, t, j)[CellOf(nb, th, p, x, q, y)] ==
      if p == t && x < j && q == cid then Moved(A, nb, th, p, x, q, y) else B[CellOf(nb, th, p, x, q, y)]
  {
    if j > 0 {
      SendAt(B, A, nb, th, cid, t, j - 1, p, x, q, y);
      PutAt(Send(B, A, nb, th, cid, t, j - 1), A, nb, th, cid, t, j - 1, th, p, x, q, y);
    }
  }

  /** Column fills rows below n of band cid, column y0 of band cid. */
  lemma {:induction false} ColumnAt(B: seq<Complex>, A: seq<Complex>, nb: int, th: int, cid: int, y0: int, n: int,
                                    p: int, x: int, q: int, y: int)
    requires |B| == CELLS && |A| == CELLS && Layout(nb, th) && InBands(nb, th, p, x, q, y)
    requires 0 <= cid < nb && 0 <= y0 < th && 0 <= n <= th
    ensures Column(B, A, nb, th, cid, y0, n)[CellOf(nb, th, p, x, q, y)] ==
      if p == cid && x < n && q == cid && y == y0 then Moved(A, nb, th, p, x, q, y) else B[CellOf(nb, th, p, x, q, y)]
  {
    if n > 0 {
      ColumnAt(B, A, nb, th, cid, y0, n - 1, p, x, q, y);
      CellOfInjective(nb, th, p, x, q, y, cid, n - 1, cid, y0);
    }
  }

  /** Local fills columns below y0 of cluster cid's own block. */
  lemma {:induction false} LocalAt(B: seq<Complex>, A: seq<Complex>, nb: int, th: int, cid: int, y0: int,
                                   p: int, x: int, q: int, y: int)
    requires |B| == CELLS && |A| == CELLS && Layout(nb, th) && InBands(nb, th, p, x, q, y)
    requires 0 <= cid < nb && 0 <= y0 <= th
    ensures Local(B, A, nb, th, cid, y0)[CellOf(nb, th, p, x, q, y)] ==
      if p == cid && q == cid && y < y0 then Moved(A, nb, th, p, x, q, y) else B[CellOf(nb, th, p, x, q, y)]
  {
    if y0 > 0 {
      LocalAt(B, A, nb, th, cid, y0 - 1, p, x, q, y);
      ColumnAt(Local(B, A, nb, th, cid, y0 - 1), A, nb, th, cid, y0 - 1, th, p, x, q, y);
    }
  }

  /**
   * The peers cluster cid has sent its columns to after looking at i in
   * cid .. i-1.
   */
  predicate Sent(nb: int, cid: int, i: int, t: int)
  {
    (cid < t < i) || t + nb < i
  }

  /** The loop index wraps around once: cid <= i < nb + cid. */
  lemma TargetOf(nb: int, cid: int, i: int)
    requires nb >= 1 && 0 <= cid < nb && cid <= i < nb + cid
    ensures i % nb == (if i < nb then i else i - nb)
  {
    if i < nb {
      DivModUnique(i, nb, 0, i);
    } else {
      DivModUnique(i, nb, 1, i - nb);
    }
  }

  /** The transfers fill column band cid of every row band sent to so far. */
  lemma {:induction false} SendsAt(B: seq<Complex>, A: seq<Complex>, nb: int, th: int, cid: int, i: int,
                                   p: int, x: int, q: int, y: int)
    requires |B| == CELLS && |A| == CELLS && Layout(nb, th) && InBands(nb, th, p, x, q, y)
    requires 0 <= cid < nb && cid <= i <= nb + cid
    ensures Sends(B, A, nb, th, cid, i)[CellOf(nb, th, p, x, q, y)] ==
      if q == cid && Sent(nb, cid, i, p) then Moved(A, nb, th, p, x, q, y) else B[CellOf(nb, th, p, x, q, y)]
    decreases i - cid
  {
    if i > cid {
      SendsAt(B, A, nb, th, cid, i - 1, p, x, q, y);
      if i - 1 != cid {
        TargetOf(nb, cid, i - 1);
        SendAt(Sends(B, A, nb, th, cid, i - 1), A, nb, th, cid, (i - 1) % nb, th, p, x, q, y);
      }
    }
  }

  /** One cluster's call fills its column band of every row band, and nothing else. */
  lemma NodeAt(B: seq<Complex>, A: seq<Complex>, nb: int, th: int, cid: int, p: int, x: int, q: int, y: int)
    requires |B| == CELLS && |A| == CELLS && Layout(nb, th) && InBands(nb, th, p, x, q, y) && 0 <= cid < nb
    ensures Node(B, A, nb, th, cid)[CellOf(nb, th, p, x, q, y)] ==
      if q == cid then Moved(A, nb, th, p, x, q, y) else B[CellOf(nb, th, p, x, q, y)]
  {
    SendsAt(B, A, nb, th, cid, nb + cid, p, x, q, y);
    LocalAt(Sends(B, A, nb, th, cid, nb + cid), A, nb, th, cid, th, p, x, q, y);
  }

  /** Before cluster q's call the cells of its column band still hold what B held. */
  lemma {:induction false} ExchangeBefore(B: seq<Complex>, A: seq<Complex>, nb: int, th: int, k: int,
                                          p: int, x: int, q: int, y: int)
    requires |B| == CELLS && |A| == CELLS && Layout(nb, th) && InBands(nb, th, p, x, q, y) && 0 <= k <= q
    ensures Exchange(B, A, nb, th, k)[CellOf(nb, th, p, x, q, y)] == B[CellOf(nb, th, p, x, q, y)]
    decreases k
  {
    if k > 0 {
      var E := Exchange(B, A, nb, th, k - 1);
      ExchangeNext(B, A, nb, th, k - 1);
      ExchangeBefore(B, A, nb, th, k - 1, p, x, q, y);
      NodeAt(E, A, nb, th, k - 1, p, x, q, y);
    }
  }

  /** After clusters 0 .. k-1 the column bands below k hold the transpose. */
  lemma {:induction false} ExchangeAt(B: seq<Complex>, A: seq<Complex>, nb: int, th: int, k: int,
                                      p: int, x: int, q: int, y: int)
    requires |B| == CELLS && |A| == CELLS && Layout(nb, th) && InBands(nb, th, p, x, q, y) && q < k <= nb
    ensures Exchange(B, A, nb, th, k)[CellOf(nb, th, p, x, q, y)] == Moved(A, nb, th, p, x, q, y)
    decreases k
  {
    var E := Exchange(B, A, nb, th, k - 1);
    ExchangeNext(B, A, nb, th, k - 1);
    NodeAt(E, A, nb, th, k - 1, p, x, q, y);
    if q < k - 1 {
      ExchangeAt(B, A, nb, th, k - 1, p, x, q, y);
    }
  }

  /** After every cluster's call, the cell of row x of band p, column y of band q, holds its mirror image in A. */
  lemma ExchangeCell(B: seq<Complex>, A: seq<Complex>, nb: int, th: int, p: int, x: int, q: int, y: int)
    requires |B| == CELLS && |A| == CELLS && Layout(nb, th) && InBands(nb, th, p, x, q, y)
    ensures Exchange(B, A, nb, th, nb)[At(Blk(nb, th, p, x), Blk(nb, th, q, y))] == A[At(Blk(nb, th, q, y), Blk(nb, th, p, x))]
  {
    ExchangeAt(B, A, nb, th, nb, p, x, q, y);
    assert Exchange(B, A, nb, th, nb)[CellOf(nb, th, p, x, q, y)] == Moved(A, nb, th, p, x, q, y);
    assert Moved(A, nb, th, p, x, q, y) == A[CellOf(nb, th, q, y, p, x)];
    CellIsAt(nb, th, p, x, q, y);
    CellIsAt(nb, th, q, y, p, x);
    assert CellOf(nb, th, p, x, q, y) == At(Blk(nb, th, p, x), Blk(nb, th, q, y));
    assert CellOf(nb, th, q, y, p, x) == At(Blk(nb, th, q, y), Blk(nb, th, p, x));
  }

  /** All the clusters' calls together transpose the global matrix, whatever b held before. */
  lemma ExchangeTransposes(B: seq<Complex>, A: seq<Complex>, nb: int, th: int)
    requires |B| == CELLS && |A| == CELLS && Layout(nb, th)
    ensures Exchange(B, A, nb, th, nb) == Transposed(A)
  {
    forall r, c | 0 <= r < TILE && 0 <= c < TILE
      ensures Exchange(B, A, nb, th, nb)[At(r, c)] == Transposed(A)[At(r, c)]
    {
      BlkCover(nb, th, r);
      BlkCover(nb, th, c);
      ExchangeCell(B, A, nb, th, r / th, r % th, c / th, c % th);
    }
    CellsEqual(Exchange(B, A, nb, th, nb), Transposed(A));
  }

  /** The spaced put of the source, sample by sample. */
  method SpacedPut(a: array<Complex>, b: array<Complex>, nb: int, th: int, cid: int, t: int, j: int)
    requires a != b && a.Length == CELLS && b.Length == CELLS
    requires Layout(nb, th) && 0 <= cid < nb && 0 <= t < nb && 0 <= j < th
    modifies b
    ensures b[..] == Put(old(b[..]), a[..], nb, th, cid, t, j, th)
  {
    ghost var B0 := b[..];
    var row := Blk(nb, th, t, j);
    var y := 0;
    while y < th
      invariant 0 <= y <= th
      invariant b[..] == Put(B0, a[..], nb, th, cid, t, j, y)
    {
      var col := Blk(nb, th, cid, y);
      CellIsAt(nb, th, t, j, cid, y);
      CellIsAt(nb, th, cid, y, t, j);
      b[At(row, col)] := a[At(col, row)];
      y := y + 1;
    }
  }

  /** The puts of cluster cid to cluster t, one per row of t's tile, each counted as a DMA job. */
  method SendTile(a: array<Complex>, b: array<Complex>, nb: int, th: int, cid: int, t: int, jobs: int) returns (jobs': int)
    requires a != b && a.Length == CELLS && b.Length == CELLS
    requires Layout(nb, th) && 0 <= cid < nb && 0 <= t < nb
    modifies b
    ensures jobs' == jobs + th
    ensures b[..] == Send(old(b[..]), a[..], nb, th, cid, t, th)
  {
    jobs' := jobs;
    var j := 0;
    while j < th
      invariant 0 <= j <= th && jobs' == jobs + j
      invariant b[..] == Send(old(b[..]), a[..], nb, th, cid, t, j)
    {
      SpacedPut(a, b, nb, th, cid, t, j);
      jobs' := jobs' + 1;
      j := j + 1;
    }
  }

  /** The local block: b[x][TILE_HEIGHT * cid + y] = a[y][TILE_HEIGHT * cid + x] in cid's own tile. */
  method LocalBlock(a: array<Complex>, b: array<Complex>, nb: int, th: int, cid: int)
    requires a != b && a.Length == CELLS && b.Length == CELLS
    requires Layout(nb, th) && 0 <= cid < nb
    modifies b
    ensures b[..] == Local(old(b[..]), a[..], nb, th, cid, th)
  {
    var y := 0;
    while y < th
      invariant 0 <= y <= th
      invariant b[..] == Local(old(b[..]), a[..], nb, th, cid, y)
    {
      ghost var B1 := b[..];
      var col := Blk(nb, th, cid, y);
      var x := 0;
      while x < th
        invariant 0 <= x <= th
        invariant b[..] == Column(B1, a[..], nb, th, cid, y, x)
      {
        var row := Blk(nb, th, cid, x);
        CellIsAt(nb, th, cid, x, cid, y);
        CellIsAt(nb, th, cid, y, cid, x);
        b[At(row, col)] := a[At(col, row)];
        x := x + 1;
      }
      y := y + 1;
    }
  }

  /** How many puts-to-a-peer the loop has issued before i. */
  function SentCount(cid: int, i: int): nat
  {
    if i <= cid + 1 then 0 else i - cid - 1
  }

  /**
   * One cluster's flat_transpose: its job counter grows by (NB_CLUSTER - 1) * TILE_HEIGHT.
   */
  method NodeTranspose(a: array<Complex>, b: array<Complex>, nb: int, th: int, cid: int, jobs: int) returns (jobs': int)
    requires a != b && a.Length == CELLS && b.Length == CELLS
    requires Layout(nb, th) && 0 <= cid < nb
    modifies b
    ensures jobs' == jobs + (nb - 1) * th
    ensures b[..] == Node(old(b[..]), a[..], nb, th, cid)
  {
    jobs' := jobs;
    var i := cid;
    while i < nb + cid
      invariant cid <= i <= nb + cid
      invariant jobs' == jobs + Times(SentCount(cid, i), th)
      invariant b[..] == Sends(old(b[..]), a[..], nb, th, cid, i)
    {
      var target := i % nb;
      if i != cid {
        jobs' := SendTile(a, b, nb, th, cid, target, jobs');
        TimesSucc(SentCount(cid, i), th);
      }
      i := i + 1;
    }
    LocalBlock(a, b, nb, th, cid);
    TimesIsMul(nb - 1, th);
  }

  /**
   * All clusters' flat_transpose calls: the stacked tiles in b end up the
   * transpose of the stacked tiles in a, and every cluster's DMA job counter
   * grows by (NB_CLUSTER - 1) * TILE_HEIGHT, which is no transfer at all for a
   * single cluster.
   */
  method FlatTranspose(a: array<Complex>, b: array<Complex>, nb: int, jobs: seq<int>) returns (jobs': seq<int>)
    requires a != b && a.Length == CELLS && b.Length == CELLS
    requires ValidClusterCount(nb) && |jobs| == nb
    modifies b
    ensures b[..] == Transposed(a[..])
    ensures |jobs'| == nb && forall q :: 0 <= q < nb ==> jobs'[q] == jobs[q] + (nb - 1) * TileHeight(nb)
    ensures nb == 1 ==> jobs' == jobs
  {
    var th := TileHeight(nb);
    ClusterLayout(nb);
    jobs' := Clusters(a, b, nb, th, jobs);
    ExchangeTransposes(old(b[..]), a[..], nb, th);
  }

  /** The calls of clusters 0 .. NB_CLUSTER-1, each bumping its own job counter. */
  method Clusters(a: array<Complex>, b: array<Complex>, nb: int, th: int, jobs: seq<int>) returns (jobs': seq<int>)
    requires a != b && a.Length == CELLS && b.Length == CELLS
    requires Layout(nb, th) && |jobs| == nb
    modifies b
    ensures b[..] == Exchange(old(b[..]), a[..], nb, th, nb)
    ensures |jobs'| == nb && forall q :: 0 <= q < nb ==> jobs'[q] == jobs[q] + (nb - 1) * th
  {
    jobs' := jobs;
    var cid := 0;
    while cid < nb
      invariant 0 <= cid <= nb && |jobs'| == nb
      invariant forall q :: 0 <= q < cid ==> jobs'[q] == jobs[q] + (nb - 1) * th
      invariant forall q :: cid <= q < nb ==> jobs'[q] == jobs[q]
      invariant b[..] == Exchange(old(b[..]), a[..], nb, th, cid)
    {
      var n := NodeTranspose(a, b, nb, th, cid, jobs'[cid]);
      ExchangeNext(old(b[..]), a[..], nb, th, cid);
      jobs' := jobs'[cid := n];
      cid := cid + 1;
    }
  }
}
