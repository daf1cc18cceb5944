/**
 * The bit-reversal swap table of the radix-2 kernel (fft_radix2_get_bitreverse in
 * src/cluster/fft_kernels.c) and the in-place swap pass that consumes it.
 */
module BitReverse {
  import opened Powers

  /** The n-bit reversal of i: bit b of i becomes bit n-1-b. */
  function Rev(i: nat, n: nat): (r: nat)
    ensures r < Pow2(n)
  {
    if n == 0 then 0 else Rev(i / 2, n - 1) + (if i % 2 == 0 then 0 else Pow2(n - 1))
  }

  /** Rev of x = 2y + a: the bottom bit a of x becomes the top bit of Rev. */
  lemma RevShift(x: nat, n: nat, y: nat, a: nat)
    requires n >= 1 && a < 2 && x == 2 * y + a
    ensures Rev(x, n) == Rev(y, n - 1) + (if a == 0 then 0 else Pow2(n - 1))
  {
    DivModUnique(x, 2, y, a);
  }

  /** A clear top bit of e becomes a clear bottom bit of Rev. */
  lemma {:induction false} RevTopClear(e: nat, n: nat)
    requires n >= 1 && e < Pow2(n - 1)
    ensures Rev(e, n) == 2 * Rev(e, n - 1)
  {
    if n == 1 {
      assert e == 0;
      RevShift(0, 1, 0, 0);
    } else {
      var q, a := e / 2, e % 2;
      LowBit(e, Pow2(n - 2));
      RevTopClear(q, n - 1);
      RevShift(e, n, q, a);
      RevShift(e, n - 1, q, a);
    }
  }

  /** A set top bit of e + Pow2(n - 1) becomes a set bottom bit of Rev. */
  lemma {:induction false} RevTopSet(e: nat, n: nat)
    requires n >= 1 && e < Pow2(n - 1)
    ensures Rev(e + Pow2(n - 1), n) == 2 * Rev(e, n - 1) + 1
  {
    if n == 1 {
      assert e + Pow2(n - 1) == 1 && e == 0;
      RevShift(1, 1, 0, 1);
    } else {
      var m := n - 1;
      var q, a := e / 2, e % 2;
      assert Pow2(m) == 2 * Pow2(m - 1);
      LowBit(e, Pow2(m - 1));
      RevTopSet(q, m);
      RevTopSetStep(e, n, m, e + Pow2(m), q, a, q + Pow2(m - 1));
    }
  }

  /** The inductive step of RevTopSet, every operand named: x = e + 2^m, e = 2q + a, y = q + 2^(m-1), n = m + 1. */
  lemma RevTopSetStep(e: nat, n: nat, m: nat, x: nat, q: nat, a: nat, y: nat)
    requires m >= 1 && n == m + 1 && a < 2 && e == 2 * q + a && x == e + Pow2(m) && y == q + Pow2(m - 1)
    requires Rev(y, m) == 2 * Rev(q, m - 1) + 1
    ensures Rev(x, n) == 2 * Rev(e, m) + 1
  {
    assert Pow2(m) == 2 * Pow2(m - 1);
    RevShift(x, n, y, a);
    RevShift(e, m, q, a);
  }

  lemma {:induction false} RevInvolutive(i: nat, n: nat)
    requires i < Pow2(n)
    ensures Rev(Rev(i, n), n) == i
  {
    if n > 0 {
      var h := Pow2(n - 1);
      var q, a := i / 2, i % 2;
      LowBit(i, h);
      var e := Rev(q, n - 1);
      RevShift(i, n, q, a);
      RevInvolutive(q, n - 1);
      if a == 0 {
        assert Rev(i, n) == e;
        RevTopClear(e, n);
      } else {
        assert Rev(i, n) == e + Pow2(n - 1);
        RevTopSet(e, n);
      }
    }
  }

  /** Splitting off the bottom bit of i < 2h leaves a quotient below h. */
  lemma LowBit(i: nat, h: nat)
    requires i < 2 * h
    ensures i == 2 * (i / 2) + i % 2 && i % 2 < 2 && i / 2 < h
  {
  }

  /**
   * The carry rule of the source: clear the leading one bits of j from the top
   * (bit k downwards) and set the first zero bit found. It terminates exactly when
   * j has a zero bit at or below k, which j + 2 <= 2 * k guarantees.
   */
  function Carry(j: nat, k: nat): (c: nat)
    requires IsPow2(k) && j + 2 <= 2 * k
    ensures 0 < c < 2 * k
    decreases k
  {
    if k <= j then Carry(j - k, k / 2) else j + k
  }

  /** The carry rule increments the reversed counter: it maps Rev(i) to Rev(i + 1). */
  lemma {:induction false} CarryIsReversedIncrement(i: nat, n: nat)
    requires n >= 1 && i + 1 < Pow2(n)
    ensures IsPow2(Pow2(n - 1)) && Rev(i, n) + 2 <= 2 * Pow2(n - 1)
    ensures Carry(Rev(i, n), Pow2(n - 1)) == Rev(i + 1, n)
  {
    Pow2IsPow2(n - 1);
    if i % 2 == 0 {
      assert (i + 1) % 2 == 1 && (i + 1) / 2 == i / 2;
    } else {
      assert n >= 2;
      assert Pow2(n - 1) == 2 * Pow2(n - 2);
      CarryIsReversedIncrement(i / 2, n - 1);
      assert (i + 1) % 2 == 0 && (i + 1) / 2 == i / 2 + 1;
    }
  }

  /**
   * The table after the first i indices: for each p < i with p < Rev(p), the pair
   * p, Rev(p), flattened in emission order.
   */
  function LutSeq(n: nat, i: nat): (r: seq<int>)
    ensures |r| % 2 == 0
  {
    if i == 0 then []
    else LutSeq(n, i - 1) + (if i - 1 < Rev(i - 1, n) then [i - 1, Rev(i - 1, n)] else [])
  }

  /** What an emitted index can be: the smaller or the larger end of a swap pair. */
  lemma {:induction false} LutMember(n: nat, i: nat, x: int)
    requires i <= Pow2(n) && x in LutSeq(n, i)
    ensures 0 <= x < Pow2(n)
    ensures (x < i && x < Rev(x, n)) || (Rev(x, n) < i && Rev(x, n) < x)
  {
    var p := i - 1;
    if x in LutSeq(n, i - 1) {
      LutMember(n, i - 1, x);
    } else {
      assert p < Rev(p, n) && (x == p || x == Rev(p, n));
      if x == Rev(p, n) {
        RevInvolutive(p, n);
      }
    }
  }

  /** Every pair is ordered, in range, and maps an index to its reversal. */
  lemma {:induction false} LutPairs(n: nat, i: nat)
    requires i <= Pow2(n)
    ensures forall e :: 0 <= e && e + 1 < |LutSeq(n, i)| && e % 2 == 0 ==>
      0 <= LutSeq(n, i)[e] < LutSeq(n, i)[e + 1] < Pow2(n) &&
      LutSeq(n, i)[e + 1] == Rev(LutSeq(n, i)[e], n)
  {
    if i > 0 {
      var p := i - 1;
      var L0, L := LutSeq(n, p), LutSeq(n, i);
      LutPairs(n, p);
      if p < Rev(p, n) {
        var r := Rev(p, n);
        assert L == L0 + [p, r];
        forall e | 0 <= e && e + 1 < |L| && e % 2 == 0
          ensures 0 <= L[e] < L[e + 1] < Pow2(n) && L[e + 1] == Rev(L[e], n)
        {
          if e < |L0| {
            EvenBelow(e, |L0|);
            assert L[e] == L0[e] && L[e + 1] == L0[e + 1];
          } else {
            assert e == |L0| && L[e] == p && L[e + 1] == r;
          }
        }
      } else {
        assert L == L0;
      }
    }
  }

  /** An even index below an even length leaves room for its partner. */
  lemma EvenBelow(e: int, k: int)
    requires e % 2 == 0 && k % 2 == 0 && e < k
    ensures e + 1 < k
  {
  }

  /** No index is emitted twice. */
  lemma {:induction false} LutDistinct(n: nat, i: nat)
    requires i <= Pow2(n)
    ensures forall a, b :: 0 <= a < b < |LutSeq(n, i)| ==> LutSeq(n, i)[a] != LutSeq(n, i)[b]
  {
    if i > 0 {
      var p := i - 1;
      LutDistinct(n, i - 1);
      if p < Rev(p, n) {
        var r := Rev(p, n);
        if p in LutSeq(n, i - 1) {
          LutMember(n, i - 1, p);
        }
        if r in LutSeq(n, i - 1) {
          LutMember(n, i - 1, r);
          RevInvolutive(p, n);
        }
      }
    }
  }

  lemma {:induction false} DistinctWithin(s: seq<int>, S: set<int>)
    requires forall a, b :: 0 <= a < b < |s| ==> s[a] != s[b]
    requires forall a :: 0 <= a < |s| ==> s[a] in S
    ensures |s| <= |S|
  {
    if |s| > 0 {
      var e := s[|s| - 1];
      DistinctWithin(s[..|s| - 1], S - {e});
    }
  }

  /** The integers of [lo, hi) as a set. */
  function Range(lo: int, hi: int): (r: set<int>)
    requires lo <= hi
    ensures |r| == hi - lo
    ensures forall x :: x in r <==> lo <= x < hi
    decreases hi - lo
  {
    if lo == hi then {} else Range(lo, hi - 1) + {hi - 1}
  }

  /** Fewer entries than the buffer holds: index 0 is its own reversal and never emitted. */
  lemma LutBound(n: nat, i: nat)
    requires i <= Pow2(n)
    ensures |LutSeq(n, i)| < Pow2(n)
  {
    var s := LutSeq(n, i);
    var S := Range(1, Pow2(n));
    LutDistinct(n, i);
    forall a | 0 <= a < |s|
      ensures s[a] in S
    {
      LutMember(n, i, s[a]);
      if s[a] == 0 {
        RevZero(n);
      }
    }
    DistinctWithin(s, S);
  }

  lemma {:induction false} RevZero(n: nat)
    ensures Rev(0, n) == 0
  {
    if n > 0 {
      RevZero(n - 1);
    }
  }

  /**
   * fft_radix2_get_bitreverse: walk i over [0, size-1) with j the reversal of i,
   * emit (i, j) when i < j, and advance j by the carry rule.
   */
  method GetBitReverse(size: int) returns (lut: array<int>, count: int)
    requires IsPow2(size)
    ensures fresh(lut)
    ensures lut.Length == size
    ensures count % 2 == 0 && 0 <= count < size
    ensures count == |Lut(Log2(size))| && lut[..count] == Lut(Log2(size))
  {
    ghost var n := Log2(size);
    count := 0;
    lut := new int[size];
    var i2 := size / 2;
    var i, j := 0, 0;
    RevZero(n);
    while i < size - 1
      invariant 0 <= i <= size - 1
      invariant j == Rev(i, n)
      invariant 0 <= count <= lut.Length
      invariant count == |LutSeq(n, i)| && lut[..count] == LutSeq(n, i)
    {
      LutStep(size, i);
      if i < j {
        count := EmitPair(lut, count, i, j);
      }
      CarryStep(size, i);
      j := CarryRule(j, i2);
      i := i + 1;
    }
    LutEnd(size, i);
  }

  /** Append the pair (i, j) to the first count entries of lut. */
  method EmitPair(lut: array<int>, count: int, i: int, j: int) returns (count': int)
    requires 0 <= count && count + 2 <= lut.Length
    modifies lut
    ensures count' == count + 2
    ensures lut[..count'] == old(lut[..count]) + [i, j]
  {
    ghost var before := lut[..count];
    lut[count] := i;
    count' := count + 1;
    lut[count'] := j;
    count' := count' + 1;
    assert lut[..count' - 2] == before;
    assert lut[..count'] == lut[..count' - 2] + [lut[count' - 2], lut[count' - 1]];
  }

  /** The loop stops at size - 1, where the table is complete and shorter than the buffer. */
  lemma LutEnd(size: int, i: nat)
    requires IsPow2(size) && i == size - 1
    ensures LutSeq(Log2(size), i) == Lut(Log2(size)) && |Lut(Log2(size))| < size
  {
    LutBound(Log2(size), i);
  }

  /** One step of the table: the pair (i, Rev(i)) is appended exactly when i < Rev(i). */
  lemma LutStep(size: int, i: nat)
    requires IsPow2(size) && i + 1 < size
    ensures LutSeq(Log2(size), i + 1) == LutSeq(Log2(size), i)
      + (if i < Rev(i, Log2(size)) then [i, Rev(i, Log2(size))] else [])
    ensures |LutSeq(Log2(size), i + 1)| < size
  {
    LutBound(Log2(size), i + 1);
  }

  /** The carry rule started at size / 2 takes Rev(i) to Rev(i + 1). */
  lemma CarryStep(size: int, i: nat)
    requires IsPow2(size) && i + 1 < size
    ensures IsPow2(size / 2) && 0 <= Rev(i, Log2(size)) && Rev(i, Log2(size)) + 2 <= 2 * (size / 2)
    ensures Carry(Rev(i, Log2(size)), size / 2) == Rev(i + 1, Log2(size))
  {
    var n := Log2(size);
    assert n >= 1 && size == 2 * Pow2(n - 1);
    CarryIsReversedIncrement(i, n);
  }

  /**
   * The inner loop of fft_radix2_get_bitreverse: starting from k = size >> 1,
   * subtract k from j while k <= j, halving k each time, then add k.
   */
  method CarryRule(j0: int, i2: int) returns (j: int)
    requires IsPow2(i2) && 0 <= j0 && j0 + 2 <= 2 * i2
    ensures j == Carry(j0, i2)
  {
    var k := i2;
    j := j0;
    while k <= j
      invariant IsPow2(k) && 0 <= j && j + 2 <= 2 * k
      invariant Carry(j, k) == Carry(j0, i2)
      decreases k
    {
      j := j - k;
      k := k / 2;
    }
    j := j + k;
  }

  /** Exchange two whole elements, as the kernel's 64-bit swap does. */
  function Swap<T>(x: seq<T>, a: int, b: int): (r: seq<T>)
    requires 0 <= a < |x| && 0 <= b < |x|
    ensures |r| == |x| && r[a] == x[b] && r[b] == x[a]
    ensures forall t :: 0 <= t < |x| && t != a && t != b ==> r[t] == x[t]
  {
    x[a := x[b]][b := x[a]]
  }

  /** The first c / 2 pairs of lut applied in order to x. */
  function Swaps<T>(x: seq<T>, lut: seq<int>, c: nat): (r: seq<T>)
    requires c % 2 == 0 && c <= |lut|
    requires forall t :: 0 <= t < c ==> 0 <= lut[t] < |x|
    ensures |r| == |x|
  {
    if c == 0 then x else Swap(Swaps(x, lut, c - 2), lut[c - 2], lut[c - 1])
  }

  lemma {:induction false} SwapsPrefix<T>(x: seq<T>, l1: seq<int>, l2: seq<int>, c: nat)
    requires c % 2 == 0 && c <= |l1| && c <= |l2| && l1[..c] == l2[..c]
    requires forall t :: 0 <= t < c ==> 0 <= l1[t] < |x|
    ensures Swaps(x, l1, c) == Swaps(x, l2, c)
  {
    if c > 0 {
      assert l1[c - 2] == l1[..c][c - 2] && l1[c - 1] == l1[..c][c - 1];
      assert l2[c - 2] == l2[..c][c - 2] && l2[c - 1] == l2[..c][c - 1];
      assert l1[..c - 2] == l1[..c][..c - 2] && l2[..c - 2] == l2[..c][..c - 2];
      SwapsPrefix(x, l1, l2, c - 2);
    }
  }

  /** Where element t is fetched from once the pairs for indices below i are applied. */
  function PartialRev(n: nat, i: nat, t: nat): (r: nat)
    ensures t < Pow2(n) ==> r < Pow2(n)
  {
    if (t < i && t < Rev(t, n)) || (Rev(t, n) < i && Rev(t, n) < t) then Rev(t, n) else t
  }

  lemma {:induction false} SwapsLut<T>(n: nat, i: nat, x: seq<T>)
    requires i <= Pow2(n) && |x| == Pow2(n)
    ensures forall t :: 0 <= t < |LutSeq(n, i)| ==> 0 <= LutSeq(n, i)[t] < |x|
    ensures forall t :: 0 <= t < |x| ==>
      Swaps(x, LutSeq(n, i), |LutSeq(n, i)|)[t] == x[PartialRev(n, i, t)]
  {
    var L := LutSeq(n, i);
    forall t | 0 <= t < |L|
      ensures 0 <= L[t] < |x|
    {
      LutMember(n, i, L[t]);
    }
    if i > 0 {
      var p := i - 1;
      var q := Rev(p, n);
      var L0 := LutSeq(n, p);
      SwapsLut(n, p, x);
      RevInvolutive(p, n);
      var y := Swaps(x, L0, |L0|);
      var z := Swaps(x, L, |L|);
      if p < q {
        assert L == L0 + [p, q];
        SwapsAppend(x, L0, L, p, q);
        assert z == Swap(y, p, q);
      } else {
        assert L == L0;
      }
      forall t | 0 <= t < |x|
        ensures z[t] == x[PartialRev(n, i, t)]
      {
        if t != p && t != q {
          PartialRevStep(n, p, t);
          assert z[t] == y[t];
        } else {
          RevInvolutive(t, n);
        }
      }
    }
  }

  /** Appending one pair to the table appends one swap to the pass. */
  lemma SwapsAppend<T>(x: seq<T>, L0: seq<int>, L: seq<int>, p: int, q: int)
    requires |L0| % 2 == 0 && L == L0 + [p, q] && 0 <= p < |x| && 0 <= q < |x|
    requires forall t :: 0 <= t < |L| ==> 0 <= L[t] < |x|
    ensures forall t :: 0 <= t < |L0| ==> 0 <= L0[t] < |x|
    ensures Swaps(x, L, |L|) == Swap(Swaps(x, L0, |L0|), p, q)
  {
    var k := |L0|;
    assert L[..k] == L0[..k];
    SwapsPrefix(x, L, L0, k);
    SwapsLast(x, L, k + 2);
  }

  /** The last pair of the first c entries is the last swap applied. */
  lemma SwapsLast<T>(x: seq<T>, lut: seq<int>, c: nat)
    requires c >= 2 && (c - 2) % 2 == 0 && c <= |lut|
    requires forall t :: 0 <= t < c ==> 0 <= lut[t] < |x|
    ensures c % 2 == 0
    ensures Swaps(x, lut, c) == Swap(Swaps(x, lut, c - 2), lut[c - 2], lut[c - 1])
  {
    DivModUnique(c, 2, (c - 2) / 2 + 1, 0);
  }

  /** Applying the pair of p leaves the source of every other element where it was. */
  lemma PartialRevStep(n: nat, p: nat, t: nat)
    requires p < Pow2(n) && t < Pow2(n) && t != p && t != Rev(p, n)
    ensures PartialRev(n, p + 1, t) == PartialRev(n, p, t)
  {
    var r := Rev(t, n);
    RevInvolutive(t, n);
    assert r != p;
    assert (t < p + 1) == (t < p);
    assert (r < p + 1) == (r < p);
  }

  /** The complete table for size Pow2(n): the loop stops at size - 1. */
  function Lut(n: nat): seq<int>
  {
    LutSeq(n, Pow2(n) - 1)
  }

  /** Applying the whole table realises the bit-reversal permutation. */
  lemma LutRealisesBitReversal<T>(n: nat, x: seq<T>)
    requires |x| == Pow2(n)
    ensures forall t :: 0 <= t < |Lut(n)| ==> 0 <= Lut(n)[t] < |x|
    ensures forall t :: 0 <= t < |x| ==> Swaps(x, Lut(n), |Lut(n)|)[t] == x[Rev(t, n)]
  {
    var i := Pow2(n) - 1;
    SwapsLut(n, i, x);
    forall t | 0 <= t < |x|
      ensures PartialRev(n, i, t) == Rev(t, n)
    {
    }
  }
}
