/**
 * fft_radix2_get_twiddle_float: the loop nest over stage span m, block start k
 * and butterfly offset j that both the twiddle table and the radix-2 kernel
 * walk, and the table of (cos, -sin) pairs it fills.
 */
module Twiddle {
  import opened Powers
  import opened Cplx

  /**
   * One trip of the loop nest: stage s (span m = 2^(s+1)), block number c (block
   * start k = c * m) and offset j inside the block (j < m / 2).
   */
  datatype Step = Step(s: nat, c: nat, j: nat)

  /** The stage span m. */
  function Span(st: Step): (m: nat)
    ensures m >= 2
  {
    Pow2(st.s + 1)
  }

  /** The block start k. */
  function Start(st: Step): nat
  {
    Times(st.c, Span(st))
  }

  /** Blocks in stage s: size / 2^(s+1). */
  function Blocks(size: int, s: nat): nat
    requires IsPow2(size)
  {
    if s < Log2(size) then Pow2(Log2(size) - 1 - s) else 0
  }

  /** The trips the loop nest makes for this size. */
  predicate ValidStep(size: int, st: Step)
  {
    IsPow2(size) && st.s < Log2(size) && st.c < Blocks(size, st.s) && st.j < Pow2(st.s)
  }

  /** Butterflies per transform: size / 2 in each of the Log2(size) stages. */
  function PairCount(size: int): nat
    requires IsPow2(size)
  {
    Times(Log2(size), size / 2)
  }

  /** The value of the running pair counter at a trip: s * (size / 2) + c * (m / 2) + j. */
  function PairIndex(size: int, st: Step): nat
    requires size >= 0
  {
    Times(st.s, size / 2) + Times(st.c, Pow2(st.s)) + st.j
  }

  /** The trip after st, in the order of the loop nest. */
  function Next(size: int, st: Step): Step
    requires IsPow2(size)
  {
    if st.j + 1 < Pow2(st.s) then Step(st.s, st.c, st.j + 1)
    else if st.c + 1 < Blocks(size, st.s) then Step(st.s, st.c + 1, 0)
    else Step(st.s + 1, 0, 0)
  }

  /** The p-th trip of the loop nest. */
  function StepOf(size: int, p: nat): Step
    requires IsPow2(size)
  {
    if p == 0 then Step(0, 0, 0) else Next(size, StepOf(size, p - 1))
  }

  /** A size of at least 2 is twice its half, itself a power of two. */
  lemma HalfIsPow2(size: int)
    requires IsPow2(size) && Log2(size) >= 1
    ensures size >= 2 && size == 2 * (size / 2) && size / 2 == Pow2(Log2(size) - 1)
  {
  }

  /** Two floats per butterfly: the table holds size * Log2(size) floats. */
  lemma PairCountFloats(size: int)
    requires IsPow2(size)
    ensures 2 * PairCount(size) == Log2(size) * size
  {
    if Log2(size) >= 1 {
      HalfIsPow2(size);
      TimesDouble(Log2(size), size / 2);
    }
    TimesIsMul(Log2(size), size);
  }

  /** The blocks of a stage tile its half-size pairs and its whole span. */
  lemma BlocksCover(size: int, s: nat)
    requires IsPow2(size) && s < Log2(size)
    ensures Times(Blocks(size, s), Pow2(s)) == size / 2
    ensures Times(Blocks(size, s), Pow2(s + 1)) == size
  {
    var n := Log2(size);
    HalfIsPow2(size);
    TimesPow2(n - 1 - s, s);
    TimesPow2(n - 1 - s, s + 1);
  }

  /** Inside a stage the counter stays below the stage's size / 2 pairs, and the block inside size. */
  lemma WithinStage(size: int, st: Step)
    requires ValidStep(size, st)
    ensures Times(st.c, Pow2(st.s)) + st.j < size / 2
    ensures Start(st) + Span(st) <= size
  {
    BlocksCover(size, st.s);
    TimesGap(st.c, Blocks(size, st.s), Pow2(st.s));
    TimesGap(st.c, Blocks(size, st.s), Pow2(st.s + 1));
  }

  /** A block of stage s ends at or before the last pair of the whole nest. */
  lemma BlockEnd(size: int, s: nat, c: nat)
    requires IsPow2(size) && s < Log2(size) && c < Blocks(size, s)
    ensures Times(s, size / 2) + Times(c + 1, Pow2(s)) <= PairCount(size)
  {
    BlocksCover(size, s);
    TimesMonotone(c + 1, Blocks(size, s), Pow2(s));
    TimesMonotone(s + 1, Log2(size), size / 2);
  }

  /** The loop nest's increment moves the counter up by one and stays a trip while pairs remain. */
  lemma NextIndex(size: int, st: Step)
    requires ValidStep(size, st) && PairIndex(size, st) + 1 < PairCount(size)
    ensures ValidStep(size, Next(size, st)) && PairIndex(size, Next(size, st)) == PairIndex(size, st) + 1
  {
    if st.j + 1 < Pow2(st.s) {
    } else if st.c + 1 < Blocks(size, st.s) {
    } else {
      BlocksCover(size, st.s);
      var half := size / 2;
      assert PairIndex(size, Next(size, st)) == Times(st.s + 1, half);
      TimesLess(st.s + 1, Log2(size), half);
    }
  }

  /** The p-th trip is a trip of the nest, and the counter reads p there. */
  lemma {:induction false} StepIndex(size: int, p: nat)
    requires IsPow2(size) && p < PairCount(size)
    ensures ValidStep(size, StepOf(size, p)) && PairIndex(size, StepOf(size, p)) == p
  {
    if p > 0 {
      StepIndex(size, p - 1);
      NextIndex(size, StepOf(size, p - 1));
    }
  }

  /** Every trip of the nest is the one numbered by its counter value. */
  lemma StepAt(size: int, st: Step)
    requires ValidStep(size, st)
    ensures PairIndex(size, st) < PairCount(size)
    ensures StepOf(size, PairIndex(size, st)) == st
  {
    var p := PairIndex(size, st);
    WithinStage(size, st);
    assert p < PairCount(size) by {
      TimesGap(st.s, Log2(size), size / 2);
    }
    StepIndex(size, p);
    var other := StepOf(size, p);
    WithinStage(size, other);
    DigitUnique(size / 2, st.s, Times(st.c, Pow2(st.s)) + st.j, other.s, Times(other.c, Pow2(other.s)) + other.j);
    DigitUnique(Pow2(st.s), st.c, st.j, other.c, other.j);
  }

  /** The stage loop runs for s = 0 .. Log2(size) - 1, while its span 2^(s+1) fits in size. */
  lemma StageGuard(size: int, s: nat)
    requires IsPow2(size) && s <= Log2(size)
    ensures Pow2(s + 1) <= size <==> s < Log2(size)
  {
    if s < Log2(size) {
      Pow2Monotone(s + 1, Log2(size));
    }
  }

  /** The block loop runs while the block start c * m is below size. */
  lemma BlockGuard(size: int, s: nat, c: nat)
    requires IsPow2(size) && s < Log2(size) && c <= Blocks(size, s)
    ensures Times(c, Pow2(s + 1)) < size <==> c < Blocks(size, s)
  {
    BlocksCover(size, s);
    TimesLess(c, Blocks(size, s), Pow2(s + 1));
  }

  /** The angle, in turns, of the twiddle a trip uses: j / m. */
  function Angle(st: Step): real
  {
    st.j as real / Span(st) as real
  }

  /** The twiddle the p-th butterfly needs: cos - i sin of 2*pi*j/m at its trip. */
  function TwiddleAt(trig: Trig, size: int, p: nat): Complex
    requires IsPow2(size)
  {
    Root(trig, Angle(StepOf(size, p)))
  }

  /** The twiddle of every butterfly of the transform, in loop-nest order. */
  function RootPairs(trig: Trig, size: int): (w: seq<Complex>)
    requires IsPow2(size)
    ensures |w| == PairCount(size)
  {
    seq(PairCount(size), p requires 0 <= p < PairCount(size) => TwiddleAt(trig, size, p))
  }

  /** Complex values laid out as floats: value p at index 2p (real part) and 2p+1 (imaginary part). */
  function Interleave(w: seq<Complex>): (t: seq<real>)
    ensures |t| == 2 * |w|
  {
    if w == [] then [] else Interleave(w[..|w| - 1]) + [w[|w| - 1].re, w[|w| - 1].im]
  }

  /** A float array read two floats at a time, as the kernel reads the table. */
  function Pairs(t: seq<real>): (w: seq<Complex>)
    ensures |w| == |t| / 2
  {
    seq(|t| / 2, p requires 0 <= p < |t| / 2 => Complex(t[2 * p], t[2 * p + 1]))
  }

  /** The two floats of value p. */
  lemma {:induction false} InterleaveAt(w: seq<Complex>, p: int)
    requires 0 <= p < |w|
    ensures Interleave(w)[2 * p] == w[p].re && Interleave(w)[2 * p + 1] == w[p].im
  {
    var v := w[..|w| - 1];
    if p < |w| - 1 {
      InterleaveAt(v, p);
      assert w[p] == v[p];
    }
  }

  /** The floats t hold the first p values of w, each at 2q and 2q+1. */
  predicate Holds(t: seq<real>, w: seq<Complex>, p: nat)
  {
    p <= |w| && 2 * p <= |t|
    && forall q :: 0 <= q < p ==> t[2 * q] == w[q].re && t[2 * q + 1] == w[q].im
  }

  /** Writing the parts of value p at 2p and 2p+1 extends what t holds by one value. */
  lemma HoldsNext(t: seq<real>, w: seq<Complex>, p: nat, x: real, y: real)
    requires Holds(t, w, p) && p < |w| && 2 * p + 1 < |t| && Complex(x, y) == w[p]
    ensures Holds(t[2 * p := x][2 * p + 1 := y], w, p + 1)
  {
  }

  /** Floats holding all the values, and no more, are their interleaving. */
  lemma HoldsAll(t: seq<real>, w: seq<Complex>)
    requires Holds(t, w, |w|) && |t| == 2 * |w|
    ensures t == Interleave(w)
  {
    forall g | 0 <= g < |t|
      ensures t[g] == Interleave(w)[g]
    {
      var p := g / 2;
      InterleaveAt(w, p);
      assert g == 2 * p || g == 2 * p + 1;
    }
  }

  /** Reading the floats back two at a time gives the values they were laid out from. */
  lemma PairsInterleave(w: seq<Complex>)
    ensures Pairs(Interleave(w)) == w
  {
    forall p | 0 <= p < |w|
      ensures Pairs(Interleave(w))[p] == w[p]
    {
      InterleaveAt(w, p);
    }
  }

  /** The table as the kernel receives it: the pairs as (cos, -sin) floats. */
  function TwiddleTable(trig: Trig, size: int): (t: seq<real>)
    requires IsPow2(size)
    ensures |t| == 2 * PairCount(size)
  {
    Interleave(RootPairs(trig, size))
  }

  /** Read back two floats at a time, the table gives the roots it was built from. */
  lemma TablePairs(trig: Trig, size: int)
    requires IsPow2(size)
    ensures Pairs(TwiddleTable(trig, size)) == RootPairs(trig, size)
  {
    PairsInterleave(RootPairs(trig, size));
  }

  /**
   * The pair read at stage span m, block k, offset j is (cos(2*pi*j/m), -sin(2*pi*j/m)):
   * it depends on j and m only, so each stage repeats the pairs of its first block.
   */
  lemma TwiddleEntry(trig: Trig, size: int, st: Step)
    requires ValidStep(size, st)
    ensures PairIndex(size, st) < PairCount(size)
    ensures PairIndex(size, Step(st.s, 0, st.j)) < PairCount(size)
    ensures RootPairs(trig, size)[PairIndex(size, st)] == Root(trig, st.j as real / Span(st) as real)
    ensures RootPairs(trig, size)[PairIndex(size, st)] == RootPairs(trig, size)[PairIndex(size, Step(st.s, 0, st.j))]
  {
    StepAt(size, st);
    StepAt(size, Step(st.s, 0, st.j));
  }

  /** At a trip the fill pass computes (cos, -sin) of i/m turns, the twiddle of the counter's butterfly. */
  lemma FillStep(trig: Trig, size: int, st: Step, i: int, m: int)
    requires ValidStep(size, st) && i == st.j && m == Span(st)
    ensures PairIndex(size, st) < PairCount(size)
    ensures TwiddleAt(trig, size, PairIndex(size, st)) == Complex(trig.cos(i as real / m as real), -trig.sin(i as real / m as real))
  {
    StepAt(size, st);
  }

  /** The first pass: count two floats per butterfly of the loop nest. */
  method TwiddleCount(size: int) returns (i: int)
    requires IsPow2(size)
    ensures i == 2 * PairCount(size)
  {
    ghost var n := Log2(size);
    ghost var s: nat := 0;
    i := 0;
    var m := 2;
    while m <= size
      invariant s <= n && m == Pow2(s + 1)
      invariant i == 2 * Times(s, size / 2)
      decreases n - s
    {
      StageGuard(size, s);
      ghost var c: nat := 0;
      var k := 0;
      while k < size
        invariant c <= Blocks(size, s) && k == Times(c, m)
        invariant i == 2 * (Times(s, size / 2) + Times(c, Pow2(s)))
        decreases Blocks(size, s) - c
      {
        BlockGuard(size, s, c);
        var j := 0;
        while j < m / 2
          invariant 0 <= j <= m / 2
          invariant i == 2 * (Times(s, size / 2) + Times(c, Pow2(s)) + j)
        {
          i := i + 2;
          j := j + 1;
        }
        k := k + m;
        c := c + 1;
      }
      BlockGuard(size, s, c);
      BlocksCover(size, s);
      m := m * 2;
      s := s + 1;
    }
    StageGuard(size, s);
  }

  /**
   * fft_radix2_get_twiddle_float: size the table with the first pass, then fill it
   * stage by stage.
   */
  method GetTwiddle(trig: Trig, size: int) returns (tw: array<real>)
    requires IsPow2(size)
    ensures fresh(tw)
    ensures tw[..] == TwiddleTable(trig, size)
  {
    ghost var n := Log2(size);
    ghost var W := RootPairs(trig, size);
    var len := TwiddleCount(size);
    tw := new real[len];
    var f := 0;
    ghost var p := 0;
    var m := 2;
    ghost var s: nat := 0;
    while m <= size
      invariant s <= n && m == Pow2(s + 1)
      invariant p == Times(s, size / 2) && f == 2 * p && Holds(tw[..], W, p)
      decreases n - s
    {
      StageGuard(size, s);
      ghost var c: nat := 0;
      var k := 0;
      while k < size
        invariant c <= Blocks(size, s) && k == Times(c, m)
        invariant p == Times(s, size / 2) + Times(c, Pow2(s)) && f == 2 * p && Holds(tw[..], W, p)
        decreases Blocks(size, s) - c
      {
        BlockGuard(size, s, c);
        f := FillBlock(trig, size, tw, W, s, c, m, f, p);
        p := p + Pow2(s);
        k := k + m;
        c := c + 1;
      }
      BlockGuard(size, s, c);
      BlocksCover(size, s);
      m := m * 2;
      s := s + 1;
    }
    StageGuard(size, s);
    HoldsAll(tw[..], W);
  }

  /**
   * The innermost loop of the fill pass, at block c of stage s: the m / 2 pairs
   * (cos, -sin) of i/m turns, i running from 0, written from float f0 = 2 * p0 on.
   */
  method FillBlock(trig: Trig, size: int, tw: array<real>, ghost W: seq<Complex>, ghost s: nat, ghost c: nat,
                   m: int, f0: int, ghost p0: nat) returns (f: int)
    requires IsPow2(size) && s < Log2(size) && c < Blocks(size, s) && m == Pow2(s + 1)
    requires W == RootPairs(trig, size) && tw.Length == 2 * PairCount(size)
    requires p0 == Times(s, size / 2) + Times(c, Pow2(s)) && f0 == 2 * p0 && Holds(tw[..], W, p0)
    modifies tw
    ensures f == 2 * (p0 + Pow2(s)) && Holds(tw[..], W, p0 + Pow2(s))
  {
    f := f0;
    ghost var p := p0;
    var i := 0;
    var j := 0;
    while j < m / 2
      invariant 0 <= j <= m / 2 && i == j && m / 2 == Pow2(s)
      invariant p == p0 + j && f == 2 * p && Holds(tw[..], W, p)
    {
      FillStep(trig, size, Step(s, c, j), i, m);
      ghost var before := tw[..];
      tw[f] := trig.cos(i as real / m as real);
      tw[f + 1] := -trig.sin(i as real / m as real);
      assert tw[..] == before[f := tw[f]][f + 1 := tw[f + 1]];
      HoldsNext(before, W, p, tw[f], tw[f + 1]);
      f := f + 2;
      p := p + 1;
      i := i + 1;
      j := j + 1;
    }
  }
}
