/**
 * Complex samples (cplx_float_t, a pair of floats) over exact reals, and the
 * unit roots the tables are filled with.
 */
module Cplx {

  datatype Complex = Complex(re: real, im: real)

  const One := Complex(1.0, 0.0)

  function Add(a: Complex, b: Complex): Complex
  {
    Complex(a.re + b.re, a.im + b.im)
  }

  function Sub(a: Complex, b: Complex): Complex
  {
    Complex(a.re - b.re, a.im - b.im)
  }

  /** The product in the component order both the butterfly and the phasor update use. */
  function Mul(a: Complex, b: Complex): Complex
  {
    Complex(a.re * b.re - a.im * b.im, a.re * b.im + a.im * b.re)
  }

  /** w multiplied into One n times, left to right, as a running phasor does. */
  function CPow(w: Complex, n: nat): Complex
  {
    if n == 0 then One else Mul(CPow(w, n - 1), w)
  }

  /**
   * The library cosine and sine, each taken as a function of the angle measured
   * in whole turns (so cos(2*pi*t) in the source is cos(t) here).
   */
  datatype Trig = Trig(cos: real -> real, sin: real -> real)

  /** The table entry (cos, -sin) for an angle of t turns. */
  function Root(trig: Trig, t: real): Complex
  {
    Complex(trig.cos(t), -trig.sin(t))
  }

  /** The angle-sum identities at one pair of angles. */
  predicate SumLaw(trig: Trig, x: real, y: real)
  {
    && trig.cos(x + y) == trig.cos(x) * trig.cos(y) - trig.sin(x) * trig.sin(y)
    && trig.sin(x + y) == trig.sin(x) * trig.cos(y) + trig.cos(x) * trig.sin(y)
  }

  /** Exact trigonometry: what the recurrences assume when rounding is set aside. */
  ghost predicate Exact(trig: Trig)
  {
    trig.cos(0.0) == 1.0 && trig.sin(0.0) == 0.0 && forall x, y :: SumLaw(trig, x, y)
  }

  /** Multiplying two roots adds their angles. */
  lemma RootProduct(trig: Trig, a: real, b: real)
    requires SumLaw(trig, a, b)
    ensures Mul(Root(trig, a), Root(trig, b)) == Root(trig, a + b)
  {
  }

  /** n steps of t turns. */
  function Turns(n: nat, t: real): real
  {
    n as real * t
  }

  /** Under exact trigonometry the n-th power of the root of t turns is the root of n*t turns. */
  lemma {:induction false} RootPower(trig: Trig, t: real, n: nat)
    requires Exact(trig)
    ensures CPow(Root(trig, t), n) == Root(trig, Turns(n, t))
  {
    if n == 0 {
      assert Turns(n, t) == 0.0;
    } else {
      var a := Turns(n - 1, t);
      RootPower(trig, t, n - 1);
      assert SumLaw(trig, a, t);
      RootProduct(trig, a, t);
      assert a + t == Turns(n, t) by {
        assert (n - 1) as real == n as real - 1.0;
      }
    }
  }
}
