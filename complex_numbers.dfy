/**
 * Complex arithmetic over exact reals, the rotation-factor recurrence of the
 * FFT, and the C math library functions that the transforms call.
 *
 * The source computes in IEEE doubles; this model computes in `real`, so
 * every statement here is about exact arithmetic.
 */
module ComplexNumbers {

  /** A complex number as the source keeps it: a real part and an imaginary part. */
  datatype Complex = Complex(re: real, im: real)

  const One := Complex(1.0, 0.0)
  const Zero := Complex(0.0, 0.0)

  function Add(a: Complex, b: Complex): Complex
  {
    Complex(a.re + b.re, a.im + b.im)
  }

  function Sub(a: Complex, b: Complex): Complex
  {
    Complex(a.re - b.re, a.im - b.im)
  }

  /** The product `factor * value`, written as the butterfly writes it. */
  function Mul(factor: Complex, value: Complex): Complex
  {
    Complex(factor.re * value.re - factor.im * value.im,
            factor.im * value.re + factor.re * value.im)
  }

  /** Multiplication distributes over addition. */
  lemma MulDistributes(f: Complex, u: Complex, v: Complex)
    ensures Mul(f, Add(u, v)) == Add(Mul(f, u), Mul(f, v))
  {
  }

  /** A butterfly whose second input is zero passes the first through. */
  lemma ButterflyOfZero(z: Complex, f: Complex)
    ensures Add(z, Mul(f, Zero)) == z && Sub(z, Mul(f, Zero)) == z
  {
  }

  lemma MulOne(z: Complex)
    ensures Mul(One, z) == z
  {
  }

  /** The two rows `re` and `im` read as one sequence of complex numbers. */
  function Pairs(re: seq<real>, im: seq<real>): (z: seq<Complex>)
    requires |re| == |im|
    ensures |z| == |re|
    ensures forall i :: 0 <= i < |re| ==> z[i] == Complex(re[i], im[i])
  {
    seq(|re|, i requires 0 <= i < |re| => Complex(re[i], im[i]))
  }

  /** The real parts. */
  function Reals(z: seq<Complex>): (re: seq<real>)
    ensures |re| == |z| && forall i :: 0 <= i < |z| ==> re[i] == z[i].re
  {
    seq(|z|, i requires 0 <= i < |z| => z[i].re)
  }

  /** The imaginary parts. */
  function Imags(z: seq<Complex>): (im: seq<real>)
    ensures |im| == |z| && forall i :: 0 <= i < |z| ==> im[i] == z[i].im
  {
    seq(|z|, i requires 0 <= i < |z| => z[i].im)
  }

  /** Real numbers as complex numbers with a zero imaginary part. */
  function FromReals(v: seq<real>): (z: seq<Complex>)
    ensures |z| == |v| && forall i :: 0 <= i < |v| ==> z[i] == Complex(v[i], 0.0)
  {
    seq(|v|, i requires 0 <= i < |v| => Complex(v[i], 0.0))
  }

  /** Splitting into rows and pairing them again gives back the sequence. */
  lemma PairsOfParts(z: seq<Complex>)
    ensures Pairs(Reals(z), Imags(z)) == z
  {
  }

  /** `z` multiplied by itself `g` times. */
  function Power(z: Complex, g: nat): Complex
  {
    if g == 0 then One else Mul(z, Power(z, g - 1))
  }

  /**
   * One step of the trigonometric recurrence that moves the rotation factor
   * `f` to the next group, given the stage's multiplier pair `m`: the new
   * factor is `f` rotated by `1 + m` (see `AdvanceRotates`).
   */
  function Advance(m: Complex, f: Complex): Complex
  {
    Complex(m.re * f.re - m.im * f.im + f.re,
            m.im * f.re + m.re * f.im + f.im)
  }

  /** The recurrence step is a multiplication by `1 + m`. */
  lemma AdvanceRotates(m: Complex, f: Complex)
    ensures Advance(m, f) == Mul(Complex(1.0 + m.re, m.im), f)
  {
    assert (1.0 + m.re) * f.re == m.re * f.re + f.re;
    assert (1.0 + m.re) * f.im == m.re * f.im + f.im;
  }

  /** The rotation factor of group `g`: `One` advanced `g` times. */
  function Twiddle(m: Complex, g: nat): Complex
  {
    if g == 0 then One else Advance(m, Twiddle(m, g - 1))
  }

  /** The factor of group `g + 1` is the factor of group `g` advanced once. */
  lemma TwiddleNext(m: Complex, g: nat)
    ensures Twiddle(m, g + 1) == Advance(m, Twiddle(m, g))
  {
  }

  /**
   * The factor of group `g` is the `g`-th power of `1 + m`. With the
   * multiplier pair `(-2 sin^2(delta/2), sin(delta))` the base `1 + m` is
   * `(cos delta, sin delta)`, so group `g` rotates by `g * delta`.
   */
  lemma {:induction false} TwiddleIsPower(m: Complex, g: nat)
    ensures Twiddle(m, g) == Power(Complex(1.0 + m.re, m.im), g)
  {
    if g > 0 {
      TwiddleIsPower(m, g - 1);
      AdvanceRotates(m, Twiddle(m, g - 1));
    }
  }

  /**
   * The functions of the C math library the transforms call. Nothing is
   * assumed about them: every result that depends on them is stated in
   * terms of their values.
   */
  datatype Libm = Libm(sin: real -> real, cos: real -> real, sqrt: real -> real)

  /** The value of pi that the source uses (`M_PI`, and the literal in the two-array variant). */
  const Pi: real := 3.14159265358979323846
}
