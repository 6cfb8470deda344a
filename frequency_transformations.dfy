/**
 * The Ruby-facing operations of the `FrequencyTransformations` module:
 * the two validators, `fft`/`rfft` (validation, unpacking into two rows,
 * the in-place kernel, packing the result), `fht` and `switch_quarters`.
 * A Ruby exception is an `Err` result.
 */
module FrequencyTransformations {
  import opened Bits
  import opened ComplexNumbers
  import opened RubyValues
  import opened FftSpec
  import opened FhtSpec
  import opened QuadrantSpec
  import opened FftKernel
  import opened FhtKernel

  // ---------------------------------------------------------------------
  // Validation.

  /** A `Complex` whose imaginary part is zero. */
  predicate IsReal(v: Value)
  {
    v.ComplexValue? && v.z.im == 0.0
  }

  /** The index of the first element that is not a real `Complex`, or the length if there is none. */
  function FirstNonReal(values: seq<Value>): (k: nat)
    ensures k <= |values|
    ensures forall j :: 0 <= j < k ==> IsReal(values[j])
    ensures k < |values| ==> !IsReal(values[k])
  {
    if |values| == 0 || !IsReal(values[0]) then 0 else 1 + FirstNonReal(values[1..])
  }

  /**
   * `fourier_validate`: every element must be a `Complex` (otherwise a
   * `TypeError`), then the length must be at least 2 and pass the test
   * `length & (length - 1) == 0`.
   */
  method FourierValidate(values: seq<Value>) returns (r: Result<seq<Value>>)
    ensures r == Err(TypeError) <==> !AllComplex(values)
    ensures r == Err(ArgumentError(PowerOfTwoMessage))
        <==> AllComplex(values) && !(|values| >= 2 && IsPowerOfTwo(|values|))
    ensures r == Ok(values) <==> AllComplex(values) && |values| >= 2 && IsPowerOfTwo(|values|)
  {
    var length := |values|;
    var i := 0;
    while i < length
      invariant i <= length && forall m :: 0 <= m < i ==> values[m].ComplexValue?
    {
      if values[i].OtherValue? {
        return Err(TypeError);
      }
      i := i + 1;
    }
    if length >= 1 {
      PowerOfTwoTest(length);
    }
    if length < 2 || And(length, length - 1) != 0 {
      return Err(ArgumentError(PowerOfTwoMessage));
    }
    return Ok(values);
  }

  /**
   * `hartley_validate`: the elements are checked in order, each must be a
   * `Complex` (otherwise a `TypeError`) with a zero imaginary part; then
   * the length must be even. The first element that fails decides the error.
   */
  method HartleyValidate(values: seq<Value>) returns (r: Result<seq<Value>>)
    ensures var k := FirstNonReal(values);
      (r == Err(TypeError) <==> k < |values| && values[k].OtherValue?)
      && (r == Err(ArgumentError(RealValuesMessage)) <==> k < |values| && values[k].ComplexValue?)
      && (r == Err(ArgumentError(EvenSizeMessage)) <==> k == |values| && |values| % 2 == 1)
      && (r == Ok(values) <==> k == |values| && |values| % 2 == 0)
  {
    var length := |values|;
    var i := 0;
    while i < length
      invariant i <= length && forall m :: 0 <= m < i ==> IsReal(values[m])
    {
      if values[i].OtherValue? {
        return Err(TypeError);
      }
      if values[i].z.im != 0.0 {
        return Err(ArgumentError(RealValuesMessage));
      }
      i := i + 1;
    }
    if length % 2 == 1 {
      return Err(ArgumentError(EvenSizeMessage));
    }
    return Ok(values);
  }

  /**
   * Six real values pass `hartley_validate` (no element fails and the
   * length is even), yet the index ranges of the ladder overrun six values.
   */
  lemma HartleyValidateAcceptsSix(values: seq<Value>)
    requires |values| == 6 && forall j :: 0 <= j < 6 ==> IsReal(values[j])
    ensures FirstNonReal(values) == |values| && |values| % 2 == 0
    ensures !LevelsFit(|values|, 2)
  {
    SixOverruns();
  }

  // ---------------------------------------------------------------------
  // fft / rfft.

  /** What `fft` (`direction == 1`) and `rfft` (`direction == -1`) return or raise. */
  function FftOf(values: seq<Value>, direction: int, libm: Libm): Result<seq<Complex>>
  {
    if !AllComplex(values) then Err(TypeError)
    else if |values| < 2 || !IsPowerOfTwo(|values|) then Err(ArgumentError(PowerOfTwoMessage))
    else Ok(Fft(Numbers(values), direction, TrigMultipliers(libm, direction)))
  }

  /** `perform_fft`: the in-place kernel on the two rows, then the rows read back as complex numbers. */
  method PerformFft(re: array<real>, im: array<real>, direction: int, libm: Libm) returns (output: seq<Complex>)
    requires re != im && re.Length == im.Length && IsPowerOfTwo(re.Length)
    modifies re, im
    ensures output == Fft(Pairs(old(re[..]), old(im[..])), direction, TrigMultipliers(libm, direction))
  {
    Transform(re, im, direction, libm);
    output := [];
    var i := 0;
    while i < re.Length
      invariant i <= re.Length && |output| == i
      invariant forall m :: 0 <= m < i ==> output[m] == Complex(re[m], im[m])
    {
      output := output + [Complex(re[i], im[i])];
      i := i + 1;
    }
    assert output == Pairs(re[..], im[..]);
  }

  /** `prepare_fft`: validate, copy the parts into two fresh rows, transform. */
  method PrepareFft(values: seq<Value>, direction: int, libm: Libm) returns (r: Result<seq<Complex>>)
    ensures r == FftOf(values, direction, libm)
  {
    var checked := FourierValidate(values);
    if checked.Err? {
      return Err(checked.error);
    }
    var length := |values|;
    var re := new real[length];
    var im := new real[length];
    var i := 0;
    while i < length
      invariant i <= length
      invariant forall m :: 0 <= m < i ==> re[m] == values[m].z.re && im[m] == values[m].z.im
    {
      re[i] := values[i].z.re;
      im[i] := values[i].z.im;
      i := i + 1;
    }
    assert Pairs(re[..], im[..]) == Numbers(values);
    var output := PerformFft(re, im, direction, libm);
    return Ok(output);
  }

  /** Complex numbers as Ruby values. */
  function Wrap(zs: seq<Complex>): (values: seq<Value>)
    ensures |values| == |zs| && AllComplex(values) && Numbers(values) == zs
  {
    seq(|zs|, i requires 0 <= i < |zs| => ComplexValue(zs[i]))
  }

  /** An array holding something other than a `Complex` raises a `TypeError`, whatever its length. */
  lemma FftRejectsOtherValues(values: seq<Value>, direction: int, libm: Libm, i: nat)
    requires i < |values| && values[i].OtherValue?
    ensures FftOf(values, direction, libm) == Err(TypeError)
  {
  }

  /** Lengths that are not a power of two at least 2, such as 3, raise an `ArgumentError`. */
  lemma FftRejectsThree(zs: seq<Complex>, direction: int, libm: Libm)
    requires |zs| == 3
    ensures FftOf(Wrap(zs), direction, libm) == Err(ArgumentError(PowerOfTwoMessage))
  {
  }

  /** The transform of an accepted array has its length. */
  lemma FftKeepsLength(values: seq<Value>, direction: int, libm: Libm)
    requires FftOf(values, direction, libm).Ok?
    ensures |FftOf(values, direction, libm).value| == |values|
  {
  }

  /** On two values `rfft` undoes `fft`. */
  lemma FftRoundTripTwoValues(zs: seq<Complex>, libm: Libm)
    requires |zs| == 2
    ensures FftOf(Wrap(zs), 1, libm).Ok?
    ensures FftOf(Wrap(FftOf(Wrap(zs), 1, libm).value), -1, libm) == Ok(zs)
  {
    Pow2IsPowerOfTwo(1);
    FftRoundTripTwo(zs, TrigMultipliers(libm, 1), TrigMultipliers(libm, -1));
  }

  // ---------------------------------------------------------------------
  // fht.

  /**
   * What `fht` returns or raises, with the ladder run only on lengths it
   * fits: the errors of `hartley_validate`, then an `ArgumentError` for a
   * non-empty length that is not a power of two, then the transform
   * divided by `sqrt(n)` as complex numbers with a zero imaginary part.
   */
  function FhtOf(values: seq<Value>, libm: Libm): Result<seq<Complex>>
    requires |values| == 0 || libm.sqrt(|values| as real) != 0.0
  {
    var k := FirstNonReal(values);
    if k < |values| then
      (if values[k].OtherValue? then Err(TypeError) else Err(ArgumentError(RealValuesMessage)))
    else if |values| % 2 == 1 then Err(ArgumentError(EvenSizeMessage))
    else if |values| > 0 && !IsPowerOfTwo(|values|) then Err(ArgumentError(PowerOfTwoMessage))
    else Ok(FromReals(FhtOutput(Reals(Numbers(values)), libm)))
  }

  /** Every real `Complex`: the first non-real index is the length. */
  lemma AllRealFirstNonReal(values: seq<Value>)
    requires forall j :: 0 <= j < |values| ==> IsReal(values[j])
    ensures FirstNonReal(values) == |values| && AllComplex(values)
  {
  }

  /**
   * `prepare_fht` with the ladder guarded: `hartley_validate`, then the
   * power-of-two test the ladder needs, then the real parts copied into a
   * fresh row and transformed.
   */
  method PrepareFht(values: seq<Value>, libm: Libm) returns (r: Result<seq<Complex>>)
    requires |values| == 0 || libm.sqrt(|values| as real) != 0.0
    ensures r == FhtOf(values, libm)
  {
    var checked := HartleyValidate(values);
    if checked.Err? {
      return Err(checked.error);
    }
    var length := |values|;
    if length >= 1 {
      PowerOfTwoTest(length);
    }
    if length > 0 && And(length, length - 1) != 0 {
      return Err(ArgumentError(PowerOfTwoMessage));
    }
    AllRealFirstNonReal(values);
    var transformed := new real[length];
    var i := 0;
    while i < length
      invariant i <= length
      invariant forall m :: 0 <= m < i ==> transformed[m] == values[m].z.re
    {
      transformed[i] := values[i].z.re;
      i := i + 1;
    }
    assert transformed[..] == Reals(Numbers(values));
    var output := PerformFht(transformed, libm);
    return Ok(output);
  }

  /** Real numbers as Ruby values. */
  function WrapReals(v: seq<real>): (values: seq<Value>)
    ensures |values| == |v| && forall j :: 0 <= j < |v| ==> IsReal(values[j])
    ensures AllComplex(values) && Reals(Numbers(values)) == v
  {
    Wrap(FromReals(v))
  }

  /** On four real values, with `sqrt(4) == 2`, `fht` applied twice gives the values back. */
  lemma FhtInvolutionFour(v: seq<real>, libm: Libm)
    requires |v| == 4 && libm.sqrt(4.0) == 2.0
    ensures FhtOf(WrapReals(v), libm).Ok?
    ensures FhtOf(WrapReals(v), libm).value == FromReals(FhtOutput(v, libm))
    ensures FhtOf(Wrap(FhtOf(WrapReals(v), libm).value), libm) == Ok(FromReals(v))
  {
    Pow2IsPowerOfTwo(2);
    AllRealFirstNonReal(WrapReals(v));
    var y := FhtOutput(v, libm);
    assert Wrap(FromReals(y)) == WrapReals(y);
    AllRealFirstNonReal(WrapReals(y));
    OutputInvolutionFour(v, libm);
  }

  /** The example `[2, 1, 1, 2]`: `fht` gives `[3, 0, 0, 1]`. */
  lemma FhtExample(libm: Libm)
    requires libm.sqrt(4.0) == 2.0
    ensures FhtOf(WrapReals([2.0, 1.0, 1.0, 2.0]), libm) == Ok(FromReals([3.0, 0.0, 0.0, 1.0]))
  {
    var v := [2.0, 1.0, 1.0, 2.0];
    Pow2IsPowerOfTwo(2);
    AllRealFirstNonReal(WrapReals(v));
    FhtOfFour(v, TableFor(libm, 4));
    assert FhtOutput(v, libm) == [3.0, 0.0, 0.0, 1.0];
  }

  /** Six real values pass `hartley_validate`, and are refused before the ladder. */
  lemma FhtRejectsSix(v: seq<real>, libm: Libm)
    requires |v| == 6 && libm.sqrt(6.0) != 0.0
    ensures FhtOf(WrapReals(v), libm) == Err(ArgumentError(PowerOfTwoMessage))
  {
    AllRealFirstNonReal(WrapReals(v));
    assert !IsPowerOfTwo(3);
  }

  // ---------------------------------------------------------------------
  // switch_quarters.

  /**
   * `switch_quarters`: a ragged grid raises an `ArgumentError`; otherwise
   * a copy of the grid has its quadrants exchanged by the two swap passes.
   */
  method SwitchQuarters<T>(input: seq<seq<T>>) returns (r: Result<seq<seq<T>>>)
    ensures r.Ok? <==> Rectangular(input)
    ensures r.Ok? ==> r.value == Quartered(input)
    ensures r.Err? ==> r.error == ArgumentError(SameSizeMessage)
  {
    var lengthY := |input|;
    var lengthX := if lengthY == 0 then 0 else |input[0]|;
    var i := 1;
    while i < lengthY
      invariant i >= 1 && forall m :: 0 <= m < i && m < lengthY ==> |input[m]| == lengthX
    {
      if lengthX != |input[i]| {
        return Err(ArgumentError(SameSizeMessage));
      }
      i := i + 1;
    }
    assert Rectangular(input) && Width(input) == lengthX;
    var temp := FirstPass(input);
    ShapedIsRectangular(temp, lengthY, lengthX);
    temp := SecondPass(temp);
    return Ok(temp);
  }

  /**
   * The body of the inner swap loops: top cell `(j, i)` and cell
   * `(j + H/2, partner)` exchange their values through a temporary.
   */
  method ExchangeCells<T>(temp: seq<seq<T>>, j: nat, i: nat, partner: nat,
                          ghost input: seq<seq<T>>, ghost lo: nat, ghost hi: nat, ghost d: int)
    returns (next: seq<seq<T>>)
    requires ExchangeFits(input, lo, hi, d) && lo <= i < hi && j < |input| / 2 && partner == i + d
    requires temp == Partial(input, lo, hi, d, i, j)
    ensures next == Partial(input, lo, hi, d, i, j + 1)
  {
    PartialStep(input, lo, hi, d, i, j);
    var hy := |temp| / 2;
    var cell := temp[j][i];
    next := temp[j := temp[j][i := temp[j + hy][partner]]];
    next := next[j + hy := next[j + hy][partner := cell]];
  }

  /** The first swap loops: columns `0 .. W/2 - 1`, rows `0 .. H/2 - 1`, partner `(j + H/2, i + W/2)`. */
  method FirstPass<T>(input: seq<seq<T>>) returns (temp: seq<seq<T>>)
    requires Rectangular(input)
    ensures temp == Pass1(input)
  {
    var hx, hy := Width(input) / 2, |input| / 2;
    temp := input;
    PartialStart(input, 0, hx, hx);
    var i := 0;
    while i < hx
      invariant i <= hx && temp == Partial(input, 0, hx, hx, i, 0)
    {
      var j := 0;
      while j < hy
        invariant j <= hy && temp == Partial(input, 0, hx, hx, i, j)
      {
        temp := ExchangeCells(temp, j, i, i + hx, input, 0, hx, hx);
        j := j + 1;
      }
      PartialColumnDone(input, 0, hx, hx, i);
      i := i + 1;
    }
    Pass1Loops(input);
  }

  /** The second swap loops: columns `W/2 .. W - 1`, rows `0 .. H/2 - 1`, partner `(j + H/2, i - W/2)`. */
  method SecondPass<T>(input: seq<seq<T>>) returns (temp: seq<seq<T>>)
    requires Rectangular(input)
    ensures temp == Pass2(input)
  {
    var lengthX := Width(input);
    var hx, hy := lengthX / 2, |input| / 2;
    var d: int := -(hx as int);
    temp := input;
    PartialStart(input, hx, lengthX, d);
    var i := hx;
    while i < lengthX
      invariant hx <= i <= lengthX && temp == Partial(input, hx, lengthX, d, i, 0)
    {
      var j := 0;
      while j < hy
        invariant j <= hy && temp == Partial(input, hx, lengthX, d, i, j)
      {
        temp := ExchangeCells(temp, j, i, i - hx, input, hx, lengthX, d);
        j := j + 1;
      }
      PartialColumnDone(input, hx, lengthX, d, i);
      i := i + 1;
    }
    Pass2Loops(input);
  }
}
