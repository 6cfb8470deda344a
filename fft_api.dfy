/**
 * The `FFTAPI` extension (`ext/fft_api.c`): the same radix-2 kernel as the
 * `fft` extension, but taking and returning the transform as two rows, the
 * real parts and the imaginary parts, and answering `nil` instead of raising
 * when the input has the wrong shape.
 */
module FftApi {
  import opened Bits
  import opened ComplexNumbers
  import opened RubyValues
  import opened FftSpec
  import opened FftKernel
  import FT = FrequencyTransformations

  /**
   * `validate`: exactly two rows, of the same length, and that length a
   * power of two no smaller than 2, tested with `length & (length - 1)`.
   */
  function Validate(rows: seq<seq<real>>): (ok: bool)
    ensures ok <==> |rows| == 2 && |rows[0]| == |rows[1]| && |rows[0]| >= 2 && IsPowerOfTwo(|rows[0]|)
  {
    if |rows| != 2 then false
    else if |rows[0]| != |rows[1]| then false
    else
      var length := |rows[0]|;
      if length < 2 then false
      else
        PowerOfTwoTest(length);
        And(length, length - 1) == 0
  }

  /**
   * What `fft` (`direction == 1`) and `rfft` (`direction == -1`) answer:
   * `nil` for a rejected shape, otherwise the two rows of the transform.
   */
  function RowsFft(rows: seq<seq<real>>, direction: int, libm: Libm): Option<seq<seq<real>>>
  {
    if !Validate(rows) then None
    else
      var y := Fft(Pairs(rows[0], rows[1]), direction, TrigMultipliers(libm, direction));
      Some([Reals(y), Imags(y)])
  }

  /**
   * `perform_fft`: the in-place kernel (bit reversal, butterflies, scaling of
   * the inverse) on the two rows, then the rows copied into a fresh pair.
   */
  method PerformFft(re: array<real>, im: array<real>, direction: int, libm: Libm) returns (output: seq<seq<real>>)
    requires re != im && re.Length == im.Length && IsPowerOfTwo(re.Length)
    modifies re, im
    ensures var y := Fft(Pairs(old(re[..]), old(im[..])), direction, TrigMultipliers(libm, direction));
            output == [Reals(y), Imags(y)]
  {
    Transform(re, im, direction, libm);
    var xs, ys := [], [];
    var i := 0;
    while i < re.Length
      invariant i <= re.Length && xs == re[..i] && ys == im[..i]
    {
      xs := xs + [re[i]];
      ys := ys + [im[i]];
      i := i + 1;
    }
    assert xs == re[..] && ys == im[..];
    assert Reals(Pairs(re[..], im[..])) == xs;
    assert Imags(Pairs(re[..], im[..])) == ys;
    output := [xs, ys];
  }

  /** `prepare_fft`: `nil` for a rejected shape, otherwise copy both rows into arrays and transform. */
  method PrepareFft(rows: seq<seq<real>>, direction: int, libm: Libm) returns (r: Option<seq<seq<real>>>)
    ensures r == RowsFft(rows, direction, libm)
  {
    if !Validate(rows) {
      return None;
    }
    var length := |rows[0]|;
    var re := new real[length];
    var im := new real[length];
    var i := 0;
    while i < length
      invariant i <= length
      invariant forall m :: 0 <= m < i ==> re[m] == rows[0][m] && im[m] == rows[1][m]
    {
      re[i] := rows[0][i];
      im[i] := rows[1][i];
      i := i + 1;
    }
    assert re[..] == rows[0] && im[..] == rows[1];
    var output := PerformFft(re, im, direction, libm);
    return Some(output);
  }

  /** An answer that is not `nil` is itself a pair of rows that `validate` accepts, of the input's length. */
  lemma RowsFftAcceptsItsOutput(rows: seq<seq<real>>, direction: int, libm: Libm)
    requires RowsFft(rows, direction, libm).Some?
    ensures var out := RowsFft(rows, direction, libm).value;
            Validate(out) && |out[0]| == |rows[0]|
  {
  }

  /**
   * The two-row interface agrees with the array-of-complex interface of the
   * `fft` extension: it answers `nil` exactly where that one raises, and
   * otherwise the rows of the same transform.
   */
  lemma {:induction false} RowsAgreeWithValues(zs: seq<Complex>, direction: int, libm: Libm)
    ensures var rows := RowsFft([Reals(zs), Imags(zs)], direction, libm);
            var values := FT.FftOf(FT.Wrap(zs), direction, libm);
            (rows.None? <==> values.Err?) &&
            (values.Ok? ==> rows == Some([Reals(values.value), Imags(values.value)]))
  {
    PairsOfParts(zs);
  }

  /** On rows of two points `rfft` undoes `fft`. */
  lemma RowsRoundTripTwo(rows: seq<seq<real>>, libm: Libm)
    requires |rows| == 2 && |rows[0]| == 2 && |rows[1]| == 2
    ensures RowsFft(rows, 1, libm).Some?
    ensures RowsFft(RowsFft(rows, 1, libm).value, -1, libm) == Some(rows)
  {
    Pow2IsPowerOfTwo(1);
    var x := Pairs(rows[0], rows[1]);
    var y := Fft(x, 1, TrigMultipliers(libm, 1));
    PairsOfParts(y);
    FftRoundTripTwo(x, TrigMultipliers(libm, 1), TrigMultipliers(libm, -1));
    assert Reals(x) == rows[0] && Imags(x) == rows[1];
    var out := [Reals(y), Imags(y)];
    assert RowsFft(rows, 1, libm) == Some(out);
    assert Pairs(out[0], out[1]) == y;
    assert rows == [rows[0], rows[1]];
  }
}
