/**
 * What the C extension sees of its Ruby arguments, and how it fails.
 *
 * Ruby exceptions become `Err` results; `nil` becomes `None`.
 */
module RubyValues {
  import opened ComplexNumbers

  /** An element of the input array: a `Complex` (with its parts as numbers) or anything else. */
  datatype Value = ComplexValue(z: Complex) | OtherValue

  /** The two exception classes the extension raises. */
  datatype Error = TypeError | ArgumentError(message: string)

  datatype Result<T> = Ok(value: T) | Err(error: Error)

  datatype Option<T> = None | Some(value: T)

  const PowerOfTwoMessage := "expected to have size being a power of 2"
  const RealValuesMessage := "expected to have arguments with imag equal 0.0"
  const EvenSizeMessage := "expected to have size being a multiplication of 2"
  const SameSizeMessage := "expected an array of arrays with the same size"

  /** Every element is a `Complex`. */
  predicate AllComplex(values: seq<Value>)
  {
    forall i :: 0 <= i < |values| ==> values[i].ComplexValue?
  }

  /** The parts of a sequence of `Complex` elements. */
  function Numbers(values: seq<Value>): (zs: seq<Complex>)
    requires AllComplex(values)
    ensures |zs| == |values|
    ensures forall i :: 0 <= i < |values| ==> values[i] == ComplexValue(zs[i])
  {
    seq(|values|, i requires 0 <= i < |values| => values[i].z)
  }
}
