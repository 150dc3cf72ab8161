/**
 The slice of ECMAScript Number semantics the point game relies on: the
 truthiness test of its input guard, and the way `Array.from({length: n})`
 turns a Number into an array length (the ToLength abstract operation of
 ECMA-262, followed by the `Array(len)` constructor, which throws a
 RangeError for lengths that do not fit in an unsigned 32-bit integer).

 A Number is modelled as NaN, one of the two infinities, or a finite real.
 The finite doubles are a subset of the reals; the rounding performed when
 the input text is parsed is not part of this model.
 */
module JsNumbers {

  datatype Number = NaN | PosInfinity | NegInfinity | Finite(value: real)

  /** Number.MAX_SAFE_INTEGER, 2^53 - 1: the upper clamp of ToLength. */
  const MaxSafeInteger: int := 0x1F_FFFF_FFFF_FFFF

  /** 2^32 - 1: the largest length `Array(len)` accepts without a RangeError. */
  const MaxArrayLength: int := 0xFFFF_FFFF

  /** ToBoolean on a Number: false exactly for NaN, +0 and -0. */
  predicate Truthy(n: Number) {
    match n
    case NaN => false
    case Finite(v) => v != 0.0
    case _ => true
  }

  /** ToLength: truncate toward zero (ToIntegerOrInfinity), then clamp into
      [0, 2^53 - 1]. NaN and every value below 1 give 0. */
  function ToLength(n: Number): (len: nat)
    ensures len <= MaxSafeInteger
    ensures n.Finite? && 0.0 <= n.value < MaxSafeInteger as real ==>
              len as real <= n.value < len as real + 1.0
    ensures n.Finite? && n.value < 1.0 ==> len == 0
    ensures n.Finite? && MaxSafeInteger as real <= n.value ==> len == MaxSafeInteger
    ensures n.NaN? || n.NegInfinity? ==> len == 0
    ensures n.PosInfinity? ==> len == MaxSafeInteger
  {
    match n
    case NaN => 0
    case NegInfinity => 0
    case PosInfinity => MaxSafeInteger
    case Finite(v) =>
      if v <= 0.0 then 0
      else if v.Floor > MaxSafeInteger then MaxSafeInteger
      else v.Floor
  }

  /** Whether `Array(len)` accepts `len` instead of throwing a RangeError. */
  predicate ArrayLengthOk(len: nat) {
    len <= MaxArrayLength
  }
}
