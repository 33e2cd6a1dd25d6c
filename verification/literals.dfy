/** The values `FloatLiteral::from_bytes` produces: the normalized literal,
    the structured parse error, and the precision-tagged conversion outcome. */
module Literals {
  import opened Bytes
  import opened Numeric

  /** `ParseErrorKind`: what the parser found missing or in excess. */
  datatype ParseErrorKind =
    | MissingPrefix
    | MissingDigits
    | MissingExponent
    | ExponentOverflow
    | MissingEnd
  {
    /** `ParseErrorKind::at` */
    function At(index: nat): ParseError {
      ParseError(this, index)
    }
  }

  /** `ParseError`: a kind and the byte index in the input where the defect
      was detected (the input length when the input ended too early). */
  datatype ParseError = ParseError(kind: ParseErrorKind, index: nat)

  /** `FloatLiteral`: the sign, the significant hexadecimal digits as nibble
      values, the position of the first digit relative to the hexadecimal
      point, and the binary exponent. */
  datatype FloatLiteral = FloatLiteral(
    isPositive: bool,
    digits: seq<byte>,
    decimalOffset: i32,
    exponent: i32)

  /** Every entry is a nibble and there is no leading or trailing zero
      nibble. */
  predicate Trimmed(digits: seq<byte>) {
    && (forall i :: 0 <= i < |digits| ==> digits[i] < 16)
    && (|digits| > 0 ==> digits[0] != 0 && digits[|digits| - 1] != 0)
  }

  /** The normal form the parser promises: trimmed digits, and zero written
      with no digits and offset 0. */
  predicate Canonical(lit: FloatLiteral) {
    Trimmed(lit.digits) && (|lit.digits| == 0 ==> lit.decimalOffset == 0)
  }

  /** The number a literal stands for:
      ± Σ digits[i]·16^(decimalOffset−1−i) · 2^exponent. */
  function Value(lit: FloatLiteral): real {
    SignedScaled(lit.isPositive, DigitsValue(lit.digits, lit.decimalOffset as int), lit.exponent as int)
  }

  /** In normal form, zero is written with no digits and only zero is: the
      empty digit sequence is the one canonical spelling of zero. */
  lemma CanonicalValueZero(lit: FloatLiteral)
    requires Canonical(lit)
    ensures Value(lit) == 0.0 <==> lit.digits == []
  {
    var m := DigitsValue(lit.digits, lit.decimalOffset as int);
    var s := Scale2(lit.exponent as int);
    Scale2Positive(lit.exponent as int);
    if lit.digits != [] {
      DigitsValuePositive(lit.digits, lit.decimalOffset as int);
      assert m * s > 0.0;
    }
  }

  /** `ConversionResult`: a converted value, tagged with whether it is exact. */
  datatype ConversionResult<T> = Precise(T) | Imprecise(T)
  {
    /** `ConversionResult::inner`: the value, whatever its tag. */
    function Inner(): (r: T)
      ensures this == Precise(r) || this == Imprecise(r)
    {
      match this
      case Precise(f) => f
      case Imprecise(f) => f
    }
  }
}
