/** The language `from_bytes` accepts, written as syntax: the
    `hexadecimal-floating-constant` of section 6.4.4.2 of the C11 standard
    (ISO/IEC 9899:2011) preceded by an optional sign, with the binary
    exponent optional and no floating suffix, as src/lib.rs:25-28 documents.

    A literal text is a tree of its parts; `Render` spells it out as bytes.
    The parser is related to this description, not to its own steps, in
    the `ParserCorrectness` module. */
module Grammar {
  import opened Wrappers
  import opened Bytes
  import opened ParseUtils
  import opened Numeric
  import opened Literals

  datatype Sign = NoSign | Plus | Minus

  function SignText(s: Sign): seq<byte> {
    match s
    case NoSign => []
    case Plus => [PLUS]
    case Minus => [MINUS]
  }

  /** The part before the exponent: optional sign, `0x` or `0X`, integer
      digits, and, when `point` is set, a `.` followed by fraction digits. */
  datatype Significand = Significand(sign: Sign, upperX: bool, ipart: seq<byte>, point: bool, fpart: seq<byte>)

  /** `p` or `P`, an optional sign, and decimal digits. */
  datatype BinaryExponent = BinaryExponent(upperP: bool, sign: Sign, digits: seq<byte>)

  datatype LiteralText = LiteralText(significand: Significand, exponent: Option<BinaryExponent>)

  function PrefixText(upperX: bool): seq<byte> {
    [ZERO, if upperX then UPPER_X else LOWER_X]
  }

  function PointText(point: bool): seq<byte> {
    if point then [POINT] else []
  }

  function MarkerText(upperP: bool): seq<byte> {
    [if upperP then UPPER_P else LOWER_P]
  }

  function RenderSignificand(m: Significand): seq<byte> {
    SignText(m.sign) + PrefixText(m.upperX) + m.ipart + PointText(m.point) + m.fpart
  }

  function RenderExponent(e: BinaryExponent): seq<byte> {
    MarkerText(e.upperP) + SignText(e.sign) + e.digits
  }

  function Render(t: LiteralText): seq<byte> {
    RenderSignificand(t.significand)
      + match t.exponent
        case None => []
        case Some(e) => RenderExponent(e)
  }

  /** The digit runs are hexadecimal, and fraction digits come only after a
      point. The runs may both be empty here; `HasDigits` is separate because
      the parser reports its absence on its own. */
  predicate SignificandShaped(m: Significand) {
    AllHexDigits(m.ipart) && AllHexDigits(m.fpart) && (m.point || m.fpart == [])
  }

  predicate HasDigits(m: Significand) {
    |m.ipart| + |m.fpart| > 0
  }

  function ExponentValue(e: BinaryExponent): int
    requires AllDecimalDigits(e.digits)
  {
    if e.sign == Minus then -(DecimalValue(e.digits) as int) else DecimalValue(e.digits)
  }

  predicate ExponentShaped(e: BinaryExponent) {
    |e.digits| > 0 && AllDecimalDigits(e.digits)
  }

  /** A complete literal of the accepted language. */
  predicate WellFormed(t: LiteralText) {
    && SignificandShaped(t.significand)
    && HasDigits(t.significand)
    && (t.exponent.Some? ==> ExponentShaped(t.exponent.value) && InI32(ExponentValue(t.exponent.value)))
  }

  /** The binary exponent the text states, 0 when it has none. */
  function TextExponent(t: LiteralText): int
    requires WellFormed(t)
  {
    match t.exponent
    case None => 0
    case Some(e) => ExponentValue(e)
  }

  /** The significand's digits read in base 16, ignoring the sign. */
  function Magnitude(m: Significand): real
    requires SignificandShaped(m)
  {
    FixedPointValue(ToNibbles(m.ipart), ToNibbles(m.fpart))
  }

  /** The number the text stands for. */
  function TextValue(t: LiteralText): real
    requires WellFormed(t)
  {
    SignedScaled(t.significand.sign != Minus, Magnitude(t.significand), TextExponent(t))
  }

  /** `lit` is the normalized form of the text `t`: same sign and exponent,
      canonical digits, and the same magnitude. */
  predicate Denotes(t: LiteralText, lit: FloatLiteral)
    requires WellFormed(t)
  {
    && lit.isPositive == (t.significand.sign != Minus)
    && lit.exponent as int == TextExponent(t)
    && Canonical(lit)
    && DigitsValue(lit.digits, lit.decimalOffset as int) == Magnitude(t.significand)
  }

  /** `data` begins with `p`. */
  predicate StartsWith(data: seq<byte>, p: seq<byte>) {
    |p| <= |data| && data[..|p|] == p
  }

  /** A byte that would extend the significand `m`: another hexadecimal
      digit, or a point when `m` has none yet. */
  predicate ExtendsSignificand(m: Significand, b: byte) {
    IsHexDigit(b) || (!m.point && b == POINT)
  }

  /** `data` begins with the significand `m`, and the byte after it (if any)
      does not extend it. */
  predicate SignificandPrefix(data: seq<byte>, m: Significand) {
    var n := |RenderSignificand(m)|;
    && SignificandShaped(m)
    && StartsWith(data, RenderSignificand(m))
    && (n == |data| || !ExtendsSignificand(m, data[n]))
  }

  /** From position `at`, `data` spells the exponent marker, sign and digits
      of `e`, the digits possibly none; the byte after them is no digit, and
      when `e` has neither sign nor digits, no sign either. */
  predicate ExponentPrefix(data: seq<byte>, at: nat, e: BinaryExponent) {
    var n := at + |RenderExponent(e)|;
    && at <= |data|
    && AllDecimalDigits(e.digits)
    && StartsWith(data[at..], RenderExponent(e))
    && (n == |data| || !IsDecimalDigit(data[n]))
    && (e.sign == NoSign && e.digits == [] ==> n == |data| || !IsSign(data[n]))
  }

  /** A byte that would extend the complete literal `t`: more exponent digits,
      or anything that extends a significand with no exponent, including the
      exponent marker. */
  predicate ExtendsLiteral(t: LiteralText, b: byte) {
    match t.exponent
    case Some(_) => IsDecimalDigit(b)
    case None => ExtendsSignificand(t.significand, b) || IsExponentMarker(b)
  }
}
