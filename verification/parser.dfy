/** `FloatLiteral::from_bytes`: the grammar stage reads an optional sign,
    the `0x`/`0X` prefix, the integer digits, an optional point and fraction
    digits, and an optional binary exponent, then insists on the end of the
    input; the normalization stage turns the digits into a `FloatLiteral`.

    The source walks the input by re-slicing it and recovers error positions
    by pointer difference (`get_cursed_index`); here every step works on the
    original input and a position in it, so that difference is the position
    itself. */
module Parser {
  import opened Wrappers
  import opened Bytes
  import opened ParseUtils
  import opened Literals
  import opened Numeric
  import opened Normalization

  /** Inputs shorter than this keep `ipart.len() as i32` and
      `first_digit as i32` exact. */
  const MAX_INPUT_LENGTH: nat := 0x8000_0000

  /** Number of bytes taken by the optional leading `+` or `-`. */
  function SignLength(data: seq<byte>): (n: nat)
    ensures n <= 1 && n <= |data|
    ensures n == 1 <==> |data| > 0 && IsSign(data[0])
  {
    if |data| > 0 && IsSign(data[0]) then 1 else 0
  }

  /** `data.get(at..at + 2)` is `0x` or `0X`. */
  function HasPrefixAt(data: seq<byte>, at: nat): (r: bool)
    ensures r <==> at + 2 <= |data| && data[at..at + 2] in {[ZERO, LOWER_X], [ZERO, UPPER_X]}
  {
    if at + 2 <= |data| then
      assert data[at..at + 2] == [data[at], data[at + 1]];
      data[at] == ZERO && IsHexMarker(data[at + 1])
    else
      false
  }

  /** The two `consume_hex_digits` runs of the significand: digits in
      `[intStart, intEnd)`, then, when `point`, a `.` at `intEnd` and digits in
      `[fracStart, fracEnd)`. Scanning stopped at `fracEnd`. */
  datatype Runs = Runs(intStart: nat, intEnd: nat, point: bool, fracStart: nat, fracEnd: nat)

  /** Reads the digit runs of the significand starting at `start`, just after
      the prefix. */
  function ScanRuns(data: seq<byte>, start: nat): (r: Runs)
    requires start <= |data|
    ensures r.intStart == start <= r.intEnd <= r.fracStart <= r.fracEnd <= |data|
    ensures forall i :: r.intStart <= i < r.intEnd ==> IsHexDigit(data[i])
    ensures r.intEnd == |data| || !IsHexDigit(data[r.intEnd])
    ensures r.point <==> r.intEnd < |data| && data[r.intEnd] == POINT
    ensures r.point ==> r.fracStart == r.intEnd + 1
    ensures r.point ==> forall i :: r.fracStart <= i < r.fracEnd ==> IsHexDigit(data[i])
    ensures r.point ==> r.fracEnd == |data| || !IsHexDigit(data[r.fracEnd])
    ensures !r.point ==> r.fracStart == r.fracEnd == r.intEnd
    ensures AllHexDigits(data[r.intStart..r.intEnd]) && AllHexDigits(data[r.fracStart..r.fracEnd])
  {
    var intEnd := RunEnd(data, start, Hex);
    if intEnd < |data| && data[intEnd] == POINT then
      Runs(start, intEnd, true, intEnd + 1, RunEnd(data, intEnd + 1, Hex))
    else
      Runs(start, intEnd, false, intEnd, intEnd)
  }

  /** The optional binary exponent, looked for at `at`. Without a `p`/`P`
      there the exponent is 0 and nothing is consumed. After the marker come
      an optional sign and the decimal digits; no digits is `MissingExponent`
      and digits whose signed value does not fit an `i32` are
      `ExponentOverflow`, both reported just after the marker. On success the
      result holds the exponent and the position after its last digit. */
  function ParseExponent(data: seq<byte>, at: nat): (r: Result<(i32, nat), ParseError>)
    requires at <= |data|
    ensures r.Success? ==> at <= r.value.1 <= |data|
    ensures r.Failure? ==> r.error.index == at + 1 <= |data|
    ensures r.Failure? ==> r.error.kind == MissingExponent || r.error.kind == ExponentOverflow
    ensures (at == |data| || !IsExponentMarker(data[at])) <==> r == Success((0, at))
  {
    if at < |data| && IsExponentMarker(data[at]) then
      var signStart := at + 1;
      var digitsStart := if signStart < |data| && IsSign(data[signStart]) then signStart + 1 else signStart;
      var digitsEnd := RunEnd(data, digitsStart, Dec);
      if digitsEnd == digitsStart then
        Failure(MissingExponent.At(signStart))
      else
        match ParseI32(data[signStart..digitsEnd])
        case None => Failure(ExponentOverflow.At(signStart))
        case Some(exponent) => Success((exponent, digitsEnd))
    else
      Success((0, at))
  }

  /** The normalization stage of `from_bytes`: the literal with the given
      sign and exponent whose digits and `decimal_offset` are those of
      `Normalize`. */
  function MakeLiteral(isPositive: bool, ipart: seq<byte>, fpart: seq<byte>, exponent: i32): (lit: FloatLiteral)
    requires AllHexDigits(ipart) && AllHexDigits(fpart)
    requires |ipart| + |fpart| < MAX_INPUT_LENGTH
    ensures Canonical(lit)
    ensures lit.isPositive == isPositive && lit.exponent == exponent
    ensures DigitsValue(lit.digits, lit.decimalOffset as int) == FixedPointValue(ToNibbles(ipart), ToNibbles(fpart))
  {
    var (digits, offset) := Normalize(ipart, fpart);
    FloatLiteral(isPositive, digits, offset as i32, exponent)
  }

  /** What `from_bytes` does once the significand has been read and found
      to have digits: the optional exponent at `at`, the end-of-input check,
      and the normalization. */
  function ParseAfterSignificand(data: seq<byte>, isPositive: bool, ipart: seq<byte>, fpart: seq<byte>, at: nat)
    : (r: Result<FloatLiteral, ParseError>)
    requires at <= |data| < MAX_INPUT_LENGTH
    requires AllHexDigits(ipart) && AllHexDigits(fpart) && |ipart| + |fpart| <= |data|
    ensures r.Success? ==> Canonical(r.value) && r.value.isPositive == isPositive
    ensures r.Success? ==> DigitsValue(r.value.digits, r.value.decimalOffset as int)
                           == FixedPointValue(ToNibbles(ipart), ToNibbles(fpart))
    ensures r.Failure? ==> at <= r.error.index <= |data|
    ensures r.Failure? ==> r.error.kind in {MissingExponent, ExponentOverflow, MissingEnd}
    ensures r.Failure? && r.error.kind == MissingEnd ==> r.error.index < |data|
  {
    match ParseExponent(data, at)
    case Failure(e) => Failure(e)
    case Success((exponent, end)) =>
      if end < |data| then
        Failure(MissingEnd.At(end))
      else
        Success(MakeLiteral(isPositive, ipart, fpart, exponent))
  }

  /** `FloatLiteral::from_bytes`. */
  function FromBytes(data: seq<byte>): (r: Result<FloatLiteral, ParseError>)
    requires |data| < MAX_INPUT_LENGTH
    ensures r.Success? ==> Canonical(r.value)
    ensures r.Success? ==> (r.value.isPositive <==> !(|data| > 0 && data[0] == MINUS))
    ensures r.Failure? ==> r.error.index <= |data|
    ensures r.Failure? && r.error.kind == MissingPrefix ==> r.error.index == 0
    ensures r.Failure? && r.error.kind == MissingEnd ==> r.error.index < |data|
  {
    var isPositive := !(|data| > 0 && data[0] == MINUS);
    var start := SignLength(data);
    if !HasPrefixAt(data, start) then
      Failure(MissingPrefix.At(0))
    else
      var runs := ScanRuns(data, start + 2);
      if runs.intStart == runs.intEnd && runs.fracStart == runs.fracEnd then
        Failure(MissingDigits.At(runs.fracEnd))
      else
        ParseAfterSignificand(data, isPositive, data[runs.intStart..runs.intEnd],
                              data[runs.fracStart..runs.fracEnd], runs.fracEnd)
  }
}
