/** The scanning helpers `FloatLiteral::from_bytes` relies on: the digit-run
    scanner behind `consume_hex_digits` and the exponent's digit search,
    `hex_digit_to_int`, and the standard library's `i32` parse that reads the
    exponent text. */
module ParseUtils {
  import opened Wrappers
  import opened Bytes

  /** `hex_digit_to_int`: the value of a hexadecimal digit, either case;
      `None` for any other byte. */
  function HexDigitToInt(b: byte): (r: Option<byte>)
    ensures r.Some? <==> IsHexDigit(b)
    ensures r.Some? ==> r.value < 16
    ensures r == Some(0) <==> b == ZERO
  {
    if ZERO <= b <= NINE then Some(b - ZERO)
    else if UPPER_A <= b <= UPPER_F then Some(b - UPPER_A + 10)
    else if LOWER_A <= b <= LOWER_F then Some(b - LOWER_A + 10)
    else None
  }

  /** The hexadecimal digit that spells nibble `n`, in the chosen case. */
  function NibbleToHexDigit(n: byte, upper: bool): (b: byte)
    requires n < 16
    ensures IsHexDigit(b)
  {
    if n < 10 then ZERO + n
    else if upper then UPPER_A + (n - 10)
    else LOWER_A + (n - 10)
  }

  /** Reading back a spelled nibble gives the nibble, and every hexadecimal
      digit is the spelling of its value in one of the two cases. */
  lemma HexDigitRoundTrip(n: byte, upper: bool, b: byte)
    requires n < 16
    ensures HexDigitToInt(NibbleToHexDigit(n, upper)) == Some(n)
    ensures IsHexDigit(b) ==>
              b == NibbleToHexDigit(HexDigitToInt(b).value, false)
              || b == NibbleToHexDigit(HexDigitToInt(b).value, true)
  {
  }

  /** The nibble values of a run of hexadecimal digits: `hex_digit_to_int`
      applied to each, which cannot fail on such a run. */
  function ToNibbles(text: seq<byte>): (ds: seq<byte>)
    requires AllHexDigits(text)
    ensures |ds| == |text|
    ensures forall i :: 0 <= i < |text| ==> HexDigitToInt(text[i]) == Some(ds[i])
  {
    seq(|text|, i requires 0 <= i < |text| => HexDigitToInt(text[i]).value)
  }

  /** The two kinds of digit run the parser consumes. */
  datatype DigitKind = Hex | Dec

  predicate IsDigitOf(kind: DigitKind, b: byte) {
    match kind
    case Hex => IsHexDigit(b)
    case Dec => IsDecimalDigit(b)
  }

  /** End of the longest run of `kind` digits that starts at `from`. For
      `Hex` this is `consume_hex_digits`; for `Dec` it is the exponent's
      `position(..).unwrap_or(len)`. */
  function RunEnd(data: seq<byte>, from: nat, kind: DigitKind): (end: nat)
    requires from <= |data|
    ensures from <= end <= |data|
    ensures forall i :: from <= i < end ==> IsDigitOf(kind, data[i])
    ensures end == |data| || !IsDigitOf(kind, data[end])
    decreases |data| - from
  {
    if from < |data| && IsDigitOf(kind, data[from]) then RunEnd(data, from + 1, kind) else from
  }

  /** A run is determined by where it starts: any position that ends a run
      of `kind` digits from `from` is the one `RunEnd` finds. */
  lemma RunEndIsUnique(data: seq<byte>, from: nat, kind: DigitKind, end: nat)
    requires from <= end <= |data|
    requires forall i :: from <= i < end ==> IsDigitOf(kind, data[i])
    requires end == |data| || !IsDigitOf(kind, data[end])
    ensures RunEnd(data, from, kind) == end
  {
  }

  /** The value of a run of decimal digits, most significant first. */
  function DecimalValue(digits: seq<byte>): nat
    requires AllDecimalDigits(digits)
  {
    if |digits| == 0 then 0
    else DecimalValue(digits[..|digits| - 1]) * 10 + (digits[|digits| - 1] - ZERO) as nat
  }

  /** The shortest decimal spelling of `n`. */
  function DecimalText(n: nat): (digits: seq<byte>)
    ensures |digits| > 0
    ensures AllDecimalDigits(digits)
  {
    (if n < 10 then [] else DecimalText(n / 10)) + [ZERO + (n % 10) as byte]
  }

  lemma {:induction false} DecimalTextRoundTrip(n: nat)
    ensures DecimalValue(DecimalText(n)) == n
  {
    var digits := DecimalText(n);
    var front := if n < 10 then [] else DecimalText(n / 10);
    var last := ZERO + (n % 10) as byte;
    assert digits == front + [last];
    assert digits[..|digits| - 1] == front;
    assert (last - ZERO) as nat == n % 10;
    if n >= 10 {
      DecimalTextRoundTrip(n / 10);
      assert DecimalValue(front) == n / 10;
    } else {
      assert DecimalValue(front) == 0;
    }
    assert DecimalValue(digits) == DecimalValue(front) * 10 + n % 10;
  }

  /** `<i32 as FromStr>::from_str`: an optional `+` or `-`, then one or more
      decimal digits whose signed value fits in an `i32`. Anything else is an
      error, which is `None` here. A leading `-` gives a value of at most 0,
      any other accepted text one of at least 0; `ParseI32Exact` gives the
      value itself. */
  function ParseI32(text: seq<byte>): (r: Option<i32>)
    ensures r.Some? ==> |text| > 0 && (IsSign(text[0]) || IsDecimalDigit(text[0]))
    ensures r.Some? ==> |text| > 1 || !IsSign(text[0])
    ensures r.Some? ==> AllDecimalDigits(text[1..])
    ensures r.Some? && text[0] == MINUS ==> r.value <= 0
    ensures r.Some? && text[0] != MINUS ==> r.value >= 0
  {
    if |text| == 0 then None
    else
      var digits := if IsSign(text[0]) then text[1..] else text;
      if |digits| == 0 || !AllDecimalDigits(digits) then None
      else
        var magnitude := DecimalValue(digits);
        var value: int := if text[0] == MINUS then -(magnitude as int) else magnitude;
        if InI32(value) then Some(value as i32) else None
  }

  /** A sign and a non-empty run of decimal digits parse exactly when their
      signed value fits in an `i32`, and then to that value. */
  lemma {:induction false} ParseI32Exact(sign: seq<byte>, digits: seq<byte>)
    requires sign == [] || sign == [PLUS] || sign == [MINUS]
    requires |digits| > 0 && AllDecimalDigits(digits)
    ensures var value: int := if sign == [MINUS] then -(DecimalValue(digits) as int) else DecimalValue(digits);
            ParseI32(sign + digits) == if InI32(value) then Some(value as i32) else None
  {
    var text := sign + digits;
    if sign == [] {
      assert text == digits;
    } else {
      assert text[1..] == digits;
    }
  }

  /** Every `i32` parses back from its shortest decimal spelling. */
  lemma ParseI32RoundTrip(v: i32)
    ensures ParseI32((if v < 0 then [MINUS] else []) + DecimalText(if v < 0 then -(v as int) else v as int)) == Some(v)
  {
    var magnitude: nat := if v < 0 then -(v as int) else v as int;
    DecimalTextRoundTrip(magnitude);
    ParseI32Exact(if v < 0 then [MINUS] else [], DecimalText(magnitude));
  }
}
