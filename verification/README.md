# hexponent's literal parser, in Dafny

This project models `FloatLiteral::from_bytes` of the Rust crate hexponent.
The function parses a hexadecimal floating-point literal. The accepted form is
the `hexadecimal-floating-constant` of section 6.4.4.2 of the C11 standard
(ISO/IEC 9899:2011), preceded by an optional `+` or `-`. The binary exponent
is optional and no floating suffix is accepted.

The parser returns either a normalized `FloatLiteral` or a `ParseError`.
- A `FloatLiteral` holds a sign, the significant hex digits as nibble values,
  `decimal_offset` (where the first digit sits relative to the point) and an
  `i32` binary exponent.
- A `ParseError` holds one of five kinds and a byte index into the input.

Modules, in dependency order:

- `Wrappers`: `Option` and `Result`.
- `Bytes`: the `byte` (Rust `u8`) and `i32` newtypes, and the ASCII classes
  the grammar uses.
- `ParseUtils`: the helpers the parser relies on.
  - `hex_digit_to_int`.
  - The digit-run scan of `consume_hex_digits` and of the exponent.
  - `str::parse::<i32>`.
- `Numeric`: exact rational values of digit strings, defined three
  independent ways and proved equal.
- `Literals`: `ParseErrorKind`, `ParseError`, `FloatLiteral`,
  `ConversionResult` and the value a literal stands for.
  `ParseErrorKind.At` (src/lib.rs:127-131) only pairs a kind with an index.
  The rows for `Parser.FromBytes`, `Parser.ParseExponent` and the
  `ParserCorrectness` error lemmas state which index each error carries.
- `Normalization`: the second stage, which trims zero digits, converts them
  to nibbles and computes `decimal_offset`.
- `Parser`: `from_bytes` itself, written stage by stage as the source is.
- `Grammar`: an independent description of the accepted language.
  - A `LiteralText` is a syntax tree; `Render` spells it out as bytes.
  - `TextValue` gives the number the text stands for.
- `ParserCorrectness`: relates `Parser.FromBytes` to `Grammar`.
  - It accepts exactly the renderings of well-formed texts.
  - On success, the literal has the text's value.
  - Each error kind is characterized, with its index, both ways.
- `Examples`: inputs from the crate's tests and documentation, plus one test input with a leading `-` added, derived from those theorems.

Positions: the source walks the input by re-slicing it. It recovers each
error index by pointer difference (`get_cursed_index`, src/lib.rs:168-170).
Here every step works on the original input at an explicit position, so that
difference is the position itself.

Values: a literal stands for ± Σ digitsᵢ·16^(decimal_offset−1−i) · 2^exponent,
computed as an exact `real`.

## Model

| member | source | states |
|---|---|---|
| Literals.ConversionResult.Inner | src/lib.rs:69-77 | The value returned is the one carried, whether the conversion is tagged precise or imprecise. |
| Literals.CanonicalValueZero | src/lib.rs:259-280 | A literal in the normal form `from_bytes` builds stands for zero exactly when its digit list is empty: all-`'0'` input takes the empty branch, and any kept digits start with a nonzero one. |
| ParseUtils.HexDigitToInt | src/lib.rs:271-274 | A byte has a nibble value exactly when it is a hex digit. The value is below 16, and it is 0 only for `'0'`. |
| ParseUtils.HexDigitRoundTrip | src/lib.rs:271-274 | Spelling a nibble in either case and reading it back gives the nibble. Every hex digit is the spelling of its own value in one of the two cases. |
| ParseUtils.ToNibbles | src/lib.rs:271-274 | Converting a run of hex digits keeps its length, and each entry is the value of the digit at the same position. |
| ParseUtils.RunEnd | src/lib.rs:197-204 | The scan stops at the end of the longest run of digits from the start: every byte before the stop is a digit, and the byte at the stop (if any) is not. |
| ParseUtils.ParseI32 | src/lib.rs:238-245 | `<i32 as FromStr>::from_str` on the exponent text: it rejects the empty text, a sign alone, and any byte after the first that is not a decimal digit; a value read after a leading `-` is at most 0 and any other value at least 0. Its exact value and the `i32` bound are stated by `ParseUtils.ParseI32Exact`. |
| ParseUtils.ParseI32Exact | src/lib.rs:238-245 | An optional sign followed by decimal digits parses exactly when its signed value lies in the `i32` range, and then to that value. |
| ParseUtils.ParseI32RoundTrip | src/lib.rs:238-245 | Every `i32` parses back from its shortest decimal spelling. |
| ParseUtils.DecimalTextRoundTrip | src/lib.rs:238-245 | The decimal digits of a number read back as that number. |
| Numeric.FixedPointValueIsDigitsValue | src/lib.rs:256-264 | Reading `ipart.fpart` in base 16 gives the same value as the place-value sum of all its digits, with the point `len(ipart)` places in. |
| Normalization.FirstSignificant | src/lib.rs:259 | It finds the first digit that is not `'0'`, and every digit before it is `'0'`. It finds none only when all digits are `'0'`. |
| Normalization.LastSignificant | src/lib.rs:263 | It finds the last digit that is not `'0'`, and every digit after it is `'0'`. |
| Normalization.TrimPreservesValue | src/lib.rs:266-269 | Dropping zero digits at both ends keeps the value, once the offset is lowered by the number dropped in front. |
| Normalization.KeepSignificant | src/lib.rs:261-276 | The kept digits start and end with a nonzero nibble. `decimal_offset` is `len(ipart)` minus the first kept index. The kept digits are worth what `ipart.fpart` is worth. |
| Normalization.Normalize | src/lib.rs:256-279 | The digits come back trimmed. They are empty exactly when every source digit is `'0'`, and then the offset is 0. The value of `ipart.fpart` is preserved. |
| Parser.SignLength | src/lib.rs:186-190 | The sign takes one byte exactly when the input starts with `+` or `-`, and no byte otherwise. |
| Parser.HasPrefixAt | src/lib.rs:192-195 | The prefix test holds exactly when the two bytes at the position are `0x` or `0X`, compared as a two-byte slice like the source's `data.get(0..2)` match. |
| Parser.ScanRuns | src/lib.rs:197-204 | The integer run is maximal. A point follows it exactly when the next byte is `.`, and then the fraction run after it is maximal. |
| Parser.ParseExponent | src/lib.rs:211-250 | With no `p`/`P` at the position, the exponent is 0 and nothing is consumed. Otherwise every error is `MissingExponent` or `ExponentOverflow`, reported just after the marker. |
| Parser.MakeLiteral | src/lib.rs:256-286 | The literal built is canonical, keeps the given sign and exponent, and its digits are worth the text's digits. |
| Parser.ParseAfterSignificand | src/lib.rs:211-286 | After the significand, the only errors are exponent errors and `MissingEnd`. `MissingEnd` points inside the input. A success keeps the digits' value. |
| Parser.FromBytes | src/lib.rs:183-287 | A success is canonical and negative exactly when the first byte is `-`. Every error index is at most the input length. `MissingPrefix` is always at 0, and `MissingEnd` always points at a byte of the input. |
| ParserCorrectness.ReadSignificandSound | src/lib.rs:186-204 | What the parser reads before the exponent is a significand spelled at the start of the input, which the next byte does not extend. |
| ParserCorrectness.ReadSignificandUnique | src/lib.rs:186-204 | Any significand spelled at the start and not extended by the next byte is the one the parser reads. |
| ParserCorrectness.ReadExponentSound | src/lib.rs:211-226 | After a marker, the parser reads a sign and a maximal digit run spelled there. |
| ParserCorrectness.ReadExponentUnique | src/lib.rs:211-226 | Any exponent spelled after the marker, with a maximal digit run, is the one the parser reads. |
| ParserCorrectness.ParseExponentAtMarker | src/lib.rs:211-247 | At a marker: no digits gives `MissingExponent`. A value outside the `i32` range gives `ExponentOverflow`. Both are reported just after the marker. Otherwise the result is the value and the end of the digits. |
| ParserCorrectness.AcceptSignificandAndExponent | src/lib.rs:183-287 | A significand with digits followed by a fitting exponent parses to the normalization of its digits with that exponent. |
| ParserCorrectness.RejectExponent | src/lib.rs:211-247 | A significand with digits followed by an exponent with no digits, or one that does not fit, is rejected with that exponent's error. |
| ParserCorrectness.MakeLiteralDenotes | src/lib.rs:256-286 | The literal built from a well-formed text has the text's sign and exponent, canonical digits, and the text's value. |
| ParserCorrectness.ParseComplete | src/lib.rs:183-287 | Every well-formed text is accepted. The literal produced is the normalization of its digits, denotes the text, and has its value. |
| ParserCorrectness.ParseSound | src/lib.rs:183-287 | Every accepted input is the rendering of the well-formed text the parser read, and the literal produced denotes that text. |
| ParserCorrectness.ParseAccepts | src/lib.rs:183-287 | The input is accepted exactly when it renders some well-formed text. |
| ParserCorrectness.MissingPrefixIff | src/lib.rs:186-195 | `MissingPrefix` at 0 is reported exactly when the input does not start with an optional sign followed by `0x` or `0X`. |
| ParserCorrectness.MissingDigitsIff | src/lib.rs:197-209 | `MissingDigits` at `k` is reported exactly when the input starts with a significand without digits ending at `k`. The exponent is never looked at. |
| ParserCorrectness.MissingExponentIff | src/lib.rs:211-232 | `MissingExponent` at `k` is reported exactly when a significand with digits is followed by a marker and optional sign with no digit after them, `k` being just after the marker. |
| ParserCorrectness.ExponentOverflowIff | src/lib.rs:234-247 | `ExponentOverflow` at `k` is reported exactly when a significand with digits is followed by an exponent whose signed value is outside the `i32` range, `k` being just after the marker. |
| ParserCorrectness.MissingEndComplete | src/lib.rs:252-254 | A complete literal followed by a byte that cannot continue it is reported as `MissingEnd` at that byte. |
| ParserCorrectness.MissingEndSound | src/lib.rs:252-254 | A `MissingEnd` report comes right after the complete literal the parser read, at a byte that cannot continue it. |
| ParserCorrectness.MissingEndIff | src/lib.rs:252-254 | `MissingEnd` at `k` is reported exactly when the input starts with a well-formed text ending at `k` and the byte at `k` cannot continue it. |
| Examples.ThreeAndAQuarter | src/lib.rs:13-15 | `0x3.4` is accepted and stands for 3.25. |
| Examples.OneFromAFraction | src/tests.rs:114 | `0x0.01p8` is accepted and stands for 1. |
| Examples.SevenEighths | src/tests.rs:142 | `0xep-4` is accepted and stands for 0.875. |
| Examples.NegativeSevenEighths | src/lib.rs:186-190 | `-0xep-4`, the input of src/tests.rs:142 with a `-` added, is accepted and stands for −0.875: the leading `-` negates the value. |
| Examples.ZeroHasNoDigits | src/tests.rs:78 | `0x0000.0000` is accepted with no digits and offset 0. |
| Examples.EmptyHasNoPrefix | src/tests.rs:150 | The empty input is `MissingPrefix` at 0. |
| Examples.SignAloneHasNoPrefix | src/tests.rs:151 | `-` is `MissingPrefix` at 0. |
| Examples.DecimalHasNoPrefix | src/tests.rs:153 | `-3.2` is `MissingPrefix` at 0, even though a sign was read. |
| Examples.PrefixWithoutDigits | src/tests.rs:154 | `0x` is `MissingDigits` at 2. |
| Examples.SignedPrefixWithoutDigits | src/tests.rs:155 | `-0x` is `MissingDigits` at 3. |
| Examples.PointWithoutDigits | src/tests.rs:157 | `0x.` is `MissingDigits` at 3. |
| Examples.DigitsBeforeExponent | src/tests.rs:159 | `0x.p1` is `MissingDigits` at 3, not an exponent error. |
| Examples.MarkerWithoutDigits | src/tests.rs:160 | `0x1p` is `MissingExponent` at 4. |
| Examples.SignedMarkerWithoutDigits | src/tests.rs:162 | `0x1p-` is `MissingExponent` at 4, just after the marker and not after the sign. |
| Examples.ExponentTooLarge | src/tests.rs:164 | `0x1p-10000000000` is `ExponentOverflow` at 4. |
| Examples.BadData | src/tests.rs:165 | `0xbaddata` is `MissingEnd` at 7, the `t` after the hex digits `badda`. |

The source of `consume_hex_digits` and `hex_digit_to_int` (src/parse_utils.rs)
is not part of this model. Both are modelled by what their call sites in
src/lib.rs require:
- `consume_hex_digits` splits off the longest prefix of hex digits;
- `hex_digit_to_int` is total on hex digits, as the `unwrap` at
  src/lib.rs:273 shows.

The MissingExponent index is the position just after the `p`/`P`
(src/lib.rs:213, 230), before any exponent sign: `0x1p-` reports 4.

## Left out

- `FPFormat` and `FloatLiteral::convert` (src/lib.rs:52-53, 175-177): the converter's source, src/fpformat.rs, is not part of this model. It also works on IEEE-754 bit patterns. Only its result type, `ConversionResult`, and `inner` are modelled.
- `Display for ParseError`, `std::error::Error`, `FromStr` and `From<FloatLiteral> for f32/f64` (src/lib.rs:133-149, 290-307): these are message formatting and thin wrappers around `from_bytes` or the converter.
- The host C library oracle and the float comparison helpers of src/tests.rs: these are foreign calls on host floating point.
- Parser.FromBytes: requires the input to be shorter than 2^31 bytes. The source casts `ipart.len()` and `first_digit` with `as i32` (src/lib.rs:264); below that bound both casts are exact, and above it the wrap-around is not modelled.
- The old error names in src/tests.rs (`ExtraData` for `MissingEnd`, and errors compared without an index): the examples take only the expected kind from the tests, and use the names and indices of src/lib.rs.
- `expect("exponent did not contain valid utf-8")` (src/lib.rs:240): it cannot fail, because the exponent text is a sign and ASCII digits. `ParseI32` reads those bytes directly.
- Ownership, `Vec` reuse and in-place `truncate`/`drain` (src/lib.rs:256-276): the model computes the same digit sequence as a pure value.
