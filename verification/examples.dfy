/** Concrete inputs from the repository's tests (src/tests.rs) and its
    documentation, each stated as what `FromBytes` returns for it; one, the
    test input `0xep-4` with a leading `-`, shows the sign. Each is derived from the general
    theorems of `ParserCorrectness`: a witness lemma spells the input as a
    literal text (or the parts of one) and the example applies the theorem
    to it. Values are the exact numbers the literals stand for; the tests
    compare rounded `f32`/`f64` results, which agree with these where the
    value is representable. */
module Examples {
  import opened Wrappers
  import opened Bytes
  import opened ParseUtils
  import opened Numeric
  import opened Literals
  import opened Normalization
  import opened Parser
  import opened Grammar
  import opened ParserCorrectness

  /** `data` is accepted and stands for `v`. */
  predicate AcceptedAs(data: seq<byte>, v: real) {
    |data| < MAX_INPUT_LENGTH && FromBytes(data).Success? && Value(FromBytes(data).value) == v
  }

  /** The bytes of a joined string are the joined bytes. */
  lemma AsciiConcat(a: string, b: string)
    requires forall i :: 0 <= i < |a| ==> a[i] as int < 0x100
    requires forall i :: 0 <= i < |b| ==> b[i] as int < 0x100
    ensures Ascii(a + b) == Ascii(a) + Ascii(b)
  {
  }

  // ---------------------------------------------------------------------
  // Accepted inputs
  // ---------------------------------------------------------------------

  lemma QuarterText() returns (t: LiteralText)
    ensures WellFormed(t) && Render(t) == Ascii("0x3.4") && TextValue(t) == 3.25
  {
    t := LiteralText(Significand(NoSign, false, Ascii("3"), true, Ascii("4")), None);
    assert ToNibbles(Ascii("3")) == [3];
    assert ToNibbles(Ascii("4")) == [4];
    assert FixedPointValue([3], [4]) == 3.25;
  }

  /** `0x3.4` is three and four sixteenths. */
  lemma ThreeAndAQuarter()
    ensures AcceptedAs(Ascii("0x3.4"), 3.25)
  {
    var t := QuarterText();
    ParseComplete(t);
  }

  lemma FractionText() returns (t: LiteralText)
    ensures WellFormed(t) && Render(t) == Ascii("0x0.01p8") && TextValue(t) == 1.0
  {
    var e := BinaryExponent(false, NoSign, Ascii("8"));
    t := LiteralText(Significand(NoSign, false, Ascii("0"), true, Ascii("01")), Some(e));
    assert Render(t) == Ascii("0x0.01p8");
    assert ExponentValue(e) == 8;
    assert ToNibbles(Ascii("0")) == [0];
    assert ToNibbles(Ascii("01")) == [0, 1];
    assert FixedPointValue([0], [0, 1]) == 1.0 / 256.0;
    assert Scale2(8) == 256.0;
  }

  /** `0x0.01p8`: the digit one, two places right of the point, scaled up
      by 2^8. */
  lemma OneFromAFraction()
    ensures AcceptedAs(Ascii("0x0.01p8"), 1.0)
  {
    var t := FractionText();
    ParseComplete(t);
  }

  lemma SevenEighthsText() returns (t: LiteralText)
    ensures WellFormed(t) && Render(t) == Ascii("0xep-4") && TextValue(t) == 0.875
  {
    var e := BinaryExponent(false, Minus, Ascii("4"));
    t := LiteralText(Significand(NoSign, false, Ascii("e"), false, []), Some(e));
    assert Render(t) == Ascii("0xep-4");
    assert ExponentValue(e) == -4;
    assert ToNibbles(Ascii("e")) == [14];
    assert FixedPointValue([14], []) == 14.0;
    assert Scale2(-4) == 1.0 / 16.0;
  }

  /** `0xep-4`: fourteen scaled down by 2^4. */
  lemma SevenEighths()
    ensures AcceptedAs(Ascii("0xep-4"), 0.875)
  {
    var t := SevenEighthsText();
    ParseComplete(t);
  }

  lemma NegativeText() returns (t: LiteralText)
    ensures WellFormed(t) && Render(t) == Ascii("-0xep-4") && TextValue(t) == -0.875
  {
    var e := BinaryExponent(false, Minus, Ascii("4"));
    t := LiteralText(Significand(Minus, false, Ascii("e"), false, []), Some(e));
    assert Render(t) == Ascii("-0xep-4");
    assert ExponentValue(e) == -4;
    assert ToNibbles(Ascii("e")) == [14];
    assert FixedPointValue([14], []) == 14.0;
    assert Scale2(-4) == 1.0 / 16.0;
  }

  /** `-0xep-4`, the input of `SevenEighths` with a leading `-`: minus
      fourteen sixteenths, the sign applying to the
      significand and the exponent scaling it down. */
  lemma NegativeSevenEighths()
    ensures AcceptedAs(Ascii("-0xep-4"), -0.875)
  {
    var t := NegativeText();
    ParseComplete(t);
  }

  /** Runs of `'0'` digits normalize to no digits and offset 0. */
  lemma ZerosNormalize(zeros: seq<byte>)
    requires forall i :: 0 <= i < |zeros| ==> zeros[i] == ZERO
    ensures AllHexDigits(zeros)
    ensures Normalize(zeros, zeros) == ([], 0)
  {
    assert AllHexDigits(zeros) by {
      forall i | 0 <= i < |zeros|
        ensures IsHexDigit(zeros[i])
      {
        assert zeros[i] == ZERO;
      }
    }
    var r := Normalize(zeros, zeros);
    assert forall i :: 0 <= i < |zeros + zeros| ==> (zeros + zeros)[i] == ZERO by {
      forall i | 0 <= i < |zeros + zeros|
        ensures (zeros + zeros)[i] == ZERO
      {
        if i < |zeros| {
          assert (zeros + zeros)[i] == zeros[i];
        } else {
          assert (zeros + zeros)[i] == zeros[i - |zeros|];
        }
      }
    }
    assert |r.0| == 0 && r.1 == 0;
  }

  lemma ZeroText() returns (t: LiteralText)
    ensures WellFormed(t) && Render(t) == Ascii("0x0000.0000")
    ensures t.significand.sign == NoSign && t.exponent == None
    ensures Normalize(t.significand.ipart, t.significand.fpart) == ([], 0)
  {
    var zeros := Ascii("0000");
    ZerosNormalize(zeros);
    t := LiteralText(Significand(NoSign, false, zeros, true, zeros), None);
    assert Render(t) == Ascii("0x0000.0000");
  }

  /** `0x0000.0000` is zero, with no digits and offset 0. */
  lemma ZeroHasNoDigits()
    ensures |Ascii("0x0000.0000")| < MAX_INPUT_LENGTH
    ensures FromBytes(Ascii("0x0000.0000")).Success?
    ensures FromBytes(Ascii("0x0000.0000")).value.digits == []
    ensures FromBytes(Ascii("0x0000.0000")).value.decimalOffset == 0
  {
    var t := ZeroText();
    ParseComplete(t);
  }

  // ---------------------------------------------------------------------
  // Rejected inputs
  // ---------------------------------------------------------------------

  /** Empty input lacks the prefix. */
  lemma EmptyHasNoPrefix()
    ensures FromBytes(Ascii("")) == Failure(MissingPrefix.At(0))
  {
    MissingPrefixIff(Ascii(""));
  }

  /** A sign with nothing after it lacks the prefix. */
  lemma SignAloneHasNoPrefix()
    ensures FromBytes(Ascii("-")) == Failure(MissingPrefix.At(0))
  {
    MissingPrefixIff(Ascii("-"));
  }

  /** A decimal literal lacks the prefix, reported at 0 even after a sign. */
  lemma DecimalHasNoPrefix()
    ensures FromBytes(Ascii("-3.2")) == Failure(MissingPrefix.At(0))
  {
    MissingPrefixIff(Ascii("-3.2"));
  }

  /** A prefix alone has no digits; the error is at the end of the scan. */
  lemma PrefixWithoutDigits()
    ensures FromBytes(Ascii("0x")) == Failure(MissingDigits.At(2))
  {
    MissingDigitsIff(Ascii("0x"), 2);
    assert SignificandPrefix(Ascii("0x"), Significand(NoSign, false, [], false, []));
  }

  /** The same after a sign, one byte further on. */
  lemma SignedPrefixWithoutDigits()
    ensures FromBytes(Ascii("-0x")) == Failure(MissingDigits.At(3))
  {
    MissingDigitsIff(Ascii("-0x"), 3);
    assert SignificandPrefix(Ascii("-0x"), Significand(Minus, false, [], false, []));
  }

  /** A point alone has no digits either. */
  lemma PointWithoutDigits()
    ensures FromBytes(Ascii("0x.")) == Failure(MissingDigits.At(3))
  {
    MissingDigitsIff(Ascii("0x."), 3);
    assert SignificandPrefix(Ascii("0x."), Significand(NoSign, false, [], true, []));
  }

  lemma PointBeforeMarker() returns (m: Significand)
    ensures SignificandPrefix(Ascii("0x.p1"), m) && !HasDigits(m) && |RenderSignificand(m)| == 3
  {
    m := Significand(NoSign, false, [], true, []);
    assert RenderSignificand(m) == Ascii("0x.");
  }

  /** Missing digits are reported before the exponent is looked at. */
  lemma DigitsBeforeExponent()
    ensures FromBytes(Ascii("0x.p1")) == Failure(MissingDigits.At(3))
  {
    var m := PointBeforeMarker();
    MissingDigitsIff(Ascii("0x.p1"), 3);
  }

  lemma EmptyExponentParts(text: string, sign: Sign) returns (m: Significand, e: BinaryExponent)
    requires text == "0x1p" + (if sign == Minus then "-" else if sign == Plus then "+" else "")
    ensures SignificandShaped(m) && HasDigits(m) && |RenderSignificand(m)| == 3
    ensures AllDecimalDigits(e.digits) && e.digits == []
    ensures Ascii(text) == RenderSignificand(m) + RenderExponent(e)
  {
    m := Significand(NoSign, false, Ascii("1"), false, []);
    e := BinaryExponent(false, sign, []);
    assert Ascii(text) == RenderSignificand(m) + RenderExponent(e);
  }

  /** A marker with nothing after it. */
  lemma MarkerWithoutDigits()
    ensures FromBytes(Ascii("0x1p")) == Failure(MissingExponent.At(4))
  {
    var m, e := EmptyExponentParts("0x1p", NoSign);
    RejectExponent(m, e);
  }

  /** A marker and sign with no digits after them: the error is still
      reported just after the marker. */
  lemma SignedMarkerWithoutDigits()
    ensures FromBytes(Ascii("0x1p-")) == Failure(MissingExponent.At(4))
  {
    var m, e := EmptyExponentParts("0x1p-", Minus);
    RejectExponent(m, e);
  }

  /** A one followed by `k` zeros. */
  function OneThenZeros(k: nat): (digits: seq<byte>)
    ensures |digits| == k + 1 && AllDecimalDigits(digits)
  {
    if k == 0 then [ZERO + 1] else OneThenZeros(k - 1) + [ZERO]
  }

  function Pow10(k: nat): nat {
    if k == 0 then 1 else 10 * Pow10(k - 1)
  }

  /** A one followed by `k` zeros is worth ten to the `k`. */
  lemma {:induction false} OneThenZerosValue(k: nat)
    ensures DecimalValue(OneThenZeros(k)) == Pow10(k)
  {
    if k > 0 {
      var digits := OneThenZeros(k);
      assert digits[..|digits| - 1] == OneThenZeros(k - 1);
      OneThenZerosValue(k - 1);
    }
  }

  lemma TenBillion()
    ensures AllDecimalDigits(Ascii("10000000000"))
    ensures DecimalValue(Ascii("10000000000")) == 10000000000
  {
    assert Ascii("10000000000") == OneThenZeros(10);
    OneThenZerosValue(10);
  }

  lemma TooLargeSpelled()
    ensures Ascii("0x1p-10000000000") == Ascii("0x1") + (Ascii("p-") + Ascii("10000000000"))
  {
    assert "0x1p-10000000000" == "0x1" + ("p-" + "10000000000");
    AsciiConcat("0x1", "p-" + "10000000000");
    AsciiConcat("p-", "10000000000");
  }

  lemma TooLargeParts() returns (m: Significand, e: BinaryExponent)
    ensures SignificandShaped(m) && HasDigits(m) && |RenderSignificand(m)| == 3
    ensures AllDecimalDigits(e.digits) && e.digits != [] && ExponentValue(e) == -10000000000
    ensures Ascii("0x1p-10000000000") == RenderSignificand(m) + RenderExponent(e)
  {
    var digits := Ascii("10000000000");
    TenBillion();
    TooLargeSpelled();
    m := Significand(NoSign, false, Ascii("1"), false, []);
    e := BinaryExponent(false, Minus, digits);
    assert RenderSignificand(m) == Ascii("0x1");
    assert RenderExponent(e) == Ascii("p-") + digits;
  }

  /** Minus ten billion does not fit an `i32`. */
  lemma ExponentTooLarge()
    ensures FromBytes(Ascii("0x1p-10000000000")) == Failure(ExponentOverflow.At(4))
  {
    var m, e := TooLargeParts();
    RejectExponent(m, e);
  }

  lemma BadDataText() returns (t: LiteralText)
    ensures WellFormed(t) && t.exponent == None
    ensures StartsWith(Ascii("0xbaddata"), Render(t)) && |Render(t)| == 7
    ensures !ExtendsLiteral(t, Ascii("0xbaddata")[7])
  {
    t := LiteralText(Significand(NoSign, false, Ascii("badda"), false, []), None);
    assert Render(t) == Ascii("0xbadda");
  }

  /** `0xbaddata`: the hexadecimal digits `badda` are read, and the `t`
      after them is left over. */
  lemma BadData()
    ensures FromBytes(Ascii("0xbaddata")) == Failure(MissingEnd.At(7))
  {
    var t := BadDataText();
    MissingEndComplete(Ascii("0xbaddata"), t);
  }
}
