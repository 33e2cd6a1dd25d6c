/** `FromBytes` against the grammar of the `Grammar` module: it succeeds
    exactly on the renderings of well-formed literal texts, with a literal
    that denotes the text, and each error kind, with its index, is
    characterised by the shape of the input. */
module ParserCorrectness {
  import opened Wrappers
  import opened Bytes
  import opened ParseUtils
  import opened Numeric
  import opened Literals
  import opened Parser
  import opened Grammar

  // ---------------------------------------------------------------------
  // Reading the parser's positions back as syntax
  // ---------------------------------------------------------------------

  /** The sign the parser consumed. */
  function SignOf(data: seq<byte>): (s: Sign)
    ensures |SignText(s)| == SignLength(data)
    ensures StartsWith(data, SignText(s))
  {
    SignAt(data, 0)
  }

  /** The sign read at `at` is spelled there. */
  lemma SignSpelled(data: seq<byte>, at: nat)
    requires at <= |data|
    ensures at + |SignText(SignAt(data, at))| <= |data|
    ensures data[at..at + |SignText(SignAt(data, at))|] == SignText(SignAt(data, at))
  {
  }

  /** The optional `+` or `-` at `at`. */
  function SignAt(data: seq<byte>, at: nat): (s: Sign)
    ensures s != NoSign <==> at < |data| && IsSign(data[at])
    ensures s != NoSign ==> [data[at]] == SignText(s)
  {
    if at < |data| && data[at] == PLUS then Plus
    else if at < |data| && data[at] == MINUS then Minus
    else NoSign
  }

  /** The significand the parser read, as syntax. */
  function SignificandRead(data: seq<byte>): Significand
    requires HasPrefixAt(data, SignLength(data))
  {
    var start := SignLength(data);
    var runs := ScanRuns(data, start + 2);
    Significand(SignOf(data), data[start + 1] == UPPER_X,
                data[runs.intStart..runs.intEnd], runs.point, data[runs.fracStart..runs.fracEnd])
  }

  /** The exponent the parser read at the marker at `at`. */
  function ExponentRead(data: seq<byte>, at: nat): BinaryExponent
    requires at < |data| && IsExponentMarker(data[at])
  {
    var signStart := at + 1;
    var sign := SignAt(data, signStart);
    var digitsStart := signStart + |SignText(sign)|;
    BinaryExponent(data[at] == UPPER_P, sign, data[digitsStart..RunEnd(data, digitsStart, Dec)])
  }

  // ---------------------------------------------------------------------
  // Sequence layout
  // ---------------------------------------------------------------------

  lemma SliceJoin(data: seq<byte>, a: nat, b: nat, c: nat)
    requires a <= b <= c <= |data|
    ensures data[a..b] + data[b..c] == data[a..c]
  {
  }

  /** Where the integer digits of a rendered significand start. */
  function IntStartOf(m: Significand): nat {
    |SignText(m.sign)| + 2
  }

  /** Where the integer digits of a rendered significand end. */
  function IntEndOf(m: Significand): nat {
    IntStartOf(m) + |m.ipart|
  }

  /** Where the fraction digits of a rendered significand start. */
  function FracStartOf(m: Significand): nat {
    IntEndOf(m) + |PointText(m.point)|
  }

  /** Where each part of a rendered significand sits. */
  lemma SignificandLayout(m: Significand)
    ensures var r := RenderSignificand(m);
            && |r| == FracStartOf(m) + |m.fpart|
            && r[..|SignText(m.sign)|] == SignText(m.sign)
            && r[|SignText(m.sign)|..IntStartOf(m)] == PrefixText(m.upperX)
            && r[IntStartOf(m)..IntEndOf(m)] == m.ipart
            && r[IntEndOf(m)..FracStartOf(m)] == PointText(m.point)
            && r[FracStartOf(m)..] == m.fpart
  {
    var s, p, pt := SignText(m.sign), PrefixText(m.upperX), PointText(m.point);
    var r := RenderSignificand(m);
    assert r == (((s + p) + m.ipart) + pt) + m.fpart;
    assert r[..FracStartOf(m)] == ((s + p) + m.ipart) + pt;
    assert r[..IntEndOf(m)] == (s + p) + m.ipart;
    assert r[..IntStartOf(m)] == s + p;
  }

  /** A prefix of `data` fixes the corresponding slices of `data`. */
  lemma StartsWithSlice(data: seq<byte>, p: seq<byte>, i: nat, j: nat)
    requires StartsWith(data, p)
    requires i <= j <= |p|
    ensures data[i..j] == p[i..j]
  {
    forall k | 0 <= k < j - i
      ensures data[i..j][k] == p[i..j][k]
    {
      assert data[i + k] == data[..|p|][i + k];
    }
  }

  /** The slices of `data` under a significand it starts with. */
  lemma SignificandSlices(data: seq<byte>, m: Significand)
    requires StartsWith(data, RenderSignificand(m))
    ensures |RenderSignificand(m)| == FracStartOf(m) + |m.fpart| <= |data|
    ensures data[..|SignText(m.sign)|] == SignText(m.sign)
    ensures data[|SignText(m.sign)|] == ZERO
    ensures data[|SignText(m.sign)| + 1] == (if m.upperX then UPPER_X else LOWER_X)
    ensures data[IntStartOf(m)..IntEndOf(m)] == m.ipart
    ensures data[IntEndOf(m)..FracStartOf(m)] == PointText(m.point)
    ensures data[FracStartOf(m)..|RenderSignificand(m)|] == m.fpart
  {
    var r := RenderSignificand(m);
    var a := |SignText(m.sign)|;
    SignificandLayout(m);
    StartsWithSlice(data, r, 0, a);
    StartsWithSlice(data, r, a, a + 2);
    StartsWithSlice(data, r, IntStartOf(m), IntEndOf(m));
    StartsWithSlice(data, r, IntEndOf(m), FracStartOf(m));
    StartsWithSlice(data, r, FracStartOf(m), |r|);
    assert data[a] == data[a..a + 2][0];
    assert data[a + 1] == data[a..a + 2][1];
  }

  // ---------------------------------------------------------------------
  // The significand
  // ---------------------------------------------------------------------

  /** Where the parser finds a prefix, `data` starts with the sign and
      prefix it read. */
  lemma PrefixSpelled(data: seq<byte>)
    requires HasPrefixAt(data, SignLength(data))
    ensures StartsWith(data, SignText(SignOf(data)) + PrefixText(data[SignLength(data) + 1] == UPPER_X))
  {
    var n := SignLength(data);
    assert data[..n + 2] == data[..n] + [data[n], data[n + 1]];
  }

  /** The bytes the parser scanned for the significand spell the
      significand it read. */
  lemma SignificandReadSpelled(data: seq<byte>)
    requires HasPrefixAt(data, SignLength(data))
    ensures var fracEnd := ScanRuns(data, SignLength(data) + 2).fracEnd;
            data[..fracEnd] == RenderSignificand(SignificandRead(data))
  {
    var start := SignLength(data);
    var runs := ScanRuns(data, start + 2);
    var m := SignificandRead(data);
    PrefixSpelled(data);
    RunsSpelled(data, start + 2);
    JoinSpelled(data, start + 2, runs.fracEnd,
                SignText(m.sign) + PrefixText(m.upperX), m.ipart + PointText(m.point) + m.fpart);
    RegroupFive(SignText(m.sign), PrefixText(m.upperX), m.ipart, PointText(m.point), m.fpart);
  }

  /** A prefix spelled `head` followed by a slice spelled `body` spells
      `head + body`. */
  lemma JoinSpelled(data: seq<byte>, k: nat, n: nat, head: seq<byte>, body: seq<byte>)
    requires k <= n <= |data|
    requires StartsWith(data, head) && |head| == k
    requires data[k..n] == body
    ensures data[..n] == head + body
  {
    assert data[..n] == data[..k] + data[k..n];
  }

  /** Five joined pieces, regrouped as the first two and the last three. */
  lemma RegroupFive(a: seq<byte>, b: seq<byte>, c: seq<byte>, d: seq<byte>, e: seq<byte>)
    ensures a + b + c + d + e == (a + b) + (c + d + e)
  {
  }

  /** What the parser reads as a significand is one, followed by a byte that
      does not extend it, and scanning stopped right after it. */
  lemma ReadSignificandSound(data: seq<byte>)
    requires HasPrefixAt(data, SignLength(data))
    ensures SignificandPrefix(data, SignificandRead(data))
    ensures |RenderSignificand(SignificandRead(data))| == ScanRuns(data, SignLength(data) + 2).fracEnd
  {
    SignificandReadSpelled(data);
  }

  /** The digit runs `ScanRuns` finds, with the point between them, spell
      the bytes it scanned. */
  lemma RunsSpelled(data: seq<byte>, start: nat)
    requires start <= |data|
    ensures var runs := ScanRuns(data, start);
            data[start..runs.fracEnd]
            == data[runs.intStart..runs.intEnd] + PointText(runs.point) + data[runs.fracStart..runs.fracEnd]
  {
    var runs := ScanRuns(data, start);
    assert data[runs.intEnd..runs.fracStart] == PointText(runs.point);
    SliceJoin(data, start, runs.intEnd, runs.fracStart);
    SliceJoin(data, start, runs.fracStart, runs.fracEnd);
  }

  /** The sign and prefix of a significand `data` starts with are the ones
      the parser finds. */
  lemma PrefixOfSignificand(data: seq<byte>, m: Significand)
    requires StartsWith(data, RenderSignificand(m))
    ensures SignLength(data) == |SignText(m.sign)|
    ensures SignOf(data) == m.sign
    ensures HasPrefixAt(data, SignLength(data))
    ensures data[SignLength(data) + 1] == UPPER_X <==> m.upperX
  {
    SignificandSlices(data, m);
    if m.sign != NoSign {
      assert data[0] == data[..1][0];
    }
  }

  /** The integer run of a significand that nothing extends is the run
      `ScanRuns` finds, and the point is found exactly when it has one. */
  lemma IntRunOfSignificand(data: seq<byte>, m: Significand)
    requires SignificandPrefix(data, m)
    ensures RunEnd(data, IntStartOf(m), Hex) == IntEndOf(m)
    ensures (IntEndOf(m) < |data| && data[IntEndOf(m)] == POINT) <==> m.point
  {
    SignificandSlices(data, m);
    var a, b := IntStartOf(m), IntEndOf(m);
    forall i | a <= i < b
      ensures IsHexDigit(data[i])
    {
      assert data[i] == data[a..b][i - a];
    }
    if m.point {
      assert data[b] == data[b..FracStartOf(m)][0];
    }
    RunEndIsUnique(data, a, Hex, b);
  }

  /** The fraction run of a significand that nothing extends is the run
      `ScanRuns` finds after the point. */
  lemma FracRunOfSignificand(data: seq<byte>, m: Significand)
    requires SignificandPrefix(data, m)
    requires m.point
    ensures RunEnd(data, FracStartOf(m), Hex) == |RenderSignificand(m)|
  {
    SignificandSlices(data, m);
    var c, n := FracStartOf(m), |RenderSignificand(m)|;
    forall i | c <= i < n
      ensures IsHexDigit(data[i])
    {
      assert data[i] == data[c..n][i - c];
    }
    RunEndIsUnique(data, c, Hex, n);
  }

  /** A significand at the start of `data` that nothing extends is what the
      parser reads. */
  lemma ReadSignificandUnique(data: seq<byte>, m: Significand)
    requires SignificandPrefix(data, m)
    ensures HasPrefixAt(data, SignLength(data))
    ensures SignificandRead(data) == m
  {
    PrefixOfSignificand(data, m);
    IntRunOfSignificand(data, m);
    SignificandSlices(data, m);
    var runs := ScanRuns(data, IntStartOf(m));
    assert runs.intEnd == IntEndOf(m);
    if m.point {
      FracRunOfSignificand(data, m);
    }
    assert runs.fracStart == FracStartOf(m);
    assert runs.fracEnd == |RenderSignificand(m)|;
  }

  // ---------------------------------------------------------------------
  // The exponent
  // ---------------------------------------------------------------------

  /** Where the digit scan after a marker starts and ends. */
  function ExponentDigitsEnd(data: seq<byte>, at: nat): nat
    requires at < |data| && IsExponentMarker(data[at])
  {
    RunEnd(data, at + 1 + |SignText(ExponentRead(data, at).sign)|, Dec)
  }

  /** What the parser reads after a marker is spelled there, up to where the
      digit scan stopped. */
  lemma ReadExponentSpelled(data: seq<byte>, at: nat)
    requires at < |data| && IsExponentMarker(data[at])
    ensures var e := ExponentRead(data, at);
            && AllDecimalDigits(e.digits)
            && StartsWith(data[at..], RenderExponent(e))
            && at + |RenderExponent(e)| == ExponentDigitsEnd(data, at)
  {
    var e := ExponentRead(data, at);
    var digitsStart := at + 1 + |SignText(e.sign)|;
    var digitsEnd := ExponentDigitsEnd(data, at);
    SignSpelled(data, at + 1);
    assert data[at..at + 1] == MarkerText(e.upperP);
    ThreeSpelled(data, at, at + 1, digitsStart, digitsEnd, MarkerText(e.upperP), SignText(e.sign), e.digits);
    StartsWithSliceAt(data, at, digitsEnd, RenderExponent(e));
  }

  /** Three consecutive slices spelling `x`, `y` and `z` together spell
      `x + y + z`. */
  lemma ThreeSpelled(data: seq<byte>, a: nat, b: nat, c: nat, d: nat, x: seq<byte>, y: seq<byte>, z: seq<byte>)
    requires a <= b <= c <= d <= |data|
    requires data[a..b] == x && data[b..c] == y && data[c..d] == z
    ensures data[a..d] == x + y + z
  {
    SliceJoin(data, a, b, c);
    SliceJoin(data, a, c, d);
  }

  /** A slice spelling `p` from `at` on means `data[at..]` starts with `p`. */
  lemma StartsWithSliceAt(data: seq<byte>, at: nat, end: nat, p: seq<byte>)
    requires at <= end <= |data| && data[at..end] == p
    ensures StartsWith(data[at..], p)
  {
    assert data[at..][..|p|] == data[at..end];
  }

  /** What the parser reads after a marker is an exponent (possibly without
      digits) that the next byte does not extend, and the digit scan stopped
      right after it. */
  lemma ReadExponentSound(data: seq<byte>, at: nat)
    requires at < |data| && IsExponentMarker(data[at])
    ensures ExponentPrefix(data, at, ExponentRead(data, at))
    ensures at + |RenderExponent(ExponentRead(data, at))| == ExponentDigitsEnd(data, at)
  {
    ReadExponentSpelled(data, at);
    var e := ExponentRead(data, at);
    var n := ExponentDigitsEnd(data, at);
    if e.sign == NoSign && e.digits == [] {
      assert n == at + 1;
    }
  }

  /** The slices of `data` under an exponent spelled from `at`. */
  lemma ExponentSlices(data: seq<byte>, at: nat, e: BinaryExponent)
    requires at <= |data| && StartsWith(data[at..], RenderExponent(e))
    ensures at + |RenderExponent(e)| <= |data|
    ensures data[at] == (if e.upperP then UPPER_P else LOWER_P)
    ensures data[at + 1..at + 1 + |SignText(e.sign)|] == SignText(e.sign)
    ensures data[at + 1 + |SignText(e.sign)|..at + |RenderExponent(e)|] == e.digits
  {
    var r := RenderExponent(e);
    var k := 1 + |SignText(e.sign)|;
    assert r == (MarkerText(e.upperP) + SignText(e.sign)) + e.digits;
    assert r[..k] == MarkerText(e.upperP) + SignText(e.sign);
    assert data[at..][..|r|] == data[at..at + |r|];
    StartsWithSlice(data[at..], r, 0, 1);
    StartsWithSlice(data[at..], r, 1, k);
    StartsWithSlice(data[at..], r, k, |r|);
    assert data[at] == data[at..][0..1][0];
    assert data[at + 1..at + k] == data[at..][1..k];
    assert data[at + k..at + |r|] == data[at..][k..|r|];
  }

  /** An exponent spelled from `at` that nothing extends is what the parser
      reads there. */
  lemma ReadExponentUnique(data: seq<byte>, at: nat, e: BinaryExponent)
    requires ExponentPrefix(data, at, e)
    ensures at < |data| && IsExponentMarker(data[at])
    ensures ExponentRead(data, at) == e
  {
    ExponentSlices(data, at, e);
    var k := at + 1 + |SignText(e.sign)|;
    var n := at + |RenderExponent(e)|;
    var read := ExponentRead(data, at);
    assert read.sign == e.sign by {
      if e.sign != NoSign {
        assert data[at + 1] == data[at + 1..k][0];
      } else if e.digits != [] {
        assert data[at + 1] == data[k..n][0];
        assert IsDecimalDigit(e.digits[0]);
      }
    }
    forall i | k <= i < n
      ensures IsDecimalDigit(data[i])
    {
      assert data[i] == data[k..n][i - k];
    }
    RunEndIsUnique(data, k, Dec, n);
  }

  /** What `ParseExponent` makes of an exponent: no digits is
      `MissingExponent`, a signed value outside the `i32` range is
      `ExponentOverflow`, both just after the marker, and otherwise the value
      and the end of the digits. */
  function ExponentOutcome(e: BinaryExponent, at: nat): Result<(i32, nat), ParseError>
    requires AllDecimalDigits(e.digits)
  {
    if e.digits == [] then Failure(MissingExponent.At(at + 1))
    else if InI32(ExponentValue(e)) then Success((ExponentValue(e) as i32, at + |RenderExponent(e)|))
    else Failure(ExponentOverflow.At(at + 1))
  }

  /** Which exponent errors `ExponentOutcome` reports, and where. */
  lemma ExponentOutcomeError(e: BinaryExponent, at: nat)
    requires AllDecimalDigits(e.digits)
    ensures ExponentOutcome(e, at).Failure? <==> e.digits == [] || !InI32(ExponentValue(e))
    ensures ExponentOutcome(e, at).Failure? ==>
              && ExponentOutcome(e, at).error.index == at + 1
              && (ExponentOutcome(e, at).error.kind == MissingExponent <==> e.digits == [])
              && (ExponentOutcome(e, at).error.kind == ExponentOverflow <==> e.digits != [])
  {
  }

  /** The text after the marker parses as an `i32` exactly when the
      exponent's value fits. */
  lemma ParseExponentText(e: BinaryExponent)
    requires ExponentShaped(e)
    ensures ParseI32(SignText(e.sign) + e.digits)
            == if InI32(ExponentValue(e)) then Some(ExponentValue(e) as i32) else None
  {
    ParseI32Exact(SignText(e.sign), e.digits);
    assert SignText(e.sign) == [MINUS] <==> e.sign == Minus;
  }

  /** At a marker, `ParseExponent` in terms of the exponent read there: no
      digits, or the `i32` parse of the sign and digits. */
  lemma ParseExponentByText(data: seq<byte>, at: nat)
    requires at < |data| && IsExponentMarker(data[at])
    ensures var e := ExponentRead(data, at);
            var n := at + |RenderExponent(e)|;
            && n <= |data|
            && ParseExponent(data, at)
               == if e.digits == [] then Failure(MissingExponent.At(at + 1))
                  else match ParseI32(data[at + 1..n])
                       case None => Failure(ExponentOverflow.At(at + 1))
                       case Some(x) => Success((x, n))
  {
    var e := ExponentRead(data, at);
    var k := at + 1 + |SignText(e.sign)|;
    assert k == if at + 1 < |data| && IsSign(data[at + 1]) then at + 2 else at + 1;
    var end := RunEnd(data, k, Dec);
    assert e.digits == data[k..end];
    assert at + |RenderExponent(e)| == end;
  }

  /** After a marker, the sign and digits read are the bytes between the
      marker and the end of the digits. */
  lemma ExponentTextAt(data: seq<byte>, at: nat)
    requires at < |data| && IsExponentMarker(data[at])
    ensures var e := ExponentRead(data, at);
            var n := at + |RenderExponent(e)|;
            n <= |data| && data[at + 1..n] == SignText(e.sign) + e.digits
  {
    var e := ExponentRead(data, at);
    ReadExponentSpelled(data, at);
    var k := at + 1 + |SignText(e.sign)|;
    var n := at + |RenderExponent(e)|;
    ExponentSlices(data, at, e);
    SliceJoin(data, at + 1, k, n);
  }

  /** At a marker, `ParseExponent` decides by the exponent spelled there. */
  lemma ParseExponentAtMarker(data: seq<byte>, at: nat)
    requires at < |data| && IsExponentMarker(data[at])
    ensures AllDecimalDigits(ExponentRead(data, at).digits)
    ensures ParseExponent(data, at) == ExponentOutcome(ExponentRead(data, at), at)
  {
    var e := ExponentRead(data, at);
    ReadExponentSpelled(data, at);
    ParseExponentByText(data, at);
    if e.digits != [] {
      ExponentTextAt(data, at);
      ParseExponentText(e);
    }
  }

  // ---------------------------------------------------------------------
  // `FromBytes` in terms of the syntax it reads
  // ---------------------------------------------------------------------

  lemma StartsWithConcat(data: seq<byte>, a: seq<byte>, b: seq<byte>)
    ensures StartsWith(data, a + b) <==> StartsWith(data, a) && StartsWith(data[|a|..], b)
  {
    if StartsWith(data, a) && StartsWith(data[|a|..], b) {
      assert data[..|a + b|] == data[..|a|] + data[|a|..][..|b|];
    }
    if StartsWith(data, a + b) {
      assert data[..|a|] == (a + b)[..|a|];
      assert data[|a|..][..|b|] == (a + b)[|a|..];
    }
  }

  /** The first stage of `FromBytes`: sign, prefix and digit runs, read as a
      significand. */
  lemma FromBytesBySignificand(data: seq<byte>)
    requires |data| < MAX_INPUT_LENGTH
    requires HasPrefixAt(data, SignLength(data))
    ensures var m := SignificandRead(data);
            && SignificandPrefix(data, m)
            && FromBytes(data)
               == if !HasDigits(m) then Failure(MissingDigits.At(|RenderSignificand(m)|))
                  else ParseAfterSignificand(data, m.sign != Minus, m.ipart, m.fpart, |RenderSignificand(m)|)
  {
    ReadSignificandSound(data);
    var m := SignificandRead(data);
    assert (m.sign != Minus) == !(|data| > 0 && data[0] == MINUS);
  }

  /** The second stage of `FromBytes`: the exponent read after the
      significand, then the end-of-input check. */
  lemma AfterSignificandByExponent(data: seq<byte>, isPositive: bool, ipart: seq<byte>, fpart: seq<byte>, at: nat)
    requires at <= |data| < MAX_INPUT_LENGTH
    requires AllHexDigits(ipart) && AllHexDigits(fpart) && |ipart| + |fpart| <= |data|
    ensures at < |data| && IsExponentMarker(data[at]) ==>
              var e := ExponentRead(data, at);
              && AllDecimalDigits(e.digits)
              && ParseAfterSignificand(data, isPositive, ipart, fpart, at)
                 == match ExponentOutcome(e, at)
                    case Failure(err) => Failure(err)
                    case Success((v, end)) =>
                      if end < |data| then Failure(MissingEnd.At(end))
                      else Success(MakeLiteral(isPositive, ipart, fpart, v))
    ensures (at == |data| || !IsExponentMarker(data[at])) ==>
              ParseAfterSignificand(data, isPositive, ipart, fpart, at)
              == if at < |data| then Failure(MissingEnd.At(at))
                 else Success(MakeLiteral(isPositive, ipart, fpart, 0))
  {
    if at < |data| && IsExponentMarker(data[at]) {
      ParseExponentAtMarker(data, at);
    }
  }

  /** `FromBytes` on an input that starts with a significand with digits
      and, right after it, an exponent (possibly without digits) that
      nothing extends: the exponent decides. */
  lemma FromBytesAtMarker(data: seq<byte>, m: Significand, e: BinaryExponent)
    requires |data| < MAX_INPUT_LENGTH
    requires SignificandPrefix(data, m) && HasDigits(m)
    requires ExponentPrefix(data, |RenderSignificand(m)|, e)
    ensures FromBytes(data)
            == match ExponentOutcome(e, |RenderSignificand(m)|)
               case Failure(err) => Failure(err)
               case Success((v, end)) =>
                 if end < |data| then Failure(MissingEnd.At(end))
                 else Success(MakeLiteral(m.sign != Minus, m.ipart, m.fpart, v))
  {
    ReadSignificandUnique(data, m);
    FromBytesBySignificand(data);
    ReadExponentUnique(data, |RenderSignificand(m)|, e);
    AfterSignificandByExponent(data, m.sign != Minus, m.ipart, m.fpart, |RenderSignificand(m)|);
  }

  /** `FromBytes` on an input that starts with a significand with digits not
      followed by an exponent marker: it succeeds with exponent 0 exactly
      when nothing follows. */
  lemma FromBytesNoMarker(data: seq<byte>, m: Significand)
    requires |data| < MAX_INPUT_LENGTH
    requires SignificandPrefix(data, m) && HasDigits(m)
    requires |RenderSignificand(m)| == |data| || !IsExponentMarker(data[|RenderSignificand(m)|])
    ensures FromBytes(data)
            == if |RenderSignificand(m)| < |data| then Failure(MissingEnd.At(|RenderSignificand(m)|))
               else Success(MakeLiteral(m.sign != Minus, m.ipart, m.fpart, 0))
  {
    ReadSignificandUnique(data, m);
    FromBytesBySignificand(data);
    AfterSignificandByExponent(data, m.sign != Minus, m.ipart, m.fpart, |RenderSignificand(m)|);
  }

  /** Unless it reports a missing prefix or missing digits, `FromBytes` read
      a significand with digits. */
  lemma SignificandWithDigits(data: seq<byte>)
    requires |data| < MAX_INPUT_LENGTH
    requires FromBytes(data).Success? || FromBytes(data).error.kind !in {MissingPrefix, MissingDigits}
    ensures HasPrefixAt(data, SignLength(data))
    ensures SignificandPrefix(data, SignificandRead(data)) && HasDigits(SignificandRead(data))
  {
    assert HasPrefixAt(data, SignLength(data));
    FromBytesBySignificand(data);
  }

  // ---------------------------------------------------------------------
  // Success
  // ---------------------------------------------------------------------

  /** The exponent marker ends a significand. */
  lemma RenderedSignificandEnds(m: Significand, e: BinaryExponent, data: seq<byte>)
    requires SignificandShaped(m)
    requires StartsWith(data, RenderSignificand(m) + RenderExponent(e))
    ensures SignificandPrefix(data, m)
    ensures ExponentPrefix(data, |RenderSignificand(m)|, e) || !ExponentShaped(e)
            || (|RenderSignificand(m) + RenderExponent(e)| < |data|
                && IsDecimalDigit(data[|RenderSignificand(m) + RenderExponent(e)|]))
  {
    var r := RenderSignificand(m);
    StartsWithConcat(data, r, RenderExponent(e));
    assert data[|r|] == data[|r|..][..|RenderExponent(e)|][0];
  }

  /** A significand with digits and nothing after it parses to the
      normalization of its digits, with exponent 0. */
  lemma AcceptSignificand(m: Significand)
    requires SignificandShaped(m) && HasDigits(m)
    requires |RenderSignificand(m)| < MAX_INPUT_LENGTH
    ensures FromBytes(RenderSignificand(m)) == Success(MakeLiteral(m.sign != Minus, m.ipart, m.fpart, 0))
  {
    var data := RenderSignificand(m);
    assert SignificandPrefix(data, m) by {
      assert data[..|data|] == data;
    }
    FromBytesNoMarker(data, m);
  }

  /** A significand with digits followed by an exponent whose value fits an
      `i32` parses to the normalization of the digits, with that exponent. */
  lemma AcceptSignificandAndExponent(m: Significand, e: BinaryExponent)
    requires SignificandShaped(m) && HasDigits(m)
    requires ExponentShaped(e) && InI32(ExponentValue(e))
    requires |RenderSignificand(m) + RenderExponent(e)| < MAX_INPUT_LENGTH
    ensures FromBytes(RenderSignificand(m) + RenderExponent(e))
            == Success(MakeLiteral(m.sign != Minus, m.ipart, m.fpart, ExponentValue(e) as i32))
  {
    var data := RenderSignificand(m) + RenderExponent(e);
    var at := |RenderSignificand(m)|;
    assert StartsWith(data, data) by {
      assert data[..|data|] == data;
    }
    RenderedSignificandEnds(m, e, data);
    FromBytesAtMarker(data, m, e);
  }

  /** A significand with digits followed by nothing but an exponent with
      no digits, or one whose value does not fit an `i32`, is rejected with
      that exponent's error. */
  lemma RejectExponent(m: Significand, e: BinaryExponent)
    requires SignificandShaped(m) && HasDigits(m)
    requires AllDecimalDigits(e.digits) && (e.digits == [] || !InI32(ExponentValue(e)))
    requires |RenderSignificand(m) + RenderExponent(e)| < MAX_INPUT_LENGTH
    ensures ExponentOutcome(e, |RenderSignificand(m)|).Failure?
    ensures FromBytes(RenderSignificand(m) + RenderExponent(e))
            == Failure(ExponentOutcome(e, |RenderSignificand(m)|).error)
  {
    var data := RenderSignificand(m) + RenderExponent(e);
    var at := |RenderSignificand(m)|;
    assert StartsWith(data, data) by {
      assert data[..|data|] == data;
    }
    RenderedSignificandEnds(m, e, data);
    assert StartsWith(data[at..], RenderExponent(e)) by {
      StartsWithConcat(data, RenderSignificand(m), RenderExponent(e));
    }
    assert ExponentPrefix(data, at, e);
    ExponentErrorComplete(data, m, e);
  }

  /** The normalization of a well-formed text's digits, with the text's
      sign and exponent, denotes the text and has its value. */
  lemma MakeLiteralDenotes(t: LiteralText)
    requires WellFormed(t)
    requires |t.significand.ipart| + |t.significand.fpart| < MAX_INPUT_LENGTH
    ensures var m := t.significand;
            var lit := MakeLiteral(m.sign != Minus, m.ipart, m.fpart, TextExponent(t) as i32);
            Denotes(t, lit) && Value(lit) == TextValue(t)
  {
    var m := t.significand;
    var lit := MakeLiteral(m.sign != Minus, m.ipart, m.fpart, TextExponent(t) as i32);
    assert DigitsValue(lit.digits, lit.decimalOffset as int) == Magnitude(m);
  }

  /** Every well-formed literal text is accepted, and the literal produced
      denotes it: same sign, same exponent (0 when the text has none),
      canonical digits, and the same value. It is the normalization of the
      text's digit runs. */
  lemma ParseComplete(t: LiteralText)
    requires WellFormed(t)
    requires |Render(t)| < MAX_INPUT_LENGTH
    ensures FromBytes(Render(t)).Success?
    ensures Denotes(t, FromBytes(Render(t)).value)
    ensures Value(FromBytes(Render(t)).value) == TextValue(t)
    ensures var m := t.significand;
            FromBytes(Render(t)).value == MakeLiteral(m.sign != Minus, m.ipart, m.fpart, TextExponent(t) as i32)
  {
    var m := t.significand;
    var lit := MakeLiteral(m.sign != Minus, m.ipart, m.fpart, TextExponent(t) as i32);
    assert FromBytes(Render(t)) == Success(lit) by {
      match t.exponent
      case None =>
        assert Render(t) == RenderSignificand(m);
        AcceptSignificand(m);
      case Some(e) =>
        assert Render(t) == RenderSignificand(m) + RenderExponent(e);
        AcceptSignificandAndExponent(m, e);
    }
    MakeLiteralDenotes(t);
  }

  /** The literal text the parser read: its significand, and the exponent
      read at the marker right after it, if there is one. */
  function TextRead(data: seq<byte>): LiteralText
    requires HasPrefixAt(data, SignLength(data))
  {
    var m := SignificandRead(data);
    var n := |RenderSignificand(m)|;
    LiteralText(m, if n < |data| && IsExponentMarker(data[n]) then Some(ExponentRead(data, n)) else None)
  }

  /** `data` is `a` followed by `b` when it starts with both in turn and
      has no more. */
  lemma JoinedAt(data: seq<byte>, a: seq<byte>, b: seq<byte>)
    requires StartsWith(data, a) && StartsWith(data[|a|..], b)
    requires |a| + |b| == |data|
    ensures data == a + b
  {
    assert data == data[..|a|] + data[|a|..];
    assert data[|a|..] == data[|a|..][..|b|];
  }

  /** An accepted input is the rendering of the well-formed text read. */
  lemma AcceptedText(data: seq<byte>)
    requires |data| < MAX_INPUT_LENGTH
    requires FromBytes(data).Success?
    ensures HasPrefixAt(data, SignLength(data))
    ensures WellFormed(TextRead(data)) && Render(TextRead(data)) == data
  {
    SignificandWithDigits(data);
    var m := SignificandRead(data);
    var n := |RenderSignificand(m)|;
    var t := TextRead(data);
    match t.exponent
    case None =>
      assert n == |data| by {
        FromBytesNoMarker(data, m);
      }
      assert data == data[..n];
    case Some(e) =>
      ReadExponentSound(data, n);
      assert ExponentShaped(e) && InI32(ExponentValue(e)) && n + |RenderExponent(e)| == |data| by {
        FromBytesAtMarker(data, m, e);
        ExponentOutcomeError(e, n);
      }
      JoinedAt(data, RenderSignificand(m), RenderExponent(e));
  }

  /** Every input `FromBytes` accepts is the rendering of the well-formed
      text it read, and the literal produced denotes that text. */
  lemma ParseSound(data: seq<byte>)
    requires |data| < MAX_INPUT_LENGTH
    requires FromBytes(data).Success?
    ensures HasPrefixAt(data, SignLength(data))
    ensures WellFormed(TextRead(data)) && Render(TextRead(data)) == data
    ensures Denotes(TextRead(data), FromBytes(data).value)
    ensures Value(FromBytes(data).value) == TextValue(TextRead(data))
  {
    AcceptedText(data);
    ParseComplete(TextRead(data));
  }

  /** `FromBytes` succeeds exactly on the renderings of well-formed texts. */
  lemma ParseAccepts(data: seq<byte>)
    requires |data| < MAX_INPUT_LENGTH
    ensures FromBytes(data).Success? <==> exists t :: WellFormed(t) && Render(t) == data
  {
    if FromBytes(data).Success? {
      ParseSound(data);
    }
    if t :| WellFormed(t) && Render(t) == data {
      ParseComplete(t);
    }
  }

  // ---------------------------------------------------------------------
  // The errors
  // ---------------------------------------------------------------------

  /** A significand with no digits renders as its sign and prefix. */
  lemma PrefixOnly(s: Sign, x: bool)
    ensures RenderSignificand(Significand(s, x, [], false, [])) == SignText(s) + PrefixText(x)
  {
  }

  /** With the prefix found, the error, if any, is not `MissingPrefix`. */
  lemma PrefixNotMissing(data: seq<byte>)
    requires |data| < MAX_INPUT_LENGTH
    requires HasPrefixAt(data, SignLength(data))
    ensures FromBytes(data).Failure? ==> FromBytes(data).error.kind != MissingPrefix
  {
  }

  /** Where the parser finds no prefix, no sign and prefix start `data`. */
  lemma NoPrefixSpelled(data: seq<byte>)
    requires !HasPrefixAt(data, SignLength(data))
    ensures forall s: Sign, x: bool :: !StartsWith(data, SignText(s) + PrefixText(x))
  {
    forall s: Sign, x: bool
      ensures !StartsWith(data, SignText(s) + PrefixText(x))
    {
      PrefixOnly(s, x);
      if StartsWith(data, SignText(s) + PrefixText(x)) {
        PrefixOfSignificand(data, Significand(s, x, [], false, []));
      }
    }
  }

  /** `MissingPrefix`, always at index 0, is reported exactly when `data`
      does not start with an optional sign followed by `0x` or `0X`. */
  lemma MissingPrefixIff(data: seq<byte>)
    requires |data| < MAX_INPUT_LENGTH
    ensures FromBytes(data) == Failure(MissingPrefix.At(0))
            <==> forall s: Sign, x: bool :: !StartsWith(data, SignText(s) + PrefixText(x))
  {
    if HasPrefixAt(data, SignLength(data)) {
      PrefixSpelled(data);
      PrefixNotMissing(data);
    } else {
      NoPrefixSpelled(data);
    }
  }

  /** `MissingDigits` at `k` is reported exactly when `data` starts with a
      significand that has no digits, ends at `k`, and is not followed by a
      byte that would extend it; the exponent is never looked at. */
  lemma MissingDigitsIff(data: seq<byte>, k: nat)
    requires |data| < MAX_INPUT_LENGTH
    ensures FromBytes(data) == Failure(MissingDigits.At(k))
            <==> exists m :: SignificandPrefix(data, m) && !HasDigits(m) && k == |RenderSignificand(m)|
  {
    if m :| SignificandPrefix(data, m) && !HasDigits(m) && k == |RenderSignificand(m)| {
      ReadSignificandUnique(data, m);
      FromBytesBySignificand(data);
    }
    if FromBytes(data) == Failure(MissingDigits.At(k)) {
      assert HasPrefixAt(data, SignLength(data));
      FromBytesBySignificand(data);
    }
  }

  /** An exponent error comes from the exponent read right after a
      significand with digits. */
  lemma ExponentErrorSound(data: seq<byte>)
    requires |data| < MAX_INPUT_LENGTH
    requires FromBytes(data).Failure?
    requires FromBytes(data).error.kind == MissingExponent || FromBytes(data).error.kind == ExponentOverflow
    ensures HasPrefixAt(data, SignLength(data))
    ensures var m := SignificandRead(data);
            var n := |RenderSignificand(m)|;
            && SignificandPrefix(data, m) && HasDigits(m)
            && n < |data| && IsExponentMarker(data[n])
            && ExponentPrefix(data, n, ExponentRead(data, n))
            && ExponentOutcome(ExponentRead(data, n), n) == Failure(FromBytes(data).error)
  {
    SignificandWithDigits(data);
    var m := SignificandRead(data);
    var n := |RenderSignificand(m)|;
    if n < |data| && IsExponentMarker(data[n]) {
      ReadExponentSound(data, n);
      FromBytesAtMarker(data, m, ExponentRead(data, n));
    } else {
      FromBytesNoMarker(data, m);
    }
  }

  /** An exponent with no digits, or with a value outside the `i32` range,
      after a significand with digits is reported by `FromBytes`. */
  lemma ExponentErrorComplete(data: seq<byte>, m: Significand, e: BinaryExponent)
    requires |data| < MAX_INPUT_LENGTH
    requires SignificandPrefix(data, m) && HasDigits(m)
    requires ExponentPrefix(data, |RenderSignificand(m)|, e)
    requires e.digits == [] || !InI32(ExponentValue(e))
    ensures ExponentOutcome(e, |RenderSignificand(m)|).Failure?
    ensures FromBytes(data) == Failure(ExponentOutcome(e, |RenderSignificand(m)|).error)
  {
    FromBytesAtMarker(data, m, e);
  }

  /** `MissingExponent` at `k` is reported exactly when `data` starts with a
      significand with digits, then a marker and optional sign with no digit
      after them, `k` being just after the marker. */
  lemma MissingExponentIff(data: seq<byte>, k: nat)
    requires |data| < MAX_INPUT_LENGTH
    ensures FromBytes(data) == Failure(MissingExponent.At(k))
            <==> exists m, e :: && SignificandPrefix(data, m) && HasDigits(m)
                                && ExponentPrefix(data, |RenderSignificand(m)|, e)
                                && e.digits == [] && k == |RenderSignificand(m)| + 1
  {
    if m, e :| && SignificandPrefix(data, m) && HasDigits(m)
               && ExponentPrefix(data, |RenderSignificand(m)|, e)
               && e.digits == [] && k == |RenderSignificand(m)| + 1 {
      ExponentErrorComplete(data, m, e);
    }
    if FromBytes(data) == Failure(MissingExponent.At(k)) {
      ExponentErrorSound(data);
      var m := SignificandRead(data);
      var n := |RenderSignificand(m)|;
      assert n < |data| && IsExponentMarker(data[n]);
      var e := ExponentRead(data, n);
      assert ExponentPrefix(data, n, e);
      ExponentOutcomeError(e, n);
      assert e.digits == [] && k == |RenderSignificand(m)| + 1;
    }
  }

  /** `ExponentOverflow` at `k` is reported exactly when `data` starts with a
      significand with digits, then a complete exponent whose signed value
      lies outside the `i32` range, `k` being just after the marker. */
  lemma ExponentOverflowIff(data: seq<byte>, k: nat)
    requires |data| < MAX_INPUT_LENGTH
    ensures FromBytes(data) == Failure(ExponentOverflow.At(k))
            <==> exists m, e :: && SignificandPrefix(data, m) && HasDigits(m)
                                && ExponentPrefix(data, |RenderSignificand(m)|, e)
                                && e.digits != [] && !InI32(ExponentValue(e))
                                && k == |RenderSignificand(m)| + 1
  {
    if m, e :| && SignificandPrefix(data, m) && HasDigits(m)
               && ExponentPrefix(data, |RenderSignificand(m)|, e)
               && e.digits != [] && !InI32(ExponentValue(e))
               && k == |RenderSignificand(m)| + 1 {
      ExponentErrorComplete(data, m, e);
    }
    if FromBytes(data) == Failure(ExponentOverflow.At(k)) {
      ExponentErrorSound(data);
      var m := SignificandRead(data);
      var n := |RenderSignificand(m)|;
      assert n < |data| && IsExponentMarker(data[n]);
      var e := ExponentRead(data, n);
      assert ExponentPrefix(data, n, e);
      ExponentOutcomeError(e, n);
      assert e.digits != [] && !InI32(ExponentValue(e)) && k == |RenderSignificand(m)| + 1;
    }
  }

  /** A significand with digits, followed by a byte that is no exponent
      marker and does not extend it, is reported as `MissingEnd` at that
      byte. */
  lemma EndAfterSignificand(data: seq<byte>, m: Significand)
    requires |data| < MAX_INPUT_LENGTH
    requires SignificandPrefix(data, m) && HasDigits(m)
    requires |RenderSignificand(m)| < |data| && !IsExponentMarker(data[|RenderSignificand(m)|])
    ensures FromBytes(data) == Failure(MissingEnd.At(|RenderSignificand(m)|))
  {
    FromBytesNoMarker(data, m);
  }

  /** A significand with digits and an exponent that fits, followed by a
      byte that is no digit, is reported as `MissingEnd` at that byte. */
  lemma EndAfterExponent(data: seq<byte>, m: Significand, e: BinaryExponent)
    requires |data| < MAX_INPUT_LENGTH
    requires SignificandPrefix(data, m) && HasDigits(m)
    requires ExponentPrefix(data, |RenderSignificand(m)|, e)
    requires e.digits != [] && InI32(ExponentValue(e))
    requires |RenderSignificand(m) + RenderExponent(e)| < |data|
    ensures FromBytes(data) == Failure(MissingEnd.At(|RenderSignificand(m) + RenderExponent(e)|))
  {
    var n := |RenderSignificand(m)|;
    var end := n + |RenderExponent(e)|;
    assert ExponentOutcome(e, n) == Success((ExponentValue(e) as i32, end));
    FromBytesAtMarker(data, m, e);
    assert FromBytes(data) == Failure(MissingEnd.At(end));
    assert |RenderSignificand(m) + RenderExponent(e)| == end;
  }

  /** A complete literal followed by a byte that cannot continue it is
      reported as `MissingEnd` at that byte. */
  lemma MissingEndComplete(data: seq<byte>, t: LiteralText)
    requires |data| < MAX_INPUT_LENGTH
    requires WellFormed(t) && StartsWith(data, Render(t)) && |Render(t)| < |data|
    requires !ExtendsLiteral(t, data[|Render(t)|])
    ensures FromBytes(data) == Failure(MissingEnd.At(|Render(t)|))
  {
    var m := t.significand;
    var n := |RenderSignificand(m)|;
    match t.exponent
    case None =>
      assert Render(t) == RenderSignificand(m);
      assert !ExtendsSignificand(m, data[n]);
      EndAfterSignificand(data, m);
    case Some(e) =>
      assert Render(t) == RenderSignificand(m) + RenderExponent(e);
      EndAfterRenderedExponent(data, m, e);
  }

  /** `EndAfterExponent`, for the rendering of a significand and exponent. */
  lemma EndAfterRenderedExponent(data: seq<byte>, m: Significand, e: BinaryExponent)
    requires |data| < MAX_INPUT_LENGTH
    requires SignificandShaped(m) && HasDigits(m) && ExponentShaped(e) && InI32(ExponentValue(e))
    requires StartsWith(data, RenderSignificand(m) + RenderExponent(e))
    requires |RenderSignificand(m) + RenderExponent(e)| < |data|
    requires !IsDecimalDigit(data[|RenderSignificand(m) + RenderExponent(e)|])
    ensures FromBytes(data) == Failure(MissingEnd.At(|RenderSignificand(m) + RenderExponent(e)|))
  {
    var n := |RenderSignificand(m)|;
    assert SignificandPrefix(data, m) && ExponentPrefix(data, n, e) by {
      RenderedSignificandEnds(m, e, data);
      StartsWithConcat(data, RenderSignificand(m), RenderExponent(e));
    }
    EndAfterExponent(data, m, e);
  }

  /** What the parser read before reporting `MissingEnd`: a significand with
      digits and, when a marker follows it, an exponent that fits; the report
      is right after them. */
  lemma EndReported(data: seq<byte>)
    requires |data| < MAX_INPUT_LENGTH
    requires FromBytes(data).Failure? && FromBytes(data).error.kind == MissingEnd
    ensures HasPrefixAt(data, SignLength(data))
    ensures var m := SignificandRead(data);
            var n := |RenderSignificand(m)|;
            && SignificandPrefix(data, m) && HasDigits(m)
            && (n < |data| && IsExponentMarker(data[n]) ==>
                  var e := ExponentRead(data, n);
                  && ExponentPrefix(data, n, e) && e.digits != [] && InI32(ExponentValue(e))
                  && FromBytes(data).error.index == n + |RenderExponent(e)|)
            && ((n == |data| || !IsExponentMarker(data[n])) ==> FromBytes(data).error.index == n)
  {
    SignificandWithDigits(data);
    var m := SignificandRead(data);
    var n := |RenderSignificand(m)|;
    if n < |data| && IsExponentMarker(data[n]) {
      var e := ExponentRead(data, n);
      ReadExponentSound(data, n);
      FromBytesAtMarker(data, m, e);
      ExponentOutcomeError(e, n);
    } else {
      FromBytesNoMarker(data, m);
    }
  }

  /** A `MissingEnd` report comes after the complete literal the parser
      read, at the first byte that cannot continue it. */
  lemma MissingEndSound(data: seq<byte>)
    requires |data| < MAX_INPUT_LENGTH
    requires FromBytes(data).Failure? && FromBytes(data).error.kind == MissingEnd
    ensures HasPrefixAt(data, SignLength(data))
    ensures var t := TextRead(data);
            && WellFormed(t) && StartsWith(data, Render(t))
            && |Render(t)| == FromBytes(data).error.index < |data|
            && !ExtendsLiteral(t, data[|Render(t)|])
  {
    EndReported(data);
    var m := SignificandRead(data);
    var n := |RenderSignificand(m)|;
    if n < |data| && IsExponentMarker(data[n]) {
      var e := ExponentRead(data, n);
      assert TextRead(data) == LiteralText(m, Some(e));
      StopsAfterExponent(data, m, e);
    } else {
      assert TextRead(data) == LiteralText(m, None);
      StopsAfterSignificand(data, m);
    }
  }

  /** A significand with digits, not followed by a marker but by some other
      byte, is a complete literal that byte cannot continue. */
  lemma StopsAfterSignificand(data: seq<byte>, m: Significand)
    requires SignificandPrefix(data, m) && HasDigits(m)
    requires |RenderSignificand(m)| < |data| && !IsExponentMarker(data[|RenderSignificand(m)|])
    ensures var t := LiteralText(m, None);
            && WellFormed(t) && StartsWith(data, Render(t))
            && |Render(t)| == |RenderSignificand(m)|
            && !ExtendsLiteral(t, data[|Render(t)|])
  {
    assert Render(LiteralText(m, None)) == RenderSignificand(m);
  }

  /** A significand with digits and an exponent that fits, followed by a
      byte that is no digit, is a complete literal that byte cannot
      continue. */
  lemma StopsAfterExponent(data: seq<byte>, m: Significand, e: BinaryExponent)
    requires SignificandPrefix(data, m) && HasDigits(m)
    requires ExponentPrefix(data, |RenderSignificand(m)|, e) && e.digits != [] && InI32(ExponentValue(e))
    requires |RenderSignificand(m)| + |RenderExponent(e)| < |data|
    ensures var t := LiteralText(m, Some(e));
            && WellFormed(t) && StartsWith(data, Render(t))
            && |Render(t)| == |RenderSignificand(m)| + |RenderExponent(e)|
            && !ExtendsLiteral(t, data[|Render(t)|])
  {
    assert Render(LiteralText(m, Some(e))) == RenderSignificand(m) + RenderExponent(e);
    StartsWithConcat(data, RenderSignificand(m), RenderExponent(e));
  }

  /** `MissingEnd` at `k` is reported exactly when `data` starts with the
      rendering of a well-formed text, ending at `k`, and the byte at `k`
      cannot continue it. */
  lemma MissingEndIff(data: seq<byte>, k: nat)
    requires |data| < MAX_INPUT_LENGTH
    ensures FromBytes(data) == Failure(MissingEnd.At(k))
            <==> exists t :: && WellFormed(t) && StartsWith(data, Render(t))
                             && |Render(t)| < |data| && !ExtendsLiteral(t, data[|Render(t)|])
                             && k == |Render(t)|
  {
    if t :| && WellFormed(t) && StartsWith(data, Render(t))
            && |Render(t)| < |data| && !ExtendsLiteral(t, data[|Render(t)|])
            && k == |Render(t)| {
      MissingEndComplete(data, t);
    }
    if FromBytes(data) == Failure(MissingEnd.At(k)) {
      MissingEndSound(data);
    }
  }
}
