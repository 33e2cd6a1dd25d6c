/** Exact values of hexadecimal digit strings.

    A digit string is given a value in three independent ways:
    - `DigitsValue`, the place-value sum Σ ds[i]·16^(offset−1−i) that a
      normalized `FloatLiteral` stands for;
    - `IntegerValue`, Horner's rule read from the left, for the digits before
      the point;
    - `FractionValue`, Horner's rule read from the right, for the digits after
      the point.
    The lemmas here connect the three. Scales are defined one factor of the
    constant base at a time, which keeps every definition linear. */
module Numeric {
  import opened Bytes

  /** `16^e` as an exact rational, for any integer `e`. */
  function Scale16(e: int): real
    decreases if e >= 0 then e else -e
  {
    if e == 0 then 1.0
    else if e > 0 then 16.0 * Scale16(e - 1)
    else Scale16(e + 1) / 16.0
  }

  /** `2^e` as an exact rational, for any integer `e`. */
  function Scale2(e: int): real
    decreases if e >= 0 then e else -e
  {
    if e == 0 then 1.0
    else if e > 0 then 2.0 * Scale2(e - 1)
    else Scale2(e + 1) / 2.0
  }

  /** ± magnitude · 2^exponent: the number a sign, a magnitude and a binary
      exponent stand for together. */
  function SignedScaled(positive: bool, magnitude: real, exponent: int): real {
    (if positive then 1.0 else -1.0) * magnitude * Scale2(exponent)
  }

  /** One place up multiplies by 16, on either side of zero. */
  lemma Scale16Step(e: int)
    ensures Scale16(e + 1) == 16.0 * Scale16(e)
  {
  }

  /** Every power of 2 is positive. */
  lemma {:induction false} Scale2Positive(e: int)
    ensures Scale2(e) > 0.0
    decreases if e >= 0 then e else -e
  {
    if e > 0 {
      Scale2Positive(e - 1);
    } else if e < 0 {
      Scale2Positive(e + 1);
    }
  }

  /** Every power of 16 is positive. */
  lemma {:induction false} Scale16Positive(e: int)
    ensures Scale16(e) > 0.0
    decreases if e >= 0 then e else -e
  {
    if e > 0 {
      Scale16Positive(e - 1);
    } else if e < 0 {
      Scale16Positive(e + 1);
    }
  }

  /** Σ ds[i]·16^(offset−1−i): the digits laid out so that the first one
      sits just left of place `offset`, counting hexadecimal places from the
      point. */
  function DigitsValue(ds: seq<byte>, offset: int): real
  {
    if |ds| == 0 then 0.0
    else ds[0] as real * Scale16(offset - 1) + DigitsValue(ds[1..], offset - 1)
  }

  /** Digits are never negative, so neither is their value. */
  lemma {:induction false} DigitsValueNonNegative(ds: seq<byte>, offset: int)
    ensures DigitsValue(ds, offset) >= 0.0
  {
    if |ds| > 0 {
      DigitsValueNonNegative(ds[1..], offset - 1);
      Scale16Positive(offset - 1);
    }
  }

  /** A nonzero leading digit makes the value positive. */
  lemma DigitsValuePositive(ds: seq<byte>, offset: int)
    requires |ds| > 0 && ds[0] != 0
    ensures DigitsValue(ds, offset) > 0.0
  {
    DigitsValueNonNegative(ds[1..], offset - 1);
    Scale16Positive(offset - 1);
    assert ds[0] as real >= 1.0;
  }

  /** Horner's rule from the left, continuing from the value `acc` of the
      digits already read. */
  function Horner(acc: real, ds: seq<byte>): real
    decreases ds
  {
    if |ds| == 0 then acc else Horner(acc * 16.0 + ds[0] as real, ds[1..])
  }

  /** The value of a run of integer digits. */
  function IntegerValue(ds: seq<byte>): real
  {
    Horner(0.0, ds)
  }

  /** The value of a run of fraction digits: each digit plus the value of
      the digits after it, divided by 16. */
  function FractionValue(ds: seq<byte>): real
  {
    if |ds| == 0 then 0.0 else (ds[0] as real + FractionValue(ds[1..])) / 16.0
  }

  /** The value of the text `ipart.fpart` read in base 16, given the digit
      values of both runs. */
  function FixedPointValue(ipart: seq<byte>, fpart: seq<byte>): real
  {
    IntegerValue(ipart) + FractionValue(fpart)
  }

  /** Moving every digit one place up multiplies the value by 16. */
  lemma {:induction false} DigitsValueShift(ds: seq<byte>, offset: int)
    ensures DigitsValue(ds, offset + 1) == 16.0 * DigitsValue(ds, offset)
  {
    if |ds| > 0 {
      DigitsValueShift(ds[1..], offset - 1);
      Scale16Step(offset - 1);
      Distribute16(ds[0] as real, Scale16(offset - 1), Scale16(offset),
                   DigitsValue(ds[1..], offset - 1), DigitsValue(ds[1..], offset));
    }
  }

  /** `d·(16·s) + 16·r == 16·(d·s + r)` */
  lemma Distribute16(d: real, s: real, s1: real, r: real, r1: real)
    requires s1 == 16.0 * s
    requires r1 == 16.0 * r
    ensures d * s1 + r1 == 16.0 * (d * s + r)
  {
  }

  /** The digits of `a + b` are those of `a`, followed by those of `b`
      starting `|a|` places further down. */
  lemma {:induction false} DigitsValueConcat(a: seq<byte>, b: seq<byte>, offset: int)
    ensures DigitsValue(a + b, offset) == DigitsValue(a, offset) + DigitsValue(b, offset - |a|)
  {
    if |a| == 0 {
      assert a + b == b;
    } else {
      assert (a + b)[0] == a[0];
      assert (a + b)[1..] == a[1..] + b;
      DigitsValueConcat(a[1..], b, offset - 1);
    }
  }

  /** Zero digits contribute nothing, wherever they sit. */
  lemma {:induction false} DigitsValueOfZeros(ds: seq<byte>, offset: int)
    requires forall i :: 0 <= i < |ds| ==> ds[i] == 0
    ensures DigitsValue(ds, offset) == 0.0
  {
    if |ds| > 0 {
      DigitsValueOfZeros(ds[1..], offset - 1);
    }
  }

  /** Horner's rule, started from `acc`, shifts `acc` past the digits and
      adds their place values. */
  lemma {:induction false} HornerIsDigitsValue(acc: real, ds: seq<byte>)
    ensures Horner(acc, ds) == acc * Scale16(|ds|) + DigitsValue(ds, |ds|)
    decreases ds
  {
    if |ds| > 0 {
      var rest := ds[1..];
      HornerIsDigitsValue(acc * 16.0 + ds[0] as real, rest);
      Scale16Step(|rest|);
      HornerStep(acc, ds[0] as real, Scale16(|rest|), Scale16(|ds|), DigitsValue(rest, |rest|));
    }
  }

  /** `(a·16 + d)·s + r == a·(16·s) + (d·s + r)` */
  lemma HornerStep(a: real, d: real, s: real, s1: real, r: real)
    requires s1 == 16.0 * s
    ensures (a * 16.0 + d) * s + r == a * s1 + (d * s + r)
  {
  }

  /** Integer digits sit just left of the point. */
  lemma IntegerValueIsDigitsValue(ds: seq<byte>)
    ensures IntegerValue(ds) == DigitsValue(ds, |ds|)
  {
    HornerIsDigitsValue(0.0, ds);
  }

  /** Fraction digits sit just right of the point. */
  lemma {:induction false} FractionValueIsDigitsValue(ds: seq<byte>)
    ensures FractionValue(ds) == DigitsValue(ds, 0)
  {
    if |ds| > 0 {
      FractionValueIsDigitsValue(ds[1..]);
      DigitsValueShift(ds[1..], -1);
      assert Scale16(-1) == 1.0 / 16.0;
    }
  }

  /** Reading `ipart.fpart` is reading all its digits with the point `|ipart|`
      places in. */
  lemma FixedPointValueIsDigitsValue(ipart: seq<byte>, fpart: seq<byte>)
    ensures FixedPointValue(ipart, fpart) == DigitsValue(ipart + fpart, |ipart|)
  {
    DigitsValueConcat(ipart, fpart, |ipart|);
    IntegerValueIsDigitsValue(ipart);
    FractionValueIsDigitsValue(fpart);
  }
}
