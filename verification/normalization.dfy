/** The second stage of `FloatLiteral::from_bytes`: the two digit runs are
    joined, the `'0'` digits at both ends are dropped, the rest become nibble
    values, and the position of the hexadecimal point is recorded relative to
    the first digit kept. */
module Normalization {
  import opened Wrappers
  import opened Bytes
  import opened ParseUtils
  import opened Literals
  import opened Numeric

  /** `iter().position(|&d| d != b'0')`, searching from `from` on. */
  function FirstSignificant(raw: seq<byte>, from: nat): (r: Option<nat>)
    requires from <= |raw|
    ensures r.None? ==> forall i :: from <= i < |raw| ==> raw[i] == ZERO
    ensures r.Some? ==> from <= r.value < |raw| && raw[r.value] != ZERO
    ensures r.Some? ==> forall i :: from <= i < r.value ==> raw[i] == ZERO
    decreases |raw| - from
  {
    if from == |raw| then None
    else if raw[from] != ZERO then Some(from)
    else FirstSignificant(raw, from + 1)
  }

  /** `iter().rposition(|&d| d != b'0')`, searching `raw[..upto]`. */
  function LastSignificant(raw: seq<byte>, upto: nat): (r: Option<nat>)
    requires upto <= |raw|
    ensures r.None? ==> forall i :: 0 <= i < upto ==> raw[i] == ZERO
    ensures r.Some? ==> r.value < upto && raw[r.value] != ZERO
    ensures r.Some? ==> forall i :: r.value < i < upto ==> raw[i] == ZERO
  {
    if upto == 0 then None
    else if raw[upto - 1] != ZERO then Some(upto - 1)
    else LastSignificant(raw, upto - 1)
  }

  /** The normalization of src/lib.rs: the significant digits of
      `ipart ++ fpart` as nibbles, and `decimal_offset`, the number of those
      digits' places that lie left of the point (negative when the first
      significant digit is further right). All-zero input gives no digits and
      offset 0. The kept digits, the first one `decimal_offset` places left of
      the point, are worth exactly what the text `ipart.fpart` is worth. */
  function Normalize(ipart: seq<byte>, fpart: seq<byte>): (r: (seq<byte>, int))
    requires AllHexDigits(ipart) && AllHexDigits(fpart)
    ensures Trimmed(r.0)
    ensures |r.0| == 0 <==> forall i :: 0 <= i < |ipart + fpart| ==> (ipart + fpart)[i] == ZERO
    ensures |r.0| == 0 ==> r.1 == 0
    ensures |r.0| > 0 ==> -|fpart| < r.1 <= |ipart|
    ensures |r.0| <= |ipart| + |fpart|
    ensures DigitsValue(r.0, r.1) == FixedPointValue(ToNibbles(ipart), ToNibbles(fpart))
  {
    var raw := ipart + fpart;
    match FirstSignificant(raw, 0)
    case None =>
      AllZerosValue(ipart, fpart);
      ([], 0)
    case Some(first) =>
      var last := LastSignificant(raw, |raw|);
      assert last.Some?;
      assert first <= last.value;
      KeepSignificant(ipart, fpart, first, last.value)
  }

  /** The digits from the first significant one to the last, as nibbles,
      with the first one `|ipart| - first` places left of the point. */
  function KeepSignificant(ipart: seq<byte>, fpart: seq<byte>, first: nat, last: nat): (r: (seq<byte>, int))
    requires AllHexDigits(ipart) && AllHexDigits(fpart)
    requires first <= last < |ipart + fpart|
    requires (ipart + fpart)[first] != ZERO && (ipart + fpart)[last] != ZERO
    requires forall i :: 0 <= i < first ==> (ipart + fpart)[i] == ZERO
    requires forall i :: last < i < |ipart + fpart| ==> (ipart + fpart)[i] == ZERO
    ensures Trimmed(r.0) && 0 < |r.0| <= |ipart| + |fpart|
    ensures r.1 == |ipart| - first
    ensures DigitsValue(r.0, r.1) == FixedPointValue(ToNibbles(ipart), ToNibbles(fpart))
  {
    KeptDigitsValue(ipart, fpart, first, last);
    KeptDigitsTrimmed(ipart + fpart, first, last);
    (ToNibbles((ipart + fpart)[first..last + 1]), |ipart| - first)
  }

  /** The digits from one significant digit to another, as nibbles, start
      and end with a nonzero nibble. */
  lemma KeptDigitsTrimmed(raw: seq<byte>, first: nat, last: nat)
    requires first <= last < |raw|
    requires raw[first] != ZERO && raw[last] != ZERO
    requires AllHexDigits(raw[first..last + 1])
    ensures var ds := ToNibbles(raw[first..last + 1]);
            Trimmed(ds) && |ds| == last + 1 - first
  {
    var kept := raw[first..last + 1];
    var ds := ToNibbles(kept);
    assert kept[0] == raw[first];
    assert kept[|kept| - 1] == raw[last];
    assert HexDigitToInt(kept[0]) == Some(ds[0]);
    assert HexDigitToInt(kept[|kept| - 1]) == Some(ds[|ds| - 1]);
  }

  /** Nibbles are taken digit by digit, so they commute with joining and
      slicing. */
  lemma NibblesOfConcat(a: seq<byte>, b: seq<byte>)
    requires AllHexDigits(a) && AllHexDigits(b)
    ensures AllHexDigits(a + b)
    ensures ToNibbles(a + b) == ToNibbles(a) + ToNibbles(b)
  {
    assert AllHexDigits(a + b) by {
      forall i | 0 <= i < |a + b|
        ensures IsHexDigit((a + b)[i])
      {
        if i < |a| {
          assert (a + b)[i] == a[i];
        } else {
          assert (a + b)[i] == b[i - |a|];
        }
      }
    }
    var whole := ToNibbles(a + b);
    var parts := ToNibbles(a) + ToNibbles(b);
    assert |whole| == |parts|;
    forall i | 0 <= i < |whole|
      ensures whole[i] == parts[i]
    {
      if i < |a| {
        assert (a + b)[i] == a[i];
        assert parts[i] == ToNibbles(a)[i];
      } else {
        assert (a + b)[i] == b[i - |a|];
        assert parts[i] == ToNibbles(b)[i - |a|];
      }
    }
  }

  /** Dropping zero digits from both ends keeps the value, once the place
      of the first digit kept is moved down by the number dropped in front. */
  lemma TrimPreservesValue(all: seq<byte>, first: nat, last: nat, offset: int)
    requires first <= last < |all|
    requires forall i :: 0 <= i < first ==> all[i] == 0
    requires forall i :: last < i < |all| ==> all[i] == 0
    ensures DigitsValue(all, offset) == DigitsValue(all[first..last + 1], offset - first)
  {
    var leading := all[..first];
    var kept := all[first..last + 1];
    var trailing := all[last + 1..];
    assert all == leading + kept + trailing;
    DigitsValueConcat(leading + kept, trailing, offset);
    DigitsValueConcat(leading, kept, offset);
    DigitsValueOfZeros(leading, offset);
    DigitsValueOfZeros(trailing, offset - |leading + kept|);
  }

  /** Digits that are all `'0'` are worth zero. */
  lemma AllZerosValue(ipart: seq<byte>, fpart: seq<byte>)
    requires AllHexDigits(ipart) && AllHexDigits(fpart)
    requires forall i :: 0 <= i < |ipart + fpart| ==> (ipart + fpart)[i] == ZERO
    ensures FixedPointValue(ToNibbles(ipart), ToNibbles(fpart)) == 0.0
  {
    var raw := ipart + fpart;
    NibblesOfConcat(ipart, fpart);
    var all := ToNibbles(raw);
    FixedPointValueIsDigitsValue(ToNibbles(ipart), ToNibbles(fpart));
    assert forall i :: 0 <= i < |all| ==> all[i] == 0;
    DigitsValueOfZeros(all, |ipart|);
  }

  /** The digits between the first and the last significant one, with the
      first `|ipart| - first` places left of the point, are worth what
      `ipart.fpart` is worth. */
  lemma KeptDigitsValue(ipart: seq<byte>, fpart: seq<byte>, first: nat, last: nat)
    requires AllHexDigits(ipart) && AllHexDigits(fpart)
    requires first <= last < |ipart + fpart|
    requires forall i :: 0 <= i < first ==> (ipart + fpart)[i] == ZERO
    requires forall i :: last < i < |ipart + fpart| ==> (ipart + fpart)[i] == ZERO
    ensures AllHexDigits((ipart + fpart)[first..last + 1])
    ensures DigitsValue(ToNibbles((ipart + fpart)[first..last + 1]), |ipart| - first)
            == FixedPointValue(ToNibbles(ipart), ToNibbles(fpart))
  {
    var raw := ipart + fpart;
    NibblesOfConcat(ipart, fpart);
    var all := ToNibbles(raw);
    FixedPointValueIsDigitsValue(ToNibbles(ipart), ToNibbles(fpart));
    assert forall i :: 0 <= i < |raw| ==> (all[i] == 0 <==> raw[i] == ZERO);
    var kept := raw[first..last + 1];
    assert AllHexDigits(kept) by {
      forall i | 0 <= i < |kept|
        ensures IsHexDigit(kept[i])
      {
        assert kept[i] == raw[first + i];
      }
    }
    assert ToNibbles(kept) == all[first..last + 1];
    TrimPreservesValue(all, first, last, |ipart|);
  }
}
