/** The node identifiers of E2AP whose type is a BIT STRING with a size constraint. */
module NodeIds {
  import opened Wrappers
  import opened Bits
  import opened PerSupport
  import opened BitStrings
  import opened BitStringUper

  const GNB_ID := SizeConstraint(true, false, 4, 22, 32)
  const ENB_ID_MACRO := SizeConstraint(true, false, 0, 20, 20)
  const ENB_ID_SHORT_MACRO := SizeConstraint(true, false, 0, 18, 18)
  const ENB_ID_LONG_MACRO := SizeConstraint(true, false, 0, 21, 21)

  /** The generated checks mask the unused bits with 7, whatever the field holds. */
  function SizeInBits(v: BitStr): (n: int)
    ensures v.WellFormed() ==> n == v.BitLength()
  {
    if v.bytes != [] then 8 * |v.bytes| - v.unused % 8 else 0
  }

  /** The check that goes with a size constraint. */
  predicate Accepted(c: SizeConstraint, v: BitStr) {
    c.lower <= SizeInBits(v) <= c.upper
  }

  /** The encoder succeeds on the value (BitStringUper.EncodeUper). */
  predicate Encodable(c: SizeConstraint, v: BitStr) {
    v.WellFormed() && c.Fits(|v.Significant()|)
  }

  /** What the decoder puts into a fresh structure (BitStringUper.DecodeUper). */
  function ReadBack(c: SizeConstraint, s: seq<bool>): BitStr
    requires c.lower >= 0 && Decoding(c, s).Some?
  {
    var bits := Decoding(c, s).value.0;
    BitStr(Pack(bits), DecodedUnused(c, s, |bits|, 0))
  }

  lemma ReadBackDeclares(c: SizeConstraint, t: seq<bool>, suffix: seq<bool>)
    requires c.WellFormed() && c.Fits(|t|)
    ensures var s := Encoding(c, t) + suffix;
            && Decoding(c, s) == Some((Transmitted(c, t), suffix))
            && ReadBack(c, s).bytes == Pack(Transmitted(c, t))
            && ReadBack(c, s).WellFormed() && ReadBack(c, s).Declared() == Transmitted(c, t)
  {
    RoundTrip(c, t, suffix);
    ReusedStructure(c, Encoding(c, t) + suffix, 0);
  }

  lemma ConstraintsAreWellFormed()
    ensures GNB_ID.WellFormed() && ENB_ID_MACRO.WellFormed()
    ensures ENB_ID_SHORT_MACRO.WellFormed() && ENB_ID_LONG_MACRO.WellFormed()
  {
    assert Pow2(4) == 16;
  }

  /** What the checks accept: 22 to 32 bits, and exactly 20, 18 and 21 bits, where only the low three
      bits of the field count as unused bits. */
  lemma AcceptedSizes(v: BitStr)
    ensures var n := if v.bytes == [] then 0 else 8 * |v.bytes| - v.unused % 8;
            && (Accepted(GNB_ID, v) <==> 22 <= n <= 32)
            && (Accepted(ENB_ID_MACRO, v) <==> n == 20)
            && (Accepted(ENB_ID_SHORT_MACRO, v) <==> n == 18)
            && (Accepted(ENB_ID_LONG_MACRO, v) <==> n == 21)
  {
  }

  /** What identifiers look like on the wire: a gNB identifier is its number of bits less 22 in 4 bits,
      and the bits; an eNB identifier is its 20, 18 or 21 bits. */
  lemma IdentifiersOnWire(t: seq<bool>)
    ensures |t| <= 32 ==>
              var s, n := Encoding(GNB_ID, t), if |t| < 22 then 22 else |t|;
              && |s| == 4 + n && BitsNat(s[..4]) == n - 22
              && forall i | 0 <= i < n :: s[4 + i] == At(t, i)
    ensures |t| <= 20 ==> |Encoding(ENB_ID_MACRO, t)| == 20 && t <= Encoding(ENB_ID_MACRO, t)
    ensures |t| <= 18 ==> |Encoding(ENB_ID_SHORT_MACRO, t)| == 18 && t <= Encoding(ENB_ID_SHORT_MACRO, t)
    ensures |t| <= 21 ==> |Encoding(ENB_ID_LONG_MACRO, t)| == 21 && t <= Encoding(ENB_ID_LONG_MACRO, t)
  {
    ConstraintsAreWellFormed();
    hide Encoding, BitsNat;
    if |t| <= 32 {
      EncodingForm(GNB_ID, t);
    }
    FixedOnWire(ENB_ID_MACRO, t);
    FixedOnWire(ENB_ID_SHORT_MACRO, t);
    FixedOnWire(ENB_ID_LONG_MACRO, t);
  }

  lemma FixedOnWire(c: SizeConstraint, t: seq<bool>)
    requires c.WellFormed() && c.effectiveBits == 0 && !c.extensible && c.lower == c.upper
    ensures |t| <= c.upper ==> |Encoding(c, t)| == c.upper && t <= Encoding(c, t)
  {
    hide Encoding, BitsNat;
    if |t| <= c.upper {
      EncodingForm(c, t);
      assert forall i | 0 <= i < |t| :: Encoding(c, t)[0 + i] == At(t, i) == t[i];
    }
  }

  /** Of the gNB identifiers the check accepts, exactly those with at most 7 unused bits encode;
      and what is read back is accepted again and compares as equal. */
  lemma GnbIdClosure(v: BitStr, suffix: seq<bool>)
    requires Accepted(GNB_ID, v)
    ensures Encodable(GNB_ID, v) <==> 0 <= v.unused <= 7
    ensures Encodable(GNB_ID, v) ==>
              var s := Encoding(GNB_ID, v.Significant()) + suffix;
              && Decoding(GNB_ID, s).Some? && Decoding(GNB_ID, s).value.1 == suffix
              && Accepted(GNB_ID, ReadBack(GNB_ID, s))
              && Same(Unpack(ReadBack(GNB_ID, s).bytes), Unpack(v.bytes))
  {
    ConstraintsAreWellFormed();
    if 0 <= v.unused <= 7 {
      assert |v.bytes| <= 4;
      ReadBackDeclares(GNB_ID, v.Significant(), suffix);
      RoundTripIsEqual(GNB_ID, v, suffix);
    }
  }

  /** The check accepts some gNB identifiers that the encoder refuses: it ignores the upper bits of
      the unused-bits field. */
  lemma AcceptedButNotEncodable()
    ensures var v := BitStr([1, 2, 3], 8);
            Accepted(GNB_ID, v) && !Encodable(GNB_ID, v)
  {
  }

  /** The decoder does not look at the upper bound: what it reads as a gNB identifier passes the check
      exactly when the length field holds at most 10, and the field can hold 15. */
  lemma DecodedGnbIdNeedsCheck(s: seq<bool>)
    requires Decoding(GNB_ID, s).Some?
    ensures |s| >= 4
    ensures Accepted(GNB_ID, ReadBack(GNB_ID, s)) <==> BitsNat(s[..4]) <= 10
  {
    ReusedStructure(GNB_ID, s, 0);
  }

  /** Every length field from 11 to 15, with as many bits as it announces, is such an input: it is
      decoded, and the check rejects the result. */
  lemma DecodedGnbIdTooLong(field: nat, bits: seq<bool>, suffix: seq<bool>)
    requires 11 <= field <= 15 && |bits| == 22 + field
    ensures var s := NatBits(field, 4) + bits + suffix;
            && Decoding(GNB_ID, s) == Some((bits, suffix))
            && !Accepted(GNB_ID, ReadBack(GNB_ID, s))
  {
    var s := NatBits(field, 4) + bits + suffix;
    assert Pow2(4) == 16;
    BitsNatOfNatBits(field, 4);
    HeadAndRest(NatBits(field, 4), bits, suffix);
    assert ReadLength(s, 4, 22) == Length(|bits|, false, bits + suffix);
    DecodedGnbIdNeedsCheck(s);
  }

  /** Of the identifiers of a fixed size that the check accepts, exactly the zero-padded ones with
      at most 7 unused bits encode; and these come back identical. */
  lemma FixedSizeClosure(c: SizeConstraint, v: BitStr, suffix: seq<bool>)
    requires c.WellFormed() && c.effectiveBits == 0 && !c.extensible && c.lower > 0
    requires Accepted(c, v)
    ensures Encodable(c, v) <==> 0 <= v.unused <= 7 && v.ZeroPadded()
    ensures Encodable(c, v) ==>
              var s := Encoding(c, v.Significant()) + suffix;
              && Decoding(c, s).Some? && Decoding(c, s).value.1 == suffix
              && ReadBack(c, s) == v
  {
    assert Pow2(0) == 1;
    if 0 <= v.unused <= 7 {
      assert v.WellFormed() && v.BitLength() == c.upper;
      PaddingIsTrailing(v);
      if v.ZeroPadded() {
        var t := v.Significant();
        ReadBackDeclares(c, t, suffix);
        DeclaredIsTransmitted(c, v);
        PackDeclared(v);
      }
    }
  }

  lemma DeclaredIsTransmitted(c: SizeConstraint, v: BitStr)
    requires v.WellFormed() && v.ZeroPadded()
    requires c.effectiveBits >= 0 && v.BitLength() == c.lower == c.upper
    ensures Transmitted(c, v.Significant()) == v.Declared()
  {
    PaddingIsTrailing(v);
    TrimKeepsBits(Unpack(v.bytes));
    hide Unpack;
    var x, y := Transmitted(c, v.Significant()), v.Declared();
    assert |x| == |y|;
    forall i | 0 <= i < |x|
      ensures x[i] == y[i]
    {
      assert x[i] == At(v.Significant(), i);
      assert y[i] == At(Unpack(v.bytes), i);
    }
  }

  /** The eNB identifiers: macro, short macro and long macro. */
  lemma EnbIdClosure(v: BitStr, suffix: seq<bool>)
    ensures forall c | c in {ENB_ID_MACRO, ENB_ID_SHORT_MACRO, ENB_ID_LONG_MACRO} && Accepted(c, v) ::
              var s := Encoding(c, v.Significant()) + suffix;
              && (Encodable(c, v) <==> 0 <= v.unused <= 7 && v.ZeroPadded())
              && (Encodable(c, v) ==>
                    Decoding(c, s).Some? && Decoding(c, s).value.1 == suffix && ReadBack(c, s) == v)
  {
    ConstraintsAreWellFormed();
    forall c | c in {ENB_ID_MACRO, ENB_ID_SHORT_MACRO, ENB_ID_LONG_MACRO} && Accepted(c, v)
      ensures var s := Encoding(c, v.Significant()) + suffix;
              && (Encodable(c, v) <==> 0 <= v.unused <= 7 && v.ZeroPadded())
              && (Encodable(c, v) ==>
                    Decoding(c, s).Some? && Decoding(c, s).value.1 == suffix && ReadBack(c, s) == v)
    {
      FixedSizeClosure(c, v, suffix);
    }
  }
}
