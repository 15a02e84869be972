/** The unaligned PER codec of BIT STRING (section 16 of ITU-T X.691). */
module BitStringUper {
  import opened Wrappers
  import opened Bits
  import opened PerSupport
  import opened BitStrings

  /** The size part of asn_per_constraint_t. */
  datatype SizeConstraint = SizeConstraint(
    constrained: bool, extensible: bool, effectiveBits: int, lower: int, upper: int)
  {
    /** What the compiler that writes the tables guarantees: effective bits are given only for
        ranges below 64K (section 11.9.4.1 of ITU-T X.691), and they span the range. */
    ghost predicate WellFormed() {
      && effectiveBits <= 16
      && (constrained ==> 0 <= lower <= upper)
      && (effectiveBits >= 0 ==> constrained && upper - lower < Pow2(effectiveBits))
      && 0 <= lower
    }

    /** The string is sent in the form of the extension root. */
    predicate InRoot(n: nat) {
      effectiveBits >= 0 ==> n <= upper
    }

    predicate Fits(n: nat) {
      InRoot(n) || extensible
    }
  }

  /** What the codec uses where a type has no constraint, and outside an extension root. */
  const UNCONSTRAINED := SizeConstraint(false, false, -1, 0, 0)

  /** The bits put on the wire: 0 bits are added up to the lower bound. */
  function Transmitted(c: SizeConstraint, t: seq<bool>): (bits: seq<bool>)
    ensures t <= bits && forall i | |t| <= i < |bits| :: !bits[i]
    ensures |bits| == if c.effectiveBits >= 0 && |t| <= c.upper && |t| < c.lower then c.lower else |t|
  {
    if c.effectiveBits >= 0 && |t| <= c.upper && |t| < c.lower then t + Zeros(c.lower - |t|) else t
  }

  /** The encoding of a string with significant bits t. */
  function Encoding(c: SizeConstraint, t: seq<bool>): seq<bool> {
    (if c.extensible then [!c.InRoot(|t|)] else []) + Body(c, t)
  }

  function Body(c: SizeConstraint, t: seq<bool>): seq<bool> {
    if c.effectiveBits >= 0 && c.InRoot(|t|) then RootBody(c, t) else Fragments(t, OneBit)
  }

  /** Sections 16.9 to 16.11: the offset of the length from the lower bound, then the bits. */
  function RootBody(c: SizeConstraint, t: seq<bool>): seq<bool>
    requires c.effectiveBits >= 0 && c.InRoot(|t|)
  {
    NatBits(if |t| < c.lower then 0 else |t| - c.lower, c.effectiveBits) + Transmitted(c, t)
  }

  /** What a stream means: the bits of the string, and what is left of the stream. */
  function Decoding(c: SizeConstraint, s: seq<bool>): Option<(seq<bool>, seq<bool>)>
    requires c.lower >= 0
  {
    if !c.extensible then RootDecoding(c, s)
    else if s == [] then None
    else if s[0] then Reassemble(s[1..], -1, 0, OneBit)
    else RootDecoding(c, s[1..])
  }

  function RootDecoding(c: SizeConstraint, s: seq<bool>): Option<(seq<bool>, seq<bool>)>
    requires c.lower >= 0
  {
    if c.effectiveBits == 0 then
      if 0 <= c.upper <= |s| then Some((s[..c.upper], s[c.upper..])) else None
    else Reassemble(s, c.effectiveBits, c.lower, OneBit)
  }

  // ----- what is on the wire -----

  /** Which form a value takes.  The extension bit is there exactly for an extensible constraint, and is
      1 exactly for a length above the root.  A length in the root is sent as its offset from the lower
      bound in the effective bits, followed by the bits and the 0 bits missing to the lower bound; every
      other length, and every length under a constraint without effective bits, in fragments. */
  lemma EncodingForm(c: SizeConstraint, t: seq<bool>)
    requires c.WellFormed() && c.Fits(|t|)
    ensures var s, sent := Encoding(c, t), if |t| < c.lower then c.lower else |t|;
            && (c.extensible ==> s != [] && (s[0] <==> c.effectiveBits >= 0 && |t| > c.upper))
            && var body := if c.extensible then s[1..] else s;
               if c.effectiveBits >= 0 && |t| <= c.upper then
                 && |body| == c.effectiveBits + sent
                 && BitsNat(body[..c.effectiveBits]) == sent - c.lower
                 && forall i | 0 <= i < sent :: body[c.effectiveBits + i] == At(t, i)
               else body == Fragments(t, OneBit)
  {
    hide BitsNat, NatBits, RootBody;
    if c.effectiveBits >= 0 && |t| <= c.upper {
      RootForm(c, t);
    }
    var body := if c.extensible then Encoding(c, t)[1..] else Encoding(c, t);
    assert body == Body(c, t);
  }

  lemma RootForm(c: SizeConstraint, t: seq<bool>)
    requires c.WellFormed() && c.effectiveBits >= 0 && |t| <= c.upper
    ensures var body, sent := RootBody(c, t), if |t| < c.lower then c.lower else |t|;
            && |body| == c.effectiveBits + sent
            && BitsNat(body[..c.effectiveBits]) == sent - c.lower
            && forall i | 0 <= i < sent :: body[c.effectiveBits + i] == At(t, i)
  {
    hide BitsNat, NatBits;
    var sent := if |t| < c.lower then c.lower else |t|;
    BitsNatOfNatBits(sent - c.lower, c.effectiveBits);
    assert RootBody(c, t)[..c.effectiveBits] == NatBits(sent - c.lower, c.effectiveBits);
  }

  /** What the decoder accepts: behind the extension bit an offset in the effective bits and as many
      bits as that says (it does not look at the upper bound), or any fragmentation. */
  lemma DecodingAccepts(c: SizeConstraint, s: seq<bool>, bits: seq<bool>, rest: seq<bool>)
    requires c.WellFormed()
    ensures Decoding(c, s) == Some((bits, rest)) <==>
            (c.extensible ==> s != []) &&
            var body := if c.extensible then s[1..] else s;
            if c.effectiveBits < 0 || (c.extensible && s[0]) then
              exists pieces | Fragmentation(pieces, OneBit) :: body == OnWire(pieces) + rest && bits == Carried(pieces)
            else
              exists offset | |offset| == c.effectiveBits ::
                body == offset + bits + rest && |bits| == c.lower + BitsNat(offset)
  {
    hide OnWire, Carried, Fragmentation, BitsNat, Pow2;
    if c.extensible ==> s != [] {
      var body := if c.extensible then s[1..] else s;
      if c.effectiveBits < 0 || (c.extensible && s[0]) {
        ReassembleAcceptsFragmentations(body, bits, rest, OneBit);
        ReassembleIgnoresBounds(body, c.effectiveBits, c.lower);
      } else {
        RootAccepts(c, body, bits, rest);
      }
    }
  }

  lemma {:induction false} ReassembleIgnoresBounds(s: seq<bool>, effectiveBits: int, lower: nat)
    ensures effectiveBits < 0 ==> Reassemble(s, effectiveBits, lower, OneBit) == Reassemble(s, -1, 0, OneBit)
    decreases |s|
  {
    assert effectiveBits < 0 ==> ReadLength(s, effectiveBits, lower) == ReadLength(s, -1, 0);
    match ReadLength(s, -1, 0)
    case Malformed =>
    case Length(k, more, rest) =>
      if k <= |rest| && more {
        ReassembleIgnoresBounds(rest[k..], effectiveBits, lower);
      }
  }

  lemma RootAccepts(c: SizeConstraint, body: seq<bool>, bits: seq<bool>, rest: seq<bool>)
    requires c.WellFormed() && c.effectiveBits >= 0
    ensures RootDecoding(c, body) == Some((bits, rest)) <==>
            exists offset | |offset| == c.effectiveBits ::
              body == offset + bits + rest && |bits| == c.lower + BitsNat(offset)
  {
    RootFields(c, body);
    hide RootDecoding, BitsNat, Pow2;
    forall offset | |offset| == c.effectiveBits && body == offset + bits + rest && |bits| == c.lower + BitsNat(offset)
      ensures RootDecoding(c, body) == Some((bits, rest))
    {
      HeadAndRest(offset, bits, rest);
    }
    if RootDecoding(c, body) == Some((bits, rest)) {
      CutTwice(body, c.effectiveBits, body[c.effectiveBits..], |bits|);
    }
  }

  /** The bounded form read field by field; with no effective bits the bounds are equal. */
  lemma RootFields(c: SizeConstraint, body: seq<bool>)
    requires c.WellFormed() && c.effectiveBits >= 0
    ensures var w := c.effectiveBits;
            RootDecoding(c, body) ==
            if |body| < w then None
            else
              var n, rest := c.lower + BitsNat(body[..w]), body[w..];
              if |rest| < n then None else Some((rest[..n], rest[n..]))
  {
    if c.effectiveBits == 0 {
      assert Pow2(0) == 1;
      assert body[..0] == [] && body[0..] == body;
    }
  }

  // ----- round trip -----

  /** Decoding undoes encoding up to trailing 0 bits, under every constraint and before every
      suffix. */
  lemma RoundTrip(c: SizeConstraint, t: seq<bool>, suffix: seq<bool>)
    requires c.WellFormed() && c.Fits(|t|)
    ensures Decoding(c, Encoding(c, t) + suffix) == Some((Transmitted(c, t), suffix))
  {
    BodyRoundTrip(c, t, suffix);
    Prefixed(if c.extensible then [!c.InRoot(|t|)] else [], Body(c, t), suffix);
  }

  lemma Prefixed(flag: seq<bool>, body: seq<bool>, suffix: seq<bool>)
    ensures flag == [] ==> flag + body + suffix == body + suffix
    ensures |flag| == 1 ==> flag + body + suffix != [] && (flag + body + suffix)[0] == flag[0]
    ensures |flag| == 1 ==> (flag + body + suffix)[1..] == body + suffix
  {
  }

  lemma BodyRoundTrip(c: SizeConstraint, t: seq<bool>, suffix: seq<bool>)
    requires c.WellFormed()
    ensures c.InRoot(|t|) ==> RootDecoding(c, Body(c, t) + suffix) == Some((Transmitted(c, t), suffix))
    ensures !c.InRoot(|t|) ==> Reassemble(Body(c, t) + suffix, -1, 0, OneBit) == Some((Transmitted(c, t), suffix))
  {
    if !c.InRoot(|t|) {
      FragmentsRoundTrip(t, OneBit, suffix, 0);
    } else if c.effectiveBits < 0 {
      FragmentsRoundTrip(t, OneBit, suffix, 0);
      ReassembleIgnoresBounds(Fragments(t, OneBit) + suffix, c.effectiveBits, c.lower);
    } else {
      RootRoundTrip(c, t, suffix);
    }
  }

  lemma RootRoundTrip(c: SizeConstraint, t: seq<bool>, suffix: seq<bool>)
    requires c.WellFormed() && c.effectiveBits >= 0 && c.InRoot(|t|)
    ensures RootDecoding(c, RootBody(c, t) + suffix) == Some((Transmitted(c, t), suffix))
  {
    hide NatBits, Fragments, LengthBits;
    var bits := Transmitted(c, t);
    var w := c.effectiveBits;
    var header := NatBits(|bits| - c.lower, w);
    BitsNatOfNatBits(|bits| - c.lower, w);
    assert RootBody(c, t) == header + bits;
    HeadAndRest(header, bits, suffix);
    if w == 0 {
      assert Pow2(0) == 1;
    } else {
      assert ReadLength(RootBody(c, t) + suffix, w, c.lower) == Length(|bits|, false, bits + suffix);
    }
  }

  lemma HeadAndRest(a: seq<bool>, b: seq<bool>, c: seq<bool>)
    ensures (a + b + c)[..|a|] == a && (a + b + c)[|a|..] == b + c
    ensures (b + c)[..|b|] == b && (b + c)[|b|..] == c
  {
  }

  /** The value read back compares as equal to the value written. */
  lemma RoundTripIsEqual(c: SizeConstraint, v: BitStr, suffix: seq<bool>)
    requires c.WellFormed() && c.Fits(|v.Significant()|)
    ensures var read := Decoding(c, Encoding(c, v.Significant()) + suffix);
            read.Some? && read.value.1 == suffix && Same(Unpack(Pack(read.value.0)), Unpack(v.bytes))
  {
    var t := v.Significant();
    RoundTrip(c, t, suffix);
    TrimKeepsBits(Unpack(v.bytes));
    PackKeepsBits(Transmitted(c, t));
    assert Same(Transmitted(c, t), t);
  }

  /** Canonical encoding: two values have the same encoding exactly when they compare as equal. */
  lemma EncodingIsCanonical(c: SizeConstraint, v: BitStr, w: BitStr)
    requires c.WellFormed() && c.Fits(|v.Significant()|) && c.Fits(|w.Significant()|)
    ensures Encoding(c, v.Significant()) == Encoding(c, w.Significant())
            <==> Same(Unpack(v.bytes), Unpack(w.bytes))
  {
    SameIffTrimEqual(Unpack(v.bytes), Unpack(w.bytes));
    EncodingIsPrefixFree(c, v, [], w, []);
    assert Encoding(c, v.Significant()) + [] == Encoding(c, v.Significant());
    assert Encoding(c, w.Significant()) + [] == Encoding(c, w.Significant());
  }

  /** In a stream of several values no encoding can be taken for another, longer or shorter one:
      streams are equal exactly when they begin with equal values and go on equally. */
  lemma EncodingIsPrefixFree(c: SizeConstraint, v: BitStr, more: seq<bool>, w: BitStr, more': seq<bool>)
    requires c.WellFormed() && c.Fits(|v.Significant()|) && c.Fits(|w.Significant()|)
    ensures Encoding(c, v.Significant()) + more == Encoding(c, w.Significant()) + more'
            <==> Same(Unpack(v.bytes), Unpack(w.bytes)) && more == more'
  {
    SameIffTrimEqual(Unpack(v.bytes), Unpack(w.bytes));
    RoundTripIsEqual(c, v, more);
    RoundTripIsEqual(c, w, more');
    var read := Pack(Decoding(c, Encoding(c, v.Significant()) + more).value.0);
    OrderRespectsSame(Unpack(v.bytes), Unpack(read), Unpack(w.bytes));
  }

  /** Under a root encoding the bits sent number max(lower, n), where n is the position of the last 1
      bit + 1, and never more than the upper bound; and a value is refused exactly when it has a 1 bit
      beyond the upper bound of a constraint that is not extensible. */
  lemma TransmittedSize(c: SizeConstraint, v: BitStr)
    requires c.WellFormed() && c.effectiveBits >= 0
    ensures var n := |v.Significant()|;
            (n > 0 ==> At(Unpack(v.bytes), n - 1)) && forall i: nat | n <= i :: !At(Unpack(v.bytes), i)
    ensures var n := |v.Significant()|;
            c.InRoot(n) ==>
              && |Transmitted(c, v.Significant())| == (if n < c.lower then c.lower else n)
              && |Transmitted(c, v.Significant())| <= c.upper
    ensures c.Fits(|v.Significant()|) <==>
            c.extensible || forall i: nat | c.upper <= i :: !At(Unpack(v.bytes), i)
  {
    TrimKeepsBits(Unpack(v.bytes));
    var t := v.Significant();
    assert forall i: nat | |t| <= i :: !At(t, i);
    if t != [] {
      assert At(t, |t| - 1);
    }
  }

  // ----- the encoder -----

  /** BIT_STRING_encode_uper. */
  method EncodeUper(c: SizeConstraint, st: BitString, po: BitWriter) returns (encoded: bool)
    requires c.WellFormed()
    requires st.buf != null ==> st.Readable()
    modifies po
    ensures encoded <==>
            st.Readable() && st.Value().WellFormed() && c.Fits(|st.Value().Significant()|)
    ensures po.bits == if encoded then old(po.bits) + Encoding(c, st.Value().Significant()) else old(po.bits)
  {
    if st.buf == null && st.size > 0 {
      return false;
    }
    if (st.size == 0 && st.bitsUnused != 0) || !(0 <= st.bitsUnused <= 7) {
      return false;
    }
    var size, unused := Compactify(st);
    encoded := EncodeCompact(c, st.Contents(), 8 * size - unused, po);
  }

  method EncodeCompact(c: SizeConstraint, contents: seq<bv8>, sizeInBits: nat, po: BitWriter)
    returns (encoded: bool)
    requires c.WellFormed()
    requires sizeInBits == |Significant(contents)|
    modifies po
    ensures encoded <==> c.Fits(sizeInBits)
    ensures po.bits == if encoded then old(po.bits) + Encoding(c, Significant(contents)) else old(po.bits)
  {
    var inext, effectiveBits := false, c.effectiveBits;
    if effectiveBits >= 0 {
      if sizeInBits > c.upper {
        if c.extensible {
          effectiveBits := UNCONSTRAINED.effectiveBits;
          inext := true;
        } else {
          return false;
        }
      }
    }
    ghost var start, flag := po.bits, [];
    if c.extensible {
      NatBitsOfOne(inext);
      flag := [inext];
      var failed := po.PutFew(if inext then 1 else 0, 1);
    }
    assert Unpack(contents)[..sizeInBits] == Significant(contents);
    if effectiveBits >= 0 && !inext {
      PutRoot(c, contents, sizeInBits, po);
    } else {
      PutFragments(contents, sizeInBits, po);
    }
    encoded := true;
    Regroup3(start, flag, Body(c, Significant(contents)));
  }

  lemma Regroup3(a: seq<bool>, b: seq<bool>, c: seq<bool>)
    ensures a + b + c == a + (b + c) && a + [] == a
  {
  }

  lemma NatBitsOfOne(b: bool)
    ensures NatBits(if b then 1 else 0, 1) == [b]
  {
  }

  /** The bounded form, with 0 bits written in chunks of 16 octets up to the lower bound. */
  method PutRoot(c: SizeConstraint, contents: seq<bv8>, sizeInBits: nat, po: BitWriter)
    requires c.WellFormed() && c.effectiveBits >= 0
    requires sizeInBits <= 8 * |contents| && sizeInBits <= c.upper
    modifies po
    ensures po.bits == old(po.bits) + RootBody(c, Unpack(contents)[..sizeInBits])
  {
    hide Unpack, NatBits, Pow2;
    ghost var t := Unpack(contents)[..sizeInBits];
    var addTrailer := sizeInBits < c.lower;
    ghost var start := po.bits;
    var failed := po.PutFew(if addTrailer then 0 else sizeInBits - c.lower, c.effectiveBits);
    ghost var header := NatBits(if addTrailer then 0 else sizeInBits - c.lower, c.effectiveBits);
    po.PutMany(contents, sizeInBits);
    assert po.bits == start + header + t;
    if addTrailer {
      var zeros := seq(16, _ => 0);
      var trailing := c.lower - sizeInBits;
      ghost var written := 0;
      while trailing > 0
        invariant 0 <= trailing && written + trailing == c.lower - sizeInBits
        invariant po.bits == start + header + t + Zeros(written)
      {
        ghost var before := po.bits;
        if trailing > 8 * 16 {
          po.PutMany(zeros, 8 * 16);
          ZeroOctets(zeros, 8 * 16);
          AppendZeros(before, written, 8 * 16, start + header + t);
          written := written + 8 * 16;
          trailing := trailing - 8 * 16;
        } else {
          po.PutMany(zeros, trailing);
          ZeroOctets(zeros, trailing);
          AppendZeros(before, written, trailing, start + header + t);
          written := written + trailing;
          trailing := 0;
        }
      }
      Regroup4(start, header, t, Zeros(written));
    } else {
      Regroup4(start, header, t, []);
    }
  }

  lemma ZeroOctets(zeros: seq<bv8>, n: nat)
    requires n <= 8 * |zeros| && forall j | 0 <= j < |zeros| :: zeros[j] == 0
    ensures Unpack(zeros)[..n] == Zeros(n)
  {
    forall i | 0 <= i < n
      ensures !Unpack(zeros)[i]
    {
      UnpackAt(zeros, i);
    }
  }

  lemma AppendZeros(before: seq<bool>, m: nat, n: nat, base: seq<bool>)
    requires before == base + Zeros(m)
    ensures before + Zeros(n) == base + Zeros(m + n)
  {
    assert Zeros(m) + Zeros(n) == Zeros(m + n);
  }

  lemma Regroup4(a: seq<bool>, b: seq<bool>, c: seq<bool>, d: seq<bool>)
    ensures a + b + c + d == a + (b + (c + d))
  {
  }

  /** The loop over 16K fragments; `buf` is what the pointer still has in front of it. */
  method PutFragments(contents: seq<bv8>, length: nat, po: BitWriter)
    requires length <= 8 * |contents|
    modifies po
    ensures po.bits == old(po.bits) + Fragments(Unpack(contents)[..length], OneBit)
  {
    hide Fragments, Announced, Unpack;
    ghost var whole := po.bits + Fragments(Unpack(contents)[..length], OneBit);
    var buf, sizeInBits := contents, length;
    var again := true;
    while again
      invariant 0 <= sizeInBits <= 8 * |buf|
      invariant again ==> whole == po.bits + Fragments(Unpack(buf)[..sizeInBits], OneBit)
      invariant !again ==> whole == po.bits
      decreases sizeInBits, again
    {
      var maySave := po.PutFragment(buf, sizeInBits, OneBit);
      if maySave < sizeInBits {
        UnpackDropTake(buf, maySave / 8, sizeInBits);
        assert 8 * (maySave / 8) == maySave;
      }
      buf := buf[maySave / 8..];
      sizeInBits := sizeInBits - maySave;
      assert maySave % 8 == 0 || sizeInBits == 0;
      again := sizeInBits != 0;
    }
  }

  // ----- the decoder -----

  datatype Code = Ok | WantMore

  /** The decoder fills in the unused bits from the length, except that a length that is a whole
      number of octets leaves the field as it was unless the size is fixed. */
  function DecodedUnused(c: SizeConstraint, s: seq<bool>, n: nat, stale: int): int {
    if FixedForm(c, s) then Padding(n) else UnusedAfter(n, stale)
  }

  /** The bits that fill the last octet up. */
  function Padding(n: nat): int {
    (8 - n % 8) % 8
  }

  function UnusedAfter(n: nat, stale: int): int {
    if n % 8 != 0 then 8 - n % 8 else stale
  }

  predicate FixedForm(c: SizeConstraint, s: seq<bool>) {
    c.effectiveBits == 0 && (c.extensible ==> s != [] && !s[0])
  }

  /** The structure the decoder fills declares the decoded bits exactly when the size is fixed,
      or the length is no whole number of octets, or no unused bits were left from earlier use. */
  lemma ReusedStructure(c: SizeConstraint, s: seq<bool>, stale: int)
    requires c.lower >= 0 && Decoding(c, s).Some?
    ensures var bits := Decoding(c, s).value.0;
            var v := BitStr(Pack(bits), DecodedUnused(c, s, |bits|, stale));
            v.WellFormed() && v.Declared() == bits <==> FixedForm(c, s) || |bits| % 8 != 0 || stale == 0
  {
    var n := |Decoding(c, s).value.0|;
    PackDeclares(Decoding(c, s).value.0, DecodedUnused(c, s, n, stale));
    UnusedIsRight(n, stale);
  }

  /** What is sent is all the octets hold: in a fresh structure the declared bits come back, up to
      trailing 0 bits, exactly when the padding was 0. */
  lemma DeclaredBitsComeBack(c: SizeConstraint, v: BitStr, suffix: seq<bool>)
    requires c.WellFormed() && c.Fits(|v.Significant()|) && v.WellFormed()
    ensures var s := Encoding(c, v.Significant()) + suffix;
            && Decoding(c, s).Some?
            && var bits := Decoding(c, s).value.0;
               var read := BitStr(Pack(bits), DecodedUnused(c, s, |bits|, 0));
               && read.WellFormed()
               && (Trim(read.Declared()) == Trim(v.Declared()) <==> v.ZeroPadded())
  {
    var t := v.Significant();
    RoundTrip(c, t, suffix);
    var bits := Transmitted(c, t);
    ReusedStructure(c, Encoding(c, t) + suffix, 0);
    TransmittedIsSame(c, v);
    PaddingIsTrailing(v);
    hide Encoding, Decoding, Unpack, Pack, Transmitted, Same, Less, Trim, DecodedUnused;
    OrderRespectsSame(bits, Unpack(v.bytes), v.Declared());
    SameIffTrimEqual(bits, v.Declared());
  }

  lemma TransmittedIsSame(c: SizeConstraint, v: BitStr)
    ensures Same(Transmitted(c, v.Significant()), Unpack(v.bytes))
  {
    hide Unpack;
    TrimKeepsBits(Unpack(v.bytes));
  }

  /** The condition of ReusedStructure as a sender can foresee it: in terms of the bits transmitted. */
  lemma ReusedStructureAfterEncoding(c: SizeConstraint, t: seq<bool>, suffix: seq<bool>, stale: int)
    requires c.WellFormed() && c.Fits(|t|)
    ensures var s, bits := Encoding(c, t) + suffix, Transmitted(c, t);
            var v := BitStr(Pack(bits), DecodedUnused(c, s, |bits|, stale));
            && Decoding(c, s) == Some((bits, suffix))
            && (v.WellFormed() && v.Declared() == bits <==>
                  (c.effectiveBits == 0 && c.InRoot(|t|)) || |bits| % 8 != 0 || stale == 0)
  {
    RoundTrip(c, t, suffix);
    ReusedStructure(c, Encoding(c, t) + suffix, stale);
    Prefixed(if c.extensible then [!c.InRoot(|t|)] else [], Body(c, t), suffix);
  }

  /** One octet of 1 bits, decoded into a structure that had 3 unused bits before, is taken for the
      5 bits in front of them. */
  lemma ReusedStructureFails()
    ensures var t := Unpack([0xFF]);
            var s := Encoding(UNCONSTRAINED, t);
            var v := BitStr(Pack(t), DecodedUnused(UNCONSTRAINED, s, |t|, 3));
            && Decoding(UNCONSTRAINED, s) == Some((t, []))
            && v.WellFormed() && |v.Declared()| == 5 && v.Declared() != t
  {
    var t := Unpack([0xFF]);
    assert Pow2(0) == 1;
    ReusedStructureAfterEncoding(UNCONSTRAINED, t, [], 3);
    assert Encoding(UNCONSTRAINED, t) + [] == Encoding(UNCONSTRAINED, t);
    assert Transmitted(UNCONSTRAINED, t) == t;
  }

  lemma UnusedIsRight(n: nat, stale: int)
    ensures UnusedAfter(n, stale) == Padding(n) <==> n % 8 != 0 || stale == 0
    ensures UnusedAfter(0, stale) == stale && Pack([]) == []
  {
  }

  lemma PackDeclares(bits: seq<bool>, unused: int)
    ensures var v := BitStr(Pack(bits), unused);
            v.WellFormed() && v.Declared() == bits <==> unused == Padding(|bits|)
  {
    var v := BitStr(Pack(bits), unused);
    PaddingSize(|bits|);
    assert v.BitLength() == |bits| <==> unused == Padding(|bits|);
    if v.BitLength() == |bits| {
      UnpackPack(bits);
    }
  }

  lemma PaddingSize(n: nat)
    ensures 8 * ((n + 7) / 8) == n + Padding(n)
  {
  }

  /** The structure holds exactly the octets of `bits`, in a buffer with room for one octet more. */
  ghost predicate Holds(st: BitString, bits: seq<bool>)
    reads st, st.buf
  {
    st.Readable() && st.Contents() == Pack(bits) && (st.buf != null ==> st.size < st.buf.Length)
  }

  /** BIT_STRING_decode_uper.  An existing buffer has room for its terminating octet. */
  method DecodeUper(c: SizeConstraint, st: BitString, pd: BitReader) returns (code: Code, consumed: int)
    requires c.WellFormed() && pd.Valid()
    requires st.buf != null ==> st.buf.Length > 0
    modifies st, st.buf, pd
    ensures pd.Valid()
    ensures code == Ok <==> Decoding(c, old(pd.Rest())).Some?
    ensures code == Ok ==>
              var (bits, rest) := Decoding(c, old(pd.Rest())).value;
              && pd.Rest() == rest && Holds(st, bits)
              && st.bitsUnused == DecodedUnused(c, old(pd.Rest()), |bits|, old(st.bitsUnused))
              && st.buf != null && st.buf[st.size] == 0
    ensures consumed == if code == Ok && FixedForm(c, old(pd.Rest())) then c.upper else 0
  {
    hide Reassemble, Pack, BitsNat, Padding, UnusedAfter, Pow2;
    ghost var s := pd.Rest();
    consumed := 0;
    var effectiveBits, lower, upper := c.effectiveBits, c.lower, c.upper;
    if c.extensible {
      var inext := pd.GetFew(1);
      if inext < 0 {
        return WantMore, consumed;
      }
      FirstBit(s);
      if inext != 0 {
        effectiveBits, lower, upper := UNCONSTRAINED.effectiveBits, UNCONSTRAINED.lower, UNCONSTRAINED.upper;
      }
    }
    if effectiveBits >= 0 {
      st.size := (upper + 7) / 8;
      st.buf := new bv8[st.size + 1];
    }
    if effectiveBits == 0 {
      code := DecodeFixed(upper, st, pd);
      if code == Ok {
        consumed := consumed + upper;
      }
    } else {
      code := DecodeFragments(effectiveBits, lower, st, pd);
    }
  }

  lemma FirstBit(s: seq<bool>)
    requires s != []
    ensures BitsNat(s[..1]) == if s[0] then 1 else 0
  {
    assert s[..1][..0] == [];
  }

  /** A fixed size sends no length. */
  method DecodeFixed(upper: nat, st: BitString, pd: BitReader) returns (code: Code)
    requires pd.Valid()
    requires st.size == (upper + 7) / 8 && st.buf != null && st.buf.Length == st.size + 1
    modifies st, st.buf, pd
    ensures pd.Valid()
    ensures code == Ok <==> upper <= |old(pd.Rest())|
    ensures code == Ok ==>
              && pd.Rest() == old(pd.Rest())[upper..] && Holds(st, old(pd.Rest())[..upper])
              && st.bitsUnused == Padding(upper)
              && st.buf != null && st.buf[st.size] == 0
  {
    var failed := pd.GetMany(st.buf, 0, upper);
    if failed {
      return WantMore;
    }
    ghost var octets := Pack(old(pd.Rest())[..upper]);
    assert st.buf[..st.size] == octets;
    PutZero(st.buf, st.size);
    st.bitsUnused := (8 - upper % 8) % 8;
    return Ok;
  }

  /** One fragment is read behind the octets that hold the bits `got`. */
  method AppendFragment(st: BitString, rawLen: nat, pd: BitReader, ghost got: seq<bool>, ghost stale: int)
    returns (failed: bool)
    requires pd.Valid() && Holds(st, got) && |got| == 8 * st.size
    requires st.bitsUnused == UnusedAfter(|got|, stale)
    modifies st, pd
    ensures pd.Valid()
    ensures failed <==> rawLen > |old(pd.Rest())|
    ensures !failed ==>
              && pd.Rest() == old(pd.Rest())[rawLen..] && Holds(st, got + old(pd.Rest())[..rawLen])
              && st.bitsUnused == UnusedAfter(|got| + rawLen, stale)
              && st.buf != null && fresh(st.buf)
              && (WholeBlocks(rawLen) ==> |got| + rawLen == 8 * st.size)
  {
    hide Pack, UnusedAfter;
    UnusedGrows(st.size, rawLen, stale);
    var lenBytes := (rawLen + 7) / 8;
    if rawLen % 8 != 0 {
      st.bitsUnused := 8 - rawLen % 8;
    }
    ghost var already, s := st.Contents(), pd.Rest();
    var p := Realloc(st.buf, st.size + lenBytes + 1);
    assert p[..st.size] == already;
    st.buf := p;
    failed := pd.GetMany(p, st.size, rawLen);
    if !failed {
      st.size := st.size + lenBytes;
      assert st.buf[..st.size] == already + Pack(s[..rawLen]);
      PackConcat(got, s[..rawLen]);
    }
  }

  lemma UnusedGrows(m: nat, n: nat, stale: int)
    ensures UnusedAfter(8 * m, stale) == stale
    ensures UnusedAfter(8 * m + n, stale) == if n % 8 != 0 then 8 - n % 8 else stale
  {
  }

  /** The loop over length determinants. */
  method DecodeFragments(effectiveBits: int, lower: nat, st: BitString, pd: BitReader) returns (code: Code)
    requires effectiveBits <= 16 && pd.Valid()
    requires st.buf != null ==> st.buf.Length > 0
    modifies st, st.buf, pd
    ensures pd.Valid()
    ensures code == Ok <==> Reassemble(old(pd.Rest()), effectiveBits, lower, OneBit).Some?
    ensures code == Ok ==>
              var (bits, rest) := Reassemble(old(pd.Rest()), effectiveBits, lower, OneBit).value;
              && pd.Rest() == rest && Holds(st, bits)
              && st.bitsUnused == UnusedAfter(|bits|, old(st.bitsUnused))
              && st.buf != null && st.buf[st.size] == 0
  {
    hide Reassemble, ReadLength, Pack, UnusedAfter;
    ghost var s, got, stale := pd.Rest(), [], st.bitsUnused;
    PrependNothing(Reassemble(s, effectiveBits, lower, OneBit));
    UnusedIsRight(0, stale);
    st.size := 0;
    var again := true;
    while again
      invariant pd.Valid() && Holds(st, got)
      invariant st.buf == old(st.buf) || fresh(st.buf)
      invariant again ==> |got| == 8 * st.size
      invariant st.bitsUnused == UnusedAfter(|got|, stale)
      invariant again ==> Reassemble(s, effectiveBits, lower, OneBit) ==
                          Prepend(got, Reassemble(pd.Rest(), effectiveBits, lower, OneBit))
      invariant !again ==> Reassemble(s, effectiveBits, lower, OneBit) == Some((got, pd.Rest()))
      invariant !again ==> st.buf != null
      decreases |pd.Rest()|, again
    {
      ghost var turn := pd.Rest();
      var rawLen, more := pd.GetLength(effectiveBits, lower);
      ReassembleStep(s, got, turn, effectiveBits, lower, OneBit);
      if rawLen < 0 {
        return WantMore;
      }
      ghost var here := pd.Rest();
      if rawLen == 0 && st.buf != null {
        assert got + here[..0] == got && here[0..] == here;
        break;
      }
      var failed := AppendFragment(st, rawLen, pd, got, stale);
      if failed {
        return WantMore;
      }
      got := got + here[..rawLen];
      again := more;
    }
    PutZero(st.buf, st.size);
    code := Ok;
  }

  lemma FreshStructure(c: SizeConstraint, v: BitStr, suffix: seq<bool>)
    requires c.WellFormed() && c.Fits(|v.Significant()|)
    ensures var s := Encoding(c, v.Significant()) + suffix;
            Decoding(c, s).Some? &&
            var (bits, rest) := Decoding(c, s).value;
            && rest == suffix && Same(Unpack(Pack(bits)), Unpack(v.bytes))
            && BitStr(Pack(bits), DecodedUnused(c, s, |bits|, 0)).WellFormed()
  {
    RoundTripIsEqual(c, v, suffix);
    ReusedStructure(c, Encoding(c, v.Significant()) + suffix, 0);
  }

  /** The methods put together: what is encoded by one and decoded by the other into a fresh
      structure compares as equal, and the stream is left at what follows. */
  method SendAndReceive(c: SizeConstraint, st: BitString, suffix: seq<bool>)
    returns (encoded: bool, received: BitString, rest: seq<bool>, order: int)
    requires c.WellFormed() && st.Readable()
    ensures encoded <==> st.Value().WellFormed() && c.Fits(|st.Value().Significant()|)
    ensures encoded ==> order == 0 && rest == suffix && received.Readable() && received.Value().WellFormed()
  {
    hide Encoding, Decoding, Unpack, Pack, DecodedUnused, Same, Less;
    var po := new BitWriter();
    received := new BitString();
    rest, order := [], 0;
    encoded := EncodeUper(c, st, po);
    if encoded {
      FreshStructure(c, st.Value(), suffix);
      assert po.bits == Encoding(c, st.Value().Significant());
      var pd := new BitReader(po.bits + suffix);
      var code, consumed := DecodeUper(c, received, pd);
      rest := pd.Rest();
      order := Compare(received, st);
    }
  }
}
