/** BIT_STRING_t: its value, the removal of trailing 0 bits, and the comparison built on it. */
module BitStrings {
  import opened Bits

  /** The value of a BIT_STRING_t: its octets, and how many trailing bits of the last one are not
      part of the string. */
  datatype BitStr = BitStr(bytes: seq<bv8>, unused: int) {

    /** What BIT_STRING_constraint accepts and what the PER encoder insists on. */
    predicate WellFormed() {
      0 <= unused <= 7 && (bytes == [] ==> unused == 0)
    }

    function BitLength(): (n: int)
      ensures WellFormed() ==> 0 <= n <= |Unpack(bytes)|
    {
      8 * |bytes| - unused
    }

    /** The bits the value stands for. */
    function Declared(): seq<bool>
      requires WellFormed()
    {
      Unpack(bytes)[..BitLength()]
    }

    /** The unused bits are 0. */
    ghost predicate ZeroPadded()
      requires WellFormed()
    {
      forall i | BitLength() <= i < |Unpack(bytes)| :: !Unpack(bytes)[i]
    }

    /** The octets' bits without trailing 0 bits. */
    function Significant(): (t: seq<bool>)
      ensures |t| <= 8 * |bytes|
    {
      Trim(Unpack(bytes))
    }
  }

  class BitString {
    var buf: array?<bv8>
    var size: nat
    var bitsUnused: int

    /** The octets the size announces are there. */
    predicate Readable()
      reads this
    {
      if buf == null then size == 0 else size <= buf.Length
    }

    function Contents(): (bytes: seq<bv8>)
      requires Readable()
      reads this, buf
      ensures |bytes| == size
    {
      if buf == null then [] else buf[..size]
    }

    function Value(): BitStr
      requires Readable()
      reads this, buf
    {
      BitStr(Contents(), bitsUnused)
    }

    /** CALLOC: a fresh structure holds no buffer. */
    constructor ()
      ensures buf == null && size == 0 && bitsUnused == 0
    {
      buf, size, bitsUnused := null, 0, 0;
    }
  }

  /** BIT_STRING_constraint, on a structure that is there. */
  method CheckConstraint(st: BitString) returns (accepted: bool)
    requires st.buf != null ==> st.Readable()
    ensures accepted <==> st.buf != null && st.Value().WellFormed()
    ensures accepted <==> st.buf != null && 0 <= st.bitsUnused <= if st.size == 0 then 0 else 7
  {
    if st.buf != null {
      accepted := !((st.size == 0 && st.bitsUnused != 0) || st.bitsUnused < 0 || st.bitsUnused > 7);
    } else {
      accepted := false;
    }
  }

  // ----- trailing 0 bits -----

  /** v & -v keeps the lowest 1 bit; three masks then read off its position. */
  function TrailingZeros(b: bv8): (z: int)
    ensures 0 <= z <= 7
  {
    var v := b & (0 - b);
    7 - (if v & 0x0F != 0 then 4 else 0) - (if v & 0x33 != 0 then 2 else 0) - (if v & 0x55 != 0 then 1 else 0)
  }

  lemma LowestOneBit(b: bv8)
    requires b != 0
    ensures var v := b & (0 - b);
            v == 0x80 || v == 0x40 || v == 0x20 || v == 0x10 || v == 0x08 || v == 0x04 || v == 0x02 || v == 0x01
    ensures var v := b & (0 - b); b & v != 0 && b & (v - 1) == 0
  {
  }

  lemma TrailingZerosAreTrailing(b: bv8)
    requires b != 0
    ensures Bit(b, 7 - TrailingZeros(b))
    ensures forall k: nat | 7 - TrailingZeros(b) < k < 8 :: !Bit(b, k)
  {
    LowestOneBit(b);
    var v := b & (0 - b);
    assert v == Mask(7 - TrailingZeros(b));
    forall k: nat | 7 - TrailingZeros(b) < k < 8
      ensures !Bit(b, k)
    {
      MaskedAway(b, v - 1, Mask(k));
    }
  }

  lemma MaskedAway(b: bv8, low: bv8, m: bv8)
    requires b & low == 0 && m & low == m
    ensures b & m == 0
  {
  }

  /** BIT_STRING__compactify: the size and unused bits of the same octets without trailing 0 bits.
      The caller's assert is the precondition. */
  method Compactify(st: BitString) returns (size: nat, unused: int)
    requires st.Readable()
    requires st.size == 0 ==> st.bitsUnused == 0
    ensures 8 * size - unused == |st.Value().Significant()|
    ensures size <= st.size && 0 <= unused <= 7 && (size == 0 ==> unused == 0)
  {
    if st.size == 0 {
      size, unused := 0, st.bitsUnused;
    } else {
      var b := st.size - 1;
      while b > 0 && st.buf[b] == 0
        invariant 0 <= b < st.size
        invariant forall j | b < j < st.size :: st.buf[j] == 0
      {
        b := b - 1;
      }
      if st.buf[b] != 0 {
        unused := 7;
        var v := st.buf[b];
        v := v & (0 - v);
        if v & 0x0F != 0 { unused := unused - 4; }
        if v & 0x33 != 0 { unused := unused - 2; }
        if v & 0x55 != 0 { unused := unused - 1; }
        size := b + 1;
        LastOneBit(st.Contents(), b);
      } else {
        size := b;
        unused := 0;
        AllZero(st.Contents());
      }
    }
  }

  lemma LastOneBit(bytes: seq<bv8>, b: nat)
    requires b < |bytes| && bytes[b] != 0
    requires forall j | b < j < |bytes| :: bytes[j] == 0
    ensures |Trim(Unpack(bytes))| == 8 * (b + 1) - TrailingZeros(bytes[b])
  {
    var n := 8 * (b + 1) - TrailingZeros(bytes[b]);
    TrailingZerosAreTrailing(bytes[b]);
    forall i | n <= i < |Unpack(bytes)|
      ensures !Unpack(bytes)[i]
    {
      UnpackAt(bytes, i);
    }
    UnpackAt(bytes, n - 1);
    TrimIs(Unpack(bytes), n);
  }

  lemma AllZero(bytes: seq<bv8>)
    requires forall j | 0 <= j < |bytes| :: bytes[j] == 0
    ensures Trim(Unpack(bytes)) == []
  {
    TrimIs(Unpack(bytes), 0);
  }

  /** What is dropped is 0, what is kept ends in a 1, and a second pass drops nothing. */
  lemma CompactionIsIdempotent(v: BitStr)
    ensures var kept := v.Significant();
            Significant(Pack(kept)) == kept && Same(kept, Unpack(v.bytes))
    ensures |Pack(v.Significant())| <= |v.bytes| && Pack(v.Significant()) == v.bytes[..|Pack(v.Significant())|]
  {
    hide Pack, Unpack;
    var kept := v.Significant();
    TrimKeepsBits(Unpack(v.bytes));
    PackKeepsBits(kept);
    SameIffTrimEqual(Unpack(Pack(kept)), kept);
    TrimIs(kept, |kept|);
    KeptOctets(v.bytes);
  }

  lemma KeptOctets(bytes: seq<bv8>)
    ensures |Pack(Significant(bytes))| <= |bytes|
    ensures Pack(Significant(bytes)) == bytes[..|Pack(Significant(bytes))|]
  {
    hide Unpack, OctetAt;
    var kept := Significant(bytes);
    PackUnpack(bytes);
    TrimKeepsBits(Unpack(bytes));
    forall j | 0 <= j < |Pack(kept)|
      ensures Pack(kept)[j] == Pack(Unpack(bytes))[j]
    {
      OctetAtDependsOnBits(kept, 8 * j, Unpack(bytes), 8 * j);
    }
  }

  function Significant(bytes: seq<bv8>): seq<bool> {
    BitStr(bytes, 0).Significant()
  }

  lemma PackKeepsBits(bits: seq<bool>)
    ensures Same(Unpack(Pack(bits)), bits)
  {
    forall i: nat
      ensures At(Unpack(Pack(bits)), i) == At(bits, i)
    {
      UnpackPackAt(bits, i);
    }
  }

  // ----- comparison -----

  /** The octets first differ before n, and a's is the smaller one. */
  ghost predicate SmallerWithin(a: seq<bv8>, b: seq<bv8>, n: nat)
    requires n <= |a| && n <= |b|
  {
    exists i | 0 <= i < n :: a[..i] == b[..i] && a[i] < b[i]
  }

  /** memcmp promises only the sign of its result. */
  method MemCmp(a: seq<bv8>, b: seq<bv8>, n: nat) returns (r: int)
    requires n <= |a| && n <= |b|
    ensures r == 0 ==> a[..n] == b[..n]
    ensures r < 0 ==> SmallerWithin(a, b, n)
    ensures r > 0 ==> SmallerWithin(b, a, n)
  {
    var i := 0;
    while i < n && a[i] == b[i]
      invariant i <= n && a[..i] == b[..i]
    {
      i := i + 1;
    }
    r := if i == n then 0 else if a[i] < b[i] then -1 else 1;
  }

  /** The sign of r tells the order of a and b, each continued with 0 bits. */
  ghost predicate TellsOrder(r: int, a: seq<bool>, b: seq<bool>) {
    && (r < 0 <==> Less(a, b))
    && (r == 0 <==> Same(a, b))
    && (r > 0 <==> Less(b, a))
  }

  lemma OrderTold(r: int, a: seq<bool>, b: seq<bool>)
    requires r < 0 ==> Less(a, b)
    requires r == 0 ==> Same(a, b)
    requires r > 0 ==> Less(b, a)
    ensures TellsOrder(r, a, b)
  {
    OrderIsTotal(a, b);
  }

  /** BIT_STRING_compare decides the lexicographic order of the octets continued with 0 bits. */
  method Compare(a: BitString, b: BitString) returns (r: int)
    requires a.Readable() && (a.size == 0 ==> a.bitsUnused == 0)
    requires b.Readable() && (b.size == 0 ==> b.bitsUnused == 0)
    ensures r < 0 <==> Less(Unpack(a.Contents()), Unpack(b.Contents()))
    ensures r == 0 <==> Same(Unpack(a.Contents()), Unpack(b.Contents()))
    ensures r > 0 <==> Less(Unpack(b.Contents()), Unpack(a.Contents()))
  {
    var aSize, aUnused := Compactify(a);
    var bSize, bUnused := Compactify(b);
    r := CompareCompact(a.Contents(), aSize, aUnused, b.Contents(), bSize, bUnused);
  }

  method CompareCompact(a: seq<bv8>, aSize: nat, aUnused: int, b: seq<bv8>, bSize: nat, bUnused: int)
    returns (r: int)
    requires aSize == CompactSize(a) && 8 * aSize - aUnused == |Significant(a)|
    requires bSize == CompactSize(b) && 8 * bSize - bUnused == |Significant(b)|
    ensures TellsOrder(r, Unpack(a), Unpack(b))
  {
    var common := if aSize <= bSize then aSize else bSize;
    var ret := MemCmp(a, b, common);
    if ret == 0 {
      EqualPrefixes(a, b, common);
      if aSize < bSize {
        r := -1;
      } else if aSize > bSize {
        r := 1;
      } else {
        if aUnused > bUnused {
          r := -1;
        } else if aUnused < bUnused {
          r := 1;
        } else {
          r := 0;
        }
      }
    } else {
      r := ret;
      if ret < 0 {
        SmallerPrefix(a, b, common);
      } else {
        SmallerPrefix(b, a, common);
      }
    }
    OrderTold(r, Unpack(a), Unpack(b));
  }

  lemma EqualOctetsEqualBits(x: seq<bv8>, y: seq<bv8>, n: nat, j: nat)
    requires n <= |x| && n <= |y| && x[..n] == y[..n] && j < 8 * n
    ensures At(Unpack(x), j) == At(Unpack(y), j)
  {
    assert x[..n][j / 8] == y[..n][j / 8];
  }

  lemma SmallerPrefix(x: seq<bv8>, y: seq<bv8>, n: nat)
    requires n <= |x| && n <= |y| && SmallerWithin(x, y, n)
    ensures Less(Unpack(x), Unpack(y))
  {
    hide Bit, Unpack;
    var i :| 0 <= i < n && x[..i] == y[..i] && x[i] < y[i];
    var k := SmallerOctet(x[i], y[i]);
    forall j: nat | j <= 8 * i + k
      ensures At(Unpack(x), j) == (j < 8 * i + k && At(Unpack(y), j))
    {
      if j < 8 * i {
        EqualOctetsEqualBits(x, y, i, j);
      } else {
        OctetBit(x, i, j - 8 * i);
        OctetBit(y, i, j - 8 * i);
      }
    }
    OctetBit(y, i, k);
    assert DiffersFirstAt(Unpack(x), Unpack(y), 8 * i + k);
  }

  lemma OctetBit(x: seq<bv8>, i: nat, k: nat)
    requires i < |x| && k < 8
    ensures At(Unpack(x), 8 * i + k) == Bit(x[i], k)
  {
    UnpackAt(x, 8 * i + k);
  }

  /** The octets BIT_STRING__compactify keeps. */
  function CompactSize(x: seq<bv8>): (n: nat)
    ensures n <= |x|
  {
    (|Significant(x)| + 7) / 8
  }

  /** With equal octets up to the shorter compact size, the sizes alone decide; equal sizes leave
      nothing for the unused bits to decide. */
  lemma EqualPrefixes(x: seq<bv8>, y: seq<bv8>, common: nat)
    requires common == if CompactSize(x) <= CompactSize(y) then CompactSize(x) else CompactSize(y)
    requires x[..common] == y[..common]
    ensures CompactSize(x) < CompactSize(y) ==> Less(Unpack(x), Unpack(y))
    ensures CompactSize(x) > CompactSize(y) ==> Less(Unpack(y), Unpack(x))
    ensures CompactSize(x) == CompactSize(y) ==>
              Same(Unpack(x), Unpack(y)) && |Significant(x)| == |Significant(y)|
  {
    if CompactSize(x) < CompactSize(y) {
      ShorterPrefix(x, y);
    } else if CompactSize(x) > CompactSize(y) {
      ShorterPrefix(y, x);
    } else {
      PrefixBelow(x, y, common);
      PrefixBelow(y, x, common);
      assert Same(Unpack(x), Unpack(y));
      SameTrimLength(Unpack(x), Unpack(y));
      SameTrimLength(Unpack(y), Unpack(x));
    }
  }

  lemma ShorterPrefix(x: seq<bv8>, y: seq<bv8>)
    requires CompactSize(x) < CompactSize(y)
    requires x[..CompactSize(x)] == y[..CompactSize(x)]
    ensures Less(Unpack(x), Unpack(y))
  {
    hide Unpack;
    PrefixBelow(x, y, CompactSize(x));
    var last := |Significant(y)| - 1;
    TrimKeepsBits(Unpack(x));
    assert At(Unpack(y), last) && !At(Significant(x), last);
    BelowAndDifferent(Unpack(x), Unpack(y));
  }

  /** Every 1 bit of a is a 1 bit of b. */
  ghost predicate Below(a: seq<bool>, b: seq<bool>) {
    forall i: nat :: At(a, i) ==> At(b, i)
  }

  lemma PrefixBelow(x: seq<bv8>, y: seq<bv8>, size: nat)
    requires size <= |x| && size <= |y| && x[..size] == y[..size]
    requires |Significant(x)| <= 8 * size
    ensures Below(Unpack(x), Unpack(y))
  {
    TrimKeepsBits(Unpack(x));
    forall i: nat | At(Unpack(x), i)
      ensures At(Unpack(y), i)
    {
      assert At(Significant(x), i);
      EqualOctetsEqualBits(x, y, size, i);
    }
  }

  lemma BelowAndDifferent(a: seq<bool>, b: seq<bool>)
    requires Below(a, b) && !Same(a, b)
    ensures Less(a, b)
  {
    var i := FirstDifference(a, b);
    assert DiffersFirstAt(a, b, i);
  }

  /** Equality in the sense of section 22.7 of ITU-T X.680: the declared bits differ at most in
      trailing 0 bits.  For zero-padded values this is what the comparison decides. */
  lemma ComparisonIsAbstractEquality(v: BitStr, w: BitStr)
    requires v.WellFormed() && w.WellFormed() && v.ZeroPadded() && w.ZeroPadded()
    ensures Same(Unpack(v.bytes), Unpack(w.bytes)) <==> Trim(v.Declared()) == Trim(w.Declared())
  {
    PaddingIsTrailing(v);
    PaddingIsTrailing(w);
    SameIffTrimEqual(v.Declared(), w.Declared());
    OrderRespectsSame(Unpack(v.bytes), v.Declared(), Unpack(w.bytes));
    OrderRespectsSame(Unpack(w.bytes), w.Declared(), v.Declared());
  }

  lemma PaddingIsTrailing(v: BitStr)
    requires v.WellFormed()
    ensures v.ZeroPadded() <==> Same(Unpack(v.bytes), v.Declared())
    ensures v.ZeroPadded() <==> |v.Significant()| <= v.BitLength()
  {
    var all, n := Unpack(v.bytes), v.BitLength();
    TrimKeepsBits(all);
    assert forall i: nat | i < n :: At(all, i) == At(v.Declared(), i);
    if Same(all, v.Declared()) {
      assert forall i: nat | n <= i < |all| :: all[i] == At(all, i) == At(v.Declared(), i);
    }
    if v.ZeroPadded() && v.Significant() != [] {
      assert all[|v.Significant()| - 1];
    }
  }

  /** A zero-padded value is determined by the bits it declares. */
  lemma PackDeclared(v: BitStr)
    requires v.WellFormed() && v.ZeroPadded()
    ensures Pack(v.Declared()) == v.bytes
  {
    PaddingIsTrailing(v);
    PackUnpack(v.bytes);
    SameSizeSameOctets(v.Declared(), Unpack(v.bytes));
  }

  lemma SameSizeSameOctets(a: seq<bool>, b: seq<bool>)
    requires (|a| + 7) / 8 == (|b| + 7) / 8 && Same(a, b)
    ensures Pack(a) == Pack(b)
  {
    hide OctetAt;
    forall j | 0 <= j < |Pack(a)|
      ensures Pack(a)[j] == Pack(b)[j]
    {
      OctetAtDependsOnBits(a, 8 * j, b, 8 * j);
    }
  }

  /** The comparison of a value with every zero-padded value agrees with abstract equality exactly
      when the value is zero-padded itself. */
  lemma ZeroPaddingIsNeeded(v: BitStr)
    requires v.WellFormed()
    ensures v.ZeroPadded() <==>
            forall w: BitStr | w.WellFormed() && w.ZeroPadded() ::
              Same(Unpack(v.bytes), Unpack(w.bytes)) <==> Trim(v.Declared()) == Trim(w.Declared())
  {
    if v.ZeroPadded() {
      forall w: BitStr | w.WellFormed() && w.ZeroPadded()
        ensures Same(Unpack(v.bytes), Unpack(w.bytes)) <==> Trim(v.Declared()) == Trim(w.Declared())
      {
        ComparisonIsAbstractEquality(v, w);
      }
    } else {
      var w := BitStr(Pack(v.Declared()), v.unused);
      CleanedValue(v);
      SameIffTrimEqual(v.Declared(), w.Declared());
      assert !Same(Unpack(v.bytes), Unpack(w.bytes));
    }
  }

  /** The same declared bits with the padding set to 0: equal to v exactly if v was padded so. */
  lemma CleanedValue(v: BitStr)
    requires v.WellFormed()
    ensures var w := BitStr(Pack(v.Declared()), v.unused);
            && w.WellFormed() && w.ZeroPadded() && w.Declared() == v.Declared()
            && (Same(Unpack(v.bytes), Unpack(w.bytes)) <==> v.ZeroPadded())
  {
    var w := BitStr(Pack(v.Declared()), v.unused);
    assert |w.bytes| == |v.bytes|;
    UnpackPack(v.Declared());
    PackKeepsBits(v.Declared());
    PaddingIsTrailing(v);
    OrderRespectsSame(Unpack(w.bytes), v.Declared(), Unpack(v.bytes));
  }

  /** Without zero padding the comparison sees bits that are not part of the value: two spellings
      of the 4-bit string 1010 compare as different. */
  lemma PaddingMatters()
    ensures var v, w := BitStr([0xA0], 4), BitStr([0xA1], 4);
            && v.WellFormed() && w.WellFormed() && v.Declared() == w.Declared()
            && !Same(Unpack(v.bytes), Unpack(w.bytes))
  {
    var v, w := BitStr([0xA0], 4), BitStr([0xA1], 4);
    assert forall i: nat | i < 4 :: v.Declared()[i] == Bit(0xA0, i) && w.Declared()[i] == Bit(0xA1, i);
    assert Bit(0xA0, 0) == Bit(0xA1, 0) && Bit(0xA0, 1) == Bit(0xA1, 1);
    assert Bit(0xA0, 2) == Bit(0xA1, 2) && Bit(0xA0, 3) == Bit(0xA1, 3);
    assert v.Declared() == w.Declared();
    assert At(Unpack(v.bytes), 7) == Bit(0xA0, 7) && At(Unpack(w.bytes), 7) == Bit(0xA1, 7);
  }
}
