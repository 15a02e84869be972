/** Octets, bit strings and numbers: the vocabulary in which the PER codec is specified.

    A stream or a value is a `seq<bool>`, most significant bit first.  An octet is a `bv8`.
    `At` reads a bit string as if it went on with 0 bits for ever, which is how section 22.7 of
    ITU-T X.680 asks two values to be compared. */
module Bits {

  // ----- one octet -----

  /** Bit number k of an octet, counted from the most significant one. */
  predicate Bit(b: bv8, k: nat)
    requires k < 8
  {
    if k == 0 then b & 0x80 != 0 else if k == 1 then b & 0x40 != 0
    else if k == 2 then b & 0x20 != 0 else if k == 3 then b & 0x10 != 0
    else if k == 4 then b & 0x08 != 0 else if k == 5 then b & 0x04 != 0
    else if k == 6 then b & 0x02 != 0 else b & 0x01 != 0
  }

  /** The octet whose only 1 bit is number k. */
  function Mask(k: nat): bv8
    requires k < 8
  {
    if k == 0 then 0x80 else if k == 1 then 0x40 else if k == 2 then 0x20 else if k == 3 then 0x10
    else if k == 4 then 0x08 else if k == 5 then 0x04 else if k == 6 then 0x02 else 0x01
  }

  function MaskIf(on: bool, k: nat): bv8
    requires k < 8
  {
    if on then Mask(k) else 0
  }

  lemma EqualBitsEqualOctets(a: bv8, b: bv8)
    requires forall k: nat | k < 8 :: Bit(a, k) == Bit(b, k)
    ensures a == b
  {
    if a < b {
      var k := SmallerOctet(a, b);
    } else if b < a {
      var k := SmallerOctet(b, a);
    }
  }

  lemma SmallerHighNibble(a: bv8, b: bv8)
    requires a < b
    ensures (a & 0x80 == 0 && b & 0x80 != 0)
         || (a & 0x80 == b & 0x80 && ((a & 0x40 == 0 && b & 0x40 != 0)
         || (a & 0x40 == b & 0x40 && ((a & 0x20 == 0 && b & 0x20 != 0)
         || (a & 0x20 == b & 0x20 && ((a & 0x10 == 0 && b & 0x10 != 0)
         || (a & 0x10 == b & 0x10 && a & 0x0F < b & 0x0F)))))))
  {
  }

  lemma SmallerLowNibble(a: bv8, b: bv8)
    requires a & 0x0F < b & 0x0F
    ensures (a & 0x08 == 0 && b & 0x08 != 0)
         || (a & 0x08 == b & 0x08 && ((a & 0x04 == 0 && b & 0x04 != 0)
         || (a & 0x04 == b & 0x04 && ((a & 0x02 == 0 && b & 0x02 != 0)
         || (a & 0x02 == b & 0x02 && a & 0x01 == 0 && b & 0x01 != 0)))))
  {
  }

  /** Of two octets the smaller one has the 0 bit where they first differ. */
  lemma SmallerOctet(a: bv8, b: bv8) returns (k: nat)
    requires a < b
    ensures k < 8 && !Bit(a, k) && Bit(b, k)
    ensures forall j: nat | j < k :: Bit(a, j) == Bit(b, j)
  {
    SmallerHighNibble(a, b);
    if a & 0x80 != b & 0x80 { k := 0; }
    else if a & 0x40 != b & 0x40 { k := 1; }
    else if a & 0x20 != b & 0x20 { k := 2; }
    else if a & 0x10 != b & 0x10 { k := 3; }
    else {
      SmallerLowNibble(a, b);
      if a & 0x08 != b & 0x08 { k := 4; }
      else if a & 0x04 != b & 0x04 { k := 5; }
      else if a & 0x02 != b & 0x02 { k := 6; }
      else { k := 7; }
    }
  }

  // ----- octet strings as bit strings -----

  function Unpack(bytes: seq<bv8>): (bits: seq<bool>)
    ensures |bits| == 8 * |bytes|
  {
    seq(8 * |bytes|, i requires 0 <= i < 8 * |bytes| => Bit(bytes[i / 8], i % 8))
  }

  /** Bit i of a bit string that goes on with 0 bits for ever. */
  predicate At(bits: seq<bool>, i: nat) {
    i < |bits| && bits[i]
  }

  /** The octet made of bits at, at+1, ..., at+7; bits past the end are 0. */
  function OctetAt(bits: seq<bool>, at: nat): bv8 {
    MaskIf(At(bits, at), 0) | MaskIf(At(bits, at + 1), 1) |
    MaskIf(At(bits, at + 2), 2) | MaskIf(At(bits, at + 3), 3) |
    MaskIf(At(bits, at + 4), 4) | MaskIf(At(bits, at + 5), 5) |
    MaskIf(At(bits, at + 6), 6) | MaskIf(At(bits, at + 7), 7)
  }

  lemma OctetAtBit(bits: seq<bool>, at: nat, k: nat)
    requires k < 8
    ensures Bit(OctetAt(bits, at), k) == At(bits, at + k)
  {
  }

  /** Left-aligned octets; the unused bits of the last one are 0. */
  function Pack(bits: seq<bool>): (bytes: seq<bv8>)
    ensures |bytes| == (|bits| + 7) / 8
  {
    seq((|bits| + 7) / 8, j requires 0 <= j < (|bits| + 7) / 8 => OctetAt(bits, 8 * j))
  }

  lemma UnpackAt(bytes: seq<bv8>, i: nat)
    requires i < 8 * |bytes|
    ensures At(Unpack(bytes), i) == Unpack(bytes)[i] == Bit(bytes[i / 8], i % 8)
  {
  }

  lemma UnpackPackAt(bits: seq<bool>, i: nat)
    ensures At(Unpack(Pack(bits)), i) == At(bits, i)
  {
    if i < 8 * |Pack(bits)| {
      UnpackAt(Pack(bits), i);
      OctetAtBit(bits, 8 * (i / 8), i % 8);
    }
  }

  lemma UnpackPack(bits: seq<bool>)
    ensures Unpack(Pack(bits))[..|bits|] == bits
    ensures forall i | |bits| <= i < |Unpack(Pack(bits))| :: !Unpack(Pack(bits))[i]
  {
    forall i: nat | i < |Unpack(Pack(bits))|
      ensures Unpack(Pack(bits))[i] == At(bits, i)
    {
      UnpackPackAt(bits, i);
    }
  }

  lemma PackUnpack(bytes: seq<bv8>)
    ensures Pack(Unpack(bytes)) == bytes
  {
    hide OctetAt, Bit, At;
    forall j | 0 <= j < |bytes|
      ensures OctetAt(Unpack(bytes), 8 * j) == bytes[j]
    {
      forall k: nat | k < 8
        ensures Bit(OctetAt(Unpack(bytes), 8 * j), k) == Bit(bytes[j], k)
      {
        OctetAtBit(Unpack(bytes), 8 * j, k);
        UnpackAt(bytes, 8 * j + k);
      }
      EqualBitsEqualOctets(OctetAt(Unpack(bytes), 8 * j), bytes[j]);
    }
    assert Pack(Unpack(bytes)) == bytes;
  }

  lemma UnpackConcat(a: seq<bv8>, b: seq<bv8>)
    ensures Unpack(a + b) == Unpack(a) + Unpack(b)
  {
  }

  lemma UnpackSlice(bytes: seq<bv8>, i: nat, j: nat)
    requires i <= j <= |bytes|
    ensures Unpack(bytes[i..j]) == Unpack(bytes)[8 * i..8 * j]
  {
  }

  lemma UnpackDropTake(bytes: seq<bv8>, b: nat, n: nat)
    requires 8 * b <= n <= 8 * |bytes|
    ensures Unpack(bytes[b..])[..n - 8 * b] == Unpack(bytes)[..n][8 * b..]
  {
    UnpackSlice(bytes, b, |bytes|);
    assert bytes[b..|bytes|] == bytes[b..];
    DropOfTake(Unpack(bytes), 8 * b, n);
  }

  lemma DropOfTake(s: seq<bool>, i: nat, n: nat)
    requires i <= n <= |s|
    ensures s[i..][..n - i] == s[..n][i..]
  {
  }

  lemma OctetAtDependsOnBits(a: seq<bool>, i: nat, b: seq<bool>, j: nat)
    requires forall k: nat | i <= k < i + 8 :: At(a, k) == At(b, k - i + j)
    ensures OctetAt(a, i) == OctetAt(b, j)
  {
    forall k: nat | k < 8
      ensures Bit(OctetAt(a, i), k) == Bit(OctetAt(b, j), k)
    {
      OctetAtBit(a, i, k);
      OctetAtBit(b, j, k);
    }
    EqualBitsEqualOctets(OctetAt(a, i), OctetAt(b, j));
  }

  /** Packing piecewise is packing the whole, as long as the first piece ends on an octet. */
  lemma PackConcat(a: seq<bool>, b: seq<bool>)
    requires |a| % 8 == 0
    ensures Pack(a + b) == Pack(a) + Pack(b)
  {
    hide OctetAt;
    var m := |a| / 8;
    forall j | 0 <= j < |Pack(a + b)|
      ensures Pack(a + b)[j] == if j < m then Pack(a)[j] else Pack(b)[j - m]
    {
      OctetOfConcat(a, b, j);
    }
  }

  lemma OctetOfConcat(a: seq<bool>, b: seq<bool>, j: nat)
    requires |a| % 8 == 0
    ensures OctetAt(a + b, 8 * j) == if 8 * j < |a| then OctetAt(a, 8 * j) else OctetAt(b, 8 * j - |a|)
  {
    hide OctetAt;
    if 8 * j < |a| {
      OctetAtDependsOnBits(a + b, 8 * j, a, 8 * j);
    } else {
      OctetAtDependsOnBits(a + b, 8 * j, b, 8 * j - |a|);
    }
  }

  // ----- trailing 0 bits -----

  function Zeros(n: nat): (bits: seq<bool>)
    ensures |bits| == n
  {
    seq(n, _ => false)
  }

  /** Trailing 0 bits removed. */
  function Trim(bits: seq<bool>): (t: seq<bool>)
    ensures t <= bits
    ensures forall i | |t| <= i < |bits| :: !bits[i]
    ensures t == [] || t[|t| - 1]
  {
    if |bits| > 0 && !bits[|bits| - 1] then Trim(bits[..|bits| - 1]) else bits
  }

  lemma {:induction false} TrimIs(bits: seq<bool>, n: nat)
    requires n <= |bits|
    requires forall i | n <= i < |bits| :: !bits[i]
    requires n == 0 || bits[n - 1]
    ensures Trim(bits) == bits[..n]
  {
    if n == |bits| {
    } else {
      TrimIs(bits[..|bits| - 1], n);
      assert bits[..|bits| - 1][..n] == bits[..n];
    }
  }

  /** Equal once both are continued with 0 bits. */
  ghost predicate Same(a: seq<bool>, b: seq<bool>) {
    forall i: nat :: At(a, i) == At(b, i)
  }

  /** Lexicographic order of the two strings continued with 0 bits for ever. */
  ghost predicate Less(a: seq<bool>, b: seq<bool>) {
    exists i: nat :: DiffersFirstAt(a, b, i)
  }

  ghost predicate DiffersFirstAt(a: seq<bool>, b: seq<bool>, i: nat) {
    !At(a, i) && At(b, i) && forall j: nat | j < i :: At(a, j) == At(b, j)
  }

  lemma TrimKeepsBits(bits: seq<bool>)
    ensures Same(Trim(bits), bits)
  {
  }

  lemma SameTrimLength(a: seq<bool>, b: seq<bool>)
    requires Same(a, b)
    ensures |Trim(a)| <= |Trim(b)|
  {
    if Trim(a) != [] {
      assert At(a, |Trim(a)| - 1);
      assert At(b, |Trim(a)| - 1);
    }
  }

  lemma SameIffTrimEqual(a: seq<bool>, b: seq<bool>)
    ensures Same(a, b) <==> Trim(a) == Trim(b)
  {
    TrimKeepsBits(a);
    TrimKeepsBits(b);
    if Same(a, b) {
      SameTrimLength(a, b);
      SameTrimLength(b, a);
      assert forall i: nat | i < |Trim(a)| :: Trim(a)[i] == At(a, i) && Trim(b)[i] == At(b, i);
    }
    if Trim(a) == Trim(b) {
      assert forall i: nat :: At(a, i) == At(Trim(a), i) && At(b, i) == At(Trim(b), i);
    }
  }

  lemma LessExcludes(a: seq<bool>, b: seq<bool>)
    requires Less(a, b)
    ensures !Less(b, a) && !Same(a, b)
  {
    var i: nat :| DiffersFirstAt(a, b, i);
    forall j: nat
      ensures !DiffersFirstAt(b, a, j)
    {
      assert j < i ==> At(a, j) == At(b, j);
    }
  }

  /** Exactly one of a < b, a = b and b < a holds. */
  lemma OrderIsTotal(a: seq<bool>, b: seq<bool>)
    ensures Less(a, b) || Same(a, b) || Less(b, a)
    ensures !(Less(a, b) && Less(b, a)) && !(Less(a, b) && Same(a, b)) && !(Less(b, a) && Same(a, b))
  {
    if Less(a, b) {
      LessExcludes(a, b);
    }
    if Less(b, a) {
      LessExcludes(b, a);
    }
    if !Same(a, b) {
      var i := FirstDifference(a, b);
      assert DiffersFirstAt(a, b, i) || DiffersFirstAt(b, a, i);
    }
  }

  lemma FirstDifference(a: seq<bool>, b: seq<bool>) returns (i: nat)
    requires !Same(a, b)
    ensures At(a, i) != At(b, i) && forall j: nat | j < i :: At(a, j) == At(b, j)
  {
    var m: nat :| At(a, m) != At(b, m);
    i := 0;
    while At(a, i) == At(b, i)
      invariant i <= m && forall j: nat | j < i :: At(a, j) == At(b, j)
      decreases m - i
    {
      i := i + 1;
    }
  }

  lemma OrderIsTransitive(a: seq<bool>, b: seq<bool>, c: seq<bool>)
    requires Less(a, b) && Less(b, c)
    ensures Less(a, c)
  {
    var i: nat :| DiffersFirstAt(a, b, i);
    var j: nat :| DiffersFirstAt(b, c, j);
    assert DiffersFirstAt(a, c, if i < j then i else j);
  }

  lemma OrderRespectsSame(a: seq<bool>, b: seq<bool>, c: seq<bool>)
    requires Same(a, b)
    ensures Less(a, c) <==> Less(b, c)
    ensures Less(c, a) <==> Less(c, b)
    ensures Same(a, c) <==> Same(b, c)
  {
    forall i: nat
      ensures DiffersFirstAt(a, c, i) <==> DiffersFirstAt(b, c, i)
      ensures DiffersFirstAt(c, a, i) <==> DiffersFirstAt(c, b, i)
    {
    }
  }

  // ----- numbers -----

  function Pow2(n: nat): (p: nat)
    ensures p >= 1
  {
    if n == 0 then 1 else 2 * Pow2(n - 1)
  }

  /** The low w bits of v, as asn_put_few_bits writes them. */
  function NatBits(v: nat, w: nat): (bits: seq<bool>)
    ensures |bits| == w
  {
    if w == 0 then [] else NatBits(v / 2, w - 1) + [v % 2 == 1]
  }

  function BitsNat(bits: seq<bool>): (v: nat)
    ensures v < Pow2(|bits|)
  {
    if bits == [] then 0
    else 2 * BitsNat(bits[..|bits| - 1]) + (if bits[|bits| - 1] then 1 else 0)
  }

  lemma {:induction false} BitsNatOfNatBits(v: nat, w: nat)
    requires v < Pow2(w)
    ensures BitsNat(NatBits(v, w)) == v
  {
    if w == 0 {
    } else {
      BitsNatOfNatBits(v / 2, w - 1);
      assert NatBits(v, w)[..w - 1] == NatBits(v / 2, w - 1);
    }
  }

  lemma {:induction false} NatBitsOfBitsNat(bits: seq<bool>)
    ensures NatBits(BitsNat(bits), |bits|) == bits
  {
    if bits == [] {
    } else {
      NatBitsOfBitsNat(bits[..|bits| - 1]);
      assert bits == bits[..|bits| - 1] + [bits[|bits| - 1]];
    }
  }

  lemma HalfQuotient(v: nat, d: nat)
    requires d >= 1
    ensures v / 2 / d == v / (2 * d)
  {
    var q, r := v / (2 * d), v % (2 * d);
    assert v == 2 * d * q + r;
    assert v / 2 == d * q + r / 2 && 0 <= r / 2 < d;
    QuotientIs(v / 2, d, q, r / 2);
  }

  lemma QuotientIs(x: nat, d: nat, q: nat, r: nat)
    requires d >= 1 && r < d && x == d * q + r
    ensures x / d == q
  {
    assert x == d * (x / d) + x % d;
    assert d * (x / d - q) == r - x % d;
    SmallMultiple(d, x / d - q);
  }

  lemma SmallMultiple(d: int, e: int)
    requires d >= 1 && -d < d * e < d
    ensures e == 0
  {
    AtLeastOnce(d, e);
    AtLeastOnce(d, -e);
  }

  lemma AtLeastOnce(d: int, e: int)
    requires d >= 1
    ensures e >= 1 ==> d * e >= d
    ensures d * -e == -(d * e)
  {
  }

  /** Numbers are written most significant bit first. */
  lemma {:induction false} NatBitsAt(v: nat, w: nat, i: nat)
    requires i < w
    ensures NatBits(v, w)[i] <==> v / Pow2(w - 1 - i) % 2 == 1
  {
    if i == w - 1 {
      assert Pow2(0) == 1;
    } else {
      NatBitsAt(v / 2, w - 1, i);
      HalfQuotient(v, Pow2(w - 2 - i));
      assert Pow2(w - 1 - i) == 2 * Pow2(w - 2 - i);
    }
  }

  /** An octet in a stream stands for its number. */
  lemma OctetValue(b: bv8)
    ensures BitsNat(Unpack([b])) == b as nat
  {
    hide *;
    OctetSum(b);
    OctetBits(b);
    NumberOfEight(Unpack([b]));
  }

  lemma OctetBits(b: bv8)
    ensures forall k: nat | k < 8 :: Unpack([b])[k] == Bit(b, k)
  {
    hide Bit;
  }

  lemma OctetSum(b: bv8)
    ensures b as nat == Two(Bit(b, 7), Two(Bit(b, 6), Two(Bit(b, 5), Two(Bit(b, 4),
                        Two(Bit(b, 3), Two(Bit(b, 2), Two(Bit(b, 1), Two(Bit(b, 0), 0))))))))
  {
  }

  /** A number with one more bit at the end. */
  function Two(last: bool, front: nat): nat {
    2 * front + if last then 1 else 0
  }

  lemma NumberOfEight(bits: seq<bool>)
    requires |bits| == 8
    ensures BitsNat(bits) == Two(bits[7], Two(bits[6], Two(bits[5], Two(bits[4],
                             Two(bits[3], Two(bits[2], Two(bits[1], Two(bits[0], 0))))))))
  {
    hide *;
    NumberStep(bits, 0);
    NumberStep(bits, 1);
    NumberStep(bits, 2);
    NumberStep(bits, 3);
    NumberStep(bits, 4);
    NumberStep(bits, 5);
    NumberStep(bits, 6);
    NumberStep(bits, 7);
    assert bits[..8] == bits;
  }

  lemma NumberStep(bits: seq<bool>, n: nat)
    requires n < |bits|
    ensures BitsNat(bits[..n + 1]) == Two(bits[n], BitsNat(bits[..n]))
    ensures BitsNat(bits[..0]) == 0
  {
    assert bits[..n + 1][..n] == bits[..n];
  }

  // ----- the order and numbers -----

  /** Continued to a common length the two strings are compared as numbers. */
  lemma OrderIsNumeric(a: seq<bool>, b: seq<bool>, n: nat)
    requires |a| <= n && |b| <= n
    ensures var x, y := BitsNat(a + Zeros(n - |a|)), BitsNat(b + Zeros(n - |b|));
            && (Less(a, b) <==> x < y)
            && (Same(a, b) <==> x == y)
  {
    var a', b' := a + Zeros(n - |a|), b + Zeros(n - |b|);
    assert forall i: nat :: At(a', i) == At(a, i) && At(b', i) == At(b, i);
    OrderRespectsSame(a', a, b');
    OrderRespectsSame(b', b, a);
    OrderIsTotal(a', b');
    if Less(a', b') {
      SmallerNumber(a', b');
    } else if Less(b', a') {
      SmallerNumber(b', a');
    } else {
      assert forall i | 0 <= i < n :: a'[i] == At(a', i) && b'[i] == At(b', i);
      assert a' == b';
    }
  }

  lemma {:induction false} SmallerNumber(a: seq<bool>, b: seq<bool>)
    requires |a| == |b| && Less(a, b)
    ensures BitsNat(a) < BitsNat(b)
    decreases |a|
  {
    var i: nat :| DiffersFirstAt(a, b, i);
    var a', b' := a[..|a| - 1], b[..|b| - 1];
    if i == |a| - 1 {
      assert forall j | 0 <= j < |a'| :: a'[j] == At(a, j) && b'[j] == At(b, j);
      assert a' == b';
    } else {
      assert i < |b| && i < |b'|;
      forall j: nat | j <= i
        ensures At(a', j) == At(a, j) && At(b', j) == At(b, j)
      {
      }
      assert DiffersFirstAt(a', b', i);
      SmallerNumber(a', b');
    }
  }
}
