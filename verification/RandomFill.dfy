/** BIT_STRING_random_fill: the generator that feeds the codec.  Random numbers are arbitrary. */
module RandomFill {
  import opened Wrappers
  import opened Bits
  import opened BitStrings
  import opened BitStringUper
  import opened NodeIds

  const LENGTHS := [0, 1, 2, 3, 4, 8, 126, 127, 128, 16383, 16384, 16385, 65534, 65535, 65536, 65537]

  datatype Fill = Filled | Skipped

  /** The random numbers of one run: draw number k between two bounds. */
  type Draws = (nat, int, int) -> int

  ghost predicate Fair(draws: Draws) {
    forall k: nat, lb: int, rb: int | lb <= rb :: lb <= draws(k, lb, rb) <= rb
  }

  /** asn_random_between. */
  method RandomBetween(k: nat, lb: int, rb: int, draws: Draws) returns (v: int)
    requires lb <= rb && Fair(draws)
    ensures v == draws(k, lb, rb) && lb <= v <= rb
  {
    if lb == rb {
      v := lb;
    } else {
      v := draws(k, lb, rb);
    }
  }

  /** The bit counts the generator may choose; for an extensible constraint they may lie outside
      the root, and then may exceed the maximum length asked for.  Without a constraint a count that the
      table does not list needs a table entry above the maximum length. */
  predicate Choosable(c: Option<SizeConstraint>, maxLength: nat, n: int) {
    if c.Some? && c.value.constrained then
      || (c.value.lower <= n <= c.value.upper && n <= maxLength)
      || (c.value.extensible &&
          (n == c.value.lower - 1 >= 0 || n == c.value.upper + 1 || (n in LENGTHS && n < maxLength)))
    else 0 <= n < maxLength && (c.Some? || n in LENGTHS || maxLength <= 65537)
  }

  /** The number of bits these draws lead to. */
  function Chosen(c: Option<SizeConstraint>, maxLength: nat, draws: Draws): (n: int)
    requires Fair(draws) && maxLength > 0
    requires c.Some? ==> c.value.WellFormed() && (c.value.constrained ==> c.value.lower <= maxLength)
  {
    var table := LENGTHS[draws(0, 0, 15)];
    if c.None? then if table >= maxLength then draws(1, 0, maxLength - 1) else table
    else if !c.value.constrained then draws(1, 0, maxLength - 1)
    else
      var pc := c.value;
      var high := if pc.upper < maxLength then pc.upper else maxLength;
      if !pc.extensible then draws(1, pc.lower, high)
      else
        var way := draws(1, 0, 5);
        if way == 0 && pc.lower > 0 then pc.lower - 1
        else if way <= 1 then pc.upper + 1
        else if way == 2 && table < maxLength then table
        else draws(2, pc.lower, high)
  }

  /** How many bits to generate; none if the length asked for is too small. */
  method ChooseBits(c: Option<SizeConstraint>, maxLength: nat, draws: Draws) returns (code: Fill, n: int)
    requires Fair(draws) && (c.Some? ==> c.value.WellFormed())
    ensures code == Skipped <==>
            maxLength == 0 || (c.Some? && c.value.constrained && maxLength < c.value.lower)
    ensures code == Filled ==> n == Chosen(c, maxLength, draws) && n >= 0 && Choosable(c, maxLength, n)
  {
    n := 0;
    if maxLength == 0 {
      return Skipped, n;
    }
    var index := RandomBetween(0, 0, |LENGTHS| - 1, draws);
    n := LENGTHS[index];
    if c.Some? {
      var pc := c.value;
      if pc.constrained {
        var suggestedUpperBound := if pc.upper < maxLength then pc.upper else maxLength;
        if maxLength < pc.lower {
          return Skipped, n;
        }
        if pc.extensible {
          var way := RandomBetween(1, 0, 5, draws);
          if way == 0 && pc.lower > 0 {
            n := pc.lower - 1;
          } else if way <= 1 {
            n := pc.upper + 1;
          } else if way == 2 && n < maxLength {
            // the length from the table is kept
          } else {
            n := RandomBetween(2, pc.lower, suggestedUpperBound, draws);
          }
        } else {
          n := RandomBetween(1, pc.lower, suggestedUpperBound, draws);
        }
      } else {
        n := RandomBetween(1, 0, maxLength - 1, draws);
      }
    } else if n >= maxLength {
      n := RandomBetween(1, 0, maxLength - 1, draws);
    }
    code := Filled;
    ChosenIsChoosable(c, maxLength, draws);
  }

  lemma ChosenIsChoosable(c: Option<SizeConstraint>, maxLength: nat, draws: Draws)
    requires Fair(draws) && maxLength > 0
    requires c.Some? ==> c.value.WellFormed() && (c.value.constrained ==> c.value.lower <= maxLength)
    ensures Choosable(c, maxLength, Chosen(c, maxLength, draws))
  {
    var table := LENGTHS[draws(0, 0, 15)];
    assert table in LENGTHS && 0 <= table <= 65537;
  }

  /** Each of the counts is reached by some draws, and no other. */
  lemma ChoicesAreExactly(c: Option<SizeConstraint>, maxLength: nat, n: int)
    requires maxLength > 0
    requires c.Some? ==> c.value.WellFormed() && (c.value.constrained ==> c.value.lower <= maxLength)
    ensures Choosable(c, maxLength, n) <==> exists draws | Fair(draws) :: Chosen(c, maxLength, draws) == n
  {
    if Choosable(c, maxLength, n) {
      var draws := DrawsFor(c, maxLength, n);
    }
    forall draws | Fair(draws)
      ensures Choosable(c, maxLength, Chosen(c, maxLength, draws))
    {
      ChosenIsChoosable(c, maxLength, draws);
    }
  }

  /** First the table entry, then the way, and then the count itself wherever it is in the bounds. */
  function Clamped(first: int, way: int, n: int): Draws {
    (k: nat, lb: int, rb: int) =>
      var v := if k == 0 then first else if k == 1 && way >= 0 then way else n;
      if lb <= v <= rb then v else lb
  }

  lemma DrawsFor(c: Option<SizeConstraint>, maxLength: nat, n: int) returns (draws: Draws)
    requires maxLength > 0 && Choosable(c, maxLength, n)
    requires c.Some? ==> c.value.WellFormed() && (c.value.constrained ==> c.value.lower <= maxLength)
    ensures Fair(draws) && Chosen(c, maxLength, draws) == n
  {
    var first := TableEntry(n);
    var way := Way(c, maxLength, n);
    draws := Clamped(first, way, n);
    ClampedIsFair(first, way, n);
    hide Clamped, Pow2;
    ChosenFrom(c, maxLength, n, draws, LENGTHS[first]);
  }

  /** The case of the source's switch that leads to a count; -1 if there is no switch. */
  function Way(c: Option<SizeConstraint>, maxLength: nat, n: int): int {
    if c.Some? && c.value.constrained && c.value.extensible then
      if c.value.lower <= n <= c.value.upper && n <= maxLength then 5
      else if n == c.value.lower - 1 then 0
      else if n == c.value.upper + 1 then 1
      else 2
    else -1
  }

  lemma ChosenFrom(c: Option<SizeConstraint>, maxLength: nat, n: int, draws: Draws, table: int)
    requires maxLength > 0 && Choosable(c, maxLength, n) && Fair(draws)
    requires c.Some? ==> c.value.WellFormed() && (c.value.constrained ==> c.value.lower <= maxLength)
    requires LENGTHS[draws(0, 0, 15)] == table == if n in LENGTHS then n else 65537
    requires Way(c, maxLength, n) >= 0 ==> draws(1, 0, 5) == Way(c, maxLength, n)
    requires Way(c, maxLength, n) < 0 ==>
               forall lb: int, rb: int | lb <= n <= rb :: draws(1, lb, rb) == n
    requires forall lb: int, rb: int | lb <= n <= rb :: draws(2, lb, rb) == n
    ensures Chosen(c, maxLength, draws) == n
  {
    hide Fair, Pow2;
  }

  lemma TableEntry(n: int) returns (first: nat)
    ensures first < 16 && LENGTHS[first] == if n in LENGTHS then n else 65537
  {
    first := 15;
    if n in LENGTHS {
      first :| 0 <= first < 16 && LENGTHS[first] == n;
    }
  }

  lemma ClampedIsFair(first: int, way: int, n: int)
    ensures Fair(Clamped(first, way, n))
    ensures forall k: nat, lb: int, rb: int ::
              Clamped(first, way, n)(k, lb, rb) ==
              var v := if k == 0 then first else if k == 1 && way >= 0 then way else n;
              if lb <= v <= rb then v else lb
  {
  }

  /** Every value that is reported as filled has the chosen number of bits and zero padding, and
      passes the generic constraint check. */
  method Generate(c: Option<SizeConstraint>, maxLength: nat, st: BitString, draws: Draws)
    returns (code: Fill, length: nat, n: int)
    requires Fair(draws) && (c.Some? ==> c.value.WellFormed())
    modifies st
    ensures code == Skipped <==>
            maxLength == 0 || (c.Some? && c.value.constrained && maxLength < c.value.lower)
    ensures code == Filled ==>
              && n == Chosen(c, maxLength, draws) && n >= 0 && Choosable(c, maxLength, n)
              && st.buf != null && st.Readable() && st.size < st.buf.Length && st.buf[st.size] == 0
              && st.Value().WellFormed() && st.Value().ZeroPadded() && st.Value().BitLength() == n
              && length == st.size
  {
    hide Chosen, Choosable, Fair;
    length := 0;
    code, n := ChooseBits(c, maxLength, draws);
    if code == Filled {
      length := FillBits(st, n);
    }
  }

  method FillBits(st: BitString, n: nat) returns (length: nat)
    modifies st
    ensures st.buf != null && st.Readable() && st.size < st.buf.Length && st.buf[st.size] == 0
    ensures st.Value().WellFormed() && st.Value().ZeroPadded() && st.Value().BitLength() == n
    ensures length == st.size
  {
    var rndLen := (n + 7) / 8;
    var buf := new bv8[rndLen + 1](_ => 0);
    var b := 0;
    while b < rndLen
      invariant 0 <= b <= rndLen && buf[rndLen] == 0
    {
      var octet: bv8 := *;
      buf[b] := octet;
      b := b + 1;
    }
    buf[b] := 0;
    st.buf := buf;
    st.size := rndLen;
    st.bitsUnused := (8 - n % 8) % 8;
    PaddingSize(n);
    if st.bitsUnused != 0 {
      assert st.size > 0;
      st.buf[st.size - 1] := st.buf[st.size - 1] & HighBits(st.bitsUnused);
      HighBitsMask(buf[st.size - 1], st.bitsUnused);
    }
    CutLastOctet(st.Value(), if st.size > 0 then st.buf[st.size - 1] else 0);
    length := st.size;
  }

  /** 0xff << n as an octet. */
  function HighBits(n: nat): bv8
    requires n < 8
  {
    if n == 0 then 0xFF else if n == 1 then 0xFE else if n == 2 then 0xFC else if n == 3 then 0xF8
    else if n == 4 then 0xF0 else if n == 5 then 0xE0 else if n == 6 then 0xC0 else 0x80
  }

  lemma HighBitsMask(b: bv8, n: nat)
    requires n < 8 && b & HighBits(n) == b
    ensures forall k: nat | 8 - n <= k < 8 :: !Bit(b, k)
  {
    forall k: nat | 8 - n <= k < 8
      ensures !Bit(b, k)
    {
      assert Mask(k) & HighBits(n) == 0;
      Disjoint(b, HighBits(n), Mask(k));
    }
  }

  lemma Disjoint(b: bv8, high: bv8, m: bv8)
    requires b & high == b && m & high == 0
    ensures b & m == 0
  {
  }

  lemma CutLastOctet(v: BitStr, last: bv8)
    requires v.WellFormed()
    requires v.bytes != [] ==> last == v.bytes[|v.bytes| - 1]
    requires forall k: nat | 8 - v.unused <= k < 8 :: !Bit(last, k)
    ensures v.ZeroPadded()
  {
    hide Bit;
    forall i | v.BitLength() <= i < |Unpack(v.bytes)|
      ensures !Unpack(v.bytes)[i]
    {
      UnpackAt(v.bytes, i);
      assert i / 8 == |v.bytes| - 1;
    }
  }

  /** So every generated value satisfies what the codec asks for: it encodes, and what is read back
      compares as equal to it, under the very constraint it was generated for. */
  lemma GeneratedValuesRoundTrip(c: SizeConstraint, maxLength: nat, v: BitStr, suffix: seq<bool>)
    requires c.WellFormed() && v.WellFormed() && v.ZeroPadded()
    requires Choosable(Some(c), maxLength, v.BitLength())
    ensures !c.extensible && c.constrained ==> c.lower <= v.BitLength() <= c.upper
    ensures Encodable(c, v)
    ensures var s := Encoding(c, v.Significant()) + suffix;
            && Decoding(c, s).Some? && Decoding(c, s).value.1 == suffix
            && Same(Unpack(ReadBack(c, s).bytes), Unpack(v.bytes))
  {
    PaddingIsTrailing(v);
    RoundTripIsEqual(c, v, suffix);
  }
}
