/** The parts of the PER runtime the two string codecs call: bit output, bit input, and the length
    determinant of section 11.9 of ITU-T X.691 with its 16K fragments. */
module PerSupport {
  import opened Wrappers
  import opened Bits

  const K16 := 16384

  // ----- bit fields -----

  lemma Doubled(x: nat, y: nat)
    ensures x * (2 * y) == 2 * (x * y)
  {
  }

  function Shifted(x: nat, n: nat): nat {
    if n == 0 then x else 2 * Shifted(x, n - 1)
  }

  lemma {:induction false} BitsNatConcat(a: seq<bool>, b: seq<bool>)
    ensures BitsNat(a + b) == Shifted(BitsNat(a), |b|) + BitsNat(b)
  {
    if b == [] {
      assert a + b == a;
    } else {
      var b' := b[..|b| - 1];
      BitsNatConcat(a, b');
      assert (a + b)[..|a + b| - 1] == a + b';
    }
  }

  lemma {:induction false} NatBitsConcat(hi: nat, w: nat, lo: nat, v: nat)
    requires lo < Pow2(v)
    ensures NatBits(hi * Pow2(v) + lo, w + v) == NatBits(hi, w) + NatBits(lo, v)
  {
    if v == 0 {
    } else {
      NatBitsConcat(hi, w, lo / 2, v - 1);
      var x := hi * Pow2(v) + lo;
      Doubled(hi, Pow2(v - 1));
      assert x / 2 == hi * Pow2(v - 1) + lo / 2;
      assert NatBits(hi, w) + NatBits(lo, v) == NatBits(hi, w) + NatBits(lo / 2, v - 1) + [lo % 2 == 1];
    }
  }

  // ----- the length determinant (section 11.9.3.5 to 11.9.3.8 of ITU-T X.691) -----

  /** 1 to 4 blocks of 16K units: what a fragment that is not the last one is made of. */
  predicate WholeBlocks(k: nat) {
    k == K16 || k == 2 * K16 || k == 3 * K16 || k == 4 * K16
  }

  /** How many of n units the next length determinant announces. */
  function Announced(n: nat): (k: nat)
    ensures k <= n && (k == 0 <==> n == 0)
    ensures n < K16 ==> k == n
    ensures n >= K16 ==> WholeBlocks(k) && (k == 4 * K16 || n - k < K16)
  {
    if n < K16 then n
    else if n < 2 * K16 then K16
    else if n < 3 * K16 then 2 * K16
    else if n < 4 * K16 then 3 * K16
    else 4 * K16
  }

  lemma AnnouncedBlocks(n: nat)
    requires n >= K16
    ensures Announced(n) == (if n / K16 > 4 then 4 else n / K16) * K16
    ensures Announced(n) / K16 == if n / K16 > 4 then 4 else n / K16
    ensures Announced(n) == n <==> n % K16 == 0 && n / K16 <= 4
    ensures (n - Announced(n)) % K16 == n % K16
  {
  }

  /** 0 and 7 bits; or 10 and 14 bits; or 11 and the number of 16K blocks in 6 bits. */
  function LengthBits(n: nat): seq<bool> {
    if n <= 127 then [false] + NatBits(n, 7)
    else if n < K16 then [true, false] + NatBits(n, 14)
    else [true, true] + NatBits(Announced(n) / K16, 6)
  }

  datatype Length = Malformed | Length(count: nat, more: bool, rest: seq<bool>)

  /** A length determinant read from the head of a stream.  A size constraint of at most 16
      effective bits sends the offset from its lower bound instead. */
  function ReadLength(s: seq<bool>, effectiveBits: int, lowerBound: nat): (l: Length)
    ensures l.Length? ==> |l.rest| <= |s|
    ensures l.Length? && !(0 <= effectiveBits <= 16) ==> |l.rest| < |s|
    ensures l.Length? && l.more ==> WholeBlocks(l.count) && |l.rest| < |s|
  {
    if 0 <= effectiveBits <= 16 then
      if |s| < effectiveBits then Malformed
      else Length(BitsNat(s[..effectiveBits]) + lowerBound, false, s[effectiveBits..])
    else if |s| < 8 then Malformed
    else if !s[0] then Length(BitsNat(s[1..8]), false, s[8..])
    else if !s[1] then
      if |s| < 16 then Malformed else Length(BitsNat(s[2..16]), false, s[16..])
    else
      match BitsNat(s[2..8])
      case 1 => Length(K16, true, s[8..])
      case 2 => Length(2 * K16, true, s[8..])
      case 3 => Length(3 * K16, true, s[8..])
      case 4 => Length(4 * K16, true, s[8..])
      case _ => Malformed
  }

  /** The octets the determinants are made of, as the source computes them. */
  lemma LengthBitsAreOctets(n: nat)
    ensures n <= 127 ==> LengthBits(n) == NatBits(n, 8)
    ensures 128 <= n < 16384 ==> LengthBits(n) == NatBits(0x8000 + n, 16)
    ensures n >= 16384 ==> LengthBits(n) == NatBits(0xC0 + if n / 16384 > 4 then 4 else n / 16384, 8)
  {
    Pow2Values();
    HeaderFlags();
    hide NatBits, Pow2, Announced;
    if n <= 127 {
      NatBitsConcat(0, 1, n, 7);
    } else if n < 16384 {
      NatBitsConcat(2, 2, n, 14);
    } else {
      AnnouncedBlocks(n);
      NatBitsConcat(3, 2, Announced(n) / K16, 6);
    }
  }

  /** The spellings of a length determinant that a reader takes for this count: 0 and 7 bits, 10 and 14
      bits, or, if more is to follow, 11 and a number of blocks from 1 to 4 in 6 bits. */
  predicate Spells(h: seq<bool>, count: nat, more: bool) {
    if more then exists blocks | 1 <= blocks <= 4 :: count == 16384 * blocks && h == [true, true] + NatBits(blocks, 6)
    else
      || (count < 128 && h == [false] + NatBits(count, 7))
      || (count < 16384 && h == [true, false] + NatBits(count, 14))
  }

  /** What is written spells the count announced, and no spelling of it is shorter. */
  lemma LengthBitsAreShortest(n: nat)
    ensures Spells(LengthBits(n), Announced(n), n >= 16384)
    ensures forall h | Spells(h, Announced(n), n >= 16384) :: |LengthBits(n)| <= |h|
    ensures |LengthBits(n)| == if 128 <= n < 16384 then 16 else 8
  {
    hide NatBits;
    if n >= 16384 {
      AnnouncedBlocks(n);
      assert Announced(n) == 16384 * (Announced(n) / K16);
    }
  }

  /** A reader takes a stream for a determinant and a rest exactly when it is a spelling and that
      rest. */
  lemma ReadLengthAcceptsSpellings(s: seq<bool>, count: nat, more: bool, rest: seq<bool>)
    ensures ReadLength(s, -1, 0) == Length(count, more, rest) <==> exists h | Spells(h, count, more) :: s == h + rest
  {
    if ReadLength(s, -1, 0) == Length(count, more, rest) {
      var h := s[..|s| - |rest|];
      SpellingRead(s, count, more, rest);
      assert s == h + rest;
    }
    forall h | Spells(h, count, more) && s == h + rest
      ensures ReadLength(s, -1, 0) == Length(count, more, rest)
    {
      ReadSpelling(h, count, more, rest);
    }
  }

  lemma ReadSpelling(h: seq<bool>, count: nat, more: bool, rest: seq<bool>)
    requires Spells(h, count, more)
    ensures ReadLength(h + rest, -1, 0) == Length(count, more, rest)
  {
    Pow2Values();
    var s := h + rest;
    hide NatBits, BitsNat, Pow2;
    if more {
      var blocks :| 1 <= blocks <= 4 && count == 16384 * blocks && h == [true, true] + NatBits(blocks, 6);
      assert s[2..8] == NatBits(blocks, 6) && s[8..] == rest;
      BitsNatOfNatBits(blocks, 6);
    } else if count < 128 && h == [false] + NatBits(count, 7) {
      assert s[1..8] == NatBits(count, 7) && s[8..] == rest;
      BitsNatOfNatBits(count, 7);
    } else {
      assert s[2..16] == NatBits(count, 14) && s[16..] == rest;
      BitsNatOfNatBits(count, 14);
    }
  }

  lemma SpellingRead(s: seq<bool>, count: nat, more: bool, rest: seq<bool>)
    requires ReadLength(s, -1, 0) == Length(count, more, rest)
    ensures |rest| <= |s| && s[|s| - |rest|..] == rest
    ensures Spells(s[..|s| - |rest|], count, more)
  {
    Pow2Values();
    hide NatBits, BitsNat, Pow2;
    if !s[0] {
      NatBitsOfBitsNat(s[1..8]);
      assert s[..8] == [false] + s[1..8];
    } else if !s[1] {
      NatBitsOfBitsNat(s[2..16]);
      assert s[..16] == [true, false] + s[2..16];
    } else {
      NatBitsOfBitsNat(s[2..8]);
      assert s[..8] == [true, true] + s[2..8];
      assert count == 16384 * BitsNat(s[2..8]);
    }
  }

  lemma Pow2Values()
    ensures Pow2(6) == 64 && Pow2(7) == 128 && Pow2(8) == 256 && Pow2(14) == 16384 && Pow2(16) == 65536
  {
    assert Pow2(4) == 16;
    assert Pow2(8) == 256;
    assert Pow2(12) == 4096;
  }

  lemma ReadLengthOfLengthBits(n: nat, suffix: seq<bool>, lowerBound: nat)
    ensures ReadLength(LengthBits(n) + suffix, -1, lowerBound) == Length(Announced(n), n >= K16, suffix)
  {
    Pow2Values();
    var s := LengthBits(n) + suffix;
    if n <= 127 {
      assert s[1..8] == NatBits(n, 7) && s[8..] == suffix;
      BitsNatOfNatBits(n, 7);
    } else if n < K16 {
      assert s[2..16] == NatBits(n, 14) && s[16..] == suffix;
      BitsNatOfNatBits(n, 14);
    } else {
      assert s[2..8] == NatBits(Announced(n) / K16, 6) && s[8..] == suffix;
      BitsNatOfNatBits(Announced(n) / K16, 6);
    }
  }

  // ----- fragmentation -----

  /** Lengths count the bits of a BIT STRING and the octets of an octet string. */
  datatype Unit = OneBit | Octet {

    function Width(n: nat): nat {
      if Octet? then 8 * n else n
    }

    function Count(width: nat): nat {
      if Octet? then width / 8 else width
    }

    predicate Whole(width: nat) {
      Octet? ==> width % 8 == 0
    }
  }

  /** The whole encoding of a string. */
  function Fragments(d: seq<bool>, u: Unit): seq<bool>
    requires u.Whole(|d|)
    decreases |d|, 1
  {
    LengthBits(u.Count(|d|)) + d[..u.Width(Announced(u.Count(|d|)))] + FragmentTail(d, u)
  }

  /** What follows the first fragment: the other fragments, or the empty one that ends a string
      whose last fragment is made of whole 16K blocks. */
  function FragmentTail(d: seq<bool>, u: Unit): seq<bool>
    requires u.Whole(|d|)
    decreases |d|, 0
  {
    var n := u.Count(|d|);
    if n < K16 then []
    else if Announced(n) == n then LengthBits(0)
    else Fragments(d[u.Width(Announced(n))..], u)
  }

  /** What a stream of fragments means: the units it carries, and what is left of the stream. */
  function Reassemble(s: seq<bool>, effectiveBits: int, lowerBound: nat, u: Unit)
    : Option<(seq<bool>, seq<bool>)>
    decreases |s|
  {
    match ReadLength(s, effectiveBits, lowerBound)
    case Malformed => None
    case Length(k, more, rest) =>
      if |rest| < u.Width(k) then None
      else if !more then Some((rest[..u.Width(k)], rest[u.Width(k)..]))
      else Prepend(rest[..u.Width(k)], Reassemble(rest[u.Width(k)..], effectiveBits, lowerBound, u))
  }

  function Prepend(head: seq<bool>, r: Option<(seq<bool>, seq<bool>)>): Option<(seq<bool>, seq<bool>)> {
    match r
    case None => None
    case Some((tail, end)) => Some((head + tail, end))
  }

  lemma ReassembleFragment(n: nat, payload: seq<bool>, u: Unit, rest: seq<bool>, lowerBound: nat)
    requires |payload| == u.Width(Announced(n))
    ensures Reassemble(LengthBits(n) + payload + rest, -1, lowerBound, u) ==
            if n < K16 then Some((payload, rest)) else Prepend(payload, Reassemble(rest, -1, lowerBound, u))
  {
    ReadLengthOfLengthBits(n, payload + rest, lowerBound);
    assert LengthBits(n) + payload + rest == LengthBits(n) + (payload + rest);
    assert (payload + rest)[..|payload|] == payload && (payload + rest)[|payload|..] == rest;
  }

  lemma PrependNothing(r: Option<(seq<bool>, seq<bool>)>)
    ensures Prepend([], r) == r
  {
    if r.Some? {
      assert [] + r.value.0 == r.value.0;
    }
  }

  lemma PrependTwice(a: seq<bool>, b: seq<bool>, r: Option<(seq<bool>, seq<bool>)>)
    ensures Prepend(a, Prepend(b, r)) == Prepend(a + b, r)
  {
    if r.Some? {
      assert a + (b + r.value.0) == a + b + r.value.0;
    }
  }

  /** One turn of the decoders' loop: `got` was read before, `turn` is what the turn starts from. */
  lemma ReassembleStep(s: seq<bool>, got: seq<bool>, turn: seq<bool>, effectiveBits: int, lowerBound: nat, u: Unit)
    requires Reassemble(s, effectiveBits, lowerBound, u)
             == Prepend(got, Reassemble(turn, effectiveBits, lowerBound, u))
    ensures match ReadLength(turn, effectiveBits, lowerBound)
            case Malformed => Reassemble(s, effectiveBits, lowerBound, u).None?
            case Length(k, more, rest) =>
              if |rest| < u.Width(k) then Reassemble(s, effectiveBits, lowerBound, u).None?
              else
                var head, tail := rest[..u.Width(k)], rest[u.Width(k)..];
                Reassemble(s, effectiveBits, lowerBound, u) ==
                if more then Prepend(got + head, Reassemble(tail, effectiveBits, lowerBound, u))
                else Some((got + head, tail))
  {
    match ReadLength(turn, effectiveBits, lowerBound)
    case Malformed =>
    case Length(k, more, rest) =>
      if u.Width(k) <= |rest| && more {
        var head, tail := rest[..u.Width(k)], rest[u.Width(k)..];
        PrependTwice(got, head, Reassemble(tail, effectiveBits, lowerBound, u));
      }
  }

  lemma FirstFragmentEnd(len: nat, u: Unit)
    requires u.Whole(len)
    ensures u.Width(Announced(u.Count(len))) <= len && u.Whole(len - u.Width(Announced(u.Count(len))))
    ensures u.Count(len - u.Width(Announced(u.Count(len)))) == u.Count(len) - Announced(u.Count(len))
    ensures Announced(u.Count(len)) == u.Count(len) <==> u.Width(Announced(u.Count(len))) == len
  {
  }

  /** The first fragment cut off. */
  lemma FirstFragment(d: seq<bool>, u: Unit) returns (head: seq<bool>, tail: seq<bool>)
    requires u.Whole(|d|)
    ensures d == head + tail && |head| == u.Width(Announced(u.Count(|d|))) && u.Whole(|tail|)
    ensures Fragments(d, u) == LengthBits(u.Count(|d|)) + head + FragmentTail(d, u)
    ensures Announced(u.Count(|d|)) == u.Count(|d|) ==> tail == []
    ensures Announced(u.Count(|d|)) < u.Count(|d|) ==> FragmentTail(d, u) == Fragments(tail, u) && |tail| < |d|
    ensures u.Count(|tail|) == u.Count(|d|) - Announced(u.Count(|d|))
  {
    FirstFragmentEnd(|d|, u);
    head, tail := d[..u.Width(Announced(u.Count(|d|)))], d[u.Width(Announced(u.Count(|d|)))..];
  }

  lemma OneFragment(d: seq<bool>, u: Unit)
    requires u.Whole(|d|) && u.Count(|d|) < K16
    ensures Fragments(d, u) == LengthBits(u.Count(|d|)) + d
  {
    FirstFragmentEnd(|d|, u);
    hide LengthBits, Announced;
    assert d[..|d|] == d;
    assert LengthBits(u.Count(|d|)) + d + [] == LengthBits(u.Count(|d|)) + d;
  }

  lemma Regroup(a: seq<bool>, b: seq<bool>, c: seq<bool>, d: seq<bool>)
    ensures a + b + c + d == a + b + (c + d)
    ensures a + b + c + d == a + (b + c + d)
  {
  }

  /** What is left to write after the first fragment, and the empty one where it is needed. */
  lemma FragmentWritten(before: seq<bool>, d: seq<bool>, u: Unit, head: seq<bool>, tail: seq<bool>)
    requires u.Whole(|d|) && d == head + tail && |head| == u.Width(Announced(u.Count(|d|)))
    ensures var n := u.Count(|d|);
            var done := before + LengthBits(n) + head;
            before + Fragments(d, u) ==
              if Announced(n) < n then done + Fragments(tail, u)
              else if n >= K16 then done + LengthBits(0)
              else done
  {
    FirstFragmentEnd(|d|, u);
    assert head == d[..|head|] && tail == d[|head|..];
    Regroup(before, LengthBits(u.Count(|d|)), head, FragmentTail(d, u));
  }

  lemma EndOfMessageRoundTrip(u: Unit, suffix: seq<bool>, lowerBound: nat)
    ensures Reassemble(LengthBits(0) + suffix, -1, lowerBound, u) == Some(([], suffix))
  {
    ReassembleFragment(0, [], u, suffix, lowerBound);
    assert LengthBits(0) + suffix == LengthBits(0) + [] + suffix;
  }

  /** Reading undoes writing, whatever follows in the stream. */
  lemma {:induction false} FragmentsRoundTrip(d: seq<bool>, u: Unit, suffix: seq<bool>, lowerBound: nat)
    requires u.Whole(|d|)
    ensures Reassemble(Fragments(d, u) + suffix, -1, lowerBound, u) == Some((d, suffix))
    decreases |d|
  {
    var n := u.Count(|d|);
    var head, tail := FirstFragment(d, u);
    var rest := FragmentTail(d, u) + suffix;
    assert Reassemble(rest, -1, lowerBound, u) == Some((tail, suffix)) || n < K16 by {
      if Announced(n) == n {
        EndOfMessageRoundTrip(u, suffix, lowerBound);
      } else {
        FragmentsRoundTrip(tail, u, suffix, lowerBound);
      }
    }
    ReassembleFragment(n, head, u, rest, lowerBound);
    Regroup(LengthBits(n), head, FragmentTail(d, u), suffix);
    assert n < K16 ==> head == d && rest == suffix;
  }

  /** A length determinant and the units it announces. */
  datatype Piece = Piece(header: seq<bool>, payload: seq<bool>)

  function OnWire(pieces: seq<Piece>): seq<bool> {
    if pieces == [] then [] else pieces[0].header + pieces[0].payload + OnWire(pieces[1..])
  }

  function Carried(pieces: seq<Piece>): seq<bool> {
    if pieces == [] then [] else pieces[0].payload + Carried(pieces[1..])
  }

  /** Every determinant spells the number of units behind it, and that more is to follow exactly if it
      is not the last. */
  ghost predicate Fragmentation(pieces: seq<Piece>, u: Unit) {
    && pieces != []
    && forall i | 0 <= i < |pieces| ::
         var p := pieces[i];
         u.Whole(|p.payload|) && Spells(p.header, u.Count(|p.payload|), i < |pieces| - 1)
  }

  /** The decoders accept exactly the fragmentations, also those no encoder writes, and give what these
      carry. */
  lemma ReassembleAcceptsFragmentations(s: seq<bool>, d: seq<bool>, rest: seq<bool>, u: Unit)
    ensures Reassemble(s, -1, 0, u) == Some((d, rest)) <==>
            exists pieces | Fragmentation(pieces, u) :: s == OnWire(pieces) + rest && d == Carried(pieces)
  {
    hide Reassemble, OnWire, Carried;
    if Reassemble(s, -1, 0, u) == Some((d, rest)) {
      var pieces := PiecesOf(s, d, rest, u);
    }
    forall pieces | Fragmentation(pieces, u) && s == OnWire(pieces) + rest && d == Carried(pieces)
      ensures Reassemble(s, -1, 0, u) == Some((d, rest))
    {
      PiecesReassemble(pieces, rest, u);
    }
  }

  lemma ReassemblePiece(p: Piece, more: bool, tail: seq<bool>, u: Unit)
    requires u.Whole(|p.payload|) && Spells(p.header, u.Count(|p.payload|), more)
    ensures Reassemble(p.header + (p.payload + tail), -1, 0, u) ==
            if more then Prepend(p.payload, Reassemble(tail, -1, 0, u)) else Some((p.payload, tail))
  {
    ReadSpelling(p.header, u.Count(|p.payload|), more, p.payload + tail);
    hide Spells, ReadLength;
    assert (p.payload + tail)[..|p.payload|] == p.payload && (p.payload + tail)[|p.payload|..] == tail;
  }

  lemma {:induction false} PiecesReassemble(pieces: seq<Piece>, rest: seq<bool>, u: Unit)
    requires Fragmentation(pieces, u)
    ensures Reassemble(OnWire(pieces) + rest, -1, 0, u) == Some((Carried(pieces), rest))
    decreases |pieces|
  {
    var p, later := pieces[0], pieces[1..];
    hide Spells, Reassemble;
    PutTogether(p.header, p.payload, OnWire(later), rest);
    ReassemblePiece(p, |pieces| > 1, OnWire(later) + rest, u);
    if |pieces| == 1 {
      NoPieces();
    } else {
      LaterPieces(pieces, u);
      PiecesReassemble(later, rest, u);
    }
  }

  lemma LaterPieces(pieces: seq<Piece>, u: Unit)
    requires |pieces| > 1 && Fragmentation(pieces, u)
    ensures Fragmentation(pieces[1..], u)
  {
    var later := pieces[1..];
    hide Spells;
    forall i | 0 <= i < |later|
      ensures u.Whole(|later[i].payload|)
      ensures Spells(later[i].header, u.Count(|later[i].payload|), i < |later| - 1)
    {
      assert later[i] == pieces[i + 1];
    }
  }

  lemma MorePieces(p: Piece, later: seq<Piece>, u: Unit)
    requires later == [] || Fragmentation(later, u)
    requires u.Whole(|p.payload|) && Spells(p.header, u.Count(|p.payload|), later != [])
    ensures Fragmentation([p] + later, u)
    ensures OnWire([p] + later) == p.header + p.payload + OnWire(later)
    ensures Carried([p] + later) == p.payload + Carried(later)
  {
    hide Spells;
    assert ([p] + later)[1..] == later;
  }

  lemma FirstPiece(s: seq<bool>, d: seq<bool>, rest: seq<bool>, u: Unit)
    returns (p: Piece, more: bool, tail: seq<bool>, d': seq<bool>)
    requires Reassemble(s, -1, 0, u) == Some((d, rest))
    ensures s == p.header + p.payload + tail && d == p.payload + d'
    ensures u.Whole(|p.payload|) && Spells(p.header, u.Count(|p.payload|), more)
    ensures if more then |tail| < |s| && Reassemble(tail, -1, 0, u) == Some((d', rest)) else tail == rest && d' == []
  {
    var l := FirstLength(s, u);
    SpellingRead(s, l.count, l.more, l.rest);
    hide Spells, ReadLength, Reassemble;
    WidthAndCount(l.count, u);
    p, more := Piece(s[..|s| - |l.rest|], l.rest[..u.Width(l.count)]), l.more;
    tail := l.rest[u.Width(l.count)..];
    d' := if more then Reassemble(tail, -1, 0, u).value.0 else [];
    CutTwice(s, |s| - |l.rest|, l.rest, u.Width(l.count));
  }

  lemma FirstLength(s: seq<bool>, u: Unit) returns (l: Length)
    requires Reassemble(s, -1, 0, u).Some?
    ensures l.Length? && l == ReadLength(s, -1, 0) && u.Width(l.count) <= |l.rest| < |s|
    ensures var head, tail := l.rest[..u.Width(l.count)], l.rest[u.Width(l.count)..];
            Reassemble(s, -1, 0, u) ==
            if l.more then Prepend(head, Reassemble(tail, -1, 0, u)) else Some((head, tail))
  {
    l := ReadLength(s, -1, 0);
    hide ReadLength;
  }

  lemma WidthAndCount(n: nat, u: Unit)
    ensures u.Whole(u.Width(n)) && u.Count(u.Width(n)) == n
  {
  }

  lemma CutTwice(s: seq<bool>, n: nat, rest: seq<bool>, k: nat)
    requires n <= |s| && s[n..] == rest && k <= |rest|
    ensures s == s[..n] + rest[..k] + rest[k..] && rest[..k] + [] == rest[..k]
  {
  }

  lemma {:induction false} PiecesOf(s: seq<bool>, d: seq<bool>, rest: seq<bool>, u: Unit) returns (pieces: seq<Piece>)
    requires Reassemble(s, -1, 0, u) == Some((d, rest))
    ensures Fragmentation(pieces, u) && s == OnWire(pieces) + rest && d == Carried(pieces)
    decreases |s|
  {
    var p, more, tail, d' := FirstPiece(s, d, rest, u);
    hide *;
    var later := [];
    if more {
      later := PiecesOf(tail, d', rest, u);
      SomePieces(later, u);
    }
    NoPieces();
    MorePieces(p, later, u);
    pieces := [p] + later;
    PutTogether(p.header, p.payload, OnWire(later), rest);
  }

  lemma SomePieces(pieces: seq<Piece>, u: Unit)
    requires Fragmentation(pieces, u)
    ensures pieces != []
  {
  }

  lemma NoPieces()
    ensures OnWire([]) == [] && Carried([]) == []
  {
  }

  lemma PutTogether(a: seq<bool>, b: seq<bool>, c: seq<bool>, rest: seq<bool>)
    ensures a + b + (c + rest) == a + b + c + rest && a + (b + (c + rest)) == a + b + c + rest
    ensures b + [] == b && [] + rest == rest
  {
  }

  /** The counts announced one after the other while n units are sent. */
  function Counts(n: nat): seq<nat> {
    var k := Announced(n);
    [k] + if n < K16 then [] else if k == n then [0] else Counts(n - k)
  }

  function Sum(counts: seq<nat>): nat {
    if counts == [] then 0 else counts[0] + Sum(counts[1..])
  }

  /** No unit is skipped or sent twice: the counts add up, every count but the last is 1 to 4
      whole 16K blocks, and the closing empty fragment is there exactly for a nonzero
      multiple of 16K units. */
  lemma {:induction false} CountsCoverTheString(n: nat)
    ensures Counts(n) != [] && Sum(Counts(n)) == n
    ensures forall i | 0 <= i < |Counts(n)| - 1 :: WholeBlocks(Counts(n)[i])
    ensures forall i | 0 <= i < |Counts(n)| - 2 :: Counts(n)[i] == 65536
    ensures Counts(n)[|Counts(n)| - 1] == n % 16384
    ensures |Counts(n)| == 1 <==> n < K16
    decreases n
  {
    hide Announced;
    var k := Announced(n);
    if n >= K16 {
      AnnouncedBlocks(n);
    }
    if n < K16 {
      assert Counts(n) == [k];
    } else if k == n {
      assert Counts(n) == [k, 0];
      assert Counts(n)[1..] == [0];
      assert Sum([0]) == 0;
    } else {
      CountsCoverTheString(n - k);
      assert Counts(n)[1..] == Counts(n - k);
    }
  }

  /** The encoding cut along a list of counts. */
  function Assemble(d: seq<bool>, u: Unit, counts: seq<nat>): seq<bool> {
    if counts == [] || |d| < u.Width(counts[0]) then []
    else LengthBits(counts[0]) + d[..u.Width(counts[0])] + Assemble(d[u.Width(counts[0])..], u, counts[1..])
  }

  lemma {:induction false} FragmentsFollowCounts(d: seq<bool>, u: Unit)
    requires u.Whole(|d|)
    ensures Fragments(d, u) == Assemble(d, u, Counts(u.Count(|d|)))
    decreases |d|
  {
    hide Announced, Fragments, LengthBits;
    var n := u.Count(|d|);
    var k := Announced(n);
    var head, tail := FirstFragment(d, u);
    var later := Counts(n)[1..];
    if n < K16 {
      assert later == [];
    } else if k == n {
      assert later == [0] && [0][1..] == [];
      assert Assemble([], u, [0]) == LengthBits(0) + [] + [];
    } else {
      assert later == Counts(n - k);
      FragmentsFollowCounts(tail, u);
    }
    assert Assemble(tail, u, later) == FragmentTail(d, u);
    AnnouncedHeader(n);
    assert Counts(n) == [k] + later;
    AssembleFirst(head, tail, u, k, later);
  }

  lemma AnnouncedHeader(n: nat)
    ensures LengthBits(n) == LengthBits(Announced(n))
  {
  }

  lemma AssembleFirst(head: seq<bool>, tail: seq<bool>, u: Unit, k: nat, later: seq<nat>)
    requires u.Width(k) == |head|
    ensures Assemble(head + tail, u, [k] + later) == LengthBits(k) + head + Assemble(tail, u, later)
  {
    assert ([k] + later)[1..] == later;
    assert (head + tail)[..|head|] == head && (head + tail)[|head|..] == tail;
  }

  lemma HeaderFlags()
    ensures NatBits(0, 1) == [false] && NatBits(2, 2) == [true, false] && NatBits(3, 2) == [true, true]
  {
    assert NatBits(1, 1) == [true];
  }

  // ----- buffers -----

  /** The octets that fit are kept; the rest is arbitrary. */
  method Realloc(p: array?<bv8>, n: nat) returns (q: array<bv8>)
    ensures fresh(q) && q.Length == n
    ensures p != null ==> forall i | 0 <= i < n && i < p.Length :: q[i] == p[i]
  {
    q := new bv8[n];
    if p != null {
      forall i | 0 <= i < n && i < p.Length {
        q[i] := p[i];
      }
    }
  }

  /** buf[n] = 0, behind the n octets of a value. */
  method PutZero(buf: array<bv8>, n: nat)
    requires n < buf.Length
    modifies buf
    ensures buf[n] == 0 && buf[..n] == old(buf[..n])
  {
    ghost var octets := buf[..n];
    buf[n] := 0;
    assert buf[..n] == octets;
  }

  // ----- bit output (asn_bit_outp_t) -----

  class BitWriter {
    var bits: seq<bool>

    constructor ()
      ensures bits == []
    {
      bits := [];
    }

    /** asn_put_few_bits: only 1 to 31 bits are written; a request for 0 bits succeeds. */
    method PutFew(v: nat, n: int) returns (failed: bool)
      modifies this
      ensures failed == !(0 <= n <= 31)
      ensures bits == if failed then old(bits) else old(bits) + NatBits(v, n)
    {
      if n <= 0 || n >= 32 {
        failed := n != 0;
      } else {
        bits := bits + NatBits(v, n);
        failed := false;
      }
    }

    /** asn_put_many_bits: the first n bits of src. */
    method PutMany(src: seq<bv8>, n: nat)
      requires n <= 8 * |src|
      modifies this
      ensures bits == old(bits) + Unpack(src)[..n]
    {
      bits := bits + Unpack(src)[..n];
    }

    /** uper_put_length: announces as many of `length` units as one determinant can. */
    method PutLength(length: nat) returns (may: int, needEom: bool)
      modifies this
      ensures bits == old(bits) + LengthBits(length)
      ensures may == Announced(length)
      ensures needEom <==> length >= K16 && may == length
    {
      hide NatBits, Announced;
      Pow2Values();
      HeaderFlags();
      var failed: bool;
      if length <= 127 {
        needEom := false;
        NatBitsConcat(0, 1, length, 7);
        failed := PutFew(length, 8);
        may := if failed then -1 else length;
      } else if length < 16384 {
        needEom := false;
        NatBitsConcat(2, 2, length, 14);
        failed := PutFew(0x8000 + length, 16);  // length | 0x8000
        may := if failed then -1 else length;
      } else {
        needEom := length % 16384 == 0;
        var blocks := length / 16384;
        if blocks > 4 {
          needEom := false;
          blocks := 4;
        }
        AnnouncedBlocks(length);
        NatBitsConcat(3, 2, blocks, 6);
        failed := PutFew(0xC0 + blocks, 8);     // 0xC0 | blocks
        may := if failed then -1 else blocks * 16384;
      }
    }

    /** One turn of the encoders' loop: a length determinant, the units it announces, and the
        end-of-message determinant where it is needed. */
    method PutFragment(src: seq<bv8>, n: nat, u: Unit) returns (may: nat)
      requires u.Width(n) <= 8 * |src|
      modifies this
      ensures may == Announced(n)
      ensures var d := Unpack(src)[..u.Width(n)];
              old(bits) + Fragments(d, u) ==
                bits + if may < n then Fragments(d[u.Width(may)..], u) else []
    {
      hide Fragments, FragmentTail, Announced, LengthBits, Unpack;
      ghost var before, d := bits, Unpack(src)[..u.Width(n)];
      ghost var head, tail := FirstFragment(d, u);
      FragmentWritten(before, d, u, head, tail);
      var needEom;
      may, needEom := PutLength(n);
      assert Unpack(src)[..u.Width(may)] == head;
      PutMany(src, u.Width(may));
      if needEom {
        var m, eom := PutLength(0);
      }
    }
  }

  // ----- bit input (asn_bit_data_t) -----

  class BitReader {
    const bits: seq<bool>
    var pos: nat

    ghost predicate Valid()
      reads this
    {
      pos <= |bits|
    }

    /** What is still to be read. */
    function Rest(): seq<bool>
      requires Valid()
      reads this
    {
      bits[pos..]
    }

    constructor (bits: seq<bool>)
      ensures Valid() && this.bits == bits && Rest() == bits && pos == 0
    {
      this.bits := bits;
      pos := 0;
    }

    /** asn_get_few_bits without a refill function; -1 on failure. */
    method GetFew(n: int) returns (v: int)
      requires Valid()
      modifies this
      ensures Valid()
      ensures v == -1 <==> !(0 <= n <= 31 && n <= |old(Rest())|)
      ensures v == -1 ==> pos == old(pos)
      ensures v != -1 ==> v == BitsNat(old(Rest())[..n]) && pos == old(pos) + n && Rest() == old(Rest())[n..]
    {
      if n < 0 || n > |bits| - pos || n > 31 {
        v := -1;
      } else {
        v := BitsNat(Rest()[..n]);
        pos := pos + n;
      }
    }

    /** asn_get_many_bits without right alignment: left-aligned octets go to dst[at..]. */
    method GetMany(dst: array<bv8>, at: nat, n: nat) returns (failed: bool)
      requires Valid()
      requires at + (n + 7) / 8 <= dst.Length
      modifies this, dst
      ensures Valid()
      ensures failed <==> n > |old(Rest())|
      ensures !failed ==> pos == old(pos) + n && Rest() == old(Rest())[n..]
      ensures !failed ==> dst[..] == old(dst[..at]) + Pack(old(Rest())[..n]) + old(dst[at + (n + 7) / 8..])
    {
      failed := n > |bits| - pos;
      if !failed {
        var octets := Pack(Rest()[..n]);
        forall j | 0 <= j < |octets| {
          dst[at + j] := octets[j];
        }
        pos := pos + n;
      }
    }

    /** uper_get_length: -1 at the end of the stream and for a block count outside 1..4. */
    method GetLength(effectiveBits: int, lowerBound: nat) returns (count: int, more: bool)
      requires Valid()
      modifies this
      ensures Valid() && count >= -1
      ensures count == -1 <==> ReadLength(old(Rest()), effectiveBits, lowerBound).Malformed?
      ensures count != -1 ==> ReadLength(old(Rest()), effectiveBits, lowerBound) == Length(count, more, Rest())
    {
      ghost var s := Rest();
      more := false;
      if 0 <= effectiveBits <= 16 {
        count := GetFew(effectiveBits);
        if count >= 0 {
          count := count + lowerBound;
        }
      } else {
        count := GetFew(8);
        if count != -1 {
          HeaderFields(s[..8]);
          assert s[..8][1..] == s[1..8] && s[..8][2..] == s[2..8];
        }
        if 0 <= count < 0x80 {                  // value & 0x80 is 0
        } else if 0x80 <= count < 0xC0 {        // value & 0x40 is 0
          var low := GetFew(8);
          if low != -1 {
            assert s[8..][..8] == s[8..16];
            WideField(s);
          }
          count := if low == -1 then -1 else (count - 0x80) * 256 + low;
        } else if count >= 0 {
          count := count - 0xC0;
          if count < 1 || count > 4 {
            count := -1;
          } else {
            more := true;
            count := 16384 * count;
          }
        }
      }
    }
  }

  lemma HeaderFields(h: seq<bool>)
    requires |h| == 8
    ensures BitsNat(h) == (if h[0] then 0x80 else 0) + BitsNat(h[1..])
    ensures BitsNat(h) == (if h[0] then 0x80 else 0) + (if h[1] then 0x40 else 0) + BitsNat(h[2..])
    ensures BitsNat(h[1..]) < 0x80 && BitsNat(h[2..]) < 0x40
  {
    HeadBit(h);
    HeadBit(h[1..]);
    assert h[1..][1..] == h[2..];
    Pow2Values();
  }

  lemma {:induction false} HeadBit(h: seq<bool>)
    requires h != []
    ensures BitsNat(h) == (if h[0] then Pow2(|h| - 1) else 0) + BitsNat(h[1..])
  {
    if |h| == 1 {
      assert h[..0] == h[1..] == [];
    } else {
      var h' := h[..|h| - 1];
      HeadBit(h');
      assert h[1..][..|h| - 2] == h'[1..];
    }
  }

  lemma WideField(s: seq<bool>)
    requires |s| >= 16
    ensures BitsNat(s[2..16]) == BitsNat(s[2..8]) * 256 + BitsNat(s[8..16])
  {
    assert s[2..16] == s[2..8] + s[8..16];
    BitsNatConcat(s[2..8], s[8..16]);
    var x := BitsNat(s[2..8]);
    assert Shifted(x, 1) == 2 * x;
    assert Shifted(x, 2) == 4 * x;
    assert Shifted(x, 3) == 8 * x;
    assert Shifted(x, 4) == 16 * x;
    assert Shifted(x, 5) == 32 * x;
    assert Shifted(x, 6) == 64 * x;
    assert Shifted(x, 7) == 128 * x;
  }
}
