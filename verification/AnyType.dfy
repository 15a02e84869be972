/** ANY_t: an octet string of arbitrary length, its PER codec, and the buffer it is collected in. */
module AnyType {
  import opened Wrappers
  import opened Bits
  import opened PerSupport

  class AnyValue {
    var buf: array?<bv8>
    var size: nat

    predicate Readable()
      reads this
    {
      if buf == null then size == 0 else size <= buf.Length
    }

    function Contents(): (bytes: seq<bv8>)
      requires Readable()
      reads this, buf
      ensures |bytes| == size
    {
      if buf == null then [] else buf[..size]
    }

    constructor ()
      ensures buf == null && size == 0
    {
      buf, size := null, 0;
    }
  }

  datatype Code = Ok | WantMore

  /** The encoding of an octet string: octets counted, not bits. */
  function Encoding(bytes: seq<bv8>): seq<bool> {
    Fragments(Unpack(bytes), Octet)
  }

  function Decoding(s: seq<bool>): Option<(seq<bool>, seq<bool>)> {
    Reassemble(s, -1, 0, Octet)
  }

  /** Octet strings of every length come back whole, and the stream is left at the suffix. */
  lemma RoundTrip(bytes: seq<bv8>, suffix: seq<bool>)
    ensures Decoding(Encoding(bytes) + suffix) == Some((Unpack(bytes), suffix))
    ensures Pack(Unpack(bytes)) == bytes
  {
    FragmentsRoundTrip(Unpack(bytes), Octet, suffix, 0);
    PackUnpack(bytes);
  }

  lemma EncodingIsPrefixFree(a: seq<bv8>, more: seq<bool>, b: seq<bv8>, more': seq<bool>)
    ensures Encoding(a) + more == Encoding(b) + more' <==> a == b && more == more'
  {
    RoundTrip(a, more);
    RoundTrip(b, more');
  }

  /** Short octet strings stand behind their number of octets; longer ones are cut into fragments. */
  lemma EncodingForm(bytes: seq<bv8>)
    ensures |bytes| <= 127 ==> Encoding(bytes) == NatBits(|bytes|, 8) + Unpack(bytes)
    ensures 128 <= |bytes| < 16384 ==> Encoding(bytes) == NatBits(0x8000 + |bytes|, 16) + Unpack(bytes)
    ensures Encoding(bytes) == Assemble(Unpack(bytes), Octet, Counts(|bytes|))
  {
    hide NatBits, LengthBits, Counts, Assemble, Unpack, Fragments;
    OctetCount(bytes);
    FragmentsFollowCounts(Unpack(bytes), Octet);
    LengthBitsAreOctets(|bytes|);
    if |bytes| < 16384 {
      OneFragment(Unpack(bytes), Octet);
    }
  }

  lemma OctetCount(bytes: seq<bv8>)
    ensures Octet.Whole(|Unpack(bytes)|) && Octet.Count(|Unpack(bytes)|) == |bytes|
  {
  }

  /** The decoder accepts exactly the fragmentations that count octets, and gives what they carry. */
  lemma DecodingAccepts(s: seq<bool>, bits: seq<bool>, rest: seq<bool>)
    ensures Decoding(s) == Some((bits, rest)) <==>
            exists pieces | Fragmentation(pieces, Octet) :: s == OnWire(pieces) + rest && bits == Carried(pieces)
  {
    ReassembleAcceptsFragmentations(s, bits, rest, Octet);
  }

  /** ANY_encode_uper. */
  method EncodeUper(st: AnyValue, po: BitWriter) returns (encoded: bool)
    requires st.buf != null ==> st.Readable()
    modifies po
    ensures encoded <==> st.Readable()
    ensures po.bits == if encoded then old(po.bits) + Encoding(st.Contents()) else old(po.bits)
  {
    hide Fragments, Announced, Unpack;
    if st.buf == null && st.size > 0 {
      return false;
    }
    ghost var whole := po.bits + Encoding(st.Contents());
    var buf, size := st.Contents(), st.size;
    assert Unpack(buf)[..8 * size] == Unpack(buf);
    var again := true;
    while again
      invariant 0 <= size == |buf|
      invariant again ==> whole == po.bits + Fragments(Unpack(buf)[..8 * size], Octet)
      invariant !again ==> whole == po.bits
      decreases size, again
    {
      var maySave := po.PutFragment(buf, size, Octet);
      UnpackDropTake(buf, maySave, 8 * size);
      buf := buf[maySave..];
      size := size - maySave;
      assert maySave % 8 == 0 || size == 0;
      again := size != 0;
    }
    encoded := true;
  }

  /** ANY_encode_aper is the same loop over the same unaligned length determinant. */
  method EncodeAper(st: AnyValue, po: BitWriter) returns (encoded: bool)
    requires st.buf != null ==> st.Readable()
    modifies po
    ensures encoded <==> st.Readable()
    ensures po.bits == if encoded then old(po.bits) + Encoding(st.Contents()) else old(po.bits)
  {
    encoded := EncodeUper(st, po);
  }

  // ----- decoding -----

  /** The structure holds exactly the octets of `bits`, in a buffer with room for one octet more. */
  ghost predicate Holds(st: AnyValue, bits: seq<bool>)
    reads st, st.buf
  {
    && st.Readable() && st.Contents() == Pack(bits) && |bits| == 8 * st.size
    && (st.buf != null ==> st.size < st.buf.Length)
  }

  /** One fragment is read behind the octets that hold the bits `got`. */
  method AppendFragment(st: AnyValue, rawLen: nat, pd: BitReader, ghost got: seq<bool>) returns (failed: bool)
    requires pd.Valid() && Holds(st, got)
    modifies st, pd
    ensures pd.Valid()
    ensures failed <==> 8 * rawLen > |old(pd.Rest())|
    ensures !failed ==>
              && pd.Rest() == old(pd.Rest())[8 * rawLen..] && Holds(st, got + old(pd.Rest())[..8 * rawLen])
              && st.buf != null && fresh(st.buf)
  {
    hide Pack;
    ghost var already, s := st.Contents(), pd.Rest();
    var p := Realloc(st.buf, st.size + rawLen + 1);
    assert p[..st.size] == already;
    st.buf := p;
    failed := pd.GetMany(p, st.size, 8 * rawLen);
    if !failed {
      st.size := st.size + rawLen;
      assert st.buf[..st.size] == already + Pack(s[..8 * rawLen]);
      PackConcat(got, s[..8 * rawLen]);
    }
  }

  /** ANY_decode_uper, also into a structure that still holds an old buffer. */
  method DecodeUper(st: AnyValue, pd: BitReader) returns (code: Code, consumed: nat)
    requires pd.Valid()
    requires st.buf != null ==> st.buf.Length > 0
    modifies st, st.buf, pd
    ensures pd.Valid()
    ensures code == Ok <==> Decoding(old(pd.Rest())).Some?
    ensures code == Ok ==>
              var (bits, rest) := Decoding(old(pd.Rest())).value;
              && pd.Rest() == rest && Holds(st, bits)
              && st.buf != null && st.buf[st.size] == 0
              && consumed == 8 * st.size
  {
    hide Reassemble, ReadLength, Pack;
    ghost var s, got := pd.Rest(), [];
    PrependNothing(Reassemble(s, -1, 0, Octet));
    PackNothing();
    consumed := 0;
    st.size := 0;
    var again := true;
    while again
      invariant pd.Valid() && Holds(st, got) && consumed == 8 * st.size
      invariant st.buf == old(st.buf) || fresh(st.buf)
      invariant again ==> Reassemble(s, -1, 0, Octet) == Prepend(got, Reassemble(pd.Rest(), -1, 0, Octet))
      invariant !again ==> Reassemble(s, -1, 0, Octet) == Some((got, pd.Rest()))
      invariant !again ==> st.buf != null
      decreases |pd.Rest()|, again
    {
      ghost var turn := pd.Rest();
      var rawLen, more := pd.GetLength(-1, 0);
      ReassembleStep(s, got, turn, -1, 0, Octet);
      if rawLen < 0 {
        return WantMore, consumed;
      }
      ghost var here := pd.Rest();
      if rawLen == 0 && st.buf != null {
        assert got + here[..0] == got && here[0..] == here;
        break;
      }
      var failed := AppendFragment(st, rawLen, pd, got);
      if failed {
        return WantMore, consumed;
      }
      got := got + here[..8 * rawLen];
      consumed := consumed + 8 * rawLen;
      again := more;
    }
    PutZero(st.buf, st.size);
    code := Ok;
  }

  lemma PackNothing()
    ensures Pack([]) == []
  {
  }

  // ----- the aligned variant -----

  /** The first octet boundary at or after a position. */
  function Aligned(pos: nat): (a: nat)
    ensures pos <= a < pos + 8 && a % 8 == 0
  {
    if pos % 8 == 0 then pos else pos + (8 - pos % 8)
  }

  /** The least positive number of bits that can tell `range` values apart. */
  function BitWidth(range: nat): (w: nat)
    ensures w >= 1 && Pow2(w) >= range && (w == 1 || Pow2(w - 1) < range)
  {
    if range <= 2 then 1 else 1 + BitWidth((range + 1) / 2)
  }

  lemma {:induction false} Pow2Grows(m: nat, n: nat)
    requires m <= n
    ensures Pow2(m) <= Pow2(n)
  {
    if m == n {
    } else {
      Pow2Grows(m, n - 1);
    }
  }

  lemma BitWidthIs(range: nat, w: nat)
    requires w >= 1 && Pow2(w) >= range && (w == 1 || Pow2(w - 1) < range)
    ensures BitWidth(range) == w
  {
    var v := BitWidth(range);
    if v < w {
      Pow2Grows(v, w - 1);
    } else if w < v {
      Pow2Grows(w, v - 1);
    }
  }

  /** The number of that many bits from there on, and the position behind it; -1 if they are not all
      there or more than 31. */
  predicate IsField(bits: seq<bool>, from: nat, width: nat, count: int, pos: nat) {
    if width <= 31 && from + width <= |bits| then count == BitsNat(bits[from..from + width]) && pos == from + width
    else count == -1
  }

  /** asn_get_few_bits from where the stream stands. */
  method GetField(pd: BitReader, width: nat) returns (count: int)
    requires pd.Valid()
    modifies pd
    ensures pd.Valid() && IsField(pd.bits, old(pd.pos), width, count, pd.pos)
  {
    ghost var from := pd.pos;
    count := pd.GetFew(width);
    assert from + width <= |pd.bits| ==> pd.bits[from..][..width] == pd.bits[from..from + width];
  }

  /** aper_get_align. */
  method AperGetAlign(pd: BitReader) returns (failed: bool)
    requires pd.Valid()
    modifies pd
    ensures pd.Valid()
    ensures failed <==> Aligned(old(pd.pos)) > |pd.bits|
    ensures !failed ==> pd.pos == Aligned(old(pd.pos))
  {
    failed := false;
    if pd.pos % 8 != 0 {
      var skipped := pd.GetFew(8 - pd.pos % 8);
      failed := skipped < 0;
    }
  }

  /** aper_get_nsnnwn: a small range takes as few bits as possible, 256 an aligned octet, and a larger
      one two; a negative range fails, and so does one above 65536. */
  method AperGetNsnnwn(range: int, pd: BitReader) returns (value: int)
    requires pd.Valid()
    modifies pd
    ensures pd.Valid()
    ensures 0 <= range <= 255 ==> IsField(pd.bits, old(pd.pos), BitWidth(range), value, pd.pos)
    ensures 255 < range <= 65536 ==>
              IsField(pd.bits, Aligned(old(pd.pos)), if range == 256 then 8 else 16, value, pd.pos)
    ensures !(0 <= range <= 65536) ==> value == -1 && pd.pos == old(pd.pos)
  {
    var octets := 0;
    if range <= 255 {
      if range < 0 {
        return -1;
      }
      Pow2Values();
      var i := 1;
      while i <= 8 && Pow2(i) < range
        invariant 1 <= i <= 8 && (i == 1 || Pow2(i - 1) < range)
      {
        i := i + 1;
      }
      BitWidthIs(range, i);
      hide IsField, Pow2;
      value := GetField(pd, i);
      return;
    } else if range == 256 {
      octets := 1;
    } else if range <= 65536 {
      octets := 2;
    } else {
      return -1;
    }
    var failed := AperGetAlign(pd);
    if failed {
      return -1;
    }
    value := GetField(pd, 8 * octets);
  }

  /** aper_get_length: a constrained range has its own form; otherwise a non-negative number of
      effective bits is read as it stands, which includes zero bits, and a negative one means a length
      determinant. */
  method AperGetLength(range: int, effectiveBits: int, pd: BitReader) returns (count: int, more: bool)
    requires pd.Valid()
    modifies pd
    ensures pd.Valid()
    ensures 0 <= range <= 255 ==> IsField(pd.bits, old(pd.pos), BitWidth(range), count, pd.pos)
    ensures 255 < range <= 65536 ==>
              IsField(pd.bits, Aligned(old(pd.pos)), if range == 256 then 8 else 16, count, pd.pos)
    ensures !(0 <= range <= 65536) && effectiveBits >= 0 ==>
              IsField(pd.bits, Aligned(old(pd.pos)), effectiveBits, count, pd.pos)
    ensures !(0 <= range <= 65536) && effectiveBits < 0 ==>
              if Aligned(old(pd.pos)) > |pd.bits| then count == -1
              else
                var l := ReadLength(pd.bits[Aligned(old(pd.pos))..], -1, 0);
                if l.Malformed? then count == -1 else count >= 0 && l == Length(count, more, pd.Rest())
    ensures 0 <= range <= 65536 || effectiveBits >= 0 ==> !more
  {
    more := false;
    if 0 <= range <= 65536 {
      count := AperGetNsnnwn(range, pd);
      return;
    }
    var failed := AperGetAlign(pd);
    if failed {
      return -1, more;
    }
    if effectiveBits >= 0 {
      count := GetField(pd, effectiveBits);
    } else {
      count, more := pd.GetLength(-1, 0);
    }
  }

  /** ANY_decode_aper asks for a length of zero effective bits, so it always reads an empty value
      and consumes nothing but alignment. */
  method DecodeAper(st: AnyValue, pd: BitReader) returns (code: Code, consumed: nat)
    requires pd.Valid()
    requires st.buf != null ==> st.buf.Length > 0
    modifies st, st.buf, pd
    ensures pd.Valid()
    ensures code == Ok <==> Aligned(old(pd.pos)) <= |pd.bits|
    ensures code == Ok <==> AperDecoding(pd.bits, old(pd.pos)).Some?
    ensures code == Ok ==>
              && st.Readable() && st.size == 0 && pd.pos == Aligned(old(pd.pos))
              && (st.Contents(), pd.pos) == AperDecoding(pd.bits, old(pd.pos)).value
              && st.buf != null && st.size < st.buf.Length && st.buf[st.size] == 0
    ensures consumed == 0
  {
    consumed := 0;
    st.size := 0;
    var again := true;
    while again
      invariant pd.Valid() && st.Readable() && st.size == 0 && consumed == 0
      invariant st.buf == old(st.buf) || fresh(st.buf)
      invariant st.buf != null ==> st.buf.Length > 0
      invariant if again then pd.pos == old(pd.pos)
                else st.buf != null && pd.pos == Aligned(old(pd.pos)) <= |pd.bits|
      decreases again
    {
      var rawLen, more := AperGetLength(-1, 0, pd);
      if rawLen < 0 {
        return WantMore, consumed;
      }
      if rawLen == 0 && st.buf != null {
        break;
      }
      st.buf := Realloc(st.buf, st.size + rawLen + 1);
      var failed := pd.GetMany(st.buf, st.size, 8 * rawLen);
      if failed {
        return WantMore, consumed;
      }
      consumed := consumed + 8 * rawLen;
      st.size := st.size + rawLen;
      again := more;
    }
    st.buf[st.size] := 0;
    code := Ok;
  }

  function AperDecoding(bits: seq<bool>, pos: nat): Option<(seq<bv8>, nat)> {
    if Aligned(pos) <= |bits| then Some(([], Aligned(pos))) else None
  }

  /** The aligned pair does not round-trip: whatever precedes and follows the encoding, the value
      comes back exactly when it is empty, and even then its length octet is left unread. */
  lemma AperRoundTripOnlyWhenEmpty(before: seq<bool>, bytes: seq<bv8>, suffix: seq<bool>)
    ensures var stream := before + Encoding(bytes) + suffix;
            var read := AperDecoding(stream, |before|);
            && read.Some?
            && (read.value.0 == bytes <==> bytes == [])
            && stream[read.value.1..] != suffix
  {
    LongerThanPadding(Unpack(bytes));
    var stream := before + Encoding(bytes) + suffix;
    assert |stream| >= |before| + 8 + |suffix|;
  }

  lemma LongerThanPadding(d: seq<bool>)
    requires Octet.Whole(|d|)
    ensures |Fragments(d, Octet)| >= 8
  {
  }

  // ----- the append buffer -----

  /** The numbers that govern the buffer, with what reallocation has cost so far. */
  datatype Extent = Extent(offset: nat, capacity: nat, moved: nat, grown: nat)

  const EMPTY := Extent(0, 0, 0, 0)

  /** The growth rule of ANY__consume_bytes for a chunk of n octets; reallocation moves the octets
      already there. */
  function Appended(e: Extent, n: nat): Extent {
    if e.offset + n >= e.capacity then
      Extent(e.offset + n, (if e.capacity != 0 then 4 * e.capacity else 16) + n, e.moved + e.offset, e.grown + 1)
    else e.(offset := e.offset + n)
  }

  function AppendedAll(e: Extent, sizes: seq<nat>): Extent
    decreases |sizes|
  {
    if sizes == [] then e else AppendedAll(Appended(e, sizes[0]), sizes[1..])
  }

  function Pow4(n: nat): nat {
    if n == 0 then 1 else 4 * Pow4(n - 1)
  }

  predicate InBounds(e: Extent) {
    && (if e.grown == 0 then e == EMPTY else e.offset < e.capacity && 4 * Pow4(e.grown) <= e.capacity)
    && e.capacity <= 5 * e.offset + 16
    && 3 * e.moved <= e.capacity
  }

  /** Over any sequence of chunks the buffer always has a spare octet, never holds more than five
      times the data and 16 octets, and the octets moved by all reallocations together stay below a
      third of the capacity, so that appending is linear on average; and it grows at most logarithmically
      often. */
  lemma {:induction false} AppendingIsAmortised(e: Extent, sizes: seq<nat>)
    requires InBounds(e)
    ensures InBounds(AppendedAll(e, sizes)) && AppendedAll(e, sizes).offset == e.offset + Sum(sizes)
    ensures AppendedAll(e, sizes).grown >= e.grown
    ensures e == EMPTY ==> 3 * AppendedAll(e, sizes).moved <= 5 * Sum(sizes) + 16
    ensures e == EMPTY ==>
              var e', n := AppendedAll(e, sizes), Sum(sizes);
              && e'.capacity <= 5 * n + 16 && 3 * e'.moved <= e'.capacity
              && (sizes != [] ==> n < e'.capacity && 4 * Pow4(e'.grown) <= e'.capacity)
    decreases |sizes|
  {
    if sizes == [] {
    } else {
      AppendOne(e, sizes[0]);
      AppendingIsAmortised(Appended(e, sizes[0]), sizes[1..]);
    }
  }

  lemma AppendOne(e: Extent, n: nat)
    requires InBounds(e)
    ensures InBounds(Appended(e, n)) && Appended(e, n).offset < Appended(e, n).capacity
    ensures e.capacity == 0 ==> e == EMPTY
  {
  }

  class CallbackArg {
    var buffer: array?<bv8>
    var offset: nat
    var size: nat
    ghost var moved: nat
    ghost var grown: nat

    ghost function Growth(): Extent
      reads this
    {
      Extent(offset, size, moved, grown)
    }

    ghost predicate Valid()
      reads this
    {
      && InBounds(Growth())
      && (if buffer == null then size == 0 else buffer.Length == size)
    }

    function Contents(): seq<bv8>
      requires Valid()
      reads this, buffer
    {
      if buffer == null then [] else buffer[..offset]
    }

    constructor ()
      ensures Valid() && Growth() == EMPTY && Contents() == [] && buffer == null
    {
      buffer, offset, size, moved, grown := null, 0, 0, 0, 0;
    }

    /** ANY__consume_bytes. */
    method ConsumeBytes(chunk: seq<bv8>)
      requires Valid()
      modifies this, buffer
      ensures Valid() && Growth() == Appended(old(Growth()), |chunk|)
      ensures Contents() == old(Contents()) + chunk
      ensures buffer == old(buffer) || fresh(buffer)
      ensures buffer != null && offset < buffer.Length
      ensures buffer == old(buffer) <==> old(size) > old(offset) + |chunk|
      ensures buffer != old(buffer) ==> size == |chunk| + if old(size) == 0 then 16 else 4 * old(size)
    {
      hide InBounds;
      Reserve(|chunk|);
      MemCpy(buffer, offset, chunk);
      offset := offset + |chunk|;
    }

    /** Room for n octets more, and one to spare. */
    method Reserve(n: nat)
      requires Valid()
      modifies this
      ensures Growth().(offset := offset + n) == Appended(old(Growth()), n) && InBounds(Growth().(offset := offset + n))
      ensures offset == old(offset) && buffer != null && buffer.Length == size && offset + n < size
      ensures buffer == old(buffer) || fresh(buffer)
      ensures buffer[..offset] == old(Contents())
      ensures buffer == old(buffer) <==> old(size) > offset + n
      ensures buffer != old(buffer) ==> size == n + if old(size) == 0 then 16 else 4 * old(size)
    {
      AppendOne(Growth(), n);
      hide InBounds;
      ghost var already := Contents();
      assert size == 0 ==> offset == 0;
      if offset + n >= size {
        var nsize := (if size != 0 then 4 * size else 16) + n;
        var p := Realloc(buffer, nsize);
        moved, grown := moved + offset, grown + 1;
        buffer := p;
        size := nsize;
        assert buffer[..offset] == already;
      }
    }
  }

  method MemCpy(dst: array<bv8>, at: nat, src: seq<bv8>)
    requires at + |src| <= dst.Length
    modifies dst
    ensures dst[..at + |src|] == old(dst[..at]) + src
  {
    forall i | 0 <= i < |src| {
      dst[at + i] := src[i];
    }
  }

  function Flatten(chunks: seq<seq<bv8>>): seq<bv8> {
    if chunks == [] then [] else Flatten(chunks[..|chunks| - 1]) + chunks[|chunks| - 1]
  }

  /** What DER encoding hands out: chunks, and whether it succeeds in the end. */
  datatype Encoder = Encoder(chunks: seq<seq<bv8>>, succeeds: bool)

  /** ANY_fromType; None is a missing structure, whose value is the empty one.  After a failure the
      value is the old one; after success it has taken over the buffer. */
  method FromType(st: AnyValue, source: Option<Encoder>) returns (code: int)
    modifies st
    ensures code == if source.Some? && !source.value.succeeds then -1 else 0
    ensures code == -1 ==> st.buf == old(st.buf) && st.size == old(st.size)
    ensures code == 0 ==> st.Readable() && st.Contents() == if source.Some? then Flatten(source.value.chunks) else []
    ensures code == 0 && source.Some? ==>
              if source.value.chunks == [] then st.buf == null
              else st.buf != null && fresh(st.buf) && st.size < st.buf.Length
  {
    if source.None? {
      st.size := 0;
      return 0;
    }
    var arg := new CallbackArg();
    var encoded := DerEncode(source.value, arg);
    if encoded == -1 {
      return -1;
    }
    assert encoded == arg.offset;
    st.buf := arg.buffer;
    st.size := arg.offset;
    code := 0;
  }

  /** The encoder calls back with one chunk after the other; -1 if it fails in the end. */
  method DerEncode(source: Encoder, arg: CallbackArg) returns (encoded: int)
    requires arg.Valid() && arg.buffer == null && arg.Contents() == [] && arg.offset == 0
    modifies arg
    ensures arg.Valid() && (arg.buffer == null || fresh(arg.buffer))
    ensures arg.Contents() == Flatten(source.chunks)
    ensures if source.chunks == [] then arg.buffer == null else arg.buffer != null && arg.offset < arg.buffer.Length
    ensures encoded == if source.succeeds then arg.offset else -1
  {
    var chunks := source.chunks;
    var i := 0;
    encoded := 0;
    while i < |chunks|
      invariant 0 <= i <= |chunks| && arg.Valid()
      invariant arg.buffer == null || fresh(arg.buffer)
      invariant if i == 0 then arg.buffer == null else arg.buffer != null && arg.offset < arg.buffer.Length
      invariant arg.Contents() == Flatten(chunks[..i]) && encoded == arg.offset
    {
      arg.ConsumeBytes(chunks[i]);
      assert chunks[..i + 1][..i] == chunks[..i];
      encoded := encoded + |chunks[i]|;
      i := i + 1;
    }
    assert chunks[..i] == chunks;
    if !source.succeeds {
      encoded := -1;
    }
  }
}
