/** BIT_STRING_encode_xer: the binary text of a bit string, handed out in chunks. */
module Xer {
  import opened Bits
  import opened BitStrings

  const BIT_PATTERN := ["0000", "0001", "0010", "0011", "0100", "0101", "0110", "0111",
                        "1000", "1001", "1010", "1011", "1100", "1101", "1110", "1111"]

  function Digit(b: bool): char {
    if b then '1' else '0'
  }

  function BitText(bits: seq<bool>): (text: string)
    ensures |text| == |bits|
  {
    seq(|bits|, i requires 0 <= i < |bits| => Digit(bits[i]))
  }

  function Concat(chunks: seq<string>): string {
    if chunks == [] then "" else Concat(chunks[..|chunks| - 1]) + chunks[|chunks| - 1]
  }

  /** The text without white space. */
  function Visible(text: string): string {
    if text == "" then ""
    else
      var c := text[|text| - 1];
      Visible(text[..|text| - 1]) + if c == '\n' || c == ' ' then "" else [c]
  }

  lemma {:induction false} VisibleConcat(a: string, b: string)
    ensures Visible(a + b) == Visible(a) + Visible(b)
  {
    if b == "" {
      assert a + b == a;
    } else {
      VisibleConcat(a, b[..|b| - 1]);
      assert (a + b)[..|a + b| - 1] == a + b[..|b| - 1];
    }
  }

  lemma {:induction false} VisibleBitText(bits: seq<bool>)
    ensures Visible(BitText(bits)) == BitText(bits)
  {
    if bits == [] {
    } else {
      var front := bits[..|bits| - 1];
      VisibleBitText(front);
      assert BitText(bits)[..|bits| - 1] == BitText(front);
      assert BitText(bits) == BitText(front) + [Digit(bits[|bits| - 1])];
    }
  }

  // ----- one octet as text -----

  function Nibble(b: bv8): (n: nat)
    ensures n < 16
  {
    (if b & 8 != 0 then 8 else 0) + (if b & 4 != 0 then 4 else 0) +
    (if b & 2 != 0 then 2 else 0) + (if b & 1 != 0 then 1 else 0)
  }

  lemma PatternOfNibble(b: bv8)
    ensures BIT_PATTERN[Nibble(b)] == [Digit(b & 8 != 0), Digit(b & 4 != 0), Digit(b & 2 != 0), Digit(b & 1 != 0)]
  {
  }

  lemma NibbleBits(b: bv8)
    ensures (b >> 4) & 8 != 0 <==> Bit(b, 0)
    ensures (b >> 4) & 4 != 0 <==> Bit(b, 1)
    ensures (b >> 4) & 2 != 0 <==> Bit(b, 2)
    ensures (b >> 4) & 1 != 0 <==> Bit(b, 3)
    ensures b & 8 != 0 <==> Bit(b, 4)
    ensures b & 4 != 0 <==> Bit(b, 5)
    ensures b & 2 != 0 <==> Bit(b, 6)
    ensures b & 1 != 0 <==> Bit(b, 7)
  {
  }

  lemma OctetText(b: bv8)
    ensures BIT_PATTERN[Nibble(b >> 4)] + BIT_PATTERN[Nibble(b)] == BitText(Unpack([b]))
  {
    PatternOfNibble(b >> 4);
    PatternOfNibble(b);
    NibbleBits(b);
    EightBits(b);
  }

  lemma EightBits(b: bv8)
    ensures Unpack([b]) == [Bit(b, 0), Bit(b, 1), Bit(b, 2), Bit(b, 3), Bit(b, 4), Bit(b, 5), Bit(b, 6), Bit(b, 7)]
  {
    hide Bit;
  }

  lemma SingleOctet(b: bv8, k: nat)
    requires k < 8
    ensures Unpack([b])[k] == Bit(b, k)
  {
    hide Bit;
  }

  // ----- the encoder -----

  /** A callback that may refuse a chunk, depending on what it has taken so far: the chunks taken, the
      number of characters reported, and whether a chunk has been refused. */
  class Sink {
    const refuses: (seq<string>, string) -> bool
    var chunks: seq<string>
    var encoded: nat
    var failed: bool

    ghost predicate Valid()
      reads this
    {
      && encoded == |Text()|
      && (forall i | 0 <= i < |chunks| :: !refuses(chunks[..i], chunks[i]))
      && (failed ==> exists chunk :: refuses(chunks, chunk))
    }

    function Text(): string
      reads this
    {
      Concat(chunks)
    }

    constructor (refuses: (seq<string>, string) -> bool)
      ensures Valid() && chunks == [] && !failed && this.refuses == refuses
    {
      this.refuses := refuses;
      chunks, encoded, failed := [], 0, false;
    }

    /** ASN__CALLBACK. */
    method Callback(chunk: string)
      requires Valid() && !failed
      modifies this
      ensures Valid() && failed == refuses(old(chunks), chunk)
      ensures chunks == if failed then old(chunks) else old(chunks) + [chunk]
      ensures Text() == if failed then old(Text()) else old(Text()) + chunk
    {
      failed := refuses(chunks, chunk);
      if !failed {
        chunks := chunks + [chunk];
        encoded := encoded + |chunk|;
        assert chunks[..|chunks| - 1] == old(chunks);
        assert forall i | 0 <= i < |old(chunks)| :: chunks[..i] == old(chunks)[..i];
      }
    }

    /** ASN__TEXT_INDENT(1, level). */
    method TextIndent(level: int)
      requires Valid() && !failed
      modifies this
      ensures Valid() && Visible(Text()) == Visible(old(Text()))
    {
      hide Visible, Valid;
      PutBlank("\n");
      var i := 0;
      while i < level && !failed
        invariant Valid() && Visible(Text()) == Visible(old(Text()))
      {
        PutBlank("    ");
        i := i + 1;
      }
    }

    method PutBlank(chunk: string)
      requires Valid() && !failed && forall c | c in chunk :: c == ' ' || c == '\n'
      modifies this
      ensures Valid() && Visible(Text()) == Visible(old(Text()))
    {
      hide Visible;
      Callback(chunk);
      VisibleConcat(old(Text()), chunk);
      Blank(chunk);
      assert Visible(old(Text())) + "" == Visible(old(Text()));
    }
  }

  lemma {:induction false} Blank(text: string)
    requires forall c | c in text :: c == ' ' || c == '\n'
    ensures Visible(text) == ""
  {
    if text == "" {
    } else {
      var front := text[..|text| - 1];
      assert text == front + [text[|text| - 1]];
      assert text[|text| - 1] in text && forall c | c in front :: c in text;
      Blank(front);
      assert "" + "" == "";
    }
  }

  /** How many bits of the last octet are shown: none, if the count of unused bits is 8 or more. */
  function ShownOfLast(unused: int): (n: nat)
    requires unused >= 0
    ensures n <= 8
  {
    if unused <= 8 then 8 - unused else 0
  }

  /** The bits the value declares, also for an empty buffer. */
  function Shown(bytes: seq<bv8>, unused: int): seq<bool>
    requires unused >= 0
  {
    if bytes == [] then [] else Unpack(bytes)[..8 * (|bytes| - 1) + ShownOfLast(unused)]
  }

  /** Each bit is one character. */
  lemma BitTextIs(bits: seq<bool>, i: nat)
    requires i < |bits|
    ensures BitText(bits)[i] == if bits[i] then '1' else '0'
  {
  }

  /** Of a well-formed value exactly the declared bits are shown; 8 or more unused bits hide the last
      octet. */
  lemma ShownIs(v: BitStr)
    ensures v.WellFormed() ==> Shown(v.bytes, v.unused) == v.Declared()
    ensures v.bytes != [] && v.unused >= 8 ==> Shown(v.bytes, v.unused) == Unpack(v.bytes[..|v.bytes| - 1])
  {
    if v.bytes != [] {
      UnpackSlice(v.bytes, 0, |v.bytes| - 1);
      assert v.bytes[0..|v.bytes| - 1] == v.bytes[..|v.bytes| - 1];
    }
  }

  /** Only blanks and line ends are overlooked. */
  lemma VisibleIs(front: string, c: char)
    ensures Visible(front + [c]) == if c == ' ' || c == '\n' then Visible(front) else Visible(front) + [c]
  {
    assert (front + [c])[..|front|] == front;
    assert Visible(front) + "" == Visible(front);
  }

  /** The text so far reads, apart from the layout that only the non-canonical form has, as the given
      bits. */
  ghost predicate Reads(canonical: bool, text: string, bits: seq<bool>) {
    if canonical then text == BitText(bits) else Visible(text) == BitText(bits)
  }

  lemma ReadsMore(canonical: bool, text: string, bits: seq<bool>, more: seq<bool>)
    requires Reads(canonical, text, bits)
    ensures Reads(canonical, text + BitText(more), bits + more)
  {
    VisibleConcat(text, BitText(more));
    VisibleBitText(more);
    assert BitText(bits + more) == BitText(bits) + BitText(more);
  }

  /** The text so far is a beginning of that. */
  ghost predicate Begins(canonical: bool, text: string, bits: seq<bool>) {
    if canonical then text <= BitText(bits) else Visible(text) <= BitText(bits)
  }

  lemma ReadsBegins(canonical: bool, text: string, pending: string, bits: seq<bool>)
    requires Reads(canonical, text + pending, bits)
    ensures Begins(canonical, text, bits)
  {
    VisibleConcat(text, pending);
  }

  lemma BeginsMore(canonical: bool, text: string, bits: seq<bool>, more: seq<bool>)
    requires Begins(canonical, text, bits)
    ensures Begins(canonical, text, bits + more)
  {
    assert BitText(bits + more) == BitText(bits) + BitText(more);
  }

  lemma BeginsShown(canonical: bool, text: string, bytes: seq<bv8>, n: nat, unused: int)
    requires unused >= 0 && n <= |bytes| && (bytes != [] ==> n < |bytes|)
    requires Begins(canonical, text, Unpack(bytes[..n]))
    ensures Begins(canonical, text, Shown(bytes, unused))
  {
    var all := Shown(bytes, unused);
    if bytes == [] {
      assert bytes[..n] == [];
    } else {
      UnpackSlice(bytes, 0, n);
      hide Begins, Unpack;
      assert bytes[0..n] == bytes[..n];
      var part := Unpack(bytes)[..8 * n];
      assert part + all[8 * n..] == all;
      BeginsMore(canonical, text, part, all[8 * n..]);
    }
  }

  /** BIT_STRING_encode_xer: whatever is flushed and when, the chunks put together are the text of
      exactly the declared bits; if the callback refuses a chunk, encoding fails, and what it has taken
      is a beginning of that text. */
  method EncodeXer(st: BitString, level: int, canonical: bool, cb: Sink) returns (encoded: bool)
    requires st.buf != null ==> st.Readable()
    requires st.bitsUnused >= 0
    requires cb.Valid() && cb.chunks == [] && !cb.failed
    modifies cb
    ensures cb.Valid()
    ensures encoded <==> st.buf != null && !cb.failed
    ensures encoded ==> Reads(canonical, cb.Text(), Shown(st.Contents(), st.bitsUnused))
    ensures st.buf != null ==> Begins(canonical, cb.Text(), Shown(st.Contents(), st.bitsUnused))
    ensures st.buf == null ==> cb.chunks == [] && !cb.failed
  {
    if st.buf == null {
      return false;
    }
    EncodeContents(st.Contents(), st.bitsUnused, level, canonical, cb);
    encoded := !cb.failed;
  }

  method EncodeContents(bytes: seq<bv8>, unused: int, level: int, canonical: bool, cb: Sink)
    requires unused >= 0 && cb.Valid() && cb.chunks == [] && !cb.failed
    modifies cb
    ensures cb.Valid() && Begins(canonical, cb.Text(), Shown(bytes, unused))
    ensures !cb.failed ==> Reads(canonical, cb.Text(), Shown(bytes, unused))
  {
    hide Unpack, Concat, Visible, BitText, Reads, Bit, Begins, Sink.Valid;
    var scratch := new char[128];
    var buf, end, p := EncodeButLast(bytes, level, canonical, cb, scratch);
    if cb.failed {
      BeginsShown(canonical, cb.Text(), bytes, buf, unused);
      return;
    }
    FlushScratch(bytes, buf, level, canonical, cb, scratch[..p]);
    BeginsShown(canonical, cb.Text(), bytes, buf, unused);
    if cb.failed {
      return;
    }
    if buf == end {
      var v := bytes[buf];
      p := PutLastOctet(scratch, v, unused);
      ReadsMore(canonical, cb.Text(), Unpack(bytes[..buf]), Unpack([v])[..p]);
      cb.Callback(scratch[..p]);
      if cb.failed {
        return;
      }
      LastOctet(bytes, unused);
    } else {
      NothingRead(canonical);
      assert bytes[..buf] == [];
    }
    assert cb.Text() + "" == cb.Text();
    if !canonical {
      Indent(level - 1, cb, "", Shown(bytes, unused));
      assert cb.Text() + "" == cb.Text();
    }
    ReadsBegins(canonical, cb.Text(), "", Shown(bytes, unused));
  }

  /** What the loop has left in the scratch buffer. */
  method FlushScratch(bytes: seq<bv8>, buf: nat, level: int, canonical: bool, cb: Sink, chunk: string)
    requires buf <= |bytes| && cb.Valid() && !cb.failed && Reads(canonical, cb.Text() + chunk, Unpack(bytes[..buf]))
    modifies cb
    ensures cb.Valid() && Begins(canonical, cb.Text(), Unpack(bytes[..buf]))
    ensures !cb.failed ==> Reads(canonical, cb.Text(), Unpack(bytes[..buf]))
  {
    hide Unpack, Concat, Visible, BitText, Reads, Bit, Begins, Sink.Valid;
    ghost var done := Unpack(bytes[..buf]);
    if !canonical && buf % 8 == 0 {
      Indent(level, cb, chunk, done);
    }
    ReadsBegins(canonical, cb.Text(), chunk, done);
    if !cb.failed {
      cb.Callback(chunk);
      if !cb.failed {
        assert cb.Text() + "" == cb.Text();
        ReadsBegins(canonical, cb.Text(), "", done);
      }
    }
  }

  method Indent(level: int, cb: Sink, ghost pending: string, ghost done: seq<bool>)
    requires cb.Valid() && !cb.failed && Reads(false, cb.Text() + pending, done)
    modifies cb
    ensures cb.Valid() && Reads(false, cb.Text() + pending, done)
  {
    VisibleConcat(cb.Text(), pending);
    cb.TextIndent(level);
    VisibleConcat(cb.Text(), pending);
  }

  lemma NothingRead(canonical: bool)
    ensures Reads(canonical, "" , []) && Unpack([]) == [] && Concat([]) == ""
  {
  }

  /** All octets but the last, through the scratch buffer, which never fills beyond 120 characters. */
  method EncodeButLast(bytes: seq<bv8>, level: int, canonical: bool, cb: Sink, scratch: array<char>)
    returns (buf: int, end: int, p: nat)
    requires cb.Valid() && cb.chunks == [] && !cb.failed && scratch.Length == 128
    modifies cb, scratch
    ensures cb.Valid()
    ensures end == |bytes| - 1 && 0 <= buf && (if bytes == [] then buf == 0 else buf <= end) && p <= 120
    ensures !cb.failed ==> buf >= end && Reads(canonical, cb.Text() + scratch[..p], Unpack(bytes[..buf]))
    ensures cb.failed ==> Begins(canonical, cb.Text(), Unpack(bytes[..buf]))
  {
    NothingRead(canonical);
    hide Unpack, Concat, Visible, BitText, Nibble, Reads, Begins;
    var scend := 128 - 10;
    p, buf, end := 0, 0, |bytes| - 1;
    assert bytes[..buf] == [] && cb.Text() + scratch[..p] == "";
    while buf < end
      invariant 0 <= buf && (bytes != [] ==> buf <= end) && (bytes == [] ==> buf == 0)
      invariant cb.Valid() && !cb.failed && p % 8 == 0 && p <= 120
      invariant Reads(canonical, cb.Text() + scratch[..p], Unpack(bytes[..buf]))
    {
      var v := bytes[buf];
      var nline := !canonical && buf % 8 == 0;
      if p >= scend || nline {
        Flush(canonical, level, nline, cb, scratch[..p], Unpack(bytes[..buf]));
        if cb.failed {
          return;
        }
        p := 0;
        assert cb.Text() + scratch[..0] == cb.Text();
      }
      ghost var before := scratch[..p];
      PutOctet(scratch, p, v);
      p := p + 8;
      assert cb.Text() + scratch[..p] == cb.Text() + before + BitText(Unpack([v]));
      ReadsMore(canonical, cb.Text() + before, Unpack(bytes[..buf]), Unpack([v]));
      UnpackConcat(bytes[..buf], [v]);
      assert bytes[..buf + 1] == bytes[..buf] + [v];
      buf := buf + 1;
    }
  }

  method Flush(canonical: bool, level: int, nline: bool, cb: Sink, chunk: string, ghost done: seq<bool>)
    requires cb.Valid() && !cb.failed && Reads(canonical, cb.Text() + chunk, done) && (nline ==> !canonical)
    modifies cb
    ensures cb.Valid() && Begins(canonical, cb.Text(), done)
    ensures !cb.failed ==> Reads(canonical, cb.Text(), done)
  {
    hide BitText, Visible, Concat;
    ReadsBegins(canonical, cb.Text(), chunk, done);
    cb.Callback(chunk);
    if nline && !cb.failed {
      cb.TextIndent(level);
    }
  }

  method PutOctet(scratch: array<char>, p: nat, v: bv8)
    requires p + 8 <= scratch.Length
    modifies scratch
    ensures scratch[..p + 8] == old(scratch[..p]) + BitText(Unpack([v]))
  {
    OctetText(v);
    hide Unpack, Nibble;
    PutPattern(scratch, p, BIT_PATTERN[Nibble(v >> 4)]);
    PutPattern(scratch, p + 4, BIT_PATTERN[Nibble(v)]);
  }

  method PutPattern(scratch: array<char>, p: nat, pattern: string)
    requires p + 4 <= scratch.Length && |pattern| == 4
    modifies scratch
    ensures scratch[..p + 4] == old(scratch[..p]) + pattern
  {
    scratch[p], scratch[p + 1], scratch[p + 2], scratch[p + 3] := pattern[0], pattern[1], pattern[2], pattern[3];
  }

  /** The last octet is written bit by bit, without its unused bits. */
  method PutLastOctet(scratch: array<char>, v: bv8, unused: int) returns (p: nat)
    requires scratch.Length == 128 && unused >= 0
    modifies scratch
    ensures p == ShownOfLast(unused) && scratch[..p] == BitText(Unpack([v])[..p])
  {
    hide Unpack, Bit;
    p := 0;
    var i := 7;
    while i >= unused
      invariant i <= 7 && p == 7 - i && (i == 7 || unused - 1 <= i)
      invariant forall k | 0 <= k < p :: scratch[k] == Digit(Unpack([v])[k])
    {
      SingleOctet(v, p);
      scratch[p] := Digit(Bit(v, 7 - i));
      p := p + 1;
      i := i - 1;
    }
  }

  lemma LastOctet(bytes: seq<bv8>, unused: int)
    requires bytes != [] && unused >= 0
    ensures Unpack(bytes[..|bytes| - 1]) + Unpack([bytes[|bytes| - 1]])[..ShownOfLast(unused)] == Shown(bytes, unused)
  {
    UnpackConcat(bytes[..|bytes| - 1], [bytes[|bytes| - 1]]);
    assert bytes == bytes[..|bytes| - 1] + [bytes[|bytes| - 1]];
  }
}
