# O-DSS: the E2AP string codecs and the radar control loop, modelled in Dafny

The repository connects a base station to a radar xApp. This project models four parts of it and
proves what they promise.

**BIT STRING** (`Bits`, `PerSupport`, `BitStrings`, `BitStringUper`, `NodeIds`, `RandomFill`, `Xer`).
Streams and values are sequences of bits; structures and buffers are objects with arrays, as in the C
code. The reference for everything is a bit string continued with 0 bits for ever. Against it are
proved: the removal of trailing 0 bits by mask arithmetic, the comparison (it is exactly that
lexicographic order), and the unaligned PER encoder and decoder for fixed, bounded, extensible and
unconstrained sizes with 16K fragments (section 16 and section 11.9 of ITU-T X.691). The main results
are the round trip for every constraint and suffix, and that encodings are canonical: equal exactly
when the comparison says so. Zero padding is not needed for either, because both look at octets; it is
needed, exactly, for the comparison to be the equality of declared bits that section 22.7 of ITU-T
X.680 asks for, and for the declared bits to come back.

**ANY** (`AnyType`). The same fragments over octets, and the append buffer with its amortised bound.
The aligned pair does not round-trip: `ANY_decode_aper` passes 0 effective bits to
`aper_get_length`, which reads nothing and returns length 0. The model keeps that and proves when the
pair works, which is for empty values only, and even these leave their length octet unread.

**Open types** (`Selector`). The table walk that maps a procedure code to a type.

**The control loop** (`Prb`, `XApp`, `KpmWindow`, `ControlLoop`). The xApp, a FIFO channel, IMI and
the shared store are one transition system with interleaved steps. Proved over every run: mode
agreement, the reason for being in I/Qs mode, what the base station is told, and what the store holds
whichever writes and flushes fail and whatever an earlier IMI left there. Where the code falls short of
an expectation, the exact condition and a run or an input are given. A message is lost to the base
station exactly when the next one is delivered before IMI takes a turn; a confirmed range can be lost
so. An unsafe range is sent exactly when one that failed its check is retained. The xApp reads only
current entries exactly when every entry left behind is written again or older than two that are. As
long as writes succeed, that is: when the latest flush succeeded, or, before the first counter reset,
when the counter has passed all that was in the namespace at the start. IMI counts from 0 at its start
but does not flush, so that even without failures entries of an earlier IMI can be read.

Two places where code and expectation differ and the model follows the code: the encoder's and the
checks' treatment of the unused bits (the generated checks mask the field with 7, the encoder refuses
values outside 0 to 7), and the reported consumption of the BIT STRING decoder, which is 0 unless the
size is fixed.

Non-deterministic inputs are the random numbers of the generator, the classifier, the image and its
detections, the outcome of sends and of store operations, and the interleaving. `hide` statements in
proofs only keep definitions out of the solver's way.

## Model

| member | source | states |
|---|---|---|
| `BitStrings.CheckConstraint` | srsRAN_senseoran/e2_bindings/E2AP-v01.00/BIT_STRING.c:67-88 | accepts a structure exactly when it has a buffer, 0 to 7 unused bits, and none if it is empty |
| `BitStrings.TrailingZerosAreTrailing` | srsRAN_senseoran/e2_bindings/E2AP-v01.00/BIT_STRING.c:236-241 | for every nonzero octet the masks 0x0F, 0x33, 0x55 on the lowest set bit give the number of its trailing 0 bits: that bit is 1 and all below it are 0 |
| `BitStrings.Compactify` | srsRAN_senseoran/e2_bindings/E2AP-v01.00/BIT_STRING.c:219-255 | the size and unused bits returned describe exactly the octets' bits without trailing 0 bits, for every readable structure |
| `BitStrings.CompactionIsIdempotent` | srsRAN_senseoran/e2_bindings/E2AP-v01.00/BIT_STRING.c:216-255 | the kept octets are a prefix, everything dropped is 0, and compacting again drops nothing |
| `BitStrings.MemCmp` | srsRAN_senseoran/e2_bindings/E2AP-v01.00/BIT_STRING.c:278 | the sign tells which side is smaller where the octets first differ; 0 means equal |
| `BitStrings.CompareCompact` | srsRAN_senseoran/e2_bindings/E2AP-v01.00/BIT_STRING.c:276-297 | the comparison of the two compacted strings decides the order of the bits continued with 0 bits for ever |
| `BitStrings.Compare` | srsRAN_senseoran/e2_bindings/E2AP-v01.00/BIT_STRING.c:261-305 | negative, zero and positive exactly when the first string is lexicographically less, equal, greater, both continued with 0 bits |
| `BitStrings.EqualPrefixes` | srsRAN_senseoran/e2_bindings/E2AP-v01.00/BIT_STRING.c:279-294 | after equal common octets the compact sizes alone decide, and equal sizes force equal unused bits, so that the last tie-break never decides |
| `Bits.OrderIsTotal` | srsRAN_senseoran/e2_bindings/E2AP-v01.00/BIT_STRING.c:257-260 | exactly one of less, equal and greater holds of any two bit strings |
| `Bits.OrderIsTransitive` | srsRAN_senseoran/e2_bindings/E2AP-v01.00/BIT_STRING.c:257-260 | the order is transitive |
| `Bits.OrderRespectsSame` | srsRAN_senseoran/e2_bindings/E2AP-v01.00/BIT_STRING.c:264-268 | strings that differ only in trailing 0 bits compare alike with every third string |
| `Bits.SameIffTrimEqual` | srsRAN_senseoran/e2_bindings/E2AP-v01.00/BIT_STRING.c:264-268 | equality under zero continuation is equality after trailing 0 bits are removed |
| `Bits.OrderIsNumeric` | srsRAN_senseoran/e2_bindings/E2AP-v01.00/BIT_STRING.c:261-305 | continued with 0 bits to a common length, strings are ordered, and equal, as the numbers they spell |
| `Bits.OctetValue` | srsRAN_senseoran/e2_bindings/E2AP-v01.00/asn_bit_data.c:63-142 | the eight bits of an octet, read from a stream, spell its number |
| `Bits.NatBitsAt` | srsRAN_senseoran/e2_bindings/E2AP-v01.00/asn_bit_data.c:191-259 | a number is written most significant bit first |
| `BitStrings.ComparisonIsAbstractEquality` | srsRAN_senseoran/e2_bindings/E2AP-v01.00/BIT_STRING.c:264-268 | for zero-padded values the comparison is equality of the declared bits up to trailing 0 bits, as section 22.7 of ITU-T X.680 asks |
| `BitStrings.ZeroPaddingIsNeeded` | srsRAN_senseoran/e2_bindings/E2AP-v01.00/BIT_STRING.c:261-305 | a value compares with every zero-padded value as section 22.7 of ITU-T X.680 asks exactly when it is zero-padded itself |
| `BitStrings.PaddingMatters` | srsRAN_senseoran/e2_bindings/E2AP-v01.00/BIT_STRING.c:231-242 | a pair of values with the same declared bits and different padding that compare as different: only octets are looked at |
| `PerSupport.BitWriter.PutLength` | srsRAN_senseoran/e2_bindings/E2AP-v01.00/per_support.c:167-192 | writes the determinant of section 11.9 of ITU-T X.691, announces what it can hold, and asks for an end of message exactly when the fragment finishes a nonzero multiple of 16K |
| `PerSupport.LengthBitsAreOctets` | srsRAN_senseoran/e2_bindings/E2AP-v01.00/per_support.c:172-192 | the determinants are the octet n up to 127, the two octets 0x8000 + n below 16384, and the octet 0xC0 plus at most 4 blocks from there on |
| `PerSupport.LengthBitsAreShortest` | srsRAN_senseoran/e2_bindings/E2AP-v01.00/per_support.c:167-192 | a determinant spells the count announced, no spelling of it is shorter, and it takes 16 bits from 128 to 16383 and 8 otherwise |
| `PerSupport.AnnouncedBlocks` | srsRAN_senseoran/e2_bindings/E2AP-v01.00/per_support.c:182-190 | the blocks announced are the length divided by 16384, at most 4; all is announced exactly for whole multiples up to 64K |
| `PerSupport.BitReader.GetLength` | srsRAN_senseoran/e2_bindings/E2AP-v01.00/per_support.c:13-44 | reads a length as the determinant's bit fields define it, and fails at the end of the stream and for block counts outside 1..4 |
| `PerSupport.ReadLengthOfLengthBits` | srsRAN_senseoran/e2_bindings/E2AP-v01.00/per_support.c:163-192 | a determinant reads back as the count it announced, whether more follows, and the rest of the stream |
| `PerSupport.ReadLengthAcceptsSpellings` | srsRAN_senseoran/e2_bindings/E2AP-v01.00/per_support.c:22-43 | a reader takes a stream for a count, a continuation and a rest exactly when it is a spelling of these, minimal or not, followed by the rest |
| `PerSupport.ReassembleAcceptsFragmentations` | srsRAN_senseoran/e2_bindings/E2AP-v01.00/BIT_STRING.c:391-420 | the decoder loops accept exactly the sequences of pieces whose determinants spell the units behind them, and give what these carry |
| `PerSupport.BitWriter.PutFragment` | srsRAN_senseoran/e2_bindings/E2AP-v01.00/BIT_STRING.c:527-540 | one turn of the loop writes one fragment, and what is left to write is the encoding of what is left of the string |
| `PerSupport.CountsCoverTheString` | srsRAN_senseoran/e2_bindings/E2AP-v01.00/BIT_STRING.c:526-541 | the announced counts add up to the length, every count but the last is 1 to 4 whole 16K blocks, every one but the last two is 64K, the last is the length modulo 16K |
| `PerSupport.FragmentsFollowCounts` | srsRAN_senseoran/e2_bindings/E2AP-v01.00/ANY.c:341-354 | the encoding is the string cut along these counts, each piece behind its own determinant |
| `PerSupport.FragmentsRoundTrip` | srsRAN_senseoran/e2_bindings/E2AP-v01.00/per_support.c:13-44 | reassembling the fragments of a string of bits or octets gives the string and leaves the suffix, for every length and suffix |
| `PerSupport.ReassembleStep` | srsRAN_senseoran/e2_bindings/E2AP-v01.00/BIT_STRING.c:392-419 | one turn of a decoder loop: what was read before, this fragment, and the meaning of the rest make up the meaning of the stream |
| `BitStringUper.EncodeUper` | srsRAN_senseoran/e2_bindings/E2AP-v01.00/BIT_STRING.c:425-544 | succeeds exactly for well-formed values that fit the constraint, and then appends the encoding of the significant bits; otherwise writes nothing |
| `BitStringUper.EncodeCompact` | srsRAN_senseoran/e2_bindings/E2AP-v01.00/BIT_STRING.c:471-543 | chooses between root form, extension and no constraint, with the extension bit in front |
| `BitStringUper.EncodingForm` | srsRAN_senseoran/e2_bindings/E2AP-v01.00/BIT_STRING.c:471-543 | the extension bit is there exactly for an extensible constraint and 1 exactly above its root; a length in the root is sent as offset in the effective bits, then the bits and 0 bits up to the lower bound; every other length in fragments |
| `BitStringUper.PutRoot` | srsRAN_senseoran/e2_bindings/E2AP-v01.00/BIT_STRING.c:492-521 | writes the length offset, the bits, and in chunks of 128 exactly the 0 bits missing to the lower bound |
| `BitStringUper.PutFragments` | srsRAN_senseoran/e2_bindings/E2AP-v01.00/BIT_STRING.c:525-541 | the loop writes the fragments of the string; its asserts hold and the pointer skips and repeats nothing |
| `BitStringUper.DecodeUper` | srsRAN_senseoran/e2_bindings/E2AP-v01.00/BIT_STRING.c:321-423 | succeeds exactly when the stream holds a value; then the octets, unused bits, terminator, stream position and reported consumption are these |
| `BitStringUper.DecodingAccepts` | srsRAN_senseoran/e2_bindings/E2AP-v01.00/BIT_STRING.c:355-420 | a stream is decoded to these bits and this rest exactly when, behind the extension bit, it is an offset with as many bits as that says, whatever the upper bound, or any fragmentation |
| `BitStringUper.DecodeFixed` | srsRAN_senseoran/e2_bindings/E2AP-v01.00/BIT_STRING.c:380-389 | reads a fixed number of bits without a length |
| `BitStringUper.DecodeFragments` | srsRAN_senseoran/e2_bindings/E2AP-v01.00/BIT_STRING.c:391-420 | the loop reads what the stream of fragments means, octet-aligned behind each other |
| `BitStringUper.AppendFragment` | srsRAN_senseoran/e2_bindings/E2AP-v01.00/BIT_STRING.c:408-418 | one fragment extends the bits held, inside a buffer with room for one more octet |
| `BitStringUper.RoundTrip` | srsRAN_senseoran/e2_bindings/E2AP-v01.00/BIT_STRING.c:321-544 | under every constraint a string fits and before every suffix, decoding its encoding gives the bits transmitted and leaves the suffix |
| `BitStringUper.RoundTripIsEqual` | srsRAN_senseoran/e2_bindings/E2AP-v01.00/BIT_STRING.c:321-544 | the value read back compares as equal to the value written, fragments of 16K included |
| `BitStringUper.SendAndReceive` | srsRAN_senseoran/e2_bindings/E2AP-v01.00/BIT_STRING.c:321-544 | the encoder, the decoder into a fresh structure and the comparison run one after the other give 0 and leave the suffix |
| `BitStringUper.EncodingIsCanonical` | srsRAN_senseoran/e2_bindings/E2AP-v01.00/BIT_STRING.c:461-521 | two values that fit a constraint have the same encoding exactly when they compare as equal |
| `BitStringUper.EncodingIsPrefixFree` | srsRAN_senseoran/e2_bindings/E2AP-v01.00/BIT_STRING.c:425-544 | two streams are equal exactly when they begin with encodings of equal values and go on equally |
| `BitStringUper.TransmittedSize` | srsRAN_senseoran/e2_bindings/E2AP-v01.00/BIT_STRING.c:471-521 | with n the position of the last 1 bit + 1, a root encoding sends max(lower bound, n) bits and never more than the upper bound; a value is refused exactly when it has a 1 bit beyond the upper bound and there is no extension |
| `BitStringUper.DeclaredBitsComeBack` | srsRAN_senseoran/e2_bindings/E2AP-v01.00/BIT_STRING.c:461-521 | the structure read back declares the bits the original declares, up to trailing 0 bits, exactly when the original is zero-padded: padding bits that are 1 are sent as data |
| `BitStringUper.ReusedStructure` | srsRAN_senseoran/e2_bindings/E2AP-v01.00/BIT_STRING.c:387-410 | the structure filled in declares the decoded bits exactly when the size is fixed, or the length is not a whole number of octets, or the structure had no unused bits before |
| `BitStringUper.ReusedStructureAfterEncoding` | srsRAN_senseoran/e2_bindings/E2AP-v01.00/BIT_STRING.c:387-410 | the same as the sender can foresee it, from the constraint and the number of bits transmitted, before every suffix |
| `BitStringUper.ReusedStructureFails` | srsRAN_senseoran/e2_bindings/E2AP-v01.00/BIT_STRING.c:399-410 | one octet of 1 bits decoded into a structure with 3 unused bits left from before declares 5 bits |
| `NodeIds.GnbIdClosure` | srsRAN_senseoran/e2_bindings/E2AP-v01.00/E2AP_GNB-ID-Choice.c:23-45 | of the accepted gNB identifiers exactly those with 0 to 7 unused bits encode; what is read back is accepted and compares as equal |
| `NodeIds.AcceptedButNotEncodable` | srsRAN_senseoran/e2_bindings/E2AP-v01.00/E2AP_GNB-ID-Choice.c:23-32 | an identifier that the check accepts and the encoder refuses, because the check masks the unused bits |
| `NodeIds.DecodedGnbIdNeedsCheck` | srsRAN_senseoran/e2_bindings/E2AP-v01.00/BIT_STRING.c:399-416 | a gNB identifier read from a stream passes the check exactly when its 4-bit length field holds at most 10 |
| `NodeIds.DecodedGnbIdTooLong` | srsRAN_senseoran/e2_bindings/E2AP-v01.00/E2AP_GNB-ID-Choice.c:23-45 | a length field of 11 to 15 with the bits it announces is decoded, and the check rejects the result |
| `NodeIds.FixedSizeClosure` | srsRAN_senseoran/e2_bindings/E2AP-v01.00/E2AP_ENB-ID-Choice.c:23-117 | of the accepted identifiers of a fixed size exactly the zero-padded ones with 0 to 7 unused bits encode, and they come back identical |
| `NodeIds.EnbIdClosure` | srsRAN_senseoran/e2_bindings/E2AP-v01.00/E2AP_ENB-ID-Choice.c:103-117 | the same for the sizes 20, 18 and 21, for every accepted identifier and every suffix |
| `NodeIds.ConstraintsAreWellFormed` | srsRAN_senseoran/e2_bindings/E2AP-v01.00/E2AP_GNB-ID-Choice.c:41-45 | the constraint tables span their ranges |
| `NodeIds.AcceptedSizes` | srsRAN_senseoran/e2_bindings/E2AP-v01.00/E2AP_ENB-ID-Choice.c:11-101 | the checks accept exactly 22 to 32 bits, and 20, 18 and 21 bits, where only the low three bits of the field count as unused |
| `NodeIds.IdentifiersOnWire` | srsRAN_senseoran/e2_bindings/E2AP-v01.00/E2AP_GNB-ID-Choice.c:41-45 | a gNB identifier is its number of bits less 22 in 4 bits and the bits; an eNB identifier is 20, 18 or 21 bits |
| `RandomFill.ChooseBits` | srsRAN_senseoran/e2_bindings/E2AP-v01.00/BIT_STRING.c:567-622 | skips exactly when the length asked for is 0 or below the lower bound, and otherwise chooses the bit count that the random numbers lead to |
| `RandomFill.ChoicesAreExactly` | srsRAN_senseoran/e2_bindings/E2AP-v01.00/BIT_STRING.c:578-622 | a bit count can be chosen exactly when it lies in the range, or for an extensible constraint next to it or in the table; without a constraint, when it is in the table or some table entry is not below the maximum length |
| `RandomFill.Generate` | srsRAN_senseoran/e2_bindings/E2AP-v01.00/BIT_STRING.c:548-656 | a filled value has exactly the chosen number of bits and zero padding, passes the generic check, and its buffer is terminated |
| `RandomFill.GeneratedValuesRoundTrip` | srsRAN_senseoran/e2_bindings/E2AP-v01.00/BIT_STRING.c:583-652 | a generated value lies in the range of a constraint without extension, encodes, and reads back as equal |
| `Xer.OctetText` | srsRAN_senseoran/e2_bindings/E2AP-v01.00/BIT_STRING.c:127-128 | the two table entries of an octet are its eight bits as text |
| `Xer.BitTextIs` | srsRAN_senseoran/e2_bindings/E2AP-v01.00/BIT_STRING.c:142 | a 1 bit is shown as the character 1, a 0 bit as 0 |
| `Xer.ShownIs` | srsRAN_senseoran/e2_bindings/E2AP-v01.00/BIT_STRING.c:113-143 | of a well-formed value exactly the declared bits are shown |
| `Xer.EncodeXer` | srsRAN_senseoran/e2_bindings/E2AP-v01.00/BIT_STRING.c:95-151 | succeeds exactly with a buffer and a callback that refuses no chunk; then the chunks together are the declared bits as text (no bit of the last octet when 8 or more are unused), in canonical form nothing else, otherwise only white space besides, and the count reported is their length; after a refusal the chunks taken are a beginning of that text |
| `Xer.EncodeButLast` | srsRAN_senseoran/e2_bindings/E2AP-v01.00/BIT_STRING.c:104-130 | whatever is flushed when, the text handed out and the scratch buffer together read as the octets so far; the buffer holds at most 120 characters; it stops early only when a chunk is refused |
| `Xer.PutLastOctet` | srsRAN_senseoran/e2_bindings/E2AP-v01.00/BIT_STRING.c:137-143 | the last octet is written without its unused bits, and not at all when 8 or more are unused |
| `AnyType.EncodeUper` | srsRAN_senseoran/e2_bindings/E2AP-v01.00/ANY.c:325-357 | appends the fragments of the octets; fails exactly for a missing buffer with a size |
| `AnyType.EncodeAper` | srsRAN_senseoran/e2_bindings/E2AP-v01.00/ANY.c:416-448 | the same, without alignment |
| `AnyType.DecodeUper` | srsRAN_senseoran/e2_bindings/E2AP-v01.00/ANY.c:268-323 | succeeds exactly when the stream holds a value; octets, terminator, position and a consumption of 8 times the size, also into a used structure |
| `AnyType.EncodingForm` | srsRAN_senseoran/e2_bindings/E2AP-v01.00/ANY.c:325-357 | up to 127 octets stand behind one octet with their number, up to 16383 behind two, and longer ones in fragments that count octets |
| `AnyType.DecodingAccepts` | srsRAN_senseoran/e2_bindings/E2AP-v01.00/ANY.c:268-323 | the decoder accepts exactly the fragmentations that count octets |
| `AnyType.RoundTrip` | srsRAN_senseoran/e2_bindings/E2AP-v01.00/ANY.c:268-357 | octet strings of every length come back whole and leave the suffix |
| `AnyType.EncodingIsPrefixFree` | srsRAN_senseoran/e2_bindings/E2AP-v01.00/ANY.c:325-357 | two streams are equal exactly when they begin with the same octet string and go on equally |
| `AnyType.AperGetNsnnwn` | srsRAN_senseoran/e2_bindings/E2AP-v01.00/per_support.c:356-388 | a range up to 255 reads the least number of bits that can tell its values apart, unaligned; 256 reads one aligned octet, a larger range two; a negative range and one above 65536 fail |
| `AnyType.AperGetLength` | srsRAN_senseoran/e2_bindings/E2AP-v01.00/per_support.c:307-335 | a constrained range reads that form; otherwise, after alignment, effective bits are read as they stand, so zero bits give the length 0, and a negative number of them means a length determinant |
| `AnyType.DecodeAper` | srsRAN_senseoran/e2_bindings/E2AP-v01.00/ANY.c:359-414 | always reads an empty value and consumes alignment only, because it asks for a length of zero effective bits |
| `AnyType.AperRoundTripOnlyWhenEmpty` | srsRAN_senseoran/e2_bindings/E2AP-v01.00/ANY.c:359-448 | wherever it stands in a stream, an aligned encoding comes back exactly when it is empty, and never leaves the stream at the suffix |
| `AnyType.CallbackArg.ConsumeBytes` | srsRAN_senseoran/e2_bindings/E2AP-v01.00/ANY.c:248-264 | appends the chunk, keeps a spare octet, and grows by exactly this rule |
| `AnyType.CallbackArg.Reserve` | srsRAN_senseoran/e2_bindings/E2AP-v01.00/ANY.c:251-257 | after it there is room for the chunk and one octet more, and the octets already there are kept; the buffer is replaced exactly if there was no such room, by one of 4 times the size (16 at first) and the chunk |
| `AnyType.AppendingIsAmortised` | srsRAN_senseoran/e2_bindings/E2AP-v01.00/ANY.c:248-264 | over any chunks: offset below capacity, capacity at most 5 times the data plus 16, octets moved at most a third of it, growth logarithmically often |
| `AnyType.FromType` | srsRAN_senseoran/e2_bindings/E2AP-v01.00/ANY.c:82-113 | a missing structure gives the empty value; a failing encoder leaves the value as it was; otherwise the value takes over a buffer that holds the concatenation of all chunks |
| `Selector.Select` | srsRAN_senseoran/e2_bindings/E2AP-v01.00/E2AP_InitiatingMessage.c:149-174 | selects the first row with the key that defines the column, with 1 plus the number of defined rows before it; nothing exactly when there is no such row |
| `Selector.PresenceIsOneToOne` | srsRAN_senseoran/e2_bindings/E2AP-v01.00/E2AP_InitiatingMessage.c:158-171 | presence indices of defined rows are distinct and increase with the row up to their number |
| `Selector.PresenceIsOnto` | srsRAN_senseoran/e2_bindings/E2AP-v01.00/E2AP_InitiatingMessage.c:158-171 | every index from 1 to the number of defined rows belongs to a row |
| `Selector.KeySelectsItsRow` | srsRAN_senseoran/e2_bindings/E2AP-v01.00/E2AP_InitiatingMessage.c:103-128 | with distinct keys only its own row answers a key, and the presence index tells the row |
| `Selector.InitiatingMessageIsTotal` | srsRAN_senseoran/e2_bindings/E2AP-v01.00/E2AP_InitiatingMessage.c:10-77 | in the table of elementary procedures exactly the codes 1 to 9 select a type and a criticality, and the two agree on the index |
| `Selector.ProcedureOfCode` | srsRAN_senseoran/e2_bindings/E2AP-v01.00/E2AP_ProcedureCode.h:38-46 | which initiating message, criticality and position each procedure code selects |
| `Selector.OutcomesSelected` | srsRAN_senseoran/e2_bindings/E2AP-v01.00/E2AP_InitiatingMessage.c:28-74 | exactly the codes 1, 3, 4, 7, 8, 9 select a successful outcome, and 1, 4, 7, 8, 9 an unsuccessful one |
| `Selector.OutcomeOfCode` | srsRAN_senseoran/e2_bindings/E2AP-v01.00/E2AP_InitiatingMessage.c:28-74 | and which |
| `Prb.ChannelGeometry` | radarxApp/radar.py:376-389 | the 50 blocks fill the middle 90 percent of the signal |
| `Prb.OffsetIs` | radarxApp/radar.py:376-394 | the offset of a row in terms of the fixed extent alone |
| `Prb.DetectionIs` | radarxApp/radar.py:371-404 | for every box the pair is the block boundaries next to its edges, moved by 1 and 2 exactly if one of them is negative; without a box one of the two texts |
| `Prb.AdjustedDetection` | radarxApp/radar.py:393-397 | rows 500 to 540 give the pair -1, 6 |
| `Prb.RangeCoversBox` | radarxApp/radar.py:393-404 | the pair is ordered and covers every in-channel row of the box, adjusted or not; unadjusted it is less than two blocks wider than the box |
| `Prb.ConfirmedRangeIsTight` | radarxApp/radar.py:393-404 | the range passes the check before sending exactly when the box lies between the first and last block boundary and is not one row on a boundary, and then covers all of it |
| `XApp.ExtractMetrics` | radarxApp/radar.py:85-95 | the metrics are those of all UEs with traffic, in order |
| `XApp.ActiveIs` | radarxApp/radar.py:90-95 | the UEs kept are, in order and once each, exactly those of which not all of bitrate, block error rate and buffer are 0 |
| `XApp.RowsAt` | radarxApp/radar.py:82-95 | each UE contributes SINR, bitrate, block error rate, MCS and buffer, in this order |
| `XApp.CompleteMetrics` | radarxApp/radar.py:82-111 | ten metrics mean exactly two UEs with traffic, and indices 2 and 7 are their block error rates |
| `XApp.Process.RunKpms` | radarxApp/radar.py:72-163 | the KPM branch does what the turn function says, failures included |
| `XApp.KpmTurnIs` | radarxApp/radar.py:97-157 | for every state and input: without ten new metrics nothing; a rate of at least 5 raises the alarm, both below 5 unblank; a missing rate looked at, a missing prediction or a failing send lets nothing out and keeps the mode |
| `XApp.Process.RunIqs` | radarxApp/radar.py:167-236 | the I/Q branch does what the turn function says, failures included |
| `XApp.IqTurnWithBox` | radarxApp/radar.py:194-206 | a new image with a box stores its blocks, and sends them and returns to KPMs mode exactly when the box lies between the first and last block boundary and is not one row on a boundary, and the send works |
| `XApp.IqTurnWithAnyBox` | radarxApp/radar.py:194-206 | also for a box upside down: the pair is put in order and stored, and sent exactly when 0 < lo < hi < 50 |
| `XApp.IqTurnWithoutBox` | radarxApp/radar.py:171-236 | an old image changes nothing, a failing prediction ends the process, and an image without a box sends the held range and then the KPM command, as far as sends work |
| `XApp.KpmTurnKeepsInv` | radarxApp/radar.py:97-157 | a KPM turn enters I/Qs mode only with metrics bound and a rate of at least 5 |
| `XApp.IqTurnKeepsInv` | radarxApp/radar.py:176-236 | an I/Q turn keeps that, and the held range ordered |
| `XApp.DeadBranches` | radarxApp/radar.py:123-142 | retaining in KPMs mode and unblanking in I/Qs mode never happen; the unblanking message of KPMs mode means both rates are below 5 |
| `XApp.PredictionIsIrrelevant` | radarxApp/radar.py:110-114 | the classifier's answer does not influence the turn |
| `XApp.KpmTurnAnnouncesMode` | radarxApp/radar.py:123-157 | the last message of a KPM turn asks for what the new mode needs |
| `XApp.IqTurnAnnouncesMode` | radarxApp/radar.py:194-236 | so does that of an I/Q turn that goes on |
| `XApp.WireIsOneToOne` | radarxApp/radar.py:200-201 | messages whose numbers fit 32 bits are the same exactly when their bytes on the wire are |
| `XApp.WireBytes` | radarxApp/radar.py:127-154 | the commands are the letters k and i; a range is 8 bytes, the lower block first, both little-endian in two's complement |
| `XApp.DispatchFollowsMessage` | imi/imi.py:95 | IMI's test of the bytes tells KPM commands and ranges from the I/Q command |
| `XApp.SafeUnlessRetained` | radarxApp/radar.py:194-217 | every range sent in a turn lies in the channel or unblanks, except exactly when a range is retained that failed its check |
| `XApp.ConfirmedRangeCoversBox` | radarxApp/radar.py:196-206 | a confirmed range covers the detected box and is less than two blocks wider |
| `ControlLoop.Imi.Serve` | imi/imi.py:90-141 | a turn forwards the command, and collects KPMs exactly for a KPM command or a range |
| `ControlLoop.NobodyWaits` | radarxApp/radar.py:70-72 | the xApp takes its turn whenever its messages are out, whatever IMI and the channel do; IMI always turns |
| `ControlLoop.StepEffects` | imi/imi.py:90-141 | what each step does, and that it touches nothing else; IMI collects a report exactly unless its command asks for I/Q data |
| `ControlLoop.NextKeepsInv` | radarxApp/radar.py:62-236 | every step of the xApp, the channel and IMI keeps the invariant |
| `ControlLoop.ModesAgree` | imi/imi.py:92-141 | in every state of every run the newest message under way asks for what the xApp's mode needs, messages are neither lost nor reordered, and both sides agree when all are delivered |
| `ControlLoop.Drains` | imi/imi.py:220-224 | from every state of every run all messages under way can be delivered, and then IMI collects what the mode needs |
| `ControlLoop.WindowIsLog` | imi/imi.py:133-139 | in every run, from any start, the store holds what the log and the entries left behind make of it, whatever the xApp does; from an empty namespace and if flushes succeed, the log of the entries since the last flush |
| `ControlLoop.ReadsNewestReports` | radarxApp/radar.py:76-87 | in every run, from any start and whatever fails, a turn that reads the store in one piece reads only entries logged since the counter was last 0, exactly when all that was left behind is covered, and then the two newest written; from an empty namespace with flushes that succeed always |
| `ControlLoop.AlarmNeedsBadRate` | radarxApp/radar.py:82-112 | an alarm means that exactly two UEs of the entries read have traffic, one of them with a block error rate of at least 5 |
| `ControlLoop.SentIsSafe` | radarxApp/radar.py:194-217 | in every run all ranges ever sent lie in the channel or unblank, exactly when no I/Q turn has retained a range that failed its check |
| `ControlLoop.ForwardedIsHeard` | imi/imi.py:88-94 | in every run the base station is told exactly the messages IMI held at its turns, in the order of sending and with those repetitions |
| `ControlLoop.HeardAt` | imi/imi.py:220-224 | in every run a message is among them exactly when IMI took a turn while it was the last one delivered |
| `ControlLoop.LostForGood` | imi/imi.py:220-224 | in every run a message can no longer reach the base station, however the run goes on, exactly when the next one has been delivered and no turn of IMI came in between |
| `ControlLoop.RangeCanBeLost` | radarxApp/radar.py:196-206 | a run in which the confirmed range 5 to 10 is lost for good: the second alarm is delivered right behind it |
| `ControlLoop.RetainedRangeCanBeUnsafe` | radarxApp/radar.py:196-217 | a run in which a range that failed its check is sent |
| `KpmWindow.DecimalRoundTrip` | imi/imi.py:390 | int() undoes decimal printing |
| `KpmWindow.KeyRoundTrip` | radarxApp/radar.py:78 | the reader's split and int give back the writer's index, so keys are distinct, and every key matches the reader's pattern |
| `KpmWindow.KeyText` | imi/imi.py:390 | keys are kpm_ and the decimal number |
| `KpmWindow.Collector.Collect` | imi/imi.py:108-139 | writes, counts, and flushes at 100 |
| `KpmWindow.LogIsSuffix` | imi/imi.py:135-139 | the counter is the number of entries ever reported modulo 100, and the log is that many of the newest ones |
| `KpmWindow.StoreHoldsLastWrite` | imi/imi.py:132-139 | told from the reports alone: under a key is the entry last written there that no successful flush of a 100th report has followed, or else what was there before |
| `KpmWindow.TurnRefinesHistory` | imi/imi.py:108-139 | a turn keeps the store equal to the entries since the counter was last 0 and those left behind from before, whether its write and flush succeed or not |
| `KpmWindow.StoreRefinesHistory` | imi/imi.py:88-139 | so it is at every loop head, from any start, over all reports and all failures |
| `KpmWindow.RestartKeepsHistory` | imi/imi.py:88-89 | an IMI that starts over the namespace of an earlier one, with its counter at 0, is such a start, with everything in the store left behind; so is an empty namespace |
| `KpmWindow.StoreRefinesLog` | imi/imi.py:88-139 | from an empty namespace, with flushes that succeed, the store is the log of entries since the last flush at every loop head, and the counter its length below 100 |
| `KpmWindow.ReaderSeesNewest` | radarxApp/radar.py:76-81 | in whatever order keys are listed, the two read are those of the newest successful writes |
| `KpmWindow.NewestWithoutFailures` | radarxApp/radar.py:78-80 | without failed writes these are the newest min(2, k) entries: numbers k-2 and k-1 if there are two |
| `KpmWindow.ViewIsCurrent` | radarxApp/radar.py:76-81 | the reader reads entries since the counter was last 0 only, exactly when each position left behind has been written again or is older than two that have; and then it reads the two newest |
| `KpmWindow.CurrentIffCovered` | radarxApp/radar.py:76-81 | the same over every sequence of reports, from any start and whatever writes and flushes fail |
| `KpmWindow.CurrentIffLatestFlush` | imi/imi.py:88-139 | over all runs whose writes succeed, from any start, the reader reads current entries only, and none beyond the counter, exactly when the flush at the latest counter reset succeeded, or, before the first reset, the counter has passed all that was there at the start |
| `KpmWindow.ViewIsFresh` | radarxApp/radar.py:76-81 | the reader's keys lie below the counter exactly when all positions left behind do |
| `KpmWindow.OldEntryIsNewest` | radarxApp/radar.py:76-81 | an entry 99 in the store when the counter is 0 is the newest one for the reader during the next 99 reports, in whatever order keys are listed |
| `KpmWindow.FailedFlushLeavesStaleView` | imi/imi.py:403-410 | so it is after a failed flush, with the entry written just before |
| `KpmWindow.RestartLeavesStaleView` | imi/imi.py:88-89 | and after a restart: with an old entry 99 in the store, the reader still reads it after a report that was written, although nothing failed |

## Left out

- The rest of the asn1c runtime (BER, DER and OER coding, open types). The functions of asn_bit_data.c that move bits in and out of octet buffers are specified as reading and appending bits, not modelled.
- Where a stream stands after a failed read, and what a structure holds after a failed decoding, are not stated.
- BitStringUper.SizeConstraint.WellFormed: constraints with more than 16 effective bits are excluded, because the table compiler gives none for ranges of 64K and more.
- Memory allocation failure, NULL descriptors, freeing and machine-width overflow.
- Xer.EncodeXer: negative unused-bit counts, for which the source shifts by a negative amount, and the exact layout of the non-canonical form; white space is shown to be the only addition.
- ANY_fromType_aper, ANY_to_type and the printing functions: they call other codecs or print.
- AnyType.FromType: freeing; the source leaves a dangling buffer pointer behind when the structure is missing.
- The copies of the selector in other generated files, which repeat the same loop.
- SCTP sockets, reconnects, partial receives, sleeps and logging; one IMI turn reads the command once, although the source reads the shared variable several times.
- More than one base station: ENB_COUNT is 1, and several collecting threads would share the keys.
- An xApp or IMI that restarts while the other goes on; a restart of both over the same store is a start like any other.
- KpmWindow.RepresentsHistory: keys in the namespace that no IMI has written.
- A receive that finds the connection closed, and exceptions that end IMI's threads.
- Model inference, spectrogram generation, JSON text, and the order in which the store returns values.
- Prb.GetAffectedPrbs: exact reals instead of floating point.
- XApp.KpmTurn: the metrics read are an arbitrary input; only ControlLoop.ReadsNewestReports relates them to the store, for turns in which IMI does not write between the look-up of the keys and that of the values.
