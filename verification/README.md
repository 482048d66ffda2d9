# Verified models of the ASN.1 codec and its neighbours

Dafny models of five parts of the repository, with proofs of what they are for. `dafny verify dfyconfig.toml`
checks everything.

| part | files |
|---|---|
| Bit cursors of the PER codec over a bounded octet buffer | `BitSeq`, `BitRef`, `CBitRef`, `CursorRun` |
| PER encodings (ITU-T X.691): lengths, numbers, enumerations, INTEGER, octet, bit and character strings | `Wire`, `PerFormat`, `PerWire`, `PerCodec`, `PerStrings`, `PerStringWire`, `PerStringCodec` |
| Nested open type fields and extension groups, with the guards that write and skip them | `OpenFields`, `OpenFieldGuards`, `ExtGroups`, `ExtGroupGuards`, `CodecRun` |
| The stateful JSON writer | `JsonWriter` |
| The packetiser thread, its one-packet slot and the resource-block mask of the test transmitter | `Packetiser`, `SlotHandoff`, `RbgBitmask` |
| Bearer maps, the decoder's linked message queue, the simple bit packer | `BearerManager`, `MsgQueue`, `Liblte` |

How the codec is put together. `BitRef` and `CBitRef` are objects over `array<byte>`, each tied to a ghost sequence
of bits: everything written so far, or everything that can be read. A format is a function from values to bits
(`Enc`) with a decoder over a bit stream (`Dec`), and its round trip is a lemma about any stream that holds those bits
at any place. Each procedure of the source is a method with the same branches and loops, proved to emit exactly its
format's bits, or to answer exactly as its stream decoder does, refusals included. `PerWire` and `PerStringWire` say
of every format what those bits are, and of every decoder what it makes of any stream, without the format functions.
`CodecRun` joins the two ends through one real buffer. Bits are unbounded naturals with shifts, masks and truncating
casts written out; the eight integer types of the codec are `IntType` values whose wrap-around is explicit.

Concurrency is a state machine over atomic steps (`SlotHandoff`), or an arbitrary order of whole locked operations
(`MsgQueue`). What C hands in from outside - datagrams, allocation failures, packet sizes, the moment the log is
closed - is a parameter, and every theorem holds for all its values.

Where the code and its own texts part, the model follows the code:

- `bit_ref::pack` says it packs up to 64 bits and takes at most 63 (`asn1_utils.cc:149-152`); the length-prefixed
  constrained form therefore ends below 2^56.
- `bit_ref::pack_bytes` refuses a copy that would exactly fill the buffer (`asn1_utils.cc:317`).
- The unaligned constrained encoder drops a return code, so it reports success on a full buffer (`asn1_utils.cc:472`).
- Aligned lengths of 16384 and more are written in a form the decoder refuses (`asn1_utils.cc:753`, `:800`).
- The aligned constrained decoder has no range test, so it leaves the range unless the range fills its field.
- Bounded bit-string prefixes are written in `ceil(log2(ub - lb))` bits and read as a constrained number. Below 64K,
  the widths of the two bit fields differ exactly when `ub - lb` is a power of two; in the aligned variant ranges of
  256 lengths or more are besides read in whole octets from a boundary, and agree only if they were written so. From
  64K on a length determinant is read, and the two never agree. An unbounded aligned prefix is read correctly exactly
  at octet boundaries.
- The bit-string encoder has no size limit, and the decoder refuses more than 65536 bits.
- The closing guard of a field, and the skipping of an extension group, read the rest into 32 bits and so stay put
  when more is left.
- Decoders do not look at the return code of the extension header. A count of groups cut short by the end of the
  buffer stays in the guard, and its destructor then looks up flags beyond those it has; being at the end, it skips
  nothing, whatever it finds there.
- Strings are encoded with whatever characters they hold, each cut to its field.
- The bearer manager's header lets one logical channel exist on two access technologies; the reverse index knows
  channels only, so removing one of two bearers on a channel hides the other from lookups by channel.
- The transmitter overwrites the packet in its slot with a test pattern before encoding it.

## Model

| member | source | states |
|---|---|---|
| BitSeq.FromToBits | lib/src/asn1/asn1_utils.cc:147-176 | Reading n bits as a number gives the low n bits of the number they were expanded from. |
| BitSeq.ToFromBits | lib/src/asn1/asn1_utils.cc:179-207 | Expanding the number a bit sequence denotes gives the sequence back, so numbers and bit sequences of one width correspond. |
| BitSeq.AndRangeMask | lib/src/asn1/asn1_utils.cc:179-207 | Masking with a run of ones from bit i up to bit j keeps exactly those bits, for every number: the fact each mask of the two cursors rests on. |
| BitRefs.PackOctet | lib/src/asn1/asn1_utils.cc:147-176 | The octet stored by one turn of the packing loop holds the bits already open, then the field, then zeros. |
| BitRefs.ClearTail | lib/src/asn1/asn1_utils.cc:333-347 | Clearing the unwritten bits of an octet whose tail is clean changes nothing, which is why both ways to align agree. |
| BitRefs.BitRef.Pack | lib/src/asn1/asn1_utils.cc:147-176 | Appends exactly the n bits of v, most significant first, as far as they fit; no earlier bit and no octet past the cursor changes; succeeds exactly when n < 64 and n bits remain. |
| BitRefs.BitRef.PackChunk | lib/src/asn1/asn1_utils.cc:153-174 | One turn of the loop: what is written followed by what is left to write stays the same bit sequence, and less is left. |
| BitRefs.BitRef.AlignBytes | lib/src/asn1/asn1_utils.cc:271-282 | Moves to the octet boundary, which appends zero bits although it writes none; cannot fail. |
| BitRefs.BitRef.AlignBytesZero | lib/src/asn1/asn1_utils.cc:333-347 | As AlignBytes, with the clearing write; the octets past the cursor are untouched. |
| BitRefs.BitRef.PackBytes | lib/src/asn1/asn1_utils.cc:312-330 | Appends the bits of n octets at any offset; refuses, writing nothing, unless n is zero or ptr + n stays below the end. |
| BitRefs.BitRef.Distance | lib/src/asn1/asn1_utils.cc:127-145 | The distance is the number of bits written. |
| BitRefs.BitRef.DistanceBytes | lib/src/asn1/asn1_utils.cc:132-145 | The distance in octets is the number of bits written, rounded up. |
| CursorRun.AcceptedIsWhole | lib/src/asn1/asn1_utils.cc:147-347 | An operation that is let through writes all the bits it wants and nothing else. |
| CursorRun.Step | lib/src/asn1/asn1_utils.cc:147-347 | Every operation of the write cursor keeps its invariant, with its exact result and the exact condition of its success. |
| CursorRun.RunAll | lib/src/asn1/asn1_utils.cc:147-347 | After any run of operations, fitting or not: ptr <= max, offset < 8 and 0 at max, the buffer holds the written bits and zeros up to the octet boundary, and no octet past the cursor was touched. |
| CBitRefs.CBitRef.Unpack | lib/src/asn1/asn1_utils.cc:179-207 | Yields the number the next n bits denote and advances by n; fails exactly when n exceeds the target width or the bits left. |
| CBitRefs.CBitRef.UnpackChunk | lib/src/asn1/asn1_utils.cc:187-204 | One turn of the loop: the value so far and the bits still to read denote the same number as before. |
| CBitRefs.CBitRef.UnpackBytes | lib/src/asn1/asn1_utils.cc:244-268 | Yields n octets from any offset, or fails when they are not all there; the octets beyond n in the target are kept. |
| CBitRefs.CBitRef.AlignBytes | lib/src/asn1/asn1_utils.cc:271-282 | Moves to the next octet boundary of the stream. |
| CBitRefs.CBitRef.AdvanceBits | lib/src/asn1/asn1_utils.cc:285-298 | Skips n bits, or fails when they are not all there. |
| Wire.ReadBack | lib/src/asn1/asn1_utils.cc:147-207 | Bits packed anywhere in a stream are unpacked at the same place as the value modulo 2^n, at the cursor behind them. |
| PerFormat.CeilLog2 | lib/src/asn1/asn1_utils.cc:470-470 | The exact least k with x <= 2^k. |
| PerFormat.LengthRoundTrip | lib/src/asn1/asn1_utils.cc:728-803 | Every length determinant (X.691 section 10.9) that is encoded is read back at the encoder's cursor below 16384. From there on the aligned encoder alone writes one, in a form its decoder refuses. |
| PerFormat.ConstrainedRoundTrip | lib/src/asn1/asn1_utils.cc:457-564 | Constrained whole numbers (X.691 section 10.5) come back at the encoder's cursor, for each of the eight integer types, in the bit-field, octet-aligned and length-prefixed forms. |
| PerFormat.UnalignedRoundTripExactly | lib/src/asn1/asn1_utils.cc:457-545 | In the unaligned variant the numbers of a range come back if and only if its bounds are less than 2^63 apart; beyond that nothing is written and success is reported. |
| PerFormat.ConstrainedAccepts | lib/src/asn1/asn1_utils.cc:457-496 | Exactly which numbers are encoded: those of the range, except that the length-prefixed form ends below 2^56. |
| PerFormat.UnalignedDecoderInRange | lib/src/asn1/asn1_utils.cc:531-545 | The unaligned decoder answers only with numbers of the range if and only if lb + 2^n - 1 does not pass the top of the type. |
| PerFormat.AlignedDecoderInRange | lib/src/asn1/asn1_utils.cc:546-564 | The aligned decoder, which has no range test, answers only with numbers of the range if and only if the range fills its field: up to 65536 numbers, a power of two at the width read; above, where the field may have up to 4 or 8 octets, exactly 2^32 numbers. |
| PerFormat.PrefixedDecoderLeavesRange | lib/src/asn1/asn1_utils.cc:546-564 | A concrete failing input of the length-prefixed form: for 0 to 65536 the decoder answers 2^32 - 1. |
| PerFormat.SmallRoundTrip | lib/src/asn1/asn1_utils.cc:590-615 | A normally small number (X.691 section 10.6) that is encoded at all is at most 63 and comes back in seven bits. |
| PerFormat.EnumRoundTrip | lib/src/asn1/asn1_utils.cc:396-441 | Every enumeration value that is encoded comes back, root or extension, at the encoder's cursor. |
| PerFormat.EnumAccepts | lib/src/asn1/asn1_utils.cc:396-441 | Exactly the values of the enumeration with extension index at most 63 are encoded, and the decoder never answers with a value outside the enumeration. |
| PerFormat.UnconstrainedRoundTrip | lib/src/asn1/asn1_utils.cc:625-659 | A positive unconstrained number (X.691 section 10.8) that is encoded comes back if and only if its octets, sign octet included, fit the type; otherwise it is refused. PerWire.UnconstrainedOnWire says how many octets those are. |
| PerFormat.IntegerDecoded | lib/src/asn1/asn1_utils.cc:809-903 | What decoding an encoded INTEGER (X.691 section 12.2.6) yields in each branch, with and without the extension bit; only the constrained branch asks anything of the difference of the bounds. |
| PerFormat.IntegerRoundTrip | lib/src/asn1/asn1_utils.cc:809-903 | Decoding inverts encoding whatever the target held, if and only if the range has two numbers or more, is not half-bounded, and a sign octet fits. |
| PerFormat.UnboundedIntegerRoundTrip | lib/src/asn1/asn1_utils.cc:862-867 | A signed type without bounds, of any width: a positive number is encoded if and only if it is at most 2^55, and then comes back. |
| PerWire.TypeHolds | lib/src/asn1/asn1_utils.cc:457-564 | What each of the eight integer types holds, by powers of two, and that a conversion changes a number by a multiple of two to its width. |
| PerWire.LengthOnWire | lib/src/asn1/asn1_utils.cc:728-761 | Which lengths are encoded in each variant, and the bits of every one: padding when aligned, then a zero bit and seven, 10 and fourteen, or 11 with the count of 16K blocks and the rest. |
| PerWire.LengthDecoded | lib/src/asn1/asn1_utils.cc:762-803 | What either decoder makes of any stream, bit by bit, refusal of the fragmented form included. |
| PerWire.UnalignedOnWire | lib/src/asn1/asn1_utils.cc:457-473 | The unaligned constrained number is the distance from the lower bound in the least width for the numbers of the range, with its return code dropped, and nothing at all from a distance of 2^63 between the bounds on. |
| PerWire.AlignedOnWire | lib/src/asn1/asn1_utils.cc:474-487 | The aligned one: that bit field below 256 numbers, one octet from a boundary for exactly 256, two up to 65536. |
| PerWire.PrefixedOnWire | lib/src/asn1/asn1_utils.cc:488-496 | Above 65536: the least number of octets for the distance, less one, in two bits for ranges up to 2^32 numbers and three beyond, then the octets from a boundary; eight octets are refused. |
| PerWire.UnalignedDecoded | lib/src/asn1/asn1_utils.cc:523-545 | What the unaligned decoder makes of any stream: the least width, the wrap-around of the type, and a comparison with the upper bound alone. |
| PerWire.AlignedDecoded | lib/src/asn1/asn1_utils.cc:546-556 | What the aligned decoder makes of any stream up to 65536 numbers, without any comparison. |
| PerWire.PrefixedDecoded | lib/src/asn1/asn1_utils.cc:557-564 | And above: as many octets as the two or three bits in front announce. |
| PerWire.SmallOnWire | lib/src/asn1/asn1_utils.cc:590-601 | The seven bits of a normally small number up to 63, and the one bit that is left of a larger one. |
| PerWire.SmallDecoded | lib/src/asn1/asn1_utils.cc:602-615 | A zero bit and six more from any stream, or a refusal. |
| PerWire.EnumOnWire | lib/src/asn1/asn1_utils.cc:396-412 | The bits of every enumeration value: least widths for all values, or for the root behind a zero bit, and 10 with six bits counted from the root for an extension. |
| PerWire.EnumRootDecoded | lib/src/asn1/asn1_utils.cc:414-441 | What is made of any stream without a set extension bit. |
| PerWire.EnumExtensionDecoded | lib/src/asn1/asn1_utils.cc:414-441 | And of one with it: six bits counted from the root, and a refusal of indices beyond the extensions. |
| PerWire.UnconstrainedOnWire | lib/src/asn1/asn1_utils.cc:625-649 | A positive number takes k octets, k the least with n at most 2^(8k-1), behind the one-octet length k; it is encoded if and only if k is below 8. |
| PerWire.UnconstrainedDecoded | lib/src/asn1/asn1_utils.cc:650-659 | From any stream: as many octets as a length of one or two octets announces, if the type has room for them. |
| PerWire.IntegerOnWire | lib/src/asn1/asn1_utils.cc:809-844 | The extension bit says whether the number is outside its bounds, and which of nothing, a constrained and an unconstrained number follows. |
| PerWire.IntegerStream | lib/src/asn1/asn1_utils.cc:873-903 | The same branches on any stream, from its extension bit. |
| PerCodec.PackLength | lib/src/asn1/asn1_utils.cc:728-761 | The procedure over the write cursor emits exactly the length determinant, cut off only by the end of the buffer, and reports success exactly when it all fits. |
| PerCodec.UnpackLength | lib/src/asn1/asn1_utils.cc:762-803 | On the stream itself: a length in seven bits behind a zero bit, in fourteen behind 10, from an octet boundary when aligned, and a refusal for two set bits or a stream that ends too soon; the cursor behind it. |
| PerCodec.PackConstrained | lib/src/asn1/asn1_utils.cc:457-496 | Emits exactly the constrained whole number; the unaligned variant reports success even when the bits do not fit, because a return code is dropped there. |
| PerCodec.UnpackConstrained | lib/src/asn1/asn1_utils.cc:523-564 | Does what the stream decoder says, wrap-around included. |
| PerCodec.PackSmall | lib/src/asn1/asn1_utils.cc:590-601 | Emits exactly the normally small number, and refuses what needs the long form. |
| PerCodec.UnpackSmall | lib/src/asn1/asn1_utils.cc:602-615 | Does what the stream decoder says. |
| PerCodec.PackEnum | lib/src/asn1/asn1_utils.cc:396-412 | Emits exactly the enumeration value. |
| PerCodec.UnpackEnum | lib/src/asn1/asn1_utils.cc:414-441 | Does what the stream decoder says. |
| PerCodec.PackUnconstrained | lib/src/asn1/asn1_utils.cc:639-649 | Emits length and octets of an unconstrained number, which PerWire.UnconstrainedOnWire spells out. |
| PerCodec.UnpackUnconstrained | lib/src/asn1/asn1_utils.cc:650-659 | Does what the stream decoder says. |
| PerCodec.PackInteger | lib/src/asn1/asn1_utils.cc:809-844 | Emits exactly the INTEGER, extension bit and branch included. |
| PerCodec.UnpackInteger | lib/src/asn1/asn1_utils.cc:873-903 | Does what the stream decoder says; the target keeps its old value where the branch assigns nothing. |
| PerCodec.PackUnconstrainedInteger | lib/src/asn1/asn1_utils.cc:862-867 | Emits the INTEGER of a signed type without bounds. |
| PerCodec.UnpackUnconstrainedInteger | lib/src/asn1/asn1_utils.cc:922-927 | Does what the stream decoder says for a signed type without bounds. |
| PerCodec.Sequenced | lib/src/asn1/asn1_utils.cc:728-761 | Two emissions in a row are one emission of the sequence, with the success of the second asked for only after the first: how the multi-step procedures compose. |
| PerStrings.OctetStringRoundTrip | lib/src/asn1/asn1_utils.cc:1020-1040 | Unbounded octet strings come back from any cursor offset below 16384 octets and are refused from there on. |
| PerStrings.BitFieldIsGet | lib/src/asn1/asn1_utils.cc:1108-1125 | The wire order of a bit string is that of its bit indices, highest first. |
| PerStrings.FieldBack | lib/src/asn1/asn1_utils.cc:1108-1193 | The little-endian octets are restored bit for bit, stray bits above the length dropped. |
| PerStrings.FieldForth | lib/src/asn1/asn1_utils.cc:1171-1193 | The octets read from any bits hold exactly those bits. |
| PerStrings.BitStringRoundTrip | lib/src/asn1/asn1_utils.cc:1068-1193 | A bit string comes back with its length wherever the two ends agree on the prefix - always for a fixed size, and for unbounded size when unaligned - exactly up to 65536 bits; a longer one of fixed size is accepted by the encoder and refused by the decoder. |
| PerStrings.BoundedPrefixExactly | lib/src/asn1/asn1_utils.cc:1101-1161 | Every bounded length is read as written, in either variant and from any cursor, if and only if ub < 65536, ub-lb is no power of two, and, when aligned with 256 lengths or more, the cursor is at an octet boundary and the written width is whole octets. |
| PerStrings.NineBitsReadAsSixteen | lib/src/asn1/asn1_utils.cc:1101-1161 | A concrete aligned case: lengths of 0 to 300 are written in 9 bits and read in 16, so 1 comes back as 128; such bounds agree at no cursor. |
| PerStrings.SameWidthExactly | lib/src/asn1/asn1_utils.cc:1101-1161 | The widths of the two bit fields, ceil-log2 of ub-lb and of ub-lb+1, differ exactly when ub-lb is a power of two. |
| PerStrings.UnboundedAlignedPrefixExactly | lib/src/asn1/asn1_utils.cc:1097-1151 | The aligned reader gets the unbounded prefix, which is never aligned by the writer, if and only if the cursor is at an octet boundary. |
| PerStrings.CharsRoundTrip | lib/src/asn1/asn1_utils.cc:1294-1330 | Characters come back cut to their field, at the encoder's cursor, and so unchanged if and only if they fit it; fields wider than 8 bits are refused. |
| PerStrings.StringRoundTrip | lib/src/asn1/asn1_utils.cc:1275-1331 | A character string comes back at the encoder's cursor, its characters cut to the field that PerStringWire.StringOnWire describes and so unchanged if and only if they fit, in both variants, with and without the extension bit, whatever its size bounds, a fixed-size one when the target already has the size; with an upper bound of 65536 or more exactly below 16384 characters. |
| PerStrings.FixedSizeNeedsSizedTarget | lib/src/asn1/asn1_utils.cc:1303-1331 | A fixed-size string is recovered, its characters cut to their field, if and only if the target string has that size beforehand. |
| PerStringWire.CharsOnWire | lib/src/asn1/asn1_utils.cc:1296-1300 | The characters of a string take its length times the width, character i in its own field. |
| PerStringWire.CharsDecoded | lib/src/asn1/asn1_utils.cc:1326-1330 | From any stream with room for them n characters are those whose fields are the next bits; wider fields than eight bits are refused. |
| PerStringWire.OctetStringOnWire | lib/src/asn1/asn1_utils.cc:1020-1028 | Which octet strings are encoded, and their bits: the length determinant, then the octets. |
| PerStringWire.OctetStringDecoded | lib/src/asn1/asn1_utils.cc:1030-1040 | From any stream: exactly the octets behind a length of one octet or two, and a refusal where it begins with two set bits or the stream ends too soon. |
| PerStringWire.PrefixOnWire | lib/src/asn1/asn1_utils.cc:1068-1107 | The bits of every bit-string prefix: nothing, the unaligned determinant, or the distance from lb in the least width for ub - lb numbers, padded when aligned. |
| PerStringWire.PrefixStream | lib/src/asn1/asn1_utils.cc:1141-1169 | What the prefix decoder makes of any stream, from its extension bit. |
| PerStringWire.BitStringOnWire | lib/src/asn1/asn1_utils.cc:1108-1135 | Prefix, padding when aligned except for one size up to 16 bits, and bit i of the string at place n-1-i. |
| PerStringWire.FieldDecoded | lib/src/asn1/asn1_utils.cc:1171-1193 | From any stream: up to 65536 bits, aligned by the same rule, bit i of the string from place n-1-i; an empty field is nothing. |
| PerStringWire.StringOnWire | lib/src/asn1/asn1_utils.cc:1253-1302 | The width w of a character is the least for the alphabet, when aligned the least power of two from there on and 0 for a single character; the string is padded when aligned if w times the upper bound, in 64 bits, exceeds 16 or is 16 for a variable size; extension bit, length, padding and |str| * w bits of characters, and how much of it is checked. |
| PerStringWire.PrintableOnWire | lib/include/srsran/asn1/asn1_utils.h:1157-1158 | A string over the alphabet 32 to 122 ends in its octets when aligned, and in 7 bits a character when not. |
| PerStringWire.StringStream | lib/src/asn1/asn1_utils.cc:1303-1331 | The decoder uses the same width and the same rule of alignment on any stream, and refuses a set extension bit. |
| PerStringWire.StringBodyStream | lib/src/asn1/asn1_utils.cc:1318-1331 | Behind that bit: the length as announced, or the size of the target where it is fixed, and as many characters. |
| PerStringCodec.PackOctetString | lib/src/asn1/asn1_utils.cc:1020-1028 | Emits exactly length and octets. |
| PerStringCodec.UnpackOctetString | lib/src/asn1/asn1_utils.cc:1030-1040 | Does what the stream decoder says, and refuses a stream whose length begins with two set bits. |
| PerStringCodec.PackLengthPrefix | lib/src/asn1/asn1_utils.cc:1068-1107 | Emits exactly the extension bit and the prefix of the branch taken. |
| PerStringCodec.UnpackLengthPrefix | lib/src/asn1/asn1_utils.cc:1141-1169 | Does what the stream decoder says. |
| PerStringCodec.PackBitField | lib/src/asn1/asn1_utils.cc:1108-1125 | Emits the alignment and the bits, highest octet first. |
| PerStringCodec.PackBitString | lib/src/asn1/asn1_utils.cc:1130-1135 | Emits prefix and bits. |
| PerStringCodec.UnpackBitField | lib/src/asn1/asn1_utils.cc:1171-1193 | Fills the buffer from the stream, or refuses. |
| PerStringCodec.UnpackBitString | lib/src/asn1/asn1_utils.cc:1141-1193 | Does what the stream decoder says, into a buffer of its own. |
| PerStringCodec.PackString | lib/src/asn1/asn1_utils.cc:1275-1302 | Emits exactly extension bit, length, alignment and characters, as PerStringWire.StringOnWire spells them out. |
| PerStringCodec.UnpackString | lib/src/asn1/asn1_utils.cc:1303-1331 | Does what the stream decoder says, refusals included, when the length can be read; a set extension bit is always refused. |
| OpenFields.ClosesExactly | lib/src/asn1/asn1_utils.cc:1464-1468 | The closing guard reaches the end of its field if and only if at most 32 bits are left unread; beyond that it does not move. |
| OpenFields.ClosesAt | lib/src/asn1/asn1_utils.cc:1464-1468 | Where the closing guard leaves a reader that stands anywhere, beyond its field included, in a stream that ends anywhere. |
| OpenFields.OpensAt | lib/src/asn1/asn1_utils.cc:1457-1462 | Length and cursor after opening a field at any place of any stream, bit by bit, unreadable lengths included. |
| OpenFields.FieldOnWire | lib/src/asn1/asn1_utils.cc:1433-1455 | A field is the length of its body in octets, rounded up, the body, and zeros to fill the last octet. |
| OpenFields.PhaseOnly | lib/src/asn1/asn1_utils.cc:1420-1455 | What a nested message puts on the wire depends on where it starts only through the octet phase, and not at all when nothing aligns. |
| OpenFields.OneVariantIsCoherent | lib/src/asn1/asn1_utils.cc:1420-1462 | Using one variant throughout keeps the buffer-relative and stream-relative alignments in step. |
| OpenFields.MessageRoundTrip | lib/src/asn1/asn1_utils.cc:1420-1468 | For every tree of nested fields and every reader that follows it, leaving at most 32 bits unread in each field, the reader gets every number it asks for and ends exactly behind the outermost field. |
| OpenFieldGuards.LeftoverIsPadding | lib/src/asn1/asn1_utils.cc:1433-1440 | The pad the guard computes from the distance is the distance to the octet boundary. |
| OpenFieldGuards.PackGuard.constructor | lib/src/asn1/asn1_utils.cc:1420-1431 | The guard diverts the cursor to the start of a reserved buffer and remembers where it was. |
| OpenFieldGuards.PackGuard.Close | lib/src/asn1/asn1_utils.cc:1433-1455 | Closing it writes prefix, body and zero pad to the octet where the cursor stood, cut off only by the end of the buffer, and no octet past the cursor. |
| OpenFieldGuards.UnpackGuard.constructor | lib/src/asn1/asn1_utils.cc:1457-1462 | Opening takes the length and the place the stream says, and where no length can be read, which is ignored, the place the cursor is left at. |
| OpenFieldGuards.UnpackGuard.Close | lib/src/asn1/asn1_utils.cc:1464-1468 | Closing leaves the cursor where the stream-level closing rule says. |
| OpenFieldGuards.PackMsg | lib/src/asn1/asn1_utils.cc:1420-1455 | A writer with guards nested as the message nests leaves exactly the bits, and reports exactly the success, that the stream-level writer gives for any message and buffer, fitting or not; octets past the cursor are kept. |
| OpenFieldGuards.WrittenWhole | lib/src/asn1/asn1_utils.cc:1420-1455 | A message that fits its reserved buffers and has room is written whole and successfully. |
| OpenFieldGuards.SuccessIsNarrow | lib/src/asn1/asn1_utils.cc:1420-1455 | A writer that reports success met no number of more than 63 bits, at any depth. |
| OpenFieldGuards.LostWithoutNotice | lib/src/asn1/asn1_utils.cc:1433-1455 | A full buffer stays as it is: success is then reported if and only if there is nothing but fields, whose bodies are written in their own buffers and lost. |
| OpenFieldGuards.UnpackMsg | lib/src/asn1/asn1_utils.cc:1457-1468 | A reader with guards nested as its schema nests gets the numbers, the cursor and the success of the stream decoder, for every stream, refusals included. |
| CodecRun.EverythingIsRead | lib/src/asn1/asn1_utils.cc:147-207 | A reader that asks for everything gets every number modulo 2^width and walks over the whole message. |
| CodecRun.StreamOfBuffer | lib/src/asn1/asn1_utils.cc:147-207 | The read cursor over a written buffer sees the written bits at the start of its stream. |
| CodecRun.PackThenUnpack | lib/src/asn1/asn1_utils.cc:147-207 | End to end through the real buffer: packing a message and unpacking it by any following schema gives the numbers asked for and the right cursor. |
| CodecRun.PackThenUnpackAll | lib/src/asn1/asn1_utils.cc:147-207 | Any list or tree of (value, width) pairs that fits comes back, each modulo 2^width, with the reader at the writer's cursor. |
| CodecRun.AlignedBodyExactly | lib/src/asn1/asn1_utils.cc:1420-1468 | A body of aligned fields, written from the start of a buffer of its own, is read back from a place in the stream, by every reader that follows it, if and only if the place is an octet boundary. |
| CodecRun.MixedVariantsAreNotReadBack | lib/src/asn1/asn1_utils.cc:1420-1468 | A concrete message of mixed variants that the reader refuses: an aligned field of one octet inside an unaligned one, placed off the boundary. |
| CodecRun.MixedVariantsMayBeReadBack | lib/src/asn1/asn1_utils.cc:1420-1468 | A single message off the boundary may still come back: an empty aligned field found in the padding before it, with any number in front. |
| ExtGroups.FlagsRoundTrip | lib/src/asn1/asn1_utils.cc:1349-1414 | Presence flags are encoded if and only if the last group present has an index of at most 63, and every reader, of any number of groups, then sees the same flags, absent past the end. |
| ExtGroups.FlagsOnWire | lib/src/asn1/asn1_utils.cc:1349-1371 | The bits of every set of groups: the number up to the last one present less one, in seven bits, and their flags; none, or more than 64, leave one bit and a refusal. |
| ExtGroups.FlagsDecoded | lib/src/asn1/asn1_utils.cc:1401-1414 | From any stream: a count of at most 64, as many flags, and the further groups of the reader absent. |
| ExtGroups.CountWithinFlags | lib/src/asn1/asn1_utils.cc:1391-1414 | After reading the header the count stays within the flags if and only if it was not cut short above the number of supported groups; where it does not, the cursor is at the end. |
| ExtGroups.CountCutShort | lib/src/asn1/asn1_utils.cc:1401-1414 | A concrete header cut short: with the bits 0111 left, the count becomes 56 over one flag. |
| ExtGroups.KnownFollows | lib/src/asn1/asn1_utils.cc:1391-1414 | The groups a reader knows are a readable part of the message, and what they leave is exactly the unknown groups. |
| ExtGroups.UnknownSkipped | lib/src/asn1/asn1_utils.cc:1391-1399 | Skipping unknown groups of at most 4 octets ends behind the last of them. |
| ExtGroups.OneUnknownGroupExactly | lib/src/asn1/asn1_utils.cc:1391-1399 | With any one unknown group in the message the skip ends where a full reader would if and only if its body is at most 4 octets. |
| ExtGroups.ForwardCompatible | lib/src/asn1/asn1_utils.cc:1339-1414 | A reader of k groups, for any k, given a message with any other number, sees the same flags, reads the groups it knows and ends where the message ends. |
| ExtGroupGuards.ExtGroupsPackerGuard.SetPresent | lib/src/asn1/asn1_utils.cc:1339-1347 | Setting a flag grows the array with absent groups and changes no other flag. |
| ExtGroupGuards.ExtGroupsPackerGuard.Pack | lib/src/asn1/asn1_utils.cc:1349-1366 | Emits exactly count and flags up to the last group present. |
| ExtGroupGuards.ExtGroupsUnpackerGuard.Unpack | lib/src/asn1/asn1_utils.cc:1401-1414 | Leaves in the guard exactly the count, flags and cursor of the stream-level header, readable or not: a count cut short stays in it as it is. |
| ExtGroupGuards.ExtGroupsUnpackerGuard.Close | lib/src/asn1/asn1_utils.cc:1391-1399 | The destructor ends exactly where the stream-level skip does, unreadable lengths included, and for any count, given what lies behind the flags. |
| ExtGroupGuards.UnpackGroups | lib/src/asn1/asn1_utils.cc:1368-1414 | A decoder built of the guards, which does not look at the return code of the header, gets the flags, the numbers, the cursor and the success of the stream decoder, for every stream, whatever lies behind the flags. |
| JsonWriter.Writer.WriteFieldname | lib/src/asn1/asn1_utils.cc:1476-1485 | The exact new text: the separator, the indentation unless there is none, and the name in quotes before a colon and a blank unless it is empty. |
| JsonWriter.Writer.StartObj | lib/src/asn1/asn1_utils.cc:1531-1537 | The exact new state: name, opening brace, two blanks more of indentation. |
| JsonWriter.Writer.EndObj | lib/src/asn1/asn1_utils.cc:1538-1543 | The exact new state: two blanks less, and the closing brace on a line of its own; throws, changing nothing, exactly when fewer than two blanks are left. |
| JsonWriter.Writer.StartArray | lib/src/asn1/asn1_utils.cc:1545-1551 | The exact new state: name, opening bracket, two blanks more of indentation. |
| JsonWriter.Writer.EndArray | lib/src/asn1/asn1_utils.cc:1552-1557 | The exact new state: two blanks less, and the closing bracket on a line of its own; throws, changing nothing, exactly when fewer than two blanks are left. |
| JsonWriter.Writer.WriteStr | lib/src/asn1/asn1_utils.cc:1487-1496 | Appends the value between quotes behind the name. |
| JsonWriter.Writer.WriteInt | lib/src/asn1/asn1_utils.cc:1498-1507 | What is appended behind the name is digits without leading zeros that denote the value, behind a minus sign if the value is negative. |
| JsonWriter.Writer.WriteBool | lib/src/asn1/asn1_utils.cc:1509-1518 | Appends true or false behind the name. |
| JsonWriter.Writer.WriteNull | lib/src/asn1/asn1_utils.cc:1520-1529 | Appends null behind the name. |
| JsonWriter.Writer.MakeCalls | lib/src/asn1/asn1_utils.cc:1474-1557 | The object, driven through any calls, ends as the run of the state machine does. |
| JsonWriter.DigitsDenote | lib/src/asn1/asn1_utils.cc:1498-1502 | Numbers print in decimal digits that denote them, without leading zeros. |
| JsonWriter.DecimalIsNumeral | lib/src/asn1/asn1_utils.cc:1498-1502 | Every number, negative ones included, prints in such digits. |
| JsonWriter.NumeralsAgree | lib/src/asn1/asn1_utils.cc:1498-1502 | A number has one such text and a text stands for one number, so distinct values print distinct texts. |
| JsonWriter.RunValue | lib/src/asn1/asn1_utils.cc:1474-1557 | Writing a value appends exactly its recursive pretty-print at the current depth and restores the indentation, whatever it holds. |
| JsonWriter.RunMembers | lib/src/asn1/asn1_utils.cc:1474-1557 | Writing a row of members prints one line each, a comma between neighbours and none before the first or after the last. |
| JsonWriter.NameThenValue | lib/src/asn1/asn1_utils.cc:1476-1485 | A name written on its own followed by a nameless value prints as the value under the name. |
| JsonWriter.ParseMembers | lib/src/asn1/asn1_utils.cc:1474-1557 | Every legal call sequence is the calls of some tree, up to the end or the closing of the container it is in. |
| JsonWriter.LegalRun | lib/src/asn1/asn1_utils.cc:1474-1557 | Hence every legal run, not only one generated from a tree, never throws and leaves exactly the text of a tree. |
| JsonWriter.PrintTwo | lib/src/asn1/asn1_utils.cc:1474-1557 | The text of a container of two members, mark by mark: lines, indentation, quotes, colons, commas. |
| JsonWriter.PrintLeaf | lib/src/asn1/asn1_utils.cc:1487-1529 | The text of every value: strings in quotes, numbers as numerals, true, false and null. |
| JsonWriter.RunDepth | lib/src/asn1/asn1_utils.cc:1531-1557 | Any run at all throws exactly when some prefix closes more than it opened; otherwise the indentation is twice the open depth. |
| JsonWriter.WriteDocument | lib/src/asn1/asn1_utils.cc:1474-1562 | End to end: a new writer driven through a tree's calls yields the tree's serialisation. |
| Packetiser.CutKeepsAll | lib/examples/pdsch_enodeb.c:852-867 | Cutting loses nothing: the packets and then the rest are the bytes; each packet has the size and less than one is left. |
| Packetiser.CutIsUnique | lib/examples/pdsch_enodeb.c:852-867 | No other division into packets of that size leaves less than one. |
| Packetiser.CutAppend | lib/examples/pdsch_enodeb.c:843-873 | Cutting what has come and going on with what is left cuts the whole. |
| Packetiser.PacketSizeHoldsBlock | lib/examples/pdsch_enodeb.c:847-850 | The size is the least number of bytes that hold the block, and one byte for an empty block, so the inner loop always ends. |
| Packetiser.MemCpy | lib/examples/pdsch_enodeb.c:858-872 | A byte copy is exact on regions that do not overlap; every copy of the thread is proved to be one. |
| Packetiser.NetThread.Fill | lib/examples/pdsch_enodeb.c:843-843 | A datagram lands behind the kept bytes, cut to the room there is: as many bytes as the lesser of the two. |
| Packetiser.NetThread.HandOver | lib/examples/pdsch_enodeb.c:852-873 | The inner loop hands over exactly the whole packets in order and compacts exactly the rest, in place; fewer than nbytes are left. |
| Packetiser.NetThread.Receive | lib/examples/pdsch_enodeb.c:842-878 | One turn of the thread: the kept bytes and what fits of the datagram are cut into packets, handed over, and a rest; if nothing comes or nothing fits, the kept bytes are dropped. |
| Packetiser.NetThread.Serve | lib/examples/pdsch_enodeb.c:837-879 | The thread over any sequence of reads does what the rounds do. |
| Packetiser.RunConserves | lib/examples/pdsch_enodeb.c:837-879 | Conservation over every run: packets since the last empty read followed by the kept bytes are the bytes read since, and they fit the buffer. |
| Packetiser.NeverStartsOver | lib/examples/pdsch_enodeb.c:837-879 | With packets no larger than the buffer and no empty datagram, all packets followed by the kept bytes are everything read. |
| Packetiser.NothingLost | lib/examples/pdsch_enodeb.c:837-879 | With datagrams small enough for the room one packet leaves, no byte is dropped or cut off. |
| Packetiser.DivisionDoesNotMatter | lib/examples/pdsch_enodeb.c:837-879 | With a constant packet size what is handed over is the cut of the concatenated bytes, however the datagrams divide them. |
| SlotHandoff.StepKeepsTokens | lib/examples/pdsch_enodeb.c:855-867 | Every atomic step of either thread keeps the one-token equation and the raised flag under a sender at work. |
| SlotHandoff.StepKeepsSlot | lib/examples/pdsch_enodeb.c:855-1166 | Every step keeps the slot equal to what was handed over but for the sender's own overwriting. |
| SlotHandoff.StepKeepsFrames | lib/examples/pdsch_enodeb.c:1146-1166 | Every step keeps the frames sent equal to what was handed over, in order, with the pattern over the first bytes. |
| SlotHandoff.StepKeepsReceived | lib/examples/pdsch_enodeb.c:855-867 | Every step keeps the slot beginning with the packet being received, as far as it has been copied. |
| SlotHandoff.StepKeepsHanded | lib/examples/pdsch_enodeb.c:855-867 | Every step keeps each slot handed over beginning with the whole packet it was taken for. |
| SlotHandoff.RunSafe | lib/examples/pdsch_enodeb.c:398-1166 | All of that after every interleaving. |
| SlotHandoff.SlotIsNeverShared | lib/examples/pdsch_enodeb.c:398-1166 | In every interleaving semaphore + ready flag + receiver filling + sender between clear and post is 1; the receiver never writes while a packet is ready or being sent; the re-check before the clear always finds the flag up. |
| SlotHandoff.PacketsAreSentInOrder | lib/examples/pdsch_enodeb.c:855-1166 | In every interleaving each packet taken by the receiver is handed over whole and encoded exactly once, in order and untorn but for the overwritten bytes; at most the latest is outstanding. |
| SlotHandoff.TakenIsSent | lib/examples/pdsch_enodeb.c:855-1166 | In every interleaving each byte of a packet reaches its frame, unless it is among the bytes overwritten, which are the pattern. |
| SlotHandoff.SentAsHanded | lib/examples/pdsch_enodeb.c:1146-1153 | A frame carries its packet unchanged if and only if the overwritten bytes already were the test pattern. |
| SlotHandoff.LogsAreTheMoves | lib/examples/pdsch_enodeb.c:855-1166 | In any run the packets taken are exactly those that arrived, and each subframe that found the flag up stamps exactly one frame by its own count, in order. |
| SlotHandoff.SenderFreesSlot | lib/examples/pdsch_enodeb.c:855-1166 | No deadlock: from any reachable state with the receiver held up, the sender alone frees the slot within its remaining steps. |
| SlotHandoff.ReceiverHandsOver | lib/examples/pdsch_enodeb.c:855-867 | From any reachable state a receiver with a packet in hand alone raises the flag over it, in exactly the steps it has left. |
| SlotHandoff.AnyPacketIsTaken | lib/examples/pdsch_enodeb.c:855-867 | Whenever the semaphore is up a waiting receiver can take any packet that fits, and what it hands over begins with it. |
| RbgBitmask.Reverse | lib/examples/pdsch_enodeb.c:553-560 | The five-stage swap network moves bit i to bit 31-i, for every word. |
| RbgBitmask.ReverseTwice | lib/examples/pdsch_enodeb.c:553-560 | It is its own inverse. |
| RbgBitmask.BitsDecide | lib/examples/pdsch_enodeb.c:553-560 | Words with equal bits are equal. |
| RbgBitmask.Groups | lib/examples/pdsch_enodeb.c:565-565 | The group count is the least that covers the resource blocks. |
| RbgBitmask.GroupsByBandwidth | lib/src/phy/phch/ra.c:60-71 | Groups of one block up to 10 blocks, two up to 26, three up to 63 and four beyond (TS 36.213 table 7.1.6.1-1). |
| RbgBitmask.PrbSetToBitmask | lib/examples/pdsch_enodeb.c:562-572 | For 1 to 32 groups, bit nb-1-i is set if and only if i is at least orig and below orig + num, and no bit above is set (TS 36.213 section 7.1.6.1). |
| BearerManager.RunSound | lib/src/common/bearer_manager.cc:30-84 | After every run of add, remove, reset and set_five_qi each reverse entry names a live bearer on that channel, so the unchecked lookup cannot fail. |
| BearerManager.HolderIsFirst | lib/src/common/bearer_manager.cc:30-51 | The holder of a channel is the first registration since one was last removed from it, in both directions. |
| BearerManager.LcidLeadsToFirst | lib/src/common/bearer_manager.cc:30-74 | Exact lookup over every run: a channel leads to a bearer if and only if that bearer was the first registered there with no removal since. |
| BearerManager.LookupByChannel | lib/src/common/bearer_manager.cc:30-84 | What the lookup by channel answers after every run: the bearer of the first registration on the channel with no removal since, with the technology and identity it was registered with and the 5QI set last since; without one, the invalid bearer. |
| BearerManager.LookupById | lib/src/common/bearer_manager.cc:30-84 | The same of the lookup by identity, by the operations on that identity alone. |
| BearerManager.FirstOrNone | lib/src/common/bearer_manager.cc:30-74 | One of the two cases is always the case. |
| BearerManager.MarkMeans | lib/src/common/bearer_manager.cc:30-57 | Which steps count for a channel: a registration on it of an identity not held, a removal of the holder of an identity registered on it, and a reset. |
| BearerManager.OthersDoNotMatter | lib/src/common/bearer_manager.cc:30-84 | Over every run a bearer's registration depends only on the operations about that bearer. |
| BearerManager.InverseExactly | lib/src/common/bearer_manager.cc:30-74 | The two maps are each other's inverse all along a run if and only if no two live bearers ever share a channel in it. |
| BearerManager.SharedChannelIsLost | lib/src/common/bearer_manager.cc:41-51 | Sharing, which the header allows across access technologies, loses a live bearer's lookup: a concrete run. |
| BearerManager.UeBearerManagerImpl.AddEpsBearer | lib/src/common/bearer_manager.cc:30-39 | The exact new maps, and success exactly for a new identity. |
| BearerManager.UeBearerManagerImpl.RemoveEpsBearer | lib/src/common/bearer_manager.cc:41-51 | The exact new maps, and success exactly for a live identity. |
| BearerManager.UeBearerManagerImpl.ResetAll | lib/src/common/bearer_manager.cc:53-57 | Both maps are emptied. |
| BearerManager.UeBearerManagerImpl.GetRadioBearer | lib/src/common/bearer_manager.cc:64-68 | The bearer, or the invalid one. |
| BearerManager.UeBearerManagerImpl.GetEpsBearerIdForLcid | lib/src/common/bearer_manager.cc:70-74 | The bearer the reverse index names for the channel, which is on that channel, or the invalid one exactly where it names none; BearerManager.LookupByChannel says which it is after any run. |
| BearerManager.UeBearerManagerImpl.SetFiveQiOf | lib/src/common/bearer_manager.cc:76-84 | Changes one field of one bearer. |
| BearerManager.UsersAreSeparate | lib/src/common/bearer_manager.cc:137-223 | Over every run of the base station, one user's maps are those of a manager that saw only that user's operations: no operation on one user changes another's lookups. |
| BearerManager.UsersAreSound | lib/src/common/bearer_manager.cc:137-223 | Every user's reverse index stays sound. |
| BearerManager.Operate | lib/src/common/bearer_manager.cc:131-223 | The objects themselves, put through any run of the base station's operations: each user's maps are what its own operations make of them. |
| BearerManager.EnbBearerManager.AddEpsBearer | lib/src/common/bearer_manager.cc:137-160 | The exact new state of all users' objects; a new user gets an object of its own. |
| BearerManager.EnbBearerManager.RemoveEpsBearer | lib/src/common/bearer_manager.cc:162-175 | The exact new state of all users' objects. |
| BearerManager.EnbBearerManager.RemoveUser | lib/src/common/bearer_manager.cc:177-187 | The user is gone and every other user's object is as it was. |
| BearerManager.EnbBearerManager.SetFiveQiOf | lib/src/common/bearer_manager.cc:216-223 | The exact new state of all users' objects, and the result. |
| BearerManager.EnbBearerManager.GetRadioBearer | lib/src/common/bearer_manager.cc:207-214 | The lookup by identity in the user's own maps, which BearerManager.LookupById describes over every run, or the invalid bearer. |
| BearerManager.EnbBearerManager.GetLcidBearer | lib/src/common/bearer_manager.cc:198-205 | The lookup by channel in the user's own maps, which BearerManager.LookupByChannel describes over every run, or the invalid bearer. |
| MsgQueue.NoCycle | cellinspector/source/asn_decoder.c:43-79 | The list is acyclic: no node is reached twice from the first. |
| MsgQueue.ChainIsUnique | cellinspector/source/asn_decoder.c:43-79 | Following next from a node visits one determined sequence of nodes. |
| MsgQueue.ASNDecoder.QueuePush | cellinspector/source/asn_decoder.c:43-57 | The nodes reachable from first become the old ones and then the new one, last is the final node; first and last are null together. |
| MsgQueue.ASNDecoder.QueuePop | cellinspector/source/asn_decoder.c:59-79 | Gives the first reachable node and leaves the others in order, or null exactly when there are none. |
| MsgQueue.ASNDecoder.PushAsnPayload | cellinspector/source/asn_decoder.c:210-231 | Appends a new node whose payload is a copy in an array of its own, which later changes to the caller's buffer do not reach; on allocation failure nothing changes. |
| MsgQueue.ASNDecoder.Poll | cellinspector/source/asn_decoder.c:122-127 | One poll takes the oldest waiting message. |
| MsgQueue.ASNDecoder.DecodeHeld | cellinspector/source/asn_decoder.c:129-163 | The held message goes to the log - its time line, then its contents if its kind is known and a decoder is there - or is dropped by a thread that then ends. |
| MsgQueue.FirstInFirstOut | cellinspector/source/asn_decoder.c:43-163 | Under any interleaving of pushes, polls, writes and the closing of the log, what was written, then dropped, then held, then waits are the accepted messages, once each and in order; at most one is dropped. |
| MsgQueue.LogIsPrefix | cellinspector/source/asn_decoder.c:110-163 | The log is always a prefix of the accepted messages, and nothing is dropped while it is open, whether or not it could be opened at the start. |
| MsgQueue.EverythingGetsWritten | cellinspector/source/asn_decoder.c:119-163 | As long as the log is open the thread writes everything that waits, in order, one message a turn. |
| MsgQueue.NoLogNoReader | cellinspector/source/asn_decoder.c:110-118 | If the log cannot be opened the thread ends at once: every accepted message waits, in order, and none is written. |
| MsgQueue.Operate | cellinspector/source/asn_decoder.c:43-231 | The linked list itself, put through any order of operations, leaves a log of the first accepted messages, in order: for each, by its kind, its time with its payload as master or system information, a note that no decoder is there, or the time alone. |
| Liblte.Value2Bits | lib/src/asn1/liblte_common.cc:40-48 | Writes the n low bits, one to an octet, most significant first, and nothing else. |
| Liblte.Bits2Value | lib/src/asn1/liblte_common.cc:55-66 | Gives the number the bits denote. |
| Liblte.Pack | lib/src/asn1/liblte_common.cc:73-120 | Writes the packed octets, the last bits at the low end of theirs, and nothing past them. |
| Liblte.Unpack | lib/src/asn1/liblte_common.cc:93-135 | Writes the bits of the octets, one to an octet, and nothing past them. |
| Liblte.PackOfUnpack | lib/src/asn1/liblte_common.cc:73-135 | Packing what was unpacked is the identity on octets. |
| Liblte.UnpackOfPack | lib/src/asn1/liblte_common.cc:73-135 | Unpacking what was packed is the identity on bit arrays of whole octets. |
| Liblte.PackThenUnpack | lib/src/asn1/liblte_common.cc:73-135 | On real arrays: packing a 0/1 array and unpacking the octets gives the array back if and only if it fills whole octets. |
| Liblte.UnpackThenPack | lib/src/asn1/liblte_common.cc:73-135 | On real arrays: unpacking octets and packing the bits gives the octets back. |
| Liblte.PackersAgreeExactly | lib/src/asn1/liblte_common.cc:73-120 | The simple packer and the bit cursor write the same octets if and only if the bits fill whole octets or those left over are zero. |
| Liblte.PackWithCursor | lib/src/asn1/asn1_utils.cc:147-176 | A list of fields through the bit cursor leaves the cursor's octets. |
| Liblte.PackWithLiblte | lib/src/asn1/liblte_common.cc:40-120 | A list of fields spread over a bit array and packed gives the packed octets. |
| Liblte.PackBothWays | lib/src/asn1/liblte_common.cc:40-120 | Both at once, on real buffers: the octets are equal if and only if the total width is a multiple of 8 or the bits left over are zero. |

## Left out

- Fragmented lengths of 16384 and more: the code does not decode them; the lemmas say they are refused.
- Half-bounded (semi-constrained) integers and zero or negative unconstrained integers: unfinished in the source. PackInteger asks for a positive number only on the branch that takes a length octet.
- PerFormat.IntegerRoundTrip: asks for n >= 1 on the unconstrained branch, because the source's length computation is floating point on other numbers; and on the constrained branch for what C++ asks of the difference of the bounds, below 2^63 when unaligned, which PerFormat.UnalignedRoundTripExactly shows to be the limit.
- PerWire.UnconstrainedOnWire: positive numbers only, as above, and with them PerWire.IntegerOnWire on the branches that take a length.
- Floating-point `log2f` and `ceilf`: exact integer functions instead; for ranges up to 65536 they agree, above that the exact form is the intent.
- PerStrings.BitStringRoundTrip: asks for agreement of the two ends on the prefix, a condition on the bounds and the cursor; the exactness lemmas show that without it some length is misread.
- PerFormat.UnalignedDecoderInRange: the addition of the lower bound wraps; for signed 32- and 64-bit types C++ leaves that overflow undefined, in every decoder built on it; the round trips never overflow.
- ExtGroupGuards.ExtGroupsUnpackerGuard.Close: flags beyond the array are a parameter; what reading them does in C++ is undefined.
- PerStringCodec.UnpackString: when the length cannot be read the source goes on with an uninitialised number, of which nothing is said.
- The pool of buffers behind the open-field guards and the fallback on allocation failure: one block size is a parameter.
- The growth of `ext_array` (`asn1_utils.h`): a sequence; its second growth on the heap, which copies from the small buffer, is not modelled.
- Header classes for fixed and bounded strings, containers, choices and number or text conversions of strings (`octstring_to_number`, `to_hex`, `from_number`, `to_number`): easy corollaries or formatting.
- JsonWriter.Writer.WriteStr: strings are not escaped, as in the source, so the text of a string with quotes is not valid JSON.
- Logging, error messages and `HANDLE_CODE` macros: error codes only.
- The non-MBSFN branch of the packetiser, which copies the same half twice, and reads over TCP.
- SlotHandoff.SlotIsNeverShared: the flag is read and written atomically, as if it were not a plain C variable; the encoder's reading of the slot is one step.
- Sockets, files, radio, threads' creation, signal handling and option parsing.
- BearerManager.EnbBearerManager.AddEpsBearer: identities are naturals, without the 8-bit parameter type; locks and log lines are not modelled.
- How MIB and SIB payloads are decoded: a log entry holds the payload itself. The file lock that the decoding thread keeps when it ends on a closed log is not modelled either.
- MsgQueue.Operate: the two locks are assumed to work; operations are atomic.
- Liblte.Bits2Value: bit arrays hold zeros and ones; other octets, which the shifts of the source can carry past an int, are not modelled, here and in Liblte.Pack. `liblte_align_up` is left out.
