# AIS message library: a verified model

This project models the C++ library that turns NMEA 0183 AIS sentences into messages and
back: the bit engine (`src/core/bitfield.cpp`), the 6-bit armour (`src/core/payload.cpp`), the
sentence parser and the multi-part assembler (`src/core/sentence.cpp`), the codecs of all
implemented message types (`src/messages/`), and the registry (`src/core/message.cpp`,
`src/registry_init.cpp`). Each stage has a specification function; the loops and the objects
that change state are methods and classes proved against it; and the properties of the
specification are lemmas. They compose into one end-to-end theorem.

| file | models |
|---|---|
| Results.dfy | error codes, `Result`, `Option` |
| Bits.dfy | bit strings, their values, packing into bytes |
| Integers.dfy | fixed-width integers, casts, sign extension |
| SixBitText.dfy | 6-bit characters and text fields |
| BitReader.dfy, BitWriter.dfy | `BitReader` and `BitWriter` |
| Layout.dfy | fields written one after another: the general layout theorems |
| Payload.dfy | armour encoding and decoding |
| MessageTypes.dfy, Msg*.dfy | one module for each message class |
| Registry.dfy | the message sum type, the registry, the dispatch table |
| Codec.dfy | round trips, canonical form and failure conditions for all types |
| Text.dfy, Sentence.dfy | string helpers, `Sentence::parse`, the grammar of lines |
| Assembler.dfy | `SentenceAssembler` and its runs |
| AssemblerRuns.dfy, Conservation.dfy | properties of whole runs |
| Pipeline.dfy | the receiving loop and the end-to-end theorems |

How the source's data appears:

- Bytes of a buffer are `bv8`; the buffer of a writer is a `seq<bv8>` field that its methods
  reassign, and a buffer of fixed size is an `array<bv8>`. Fields are `uint8` to `uint64` and
  `int8` to `int64` subset types, with the narrowing casts written out.
- A `char` stands for one byte of a string; `Text.Byte` is the cast to `uint8_t` that the checksum
  uses. Text and sentences may be any strings.
- A writer's ghost field `written` is the layout written so far. `Valid()` says that the buffer is
  the packing of its bits, so the padding bits that `push_bit` relies on are zero.
- The assembler's ghost field `history` is everything fed so far, and `Valid()` ties the map of
  sequences to the run of that history, so the lemmas about runs speak of the object.
- The early returns of `encode` on a failed write cannot fire, since every width is a literal in
  range; each write is followed by an assertion of that instead.
- `hide` statements keep function bodies out of proofs that need only their contracts.
- `Render` is not in the source, which has no printer. It lists the seven fields the parser
  expects and the checksum.

Where the code and its documentation disagree the model follows the code:

- The structure line in `include/aislib/sentence.h:19` omits the channel field that the parser
  requires, and line 66 calls the start character optional, which it is not.
- `parse` also returns MultipartCountInvalid, MultipartSeqInvalid, PayloadEmpty and
  PayloadFillBitsInvalid, which `include/aislib/sentence.h:74-76` does not list, and `feed` also
  returns MultipartTalkerConflict, which lines 249-254 do not list.
- `parse_hex8` accepts lower-case digits, although its comment says upper case.
- The comment at `src/core/bitfield.cpp:235` says that 63 maps to '_'; it maps to '?'.
- `include/aislib/messages/msg05.h:47-48` and line 86 document 424 content bits and 2 spare bits,
  426 in all; the code writes 423 content bits and 2 spare bits, 425 in all, and sends 426.
- PayloadTooShort is documented as "shorter than required", but the check counts whole bytes;
  `Codec.DecodingOutcome` and `Codec.LengthCheckIsByteGranular` say exactly which short payloads
  pass, and `Codec.ShortPayloadDecodes` gives one.
- `include/aislib/messages/msg24.h:156-161` says that `mothership_mmsi()` is non-zero for auxiliary
  craft, but every decoded report has 0 there (`Msg24.MothershipIsZero`).
- `feed` is documented (`include/aislib/sentence.h:236-241`) as returning a message when its
  sequence is complete, but a sequence left unfinished lends its parts to the next message with its
  id (`AssemblerRuns.StalePartIsSpliced`); `AssemblerRuns.DeliveredIffClear` says exactly when that
  message is still delivered whole.

Messages can be built by their decoders only (`include/aislib/messages/msg24.h:49-50` and the
private constructors of all classes). So every message a program can hold is well formed and
survives encoding and decoding (`Codec.HeldMessagesRoundTrip`, `Codec.CanonicalForm`); the "only if"
half of `Codec.RoundTrip` concerns values that no caller can construct.

## Model

| member | source | states |
|---|---|---|
| Pipeline.EndToEnd | src/core/sentence.cpp:130-380 | For every well-formed message of every registered type: cut its payload into 1 to 5 pieces in any way, render each as a sentence, receive the lines in order under a free id. Every line but the last leaves the receiver waiting, the last yields exactly the message when all decoders are registered, and the assembler state is what it was before |
| Pipeline.DeliveredThroughNoise | src/core/sentence.cpp:279-380 | The last part of a well-formed message yields exactly the message and frees its id, whatever came between the earlier parts: other ids, single-part sentences, resends, conflicting parts, lines that do not parse |
| Pipeline.ReceiveLine | README:85-104 | One turn of the documented receiving loop on any assembler and any registry: parse, feed, decode, with the error or message each stage gives; the registry keeps its decoders |
| Pipeline.ReceiveOutcome | README:85-104 | The receiver says that a line does not parse, with exactly the error the string deserves, that the assembler refused it, that it waits, or what the registry makes of the assembled payload; an error leaves the assembler as it was |
| Pipeline.ListenIsRun | src/core/sentence.cpp:130-380 | Lines that do not parse leave no trace in the assembler; the others are a run of it |
| Codec.RoundTrip | src/messages/msg05.cpp:60-249 | For every message of every type (ill-formed ones too): encoding succeeds with 0 fill bits, and registry decoding gives the message back if and only if every value fits its field and the message is one its decoder builds |
| Codec.HeldMessagesRoundTrip | include/aislib/messages/msg24.h:49-50 | Construction is private to the decoders: every message that any of them builds from any buffer is well formed, encodes, and decodes to itself |
| Codec.DecodedMatches | src/messages/msg24.cpp:82-180 | A message that any registered decoder builds from any buffer matches it: the length suffices, the message is of a kind its decoder builds, and each field reads at the sum of the earlier widths |
| Codec.CanonicalForm | src/messages/msg19.cpp:60-264 | Encoding a decoded message gives the payload with every field bit as received, spare bits zero, trailing spaces and @ of each text zero and the exact length; it decodes to the same message |
| Codec.CanonicalIdempotent | src/messages/msg24.cpp:82-239 | Canonicalising twice is canonicalising once |
| Codec.DecodingOutcome | src/core/message.cpp:92-130 | With every decoder registered, decoding fails with exactly the error computed from the characters, the fill count, the length in bytes, the type and the type 24 part number, and otherwise gives a message of the type in the first six bits; no field read ever fails after the length check |
| Codec.TableOutcome | src/core/message.cpp:92-130 | For every table and payload: the payload errors in order, MessageTypeUnknown outside 1..27, MessageTypeUnsupported for an empty slot, and otherwise exactly what the decoder in the slot of the first six bits makes of the packed payload bits |
| Codec.OtherSlotsDoNotMatter | src/core/message.cpp:69-130 | Registering or removing a decoder changes nothing for payloads of other types |
| Codec.EmptyRegistryDecodesNothing | src/core/message.cpp:86-130 | A new or cleared registry decodes no payload |
| Codec.DispatchMatches | src/core/message.cpp:109-129 | Dispatch yields a message if and only if the buffer is long enough, the message is one its decoder builds, and all its fields read at the sum of the widths before them |
| Codec.DecoderOutcome | src/messages/msg24.cpp:82-180 | A registered decoder called for its type fails only for a short payload or a type 24 part number above 1 |
| Codec.OnlyPaddedBitsMatter | src/core/bitfield.cpp:38-40 | Two payloads with the same zero-padded bytes decode alike, whatever their lengths and whatever decoders are registered |
| Codec.LengthCheckIsByteGranular | src/core/bitfield.cpp:38-50 | A payload of n bits passes a k-bit length check exactly when it reaches the byte of the last bit |
| Codec.ShortPayloadDecodes | src/messages/msg10.cpp:28-30 | Concrete input: a 66-bit payload decodes as the 72-bit type 10 |
| Codec.EncodingIs | src/messages/msg05.cpp:180-249 | What every encode sends: its fields, then zeros up to the length; for type 5 the one bit no field writes comes from the padding of the last byte |
| Codec.FieldsEnd | src/messages/msg05.cpp:9 | The fields of every type fill its length, except that type 5 writes 425 of 426 bits; every length is a multiple of 6 |
| Registry.MessageRegistry.Decode | src/core/message.cpp:92-130 | The method computes the registry decoding of its current table |
| Registry.MessageRegistry.RegisterDecoder | src/core/message.cpp:69-79 | Overwrites one slot for ids 1..27, a null function pointer emptying it, and changes nothing for other ids |
| Registry.MessageRegistry.HasDecoder | src/core/message.cpp:81-84 | True exactly for ids 1..27 whose slot is set |
| Registry.MessageRegistry.Clear | src/core/message.cpp:86-90 | Every slot is empty |
| Registry.RegisterAllDecoders | src/registry_init.cpp:24-57 | Each implemented type gets its decoder and every other slot keeps what it had; on a fresh or cleared registry this gives the table with all decoders |
| Registry.Message.Encode | include/aislib/message.h:130-148 | Virtual encode dispatches to the codec of the message |
| Msg1_3.DecodeReadsFields | src/messages/msg1_3.cpp:57-148 | Decoding at the literal offsets gives m if and only if the payload is long enough and each field of m, in the order encode writes them, reads at the sum of the earlier widths |
| Msg1_3.DecodeOutcome | src/messages/msg1_3.cpp:57-148 | Which of short payload, decode failure or success, from the length and the type |
| Msg1_3.PositionReportClassA.Encode | src/messages/msg1_3.cpp:154-208 | The sequence of writes packs the layout of the message and armours it |
| Msg4_11.DecodeReadsFields | src/messages/msg4_11.cpp:51-140 | Decoding at the literal offsets gives m if and only if the payload is long enough and each field of m, in the order encode writes them, reads at the sum of the earlier widths |
| Msg4_11.DecodeOutcome | src/messages/msg4_11.cpp:51-140 | Which of short payload, decode failure or success, from the length and the type |
| Msg4_11.BaseStationReport.Encode | src/messages/msg4_11.cpp:146-200 | The sequence of writes packs the layout of the message and armours it |
| Msg05.DecodeReadsFields | src/messages/msg05.cpp:60-174 | Decoding at the literal offsets gives m if and only if the payload is long enough and each field of m, in the order encode writes them, reads at the sum of the earlier widths |
| Msg05.DecodeOutcome | src/messages/msg05.cpp:60-174 | Which of short payload, decode failure or success, from the length and the type |
| Msg05.StaticAndVoyageData.Encode | src/messages/msg05.cpp:180-249 | The sequence of writes packs the layout of the message and armours it |
| Msg09.DecodeReadsFields | src/messages/msg09.cpp:48-136 | Decoding at the literal offsets gives m if and only if the payload is long enough and each field of m, in the order encode writes them, reads at the sum of the earlier widths |
| Msg09.DecodeOutcome | src/messages/msg09.cpp:48-136 | Which of short payload, decode failure or success, from the length and the type |
| Msg09.SarPositionReport.Encode | src/messages/msg09.cpp:142-197 | The sequence of writes packs the layout of the message and armours it |
| Msg10.DecodeReadsFields | src/messages/msg10.cpp:26-61 | Decoding at the literal offsets gives m if and only if the payload is long enough and each field of m, in the order encode writes them, reads at the sum of the earlier widths |
| Msg10.DecodeOutcome | src/messages/msg10.cpp:26-61 | Which of short payload, decode failure or success, from the length and the type |
| Msg10.UtcDateInquiry.Encode | src/messages/msg10.cpp:67-92 | The sequence of writes packs the layout of the message and armours it |
| Msg18.DecodeReadsFields | src/messages/msg18.cpp:56-164 | Decoding at the literal offsets gives m if and only if the payload is long enough and each field of m, in the order encode writes them, reads at the sum of the earlier widths |
| Msg18.DecodeOutcome | src/messages/msg18.cpp:56-164 | Which of short payload, decode failure or success, from the length and the type |
| Msg18.ClassBPositionReport.Encode | src/messages/msg18.cpp:170-236 | The sequence of writes packs the layout of the message and armours it |
| Msg19.DecodeReadsFields | src/messages/msg19.cpp:60-181 | Decoding at the literal offsets gives m if and only if the payload is long enough and each field of m, in the order encode writes them, reads at the sum of the earlier widths |
| Msg19.DecodeOutcome | src/messages/msg19.cpp:60-181 | Which of short payload, decode failure or success, from the length and the type |
| Msg19.ExtendedClassBPositionReport.Encode | src/messages/msg19.cpp:187-264 | The sequence of writes packs the layout of the message and armours it |
| Msg24.DecodeReadsFields | src/messages/msg24.cpp:82-180 | Decoding at the literal offsets gives m if and only if the payload is long enough and the report is a single part with no mothership and each field of m, in the order encode writes them, reads at the sum of the earlier widths |
| Msg24.DecodeOutcome | src/messages/msg24.cpp:82-180 | Which of short payload, decode failure or success, from the length and the type and the part number |
| Msg24.StaticDataReport.Encode | src/messages/msg24.cpp:186-239 | The sequence of writes packs the layout of the message and armours it |
| Msg27.DecodeReadsFields | src/messages/msg27.cpp:40-108 | Decoding at the literal offsets gives m if and only if the payload is long enough and each field of m, in the order encode writes them, reads at the sum of the earlier widths |
| Msg27.DecodeOutcome | src/messages/msg27.cpp:40-108 | Which of short payload, decode failure or success, from the length and the type |
| Msg27.LongRangeBroadcast.Encode | src/messages/msg27.cpp:114-157 | The sequence of writes packs the layout of the message and armours it |
| Msg24.OtherPartIsEmpty | src/messages/msg24.cpp:48-76 | A decoded report is part 0, with ship type, dimensions and EPFD 0 and vendor and call sign empty, or part 1, with an empty vessel name |
| Msg24.MothershipIsZero | include/aislib/messages/msg24.h:156-161 | Every decoded report has 0 as its mothership number, whatever the payload says, although the accessor is documented as non-zero for auxiliary craft |
| Layouts.ReadBackInLayout | src/core/bitfield.cpp:157-216 | Any field written after any layout reads back at the sum of the earlier widths as its kept value (number modulo 2^width, two's complement, cut and stripped text, flag, raw bits), whatever is appended later |
| Layouts.LayoutReadsBack | src/core/bitfield.cpp:52-119 | A written layout reads back as itself if and only if every value fits its field |
| Layouts.RewriteLayout | src/core/bitfield.cpp:52-216 | A layout that was read fits, and writing it gives the canonical bits of what was read |
| Layouts.ReadBackField | src/core/bitfield.cpp:52-141 | One field of any kind reads back as its kept value |
| Layouts.KeptFixed | src/core/bitfield.cpp:168-199 | A field keeps its value exactly when the value fits |
| Layouts.RewriteField | src/core/bitfield.cpp:52-141 | Writing back a read field reproduces its bits, zeroing spare bits and text padding |
| Layouts.WrapIsTwosComplement | src/core/bitfield.cpp:65-81 | Writing then reading a signed value yields the only value in the signed range congruent to it modulo 2^width |
| Layouts.WrapFixed | src/core/bitfield.cpp:178-184 | A signed value survives exactly when it fits the width |
| Integers.SignExtendValue | src/core/bitfield.cpp:76-80 | Sign extension maps the upper half of the raw range to the negative values |
| BitReaders.UintField | src/core/bitfield.cpp:42-63 | Succeeds exactly for widths 1..64 inside the buffer, with a value below 2^width; otherwise BitfieldWidthInvalid for a bad width and BitfieldOutOfRange for a good one |
| BitReaders.IntField | src/core/bitfield.cpp:65-81 | Succeeds exactly for widths 1..64 inside the buffer, with a value in the signed range; otherwise the same two errors |
| BitReaders.TextField | src/core/bitfield.cpp:91-119 | Succeeds exactly when empty or inside the buffer, and otherwise gives BitfieldOutOfRange |
| BitReaders.BytesField | src/core/bitfield.cpp:121-141 | Succeeds exactly when empty or of at most 64 bits inside the buffer, with as few bytes as hold the bits; otherwise the two errors by the width |
| BitReaders.BitReader.ReadUint | src/core/bitfield.cpp:52-63 | The bit loop computes the unsigned value of the bits, with the bounds errors |
| BitReaders.BitReader.ReadInt | src/core/bitfield.cpp:65-81 | The bit loop and sign extension compute the signed value of the bits |
| BitReaders.BitReader.ReadBool | src/core/bitfield.cpp:83-89 | Reads one bit |
| BitReaders.BitReader.ReadText | src/core/bitfield.cpp:91-119 | The loops compute the characters of the 6-bit groups without trailing padding |
| BitReaders.BitReader.ReadBits | src/core/bitfield.cpp:121-141 | ORing bit by bit gives the packed slice of at most 64 bits |
| BitReaders.BitReader.ReadValue | src/core/bitfield.cpp:58-62 | Shifting in one bit at a time computes the value of the slice |
| BitReaders.OneBitFields | src/core/bitfield.cpp:52-89 | A one-bit unsigned read and a flag read agree |
| BitWriters.BitWriter.constructor | src/core/bitfield.cpp:147-151 | A new writer has written nothing |
| BitWriters.BitWriter.PushBit | src/core/bitfield.cpp:157-166 | ORing into the last byte appends one bit, keeping the buffer the zero-padded packing of the contents |
| BitWriters.BitWriter.WriteUint | src/core/bitfield.cpp:168-176 | Appends the low bits of the value, or nothing and an error for a bad width |
| BitWriters.BitWriter.WriteInt | src/core/bitfield.cpp:178-184 | Appends the two's complement bits, or nothing and an error for a bad width |
| BitWriters.BitWriter.WriteBool | src/core/bitfield.cpp:186-189 | Appends one bit |
| BitWriters.BitWriter.WriteText | src/core/bitfield.cpp:191-199 | Appends the padded 6-bit characters |
| BitWriters.BitWriter.WriteBits | src/core/bitfield.cpp:201-216 | Appends the first bits of a byte buffer, or nothing and an error when the source is short |
| BitWriters.BitWriter.WriteSpare | src/messages/msg19.cpp:201-203 | Spare bits are written as an unsigned zero |
| BitWriters.PackedBytes | src/core/bitfield.cpp:157-166 | The buffer has ceil(n/8) bytes, its first n bits are the contents and its padding bits are zero |
| Bits.PackInPush | src/core/bitfield.cpp:134-139 | One OR into a zero-padded buffer appends one bit to the packed string |
| Bits.OrBitAt | src/core/payload.cpp:91-94 | The in-place OR on an array keeps it the packing of one more bit |
| Bits.UnpackBytes | src/core/bitfield.cpp:25-29 | The bits of a buffer are the binary digits of its bytes in order, the most significant digit first |
| Bits.ByteBitValue | src/core/bitfield.cpp:25-29 | Bit i of a byte is its binary digit of value 2^i |
| Bits.UnpackPackIn | src/core/bitfield.cpp:25-29 | The bits of a packed string are the string followed by zeros |
| Bits.UnpackInjective | src/core/bitfield.cpp:25-29 | Buffers with the same bits are equal |
| Bits.ValueOfUintBits | src/core/bitfield.cpp:172-174 | The value of the written bits is the number modulo 2^width |
| Bits.UintBitsOfValue | src/core/bitfield.cpp:58-62 | Every bit string is the expansion of its value |
| Bits.UintBitAt | src/core/bitfield.cpp:172-174 | Bit i of the expansion is the bit a right shift brings to the end |
| SixBitText.SixAsciiBijection | src/core/bitfield.cpp:226-260 | The 6-bit codec is the bijection between 0..63 and characters 32..95 congruent modulo 64; other characters become ? |
| SixBitText.ReadWrittenText | src/core/bitfield.cpp:91-199 | Reading back a written text gives it cut to the field, unprintable characters replaced, trailing padding removed |
| SixBitText.FieldTextFixed | src/core/bitfield.cpp:91-199 | A text field keeps exactly the printable texts of its length that do not end in padding |
| SixBitText.FieldTextIdempotent | src/core/bitfield.cpp:91-199 | Keeping a text in a field twice is keeping it once |
| SixBitText.RewriteText | src/core/bitfield.cpp:91-199 | Writing back a read text keeps its characters and zeroes its trailing padding |
| SixBitText.StripPad | src/core/bitfield.cpp:112-116 | The longest prefix that does not end in @ or space |
| Payloads.ArmourBijection | src/core/payload.cpp:9-61 | The armour map is the order-preserving bijection between 0..63 and the payload characters 0 to W and backquote to w |
| Payloads.DecodePayload | src/core/payload.cpp:103-143 | The validation loop and the unpacking give the packed significant bits, or the error in the order of the checks |
| Payloads.Decoded | src/core/payload.cpp:103-143 | Succeeds exactly for non-empty payloads of payload characters with at most 5 fill bits; otherwise PayloadEmpty, PayloadFillBitsInvalid or PayloadCharInvalid, in this order |
| Payloads.Encoded | src/core/payload.cpp:149-164 | Succeeds exactly for 1 up to all bits of the buffer; otherwise PayloadEmpty for no bits and PayloadTooShort for a short buffer |
| Payloads.UnpackBits | src/core/payload.cpp:80-97 | The nested loop ORs exactly the significant bits into a zeroed buffer |
| Payloads.EncodePayload | src/core/payload.cpp:149-191 | The nested loop gives the armour of the bits and the fill count, or the error |
| Payloads.DecodeOfEncode | src/core/payload.cpp:103-191 | Decoding an encoded buffer gives its first n bits zero-padded to bytes |
| Payloads.EncodeOfDecode | src/core/payload.cpp:103-191 | Encoding a decoded payload gives the fill count back and the payload with only its fill bits cleared |
| Payloads.ClearFillChanges | src/core/payload.cpp:130-140 | Clearing the fill bits touches at most the last character, and nothing exactly when they are zero already |
| Payloads.PayloadBitsOfArmour | src/core/payload.cpp:149-191 | The bits of an armoured bit string are the bit string |
| Payloads.ArmourOfPayloadBits | src/core/payload.cpp:80-97 | Armouring the bits of a payload gives the payload |
| Payloads.FillFor | src/core/payload.cpp:166-169 | At most 5 bits, rounding up to a multiple of 6 |
| Sentences.ParseIffGrammar | src/core/sentence.cpp:130-273 | A string parses as s if and only if it is a well-formed line (start, comma-separated fields, right checksum, ignored text without *, line ending) whose fields say s |
| Sentences.ParseOutcome | src/core/sentence.cpp:130-273 | Every string is accepted or fails with exactly the error it deserves: the first rule it breaks on emptiness, length, start character, checksum position, checksum (as parities of the characters), number of fields and each field (as decimal numbers in a range) |
| Sentences.FieldsOutcome | src/core/sentence.cpp:194-259 | The same for the fields alone |
| Sentences.FieldsIffDenotes | src/core/sentence.cpp:194-272 | The ordered field checks accept exactly the fields that say a valid sentence |
| Sentences.Parse | src/core/sentence.cpp:130-273 | The parser with its loops computes the specified result, error by error |
| Sentences.ParseFields | src/core/sentence.cpp:194-272 | The field checks with number parsing compute the specified result, error by error |
| Sentences.StripTrailingEol | src/core/sentence.cpp:135-141 | Strips the trailing run of CR and LF, which `StripEol` determines by its contract |
| Sentences.ParseIsValid | src/core/sentence.cpp:130-273 | Every parsed sentence has valid field values |
| Sentences.ParseOfRender | src/core/sentence.cpp:184-191 | Parsing a rendered valid sentence gives it back |
| Sentences.ParseRenderParse | src/core/sentence.cpp:130-273 | Rendering a parsed sentence and parsing again changes nothing |
| Sentences.CorruptByteDetected | src/core/sentence.cpp:153-179 | Changing any byte between the start character and the last * of any accepted string gives exactly SentenceChecksumBad |
| Sentences.ReorderedBytesUndetected | src/core/sentence.cpp:170-179 | Reordering body bytes keeps the checksum right |
| Sentences.LineOf | src/core/sentence.cpp:153-192 | The line an accepted string was cut into |
| Sentences.ParseLine | src/core/sentence.cpp:153-192 | A well-formed line of at least the minimum length parses as its fields, and acceptable fields always reach that length |
| Text.SplitFields | src/core/sentence.cpp:55-66 | The loop computes the fields between delimiters |
| Text.JoinOfSplit | src/core/sentence.cpp:55-66 | Joining split fields gives the string back and no field holds the delimiter |
| Text.SplitOfJoin | src/core/sentence.cpp:55-66 | Splitting joined fields gives the fields back |
| Text.ParseUint8 | src/core/sentence.cpp:76-86 | Accepts exactly non-empty digit strings worth at most 255 and gives their value |
| Text.Uint8IsNumber | src/core/sentence.cpp:76-86 | A field is a number exactly when it is non-empty, of decimal digits, and the sum of each digit times its power of ten is at most 255; that sum is its value |
| Text.ParseHex8 | src/core/sentence.cpp:95-107 | Accepts exactly two hexadecimal digits of either case |
| Text.ComputeChecksum | src/core/sentence.cpp:113-124 | Two upper-case hexadecimal digits of the exclusive or of the bytes, which are the parities of the characters' bits |
| Text.HexValueIs | src/core/sentence.cpp:95-107 | A character has a value exactly when it is a hexadecimal digit in upper or lower case, and the value is the digit |
| Text.XorParity | src/core/sentence.cpp:113-117 | Bit i of the checksum is the parity of the number of characters whose code has the binary digit 2^i |
| Text.ChecksumDigits | src/core/sentence.cpp:118-124 | The first digit stands for the parities of bits 7 to 4, the second for those of bits 3 to 0 |
| Text.OneByteChecksum | src/core/sentence.cpp:113-124 | The checksum of a single byte is the byte, in two hexadecimal digits |
| Text.ChecksumHolds | src/core/sentence.cpp:163-179 | The comparison of checksums accepts exactly the two digits of the parities, in either case |
| Text.Hex8RoundTrip | src/core/sentence.cpp:95-124 | parse_hex8 inverts compute_checksum |
| Text.XorUpdate | src/core/sentence.cpp:113-117 | Changing one character changes the checksum by the difference of the bytes |
| Text.XorPermutation | src/core/sentence.cpp:113-117 | The checksum does not depend on byte order |
| Assembler.SentenceAssembler.Feed | src/core/sentence.cpp:279-380 | State and response are one step of the run of everything fed so far |
| Assembler.SentenceAssembler.Reset | src/core/sentence.cpp:382-384 | Discards all sequences |
| Assembler.SentenceAssembler.PendingCount | src/core/sentence.cpp:386-388 | The number of ids in progress in the run |
| Assembler.SentenceAssembler.constructor | include/aislib/sentence.h:229-233 | An assembler starts with nothing in progress |
| Assembler.ConcatParts | src/core/sentence.cpp:374-376 | The loop concatenates the parts in order |
| Assembler.Step | src/core/sentence.cpp:279-380 | One feed keeps every sequence partial: 2..5 parts, 1 <= received < count, empty slots after the received ones, own-vessel flag matching the type |
| Assembler.Run | include/aislib/sentence.h:273-295 | The invariant holds in every reachable state |
| AssemblerRuns.Interleaving | src/core/sentence.cpp:279-328 | For every run and id: its entry and the replies to its sentences are those of the run restricted to its multi-part sentences and the resets |
| AssemblerRuns.SinglePartIndependent | src/core/sentence.cpp:281-288 | In every state a single-part sentence is delivered with its own payload, fill bits and talker, as own vessel if and only if its type is VDO, and changes nothing |
| AssemblerRuns.RejectionIsAtomic | src/core/sentence.cpp:294-357 | A refused sentence leaves the state unchanged |
| AssemblerRuns.RejectionIsErasable | src/core/sentence.cpp:294-357 | Deleting all refused sentences from any run keeps the final state and every other reply |
| AssemblerRuns.Provenance | src/core/sentence.cpp:302-379 | Every emitted multi-part message is the concatenation of its sources: accepted sentences with indices 1..n in order, same id, count and type, no reset in between; talker from the first, fill bits from the last |
| AssemblerRuns.SourcesDisjoint | src/core/sentence.cpp:359-379 | No sentence serves two messages |
| AssemblerRuns.InProgress | src/core/sentence.cpp:302-366 | In every reachable state the sequence of an id holds exactly the parts accepted since its last emission or reset |
| AssemblerRuns.AcceptedStep | src/core/sentence.cpp:315-379 | What accepting a part does to the sequence it joins, and what it emits |
| AssemblerRuns.Delivery | src/core/sentence.cpp:346-379 | Parts fed in order under a free id, with arbitrary noise in between, are delivered whole by the last one and the id is free again |
| AssemblerRuns.DeliveryFromAnyState | src/core/sentence.cpp:302-379 | Parts 1..n fed in order from any state, among any traffic that does not concern their id, end in exactly this reply and entry: a sequence already open with another count or type refuses the message and stays; otherwise its parts are kept, the parts it lacks are taken, and the last one emits the splice and frees the id |
| AssemblerRuns.DeliveredIffClear | src/core/sentence.cpp:315-379 | From any state, parts fed in order are delivered whole if and only if their id is free or the sequence in progress has the count, type and talker of the message and holds the text of its first parts |
| AssemblerRuns.BeginningIsClear | src/core/sentence.cpp:346-366 | What the first parts of the message itself leave in progress does not stand in its way |
| AssemblerRuns.StalePartIsSpliced | src/core/sentence.cpp:346-379 | Concrete runs that go wrong: after the first part of an abandoned message, the first part of a new message of two parts is refused as a duplicate, its second part is accepted, and a splice of both messages is emitted |
| AssemblerRuns.ResendIsDuplicate | src/core/sentence.cpp:346-352 | A resend of an accepted part is answered as a duplicate and ignored |
| AssemblerRuns.RefusalReasons | src/core/sentence.cpp:315-357 | Which error any sentence with another part count than 1 gets: count outside 2..5, missing id, and then by the sentences accepted before it: count and type against the first part, duplicate exactly when a part with its index was accepted (or for index 0), out of order when it skips ahead or opens nothing |
| AssemblerRuns.IdsInRange | src/core/sentence.cpp:233-236 | Fed with parsed sentences, every id in progress is 0..9 |
| AssemblerRuns.PendingBounded | src/core/sentence.cpp:386-388 | At most ten messages are in progress |
| Conservation.Conserved | src/core/sentence.cpp:302-384 | In every run the accepted parts are those emitted, still held, or dropped by a reset, and so are their payload characters |
| Conservation.ConservedWithoutResets | src/core/sentence.cpp:315-379 | Without resets everything accepted is emitted or still held |
| Conservation.EventBalance | src/core/sentence.cpp:302-384 | One event keeps that balance |

## Left out

- Telling transmitters apart under one id: the assembler does not compare talker or channel across parts; `AssemblerRuns.DeliveredIffClear` says exactly when a message still comes out whole.
- Eviction of stale sequences and keys wider than the sequential id: not implemented in the source.
- `longitude()`, `latitude()` and `altitude_m()` accessors: a sentinel test and a floating-point division.
- Error descriptions, detail strings and `message_type_name`: constant texts; results carry the error code only.
- The registry singleton, heap ownership of messages, thread safety and the debug assertion of `register_decoder`: the registry is an object with a 28-slot table and messages are values.
- `size_t` wrap-around in `offset + width`, reserve hints and moves: offsets are unbounded naturals.
- The OR in sign extension: modelled as a sum, since the bits it sets are clear in the raw field.
- The case in `decode_payload` where the fill bits outnumber all bits: it cannot arise for a non-empty payload and a fill count of at most 5, which the model asserts in its place.
- The parser's `rfind` and `substr` library calls: modelled as functions on sequences.
- Conformance to the tables of ITU-R M.1371-5 beyond what the code implements.
