# bit-io: a verified model of the bit-packing engine

This project models the core of the Java library `bit-io` in Dafny: the
engine that packs unsigned and signed integers, booleans and length-prefixed
byte arrays of any bit width into octets, most significant bit first, and
unpacks them again. It also models the three array-backed byte transports the
engine is fed by or feeds.

- `BitInputs.BitInput` (file `bit_input.dfy`) is the first-generation reader
  `com.github.jinahya.io.BitInput`. It has an eight-slot `flags` register, a
  slot `index` (8 when no octet is cached) and a `count` of the octets pulled.
  Its byte source is a fixed sequence of octets, and the end of that sequence
  plays the part of the `-1` answer. The meaning of the reader is a bit stream
  `Stream()` and a position `Position() = 8 * count + index - 8`. Every read is
  specified by a predicate over that stream (`ReadsUnsigned`, `ReadsSigned`,
  `ReadsBit`, `Skips`, `Fills`, ...): the value of the next `n` bits, or end of
  data with the reader left at the end of the stream.
- `GenericBitInputs.BitInput` (file `generic_bit_input.dfy`) is the
  second-generation reader `com.github.jinahya.io.bit.BitInput<T>`. It has the
  same state machine with a `long` count. Its `readBytes` variants delegate to
  `readBytes(range, value, offset, length)`, so the range, array and bounds
  checks happen after the element count has been consumed.
- `BitOutputs.BitOutput` (file `bit_output.dfy`) is the writer
  `com.github.jinahya.io.BitOutput`. It has a ghost `Written` holding every bit
  written so far. The class invariant says that these bits are the bits of the
  octets pushed followed by the filled register slots. Every write appends
  exactly the low `length` bits of its value, or fails before anything changes.
- `ArrayByteOutputs.ArrayByteOutput`, `ArrayInputs.ArrayInput` and
  `ArrayOutputs.ArrayOutput` are the array transports.
  `ArrayByteOutputs.ChunkedArrayByteOutput` is the chunk-flushing output that
  `ArrayByteOutput.of(stream, length)` builds.
- `RoundTrips` (file `round_trips.dfy`) relates the writer to the readers and
  the transports to each other. A field written and aligned reads back as its
  value. Bytes read back narrowed to their range. The example octet 0xD9 comes
  out as documented. Both aligns are idempotent. Bytes stored through
  `ArrayByteOutput` come back through `ArrayInput` masked to eight bits.

Java exceptions are values here. `Outcomes.Error` names the exception
(`IllegalArgument`, `EndOfFile`, `IllegalState`, `IndexOutOfBounds`,
`NullPointer`, and `NullTarget` for the failure of `requireNonNullTarget`), and
operations answer `Result`/`Outcome`. Java's `int`, `long` and `byte` are
subset types of `int`. Where the source relies on two's complement, the model
writes it out: `>>` is floor halving, `(byte)` and `(int)` casts wrap, and
`& 0xFF` masks. Array stores follow Java's evaluation order (section 15.26.1
of the Java Language Specification). The index expression and the right-hand
side are evaluated before the null and bounds checks. So `source[index++]`
advances `index` even when the access then fails. A `readBytes` element's bits
are consumed before its store falls off the end of the array.

## Model

Paths are relative to the repository root. `io/` stands for `src/main/java/com/github/jinahya/io/`, written out in full below.

| member | source | states |
|---|---|---|
| BitInputs.BitInput.constructor | src/main/java/com/github/jinahya/io/BitInput.java:305-315 | a new reader over a source, with the field initialisers `index = 8` and `count = 0`: nothing cached, nothing pulled, position 0, and the class invariant holds |
| BitInputs.BitInput.PullOctet | src/main/java/com/github/jinahya/io/BitInput.java:327-340 | a refill happens only with `index == 8`; it delivers the next source octet and adds exactly one to `count`, or fails with end of data (count unchanged) once the source is exhausted |
| BitInputs.BitInput.ReadUnsignedByte | src/main/java/com/github/jinahya/io/BitInput.java:352-389 | a length outside 1..8 fails before any octet is pulled; otherwise the result is the next `length` bits of the stream read MSB-first (a value in [0, 2^length)), including across an octet boundary, or end of data; `index` stays in 1..8 |
| BitInputs.BitInput.ReadRegister | src/main/java/com/github/jinahya/io/BitInput.java:375-388 | the recursive split (high chunk from the current octet, low chunk from a fresh one, joined by shift-and-or) reads the same value as one MSB-first read of `length` bits |
| BitInputs.BitInput.Unpack | src/main/java/com/github/jinahya/io/BitInput.java:367-370 | the unpack loop leaves the register holding the octet's eight bits, most significant first |
| BitInputs.BitInput.Extract | src/main/java/com/github/jinahya/io/BitInput.java:382-386 | the extraction loop returns the number the `length` register bits from `index` denote and advances `index` by `length` |
| BitInputs.BitInput.ReadBoolean | src/main/java/com/github/jinahya/io/BitInput.java:400-403 | true exactly when the next bit is 1; end of data otherwise |
| BitInputs.BitInput.IsNull | src/main/java/com/github/jinahya/io/BitInput.java:416-419 | true exactly when the next bit is 0 |
| BitInputs.BitInput.IsNotNull | src/main/java/com/github/jinahya/io/BitInput.java:432-435 | the negation of `isNull`: true exactly when the next bit is 1 |
| BitInputs.BitInput.ReadOctetChunks | src/main/java/com/github/jinahya/io/BitInput.java:462-465 | the 8-bit chunk loop reads the same value as one read of `8 * quotient` bits |
| BitInputs.BitInput.ReadUnsignedShort | src/main/java/com/github/jinahya/io/BitInput.java:447-473 | length outside 1..16 fails before anything is read; otherwise equals one MSB-first read of `length` bits |
| BitInputs.BitInput.ReadShortChunks | src/main/java/com/github/jinahya/io/BitInput.java:501-504 | the 16-bit chunk loop reads the same value as one read of `16 * quotient` bits |
| BitInputs.BitInput.ReadUnsignedInt | src/main/java/com/github/jinahya/io/BitInput.java:486-512 | length outside 1..31 fails before anything is read; otherwise equals one MSB-first read of `length` bits |
| BitInputs.BitInput.ReadInt | src/main/java/com/github/jinahya/io/BitInput.java:524-536 | length outside 2..32 fails; otherwise the sign bit then `length - 1` magnitude bits, sign-extended: `-2^(n-1)*sign + u`, within [-2^(n-1), 2^(n-1)) |
| BitInputs.BitInput.ReadIntChunks | src/main/java/com/github/jinahya/io/BitInput.java:579-582 | the 31-bit chunk loop reads the same value as one read of `31 * quotient` bits |
| BitInputs.BitInput.ReadUnsignedLong | src/main/java/com/github/jinahya/io/BitInput.java:564-590 | length outside 1..63 fails before anything is read; otherwise equals one MSB-first read of `length` bits |
| BitInputs.BitInput.ReadLong | src/main/java/com/github/jinahya/io/BitInput.java:603-616 | length outside 2..64 fails; otherwise the sign-extended `length`-bit value |
| BitInputs.BitInput.Fill | src/main/java/com/github/jinahya/io/BitInput.java:675-677 | the fill loop stores the elements read, cast `(byte)`, from `offset` on and leaves every other slot alone; it stops with end of data, or (after consuming the element) when the store falls past the end of the array |
| BitInputs.BitInput.ReadBytesInto | src/main/java/com/github/jinahya/io/BitInput.java:645-678 | range, null, offset, length and `offset + length` (32-bit sum) checks come before anything is read or stored; then the fill loop |
| BitInputs.BitInput.ReadBytesAt | src/main/java/com/github/jinahya/io/BitInput.java:695-730 | checks before reading; then a `scale`-bit count, answered as the result, and that many elements stored from `offset` with no bounds check beforehand |
| BitInputs.BitInput.ReadBytes | src/main/java/com/github/jinahya/io/BitInput.java:745-771 | bad scale or range fails before reading; otherwise a fresh array whose length is the `scale`-bit prefix and whose elements are the next `range`-bit fields |
| BitInputs.BitInput.ReadDefaultBytes | src/main/java/com/github/jinahya/io/BitInput.java:781-784 | `readBytes()` reads exactly what `readBytes(16, 8)` reads |
| BitInputs.BitInput.Align | src/main/java/com/github/jinahya/io/BitInput.java:831-863 | a length below 1 fails; otherwise discards the register's rest and then whole octets, answering `AlignBits(index, count, L)` bits, after which `index == 8` and `count % L == 0` |
| BitInputs.BitInput.DiscardOctets | src/main/java/com/github/jinahya/io/BitInput.java:857-860 | the discard loop skips `8 * bytes` bits and pulls exactly `bytes` octets |
| BitInputs.BitInput.Close | src/main/java/com/github/jinahya/io/BitInput.java:920-927 | the align part of `close`: the rest of the register is discarded and no further octet pulled |
| BitInputs.BitInput.GetCount | src/main/java/com/github/jinahya/io/BitInput.java:935-938 | answers the number of source octets pulled, no more than the source holds: the bits consumed plus the `8 - index` still unread in the register |
| BitInputs.RegisterThenSource | src/main/java/com/github/jinahya/io/BitInput.java:944-962 | for both readers' fields: the unread bits are the register slots from `index` on followed by the octets not yet pulled |
| BitInputs.AlignOutcome | src/main/java/com/github/jinahya/io/BitInput.java:840-862 | the partial-octet discard followed by the whole-octet discard is a skip of `AlignBits` bits |
| BitInputs.FillsWithinBounds | src/main/java/com/github/jinahya/io/BitInput.java:670-677 | once `offset + length` fits the array the fill loop stores exactly `value[offset..offset+length)` with the decoded elements, or fails with end of data |
| BitInputs.FillsFreshArray | src/main/java/com/github/jinahya/io/BitInput.java:763-767 | filling a fresh array of the count's size is reading the array the count announces |
| BitInputs.StoredStep | src/main/java/com/github/jinahya/io/BitInput.java:675-677 | one store extends the filled window by one element |
| BitInputs.FillsAtEnd | src/main/java/com/github/jinahya/io/BitInput.java:675-677 | running out of data inside element i ends the fill with end of data, the first i elements stored |
| BitInputs.FillsPastEnd | src/main/java/com/github/jinahya/io/BitInput.java:675-677 | an element whose slot is past the array's end is consumed and then fails with IndexOutOfBounds |
| BitInputs.FillsDone | src/main/java/com/github/jinahya/io/BitInput.java:675-677 | a loop that stored every element passes |
| GenericBitInputs.BitInput.constructor | src/main/java/com/github/jinahya/io/bit/BitInput.java:40-45 | a new reader over a source, with `index` 8 and `count` 0 from the field initialisers: nothing cached, nothing pulled, position 0, and the class invariant holds |
| GenericBitInputs.BitInput.PullOctet | src/main/java/com/github/jinahya/io/bit/BitInput.java:57-67 | `readUnsignedByte()`: a -1 from the source is end of data; otherwise one octet and `count` up by exactly one |
| GenericBitInputs.BitInput.ReadUnsignedByte | src/main/java/com/github/jinahya/io/bit/BitInput.java:79-116 | length outside 1..8 fails before pulling; otherwise the next `length` bits MSB-first, in [0, 2^length) |
| GenericBitInputs.BitInput.ReadRegister | src/main/java/com/github/jinahya/io/bit/BitInput.java:101-115 | the recursive split reads the same value as one read of `length` bits |
| GenericBitInputs.BitInput.Unpack | src/main/java/com/github/jinahya/io/bit/BitInput.java:94-97 | the register holds the octet's bits, most significant first |
| GenericBitInputs.BitInput.Extract | src/main/java/com/github/jinahya/io/bit/BitInput.java:109-113 | the extraction loop returns the number the register bits denote |
| GenericBitInputs.BitInput.ReadBoolean | src/main/java/com/github/jinahya/io/bit/BitInput.java:127-130 | true exactly when the next bit is 1 |
| GenericBitInputs.BitInput.IsNull | src/main/java/com/github/jinahya/io/bit/BitInput.java:143-146 | true exactly when the next bit is 0 |
| GenericBitInputs.BitInput.IsNotNull | src/main/java/com/github/jinahya/io/bit/BitInput.java:159-162 | true exactly when the next bit is 1 |
| GenericBitInputs.BitInput.ReadOctetChunks | src/main/java/com/github/jinahya/io/bit/BitInput.java:190-193 | 8-bit chunks read as one field |
| GenericBitInputs.BitInput.ReadUnsignedShort | src/main/java/com/github/jinahya/io/bit/BitInput.java:175-201 | length outside 1..16 fails first; otherwise one MSB-first field |
| GenericBitInputs.BitInput.ReadShortChunks | src/main/java/com/github/jinahya/io/bit/BitInput.java:229-232 | 16-bit chunks read as one field |
| GenericBitInputs.BitInput.ReadUnsignedInt | src/main/java/com/github/jinahya/io/bit/BitInput.java:214-240 | length outside 1..31 fails first; otherwise one MSB-first field |
| GenericBitInputs.BitInput.ReadInt | src/main/java/com/github/jinahya/io/bit/BitInput.java:252-264 | length outside 2..32 fails; otherwise sign-extended and within the signed range |
| GenericBitInputs.BitInput.ReadIntChunks | src/main/java/com/github/jinahya/io/bit/BitInput.java:307-310 | 31-bit chunks read as one field |
| GenericBitInputs.BitInput.ReadUnsignedLong | src/main/java/com/github/jinahya/io/bit/BitInput.java:292-318 | length outside 1..63 fails first; otherwise one MSB-first field built from 31-bit chunks |
| GenericBitInputs.BitInput.ReadLong | src/main/java/com/github/jinahya/io/bit/BitInput.java:331-344 | length outside 2..64 fails; otherwise sign-extended and within the signed range |
| GenericBitInputs.BitInput.Fill | src/main/java/com/github/jinahya/io/bit/BitInput.java:403-405 | fills the window from `offset` with the elements read and touches no other slot |
| GenericBitInputs.BitInput.ReadBytesInto | src/main/java/com/github/jinahya/io/bit/BitInput.java:373-406 | all argument checks, including the 32-bit `offset + length <= value.length`, precede any read; then the fill loop |
| GenericBitInputs.BitInput.ReadBytesAt | src/main/java/com/github/jinahya/io/bit/BitInput.java:424-441 | a bad scale fails first; otherwise the count is read and answered, and only then are range, null, offset and bounds checked |
| GenericBitInputs.BitInput.ReadBytes | src/main/java/com/github/jinahya/io/bit/BitInput.java:456-472 | the count is read before the range is checked; with a valid range, a fresh array of the announced length holding the decoded elements |
| GenericBitInputs.BitInput.Align | src/main/java/com/github/jinahya/io/bit/BitInput.java:518-550 | `align(short)`: a length below 1 fails; otherwise discards `AlignBits` bits, leaving `index == 8` and `count % L == 0` |
| GenericBitInputs.BitInput.DiscardOctets | src/main/java/com/github/jinahya/io/bit/BitInput.java:544-547 | the discard loop skips exactly `bytes` octets |
| GenericBitInputs.BitInput.Close | src/main/java/com/github/jinahya/io/bit/BitInput.java:575-580 | the align part of `close` |
| GenericBitInputs.BitInput.GetCount | src/main/java/com/github/jinahya/io/bit/BitInput.java:588-591 | answers the number of source octets pulled, no more than the source holds: the bits consumed plus the `8 - index` still unread in the register |
| GenericBitInputs.CountBound | src/main/java/com/github/jinahya/io/bit/BitInput.java:436 | a count of at most 16 bits is below 2^16, so `offset + count` cannot wrap for small offsets |
| GenericBitInputs.CountThenChecksHolds | src/main/java/com/github/jinahya/io/bit/BitInput.java:436-440 | a count read followed by the delegated call is what `readBytes(scale, range, value, offset)` promises |
| GenericBitInputs.FreshArrayChecks | src/main/java/com/github/jinahya/io/bit/BitInput.java:466-471 | delegating with a fresh array of the count's size reads the array the count announces |
| GenericBitInputs.DelegationAgrees | src/main/java/com/github/jinahya/io/bit/BitInput.java:424-441 | when the announced count fits the array after `offset`, the delegating reader does exactly what the first generation's `readBytes(scale, range, value, offset)` does (both directions) |
| GenericBitInputs.LateRejection | src/main/java/com/github/jinahya/io/bit/BitInput.java:397-401 | when it does not fit, the count's bits are consumed, nothing is stored and the call fails with IllegalArgument |
| BitOutputs.BitOutput.constructor | src/main/java/com/github/jinahya/io/BitOutput.java:310-319 | a fresh writer has written nothing: `index == 0`, `count == 0` |
| BitOutputs.BitOutput.PushOctet | src/main/java/com/github/jinahya/io/BitOutput.java:330-341 | `octet(value)` hands one octet to the byte output and adds one to `count` |
| BitOutputs.BitOutput.WriteUnsignedByte | src/main/java/com/github/jinahya/io/BitOutput.java:353-394 | a length outside 1..8 fails before any state changes; otherwise exactly the low `length` bits of `value` are appended, and `8 * count + index` grows by `length` |
| BitOutputs.BitOutput.Deposit | src/main/java/com/github/jinahya/io/BitOutput.java:376-393 | bits that fit the register are spliced in; an octet is pushed exactly when `index` reaches 8, and `index` is then reset to 0 |
| BitOutputs.BitOutput.Splice | src/main/java/com/github/jinahya/io/BitOutput.java:377-381 | the splice loop puts the low `length` bits of `value` into slots `index..index+length`, leaving the slots before untouched |
| BitOutputs.BitOutput.Pack | src/main/java/com/github/jinahya/io/BitOutput.java:385-390 | the pack loop returns the octet whose bits, MSB first, are the register |
| BitOutputs.BitOutput.BitAccounting | src/main/java/com/github/jinahya/io/BitOutput.java:382-393 | every bit written is counted: `8 * count + index` is the number of bits written, and `index == 0` exactly when that number is a multiple of 8 |
| BitOutputs.BitOutput.WriteBoolean | src/main/java/com/github/jinahya/io/BitOutput.java:405-408 | appends one bit, set exactly for `true` |
| BitOutputs.BitOutput.WriteUnsignedShort | src/main/java/com/github/jinahya/io/BitOutput.java:420-441 | a length outside 1..16 fails first; otherwise appends the low `length` bits of `value`, high chunk first |
| BitOutputs.BitOutput.WriteOctetChunks | src/main/java/com/github/jinahya/io/BitOutput.java:438-440 | the 8-bit chunk loop appends the low `8 * quotient` bits |
| BitOutputs.BitOutput.WriteUnsignedInt | src/main/java/com/github/jinahya/io/BitOutput.java:453-479 | passes exactly for length in 1..31 and `0 <= value < 2^length` (`value >> length == 0`, which excludes every negative value); a failure changes nothing; a pass appends the `length`-bit field |
| BitOutputs.BitOutput.WriteInt | src/main/java/com/github/jinahya/io/BitOutput.java:491-527 | passes exactly for length in 2..32 and value in [-2^(n-1), 2^(n-1)); appends the low `length` bits of the two's complement |
| BitOutputs.BitOutput.WriteShortChunks | src/main/java/com/github/jinahya/io/BitOutput.java:569-576 | remainder first, then 16-bit chunks: the low `length` bits of a long, through the `(int)` cast |
| BitOutputs.BitOutput.WriteShorts | src/main/java/com/github/jinahya/io/BitOutput.java:575-577 | the 16-bit chunk loop appends the low `16 * quotient` bits |
| BitOutputs.BitOutput.WriteUnsignedLong | src/main/java/com/github/jinahya/io/BitOutput.java:552-578 | passes exactly for length in 1..63 and `0 <= value < 2^length`; failure changes nothing |
| BitOutputs.BitOutput.WriteLong | src/main/java/com/github/jinahya/io/BitOutput.java:590-627 | passes exactly for length in 2..64 and value in the signed range; appends the two's complement field |
| BitOutputs.BitOutput.WriteBytes | src/main/java/com/github/jinahya/io/BitOutput.java:653-687 | scale, range, null and `length >= 2^scale` are rejected before anything is written; otherwise the length in `scale` bits, then the low `range` bits of each element in order |
| BitOutputs.BitOutput.Align | src/main/java/com/github/jinahya/io/BitOutput.java:743-775 | a length below 1 fails; otherwise appends `PadBits(index, count, L)` zero bits, the register's rest then zero octets, after which `index == 0` and `count % L == 0`; the answer is that number of bits as the Java `int` sum holds it, `(int) PadBits(...)`, which wraps past 2^31 - 1 |
| BitOutputs.BitOutput.PadOctets | src/main/java/com/github/jinahya/io/BitOutput.java:769-772 | the padding loop appends `8 * bytes` zero bits, pushes exactly `bytes` octets, and leaves the int `bits` at `(int) (start + 8 * bytes)` however often `bits += 8` wrapped |
| BitOutputs.AlignAnswerWraps | src/main/java/com/github/jinahya/io/BitOutput.java:749-775 | after one octet pushed, `align(2^30)` pads 2^33 - 8 bits and answers -8 |
| BitOutputs.BitOutput.AlignOctet | src/main/java/com/github/jinahya/io/BitOutput.java:785-788 | `align()` pads the register's rest with zeros |
| BitOutputs.BitOutput.Close | src/main/java/com/github/jinahya/io/BitOutput.java:797-804 | the align part of `close` |
| BitOutputs.BitOutput.GetCount | src/main/java/com/github/jinahya/io/BitOutput.java:812-815 | answers the number of octets pushed to the byte output, which with the register slots filled accounts for every bit written (`8 * c + index == |Written|`) |
| BitOutputs.PadBits | src/main/java/com/github/jinahya/io/BitOutput.java:749-774 | the padding ends on an octet boundary, is below `8 * L` bits, and is 0 for an already aligned writer, so a repeated align pads nothing |
| Bits.FromBitsBound | src/main/java/com/github/jinahya/io/BitInput.java:382-388 | an n-bit field is below 2^n |
| Bits.FieldBound | src/main/java/com/github/jinahya/io/BitInput.java:352-389 | a value read with `length` bits lies in [0, 2^length) |
| Bits.FieldFromBits | src/main/java/com/github/jinahya/io/BitInput.java:382-388 | a field at a position is the number its bits denote |
| Bits.FieldSplit | src/main/java/com/github/jinahya/io/BitInput.java:378-379 | a field of a + b bits is its first a bits shifted left by b, or-ed with the last b bits |
| Bits.FieldCongruent | src/main/java/com/github/jinahya/io/BitInput.java:382-386 | the register and the stream agree bit for bit, so the extraction loop reads the stream's field |
| Bits.ReadsConcat | src/main/java/com/github/jinahya/io/BitInput.java:378-379 | a read of a bits then b bits, joined by shift-and-or, is a read of a + b bits, also when one part hits end of data |
| Bits.ReadsChunk | src/main/java/com/github/jinahya/io/BitInput.java:462-465 | one more chunk extends an accumulated chunked read, or ends the whole read with end of data |
| Bits.ReadsTail | src/main/java/com/github/jinahya/io/BitInput.java:467-470 | the remainder read completes a chunked read |
| Bits.ReadsWhole | src/main/java/com/github/jinahya/io/BitInput.java:472 | a chunked read without remainder is the whole read |
| Bits.ReadsBitUnsigned | src/main/java/com/github/jinahya/io/BitInput.java:400-403 | a one-bit read is true exactly when the bit is set, and its value is 0 or 1 |
| Bits.ReadsSignedConcat | src/main/java/com/github/jinahya/io/BitInput.java:534-535 | a sign bit shifted by `n - 1`, or-ed with `n - 1` magnitude bits, is the sign-extended n-bit field |
| Bits.SignedFieldValue | src/main/java/com/github/jinahya/io/BitInput.java:534-535 | the signed field is the two's complement number its bits denote |
| Bits.SignedField | src/main/java/com/github/jinahya/io/BitInput.java:524-536 | a signed n-bit field lies in [-2^(n-1), 2^(n-1)) |
| Bits.SignedValue | src/main/java/com/github/jinahya/io/BitInput.java:524-536 | a sign-extended bit string lies in the signed range of its width |
| Bits.ShrZeroIff | src/main/java/com/github/jinahya/io/BitOutput.java:463-466 | `v >> n == 0` exactly when v is an unsigned n-bit value |
| Bits.ShrMinusOneIff | src/main/java/com/github/jinahya/io/BitOutput.java:502-507 | `v >> n == ~0` exactly when v is negative and at least -2^n |
| Bits.ShrPositiveIff | src/main/java/com/github/jinahya/io/BitOutput.java:674-678 | for a non-negative length, `length >> scale > 0` exactly when it needs more than `scale` bits |
| Bits.ShrInt | src/main/java/com/github/jinahya/io/BitOutput.java:434-439 | `value >> k` on an int, for the distances below 32 the writer uses, is value divided by 2^k rounded down and stays an int |
| Bits.ShrIsDivision | src/main/java/com/github/jinahya/io/BitOutput.java:434-439 | shifting right k times is dividing by 2^k, rounding toward negative infinity |
| Bits.ToInt32 | src/main/java/com/github/jinahya/io/BitOutput.java:572 | `(int) v` is congruent to v modulo 2^32 and equals v when v fits an int |
| Bits.WrapAdd | src/main/java/com/github/jinahya/io/BitOutput.java:771 | adding to an int that has wrapped gives the wrap of the exact sum, so `bits += 8` keeps `bits == (int) total` |
| Bits.ToBitsAt | src/main/java/com/github/jinahya/io/BitOutput.java:377-381 | bit j from the right of a field is bit 0 of `v >> j` (the `& 0x01` then `>>= 1` of the splice and unpack loops) |
| Bits.ToBitsSplit | src/main/java/com/github/jinahya/io/BitOutput.java:370-374 | a field of n bits is its high n - k bits, `v >> k`, followed by its low k bits: the writer's split |
| Bits.ToBitsChunk | src/main/java/com/github/jinahya/io/BitOutput.java:438-440 | chunked writing from the top down appends the field a chunk at a time |
| Bits.ChunkStep | src/main/java/com/github/jinahya/io/BitOutput.java:438-440 | one chunk written after the higher ones extends the written field |
| Bits.ToBitsCongruent | src/main/java/com/github/jinahya/io/BitOutput.java:353-394 | only the low `length` bits of `value` matter to what is written |
| Bits.ZerosAppend | src/main/java/com/github/jinahya/io/BitOutput.java:769-772 | zero padding of a bits followed by b bits is a + b zero bits |
| Bits.ZerosStep | src/main/java/com/github/jinahya/io/BitOutput.java:751-772 | the partial-octet padding followed by the octet padding is one run of zeros |
| Bits.FromBitsToBits | src/main/java/com/github/jinahya/io/BitOutput.java:453-479 | an unsigned n-bit value survives being written as n bits and read back |
| Bits.FromBitsToBitsNegative | src/main/java/com/github/jinahya/io/BitOutput.java:491-527 | a negative value at least -2^n reads back as its n-bit two's complement |
| Bits.ToBitsFromBits | src/main/java/com/github/jinahya/io/BitInput.java:382-388 | every bit string is the field of the number it denotes |
| Bits.FromBitsAppend | src/main/java/com/github/jinahya/io/BitInput.java:378-379 | concatenating bit strings is shift-and-or of their numbers |
| Bits.SignedRoundTrip | src/main/java/com/github/jinahya/io/BitOutput.java:491-527 | a signed n-bit value survives its two's complement field, read sign-extended |
| Bits.StreamBitsAppend | src/main/java/com/github/jinahya/io/BitOutput.java:330-341 | pushing an octet appends its eight bits to the stream |
| Bits.StreamBitsSplit | src/main/java/com/github/jinahya/io/BitInput.java:327-340 | the stream of the source splits where the octets pulled end |
| Bits.OctetInStream | src/main/java/com/github/jinahya/io/BitInput.java:363-370 | octet j occupies bits 8j..8j+8 of the stream |
| Bits.OctetField | src/main/java/com/github/jinahya/io/BitInput.java:364-366 | an aligned 8-bit read answers the octet itself |
| Bits.OctetRoundTrip | src/main/java/com/github/jinahya/io/BitOutput.java:385-390 | packing an octet's bits gives back the octet |
| Bits.CastKeepsLowBits | src/main/java/com/github/jinahya/io/BitOutput.java:571-576 | `(int)` keeps the low bits, so a chunk of a long is written unchanged |
| Bits.ToInt8 | src/main/java/com/github/jinahya/io/BitInput.java:676 | `(byte) v` is congruent to v modulo 256 and equals v on 0..127 |
| Bits.Unsigned8 | src/main/java/com/github/jinahya/bit/io/ArrayInput.java:47 | `b & 0xFF` is the octet congruent to b modulo 256 |
| Bits.MaskAfterCast | src/main/java/com/github/jinahya/bit/io/ArrayInput.java:47 | a byte stored with `(byte) v` and read with `& 0xFF` is v modulo 256 |
| Bits.Masked | src/main/java/com/github/jinahya/bit/io/ArrayInput.java:47 | bytes as handed out: each masked to 0..255, element for element |
| Bits.StoreAll | src/main/java/com/github/jinahya/bit/io/ArrayByteOutput.java:98 | storing values from a slot on changes those slots to the values cast `(byte)` and no other slot |
| Bits.StoreAllThenMore | src/main/java/com/github/jinahya/bit/io/ArrayByteOutput.java:92-100 | consecutive stores compose: storing vs then ws right after is storing vs + ws |
| Bits.BytesBitsStep | src/main/java/com/github/jinahya/io/BitOutput.java:684-686 | writing one more element appends its low `range` bits |
| Bits.DecodeBytesAt | src/main/java/com/github/jinahya/io/BitInput.java:765-767 | element j of a decoded array is the j-th `range`-bit field cast `(byte)` |
| Bits.DecodeBytesBound | src/main/java/com/github/jinahya/io/BitInput.java:765-767 | every element read with `range` bits is below 2^range once masked with 0xFF |
| Bits.ByteRoundTrip | src/main/java/com/github/jinahya/io/BitOutput.java:684-686 | a byte survives its 8-bit field and the `(byte)` cast |
| Bits.NarrowedFull | src/main/java/com/github/jinahya/io/BitOutput.java:684-686 | with a range of 8 narrowing changes nothing |
| Bits.BytesRoundTrip | src/main/java/com/github/jinahya/io/BitInput.java:765-767 | the element fields `writeBytes` emits read back as the elements narrowed to `range` bits, wherever they sit in a stream |
| Bits.AlignOctets | src/main/java/com/github/jinahya/io/BitInput.java:845-855 | the octets an align moves past make `count` a multiple of L, and are fewer than L |
| ArrayByteOutputs.ArrayByteOutput.constructor | src/main/java/com/github/jinahya/bit/io/ArrayByteOutput.java:72-76 | the target, index and limit given |
| ArrayByteOutputs.ArrayByteOutput.Write | src/main/java/com/github/jinahya/bit/io/ArrayByteOutput.java:92-100 | `index >= limit` fails with IllegalState exactly, with target and index unchanged; otherwise `target[index] = (byte) value` and index up by one, or NullPointer / IndexOutOfBounds with nothing changed; `limit` and every other slot never change |
| ArrayByteOutputs.ChunkedArrayByteOutput.constructor | src/main/java/com/github/jinahya/bit/io/ArrayByteOutput.java:46 | the object starts without an array, with index and limit -1 |
| ArrayByteOutputs.ChunkedArrayByteOutput.Write | src/main/java/com/github/jinahya/bit/io/ArrayByteOutput.java:48-59 | the array is allocated at the first write only; every byte written lands, in order, after all earlier ones in `stream + pending`; the stream only ever receives whole arrays; `index < length` between writes |
| ArrayByteOutputs.ChunkedArrayByteOutput.Allocate | src/main/java/com/github/jinahya/bit/io/ArrayByteOutput.java:49-53 | lazy allocation: a fresh `length`-slot array, limit `length`, index 0 |
| ArrayByteOutputs.ChunkedArrayByteOutput.Store | src/main/java/com/github/jinahya/bit/io/ArrayByteOutput.java:54-58 | store through `ArrayByteOutput.write`; a full array is handed to the stream and refilled from 0 |
| ArrayByteOutputs.Of | src/main/java/com/github/jinahya/bit/io/ArrayByteOutput.java:39-61 | fails with IllegalArgument exactly when `length <= 0`; otherwise a fresh output with nothing written |
| ArrayInputs.ArrayInput.constructor | src/main/java/com/github/jinahya/bit/io/ArrayInput.java:31-37 | the source, index and limit given |
| ArrayInputs.ArrayInput.ReadUnsignedByte | src/main/java/com/github/jinahya/bit/io/ArrayInput.java:41-48 | `index >= limit` fails with IndexOutOfBounds, index unchanged; otherwise index up by one and `source[index] & 0xFF`, a value in 0..255, or a null/bounds failure after the increment; `source` and `limit` never change |
| ArrayOutputs.ArrayOutput.constructor | src/main/java/com/github/jinahya/io/bit/ArrayOutput.java:31-36 | the target and offset given; `length` starts at 0 |
| ArrayOutputs.ArrayOutput.GetOffset | src/main/java/com/github/jinahya/io/bit/ArrayOutput.java:39-42 | answers the offset |
| ArrayOutputs.ArrayOutput.SetOffset | src/main/java/com/github/jinahya/io/bit/ArrayOutput.java:45-48 | the only way the offset changes |
| ArrayOutputs.ArrayOutput.GetLength | src/main/java/com/github/jinahya/io/bit/ArrayOutput.java:51-54 | answers `length`, which only `writeUnsignedByte` changes, once per non-null write |
| ArrayOutputs.ArrayOutput.WriteUnsignedByte | src/main/java/com/github/jinahya/io/bit/ArrayOutput.java:58-61 | a null target fails before `length` changes; otherwise `length` is incremented (32-bit) before the bounds check, and `(byte) value` lands at `offset + length` with no other slot touched, or IndexOutOfBounds with the array unchanged |
| RoundTrips.UnsignedFieldRoundTrip | src/main/java/com/github/jinahya/io/BitOutput.java:453-479 | an unsigned n-bit field written anywhere in a stream reads back as its value |
| RoundTrips.SignedFieldRoundTrip | src/main/java/com/github/jinahya/io/BitOutput.java:491-527 | a signed n-bit field written anywhere reads back, sign-extended, as its value |
| RoundTrips.AlignAgrees | src/main/java/com/github/jinahya/io/BitOutput.java:743-775 | a writer and a reader at the same bit position agree on alignment: the reader's `align(L)` discards exactly the bits the writer's pads with |
| RoundTrips.Emitted | src/main/java/com/github/jinahya/io/BitOutput.java:785-788 | once aligned, the octets pushed carry every bit written |
| RoundTrips.UnsignedIntRoundTrip | src/main/java/com/github/jinahya/io/BitOutput.java:453-479 | `writeUnsignedInt(n, v)` then `align()`, read with `readUnsignedInt(n)`, gives v for every valid v |
| RoundTrips.IntRoundTrip | src/main/java/com/github/jinahya/io/BitOutput.java:491-527 | `writeInt(n, v)` then `align()`, read with `readInt(n)`, gives v for every valid v |
| RoundTrips.UnsignedLongRoundTrip | src/main/java/com/github/jinahya/io/BitOutput.java:552-578 | the same for `writeUnsignedLong` and `readUnsignedLong` |
| RoundTrips.LongRoundTrip | src/main/java/com/github/jinahya/io/BitOutput.java:590-627 | the same for `writeLong` and `readLong` |
| RoundTrips.BytesRoundTrip | src/main/java/com/github/jinahya/io/BitOutput.java:653-687 | `writeBytes(scale, range, a)`, read with `readBytes(scale, range)`, gives a with each element narrowed to `range` bits, and a itself for range 8 |
| RoundTrips.WriteBytesAligned | src/main/java/com/github/jinahya/io/BitOutput.java:653-687 | the octets `writeBytes(scale, range, a)` and `align(1)` push carry the `scale`-bit count, then each element's low `range` bits, then fewer than 8 zero bits |
| RoundTrips.StreamLayout | src/main/java/com/github/jinahya/io/BitInput.java:745-771 | in that stream the first `scale` bits read as the element count, and the fields after them decode to the narrowed elements |
| RoundTrips.CountAtFront | src/main/java/com/github/jinahya/io/BitInput.java:763 | the count written first is the value of the first `scale` bits |
| RoundTrips.ReadsWholeArray | src/main/java/com/github/jinahya/io/BitInput.java:763-769 | a byte-array read whose count and elements are known answers those elements |
| RoundTrips.PackedOctet | src/main/java/com/github/jinahya/io/BitOutput.java:377-393 | `writeBoolean(true)`, `writeUnsignedInt(3, 5)`, `writeUnsignedInt(4, 9)` push the single octet 0xD9 and leave `index == 0` |
| RoundTrips.SingleOctet | src/main/java/com/github/jinahya/io/BitOutput.java:383-393 | octets carrying those eight bits are exactly [0xD9] |
| RoundTrips.PackedValue | src/main/java/com/github/jinahya/io/BitOutput.java:385-390 | the eight bits pack to 0xD9 |
| RoundTrips.OutputAlignTwice | src/main/java/com/github/jinahya/io/BitOutput.java:743-775 | a second `align(L)` right after the first pads nothing |
| RoundTrips.InputAlignTwice | src/main/java/com/github/jinahya/io/BitInput.java:831-863 | a second `align(L)` right after a successful one discards nothing |
| RoundTrips.GenericInputAlignTwice | src/main/java/com/github/jinahya/io/bit/BitInput.java:518-550 | the same for the generic reader |
| RoundTrips.ArrayRoundTrip | src/main/java/com/github/jinahya/bit/io/ArrayInput.java:41-48 | values written through `ArrayByteOutput.write` and read back through `ArrayInput.readUnsignedByte` over the same array come back modulo 256 |
| RoundTrips.WriteAll | src/main/java/com/github/jinahya/bit/io/ArrayByteOutput.java:92-100 | k successful writes from index i leave slots i..i+k holding the k values cast `(byte)`, in order, and index i + k |
| RoundTrips.ReadAll | src/main/java/com/github/jinahya/bit/io/ArrayInput.java:41-48 | k successful reads from index i return `source[i..i+k)` masked to 0..255, in order |

## Left out

- The nested byte sources and sinks of both engines (`StreamInput`, `BufferInput`, `ChannelInput`, `StreamOutput`, `BufferOutput`, `ChannelOutput`) are thin I/O wrappers. The reader's source is a fixed octet sequence whose end stands for `-1`. The writer's sink is the sequence `output` of octets pushed. I/O errors are not modelled.
- `close()` of the byte source or sink: only the `align` part of `close` is modelled.
- `readFloat`/`readDouble`/`writeFloat`/`writeDouble` are floating point. `readString`/`writeString`/`readUsAsciiString`/`writeUsAsciiString` are charset library calls. Only the `readBytes`/`writeBytes` framing under them is modelled.
- `count` is a `nat` in both readers and in the writer, so Java `int` overflow of the count is not modelled. The negative-remainder branches of the aligns (`bytes = 0 - bytes`) are then unreachable.
- The writer's direct-write branch for `index == 8 && length == 8` is not modelled. Between calls `index` is in 0..7 (`BitOutputs.BitOutput.Valid`), so that branch is never taken.
- BitInputs.BitInput.Align: the first-generation reader's `align(int)` (which answers a `long`) and `align(short)` do the same thing for every positive length, so they are modelled by one method taking an unbounded length.
- The writer's commented-out null check of `output` and the readers' null `input` are not modelled: source and sink are always present.
- ArrayByteOutputs.Of: a null `stream` (a NullPointerException before the length check) and exceptions thrown by `stream.write` are not modelled. The stream is the sequence of bytes it has received.
- The getters, setters and fluent setters of `ArrayByteOutput` (`getIndex`, `setIndex`, `getLimit`, `setLimit`, `target`, `index`, `limit`) and of `ArrayInput` (`source`, `index`, `limit`) are plain field accesses. `getInput`/`setInput` of the generic reader are not modelled either.
- `AbstractByteInput` only holds the `source` field. `io/bit/AbstractByteOutput` is not part of this model: its `requireNonNullTarget` is modelled as failing with `NullTarget` on a null target and answering the target otherwise.
- RoundTrips.InputAlignTwice and RoundTrips.GenericInputAlignTwice promise nothing about the second align after a first one that ran out of data.
- RoundTrips.UnsignedIntRoundTrip, RoundTrips.IntRoundTrip, RoundTrips.UnsignedLongRoundTrip, RoundTrips.LongRoundTrip and RoundTrips.BytesRoundTrip each state the round trip for one field written alone. For several fields in a row, the writer's `Written` contracts and the readers' position predicates compose field by field, but that composition is not stated as a single lemma.
- RoundTrips.ArrayRoundTrip needs fewer than 2^31 values, because the array length must fit a Java `int`.
