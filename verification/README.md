# Proofs about the C core of libressl, lua-cjson and lua-redis-parser

This project models the algorithmic C files of the OpenResty bundle (libressl 2.6.4, lua-cjson 2.1.0.5,
lua-redis-parser 0.13) in Dafny and proves what they are for. `dafny verify dfyconfig.toml` checks everything.

The model keeps the form of the code. Objects whose fields change are classes, buffers are arrays that are written in
place, and every loop of the source is a loop with its invariants. Each such method is proved against a function or a
predicate that does not mention the loop; the main theorems are then about those, and about whole runs.

## What is modelled

**TLS CBC records** (`MerkleDamgard`, `StreamingHash`, `ConstantTime`, `CbcMac`, `CbcPadding`). A hash is any
compression function with one of the two layouts (64-byte blocks with an 8-byte length, 128 with 16). The streaming
collector computes the digest of the padded message for every split into updates. The constant-time MAC, with masks,
a fixed number of blocks and a secret end, is plain HMAC (section 2 of RFC 2104). Padding removal accepts exactly
the padding of section 6.2.3.2 of RFC 4346, save one byte of the longest padding, and undoes what the sender adds; the
rotated scan finds the MAC. What digest, HMAC and padding are is said once more without the functions of the code.

**Decimal conversion** (`Limbs`, `Bigint`, `BigintMul`, `Quorem`, `Decimals`, `DigitLoops`, `Doubles`, `ScaleDouble`,
`GFmt`, `PrintDecimal`, `DecimalInput`, `Allocator`). Big integers are arrays of 32-bit limbs with a value;
multiplication, division with one correction, shifting, comparison, subtraction and the lazily extended chain of powers
of five are exact. From mantissa and exponent of any positive double the scaling and the shortest-digit loop give the
shortest decimal between the halves of the distances to its neighbours, and of that length the nearest one. For
arbitrary margins the loop alone may carry a nine past a nearer one; when is stated exactly, and no double leads there.
The fixed-digit loop rounds to nearest, ties to even. The text printed fits 32 characters and denotes exactly the
decimal nearest to the double. The free lists never hold a live block.

**DTLS** (`ReplayWindow`, `RecordReader`, `RecordWriter`, `PQueue`, `Flight`, `Reassembly`, `HandshakeMessages`,
`HandshakeReader`, `HandshakeRun`). In every run of a reader no record is handed up twice, across window slides, the
queueing of early records and epoch changes. In every run of a writer no record number repeats, exactly as long as the
48-bit numbers suffice. In every run of a handshake over a network that loses, repeats and reorders records, what comes
out is a prefix of what went in, byte for byte, and both ends hash the same bytes. When the queue of messages gives
out the next one, and that it never does again once a part was left behind in it, is proved too.

**ASN.1 encodings** (`Der`, `Cbs`, `Cbb`, `BuildAndParse`, `Asn1Integer`, `Ber`). Nested builders share one growing
buffer; whatever they write reads back, and flushing fills in lengths from the inside out. Strict parsing accepts exactly
definite lengths in the fewest octets (section 10.1 of X.690). The conversion of indefinite lengths succeeds exactly on
forests within its limits and writes such lengths. What the input denotes is defined apart from the code, for any schema:
segments make one string (sections 8.6.4 and 8.7.3 of X.690), and anything else is the tree of its elements. The output
is what the input denotes exactly if strings, and only strings, are joined, from segments that are primitive, empty or
again of indefinite length, and of a bit string there is one segment with contents. For sequences, sets, strings in
primitive segments and bit strings in one the output is given outright.

**Calendar and text** (`GregorianTime`, `StrBuf`, `Utf8`, `JsonString`, `JsonGrammar`, `RedisProtocol`). The Julian day
algorithm is a bijection between dates and day numbers that follows the calendar, so adjusting a time moves the instant by
exactly the offset. JSON strings and Redis queries survive a round trip, and the tokenizer takes exactly the strings of
section 7 of RFC 8259 and what the code allows beyond it, bare control characters.

`Arithmetic`, `Memory` and `Octets` hold what these share: powers, `memcpy`, and big-endian numbers.

Integers are unbounded and wrap-around is written out where the code relies on it: the bit counter, the sequence
numbers, the limbs, the masks, the epochs.

## Where the code and its promises differ

- `tls1_cbc_remove_padding` looks at 255 bytes at most, so the first of 256 padding bytes is not checked.
  `CbcPadding.UncheckedByte` gives a record; `CbcPadding.AcceptedIsWellPadded` is the exact condition.
- The mask of `constant_time_lt` is the comparison only for operands less than 2^31 apart
  (`ConstantTime.ComparisonsAreExactWithinHalfRange`), and that of `constant_time_eq_8` fails where the exclusive or
  exceeds 2^31 (`ConstantTime.EqualityIsExactForSmallXor`). All uses are within range.
- `satsub64be` is the clamped difference only when the difference is at most 2^64 - 128 either way; sequence numbers of
  48 bits always are.
- A flight that reaches back two epochs is retransmitted under the counter of the current epoch and repeats numbers:
  `RecordWriter.OldFlightRepeats`. With flights of the current and previous epoch numbers repeat exactly if an epoch has
  more than 2^48 records.
- The queue of handshake messages can die. A message that is partly queued and then arrives whole is handed up at once,
  and its entry stays in the queue for good. The queue gives out the next message if and only if that is whole there and
  no such entry was left behind (`HandshakeReader.Receiver.ReadyIff`). Once one was, nothing comes out of the queue
  any more, whatever is sent and arrives, so that a message that is sent in pieces only is never handed up
  (`HandshakeRun.QueueIsDead`). `HandshakeRun.AllComes` is a run that leads there, all of both messages received,
  and `HandshakeRun.LeftBehind` shows that the second one is never handed up then.
- The conversion of indefinite lengths does not always write what the input denotes. `Ber.AllRewrittenIffClean` and
  `Ber.IndefiniteToDefinite` give the exact condition, and these are inputs that fail it:
  - `Ber.NestedFragment`: 24 80 24 03 04 01 AA 00 00 denotes the octet AA and is written as the octets 04 01 AA, since a
    segment of definite length is copied with the header inside it.
  - `Ber.TwoSegments`: 23 80 03 02 00 AA 03 02 00 BB 00 00 denotes the bits AA BB and is written as AA 00 BB, since the
    number of unused bits of each segment is copied.
  - `Ber.ExternalIsNoString`: 28 80 06 01 2A 81 01 AA 00 00 is an EXTERNAL, a sequence, and is written as one string of
    its contents. The same goes for the other universal types that are neither SEQUENCE nor SET nor strings.
  - `Ber.TaggedInteger`: A0 80 02 01 05 00 00 is an integer under an explicit tag and loses its own.
  - `Ber.TaggedString`: A0 80 04 01 AA 00 00 is taken for a string under an implicit tag, which is right if and only if
    the schema says so: the octets do not tell.

  Outside of segments a string of definite length keeps its form, as `bytestring.h`, line 501, says.
- An early packet is marked as received before it is authenticated, where section 4.1.2.5 of RFC 4347 wants the MAC verified
  first. A forgery that is filed under a number makes the genuine packet undeliverable, and only that does
  (`RecordReader.EarlyForgery`).
- The queue of early records waits for one epoch, which advances only when all of its records were processed. Dropping a
  forged one leaves it as it was, so that an authentic packet that is queued next is tried under the wrong keys or not
  at all. With no other packets it is handed up if and only if no forgery came before (`RecordReader.EarlyLost`); by itself
  it waits and is handed up by the first read under its keys (`RecordReader.EarlyWaits`).
- A result of `cmp` for two zeros is not zero if one has no limb and the other has one.

## Model

| member | source | states |
|---|---|---|
| MerkleDamgard.Hash.PaddedLength | libressl-2.6.4/crypto/md32_common.h:277-312 | marker, zeros and length field complete the message to whole blocks, the fewest that hold them |
| MerkleDamgard.Hash.AbsorbAppend | libressl-2.6.4/crypto/md32_common.h:235-263 | compressing whole blocks in two portions is compressing them in one |
| MerkleDamgard.Hash.DigestIs | libressl-2.6.4/crypto/md32_common.h:276-312 | the digest is what the message, a marker 0x80, fewer zeros than a block has bytes, and the length field are compressed to |
| MerkleDamgard.Hash.LengthFieldIs | libressl-2.6.4/crypto/md32_common.h:293-300 | the length field is the number of bits, one byte for each power of 256, in either order |
| MerkleDamgard.Hash.HmacIs | libressl-2.6.4/ssl/s3_cbc.c:521-525 | for any two blocks that are the key with zeros appended once 0x5c and 0x36 are taken off: HMAC is the digest of the first and the digest of the second and the text (RFC 2104 section 2) |
| MerkleDamgard.Hash.TrailingZero | libressl-2.6.4/ssl/s3_cbc.c:521-525 | a zero at the end of a key shorter than a block makes no difference |
| StreamingHash.CounterIsBitCount | libressl-2.6.4/crypto/md32_common.h:226-232 | the two 32-bit counter words, with the carry test of the code, hold eight times the byte count modulo 2^64 after every call |
| StreamingHash.LengthFieldFromWords | libressl-2.6.4/crypto/md32_common.h:293-300 | both byte orders of the counter words are the 64-bit length field of the standard |
| StreamingHash.HashContext.Update | libressl-2.6.4/crypto/md32_common.h:215-267 | whatever was buffered, the state afterwards is that of the longer message: blocks compressed, the rest kept, bits counted |
| StreamingHash.HashContext.Final | libressl-2.6.4/crypto/md32_common.h:276-312 | the output is the digest of the concatenation of all updates, for every way of splitting it; the buffer is cleared |
| StreamingHash.FinalBlocks | libressl-2.6.4/crypto/md32_common.h:279-306 | the one or two blocks made of the buffered tail are the end of the padded message (FIPS 180-4 section 5.1.1, RFC 1321 sections 3.1 and 3.2) |
| ConstantTime.ComparisonsAreExactWithinHalfRange | libressl-2.6.4/ssl/s3_cbc.c:70-90 | the masks of lt and ge are the comparison if and only if the operands are less than 2^31 apart |
| ConstantTime.EqualityIsExactForSmallXor | libressl-2.6.4/ssl/s3_cbc.c:92-102 | the mask of eq_8 is set for equal operands, and wrongly exactly when their exclusive or exceeds 2^31 |
| CbcMac.WindowCovers | libressl-2.6.4/ssl/s3_cbc.c:469-516 | for every MAC end hidden by at most 256 bytes the secret blocks index_a and index_b are among those that the masked loop compresses |
| CbcMac.MaskedByteIsChoice | libressl-2.6.4/ssl/s3_cbc.c:563-591 | the byte that the masks leave is what a chain of secret comparisons would choose |
| CbcMac.FilledBlockIsPadded | libressl-2.6.4/ssl/s3_cbc.c:559-593 | each masked block up to index_b is the next block of the padded HMAC message |
| CbcMac.StartingBlocks | libressl-2.6.4/ssl/s3_cbc.c:543-550 | the public blocks, copied across the boundary of header and data, are the first blocks of that message |
| CbcMac.LengthBytes | libressl-2.6.4/ssl/s3_cbc.c:529-541 | the written length bytes are the length field of the message, big- or little-endian |
| CbcMac.MaskedBlocks | libressl-2.6.4/ssl/s3_cbc.c:552-600 | after all variable blocks mac_out is the inner hash, whatever the blocks after the secret end hold |
| CbcMac.DigestRecord | libressl-2.6.4/ssl/s3_cbc.c:372-621 | for any compression function, header, data and key up to a block: md_out is HMAC of header and data before the MAC (RFC 2104 section 2), and the rest of md_out is untouched |
| CbcPadding.AddPadding | libressl-2.6.4/ssl/d1_enc.c:185-196 | the record grows to whole blocks by bytes that all equal the padding length |
| CbcPadding.PadForIs | libressl-2.6.4/ssl/d1_enc.c:185-196 | the padding is 1 to blockSize bytes, each the number of them less one, and completes a block |
| CbcPadding.RemovePadding | libressl-2.6.4/ssl/s3_cbc.c:115-181 | 0 exactly on records that are publicly too short, 1 exactly when the padding is accepted, and then exactly the padding is cut off and its length recorded in type; the explicit IV is skipped |
| CbcPadding.AcceptedIsWellPadded | libressl-2.6.4/ssl/s3_cbc.c:144-181 | the accepted padding is that of RFC 4346 section 6.2.3.2, if and only if the one byte that is not looked at is right too |
| CbcPadding.WellPaddedIs | libressl-2.6.4/ssl/s3_cbc.c:144-181 | a record is well padded if and only if its last byte n counts n bytes before it that equal it, and a MAC is before them (RFC 4346 section 6.2.3.2) |
| CbcPadding.UncheckedByte | libressl-2.6.4/ssl/s3_cbc.c:154-165 | a record with a wrong first byte of 256 padding bytes is accepted |
| CbcPadding.PaddingRoundTrip | libressl-2.6.4/ssl/d1_enc.c:185-196 | what the sender adds to any record with a MAC is accepted, well-formed, and removed without a byte more or less |
| CbcPadding.SpoilerVanishes | libressl-2.6.4/ssl/s3_cbc.c:232-241 | the multiple of md_size that hides the division does not change the remainder |
| CbcPadding.Scan | libressl-2.6.4/ssl/s3_cbc.c:243-252 | each cell ends up with the one MAC byte that belongs there, whatever else is or-ed over it |
| CbcPadding.CopyMac | libressl-2.6.4/ssl/s3_cbc.c:202-261 | the output is exactly the md_size bytes before the secret end, and nothing past it is written |
| Bigints.Bigint.Balloc | bundle/lua-cjson-2.1.0.5/dtoa.c:542-586 | a class k block has room for 2^k limbs, sign and count cleared |
| Bigints.MultAdd | bundle/lua-cjson-2.1.0.5/dtoa.c:612-667 | the value becomes b * m + a, in place unless a full block needs one limb more; 64-bit intermediate values never overflow |
| Bigints.Cmp | bundle/lua-cjson-2.1.0.5/dtoa.c:1034-1066 | the sign of the result is the order of the values; for equal values it is zero exactly when both or neither has limbs |
| Bigints.Diff | bundle/lua-cjson-2.1.0.5/dtoa.c:1068-1160 | the value is the distance, sign says which operand is smaller, and no borrow is left over |
| Bigints.Lshift | bundle/lua-cjson-2.1.0.5/dtoa.c:974-1032 | for every operand with a limb, zero included: the value is b times 2^k in a block large enough, and without a zero limb on top unless a zero was moved by whole limbs |
| BigintMul.NoOverflow | bundle/lua-cjson-2.1.0.5/dtoa.c:847-857 | a product of limbs with a limb and a carry fits 64 bits and leaves a carry of one limb |
| BigintMul.Mult | bundle/lua-cjson-2.1.0.5/dtoa.c:805-913 | for all operands, without limbs too: the value is the product, the result fits the size class that is allocated for it, and it is in normal form |
| BigintMul.Pow5Chain.Pow5Mult | bundle/lua-cjson-2.1.0.5/dtoa.c:917-972 | the value is b times 5^k for every b, zero included, every k and every state of the chain, whose node i stays 5^(4 * 2^i); nodes once made are never changed |
| Quorems.Hi0Bits | bundle/lua-cjson-2.1.0.5/dtoa.c:707-739 | the result is the number of leading zero bits of a word |
| Quorems.Dshift | bundle/lua-cjson-2.1.0.5/dtoa.c:2106-2117 | shifted by the result, the divisor has exactly four leading zero bits in its top limb |
| Quorems.EstimateIsClose | bundle/lua-cjson-2.1.0.5/dtoa.c:2148-2162 | top(b) / (top(S) + 1) never exceeds the quotient and is at most one short, so that one correction is enough |
| Quorems.SubtractMultiple | bundle/lua-cjson-2.1.0.5/dtoa.c:2163-2190 | a multiple that fits is taken off limb by limb and all borrows cancel |
| Quorems.Quorem | bundle/lua-cjson-2.1.0.5/dtoa.c:2119-2241 | for b < 16 * S and a divisor with four leading zero bits: returns the floor of b / S and leaves the remainder in b, in the weak normal form where zero may have no limb |
| Quorems.DividesIsFloor | bundle/lua-cjson-2.1.0.5/dtoa.c:2119-2241 | quotient and remainder in the sense of that contract are those of integer division, and no others |
| DecimalInput.S2b | bundle/lua-cjson-2.1.0.5/dtoa.c:669-705 | given the value of the first nine digits, the result is the decimal integer of all nd digits, across the point |
| DigitLoops.RoundOff | bundle/lua-cjson-2.1.0.5/dtoa.c:4314-4328 | one unit in the last place is added, nines carry, and a carry out of the front moves the exponent |
| DigitLoops.ShortestDigits | bundle/lua-cjson-2.1.0.5/dtoa.c:4196-4283 | the decimal lies between v - mlo and v + mhi, ends included only for even mantissas; no decimal of fewer digits does; and it is the nearest of its length if and only if not a nine was carried that lies in the interval and nearer |
| DigitLoops.NineCarried | bundle/lua-cjson-2.1.0.5/dtoa.c:4205-4262 | a nine that was carried into ten is the nearest if and only if it was not carried for a tie at the upper end with nine inside and nearer |
| DigitLoops.NineIsNearer | bundle/lua-cjson-2.1.0.5/dtoa.c:4205-4212 | the loop alone, with margins that no double has: a divisor, a numerator of nine and a little more and margins for which nine and ten are in the interval, nine is nearest and ten is not |
| DigitLoops.NineOnlyFirst | bundle/lua-cjson-2.1.0.5/dtoa.c:4245-4268 | a nine is rounded up only as the first digit, since otherwise the loop would have ended before |
| Doubles.NoDoubleMisrounds | bundle/lua-cjson-2.1.0.5/dtoa.c:4181-4268 | for no double is a nine carried past a nearer one: with ten last places or more the margins are narrow, and with fewer the upper end is no power of ten |
| Doubles.NarrowMargins | bundle/lua-cjson-2.1.0.5/dtoa.c:4205-4212 | nor for any number whose upper margin is at most half of a unit |
| Doubles.ShortestIsNearest | bundle/lua-cjson-2.1.0.5/dtoa.c:4196-4283 | the shortest digits of a double are the nearest decimal of their length, without exception |
| ScaleDouble.ScaledAre | bundle/lua-cjson-2.1.0.5/dtoa.c:3844-3862 | the exponents of two and five make numerator and divisor whose quotient is exactly the double in units of 10^k |
| ScaleDouble.Numbers | bundle/lua-cjson-2.1.0.5/dtoa.c:4084-4159 | for every mantissa, exponent and k: with common factors taken off and four leading zeros made, the quotient is still the double in units of 10^k, and numerator and margin are still as mantissa and half of a last place |
| ScaleDouble.AtDecade | bundle/lua-cjson-2.1.0.5/dtoa.c:4160-4168 | an estimate of the decade that is right or one too large is corrected, and the double lies between one and ten units |
| ScaleDouble.BothMargins | bundle/lua-cjson-2.1.0.5/dtoa.c:4181-4194 | the margins are half of the distances to the neighbouring doubles, the lower one halved once more at a power of two |
| ScaleDouble.ShortestOfDouble | bundle/lua-cjson-2.1.0.5/dtoa.c:4084-4283 | for every positive double, denormalized ones and powers of two included: the digits are the shortest decimal between the halves of the distances to its neighbours, ends included for an even mantissa, and of that length the nearest |
| DigitLoops.FixedDigits | bundle/lua-cjson-2.1.0.5/dtoa.c:4284-4329 | at most ilim digits without leading or trailing zero, the decimal nearest to b / S with ties to even, nines carried into k |
| Decimals.RoundedIsNearest | bundle/lua-cjson-2.1.0.5/dtoa.c:4303-4322 | rounding half to even in that sense means that no decimal of as many digits is nearer |
| GFmt.FpconvGFmt | bundle/lua-cjson-2.1.0.5/g_fmt.c:51-111 | text and terminator fit 32 characters and are, written out, d.ddde+xx with two or three digits of the exponent, 0.000ddd, ddd.ddd or ddd000, exactly for the decimal exponents that belong to each; a reader of sign, digits, fraction and exponent gets exactly sign and decimal back, for precision 1 to 16 |
| PrintDecimal.Print | bundle/lua-cjson-2.1.0.5/g_fmt.c:35-111 | the text denotes the decimal of at most `precision` digits that is nearest to the number, ties to even, whose numerator and divisor dtoa has scaled |
| PrintDecimal.PrintDouble | bundle/lua-cjson-2.1.0.5/g_fmt.c:35-111 | for every double of non-zero mantissa: the text fits 32 characters and denotes, with its sign, the decimal of `precision` digits nearest to the double, ties to even, in its decade |
| GFmt.LayoutReads | bundle/lua-cjson-2.1.0.5/g_fmt.c:62-104 | every text of sign, whole part, fraction and exponent denotes the number it was laid out from |
| GFmt.PlainNumbers | bundle/lua-cjson-2.1.0.5/g_fmt.c:87-104 | to that reader digits are the number they denote, a minus negates it, and each digit after a point divides it by ten |
| GFmt.ExponentSigns | bundle/lua-cjson-2.1.0.5/g_fmt.c:70-75 | digits after e+ multiply by that power of ten, and after e- divide by it |
| PrintDecimal.ExponentsAreZeros | bundle/lua-cjson-2.1.0.5/g_fmt.c:70-104 | s with e+n is the same number as s with n zeros, and s with n zeros and e-n the same as s |
| PrintDecimal.SameDecimalIff | bundle/lua-cjson-2.1.0.5/g_fmt.c:62-104 | two decimals are the same number if and only if their mantissas are equal after common powers of ten |
| Allocator.Pool.Balloc | bundle/lua-cjson-2.1.0.5/dtoa.c:542-586 | the first block of the list of its class, or a new one if the list is empty, and never a live one; free lists stay acyclic, disjoint and sorted by class |
| Allocator.Pool.Bfree | bundle/lua-cjson-2.1.0.5/dtoa.c:588-607 | the block leaves the live ones and goes to the front of the list of its class, or back if it is too large; the invariant holds over any run |
| ReplayWindow.SatSub64be | libressl-2.6.4/ssl/d1_pkt.c:133-183 | the result is the difference clamped to -128..128 if and only if the difference is within 2^64 - 128 |
| ReplayWindow.Bitmap.ReplayCheck | libressl-2.6.4/ssl/d1_pkt.c:1339-1360 | exactly the numbers pass that are in or above the window and were not marked (RFC 4347 section 4.1.2.5) |
| ReplayWindow.Bitmap.Update | libressl-2.6.4/ssl/d1_pkt.c:1362-1382 | the number is marked; bit i stays "max - i was marked" when the window slides |
| RecordReader.Reader.Receive | libressl-2.6.4/ssl/d1_pkt.c:470-606 | a packet is handed up exactly if it is of the current epoch, authentic, not empty, in the window and not marked; early packets of the next epoch are queued once |
| RecordReader.EarlyForgery | libressl-2.6.4/ssl/d1_pkt.c:566-606 | for every state of the reader and every early packet: the genuine packet is handed up after the key change if and only if no forgery of it was filed before (RFC 4347 section 4.1.2.5) |
| RecordReader.EarlyWaits | libressl-2.6.4/ssl/d1_pkt.c:295-323 | an authentic early packet is not handed up by any number of reads before its keys come, and is by the first read after |
| RecordReader.EarlyLost | libressl-2.6.4/ssl/d1_pkt.c:295-323 | after a forged early packet was dropped, the next early packet, filed alone, is lost; with no other packets it is handed up if and only if there was no forgery |
| RecordReader.Reader.BufferRecord | libressl-2.6.4/ssl/d1_pkt.c:218-258 | nothing is queued beyond the limit or twice under one number, otherwise the record is, at its place |
| RecordReader.Reader.ProcessBuffered | libressl-2.6.4/ssl/d1_pkt.c:295-323 | when their epoch has come, the early records move to the processed queue in order until one is not authentic; that one is dropped and those after it stay queued; 1 is returned exactly if all have moved, and then, or if none was queued, the next epoch is awaited; otherwise the epoch that is awaited stays |
| RecordReader.Reader.GetRecord | libressl-2.6.4/ssl/d1_pkt.c:470-606 | what is handed up is authentic, of an epoch whose keys have come, and was never handed up before; nothing is handed up only if no record waits and no packet passes; the epoch that the queue awaits afterwards is given exactly; while it has not come, a read without packets changes nothing |
| RecordReader.Reader.ReceiveAny | libressl-2.6.4/ssl/d1_pkt.c:491-606 | packets are dropped one after the other until the first that passes, and that one is handed up |
| RecordReader.Reader.ChangeReadEpoch | libressl-2.6.4/ssl/d1_pkt.c:1456-1474 | the window of the next epoch becomes the current one with all of its marks, and the other starts empty |
| RecordReader.Run | libressl-2.6.4/ssl/d1_pkt.c:470-606 | in every run with fewer than 65536 key changes no two records handed up have the same epoch and number, on the wire too, and all are authentic and of an epoch that has begun |
| RecordWriter.Increment | libressl-2.6.4/ssl/t1_enc.c:215-224 | the byte loop adds one modulo 2^64 |
| RecordWriter.Writer.Write | libressl-2.6.4/ssl/d1_pkt.c:1302-1319 | a fresh record repeats an earlier header exactly when the 48-bit numbers of its epoch ran out |
| RecordWriter.Writer.Retransmit | libressl-2.6.4/ssl/d1_both.c:1064-1155 | a message of the previous epoch goes out under the continued counter of that epoch, and epoch and counter of the current one are restored |
| RecordWriter.Run | libressl-2.6.4/ssl/d1_both.c:1064-1155 | in every run of fresh writes, key changes and retransmissions of recent flights, all (epoch, number) pairs are distinct if and only if no epoch has more than 2^48 records |
| RecordWriter.OldFlightRepeats | libressl-2.6.4/ssl/d1_both.c:1120-1147 | a flight of two epochs ago is retransmitted under numbers that were used |
| PQueues.PQueue.Insert | libressl-2.6.4/ssl/pqueue.c:104-137 | refused exactly for a priority that is there, otherwise linked in at the one place that keeps the list strictly increasing |
| PQueues.OrderIsUnique | libressl-2.6.4/ssl/pqueue.c:104-137 | the items of a queue determine its order |
| PQueues.PriorityOrder | libressl-2.6.4/ssl/d1_both.c:1046-1053 | priorities are eight bytes with the number in the last two, and are ordered like the numbers |
| PQueues.PQueue.Find | libressl-2.6.4/ssl/pqueue.c:156-167 | the item of the priority, or null exactly if there is none |
| PQueues.PQueue.Pop | libressl-2.6.4/ssl/pqueue.c:145-154 | the item of least priority is taken off |
| PQueues.PQueue.Iterate | libressl-2.6.4/ssl/pqueue.c:169-188 | iterating visits all items once in increasing order |
| PQueues.PQueue.Size | libressl-2.6.4/ssl/pqueue.c:190-201 | walking the links counts the items |
| Octets.MemCmp | libressl-2.6.4/ssl/pqueue.c:104-137 | comparing the bytes of two priorities is comparing their big-endian numbers |
| Flights.Flight.BufferMessage | libressl-2.6.4/ssl/d1_both.c:1005-1062 | the message is kept last, unless it repeats the priority of the last one |
| Flights.PriorityIs | libressl-2.6.4/ssl/d1_both.c:960-975 | priorities go by the numbers of the messages, and a ChangeCipherSpec goes just before the message of its number |
| Flights.Flight.RetransmitBuffered | libressl-2.6.4/ssl/d1_both.c:977-1003 | messages and ChangeCipherSpecs are written again, all and in their original order, each in its own epoch under the next numbers of that epoch, and the current epoch is the same afterwards |
| Flights.ReplayIs | libressl-2.6.4/ssl/d1_both.c:977-1003 | each message of a flight adds records of its own epoch whose 48-bit numbers follow those the epoch has had |
| Reassembly.Mark | libressl-2.6.4/ssl/d1_both.c:132-142 | exactly the bytes from start to end become marked and none is unmarked, whether or not they share a byte of the mask |
| Reassembly.IsComplete | libressl-2.6.4/ssl/d1_both.c:144-157 | true exactly if the bytes of the message are marked and no bit past them is |
| HandshakeMessages.HeaderRoundTrip | libressl-2.6.4/ssl/d1_both.c:1207-1274 | reading a written header gives its five numbers back |
| HandshakeMessages.HeaderIs | libressl-2.6.4/ssl/d1_both.c:1207-1217 | the twelve bytes are type, length, number, fragment offset and fragment length, the more significant bytes first (RFC 4347 section 4.2.2) |
| HandshakeMessages.Sender.DoWrite | libressl-2.6.4/ssl/d1_both.c:228-386 | for any MTU at each round the records are exactly the pieces that the MTUs cut the message into, none longer than its MTU, under headers made in its own buffer, and the Finished hash takes the unfragmented message once, or nothing on retransmission |
| HandshakeMessages.RecordIs | libressl-2.6.4/ssl/d1_both.c:1207-1274 | a record with bytes off to off + len of a message is these twelve bytes, written out, and those bytes |
| HandshakeMessages.HashedIs | libressl-2.6.4/ssl/d1_both.c:340-366 | the Finished hash takes twelve bytes with offset zero and the whole length, and the body |
| HandshakeMessages.PiecesSay | libressl-2.6.4/ssl/d1_both.c:272-386 | in every record so made kind, length, number, offset and fragment length lie where RFC 4347 section 4.2.2 puts them, and the bytes they name follow |
| HandshakeMessages.PiecesAreHonest | libressl-2.6.4/ssl/d1_both.c:272-386 | every record so made is one that an honest sender may send, which is all that the reader needs |
| HandshakeReader.HmFragment.Add | libressl-2.6.4/ssl/d1_both.c:645-660 | after any order, overlap and repetition of fragments the mask says exactly which bytes came, those bytes are right, and the message is complete exactly if all came |
| HandshakeReader.Receiver.Reassemble | libressl-2.6.4/ssl/d1_both.c:585-682 | fails exactly on messages beyond the limit; otherwise the bytes of the fragment are kept, and none that were kept are lost |
| HandshakeReader.Receiver.OutOfSeq | libressl-2.6.4/ssl/d1_both.c:685-769 | stale and far messages and an early Finished change nothing, others are kept in part or whole, and nothing is lost or handed up |
| HandshakeReader.Receiver.Retrieve | libressl-2.6.4/ssl/d1_both.c:516-567 | exactly a whole message at the head of the queue that is the next one is taken |
| HandshakeReader.Receiver.ReadyIff | libressl-2.6.4/ssl/d1_both.c:516-567 | the queue gives out the next message if and only if it is there as a whole and no entry of an earlier message was left behind |
| HandshakeReader.Receiver.HandUp | libressl-2.6.4/ssl/d1_both.c:433-457 | the message is handed up with its unfragmented bytes hashed, and an entry is left behind exactly if one was before or a part of this message is queued |
| HandshakeReader.Receiver.ProcessRecord | libressl-2.6.4/ssl/d1_both.c:771-896 | the next message in one piece completes, other wanted pieces are kept, stale ones are dropped |
| HandshakeReader.Receiver.GetMessage | libressl-2.6.4/ssl/d1_both.c:397-458 | hands up the next message with its unfragmented bytes hashed, or fails, or all records are used up and the queue cannot give it out; from the queue it comes only if nothing was left behind there and all of its bytes came, otherwise in one piece, which leaves its entry behind exactly if a part of it was queued |
| HandshakeRun.Run | libressl-2.6.4/ssl/d1_both.c:397-458 | for every sequence of sends, resends at other MTUs, and deliveries of any records in any order: the delivered messages are a prefix of the sent ones, and both Finished hashes are those of the unfragmented messages (RFC 4347 sections 4.2.3 and 4.2.6) |
| HandshakeRun.QueueIsDead | libressl-2.6.4/ssl/d1_both.c:516-567 | in every run from a state in which an entry was left behind, no message comes out of the queue any more, and a message that is sent in pieces only is never handed up, nor any after it |
| HandshakeRun.AllComes | libressl-2.6.4/ssl/d1_both.c:397-567 | a run of two messages, all of whose bytes are received: the first by a piece and then whole, the second in two pieces; it ends with the second whole in the queue behind the entry of the first |
| HandshakeRun.LeftBehind | libressl-2.6.4/ssl/d1_both.c:397-567 | whatever follows that run, with the second message sent in pieces, only the first message is ever handed up |
| Der.ElementIsPrefixFree | libressl-2.6.4/ssl/bs_cbs.c:250-333 | an encoding can be told from whatever follows it: tag, contents and rest are unique |
| Der.ElementIs | libressl-2.6.4/ssl/bs_cbb.c:216-252 | an element is its tag, one octet for a length below 128 or else 0x81 to 0x84 and so many octets of the length, and the contents (X.690 section 8.1.3) |
| Der.TagBits | libressl-2.6.4/ssl/bs_cbs.c:263-275 | the sixth bit of a tag says constructed, and five set bits below it announce a long tag |
| Der.EncodingIsInjective | libressl-2.6.4/ssl/bs_cbs.c:250-333 | different forests have different encodings (X.690 section 10.1) |
| CbsReader.LongForm | libressl-2.6.4/ssl/bs_cbs.c:302-317 | the two tests on a long length accept exactly the minimal encodings |
| CbsReader.Cbs.GetAnyElement | libressl-2.6.4/ssl/bs_cbs.c:250-333 | strictly, an element is found exactly where an encoding of definite length in the fewest octets begins, and it is that encoding; not strictly, a header of indefinite length as well |
| CbsReader.Cbs.GetAsn1 | libressl-2.6.4/ssl/bs_cbs.c:336-362 | the contents are taken exactly from an element of definite length with the tag that is asked for |
| CbsReader.Cbs.GetLengthPrefixed | libressl-2.6.4/ssl/bs_cbs.c:204-214 | prefix and block are taken exactly if both are there |
| CbsReader.StrictForest | libressl-2.6.4/ssl/bs_cbs.c:250-333 | parsing to every depth succeeds exactly on encodings of forests, and re-encoding gives the same bytes |
| CbbBuilder.Buffer.FillAsn1Length | libressl-2.6.4/ssl/bs_cbb.c:212-258 | the contents move along by as many bytes as the length needs, and the length is written before them |
| CbbBuilder.Cbb.Flush | libressl-2.6.4/ssl/bs_cbb.c:185-272 | all pending prefixes are filled in from the inside out and all children cut off; it fails only if a length does not fit, and says so |
| CbbBuilder.CloseInSteps | libressl-2.6.4/ssl/bs_cbb.c:185-272 | filling in all prefixes at once is filling in the inner ones and then the outer, and they can be expressed exactly if both can |
| CbbBuilder.Cbb.AddAsn1 | libressl-2.6.4/ssl/bs_cbb.c:329-358 | children are closed first, then tag and one reserved length octet are appended and the new builder is linked below |
| CbbBuilder.Cbb.AddLengthPrefixed | libressl-2.6.4/ssl/bs_cbb.c:289-309 | the same for a prefix of fixed size |
| CbbBuilder.Cbb.AddBytes | libressl-2.6.4/ssl/bs_cbb.c:360-380 | children are closed first, then the bytes follow |
| BuildAndParse.BuildAll | libressl-2.6.4/ssl/bs_cbb.c:289-380 | any tree of elements and length-prefixed blocks is appended as its encoding by nested builders; it succeeds exactly if all lengths fit |
| BuildAndParse.WrittenIs | libressl-2.6.4/ssl/bs_cbb.c:259-272 | what is written of a block is its length in one, two or three bytes, the more significant first, and its contents |
| BuildAndParse.ReadAll | libressl-2.6.4/ssl/bs_cbs.c:204-362 | the getters take such bytes apart into the same tree and leave what follows |
| BuildAndParse.BuildAndRead | libressl-2.6.4/ssl/bs_cbb.c:153-380 | what nested builders write from any capacity reads back as it was, and building succeeds exactly if all lengths fit |
| Asn1Integer.OctetsDenote | libressl-2.6.4/ssl/bs_cbb.c:408-459 | the contents octets denote the number and are minimal (X.690 section 8.3) |
| Asn1Integer.IntegerIs | libressl-2.6.4/ssl/bs_cbb.c:408-459 | an INTEGER is the octet 2, the count of its octets, and the fewest octets of a non-negative number that denote it |
| Asn1Integer.MinimalIsUnique | libressl-2.6.4/ssl/bs_cbs.c:387-421 | a number has one minimal encoding |
| Asn1Integer.AddAsn1Uint64 | libressl-2.6.4/ssl/bs_cbb.c:408-459 | the byte loop appends exactly that encoding, for all 64-bit values |
| Asn1Integer.GetAsn1Uint64 | libressl-2.6.4/ssl/bs_cbs.c:387-421 | accepts exactly what is written for some 64-bit value, and returns that value |
| Ber.OneReading | libressl-2.6.4/ssl/bs_ber.c:120-240 | input has one reading: the elements at its front, of definite or indefinite length, are unique to every depth |
| Ber.LookAhead | libressl-2.6.4/ssl/bs_ber.c:178-196 | looking at the first inner element sees whether the contents are fragments, for empty contents and nested indefinite ones too |
| Ber.Convert | libressl-2.6.4/ssl/bs_ber.c:120-240 | the elements up to the end, or an end-of-contents, are written as the rewritten trees, joined when headers are squashed; it fails exactly if there are no such elements within the limits |
| Ber.DefiniteInput | libressl-2.6.4/ssl/bs_ber.c:120-240 | input of definite lengths in the fewest octets is rewritten as itself |
| Ber.FineIsDefinite | libressl-2.6.4/ssl/bs_ber.c:120-240 | what is converted has definite lengths in the fewest octets at every depth (X.690 section 10.1) |
| Ber.LeavesIffPlain | libressl-2.6.4/ssl/bs_ber.c:120-240 | as a fragment an element gives the contents of its primitive leaves exactly if it is plain, and otherwise at least two octets more |
| Ber.OneSegment | libressl-2.6.4/ssl/bs_ber.c:120-240 | joined as they are, the segments of a bit string are its value exactly if there is one (X.690 section 8.6.4) |
| Ber.OthersAreJoined | libressl-2.6.4/ssl/bs_ber.c:84-97 | primitive elements under a universal tag other than that of a sequence or set become one primitive element with their contents in a row |
| Ber.StringsAreJoined | libressl-2.6.4/ssl/bs_ber.c:84-97 | octet strings under the tag of a type that is encoded like one make one string, and under any schema that is what they denote (X.690 section 8.7.3) |
| Ber.OneSegmentStays | libressl-2.6.4/ssl/bs_ber.c:84-97 | a bit string in one primitive segment becomes that segment, which is what it denotes |
| Ber.ContextDecides | libressl-2.6.4/ssl/bs_ber.c:155-196 | under a context-specific tag primitive elements are joined if and only if the first of them has contents and is universal, but no sequence or set |
| Ber.OrdinaryIsRight | libressl-2.6.4/ssl/bs_ber.c:84-240 | forests in which only sequences, sets, strings in primitive octet strings and bit strings in one segment have indefinite lengths become the same trees with the strings in one piece, and under any schema that is what they denote |
| Ber.DeepestNest | libressl-2.6.4/ssl/bs_ber.c:120-126 | nested elements are within the limit exactly down to a depth of 2048 |
| Ber.AllRewrittenIffClean | libressl-2.6.4/ssl/bs_ber.c:120-240 | for any schema, the forest written is the forest denoted (X.690 sections 8.6.4 and 8.7.3) if and only if exactly strings are joined, all their segments are primitive, empty or again of indefinite length, and of a bit string one segment has contents |
| Ber.NestedFragment | libressl-2.6.4/ssl/bs_ber.c:120-240 | the input 24 80 24 03 04 01 AA 00 00 denotes the octet string AA under any schema and is converted to that of 04 01 AA |
| Ber.TwoSegments | libressl-2.6.4/ssl/bs_ber.c:120-240 | the input 23 80 03 02 00 AA 03 02 00 BB 00 00 denotes the bits AA BB under any schema and is converted to AA 00 BB |
| Ber.ExternalIsNoString | libressl-2.6.4/ssl/bs_ber.c:84-97 | the input 28 80 06 01 2A 81 01 AA 00 00 denotes an EXTERNAL of two elements under any schema and is converted to one string |
| Ber.TaggedInteger | libressl-2.6.4/ssl/bs_ber.c:155-186 | the input A0 80 02 01 05 00 00 denotes a tagged integer under any schema and is converted to the tag with the octet 05 |
| Ber.TaggedString | libressl-2.6.4/ssl/bs_ber.c:155-186 | the input A0 80 04 01 AA 00 00 is converted to an implicitly tagged string, which is what it denotes if and only if the schema says so |
| Ber.IndefiniteToDefinite | libressl-2.6.4/ssl/bs_ber.c:242-270 | succeeds if and only if the input is a BER forest within the depth and length limits; the output parses strictly, and gives, for any schema, the forest that the input denotes if and only if exactly strings are joined, from plain segments, and bit strings from one; ordinary forests come out as the same trees with strings in one piece, and input of definite lengths unchanged (X.690 sections 8.1.3, 8.6.4, 8.7.3 and 10.1) |
| GregorianTime.JulianToDate | libressl-2.6.4/crypto/o_time.c:146-161 | the result is a date of the calendar with this day number, and the only one, under C division |
| GregorianTime.JulianOfDay | libressl-2.6.4/crypto/o_time.c:137-161 | every date from March of the year -4800 is found again from its day number |
| GregorianTime.NextDay | libressl-2.6.4/crypto/o_time.c:137-144 | the day after a date, by the leap year rule, has the next day number |
| GregorianTime.FourCenturies | libressl-2.6.4/crypto/o_time.c:137-144 | four centuries later the same date exists and is 146097 days later |
| GregorianTime.Tm.GmtimeAdj | libressl-2.6.4/crypto/o_time.c:76-131 | the instant moves by exactly the offset; it succeeds if and only if the result is in the years 1900 to 9999, and otherwise changes nothing |
| GregorianTime.AdjustTwice | libressl-2.6.4/crypto/o_time.c:76-131 | adjustments add up, and opposite ones restore date and time |
| StrBufs.CalculateNewSize | bundle/lua-cjson-2.1.0.5/strbuf.c:134-159 | a larger buffer shrinks to fit, a smaller one is doubled until the length and a terminator fit, and no further |
| StrBufs.StrBuf.Resize | bundle/lua-cjson-2.1.0.5/strbuf.c:161-180 | the buffer gets that size and the contents are kept |
| StrBufs.StrBuf.AppendString | bundle/lua-cjson-2.1.0.5/strbuf.c:182-198 | the string is appended, however often the buffer grows, and without growing if there is room |
| Utf8.EncodeIsWellFormed | bundle/lua-cjson-2.1.0.5/lua_cjson.c:825-858 | every scalar value becomes a well-formed sequence that denotes it (RFC 3629 sections 3 and 4) |
| Utf8.EncodeIs | bundle/lua-cjson-2.1.0.5/lua_cjson.c:825-858 | the sequence has 1 to 4 bytes by the size of the number, which its free bits denote, six in each byte after the first |
| Utf8.WellFormedIsEncode | bundle/lua-cjson-2.1.0.5/lua_cjson.c:825-858 | every well-formed sequence denotes a scalar value and is what that value is encoded to |
| JsonString.AppendString | bundle/lua-cjson-2.1.0.5/lua_cjson.c:490-514 | quotes and escaped bytes are appended, and one reservation is room enough for the unchecked appends |
| JsonString.DecodeHex4 | bundle/lua-cjson-2.1.0.5/lua_cjson.c:802-821 | four digits or an error, without reading past the end of the text |
| JsonString.UnicodeIsWellFormed | bundle/lua-cjson-2.1.0.5/lua_cjson.c:869-925 | every accepted escape or surrogate pair becomes well-formed UTF-8 for its code point, shorter than itself |
| JsonString.Parser.NextStringToken | bundle/lua-cjson-2.1.0.5/lua_cjson.c:935-993 | the token is the decoded string, errors are found as the grammar says, and the unchecked appends fit the buffer |
| JsonGrammar.EncoderTable | bundle/lua-cjson-2.1.0.5/lua_cjson.c:171-210 | quote, backslash, slash and five controls are written as short escapes, other controls and delete as \u with four digits, all other bytes as they are |
| JsonGrammar.Utf16Read | bundle/lua-cjson-2.1.0.5/lua_cjson.c:869-925 | the escape of every scalar value by UTF-16, in one unit or two and digits of either case, is taken and becomes its UTF-8 |
| JsonGrammar.Utf16Only | bundle/lua-cjson-2.1.0.5/lua_cjson.c:869-925 | an escape is taken only if it is that of a scalar value |
| JsonGrammar.ShortEscapes | bundle/lua-cjson-2.1.0.5/lua_cjson.c:461-470 | exactly the eight short escapes of RFC 8259 section 7 are taken, for the bytes they mean |
| JsonGrammar.TokenIsSpelled | bundle/lua-cjson-2.1.0.5/lua_cjson.c:935-993 | a token is what the text spells up to a quote, by a grammar that is written out |
| JsonGrammar.SpelledIsToken | bundle/lua-cjson-2.1.0.5/lua_cjson.c:935-993 | whatever the text spells up to a quote by that grammar is the token |
| JsonGrammar.ReadString | bundle/lua-cjson-2.1.0.5/lua_cjson.c:935-993 | the tokenizer returns the string that the text spells, or an error exactly if it spells none |
| JsonString.StringRoundTrip | bundle/lua-cjson-2.1.0.5/lua_cjson.c:490-514 | decoding an encoded string gives every byte back and stops after the closing quote |
| JsonString.DecodedIsShorter | bundle/lua-cjson-2.1.0.5/lua_cjson.c:935-993 | decoded output is shorter than the text it came from |
| JsonString.EncodeAndDecode | bundle/lua-cjson-2.1.0.5/lua_cjson.c:935-993 | encoder and tokenizer together are the identity on byte strings |
| RedisProtocol.GetNumSize | bundle/lua-redis-parser-0.13/redis-parser.c:663-674 | the number of digits of the decimal text |
| RedisProtocol.SprintfNum | bundle/lua-redis-parser-0.13/redis-parser.c:677-695 | the decimal text is written at the place, and its end returned |
| RedisProtocol.TotalSize | bundle/lua-redis-parser-0.13/redis-parser.c:533-598 | the first pass computes the length of the query that the second writes |
| RedisProtocol.DecimalIsUnique | bundle/lua-redis-parser-0.13/redis-parser.c:677-695 | the text of a number is the only one of its decimal texts without leading zeros |
| RedisProtocol.OnTheWire | bundle/lua-redis-parser-0.13/redis-parser.c:604-648 | the texts sent for a string, null, true and false, written out, and what a receiver finds in them |
| RedisProtocol.QueryIs | bundle/lua-redis-parser-0.13/redis-parser.c:532-660 | a query is an asterisk, the number of parameters and a line end, and the parameters in their order |
| RedisProtocol.BuildQuery | bundle/lua-redis-parser-0.13/redis-parser.c:532-660 | both passes agree, so that the buffer is filled exactly; fails exactly on no parameters or one without encoding |
| RedisProtocol.ParseSingleLine | bundle/lua-redis-parser-0.13/redis-parser.c:298-325 | finds exactly the text before the first line end |
| RedisProtocol.ParseBulk | bundle/lua-redis-parser-0.13/redis-parser.c:330-415 | finds exactly a bulk or a null bulk, and calls nothing else one |
| RedisProtocol.ParseMultiBulk | bundle/lua-redis-parser-0.13/redis-parser.c:418-529 | a list of values is returned if and only if one is there, and the null reply, with its end, if and only if a null reply is there |
| RedisProtocol.LinesAndNull | bundle/lua-redis-parser-0.13/redis-parser.c:298-325 | a status, an error or an integer is read as the text of its line, and the null list is a count of -1 |
| RedisProtocol.OneList | bundle/lua-redis-parser-0.13/redis-parser.c:418-529 | at most one list of values is at a place |
| RedisProtocol.BuildAndParse | bundle/lua-redis-parser-0.13/redis-parser.c:418-660 | a built query parsed as a reply gives the parameters, and what follows it is left alone |

## Left out

- CbcMac.DigestRecord: the outer hash is taken as the digest of its input; `StreamingHash` is what shows that the streaming interface computes it. The SSLv3 MAC is not modelled, nor the AEAD branch.
- CbcPadding.RemovePadding: the early return for AEAD ciphers is not modelled; the wrong first byte of 256 padding bytes is accepted as in the code, with the exact condition proved beside it.
- Bigints.Bigint.Balloc: blocks are fresh objects here; `Allocator` shows separately that a recycled block is never live. The fixed arena of `private_mem` is not modelled.
- Bigints.Cmp: for two zeros the result depends on whether they have a limb, as in the code.
- GFmt.FpconvGFmt: digits and exponent are inputs within the range of doubles; the conversion that produces them is the digit loops.
- RecordWriter.Run: key changes are fewer than 65536, so that 16-bit epochs do not come round.
- RecordReader.Run: key changes are fewer than 65536, so that 16-bit epochs do not come round.
- RecordReader.Reader.GetRecord: that a packet is authentic is a field of it, which means that the keys of its own epoch accept it; decryption is not modelled.
- HandshakeRun.Run: a record holds one handshake header with its body; the run is not read further once a length limit was exceeded; timers, and that a network delivers at all, are not modelled.
- HandshakeReader.Receiver.GetMessage: reassembly masks are kept in the fragment with a flag instead of a pointer that is freed; `reuse_message`, HelloRequest handling and the callbacks are not modelled.
- HandshakeMessages.Sender.DoWrite: record writes succeed; the retry on a too large MTU and BIO queries are not modelled, the MTU is an arbitrary function of the round.
- Ber.IndefiniteToDefinite: always converts; the pre-scan `cbs_find_indefinite`, which only decides whether to convert, is not modelled.
- CbbBuilder.Cbb.Flush: sizes are unbounded, so that size_t overflow is not modelled; `CBB_discard_child` is not modelled.
- StrBufs.CalculateNewSize: the default exponential increment only; linear growth does not use the requested size.
- GregorianTime.Tm.GmtimeAdj: `off_day * SECS_PER_DAY` and the seconds are unbounded, so that overflow of int and long is not modelled.
- RedisProtocol.BuildQuery: sizes fit 64 bits; the Lua stack is replaced by a list of parameters.
- RedisProtocol.ParseMultiBulk: counts and sizes are unbounded, so that their overflow is not modelled.
- JsonString.Parser.NextStringToken: covers string tokens only; numbers, nesting and the Lua side of lua-cjson are not modelled.
- Bigints.Lshift: an operand without a limb is excluded, because the do-while loop would read and write past it; the callers pass none.
- Allocator.Pool.Balloc: blocks are objects without limbs here, and the fixed arena of `private_mem` is replaced by fresh blocks.
- PrintDecimal.Print: numerator and divisor are inputs here; `PrintDecimal.PrintDouble` makes them from the double.
- RecordReader.Reader.Receive: the exemption of ClientHellos from the replay check while listening, and the rule that nothing is queued then, are not modelled.
- HandshakeReader.Receiver.ProcessRecord: a HelloRequest, which a client skips, is not modelled.
- PrintDecimal.PrintDouble: the floating-point estimate of the decade is an input that is right or one too large; the shortcuts in floating point for up to 14 digits and for small integers, and zero, infinity and NaN, are not modelled.
- ScaleDouble.ShortestOfDouble: takes the mantissa and exponent that d2b returns and the estimate of the decade as inputs; the shortcut for small integers is not modelled.
- DigitLoops.NineIsNearer: the margins there are none of a double; `Doubles.NoDoubleMisrounds` says that no double has such ones.
- The floating-point parts of dtoa.c (fast paths, the estimate of k, the refinement loop of strtod), hexadecimal input and the alternative rounding modes: the decimal digits of doubles are covered, reading decimals into doubles is not.
- Ciphers, EVP, BIO, X.509, Lua and nginx interfaces, timers, sockets, clocks and allocation failure: outside of these algorithms.
- Timing and other side channels: only the computed values are stated.
