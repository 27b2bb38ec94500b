# BitBufferCpp in Dafny

A model of `bit_buffer`, a serializer that packs values into a growable byte
vector bit by bit, and of its read-only `bit_iterator`.

The buffer holds three fields:
- the byte vector;
- `pos`, the index of the byte being filled;
- `bitIndex`, the number of bits already used in that byte (0 to 7).

Writes append the low `w` bits of a value at the cursor, most significant
bit first. `write_bits_` ORs them into the tail byte and recurses on the
bits that do not fit. The typed writers go through `write_bytes_`. At a byte
boundary it pushes whole bytes, highest first. Otherwise it falls back to
the bit path. Reads take the big-endian value of any run of bits, by
absolute bit offset, and fail when the run reaches past the vector.

The model's abstract view is the sequence of committed bits: all bits
before the cursor (`BufferState.CommittedBits`, `BitBuffer.Committed`). The
buffer invariant (`BufferState.WellFormed`) says three things:
- the cursor is inside the vector;
- the vector holds exactly the bytes up to the cursor;
- the bits of the tail byte after the cursor are zero.

Every writer keeps the invariant and appends exactly its value's bits to
the committed bits. Every reader inside the committed bits returns the value
of the bits it covers. Together these give the round trip: a value written
in `w` bits reads back from the offset it was written at.

Files and modules:
- `arith.dfy` (`Arith`): powers of two, division facts, and the C shifts, masks and `|` on naturals.
- `seq_facts.dfy` (`SeqFacts`): slicing and concatenation facts.
- `bits.dfy` (`Bits`): bit sequences, their values, bytes as bits, big-endian byte strings, packing.
- `buffer_state.dfy` (`BufferState`): the buffer invariant, the committed bits, one lemma per write step.
- `reads.dfy` (`BitReads`): `read_bits_` and `read_bytes_` as functions, the loop of `read_bits_` as a method, their meaning.
- `bit_buffer.dfy` (`BitBuffers`): the classes `BitBuffer` and `BitIterator`, and the round-trip lemmas.
- `findings.dfy` (`SignedWrites`): `write_bits_` and `write_bytes_` as written, for negative `char` and `short` values.
- `scenarios.dfy` (`ScenarioBits`, `Scenarios`): the three scenarios of `tests/test.cpp`.

## Model

| member | source | states |
|---|---|---|
| BitBuffers.BitBuffer.constructor | src/bit_buffer.cpp:3-7 | A new buffer is empty, with the cursor at bit 0 of byte 0, holds no committed bits and satisfies the invariant; the size is only a capacity hint. |
| BitBuffers.BitBuffer.WriteBits | src/bit_buffer.hpp:63-94 | For 1 to 32 bits (or 0 bits inside a byte) and a value below 2^bits: keeps the invariant; the new committed bits are the old ones followed by the value's bits, most significant first. So the committed length grows by exactly `bits` and earlier bits are unchanged. The public `write_bits` (src/bit_buffer.hpp:195-198) is this call. |
| BitBuffers.BitBuffer.WriteBytes | src/bit_buffer.hpp:103-122 | For 1 to 4 bytes and a value below 2^(8n): keeps the invariant and appends the value's 8n bits, on both the byte-push path and the bit path. The push loop carries the invariant that the pushed bytes are the big-endian bytes of the value's high part. |
| BitBuffers.BitBuffer.WriteByte | src/bit_buffer.cpp:11-13 | Appends the byte's 8 bits and keeps the invariant. |
| BitBuffers.BitBuffer.WriteChar | src/bit_buffer.cpp:15-17 | Appends the 8 bits of the char's two's complement and keeps the invariant. |
| BitBuffers.BitBuffer.WriteBool | src/bit_buffer.cpp:19-21 | Appends the 8 bits of 1 for true or 0 for false, and keeps the invariant. |
| BitBuffers.BitBuffer.WriteShort | src/bit_buffer.cpp:23-25 | Appends the 16 bits of the short's two's complement and keeps the invariant. |
| BitBuffers.BitBuffer.WriteInt | src/bit_buffer.cpp:27-29 | Appends the 32 bits of the unsigned value and keeps the invariant. |
| BitBuffers.BitBuffer.ReadBits | src/bit_buffer.cpp:47-49 | Delegates to `read_bits_` with accumulator 0. Fails exactly when the run passes the end of the vector. Otherwise it returns the big-endian value of the run, which is below 2^numBits. Inside the committed bits it returns the value of those committed bits. It changes nothing (no modifies clause). |
| BitBuffers.BitBuffer.ReadBit | src/bit_buffer.cpp:43-45 | A 1-bit read. It fails exactly past the last bit. Otherwise it returns 1 or 0 as the bit is set or not; inside the committed bits, that bit is the committed bit. |
| BitBuffers.BitBuffer.ReadBytes | src/bit_buffer.cpp:39-41 | Equals `read_bits_(8i, 8n, 0)`. Fails exactly when byte i + n - 1 does not exist. Otherwise returns the big-endian value of those bytes. |
| BitBuffers.BitBuffer.ReadByte | src/bit_buffer.cpp:35-37 | Equals `read_bits(8i, 8)`. Fails exactly past the last byte. Otherwise returns the byte itself. |
| BitBuffers.BitBuffer.Equals | src/bit_buffer.hpp:256-258 | True exactly when the byte vectors are equal, cursors aside. For well-formed buffers this means the padded committed bits are equal. Buffers with the same committed bits are equal. |
| BitBuffers.BitBuffer.NotEquals | src/bit_buffer.hpp:260-262 | The negation of `Equals`, on the vectors and on the padded committed bits. |
| BitBuffers.ReadCommitted | src/bit_buffer.hpp:124-171 | A read of 1 to 32 bits inside the committed bits of a well-formed buffer yields the value of those committed bits. |
| BitBuffers.ReadBackWritten | src/bit_buffer.hpp:124-171 | Round trip: if the committed bits are `before`, then the w bits of v, then `after`, reading w bits at offset `|before|` yields v. |
| BitBuffers.ReadBackAt | src/bit_buffer.hpp:124-171 | Round trip: a value whose w bits sit at a given offset of the committed bits reads back from that offset. |
| BitBuffers.BitIterator.constructor | src/bit_buffer.hpp:271-273 | An iterator holds a copy of the buffer's bytes and starts at bit 0. |
| BitBuffers.BitIterator.At | src/bit_buffer.hpp:275-277 | An iterator holds a copy of the buffer's bytes and starts at the given bit. |
| BitBuffers.BitIterator.Copy | src/bit_buffer.hpp:293 | A copy has the same bytes and the same bit index. |
| BitBuffers.BitIterator.CurrentBit | src/bit_buffer.hpp:279-281 | Equals `read_bits_(index, 1, 0)`. Fails exactly past the last bit. Otherwise it is 1 or 0 as the bit is set or not. `operator*` (lines 307-313) is this call. |
| BitBuffers.BitIterator.Next | src/bit_buffer.hpp:286-290 | Prefix `++` moves the index on by exactly one bit. |
| BitBuffers.BitIterator.PostNext | src/bit_buffer.hpp:292-297 | Postfix `++` moves the index on by one bit. It returns a fresh iterator over the same bytes, at the old index. |
| BitBuffers.BitIterator.Equals | src/bit_buffer.hpp:299-301 | True exactly when the bit indices are equal, whatever the bytes. |
| BitBuffers.BitIterator.NotEquals | src/bit_buffer.hpp:303-305 | True exactly when the bit indices differ. |
| BitReads.ReadBitsFrom | src/bit_buffer.hpp:124-171 | `read_bits_` with accumulator: fails exactly when the run passes the end of the vector, and the check comes before any byte is read. |
| BitReads.ReadBitsValue | src/bit_buffer.hpp:129-170 | In range, `read_bits_` returns the 32-bit truncation of the accumulator plus the big-endian value of the run. The proof is by induction over the bytes the run crosses. |
| BitReads.ReadBitsOf | src/bit_buffer.hpp:124-171 | `read_bits_` as the code runs it, with its masks, shifts and weighting loop, computes exactly `ReadBitsFrom`. |
| BitReads.WeighLowBits | src/bit_buffer.hpp:147-154 | The weighting loop adds each bit of the masked byte with weight 2^p. The total it adds is the byte shifted left by numBits - bitsRead. |
| BitReads.ReadAcrossValue | src/bit_buffer.hpp:136-157 | The multi-byte branch: the masked rest of the first byte, weighted above the remaining bits, plus the read of the remaining bits, is the value of the whole run. |
| BitReads.ReadWithinStep | src/bit_buffer.hpp:160-170 | The last-byte branch: the mask and the shift leave exactly the value of the run, added to the accumulator. |
| BitReads.ReadRunValue | src/bit_buffer.hpp:124-171 | With a zero accumulator, an in-range read returns the big-endian value of the run. The value is below 2^numBits, so the 32-bit conversion loses nothing. |
| BitReads.ReadSingleBit | src/bit_buffer.cpp:43-45 | A 1-bit read yields 1 or 0 as the bit is set or not. |
| BitReads.ReadBytesFrom | src/bit_buffer.hpp:173-179 | `read_bytes_` fails exactly when byte i + n - 1 does not exist. |
| BitReads.ReadBytesValue | src/bit_buffer.hpp:173-179 | In range, `read_bytes_` returns the big-endian value of the bytes, which is below 2^(8n). |
| BitReads.ToUint32IsMod | src/bit_buffer.hpp:168 | The `uint32_t` result is the accumulated value modulo 2^32. |
| BufferState.FitStep | src/bit_buffer.hpp:86-93 | The branch where the bits fit in the tail byte: shifting them left and OR-ing them in keeps the invariant and appends exactly those bits. A full byte moves the cursor to the next byte. |
| BufferState.SpillStep | src/bit_buffer.hpp:71-83 | The overflow branch: the high bits fill the tail byte and the cursor moves to the next byte. The committed bits plus the remainder's bits (the low remainderBits bits) are the old bits plus the value's bits. |
| BufferState.PrepareTail | src/bit_buffer.hpp:66-68 | The pushed zero byte (at a boundary) or the existing tail byte has zero bits after the cursor, and the committed bits are unchanged. |
| BufferState.PushBytesStep | src/bit_buffer.hpp:108-117 | At a byte boundary, pushing the n big-endian bytes and moving pos on by n keeps the invariant and appends the value's 8n bits. |
| BufferState.AlignedWriteIsPush | src/bit_buffer.hpp:103-122 | Fast-path equivalence: at a byte boundary, any well-formed result of appending the value's 8n bits is exactly the byte push, so the bit path would give the same bytes and cursor. |
| BufferState.StateIsPacked | src/bit_buffer.hpp:56-58 | A well-formed state is determined by its committed bits. The bytes are those bits packed, padded with zeros. The cursor is their count in bytes and bits. |
| BufferState.SameCommittedSameState | src/bit_buffer.hpp:56-58 | Two well-formed states with the same committed bits are the same state. |
| BufferState.SameBytesDifferentCursor | src/bit_buffer.hpp:256-258 | The vectors compared by `operator==` do not determine the cursor. Two well-formed states with the same bytes can hold different committed bits. |
| Bits.BigEndianBits | src/bit_buffer.hpp:109-113 | The bytes pushed by the fast path, read as bits, are the value's low 8n bits, most significant first. |
| Bits.BigEndianPush | src/bit_buffer.hpp:111 | One turn of the push loop appends the next lower byte of the big-endian string. |
| SignedWrites.Unsigned32 | src/bit_buffer.hpp:105 | `static_cast<uint32_t>` gives a value below 2^32: the two's complement of a negative value. |
| SignedWrites.WriteBitsAsWritten | src/bit_buffer.hpp:63-94 | `write_bits_` for any `uint32_t` data, with no mask on the data. It keeps the cursor shape and advances the cursor by exactly `bits`. What it writes on in-range data is stated by `AsWrittenInRange`, and on -1 by the Findings lemmas. |
| SignedWrites.WriteBytesAsWritten | src/bit_buffer.hpp:103-122 | `write_bytes_` passing the converted value itself to the bit path. It keeps the cursor shape and advances the cursor by 8n bits. What it writes on in-range values is stated by `BytesAsWrittenInRange`. |
| SignedWrites.AsWrittenInRange | src/bit_buffer.hpp:63-94 | On data below 2^bits, `write_bits_` as written keeps the buffer invariant and appends exactly the data's bits, as `BitBuffer.WriteBits` does. So the as-written and the masked model agree there. |
| SignedWrites.BytesAsWrittenInRange | src/bit_buffer.hpp:103-122 | On a value below 2^(8n), `write_bytes_` as written keeps the invariant and appends exactly the value's 8n bits, on the push path and on the bit path, as `BitBuffer.WriteBytes` does. So the models part only on negative values written off a byte boundary. |
| SignedWrites.NegativeShortOverwritesCommittedBit | src/bit_buffer.cpp:23-25 | After one zero bit, `write_short(-1)` as written leaves the bytes 255, 255, 128. Their first bit is set, so the zero bit already written is lost. |
| SignedWrites.NegativeCharOverwritesCommittedBit | src/bit_buffer.cpp:15-17 | After one zero bit, `write_char(-1)` as written leaves the bytes 255, 128. Their first bit is set. |
| SignedWrites.CorrectedShortAfterOneBit | src/bit_buffer.cpp:23-25 | With the value's low 16 bits written, as `WriteShort` does: a zero bit then `write_short(-1)` leaves the bytes 127, 255, 128, the cursor at bit 1 of byte 2, and the first bit still zero. |
| SignedWrites.CorrectedCharAfterOneBit | src/bit_buffer.cpp:15-17 | With the char's low 8 bits written, as `WriteChar` does: a zero bit then `write_char(-1)` leaves the bytes 127, 128, the cursor at bit 1 of byte 1, and the first bit still zero. |
| Scenarios.BitRuns | tests/test.cpp:7-15 | For any bit x and any 4-bit y and z written in a row: bit 1 reads the top bit of y, and the 4-bit runs at bits 1 and 5 read y and z. |
| Scenarios.BitRunsRead | tests/test.cpp:14-15 | The 4-bit runs at bits 1 and 5 of the committed bits x, y, z are y and z. |
| Scenarios.BitRunsTopBit | tests/test.cpp:13 | Bit 1 of the committed bits x, y, z reads as y / 8. |
| Scenarios.TestBitRuns | tests/test.cpp:7-15 | With the test's values: `read_bit(1) == 1`, `read_bits(1, 4) == 10`, `read_bits(5, 4) == 10`. |
| Scenarios.WholeAndPartBytes | tests/test.cpp:17-26 | For any int i, 4-bit e and b, and short s written in a row: bytes 0..3 read i, bits 32 and 36 read e and b, and bytes 5..6 read s's 16-bit two's complement. |
| Scenarios.WholeAndPartBytesRead | tests/test.cpp:23-26 | The same four reads, stated on the committed bits. |
| Scenarios.TestWholeAndPartBytes | tests/test.cpp:17-26 | With the test's values: 100, 14, 11 and 20. |
| Scenarios.MixedRuns | tests/test.cpp:28-43 | For any runs a (1 bit), b (1), c (2), d (4) and then a byte e: each reads back at its offset. Byte 0 reads as the runs joined. Bytes 0..1 read as that byte times 256 plus e. |
| Scenarios.MixedRunsRead | tests/test.cpp:35-40 | The five runs read back at offsets 0, 1, 2, 4 and 8. |
| Scenarios.MixedFirstByteRead | tests/test.cpp:41 | The first 8 committed bits read as ((a*2+b)*4+c)*16+d. |
| Scenarios.MixedBothBytesRead | tests/test.cpp:43 | The first 16 committed bits read as the first byte times 256 plus e. |
| ScenarioBits.MixedValue | tests/test.cpp:43 | The value of the five runs together is the first byte times 256 plus e. |
| Scenarios.TestMixedRuns | tests/test.cpp:28-43 | With the test's values: 1, 0, 2, 10, 100, 100, 170 and 43620. |

## Left out

- `write_long` (src/bit_buffer.cpp:31-33) and any width above 32 are left out. The `uint32_t` shifts they need shift by 32 or more, which is undefined behaviour in C++.
- Width 0 at a byte boundary is left out: no byte is pushed, but the missing tail byte is still indexed. `BitBuffers.BitBuffer.WriteBits` requires `bits > 0` whenever the cursor is at a byte boundary.
- BitBuffers.BitBuffer.WriteBits: requires the data to be below 2^bits. With larger data, the source ORs the extra high bits into the tail byte. The finding below shows that case, as `SignedWrites.WriteBitsAsWritten`.
- BitBuffers.BitBuffer.WriteChar: at an unaligned cursor, the char's low 8 bits are written, not its sign extension (see Findings). At a byte boundary it is what the source does.
- BitBuffers.BitBuffer.WriteShort: at an unaligned cursor, the short's low 16 bits are written, not its sign extension (see Findings). At a byte boundary it is what the source does.
- Reads of 0 bits, and reads of more than 32 bits or 4 bytes, are excluded by requires. A 0-bit read at an offset inside a byte takes the last-byte branch and returns the accumulator unchanged (0). A 0-bit read at a byte-aligned offset wraps the end index around. It then enters the multi-byte branch, and the bit count it recurses with, `num_bits - bits_read`, wraps around too. Reads of more than 32 bits overflow the `uint32_t` weights.
- The `else` branch at src/bit_buffer.hpp:142-143 is not modelled. For `num_bits >= 1`, all the model admits, it is unreachable: there the offset is always negative. Only the 0-bit read at a byte-aligned offset, left out above, reaches it.
- The bare `throw;` of an out-of-range read terminates the program. It is modelled as the `OutOfRange` result.
- `pow(2, p)` is a double in the source. It is modelled as the exact integer 2^p, which it equals for p up to 31.
- `begin`, `end` and `create_iter` are declared but defined nowhere, so they are not modelled. `get_bytes` is a copy of the byte vector, so it is not modelled either.
- The capacity reservation (`reserve`, `DEFAULT_SIZE`) has no observable effect, so the constructor ignores its size argument.
- `bit_iterator` keeps a copy of the whole buffer. The model keeps only the copied bytes, since the cursor of the copy is never read.
- Machine widths are stated explicitly for byte values below 256, the `uint32_t` conversion of read results, and the two's complement of `char` and `short`.
- `pos_` is a `uint32_t` (src/bit_buffer.hpp:57) and wraps after 2^32 bytes, and the read offsets are `size_t`. Every index in the model is an unbounded `nat`, so buffers of 2^32 bytes or more are not modelled.
- BitBuffers.BitBuffer.WriteChar: `char` is taken as signed (range -128 to 127), as on x86. C++ leaves its signedness to the implementation. Where `char` is unsigned, the value is already below 256, and the char finding cannot occur.
- The test driver's `main` and `puts` are not modelled. Its assertions are the scenario lemmas.

## Findings

| source | as written | input that shows it | evidently intended | confidence | as-written member | corrected member |
|---|---|---|---|---|---|---|
| src/bit_buffer.hpp:121 (via src/bit_buffer.cpp:23-25) | Off a byte boundary, `write_bytes_` passes the `short` itself to `write_bits_`. That converts it to its 32-bit sign extension, and the bits above the low 16 are OR-ed into the tail byte. | `write_bits(0, 1)` then `write_short(-1)` on an empty buffer gives the bytes 255, 255, 128. The first bit is 1, so the earlier 0 bit is lost. | The bits 0, then sixteen ones: the bytes 127, 255, 128, with the first bit still 0. | not executed | SignedWrites.NegativeShortOverwritesCommittedBit | SignedWrites.CorrectedShortAfterOneBit |
| src/bit_buffer.hpp:121 (via src/bit_buffer.cpp:15-17) | The same for `char`: its sign extension is OR-ed into the tail byte. | `write_bits(0, 1)` then `write_char(-1)` gives the bytes 255, 128, so the earlier 0 bit is lost. | The bits 0, then eight ones: the bytes 127, 128. | not executed | SignedWrites.NegativeCharOverwritesCommittedBit | SignedWrites.CorrectedCharAfterOneBit |
