# Verified model of bit streams, locks and hooks

A Dafny 4.11 model of the repository's stateful and arithmetic core, with proofs about it.

- `Bits.dfy`, `ByteStream.dfy`: machine words as natural numbers, bit strings as `seq<bool>` with
  the lowest bit first, and byte buffers as bit strings.
- `Wire.dfy`, `ZigZag.dfy`, `VarInt.dfy`, `UBitVar.dfy`, `Text.dfy`, `Message.dfy`: what is on the
  wire, without any buffer. `Wire.Cursor` is a position in a bit string with a sticky overflow
  flag; the code of each kind of field is a bit string.
- `Overflowed.dfy`: what reads return once the flag is set while buffer bits still lie ahead.
- `BitRead.dfy`: the reader class with its prefetched register, dword cursor, end sentinel and
  seek, proved to do what `Wire.Cursor` does. `Tracks()` names the states in which every read
  does, `Safe()` those in which the documented zeros after an overflow are in force.
- `BitWrite.dfy`: the writer class over an array of bytes, with masked dwords, the variable-length
  fast paths and the unaligned bulk copy.
- `RoundTrip.dfy`: writer and reader on the same array.
- `SpinRWLock.dfy`, `Interlocked.dfy`: the readers/writer spin lock as interleaved single memory
  steps of any number of threads, its methods as undisturbed runs of those steps, and the retry
  loops of the interlocked integer.
- `AddressString.dfy`, `Hooks.dfy`, `HookRegistry.dfy`: hook addresses as text, installation as
  interleaved MinHook calls that may fail, dispatch, the module registry and invocation scopes.
- `Profile.dfy`, `PowerOfTwo.dfy`, `MachineOps.dfy`, `ByteSwap.dfy`, `Align.dfy`, `FastTimer.dfy`:
  the `-profile=` option and the arithmetic kernels, generic in width, length or clock speed.

`dafny verify dfyconfig.toml` checks everything.

## Where the code and its documentation disagree

The model follows the code. Each point is proved, by a counterexample or by the exact condition.

- "Zeros once overflowed" (`include/tier1/bitbuf.h:6`) does not survive a peek past the end that is
  taken back (`PeekThenData`), nor a failed seek in a message shorter than its buffer
  (`FailedSeekThenData`). Reads return zeros only if and only if no buffer bit that lies ahead is
  set (`Overflowed.ZeroGuaranteeIff`, `OverflowedBits`).
- Reads are bounded by the buffer, not by the message length (`ReadsPastTheMessage`); the two are
  the same bound exactly when the message fills the buffer (`Wire.OverflowIsMessageEndIff`).
- `CLimitTimer` scales by the clock speed cut to 32 bits: its limits keep real time exactly for
  clocks below 2^32 Hz (`FastTimer.OnTimeIff`, `ShortMillisecond`, `StoppedClock`).
- `ReadUBitVar` does not read what `WriteUBitVar` writes (`UBitVar.ReadBackIff`), `ReadByte` what
  `WriteByte` writes (`Wire.ByteReadBackIff`), `ReadShort` what `WriteShort` writes
  (`Wire.ShortReadBackIff`), nor `ReadFloat` what `WriteFloat` writes (`ByteSwap.FloatReadBackIff`).
- `ThreadInterlockedAssignIf` passes its arguments to the intrinsic in another order than its name
  and callers mean. The lock's safety is proved for the intended meaning, which is the assumption
  that it rests on; with the literal call nobody ever acquires the lock (`LiteralLockIsDead`).
- The assertion at `include/tier0/threadtools.h:840` can fail (`LastAssertionCanFail`).
- `server.dll + 0xDEADBEEF`, the example at `src/tier0/hooks.cpp:53`, is out of range for the
  conversion used (`DocumentedExampleIsOutOfRange`).

## Assumptions

- Memory is sequentially consistent; a thread's id is its index plus one.
- Loaded modules, exported procedures, MinHook's own failures, the clock and the addresses of
  caller buffers are parameters, so the theorems hold for all of them.
- Buffers are not null, and a reader's buffer is not empty. The dword at the write position exists,
  as the source asserts.
- No hook is named "", which stands for the null name outside every hook.
- Buffers are below 2^28 bytes, so that sizes and positions in bits stay within an int. Elsewhere
  the width of each integer is modelled.

## Model

| member | source | states |
|---|---|---|
| `ByteStream.StreamBit` | include/tier1/bitbuf.h:616-617 | bit i of a buffer seen as a bit string is bit `i & 7` of byte `i >> 3` |
| `ByteStream.DWordIsStream` | include/tier1/bitbuf.h:17-20 | a little-endian dword holds the 32 stream bits from its byte offset on, lowest first |
| `BitReader.ReadWithin` | include/tier1/bitbuf.h:516-530 | masking and shifting the register yields the next n bits of the stream and keeps the unread top, for every n the register can satisfy |
| `BitReader.ReadAcross` | include/tier1/bitbuf.h:532-546 | the straddling formula yields the next n bits of the stream, lowest first, and leaves the rest of the new dword |
| `BitReader.BitRead.constructor` | include/tier1/bitbuf.h:169 | a reader starts at bit 0 of the caller's bytes and does what the abstract cursor does |
| `BitReader.BitRead.GrabNextDWord` | include/tier1/bitbuf.h:460-487 | the next dword is loaded; exactly at the end one sentinel bit is left without overflow unless asked for; behind it the flag is set |
| `BitReader.BitRead.FetchNext` | include/tier1/bitbuf.h:490-494 | a full register while dwords remain, then the one-bit sentinel, then overflow |
| `BitReader.BitRead.ReadOneBit` | include/tier1/bitbuf.h:497-507 | one step of the abstract cursor; a reader stuck at the end of a tiny buffer never notices; with the flag set, one step of the overflowed register in every state |
| `BitReader.BitRead.ReadUBitLong` | include/tier1/bitbuf.h:516-547 | for 0 to 32 bits: the value, the new position and the overflow flag of the abstract cursor, straddling and ending exactly at the end included; with the flag set, one step of the overflowed register in every state |
| `BitReader.BitRead.ReadStraddling` | include/tier1/bitbuf.h:532-546 | the same for a read that needs more bits than the register has; with the flag set it returns 0, keeps the bit count and moves on to the next dword |
| `BitReader.BitRead.ReadFromRegister` | include/tier1/bitbuf.h:516-530 | the same for a read that the register can satisfy |
| `BitReader.BitRead.CoherentRegister` | include/tier1/bitbuf.h:460-547 | an overflowed reader in step with its buffer has all buffer bits from its position on ahead |
| `BitReader.AfterCut` | include/tier1/bitbuf.h:516-530 | after a cut the register of an overflowed reader holds what the abstract register holds, and the cut is its value |
| `BitReader.BitRead.Tell` | include/tier1/bitbuf.h:443-457 | the number of bits consumed, clamped to the message length |
| `BitReader.BitRead.Seek` | src/engine/bitbuf.cpp:159-207 | success if and only if the position is in the message; where the reader stands; exactly when the zero guarantee and the cursor semantics hold afterwards |
| `BitReader.BitRead.SeekHead` | src/engine/bitbuf.cpp:172-187 | a seek into the bytes before the first whole dword loads exactly the unread bits there |
| `BitReader.BitRead.SeekDWord` | src/engine/bitbuf.cpp:188-205 | a seek into a whole dword loads its unread top, a seek to the end leaves the sentinel |
| `BitReader.PartialWord` | src/engine/bitbuf.cpp:175-184 | up to three head bytes are put together into the number their bits denote |
| `BitReader.BitRead.StartReading` | src/engine/bitbuf.cpp:130-155 | any start bit, message length and buffer size: position, overflow flag and exactly when reads then follow the cursor |
| `BitReader.BitRead.ReadSBitLong` | include/tier1/bitbuf.h:551-555 | the two's-complement value of the next 1 to 32 bits |
| `BitReader.BitRead.PeekUBitLong` | include/tier1/bitbuf.h:559-569 | the value of the next read; the state is unchanged if and only if the bits are there; exactly when the zero guarantee survives |
| `BitReader.BitRead.ReadUBitVar` | include/tier1/bitbuf.h:580-600 | the reader's own layout, four data bits before the tag |
| `BitReader.BitRead.ReadVarInt` | src/engine/bitbuf.cpp:474-513 | the loop returns the base-128 number cut to 32 or 64 bits and stops where the number or the byte limit ends |
| `BitReader.BitRead.ReadVarInt32` | src/engine/bitbuf.cpp:474-492 | refines the 32-bit variable-length field |
| `BitReader.BitRead.ReadVarInt64` | src/engine/bitbuf.cpp:495-513 | refines the 64-bit variable-length field |
| `BitReader.BitRead.ReadSignedVarInt32` | include/tier1/bitbuf.h:243 | refines the zigzag-decoded 32-bit field |
| `BitReader.BitRead.ReadSignedVarInt64` | include/tier1/bitbuf.h:244 | refines the zigzag-decoded 64-bit field |
| `BitReader.BitRead.ReadBits` | src/engine/bitbuf.cpp:521-559 | for any address alignment the output bytes are the next nBits bits in order, the last byte zero-padded, and nothing behind them is touched |
| `BitReader.BitRead.ReadBytes` | src/engine/bitbuf.cpp:562-566 | true if and only if all bytes were there, and then they are the stream's bytes |
| `BitReader.BitRead.ReadChar` | src/engine/bitbuf.cpp:582-585 | one character, and what it means for the text read so far |
| `BitReader.BitRead.ReadString` | src/engine/bitbuf.cpp:574-606 | stops on every stream; the characters up to the terminator, cut to the buffer, always terminated; true if and only if nothing was cut and nothing overflowed; leaves the reader behind the whole text |
| `BitReader.ReadOverflowed` | include/tier1/bitbuf.h:460-547 | any run of reads with the flag set returns what the overflowed register returns |
| `BitReader.OverflowedBits` | include/tier1/bitbuf.h:6 | k one-bit reads of an overflowed reader in step with its buffer are all 0 if and only if the next k buffer bits are 0 |
| `BitReader.FailedSeekThenData` | include/tier1/bitbuf.h:6 | counterexample to "zeros once overflowed": after a failed seek in a message shorter than its buffer an overflowed reader returns a 1 |
| `BitReader.PeekThenData` | include/tier1/bitbuf.h:559-569 | the same after a peek past the end that is taken back |
| `BitReader.ReadsPastTheMessage` | src/engine/bitbuf.cpp:136-144 | counterexample: a read past the message but inside the buffer neither overflows nor returns 0 |
| `BitReader.EndlessBits` | src/engine/bitbuf.cpp:172-187 | counterexample: after a seek to the end of a one-byte buffer bits are read without overflow, for all the 2^31 reads that the int counter has room for |
| `Wire.RunOverflowsIff` | include/tier1/bitbuf.h:460-547 | a run of reads overflows if and only if it asks for more bits than remain, and otherwise consumes exactly their sum |
| `Wire.ZerosOnceOverflowed` | include/tier1/bitbuf.h:6 | once overflowed, every later read of every run returns 0 and the position stays at the end |
| `Wire.OverflowIsMessageEndIff` | src/engine/bitbuf.cpp:136-144 | overflow means that more bits were asked for than the message has left, for every number of bits, if and only if the message fills the buffer |
| `Overflowed.OneBitRun` | include/tier1/bitbuf.h:497-507 | with the flag set, one-bit reads hand out the bits ahead in order and then zeros |
| `Overflowed.OneBitZerosIff` | include/tier1/bitbuf.h:6 | k one-bit reads with the flag set are all 0 if and only if the next k bits ahead are 0 |
| `Overflowed.ZeroGuaranteeIff` | include/tier1/bitbuf.h:6 | with the flag set every run of reads of any widths returns only zeros, if and only if no bit ahead is set |
| `Wire.ReadSplits` | include/tier1/bitbuf.h:516-547 | reading a and then b bits is reading a + b bits and splitting the number |
| `Wire.FoldedIs` | include/tier1/bitbuf.h:497-547 | n one-bit reads folded lowest first make the n-bit number, or what remains of it |
| `Wire.WideReadIsFolded` | include/tier1/bitbuf.h:497-547 | a wide read equals its folded one-bit reads if and only if the bits are there, the reader had overflowed before, or the partial tail is all zero |
| `Wire.AnyCutGivesTheSameBits` | include/tier1/bitbuf.h:516-547 | the numbers read with any series of widths stand for the same bits in the same order |
| `Wire.SignedCodeIsTwosComplement` | src/engine/bitbuf.cpp:817-850 | magnitude bits and sign bit are the n-bit two's complement of every number that fits |
| `Wire.SignedReadBackIff` | src/engine/bitbuf.cpp:817-850 | a signed number is read back if and only if it fits its field |
| `Wire.SignedReadBackIs` | src/engine/bitbuf.cpp:817-850 | of any 32-bit number its low n - 1 bits and its sign come back |
| `Wire.ByteReadBackIff` | src/engine/bitbuf.cpp:1417-1420 | WriteByte and ReadByte: exactly the bytes below 0x80 come back, the others come back less 0x100 |
| `Wire.ShortReadBackIff` | src/engine/bitbuf.cpp:1423-1426 | WriteShort and ReadShort: exactly the non-negative numbers come back, the others come back plus 0x10000 |
| `ZigZag.EncodeIs` | include/tier1/bitbuf.h:111-131 | 2n for n >= 0 and -2n - 1 for n < 0, in any width |
| `ZigZag.DecodeIs` | include/tier1/bitbuf.h:117-131 | even codes are halved, odd codes are negated halves less one |
| `ZigZag.DecodeEncode` | include/tier1/bitbuf.h:111-131 | decoding undoes encoding for every N-bit signed integer |
| `ZigZag.EncodeDecode` | include/tier1/bitbuf.h:111-131 | encoding undoes decoding for every N-bit code, so the map is a bijection |
| `ZigZag.SmallerMagnitudeSmallerCode` | include/tier1/bitbuf.h:87-100 | a number of smaller magnitude has a smaller code |
| `ZigZag.SignExtends` | include/tier1/bitbuf.h:551-555 | shifting a field to the top of the register and arithmetically back gives its two's-complement value |
| `VarInt.RoundTrip` | src/engine/bitbuf.cpp:972-1032 | a written number is read back and the reader stops behind it, for any byte limit that the code fits |
| `VarInt.SizeLimits` | src/engine/bitbuf.cpp:1164-1183 | at most 5 bytes for 32-bit and 10 bytes for 64-bit numbers |
| `VarInt.SizeIs` | src/engine/bitbuf.cpp:1164-1183 | k bytes suffice if and only if the number is below 2^(7k) |
| `VarInt.SearchFindsSize` | src/engine/bitbuf.cpp:1048-1120 | the hard-coded search over three 32-bit parts finds the byte count of every 64-bit number |
| `VarInt.PartSeptet` | src/engine/bitbuf.cpp:1044-1046 | seven-bit group 4p + j of the number is group j of its part p |
| `UBitVar.BranchFreeIsReference` | include/tier1/bitbuf.h:654-674 | for every 32-bit number, wrap-around included, the branch-free form emits the four-branch reference code, in 6, 10, 14 or 34 bits |
| `UBitVar.ReferenceRoundTrip` | include/tier1/bitbuf.h:656-666 | the reference layout decodes to the number |
| `UBitVar.UniquelyDecodable` | include/tier1/bitbuf.h:656-666 | the code is prefix-free: equal concatenations are concatenations of equal numbers |
| `UBitVar.ReadBackIff` | include/tier1/bitbuf.h:580-600 | ReadUBitVar gives back what WriteUBitVar wrote if and only if the low nibble of the number is five times its tag |
| `UBitVar.ReaderLayoutRoundTrip` | include/tier1/bitbuf.h:580-600 | of the layout with four data bits before the tag, the reader gives back every number under every tag that has room for it |
| `UBitVar.OneReadsAsFour` | include/tier1/bitbuf.h:580-600 | counterexample: 1 comes back as 4 |
| `Text.RoundTrip` | src/engine/bitbuf.cpp:1473-1489 | text without stop characters is read back and the reader stops behind its terminator |
| `Text.LineRoundTrip` | src/engine/bitbuf.cpp:582-588 | a line is read up to its line feed and the reader stops behind that |
| `Text.Length` | src/engine/bitbuf.cpp:574-606 | a text never has more characters than the stream has bytes left |
| `Message.FieldRoundTrip` | include/tier1/bitbuf.h:319-341 | every field its kind can carry is read back by the reader of that kind |
| `Message.AnyBytesRead` | src/engine/bitbuf.cpp:474-513 | any bytes are read as their base-128 number cut to 32 or 64 bits, at most five or ten of them, also codes longer than need be |
| `Message.AnyBytesReadSigned` | src/engine/bitbuf.cpp:474-513 | so they are for signed numbers: even codes halved, odd ones halved and negated less one |
| `Message.SignedSizeIff` | include/tier1/bitbuf.h:87-100 | k bytes suffice for a signed number if and only if it fits 7k bits in two's complement |
| `Message.MessageRoundTrip` | include/tier1/bitbuf.h:319-341 | any list of fields of mixed kinds is read back, whatever precedes and follows it |
| `BitWriter.PutBitIs` | include/tier1/bitbuf.h:615-618 | setting or clearing one bit of a byte changes that bit only |
| `BitWriter.BitWriteMask` | src/engine/bitbuf.cpp:28-84 | the mask table keeps exactly the bits outside the written range |
| `BitWriter.MergeDWord` | src/engine/bitbuf.cpp:785-790 | masking and or-ing merges the number into the dword; bits above its width spill upwards |
| `BitWriter.FittingWriteIsExact` | src/engine/bitbuf.cpp:753-813 | a number that fits its width changes nothing outside its bits |
| `BitWriter.SplicedBits` | src/engine/bitbuf.cpp:784-810 | every bit of the buffer after a write: the number's bits in their place, what it has above them or-ed up to the end of the dword, all others unchanged |
| `BitWriter.SpliceOne` | src/engine/bitbuf.cpp:784-793 | one merged dword is the whole effect of a write that does not straddle |
| `BitWriter.SpliceTwo` | src/engine/bitbuf.cpp:795-810 | two merged dwords are the whole effect of a write that straddles |
| `BitWriter.BitWrite.constructor` | include/tier1/bitbuf.h:304 | a writer starts at bit 0 of the caller's bytes, of which it uses the whole dwords |
| `BitWriter.BitWrite.StartWriting` | src/engine/bitbuf.cpp:695-720 | position, limits and contents after starting at any bit of a buffer of any length, which is cut to whole dwords |
| `BitWriter.BitWrite.WriteOneBitNoCheck` | include/tier1/bitbuf.h:612-620 | exactly the bit at the position changes, and the position advances by one |
| `BitWriter.BitWrite.WriteOneBit` | include/tier1/bitbuf.h:624-629 | the bit is written if and only if no overflow is or becomes set |
| `BitWriter.BitWrite.WriteOneBitAt` | include/tier1/bitbuf.h:632-645 | exactly the addressed bit changes if it is in range; the position does not move |
| `BitWriter.BitWrite.StoreBytes` | src/engine/bitbuf.cpp:890 | storing bytes replaces exactly their bits |
| `BitWriter.BitWrite.WriteUBitLong` | src/engine/bitbuf.cpp:753-813 | the whole buffer afterwards: the low bits appended and what spills behind them; or overflow at the end and an unchanged buffer; earlier bits are kept either way |
| `BitWriter.BitWrite.WriteSBitLong` | src/engine/bitbuf.cpp:817-850 | appends magnitude and sign bits; overflow if and only if set before or out of room; earlier bits are kept |
| `BitWriter.BitWrite.WriteUBitVar` | include/tier1/bitbuf.h:654-674 | appends exactly the reference code, or overflows at the end; earlier bits are kept either way |
| `BitWriter.BitWrite.StoreVarInt32` | src/engine/bitbuf.cpp:975-1020 | the aligned fast path stores the same code as the slow path and changes nothing else |
| `BitWriter.BitWrite.StoreVarInt64` | src/engine/bitbuf.cpp:1038-1139 | the size search and the fall-through labels store the same code as the slow path and change nothing else |
| `BitWriter.BitWrite.WriteSeptets` | src/engine/bitbuf.cpp:1021-1031 | the slow path appends the code byte by byte, or overflows at the end with earlier bits kept |
| `BitWriter.BitWrite.WriteVarInt32` | src/engine/bitbuf.cpp:972-1032 | both paths append the same code, or overflow at the end with earlier bits kept |
| `BitWriter.BitWrite.WriteVarInt64` | src/engine/bitbuf.cpp:1035-1149 | both paths append the same code, or overflow at the end with earlier bits kept |
| `BitWriter.BitWrite.WriteSignedVarInt32` | src/engine/bitbuf.cpp:1152-1155 | appends the code of the zigzag image |
| `BitWriter.BitWrite.WriteSignedVarInt64` | src/engine/bitbuf.cpp:1158-1161 | appends the code of the zigzag image |
| `BitWriter.BitWrite.WriteChar` | src/engine/bitbuf.cpp:1478-1484 | one character is appended to the text written so far, or the writer overflows with earlier bits kept |
| `BitWriter.BitWrite.WriteString` | src/engine/bitbuf.cpp:1473-1489 | appends characters and terminator; true if and only if no overflow is set; overflow if and only if set before or out of room; earlier bits are kept either way |
| `BitWriter.BitWrite.CopyBlock` | src/engine/bitbuf.cpp:886-894 | the block copy moves all whole bytes to a byte-aligned position |
| `BitWriter.BitWrite.JoinDWord` | src/engine/bitbuf.cpp:909-919 | one step of the unaligned dword loop keeps carried bits and copied bits in order |
| `BitWriter.BitWrite.CopyDWords` | src/engine/bitbuf.cpp:895-932 | the unaligned dword loop copies the input bits in order |
| `BitWriter.BitWrite.WriteBits` | src/engine/bitbuf.cpp:861-950 | for any input address, write position and bit count the input bits are appended in order; too many change nothing but the flag |
| `BitWriter.BitWrite.WriteBitsFromBuffer` | src/engine/bitbuf.cpp:953-964 | moves exactly the next bits of the reader behind the writer's position, 32 at a time; both ends' positions and flags; earlier bits are kept |
| `RoundTrip.WriteAllBits` | include/tier1/bitbuf.h:612-620 | n one-bit writes append the n bits |
| `RoundTrip.ReadAllNumbers` | include/tier1/bitbuf.h:516-547 | any run of reads through the prefetching reader returns what the cursor returns |
| `RoundTrip.BitsThrough` | include/tier1/bitbuf.h:460-620 | bits written one by one come back in order, whatever widths the reader uses |
| `RoundTrip.WriteField` | include/tier1/bitbuf.h:319-341 | each writing method appends its field's code; overflow if and only if set before or out of room |
| `RoundTrip.ReadField` | include/tier1/bitbuf.h:205-283 | each reading method returns its field and stops behind it |
| `RoundTrip.WriteMessage` | include/tier1/bitbuf.h:319-341 | a message is appended field by field; overflow if and only if set before or out of room; earlier bits are kept either way |
| `RoundTrip.ReadMessage` | include/tier1/bitbuf.h:205-283 | a message is read field by field |
| `RoundTrip.WriteMessageAt` | include/tier1/bitbuf.h:319-341 | a message is written at any bit of a buffer of any length; overflow if and only if it does not fit the whole dwords |
| `RoundTrip.MessageThrough` | include/tier1/bitbuf.h:205-341 | any message written at any bit of a buffer is read back from there unchanged, and the reader ends where the writer ended |
| `SpinRWLock.LiteralIsIntendedIff` | include/tier0/threadtools.h:85-89 | the compare-and-swap as it is called agrees with its name if and only if nothing would be swapped in |
| `SpinRWLock.StepKeepsInv` | include/tier0/threadtools.h:723-841 | every step of every thread keeps: one writer and no reader with word 0x10000, or the exact reader count; the id is the writer's |
| `SpinRWLock.RunKeepsInv` | include/tier0/threadtools.h:723-841 | so does every interleaving |
| `SpinRWLock.MutualExclusion` | include/tier0/threadtools.h:723-841 | in every reachable state of any number of threads a writer excludes every other holder |
| `SpinRWLock.WordIsExact` | include/tier0/threadtools.h:723-786 | the word is 0x10000 under a writer and otherwise the number of readers |
| `SpinRWLock.WriterBitMeansWriter` | include/tier0/threadtools.h:689-703 | with at most 65535 threads the writer half is set exactly while a thread holds the write lock |
| `SpinRWLock.WriterBitMeansWriterIff` | include/tier0/threadtools.h:775-776 | that holds on all runs if and only if there are at most 65535 threads |
| `SpinRWLock.AllRead` | include/tier0/threadtools.h:768-786 | k threads can hold the read lock at once, for every k up to 65536 |
| `SpinRWLock.WriterIdIsExact` | include/tier0/threadtools.h:726-736 | the id is a thread's exactly while it is the claimed writer, and 0 for a fresh winner and for every reader |
| `SpinRWLock.StoresLoseNothing` | include/tier0/threadtools.h:813-825 | while a thread holds the write lock no other thread changes the word or the id |
| `SpinRWLock.AssertionsHold` | include/tier0/threadtools.h:729-833 | the assertions at lines 729, 781, 815 and 833 hold at every step of every run of at most 65535 threads |
| `SpinRWLock.LastAssertionIff` | include/tier0/threadtools.h:838-840 | the assertion at line 840 holds if and only if no writer is in |
| `SpinRWLock.LastAssertionCanFail` | include/tier0/threadtools.h:838-840 | a reachable state of two threads in which it fails |
| `SpinRWLock.UndisturbedWriteIff` | include/tier0/threadtools.h:723-739 | from every reachable state an undisturbed TryLockForWrite takes the lock in four steps if and only if nobody holds it, and otherwise is back where it was after its swap, or after its test if the writer bit is set |
| `SpinRWLock.UndisturbedReadIff` | include/tier0/threadtools.h:768-786 | an undisturbed TryLockForRead succeeds if and only if the word is below 0x10000, and otherwise changes nothing |
| `SpinRWLock.UndisturbedRelease` | include/tier0/threadtools.h:813-841 | an undisturbed release takes the holder out and leaves the rest |
| `SpinRWLock.WriteSwapIff` | include/tier0/threadtools.h:726-738 | among the steps of all other threads, the write swap takes the lock if and only if nobody holds it at that moment; otherwise the try returns false and nothing else changes |
| `SpinRWLock.ReadSwapIff` | include/tier0/threadtools.h:773-785 | the read swap joins if and only if there is no writer and the number of readers is still the one loaded; otherwise the try returns false and nothing else changes |
| `SpinRWLock.TryReturns` | include/tier0/threadtools.h:723-786 | over every interleaving a try returns within five steps of its own: false after its test or its swap, true as a holder after four steps (write) or five (read) |
| `SpinRWLock.QuiescentIsFresh` | include/tier0/threadtools.h:813-841 | once every thread is idle the lock is as it was built |
| `SpinRWLock.RWLock.TryLockForWrite` | include/tier0/threadtools.h:723-739 | the method is the steps of its thread, whether it takes the lock or returns false |
| `SpinRWLock.RWLock.TryLockForRead` | include/tier0/threadtools.h:768-786 | the method is the steps of its thread, whether it takes the lock or returns false |
| `SpinRWLock.RWLock.UnlockWrite` | include/tier0/threadtools.h:813-825 | the method is the steps of its thread |
| `SpinRWLock.RWLock.UnlockRead` | include/tier0/threadtools.h:831-841 | the method is the steps of its thread |
| `SpinRWLock.LiteralNeverAcquires` | include/tier0/threadtools.h:85-89 | with the arguments as they are passed, no run of any number of threads changes the word |
| `SpinRWLock.LiteralLockIsDead` | include/tier0/threadtools.h:85-89 | nor does any thread ever hold the lock |
| `Interlocked.OpIs` | include/tier0/threadtools.h:236-251 | the product less a multiple of 2^32, and the whole part of the quotient |
| `Interlocked.InterlockedInt.Update` | include/tier0/threadtools.h:236-251 | the retry loop applies the operation once, to the latest value anyone wrote, and retries exactly while the value changes under it |
| `Interlocked.InterlockedInt.UpdateLiteral` | include/tier0/threadtools.h:236-251 | with the arguments as they are passed, every value the loop leaves was there before, whatever other threads write; undisturbed it changes nothing and ends if and only if the value is not 0 |
| `Interlocked.LiteralUpdateIsRightIff` | include/tier0/threadtools.h:236-251 | a round as written, with any value in the variable at the swap, is right if and only if the result is not 0 and nothing would change |
| `Interlocked.LiteralLosesAWriteIff` | include/tier0/threadtools.h:236-251 | it undoes another thread's write if and only if that thread wrote the very result about to be stored; the example 5, doubled, against a written 10 |
| `AddressString.ParseDLLOffsetString` | src/tier0/hooks.cpp:51-82 | the method is the parse function that the lemmas below are about: the name's end, the number's start, 0 for a module not loaded, the signed 32-bit conversion and its two failures |
| `AddressString.Located` | src/tier0/hooks.cpp:51-82 | for a name, any separator that starts with a blank or plus sign and has no digit, and an offset text, both scans stop where name and offset end and begin |
| `AddressString.StoIOfNumeral` | src/tier0/hooks.cpp:75-79 | blanks, a sign, a prefix and a numeral with letters of either case and leading zeros convert to the signed number if and only if it is a 32-bit int, and are out of range otherwise; what follows is ignored |
| `AddressString.PrintIsNumeral` | src/tier0/hooks.cpp:75-79 | every number has a numeral in each base, in capitals and in small letters |
| `AddressString.StopsIff` | src/tier0/hooks.cpp:56-58 | a name ends at a plus sign or one of the six blanks, by their codes |
| `AddressString.ParseOfSpelling` | src/tier0/hooks.cpp:51-82 | every spelling of an address means handle plus number modulo 2^64 if the number is a 32-bit int, and is out of range otherwise: any name, separator, base, letter case, leading zeros, and sign and blanks behind a hexadecimal mark |
| `AddressString.ParseWithoutNumber` | src/tier0/hooks.cpp:67-79 | with no digit behind the name or behind the hexadecimal mark the conversion's exception escapes |
| `AddressString.SmallLettersExample` | src/client/origin.cpp:265 | the repository's own address in small letters means handle + 0xA1850 |
| `AddressString.OneName` | include/tier0/hooks.h:642-655 | the module name extracted from a spelling is the one it was written with |
| `AddressString.DocumentedExampleIsOutOfRange` | src/tier0/hooks.cpp:53 | the comment's own example does not parse |
| `AddressString.ExtractModuleName` | include/tier0/hooks.h:642-655 | the longest prefix without a space or plus sign |
| `AddressString.NamesAgreeIff` | include/tier0/hooks.h:642-655 | the awaited module is the parsed one if and only if the text does not start with a stop character |
| `Hooks.StepKeepsInv` | include/tier0/hooks.h:574-622 | every MinHook call of every hook keeps: each known address has one owner or has leaked |
| `Hooks.RunKeepsInv` | include/tier0/hooks.h:574-622 | so does every interleaving with any failures and module loads |
| `Hooks.EnabledIsLive` | include/tier0/hooks.h:599-621 | an enabled hook is created and enabled in MinHook, and no two share an address |
| `Hooks.NothingLeftBehind` | include/tier0/hooks.h:599-617 | between attempts MinHook knows exactly the enabled hooks and the leaked addresses, and only the former are enabled |
| `Hooks.LeakedIff` | include/tier0/hooks.h:607-617 | over any run, the leaked addresses are exactly those whose removal MinHook refused somewhere in it |
| `Hooks.LeakIsForever` | include/tier0/hooks.h:599-617 | no hook is ever enabled at a leaked address |
| `Hooks.OnForever` | include/tier0/hooks.h:574-579 | an enabled hook stays enabled at its address, which is never removed or created again |
| `Hooks.AttemptOutcome` | include/tier0/hooks.h:599-621 | an attempt succeeds exactly when nothing fails and the address is free; otherwise MinHook is unchanged unless the removal failed |
| `Hooks.JobsAreARun` | include/tier0/hooks.h:711-715 | a series of whole attempts is one run of MinHook calls, so it keeps what every run keeps |
| `Hooks.JobsKeep` | include/tier0/hooks.h:711-715 | a series of attempts touches no other hook, switches none off, and MinHook learns no address but theirs |
| `Hooks.EachJobsOutcome` | include/tier0/hooks.h:599-621 | with one attempt each, a hook is on afterwards if and only if it was on, or its attempt met a free address and no failure |
| `Hooks.StillFree` | include/tier0/hooks.h:599-604 | an address free at the start that no earlier attempt is for is free when its turn comes |
| `Hooks.ParsesWhatIsLoaded` | include/tier0/hooks.h:580-597 | the module that the address text names is the one found loaded before |
| `Hooks.Addresses` | include/tier0/hooks.h:580-640 | without the code that finds it: each mode's address, 0 for a module not named or not loaded, an exception if and only if the written number is no 32-bit int |
| `Hooks.LambdaHook.ResolveAddress` | include/tier0/hooks.h:624-640 | the method is the address function that Addresses is about, the exception of the number conversion included |
| `Hooks.LambdaHook.Install` | include/tier0/hooks.h:574-622 | the method is one attempt of its hook; for each mode what it returns and what MinHook knows afterwards, at the given address, at the exported procedure, or at handle plus number of any spelling; false for a module not named or not loaded |
| `HookRegistry.HookModule.RegisterHook` | include/tier0/hooks.h:685-691 | the map then leads from the hook's name to this hook and is otherwise unchanged; a null hook is ignored |
| `HookRegistry.HookModule.FindHook` | include/tier0/hooks.h:693-700 | of any series of registrations the one of that name at the greatest index; null if and only if there is none |
| `HookRegistry.LatestIsNullIff` | include/tier0/hooks.h:693-700 | nothing is found if and only if the name was never registered |
| `HookRegistry.LatestIs` | include/tier0/hooks.h:685-700 | the hook that the name stands for is the registration after which no other has that name |
| `HookRegistry.WaitsForIff` | include/tier0/hooks.h:717-740 | exactly the hooks found by offset text or procedure name in a module of this name wait for it, letters of either case being the same |
| `HookRegistry.LowerIff` | include/tier0/hooks.h:727-733 | two names compare equal if and only if they have the same characters up to the case of letters |
| `HookRegistry.HookModule.Dispatch` | include/tier0/hooks.h:711-715 | unless one throws, every registered hook makes its whole attempt once, in any order; a hook is on only if it was, or its address was free and nothing failed, and if so is on, unless two want one address; no other hook changes; all invariants are kept |
| `HookRegistry.HookModule.DispatchForModule` | include/tier0/hooks.h:717-740 | the same for exactly the hooks waiting for that module, case ignored; hooks at absolute addresses are left alone |
| `HookRegistry.HookModule.DispatchEach` | include/tier0/hooks.h:711-715 | the loop over the hooks is a series of whole attempts, each at the address its hook resolves to, and stops at the first that throws |
| `HookRegistry.HookModule.DispatchNames` | include/tier0/hooks.h:711-740 | what that series means for each hook of the program |
| `HookRegistry.Registry.RegisterHookModule` | include/tier0/hooks.h:754-762 | the module list never holds duplicates |
| `HookRegistry.Registry.GetOrCreateFileHookModule` | include/tier0/hooks.h:764-783 | the module of a file is created once and found again, and its name is the given one or the file's |
| `HookRegistry.Registry.GetAll` | include/tier0/hooks.h:764-783 | in any series of calls equal files give the same module and different files different ones |
| `HookRegistry.Registry.FindHook` | include/tier0/hooks.h:793-803 | the registration at the greatest index of that name, in the first module that has any; null if and only if none has |
| `HookRegistry.HookThread.Invoke` | include/tier0/hooks.h:165-190 | over any tree of invocations, before and after each opened and closed scope the active name is the top of the stack of names opened and not yet closed; first the hook's own, and at the end the initial one |
| `Profile.Find` | dedicated/main.cpp:288 | the first occurrence, or none |
| `Profile.FoundWherePut` | dedicated/main.cpp:288 | a needle without a border is found where it was put, behind any text that lacks it |
| `Profile.NeedleIsUnbordered` | dedicated/main.cpp:288 | the option's text has no border |
| `Profile.UnquotedRoundTripIff` | dedicated/main.cpp:292-298 | an unquoted name is extracted if and only if it has no space and starts with no quote |
| `Profile.QuotedRoundTripIff` | dedicated/main.cpp:299-307 | a quoted name is extracted if and only if it has no quote |
| `Profile.Unterminated` | dedicated/main.cpp:299-307 | without a closing quote the rest of the line is taken |
| `Profile.ProfileIs` | proxy/loader.cpp:68-86 | behind the first option the profile runs to the closing quote if it is quoted, and otherwise to the next space |
| `Profile.FirstOptionWinsIff` | proxy/loader.cpp:68-86 | a later option, or anything else behind, has no effect if and only if a space or the closing quote ended the first one before, or what follows is empty or begins with that end |
| `Profile.DefaultWithoutOption` | dedicated/main.cpp:309-313 | the default without the option |
| `PowerOfTwo.SmearTwice` | include/mathlib/math_pfns.h:12-16 | each or-and-shift doubles the reach of the smearing |
| `PowerOfTwo.SmallestPowerOfTwoGreaterOrEqual` | include/mathlib/math_pfns.h:9-18 | the least power of two not below x for 1 <= x <= 2^31, and 0 for every other 32-bit x |
| `PowerOfTwo.LargestPowerOfTwoLessThanOrEqual` | include/mathlib/math_pfns.h:20-27 | the greatest power of two not above x for every 32-bit x >= 1, and 0 for 0 |
| `PowerOfTwo.FixedPointIff` | include/mathlib/math_pfns.h:9-27 | both return x itself if and only if x is a power of two, and otherwise neighbouring powers |
| `MachineOps.ROL` | include/common/pseudodefs.h:229-250 | rotates the bits by any count, negative ones to the right, in any width |
| `MachineOps.ROR` | include/common/pseudodefs.h:256-259 | the rotation by the opposite count |
| `MachineOps.RotateTwice` | include/common/pseudodefs.h:229-259 | two rotations add their counts, and opposite ones restore the value |
| `MachineOps.OverflowIffOutOfRange` | include/common/pseudodefs.h:289-320 | for operands of one size the overflow flags are set if and only if the exact signed result leaves the N-bit range |
| `MachineOps.OperandIs` | include/common/pseudodefs.h:289-320 | a signed operand is the number of its width congruent to its bit pattern, also when it is widened; a narrower unsigned one is its bit pattern |
| `MachineOps.NoOverflowIsExact` | include/common/pseudodefs.h:289-320 | the wrapped result is the signed result if and only if the flag is clear |
| `MachineOps.CarryIff` | include/common/pseudodefs.h:330-359 | the carry and borrow flags are set if and only if the unsigned result does not fit |
| `MachineOps.MixedOverflowIff` | include/common/pseudodefs.h:289-320 | for operands of any two sizes and signednesses, the overflow flags are set if and only if the result leaves the range of the wider type |
| `MachineOps.MixedCarryIff` | include/common/pseudodefs.h:330-359 | for operands of any two sizes, the carry and borrow flags are set if and only if the unsigned result of the converted operands does not fit |
| `MachineOps.CarryOfShl` | include/common/pseudodefs.h:262-268 | the carry of a left shift by any count, reduced by the width, is the last bit moved out |
| `MachineOps.IsMulOkIff` | include/common/pseudodefs.h:196-202 | the division test holds if and only if the product fits |
| `MachineOps.QMemCpy` | include/common/pseudodefs.h:213-226 | the forward copy for any overlap: where each byte comes from, and nothing else changes |
| `MachineOps.PeriodIsMod` | include/common/pseudodefs.h:213-226 | onto a place behind the source the first bytes repeat with the distance as period |
| `ByteSwap.LowLevelByteSwap` | include/tier1/byteswap.h:208-245 | the output is the reversed input, also when both are the same element |
| `ByteSwap.ReversedTwice` | include/tier1/byteswap.h:241-244 | reversal is its own inverse |
| `ByteSwap.CByteSwap.Apply` | include/tier1/byteswap.h:70-87 | after any series of setters bytes are swapped if and only if the target differs from the machine |
| `ByteSwap.CByteSwap.SwapBuffer` | include/tier1/byteswap.h:140-160 | every value of the buffer reversed, in place or into another buffer; the rest unchanged |
| `ByteSwap.CByteSwap.SwapBufferToTargetEndian` | include/tier1/byteswap.h:168-201 | reversed or copied according to the target; the rest unchanged |
| `ByteSwap.CByteSwap.SwapTwice` | include/tier1/byteswap.h:168-201 | swapping in place twice restores every value |
| `ByteSwap.DWordSwapIsByteSwap` | include/tier1/bitbuf.h:22-35 | the four-term form is the byte loop at four bytes |
| `ByteSwap.FloatReadBackIff` | src/engine/bitbuf.cpp:1453-1459 | WriteFloat and ReadFloat: a bit pattern comes back if and only if it reads the same in both byte orders; otherwise byte-swapped |
| `FastTimer.ThereAndBack` | include/tier0/fasttimer.h:287-305 | microseconds to cycles and back loses one microsecond if and only if the cycles are not whole |
| `FastTimer.CycleCount.SetThenGet` | include/tier0/fasttimer.h:287-305 | the same through the two methods, while the product fits 64 bits |
| `FastTimer.LimitTimer.SetThenReached` | include/tier0/fasttimer.h:486-503 | with the 32-bit speed the timer keeps, the limit is reached never later than the duration, and earlier by less than one cycle, at any clock speed |
| `FastTimer.LimitTimer.SetThenLeft` | include/tier0/fasttimer.h:486-535 | right after the limit is set the time left is the duration, or one less if its cycles at the 32-bit speed are not whole |
| `FastTimer.LimitTimer.ClockAdvances` | include/tier0/fasttimer.h:509-535 | as the clock advances the time left never grows, the overage never shrinks, and they are never both positive |
| `FastTimer.LimitTimer.StoppedClock` | include/tier0/fasttimer.h:486-521 | at a whole multiple of 2^32 Hz every limit is reached at once, and reading the overage divides by 0 |
| `FastTimer.OnTimeIff` | include/tier0/fasttimer.h:486-503 | limits keep real time for every duration whose product fits 64 bits, if and only if the clock is below 2^32 Hz |
| `FastTimer.ShortMillisecond` | include/tier0/fasttimer.h:25 | counterexample: at 4.5 GHz a limit of 1000 microseconds is reached after 205032 cycles |
| `FastTimer.TimeAdder.End` | include/tier0/fasttimer.h:403-411 | the elapsed time is added once, however often the timer is ended |
| `FastTimer.AverageCycleCounter.MarkIter` | include/tier0/fasttimer.h:430-436 | iterations, wrapped total and peak of all durations marked so far |
| `Align.PadIsLeastIff` | include/tier0/basetypes.h:221-224 | padding gives the least multiple not below the number, negative ones included, if and only if the number is above minus the boundary or one above a multiple |
| `Align.AlignIsPadIff` | include/tier0/basetypes.h:215-219 | for a power of two, masking is padding if and only if the addition does not wrap; otherwise it gives 0 |
| `Align.BitByteIsPadIff` | include/tier1/bitbuf.h:76-80 | for every 32-bit int, wrap-around included: the exact condition under which the shift is the padding shifted; without wrap-around it is the number of bytes that the bits need |

## Left out

- RoundTrip.WriteMessage: a field of no bits, and the zero-bit write inside `WriteSBitLong(n, 1)`, must not meet the very end of the buffer, because `WriteUBitLong` asserts that the dword there exists.
- RoundTrip.MessageThrough: does not cover `WriteUBitVar`, `WriteByte`, `WriteShort` and `WriteFloat`, whose readers differ; their exact conditions are proved separately.
- BitWriter.BitWrite.WriteBits: input and output are different arrays, because the source copies blocks with memcpy.
- BitWriter.BitWrite.WriteBitsFromBuffer: the reader reads another array than the writer writes.
- BitReader.BitRead.ReadBits: the output is another array than the reader's.
- FastTimer.CycleCount.SetThenGet: requires that the 64-bit product does not wrap, as the conversion does.
- FastTimer.LimitTimer.ClockAdvances: requires a 32-bit speed that is not 0, and readings whose 64-bit products do not wrap and whose overage fits an int.
- MachineOps.ROL: counts that are multiples of the width are excluded for 32 and 64 bits, where the source then shifts by the full width, which C++ leaves undefined; only the unsigned types that the wrappers use.
- AddressString.ParseDLLOffsetString: requires a space or plus sign behind the first character, because the scan does not stop at the terminating zero. `Hooks.LambdaHook.Install` asks for it only where it comes to parsing.
- FastTimer.LimitTimer.SetThenReached: requires that the end of the duration in millionths of cycles fits 64 bits.
- Hooks.LambdaHook.Install: the trampoline pointer and log output are not modelled.
- `HookModule::DispatchHook`, which finds one hook and dispatches it.
- HookRegistry.HookModule.Dispatch: each dispatch runs its attempt to the end; interleaved attempts are covered by the runs in `Hooks`.
- Interlocked.InterlockedInt.Update: models `T = uint32`; other threads write a finite number of times, so that the loop ends.
- The spinning waits of the lock, thread priorities and sleeping, and the re-entrant build of the lock.
- Coordinates, normals and angles, which are floating point; floats are modelled as bit patterns only.
- Wide strings, allocated strings, `ReadLongLong`, debug names, error handlers and range checks of debug builds.
- Overlapping but unequal in-place byte-swap buffers, and the field-wise swapping by data maps.
- `ManualHook`, `MakeHook` and import-table hooks, which do not go through `Install`.
- Interfaces, structure layouts, offset tables, file, process, socket and window handling.
