# 24XX1025 EEPROM driver, modelled in Dafny

The Microchip 24XX1025 is an I2C EEPROM of 131072 bytes. Its memory is split
into two blocks of 65536 bytes, and each block into pages of 128 bytes. The
block is chosen by a bit of the bus device address, and only the 16-bit
address within the block is sent on the bus. On its own, the device can
neither read across the block boundary nor write across a page boundary.

The Arduino driver `EEPROM_24XX1025` hides these limits. This project models
its core:

- **Address macros.** `BLOCKNUM`, `TO_PAGEADDR` and `TO_FULLADDR` split a flat
  17-bit address into a block and a 16-bit in-block address, and join the two
  back (module `Codec`).
- **Split arithmetic.** readChunk clamps a read to the end of the device and
  splits it at the block boundary. writeChunk splits a write at a page
  boundary; the second part can start in the other block. The public loops
  cut a transfer into 240-byte (read) or 128-byte (write) pieces (module `Plans`).
- **Bus and device.** Every bus transfer either fails or moves bytes between
  the caller's buffer and the device. Whether it fails is left open. The
  device keeps its own address counter, and a ghost trace records each
  transfer, with its block, its addressing and its outcome (module `Bus`).
- **Chunk-routine effects.** What readChunk, writeSinglePage and writeChunk
  do to the cursor, the shadow pointer, the device and the buffer, for every
  combination of bus outcomes (module `Effects`).
- **Public-operation effects.** The same for `read()`, `write(byte)` and the
  four public `read`/`write` overloads, together with the loop invariants of
  the two public loops (module `LinearIO`).
- **The driver class.** `Eeprom24xx1025` has the fields `curpos` (the
  software cursor) and `eepromPos` (the shadow of the device's counter;
  `0xffffffff` means unknown). Every routine is a method that updates them in
  place, and each is proved against the effect predicates above (module
  `Driver`).

Both fields are 32-bit values. Every addition to them is taken modulo 2^32
(`Add32`), including the addition to the sentinel at line 73. `Coherent(s)`
is the property that makes the address-less single-byte read correct: if the
shadow pointer equals the cursor, then the device's counter is at the cursor.

Some behaviours of the code are easy to misread; the model follows the code:

- When the second half of a split write fails, writeChunk returns 0, not the
  length of the first half. The cursor has still moved past the first half.
- A public read of more than 255 bytes, or a public write of more than 128,
  goes through a loop. If that loop stops early, it returns a whole number of
  pieces, a multiple of 240 or of 128. A failure partway through a piece is
  not counted, but the cursor still moves past what that piece transferred;
  the contracts call this amount `extra`. Shorter requests are one readChunk
  or writeChunk and return what it returns. For example, a 6-byte read at
  65533 whose second bus read fails returns 3.
- A failed `read()` does not make the shadow pointer unknown. It still
  advances the pointer together with the cursor (`ByteReadFailureKeepsShadow`).
- An explicit-address read or write advances the cursor and the shadow pointer
  by the count (lines 73-74 and 94-95), not to `fulladdr + count`. The
  exception is a read that crosses from block 0 into block 1. It sets the
  shadow pointer to `TO_FULLADDR(1, ...)`, which is `fulladdr + count`
  (line 59, `StraddleBothLand`). So "shadow equals cursor implies
  the device is at the cursor" is not an invariant of every operation
  (`ReadChunkAwayIncoherent`), and the next `read()` can then return a byte
  from the wrong address (`ReadAwayThenReadByte`). The model proves that it
  is kept by every chunk, loop and successful single-byte operation at the
  cursor, that is, whenever `fulladdr == curpos`. It has two exceptions:
  - a failed `read()` (`ByteReadFailureKeepsShadow`);
  - a failed `write(byte)` while the cursor holds `0xffffffff`
    (`ByteWriteStores`).

## Model

| member | source | states |
|---|---|---|
| Codec.Add32 | Arduino/EEPROM/EEPROM_24XX1025/EEPROM_24XX1025.cpp:73-74 | a `uint32_t` addition: the exact sum below 2^32, the sum less 2^32 above it |
| Codec.BlockNum | Arduino/EEPROM/EEPROM_24XX1025/EEPROM_24XX1025.cpp:22 | the block is 0 or 1, and inside the device it is 1 exactly from address 65536 on |
| Codec.PageAddr | Arduino/EEPROM/EEPROM_24XX1025/EEPROM_24XX1025.cpp:27 | the in-block address is below 65536, and below 65536 it is the address itself |
| Codec.FullAddr | Arduino/EEPROM/EEPROM_24XX1025/EEPROM_24XX1025.cpp:30 | joining a block and an in-block address gives a device address, in block 1 exactly when the block is 1 |
| Codec.SplitJoin | Arduino/EEPROM/EEPROM_24XX1025/EEPROM_24XX1025.cpp:22-30 | every device address is the join of its block and in-block address |
| Codec.SplitJoinAny | Arduino/EEPROM/EEPROM_24XX1025/EEPROM_24XX1025.cpp:22-30 | on any 32-bit value, split then join keeps the address modulo the capacity |
| Codec.JoinSplit | Arduino/EEPROM/EEPROM_24XX1025/EEPROM_24XX1025.cpp:22-30 | splitting a joined (block, in-block address) pair gives the pair back |
| Codec.PageAddrStep | Arduino/EEPROM/EEPROM_24XX1025/EEPROM_24XX1025.cpp:27 | moving k bytes on from an in-block address wraps within the block |
| Codec.PageAddrSucc | Arduino/EEPROM/EEPROM_24XX1025/EEPROM_24XX1025.cpp:172 | the in-block address after a 32-bit increment is the old one plus one, modulo 65536 |
| Codec.PageAddrPeriodic | Arduino/EEPROM/EEPROM_24XX1025/EEPROM_24XX1025.cpp:27 | addresses one capacity apart share their in-block address |
| Plans.ReadClamp | Arduino/EEPROM/EEPROM_24XX1025/EEPROM_24XX1025.cpp:36-37 | the clamped count is at most the request, ends inside the device, and is the request unless it reaches the end of the device |
| Plans.ReadInOneBlock | Arduino/EEPROM/EEPROM_24XX1025/EEPROM_24XX1025.cpp:64-67 | a clamped read that does not straddle the block boundary also does not run past the end of its block |
| Plans.PlanWrite | Arduino/EEPROM/EEPROM_24XX1025/EEPROM_24XX1025.cpp:115-134 | a split write starts at the address, and its two parts are each 1 to 127 bytes and add up to the request |
| Plans.PlanWriteShape | Arduino/EEPROM/EEPROM_24XX1025/EEPROM_24XX1025.cpp:121-134 | the write is split exactly when it crosses its page; the first part ends on a page boundary; the second part starts a page, at the next page of the device modulo the capacity |
| Plans.PlanWriteArith | Arduino/EEPROM/EEPROM_24XX1025/EEPROM_24XX1025.cpp:115-133 | the page numbers, the `uint8_t` part lengths and the second part's join, in terms of the offset in the page |
| Plans.PlanWriteParts | Arduino/EEPROM/EEPROM_24XX1025/EEPROM_24XX1025.cpp:137-146 | each part of a split write lies inside one page of the device |
| Plans.PlanWriteContiguous | Arduino/EEPROM/EEPROM_24XX1025/EEPROM_24XX1025.cpp:143 | inside the device, the second part starts where the first ends, and together they end where the write does |
| Plans.PlanWriteWraps | Arduino/EEPROM/EEPROM_24XX1025/EEPROM_24XX1025.cpp:117 | a write past the last byte is split at the end of the device, and its second part goes to address 0 |
| Plans.PlanWriteEnd | Arduino/EEPROM/EEPROM_24XX1025/EEPROM_24XX1025.cpp:143 | both parts together end where the whole write ends in the block, including the wrapped case |
| Plans.ClampTotal | Arduino/EEPROM/EEPROM_24XX1025/EEPROM_24XX1025.cpp:196-197 | without 32-bit overflow, the loops' total is at most the request, ends inside the device, and is the request unless it reaches the end; with overflow, it is the request |
| Plans.ChunksCover | Arduino/EEPROM/EEPROM_24XX1025/EEPROM_24XX1025.cpp:205-211 | the loop's piece requests add up to the total, and each is 1 to `size` bytes |
| Plans.ChunkAt | Arduino/EEPROM/EEPROM_24XX1025/EEPROM_24XX1025.cpp:206 | the k-th request is `min(size, total - k*size)`, and the ones before it add up to `k*size` |
| Plans.ChunksDrop | Arduino/EEPROM/EEPROM_24XX1025/EEPROM_24XX1025.cpp:205-211 | after the first k requests, the rest are the requests for what they have not covered |
| Plans.RequestsNext | Arduino/EEPROM/EEPROM_24XX1025/EEPROM_24XX1025.cpp:206 | the next request a loop makes after `done` bytes is the next entry of `Chunks`, `min(size, total - done)` |
| Plans.RequestsStep | Arduino/EEPROM/EEPROM_24XX1025/EEPROM_24XX1025.cpp:206-210 | recording the `want` a loop passes, which must equal `min(size, total - done)`, keeps the record a prefix of `Chunks`; if the loop stops at that piece, the record is that of a stopped loop |
| Plans.RequestsAll | Arduino/EEPROM/EEPROM_24XX1025/EEPROM_24XX1025.cpp:205-212 | a loop that has covered the whole span has recorded exactly `Chunks(total, size)` |
| Bus.Device.Read | Arduino/EEPROM/EEPROM_24XX1025/EEPROM_24XX1025.cpp:67 | an addressed bus read either fails or copies the bytes at the joined address and moves the device's counter past them; it is recorded in the trace |
| Bus.Device.ReadOne | Arduino/EEPROM/EEPROM_24XX1025/EEPROM_24XX1025.cpp:162-169 | a one-byte read, addressed or at the device's counter, delivers that byte or, on failure, 0 |
| Bus.Device.Write | Arduino/EEPROM/EEPROM_24XX1025/EEPROM_24XX1025.cpp:86 | a bus write either fails, changing at most its range, or stores the bytes at the joined address |
| Bus.Device.AwaitReady | Arduino/EEPROM/EEPROM_24XX1025/EEPROM_24XX1025.cpp:101-103 | acknowledge polling, taken as one step that changes neither the memory nor the counter |
| Effects.ReadOneBlockOutcome | Arduino/EEPROM/EEPROM_24XX1025/EEPROM_24XX1025.cpp:64-77 | the one-bus-read branch of readChunk has readChunk's effect for both outcomes of its bus read |
| Effects.ReadStraddleOutcome | Arduino/EEPROM/EEPROM_24XX1025/EEPROM_24XX1025.cpp:40-63 | the block-straddling branch has readChunk's effect for every outcome of its two bus reads |
| Effects.StraddleFirstFails | Arduino/EEPROM/EEPROM_24XX1025/EEPROM_24XX1025.cpp:45-49 | a failed first bus read gives 0, an unchanged cursor and an unknown shadow pointer |
| Effects.StraddleSecondFails | Arduino/EEPROM/EEPROM_24XX1025/EEPROM_24XX1025.cpp:52-57 | a failed second bus read gives `65536 - fulladdr`, and the cursor moves by exactly that |
| Effects.StraddleBothLand | Arduino/EEPROM/EEPROM_24XX1025/EEPROM_24XX1025.cpp:58-62 | two successful bus reads give the clamped count; the shadow pointer is `TO_FULLADDR(1, rest)` |
| Effects.ReadChunkFacts | Arduino/EEPROM/EEPROM_24XX1025/EEPROM_24XX1025.cpp:33-78 | for every outcome, readChunk's result is at most the request; the counted bytes are the device's; the cursor moves by the result; a short in-device result makes the shadow pointer unknown |
| Effects.ReadChunkCoherent | Arduino/EEPROM/EEPROM_24XX1025/EEPROM_24XX1025.cpp:59-74 | a readChunk at the cursor keeps the shadow pointer coherent, for every outcome |
| Effects.ReadChunkAwayIncoherent | Arduino/EEPROM/EEPROM_24XX1025/EEPROM_24XX1025.cpp:73-74 | a successful readChunk away from the cursor, with a coherent shadow pointer, leaves shadow and cursor equal but the device elsewhere |
| Effects.SplitOutcome | Arduino/EEPROM/EEPROM_24XX1025/EEPROM_24XX1025.cpp:136-153 | the two page writes of a split write give writeChunk's effect; the second write is made only if the first lands |
| Effects.SplitFirstFails | Arduino/EEPROM/EEPROM_24XX1025/EEPROM_24XX1025.cpp:139-142 | a failed first page write gives 0 and the first write's failure effect |
| Effects.SplitSecondFails | Arduino/EEPROM/EEPROM_24XX1025/EEPROM_24XX1025.cpp:145-149 | a failed second page write gives 0, although the first part has landed and the cursor has moved past it |
| Effects.SplitBothLand | Arduino/EEPROM/EEPROM_24XX1025/EEPROM_24XX1025.cpp:153 | two landed page writes give n; both parts are stored and the cursor moves by n |
| Effects.ChunkWriteCursor | Arduino/EEPROM/EEPROM_24XX1025/EEPROM_24XX1025.cpp:139-153 | writeChunk moves the cursor by n on success; on failure it moves by less than n and returns 0 |
| Effects.ChunkWriteMemory | Arduino/EEPROM/EEPROM_24XX1025/EEPROM_24XX1025.cpp:109-154 | inside the device, a landed writeChunk stores its bytes from `fulladdr` on; a failed one changes nothing outside that range |
| Effects.ChunkWriteCoherent | Arduino/EEPROM/EEPROM_24XX1025/EEPROM_24XX1025.cpp:109-154 | a writeChunk at the cursor keeps the shadow pointer coherent, also when it wraps past the end of the device |
| Effects.ChunkWriteFacts | Arduino/EEPROM/EEPROM_24XX1025/EEPROM_24XX1025.cpp:109-154 | every effect of writeChunk has the outcome its callers rely on: the result, the cursor, the memory, the shadow pointer and coherence |
| LinearIO.ByteReadDelivers | Arduino/EEPROM/EEPROM_24XX1025/EEPROM_24XX1025.cpp:159-170 | a successful `read()` returns the byte at the cursor when it sends the address or the shadow pointer is coherent, and then stays coherent |
| LinearIO.ByteReadFailureKeepsShadow | Arduino/EEPROM/EEPROM_24XX1025/EEPROM_24XX1025.cpp:159-177 | after a failed `read()`, the byte is 0, and shadow pointer and cursor are still equal, one further on |
| LinearIO.ByteWriteStores | Arduino/EEPROM/EEPROM_24XX1025/EEPROM_24XX1025.cpp:228-245 | a successful `write(byte)` stores the byte at the cursor and nowhere else and leaves the shadow pointer coherent; a failed one leaves it coherent unless the cursor is `0xffffffff` |
| LinearIO.ByteReadWraps | Arduino/EEPROM/EEPROM_24XX1025/EEPROM_24XX1025.cpp:178-182 | reading the last byte wraps the cursor to 0 and makes the shadow pointer unknown, whatever the bus outcome |
| LinearIO.ByteWriteWraps | Arduino/EEPROM/EEPROM_24XX1025/EEPROM_24XX1025.cpp:240-245 | writing the last byte wraps the cursor to 0 and makes the shadow pointer unknown |
| LinearIO.ByteReadInDevice | Arduino/EEPROM/EEPROM_24XX1025/EEPROM_24XX1025.cpp:172-182 | after any `read()` the cursor is at most 131071 |
| LinearIO.ByteWriteInDevice | Arduino/EEPROM/EEPROM_24XX1025/EEPROM_24XX1025.cpp:238-245 | after a `write(byte)` that lands the cursor is at most 131071 |
| LinearIO.ReadAwayThenReadByte | Arduino/EEPROM/EEPROM_24XX1025/EEPROM_24XX1025.cpp:59-74 | after a 10-byte read at 1000 with cursor and shadow pointer at 1, the next `read()` sends no address and returns the byte at 1010, not the one at the cursor 11 |
| LinearIO.WriteAtStores | Arduino/EEPROM/EEPROM_24XX1025/EEPROM_24XX1025.cpp:261-284 | a public write that writes all `n` bytes inside the device leaves them at `fulladdr` to `fulladdr + n - 1` |
| LinearIO.ReadAtDelivers | Arduino/EEPROM/EEPROM_24XX1025/EEPROM_24XX1025.cpp:191-214 | a public read that reads all `n` bytes delivers the device's bytes at `fulladdr` to `fulladdr + n - 1` |
| LinearIO.RoundTrip | Arduino/EEPROM/EEPROM_24XX1025/EEPROM_24XX1025.cpp:191-214 | writing a span inside the device and reading it back with no bus failure gives the bytes written |
| LinearIO.ReadLoopNext | Arduino/EEPROM/EEPROM_24XX1025/EEPROM_24XX1025.cpp:205-210 | a whole piece keeps the read loop's invariant; a short one ends the loop with the effect of the public read |
| LinearIO.ReadLoopDone | Arduino/EEPROM/EEPROM_24XX1025/EEPROM_24XX1025.cpp:213 | a read loop that has read the whole span has the effect of the public read |
| LinearIO.WriteLoopNext | Arduino/EEPROM/EEPROM_24XX1025/EEPROM_24XX1025.cpp:275-280 | a landed piece keeps the write loop's invariant; a failed one ends the loop with the effect of the public write |
| LinearIO.WriteLoopDone | Arduino/EEPROM/EEPROM_24XX1025/EEPROM_24XX1025.cpp:283 | a write loop that has written the whole span has the effect of the public write |
| Driver.Eeprom24xx1025.ReadChunk | Arduino/EEPROM/EEPROM_24XX1025/EEPROM_24XX1025.cpp:33-78 | readChunk: rejected requests change nothing; otherwise the clamped read has its bus reads, buffer contents, cursor and shadow pointer for every outcome |
| Driver.Eeprom24xx1025.ReadAcrossBlocks | Arduino/EEPROM/EEPROM_24XX1025/EEPROM_24XX1025.cpp:40-63 | readChunk's block-straddling branch has readChunk's effect |
| Driver.Eeprom24xx1025.WriteSinglePage | Arduino/EEPROM/EEPROM_24XX1025/EEPROM_24XX1025.cpp:81-106 | writeSinglePage rejects 0 and more than 128 bytes; on success it stores the bytes and advances both fields by n; on failure it returns 0, sets the sentinel and keeps the cursor |
| Driver.Eeprom24xx1025.WriteChunk | Arduino/EEPROM/EEPROM_24XX1025/EEPROM_24XX1025.cpp:109-154 | writeChunk rejects bad requests; otherwise it makes the single or split page writes of its plan |
| Driver.Eeprom24xx1025.WriteTwoPages | Arduino/EEPROM/EEPROM_24XX1025/EEPROM_24XX1025.cpp:136-153 | writeChunk's split branch has the split-write effect |
| Driver.Eeprom24xx1025.ReadByte | Arduino/EEPROM/EEPROM_24XX1025/EEPROM_24XX1025.cpp:156-185 | `read()` is addressed exactly when shadow and cursor differ; cursor and shadow move by one, with the wraps at 65536 and 131072 |
| Driver.Eeprom24xx1025.WriteByte | Arduino/EEPROM/EEPROM_24XX1025/EEPROM_24XX1025.cpp:216-255 | `write(byte)` stores the byte at the cursor and advances it, wrapping at the end; on failure it returns false, keeps the cursor and sets the sentinel |
| Driver.Eeprom24xx1025.ReadAt | Arduino/EEPROM/EEPROM_24XX1025/EEPROM_24XX1025.cpp:191-214 | the public read: 0 bytes do nothing, up to 255 are one readChunk, more go through the loop |
| Driver.Eeprom24xx1025.ReadPieces | Arduino/EEPROM/EEPROM_24XX1025/EEPROM_24XX1025.cpp:196-213 | the read loop returns the clamped total or a shorter multiple of 240; the counted bytes are the device's, the buffer is untouched past the piece that came up short, the cursor moves by the result plus `extra`, and a read at the cursor keeps the shadow pointer coherent; a ghost record `reqs`, kept beside the readChunk calls and extended with each `want` passed, is the first entries of `Chunks(total, 240)`, all of them if it read the whole span |
| Driver.Eeprom24xx1025.ReadHere | Arduino/EEPROM/EEPROM_24XX1025/EEPROM_24XX1025.cpp:187-189 | `read(data, n)` is the public read at the cursor |
| Driver.Eeprom24xx1025.WriteAt | Arduino/EEPROM/EEPROM_24XX1025/EEPROM_24XX1025.cpp:261-284 | the public write: 0 bytes do nothing, up to 128 are one writeChunk, more go through the loop |
| Driver.Eeprom24xx1025.WritePieces | Arduino/EEPROM/EEPROM_24XX1025/EEPROM_24XX1025.cpp:266-283 | the write loop returns the clamped total or a shorter multiple of 128; the counted bytes are stored, and nothing changes past the failed piece; a ghost record `reqs`, kept beside the writeChunk calls and extended with each `want` passed, is the first entries of `Chunks(total, 128)`, all of them if it wrote the whole span |
| Driver.Eeprom24xx1025.WritePiece | Arduino/EEPROM/EEPROM_24XX1025/EEPROM_24XX1025.cpp:276 | one writeChunk call of the loop, with the outcome the loop relies on |
| Driver.Eeprom24xx1025.WriteHere | Arduino/EEPROM/EEPROM_24XX1025/EEPROM_24XX1025.cpp:257-259 | `write(data, n)` is the public write at the cursor |

## Left out

- The I2C library: framing, START conditions and device-address bytes. Each
  bus call is an abstract transfer that may fail; the device address
  `devaddr | (block << 2)` is kept only as its block.
- Acknowledge polling. The busy-wait loops are one step (`Device.AwaitReady`)
  that is assumed to finish, since their termination depends on the hardware
  and the delay is timing only.
- `I2c16.receive()`. `read()` returns the byte the bus read delivered, and 0
  when it failed; what the library actually has queued is not modelled.
- A failed bus read or write leaves the device's address counter
  unconstrained. A failed read may also have changed its buffer range, and a
  failed write its memory range.
- The header file and the constructor are not part of this model. The
  `Eeprom24xx1025` constructor's initial values (cursor 0, shadow pointer
  unknown) are a modelling choice.
- AVR `int` promotion in `(first_page + 1) * 128`. The expression is computed
  on mathematical integers and truncated to `uint8_t`, which gives the same
  value.
- The device's page roll-over during a page write is not needed. writeChunk
  never hands writeSinglePage a write that crosses a page, and
  `WriteSinglePage` requires that it does not.
- The helper methods `ReadAcrossBlocks`, `WriteTwoPages`, `ReadPieces`,
  `WritePieces` and `WritePiece` are branches or loops of the C routines,
  split out as methods of their own.
- WriteAt, WritePieces: when `fulladdr + n` overflows 32 bits, nothing is
  stated about the memory after the loop; only the count and the cursor are.
- ReadAt, ReadPieces: the loop's contract states the shadow pointer only
  after an early stop (it is unknown) and only its coherence otherwise. It
  lists the sizes the loop asked for, but not the bus transactions of its
  pieces.
- WriteAt, WritePieces: likewise, the shadow pointer is stated only on an
  early stop and through coherence. The sizes asked for are listed, but the
  loop's bus transactions are not.
- Hardware assumptions, which the driver's own comments share (lines 93 and
  175):
  - After a successful write, the device's address counter is just past the
    written bytes, modulo 65536, also at the end of a page
    (`Device.Write`). The write-coherence lemmas rely on this.
  - The 16-bit counter wraps inside its block, while the next address-less
    read selects the block from `BLOCKNUM(curpos)` (`Device.Read`,
    `Device.ReadOne`). The read-coherence lemmas rely on this.
