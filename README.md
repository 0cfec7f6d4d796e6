# Network bootloader for an STM32F7 board, with its host-side sender

The updater sits in the low sectors of the on-chip flash. It listens for
UDP datagrams and replaces the application image at `0x08040000`, which
may be at most `0xC0000` bytes long. When the image is complete and its
CRC-32 matches, it jumps to the image.

Every datagram starts with a packed 24-byte header: `magic`, `type`,
`rsv0`, `hdr_len`, `seq`, `arg0`, `arg1` and `len`, stored little-endian.
The message types are:

- HELLO, answered by INFO with the image base and its maximum size;
- PEEK, a read-back of at most 64 bytes from the image region;
- BEGIN, which records the size and expected CRC and erases the sectors it needs;
- DATA, which programs one chunk at an offset;
- END, which compares the byte count and the CRC and then arms the jump.

The host script pads the binary to a multiple of four with `0xFF` bytes.
It sends HELLO, BEGIN, 1024-byte DATA chunks in order and END. It checks
each reply against the sequence number and the message types it expects.

The Dafny project has one module per source file:

- `BootProto` (`boot_proto.dfy`) models the protocol header: the constants,
  the message codes, and the packed struct as 24 little-endian bytes, with
  both round trips.
- `Crc32` (`crc32.dfy`) models the reflected bitwise CRC-32 as a loop over
  a 32-bit register. It is proved equal to a specification function and to
  the table-driven `update_crc` of section 8 of RFC 1952, which is what
  Python's `zlib.crc32` computes. It also proves the check value for
  `"123456789"`.
- `FlashIf` (`flash_if.dfy`) models the flash driver:
  - the sector lookup, with its table;
  - the range erase, with its argument checks, unlock/lock pairing and
    inclusive sector span;
  - the word-by-word write, with an explicit `Programmed` post-state.

  The flash is a class holding a 2^32-byte array. The HAL erase and
  program calls are methods whose failure is a parameter.
- `BootUdp` (`boot_udp.dfy`) models the receive callback:
  - `Handle` is a pure function from session globals, a datagram, the
    environment's failure choices, the memory and the image CRC to the next
    globals and the reply. The lemmas about the protocol are stated on it.
  - The class `Bootloader` holds the C globals as fields. Its methods
    `Receive`, `Peek`, `Data`, `End`, `Begin` and `Poll` change the globals
    and the flash in place. Each is proved to agree with `Handle` or with
    the sector-level erase/program effect.
- `BootloaderTest` (`bootloader_test.dfy`) models the sender:
  - `struct.pack`/`unpack` for the format string, `pack_msg`, `unpack_msg`
    and `recv_expect`;
  - the padding and chunking of the image;
  - `main` as a chain of methods that talk to a `Bootloader` object.

  The top level, `Upload`, is proved both ways. When it reports success,
  the device holds the padded image at the base address with the jump
  armed, and the messages sent are exactly HELLO, BEGIN, the chunk
  sequence and END. When no reply is lost and no flash operation fails, a
  non-empty image that fits always succeeds.

All integers are mathematical. `uint32_t` wrap-around is written out as
`Add32` and `Sub32`. The CRC register is a `bv32`, and bytes are
integers in `0..255`.

Three behaviours of the code are modelled as written and shown by lemmas:

- A BEGIN whose size exceeds the region fails with status 1 but keeps the
  oversized size. A DATA frame checked against that size can then land
  below the image region (`OversizedBeginLetsDataEscape`).
- PEEK's bound check adds in 32 bits, so near the top of the address space
  it accepts a read that wraps around (`PeekWrapReadsOutside`).
- `flash_erase_range` computes its end address in 32 bits, so a wrapped
  range passes its checks and erases nothing (`EraseWrapErasesNothing`).

The sender never triggers any of these. `UpdaterNeverTouched` proves that
no datagram changes flash outside the image region while the recorded size
is within bounds.

## Model

| member | source | states |
|---|---|---|
| BootProto.Add32 | Bootloader/Core/Src/boot_udp.c:117 | the uint32_t sum is `a + b`, less 2^32 when it overflows |
| BootProto.HeaderSizeIsSumOfWidths | Bootloader/Core/Inc/boot_proto.h:19-30 | the packed header has no padding: its 8 field widths sum to 24 |
| BootProto.MessageCodesDistinct | Bootloader/Core/Inc/boot_proto.h:6-17 | the codes run 1..10 in declaration order, so no two messages share a code |
| BootProto.LeValueOfBytes | Bootloader/Core/Inc/boot_proto.h:19-30 | a field value that fits its width is read back from its little-endian bytes unchanged |
| BootProto.LeBytesOfValue | Bootloader/Core/Inc/boot_proto.h:19-30 | any bytes of a field are the little-endian bytes of the value read from them |
| BootProto.DecodeEncodeHeader | Bootloader/Core/Src/boot_udp.c:85-86 | copying the first 24 bytes of an encoded header plus any payload into `bl_hdr_t` yields that header |
| BootProto.EncodeDecodeHeader | Bootloader/Core/Src/boot_udp.c:85-86 | any 24 bytes are the layout of the header decoded from them, so decoding loses nothing |
| BootProto.EncodeHeader | Bootloader/Core/Inc/boot_proto.h:19-30 | the definition of the packed `bl_hdr_t` layout: eight little-endian fields, 24 bytes in all; `DecodeEncodeHeader` and `EncodeDecodeHeader` prove it inverse to `DecodeHeader` |
| BootProto.DecodeHeader | Bootloader/Core/Src/boot_udp.c:85-86 | the definition of the header copy out of the first 24 bytes; its properties are `DecodeEncodeHeader` and `EncodeDecodeHeader` |
| Crc32.Crc32Update | Bootloader/Core/Src/crc32.c:4-15 | the loop over the data returns `CrcUpdate(crc, data)`: complement, feed each byte through eight reflected shifts, complement |
| Crc32.CrcUpdate | Bootloader/Core/Src/crc32.c:4-15 | the definition that `Crc32Update` is proved against: complement, feed the bytes through the bit loop, complement; its properties are `CrcOfEmpty`, `CrcUpdateCompose`, `CrcIsRfc1952Crc` and `CheckValue` |
| Crc32.Crc | Bootloader/Core/Src/crc32.c:17-20 | the definition that `Crc32Zlib` is proved against, the update from 0; `CheckValue` and `CrcIsRfc1952Crc` pin it to CRC-32 |
| Crc32.ShiftByte | Bootloader/Core/Src/crc32.c:9-12 | eight passes of the branch-free mask update equal eight conditional polynomial folds |
| Crc32.MaskIsConditionalFold | Bootloader/Core/Src/crc32.c:10-11 | `(crc >> 1) ^ (0xEDB88320 & -(crc & 1))` drops the low bit and folds the polynomial in exactly when that bit was set |
| Crc32.RegisterSnoc | Bootloader/Core/Src/crc32.c:7-13 | one more loop iteration feeds exactly the next byte to the register |
| Crc32.Crc32Zlib | Bootloader/Core/Src/crc32.c:17-20 | returns `Crc(data)`, the update from an initial 0, and 0 for empty data |
| Crc32.CrcOfEmpty | Bootloader/Core/Src/crc32.c:4-15 | the two complements cancel on empty data, so the CRC of nothing is 0 |
| Crc32.FoldAppend | Bootloader/Core/Src/crc32.c:7-13 | feeding `a + b` byte by byte equals feeding `a`, then `b` |
| Crc32.CrcUpdateCompose | Bootloader/Core/Src/crc32.c:4-15 | an update over `a` followed by an update over `b` equals one update over `a + b` (incremental use is sound) |
| Crc32.CheckValue | Bootloader/Core/Src/crc32.c:17-20 | the CRC of ASCII `"123456789"` is the CRC-32 check value `0xCBF43926` |
| Crc32.StepsXor | Bootloader/Core/Src/crc32.c:9-12 | the bit steps are linear over xor |
| Crc32.HighBitsShift | Bootloader/Core/Src/crc32.c:9-12 | eight steps of a register whose low byte is clear are a plain shift right by 8 |
| Crc32.TableStep | Bootloader/Core/Src/crc32.c:7-13 | one byte fed bitwise equals one lookup of the RFC 1952 table followed by a shift right by 8 |
| Crc32.CrcIsRfc1952Crc | Bootloader/Core/Src/crc32.c:4-15 | for every starting value and data, the bitwise update equals the table-driven `update_crc` of RFC 1952 section 8, the CRC `zlib.crc32` computes |
| FlashIf.Sub32 | Bootloader/Core/Src/flash_if.c:33 | the uint32_t difference is `a - b`, plus 2^32 when it underflows |
| FlashIf.EndAddr | Bootloader/Core/Src/flash_if.c:33 | the 32-bit `start + length - 1`; for a non-empty range that does not wrap it is the last address of the range |
| FlashIf.SectorCount | Bootloader/Core/Src/flash_if.c:37-46 | the 32-bit `(last - first) + 1`; when the first sector is not above the last it is the inclusive number of sectors between them |
| FlashIf.Sector | Bootloader/Core/Src/flash_if.c:5-28 | the sector number is below 16 |
| FlashIf.SectorMonotone | Bootloader/Core/Src/flash_if.c:5-28 | a higher address never maps to a lower sector |
| FlashIf.SectorMatchesTable | Bootloader/Core/Src/flash_if.c:5-28 | inside flash, an address maps to sector k exactly when it lies in sector k's range of the layout table |
| FlashIf.SectorTableTiles | Bootloader/Core/Src/flash_if.c:5-28 | the 16 sector ranges are non-empty, consecutive, and cover `FLASH_BASE..FLASH_END` |
| FlashIf.EraseCheck | Bootloader/Core/Src/flash_if.c:32-34 | the result is -2 exactly for a zero length, -3 exactly for a non-empty range starting below flash or ending past it, else 0 |
| FlashIf.EraseChecksFirst | Bootloader/Core/Src/flash_if.c:32-34 | the erase is attempted exactly when the length is non-zero and the 32-bit range lies inside flash |
| FlashIf.EraseCovers | Bootloader/Core/Src/flash_if.c:37-46 | for a range that does not wrap, the inclusive sector span from the first to the last sector covers every requested address |
| FlashIf.ApplicationEraseSectors | Bootloader/Core/Src/flash_if.c:13-16 | erasing 1..0xC0000 bytes at `0x08040000` passes the checks and erases only sectors 5..7, all inside the image region |
| FlashIf.EraseWrapErasesNothing | Bootloader/Core/Src/flash_if.c:33-46 | a length that wraps the 32-bit end address passes the checks, yet the computed sector count is 0 and nothing is erased |
| FlashIf.Flash.Unlock | Bootloader/Core/Src/flash_if.c:48 | the flash controller is unlocked and the unlock is counted |
| FlashIf.Flash.Lock | Bootloader/Core/Src/flash_if.c:50 | the flash controller is locked again |
| FlashIf.Flash.HalErase | Bootloader/Core/Src/flash_if.c:49 | sectors from the first up to the failing one read `0xFF`, all other bytes are unchanged, and success means no sector failed |
| FlashIf.Flash.EraseRange | Bootloader/Core/Src/flash_if.c:30-53 | a rejected range returns -2/-3 and changes nothing; otherwise the sectors are erased between unlock and lock, and the result is 0, or -1 on an erase error |
| FlashIf.Offset | Bootloader/Core/Src/flash_if.c:62-72 | the 32-bit offset of an address from a base adds back to the address |
| FlashIf.Word | Bootloader/Core/Src/flash_if.c:63-66 | the definition of the word assembled from four source bytes; `WordBytes` proves it stores exactly those bytes |
| FlashIf.WordsWritten | Bootloader/Core/Src/flash_if.c:62-72 | the number of words the loop programs: none when misaligned, those before the failing word, else all `len / 4` |
| FlashIf.WordBytes | Bootloader/Core/Src/flash_if.c:63-66 | the word assembled from `src[i..i+4]` is stored as exactly those four bytes |
| FlashIf.WriteResult | Bootloader/Core/Src/flash_if.c:58-75 | -2 exactly for a misaligned address or length; -1 exactly for an aligned write whose program fails within the length; else 0 |
| FlashIf.WriteOutcome | Bootloader/Core/Src/flash_if.c:62-75 | on success all `len / 4` words were programmed; on failure, just those before the failing word |
| FlashIf.Flash.HalProgramWord | Bootloader/Core/Src/flash_if.c:68 | a successful program stores the word's four little-endian bytes at the address; nothing else changes |
| FlashIf.Flash.Write | Bootloader/Core/Src/flash_if.c:55-76 | returns `WriteResult`; the leading words of `src` are programmed at `dst` and nothing else changes; on every path after the alignment check the flash is relocked |
| FlashIf.ProgrammedStep | Bootloader/Core/Src/flash_if.c:62-72 | one more programmed word extends the programmed prefix by four bytes |
| BootUdp.Parse | Bootloader/Core/Src/boot_udp.c:84-92 | a datagram shorter than the header is dropped; an accepted one starts with the encoding of a header whose magic and header length are right |
| BootUdp.ParseAccepts | Bootloader/Core/Src/boot_udp.c:84-92 | every header with the right magic and length, followed by any payload, is accepted as itself |
| BootUdp.ParseRejects | Bootloader/Core/Src/boot_udp.c:84-92 | a datagram is dropped exactly when it is too short or its header has the wrong magic or length |
| BootUdp.RepliesWellFormed | Bootloader/Core/Src/boot_udp.c:33-75 | both reply builders echo the request's sequence number with the magic and header length, and set `len` to the payload length |
| BootUdp.Reply | Bootloader/Core/Src/boot_udp.c:33-51 | the definition of `send_simple`'s frame; `RepliesWellFormed` states its header |
| BootUdp.ReplyWith | Bootloader/Core/Src/boot_udp.c:53-75 | the definition of `send_payload`'s frame; `RepliesWellFormed` states its header and length |
| BootUdp.Sent | Bootloader/Core/Src/boot_udp.c:45-48 | the reply goes out exactly when the pbuf could be allocated |
| BootUdp.PeekLen | Bootloader/Core/Src/boot_udp.c:101-103 | the read length is the requested length, clamped to 64 |
| BootUdp.PeekInsideRegion | Bootloader/Core/Src/boot_udp.c:105 | when the end address does not wrap, an allowed read lies inside the image region |
| BootUdp.PeekWrapReadsOutside | Bootloader/Core/Src/boot_udp.c:105-110 | the 32-bit check admits a 64-byte read at `0xFFFFFFF0`, every byte of which lies outside the region |
| BootUdp.PeekReads | Bootloader/Core/Src/boot_udp.c:100-111 | PEEK changes no state; it answers PEEK_RESP with the clamped number of memory bytes exactly when the range check passes, else ERR status 4 |
| BootUdp.HandlePeek | Bootloader/Core/Src/boot_udp.c:100-111 | the PEEK branch: echoes the sequence number, answers PEEK_RESP exactly when the range check passes, else ERR, with at most 64 payload bytes; `PeekReads` states the bytes |
| BootUdp.DataCheck | Bootloader/Core/Src/boot_udp.c:119-141 | the status is 0 or one of the five DATA rejection codes |
| BootUdp.DataAccepts | Bootloader/Core/Src/boot_udp.c:119-141 | a chunk passes exactly when offset ≤ size, 0 < n ≤ 1024, offset + n ≤ size in 32 bits, the payload is present, and address and length are word-aligned |
| BootUdp.DataWritesInsideImage | Bootloader/Core/Src/boot_udp.c:117-147 | with a recorded size in bounds, an accepted chunk's sums do not wrap and it lies inside the image |
| BootUdp.OversizedBeginLetsDataEscape | Bootloader/Core/Src/boot_udp.c:185-194 | after a rejected BEGIN with size `0xFFFFFFFF`, a DATA chunk at offset `0xFFFFFC00` passes the checks and targets sector 4, below the image |
| BootUdp.DataOutcomes | Bootloader/Core/Src/boot_udp.c:114-156 | DATA rejects with the check's status and leaves flash intact, or reports status 10 on a program failure, or programs the chunk, adds n to the count and ACKs |
| BootUdp.HandleData | Bootloader/Core/Src/boot_udp.c:114-156 | the DATA branch: an empty reply that echoes the sequence number; ACK only when every check passes, and then the count grows by n; ERR leaves the globals unchanged; `DataOutcomes` states the statuses |
| BootUdp.BeginEraseInsideRegion | Bootloader/Core/Src/boot_udp.c:193-196 | for an accepted size, every byte BEGIN erases is inside the image region |
| BootUdp.BeginResets | Bootloader/Core/Src/boot_udp.c:185-202 | BEGIN always records size and CRC and zeroes the counters; it ACKs exactly for an in-bounds size whose erase succeeds, else ERR status 1 or 3 |
| BootUdp.HandleBegin | Bootloader/Core/Src/boot_udp.c:185-202 | the BEGIN branch: the globals always take the announced size and CRC with zeroed counters; the reply is an empty ACK or ERR echoing the sequence number; `BeginResets` states when each |
| BootUdp.EndOutcomes | Bootloader/Core/Src/boot_udp.c:158-181 | END with a short count answers ERR with the count and the size, with a CRC mismatch ERR with the computed and the expected CRC, both leaving the globals unchanged; only when both match does it answer OK and arm the jump to `APP_BASE` |
| BootUdp.HandleEnd | Bootloader/Core/Src/boot_udp.c:158-181 | the END branch: OK exactly when count and size, and CRC and expected CRC, agree, and then the jump to `APP_BASE` is armed; ERR leaves the globals unchanged |
| BootUdp.Handle | Bootloader/Core/Src/boot_udp.c:77-210 | the definition of the callback on values: a datagram is answered exactly when its header is accepted, and the answer echoes its sequence number; the lemmas from `ShortFrameDropped` to `UpdaterNeverTouched` are stated on it |
| BootUdp.FlashEffect | Bootloader/Core/Src/boot_udp.c:114-202 | the definition of the flash change a datagram may make: DATA programs its accepted words, an in-bounds BEGIN erases from sector 5, anything else leaves flash alone; `Bootloader.Receive` meets it and `UpdaterNeverTouched` bounds it |
| BootUdp.JumpArmedOnlyByVerifiedEnd | Bootloader/Core/Src/boot_udp.c:158-181 | the jump is armed, and OK answered, exactly by an END whose count equals the size and whose flash CRC equals the expected CRC; the jump base only ever becomes `APP_BASE` |
| BootUdp.LoneEndAtReset | Bootloader/Core/Src/boot_udp.c:24-29 | from the power-on globals (size 0, CRC 0, count 0), a bare END is answered OK and arms the jump into the unwritten region |
| BootUdp.CountIsNotCoverage | Bootloader/Core/Src/boot_udp.c:120-159 | two DATA frames at the same offset bring the count to the expected size, so END's count check passes, while the flash after both writes holds the chunk at `APP_BASE` and bytes 4..7 as they were before |
| BootUdp.ShortFrameDropped | Bootloader/Core/Src/boot_udp.c:84 | a datagram shorter than the header gets no reply and changes nothing |
| BootUdp.BadHeaderDropped | Bootloader/Core/Src/boot_udp.c:89-92 | a header with the wrong magic or header length gets no reply and changes nothing |
| BootUdp.HelloAndUnknown | Bootloader/Core/Src/boot_udp.c:94-206 | HELLO answers INFO with `0x08040000`, `0xC0000`; an unknown type answers ERR status 2; neither changes state |
| BootUdp.RepliesAnswerTheRequest | Bootloader/Core/Src/boot_udp.c:94-207 | every reply echoes the request's sequence number and carries a payload only when it is PEEK_RESP |
| BootUdp.ResetInImageBounds | Bootloader/Core/Src/boot_udp.c:24-29 | the power-on globals have an in-bounds size, a zero count and no jump pending |
| BootUdp.ImageBoundKept | Bootloader/Core/Src/boot_udp.c:185-194 | the recorded size stays in bounds, except after a BEGIN that is refused as too large |
| BootUdp.UpdaterNeverTouched | Bootloader/Core/Src/boot_udp.c:114-202 | while the recorded size is in bounds, no datagram changes any flash byte outside the image region |
| BootUdp.Bootloader.constructor | Bootloader/Core/Src/boot_udp.c:24-29 | the globals start at their static initial values with no jump taken |
| BootUdp.Bootloader.Peek | Bootloader/Core/Src/boot_udp.c:100-111 | the reply is the PEEK rule's answer over the current flash |
| BootUdp.Bootloader.Data | Bootloader/Core/Src/boot_udp.c:114-156 | globals and reply follow the DATA rule; an accepted chunk is programmed word by word; a rejected one leaves flash unchanged |
| BootUdp.Bootloader.End | Bootloader/Core/Src/boot_udp.c:158-181 | globals and reply follow the END rule, with the CRC the loop computes over the first `expected_size` bytes at the image base |
| BootUdp.Bootloader.Begin | Bootloader/Core/Src/boot_udp.c:185-202 | globals and reply follow the BEGIN rule; an in-bounds size erases the sectors from 5 on; otherwise flash is unchanged |
| BootUdp.Bootloader.Receive | Bootloader/Core/Src/boot_udp.c:77-210 | the new globals and the datagram sent are those of `Handle` for the old state, and flash changes only as the frame's rule says |
| BootUdp.Bootloader.JumpToApp | Bootloader/Core/Src/boot_udp.c:243 | the jump to the given base is recorded |
| BootUdp.Bootloader.Poll | Bootloader/Core/Src/boot_udp.c:226-245 | with no jump pending nothing happens; otherwise the flag is cleared first and one jump to the recorded base is taken |
| BootloaderTest.HeaderFormatLayout | bootloader_test.py:16-17 | the format string `"<I B B H I I I I"` has widths 4,1,1,2,4,4,4,4, and `calcsize` is 24 |
| BootloaderTest.PackFieldsDefined | bootloader_test.py:20 | `struct.pack` succeeds exactly when the number of values matches and each value fits its field |
| BootloaderTest.UnpackFieldsOfPack | bootloader_test.py:20-25 | unpacking what was packed returns the values |
| BootloaderTest.PackFieldsOfUnpack | bootloader_test.py:20-25 | packing what was unpacked returns the bytes |
| BootloaderTest.Pack | bootloader_test.py:20 | `struct.pack` for a format string: when it succeeds the format parses and the bytes are `calcsize` long; `PackFieldsDefined` states when it succeeds |
| BootloaderTest.Unpack | bootloader_test.py:25 | `struct.unpack`: succeeds exactly when the data is `calcsize` long, with one value per field; `UnpackFieldsOfPack` and `PackFieldsOfUnpack` prove it inverse to `Pack` |
| BootloaderTest.PackIsDeviceLayout | bootloader_test.py:16-20 | the sender's packed header is byte for byte the device's `bl_hdr_t` layout |
| BootloaderTest.UnpackOfDeviceLayout | bootloader_test.py:25 | unpacking a device header yields its eight fields in order |
| BootloaderTest.MagicAgrees | bootloader_test.py:6 | the script's own `BL_MAGIC`, which it packs and checks replies against, equals the device's `BL_MAGIC` |
| BootloaderTest.MsgValuesFit | bootloader_test.py:20 | `pack_msg`'s eight values fit their fields exactly when type, sequence, arguments and payload length fit |
| BootloaderTest.PackMsg | bootloader_test.py:19-20 | the message packs exactly when its fields fit; the result is 24 header bytes followed by the payload |
| BootloaderTest.PackMsgIsDeviceFrame | bootloader_test.py:19-20 | a packed message is the device encoding of a frame with the magic, reserved 0, length 24 and the payload length |
| BootloaderTest.UnpackMsg | bootloader_test.py:22-27 | fails exactly for data shorter than the header; otherwise returns eight fields and the rest as payload |
| BootloaderTest.UnpackPackMsg | bootloader_test.py:19-27 | `unpack_msg(pack_msg(...))` returns the eight header values and the payload |
| BootloaderTest.HdrFields | bootloader_test.py:29-31 | picks magic, type, sequence, arguments and payload length out of the eight fields |
| BootloaderTest.RecvExpect | bootloader_test.py:37-50 | a reply is accepted exactly when it unpacks, has the magic, echoes the wanted sequence and has an allowed type; then it returns `hdr_fields` of the unpacked header and the payload; a too-short reply is the only cause of the unpack error, and a bad-magic error carries the wrong magic |
| BootloaderTest.DeviceRepliesAccepted | bootloader_test.py:37-50 | every well-formed device reply to a request is accepted exactly when its type is allowed, with its fields read back |
| BootloaderTest.SimpleReplyRead | bootloader_test.py:37-50 | a device reply without payload is read back as its type and arguments, or refused as an unexpected type |
| BootloaderTest.Pad | bootloader_test.py:65-67 | the padded image is the image followed by fewer than four `0xFF` bytes, to a multiple of four; an aligned image is unchanged |
| BootloaderTest.Slice | bootloader_test.py:115 | a chunk is 1024 bytes, or the remainder at the end |
| BootloaderTest.Chunks | bootloader_test.py:110-124 | the chunks the loop cuts from `offset` on, empty exactly at the image's end; `ChunksTile` and `ChunkShape` state their content |
| BootloaderTest.ChunksTile | bootloader_test.py:110-124 | the chunks sent, joined, are exactly the image from the starting offset |
| BootloaderTest.ChunkShape | bootloader_test.py:110-124 | chunk k starts at `1024 * k`, is non-empty, at most 1024 bytes, and matches the image there; all chunks but the last are full, and the last ends at the image's end |
| BootloaderTest.ChunkAligned | bootloader_test.py:110-124 | for an aligned image every chunk's offset and length are multiples of four |
| BootloaderTest.ChunkLengthsSum | bootloader_test.py:124 | the chunk lengths add up to the image size, so the loop ends with `offset == img_size` |
| BootloaderTest.PackedMsgParses | bootloader_test.py:19-20 | every message the sender packs is accepted by the device's header check as its own header |
| BootloaderTest.DataMsgs | bootloader_test.py:113-124 | the DATA messages the loop sends, one per chunk; `DataMsgsAreChunks` states each one's sequence number, offset and bytes |
| BootloaderTest.DataMsgsAreChunks | bootloader_test.py:113-124 | the k-th DATA message carries sequence `seq + 1 + k`, chunk k's offset and its bytes |
| BootloaderTest.AlignedChunkPasses | bootloader_test.py:111-116 | an aligned chunk of at most 1024 bytes inside an in-bounds image passes every DATA check |
| BootloaderTest.SenderDataAccepted | bootloader_test.py:110-124 | every DATA message of a padded image that fits parses on the device and passes every DATA check |
| BootloaderTest.Exchange | bootloader_test.py:84-85 | one `sendto` and `recv_expect` against the device: the device handles the frame, and the sender reads its reply if it was sent |
| BootloaderTest.HelloExchange | bootloader_test.py:83-98 | the device answers HELLO with INFO carrying `APP_BASE` and `APP_MAX_SIZE`, which the sender accepts |
| BootloaderTest.BeginExchange | bootloader_test.py:100-108 | BEGIN resets the device session to the sent size and CRC; the sender reads ACK or the device's ERR status |
| BootloaderTest.DataExchange | bootloader_test.py:113-124 | each chunk is ACKed unless programming fails, then extends the programmed prefix of the image in flash and adds its length to the count |
| BootloaderTest.EndExchange | bootloader_test.py:129-138 | once the whole image is in flash and counted with the right CRC, END is answered OK and arms the jump to `APP_BASE` |
| BootloaderTest.Verdict | bootloader_test.py:85-90 | the script goes on exactly when a reply arrived, passed `recv_expect` and is not ERR; otherwise it stops at that stage with a timeout, a bad reply or the refusal; a bad reply only when `recv_expect` raised |
| BootloaderTest.SayHello | bootloader_test.py:83-90 | HELLO leaves the device unchanged and reads back INFO with the image base and maximum size |
| BootloaderTest.SayBegin | bootloader_test.py:100-108 | BEGIN sets the device's size and CRC and reads ACK, or ERR status 1 or 3 |
| BootloaderTest.SendChunk | bootloader_test.py:114-124 | one DATA round trip: ACK and a longer programmed prefix, or ERR status 10 |
| BootloaderTest.SendImage | bootloader_test.py:110-127 | the loop sends exactly the chunk messages; when all are ACKed, the device holds the whole image and counts its size; it stops only on a timeout or an ERR; with no failures it never stops |
| BootloaderTest.SayEnd | bootloader_test.py:129-138 | END leaves flash unchanged, arms the jump to `APP_BASE`, and reads back OK |
| BootloaderTest.Handshake | bootloader_test.py:81-108 | when HELLO and BEGIN pass, the device session holds the image's size and CRC; an oversized image stops as too large and an empty one with ERR 1; no reply is ever rejected by `recv_expect` |
| BootloaderTest.Finish | bootloader_test.py:129-140 | when END passes, the device holds the image and will jump to it; the reply is never rejected by `recv_expect`, and with no failure END passes |
| BootloaderTest.Transfer | bootloader_test.py:81-140 | on success the device holds the image, the jump is armed and the messages were HELLO, BEGIN, the chunks and END; with no failures every non-empty image that fits succeeds; it never ends with a reply `recv_expect` rejects |
| BootloaderTest.Upload | bootloader_test.py:63-140 | the same, for the padded file with its CRC computed by the RFC 1952 table form of `zlib.crc32` |

## Left out

- `boot_jump.c` is not part of this model. The jump is a recorded event (`jumps`), and what the application does afterwards is not modelled.
- `udp_echo.c`, `boot_udp_init` and the lwIP PCB set-up are left out. They only register the callback.
- pbuf handling is abstracted. A failed allocation is the `txOk` choice of the environment. The copy into one contiguous buffer is a sequence slice.
- The HAL erase and program calls are oracles. The environment decides which sector or word fails. Flash programming is a plain store, not the NOR rule that only clears bits. A sector or word whose HAL call fails is modelled as untouched, whereas the hardware may leave it partly erased or programmed.
- `FLASH_BASE` and `FLASH_END` are taken as `0x08000000` and `0x081FFFFF`, the 2 MB of the two banks the sector table covers, and `FLASH_SECTOR_k` as `k`. The HAL headers are not part of this model.
- `dst & 3` is written as `dst % 4`. `g_do_jump` is a boolean.
- LEDs, the cache-disable lines that are commented out are left out.
- The sender's socket, timeouts, printing, `sys.exit`, `time.sleep`, file reading and `explain_err` are left out. A timeout is the environment's `txOk = false`, and exiting is a returned `UploadResult`.
- BootUdp.Handle takes the image CRC as a parameter. `Bootloader.End` and `Receive` supply it as `ImageCrc`, and `End` computes it with the CRC loop.
- The environment is one set of choices per datagram. Lost, duplicated or reordered datagrams, and other senders, are not modelled.
- `BadReply` is kept so that `Verdict` mirrors `recv_expect`'s error paths. Against this device it cannot arise, and `Transfer` and `Upload` prove `!r.BadReply?`.
- The PEEK that wraps at `0xFFFFFFF0` (`PeekWrapReadsOutside`) is modelled as a read of the memory sequence. On the device those addresses are unmapped, and the read would most likely fault.
- `g_next_offset` is assigned but never read in the source, so the model carries it without using it. END checks only a byte count, not which offsets were written (`CountIsNotCoverage`).
- `Blink_App` is the application being loaded and is not part of this model.
- `volatile` and the concurrency between the receive callback and `boot_udp_poll` are left out. Callback and poll are separate atomic methods.
