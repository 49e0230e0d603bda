# Embedded Linux driver cores, modelled in Dafny

This project models the parts of three textbook Linux drivers that hold
actual logic:

- **Touch-controller line discipline** (`TouchLd`, `touch_ld.dfy`). The
  receive callback runs a four-state decoder (RESET, STREAM_DATA, PARSING,
  PARSED). When the decoder ends up in PARSED, the callback appends the
  collected packet to a circular read buffer. The buffer size is a power of
  two, and the write index wraps with the mask `& (BUFFER_SIZE - 1)`. The
  callback then decides whether to wake a waiting reader and whether to ask
  the serial driver to throttle. `open` allocates and zeroes the private
  state and the read buffer.
- **EEPROM bank read** (`Eeprom`, `eeprom.dfy`). `eep_read` fetches 16-bit
  words over SMBus at offsets `current_pointer + 0, +2, +4, ...`. Each word
  is stored in the local buffer as its low byte, then its high byte, until
  at least `count` bytes exist, and the buffer is copied to the caller. The `unsigned short` file pointer then advances by the bytes
  produced.
- **Watchdog** (`Watchdog`, `watchdog.dfy`). `open`, `release`, `write` and
  `ioctl` are transitions over two registers, control and service.
  `open` ORs in the default timeout field and the enable bit. `release`
  clears only the enable bit, unless NOWAYOUT is configured. `write` and
  KEEPALIVE store the magic `0xABCD`. SETTIMEOUT overwrites the control
  register. An unknown command returns `-ENOTTY`.

`Bits` (`bits.dfy`) holds the shared arithmetic. It models C's `&` on
non-negative integers (`And`) and proves that masking with `2^s - 1` is
reduction modulo `2^s`. It also has the modular index facts the ring-buffer
proofs use.

Modelling choices:

- **Undefined constants.** The driver uses `PACKET_SIZE`, `BUFFER_SIZE`,
  `TOUCH_THROTTLE_THRESHOLD` and `mode_stream_command` without defining
  them. They are the fields of `TouchLd.Config`. `BUFFER_SIZE` is
  `2^bufferShift`, so it is a power of two by construction. The watchdog's
  undefined `TIMEOUT_BITS` is a parameter of `Watchdog.Ioctl`. So is the
  `timeout` it copies from the caller.
- **Elided code.** The receive callback has seven regions marked
  `/* ... */`. Three of them are abstract: the body of STREAM_DATA
  (including any exit from it), the body of PARSING before it sets PARSED,
  and the body of PARSED (ld_touchpad.c lines 63, 66 and 70). They are the
  three function fields of `TouchLd.Datasheet`, and every contract holds
  for any choice of them. These regions see and return only the decoder
  (state and collected packet), never the read buffer; they issue no
  driver writes, wake-ups or throttle requests, and always fall through to
  the end of their case. The only demand on
  them is `KeepsPacketSize`. The other four regions are taken to be empty
  (see "Left out"). `TouchLd.AsShown` fills the three abstract regions
  with the identity; together with the four empty ones this is the
  callback as shown. `n_touch_receive_room` is a function parameter of
  `ReceiveBuf`.
- **One record for the line discipline.** The callback reaches
  `read_head`, `current_pkt` and `read_buf` through `disc_data`. It reaches
  `read_cnt` both through `disc_data` (the copy) and directly on the tty
  (the wake test). `struct n_touch` declares none of these four fields.
  The model takes them to live in its elided part (ld_touchpad.c line 9),
  so the `memset` in `open` zeroes the packet, the write index and the
  count. It also takes the buffer the copy writes, `disc_data->read_buf`,
  to be the one `open` allocates and clears, `tty->read_buf`. As written,
  a `disc_data->read_buf` inside the zeroed structure would be a null
  pointer rather than that buffer. The model puts all of them in one
  `Touch` record.
- **Zero state.** The state enumeration's declaration is not part of this
  model. The all-zero private structure is taken to be in RESET, its first
  enumerator (`ZERO_STATE`).
- **EEPROM inputs.** The SMBus word read is the function parameter
  `fetch`, from an offset to a 16-bit word. The capability query is the
  boolean `canReadWord`. `i` and `transferred` start at 0.
- **Return values.** Some driver methods fall off the end without a
  `return`: `my_wdt_write`, and `my_wdt_ioctl` for the commands it handles.
  Their value is `Watchdog.Ret.Unspecified`.
- **Register width.** Watchdog registers are 32-bit bit-vectors.

The packet copy has no capacity check, so nothing bounds `read_cnt`, and
a packet may overwrite unread bytes. Throttling is a one-sided threshold
test, and nothing in the code shown unthrottles.

## Model

| member | source | states |
|---|---|---|
| Bits.And | eldd/ch06/line_discipline/ld_touchpad.c:81 | the bitwise AND of two non-negative integers is no larger than either operand |
| Bits.MaskIsMod | eldd/ch06/line_discipline/ld_touchpad.c:80-81 | ANDing with `2^s - 1` gives the remainder modulo `2^s`, so the masked increment of the write index is a wrap-around modulo a power-of-two buffer size |
| Bits.AndLowMask | eldd/ch06/line_discipline/ld_touchpad.c:81 | ANDing with `2^s - 1` keeps exactly the low `s` bits of the value, bit by bit |
| TouchLd.Dispatch | eldd/ch06/line_discipline/ld_touchpad.c:54-71 | from RESET, the decoder moves to STREAM_DATA with its packet untouched, and exactly the stream-mode command is written to the driver; from PARSING, it always lands in PARSED; no other state writes to the driver; the datasheet regions keep the packet size |
| TouchLd.ShownTransitions | eldd/ch06/line_discipline/ld_touchpad.c:54-71 | with the elided regions empty, the switch follows the table RESET to STREAM_DATA, STREAM_DATA stays, PARSING to PARSED, PARSED stays; it keeps the collected packet; it writes exactly one command, and only from RESET |
| TouchLd.CopyPacket | eldd/ch06/line_discipline/ld_touchpad.c:77-83 | after the copy, the write index is `(old index + PACKET_SIZE) mod BUFFER_SIZE` and stays inside the buffer; the count grows by exactly PACKET_SIZE; slot `(old index + i) mod BUFFER_SIZE` holds packet byte `i` for the last up-to-BUFFER_SIZE bytes; slots the packet does not reach are unchanged; the resulting buffer equals that of writing the packet's bytes one after another into consecutive slots, wrapping at the buffer's end (`WriteFrom`) |
| TouchLd.HeadAdvance | eldd/ch06/line_discipline/ld_touchpad.c:80-81 | the masked increment `(read_head + 1) & (BUFFER_SIZE - 1)` moves the write index one slot on modulo the buffer size, so after `i + 1` steps it sits `i + 1` slots past where it started, modulo the size |
| TouchLd.CopyAdvance | eldd/ch06/line_discipline/ld_touchpad.c:77-83 | one iteration of the copy loop (store, masked increment, count) keeps the index, count and copied-prefix invariants and stays on course to the reference `WriteFrom` result |
| TouchLd.CopyStep | eldd/ch06/line_discipline/ld_touchpad.c:78-79 | storing the next packet byte at the current write slot extends the copied region by one byte, without disturbing earlier bytes that are still in the window or slots not yet reached |
| TouchLd.AppendedDeterminesBuffer | eldd/ch06/line_discipline/ld_touchpad.c:77-83 | the copy's contract fixes every byte of the resulting buffer: two results of appending the same packet to the same ring are equal |
| TouchLd.ReceiveBuf | eldd/ch06/line_discipline/ld_touchpad.c:42-98 | the decoder and driver writes are those of the state switch; the read buffer, write index and count change only when the state after the switch is PARSED, and then by exactly one packet append; a wake-up happens iff a reader waits and the count after the copy reaches `minimum_to_wait`; a throttle request happens iff the receive room after the copy is below the threshold; neither happens outside PARSED; the write index stays in range and keeps tracking the count modulo the buffer size |
| TouchLd.Open | eldd/ch06/line_discipline/ld_touchpad.c:13-39 | open succeeds iff both allocations succeed, returning 0, else it returns `-ENOMEM`; after a failed read-buffer allocation the private data is already attached to the tty; on success the state is the zero enumerator, packet and read buffer are all zero, the buffer has BUFFER_SIZE bytes, and index and count are 0 |
| TouchLd.FirstReceiveAfterOpen | eldd/ch06/line_discipline/ld_touchpad.c:16-59 | after a successful open, the first receive issues the stream-mode command once and moves to STREAM_DATA, whatever the datasheet regions do |
| Eeprom.Lo | eldd/ch08/eeprom/eeprom.c:58 | the byte `w & 0xFF` is the word modulo 256 |
| Eeprom.Hi | eldd/ch08/eeprom/eeprom.c:59 | the byte `w >> 8` of a 16-bit word is the number of whole 256s in it: `256 * b <= w < 256 * b + 256` |
| Eeprom.SplitJoin | eldd/ch08/eeprom/eeprom.c:58-59 | the high and low bytes emitted for a word reassemble into that word |
| Eeprom.Fetched | eldd/ch08/eeprom/eeprom.c:55-61 | `n` words give `2n` bytes; byte `j` comes from the word fetched at `base + 2 * (j / 2)`: its low byte at even `j`, its high byte at odd `j` |
| Eeprom.Produced | eldd/ch08/eeprom/eeprom.c:55-60 | the number of bytes a read produces is even, at least `count` and less than `count + 2` |
| Eeprom.ProducedIsLeast | eldd/ch08/eeprom/eeprom.c:55-60 | that number is the least even number not below `count`, i.e. the loop stops at the first `transferred >= count` |
| Eeprom.ProducedUnique | eldd/ch08/eeprom/eeprom.c:55-60 | any even byte count in `[count, count + 2)`, such as the one the loop stops at, is the rounded-up count |
| Eeprom.Read | eldd/ch08/eeprom/eeprom.c:42-70 | with `my_buf` as a byte buffer (see Findings): without the read-word capability, nothing is read, the bank is unchanged and 0 is returned; otherwise the return value is the byte count (count rounded up to even), word `k` is fetched at `current_pointer + 2k` and yields bytes `2k` (low) and `2k+1` (high), and the file pointer becomes `(old + transferred) mod 65536`; address and bank number are unchanged |
| Eeprom.IntArrayMemory | eldd/ch08/eeprom/eeprom.c:45-59 | laid out as little-endian 32-bit `int`s, an array of byte values has each value in the first byte of its element and zeros in the other three |
| Eeprom.Delivered | eldd/ch08/eeprom/eeprom.c:65 | as written, the copy to the caller hands over the first `transferred` bytes of the `int` array's memory: byte `k` is buffer entry `k / 4` when `k` is a multiple of 4 and zero otherwise |
| Eeprom.DeliveredLosesHighByte | eldd/ch08/eeprom/eeprom.c:45-65 | as written, byte 1 handed to the caller is always zero, while byte 1 of the words read is the first word's high byte |
| Eeprom.IntBufferDropsHighBytes | eldd/ch08/eeprom/eeprom.c:45-65 | as written, a two-byte read of the word `0x1234` hands over `[0x34, 0x00]`, not the word's bytes `[0x34, 0x12]` |
| Eeprom.FetchedJoin | eldd/ch08/eeprom/eeprom.c:56-59 | pairing output bytes `2k+1` and `2k` back up recovers the word fetched at `base + 2k` |
| Eeprom.FetchedSplit | eldd/ch08/eeprom/eeprom.c:55-61 | the bytes of `m + n` words are the bytes of the first `m` words followed by those of `n` words starting `2m` further on |
| Eeprom.ConsecutiveReads | eldd/ch08/eeprom/eeprom.c:55-66 | two reads of even lengths from where the file pointer leaves off equal one combined read, provided the 16-bit pointer does not wrap |
| Eeprom.ReadFitsBuffer | eldd/ch08/eeprom/eeprom.c:45-59 | every index the loop writes fits the driver's BANK_SIZE buffer exactly when `count <= BANK_SIZE` |
| Watchdog.Open | eldd/ch05/watchdog/watchdog.c:34-39 | after open, the enable bit (bit 3) is set; the control register gains exactly bits 3, 6 and 8 (the timeout 10 shifted by 5, plus enable); no previously set bit is cleared; the service register is untouched |
| Watchdog.Close | eldd/ch05/watchdog/watchdog.c:42-52 | close returns 0; with NOWAYOUT both registers are unchanged; without it, bit 3 ends clear and every other control bit and the service register keep their values |
| Watchdog.ClearEnable | eldd/ch05/watchdog/watchdog.c:49 | masking with the complement of `1 << WENABLE_SHIFT` clears bit 3 and keeps every other bit |
| Watchdog.Write | eldd/ch05/watchdog/watchdog.c:55-61 | write stores `0xABCD` in the service register and leaves the control register alone |
| Watchdog.Ioctl | eldd/ch05/watchdog/watchdog.c:67-91 | KEEPALIVE stores `0xABCD` in the service register and keeps the control register; SETTIMEOUT makes control bit `k` equal to timeout bit `k - TIMEOUT_BITS`, with the low TIMEOUT_BITS bits clear, so it does not depend on the old control value; GETTIMEOUT changes nothing; `-ENOTTY` is returned iff the command is unrecognised, and then nothing changes; for a handled command the function falls off its end, so its value is unspecified |
| Watchdog.OpenIdempotent | eldd/ch05/watchdog/watchdog.c:37-38 | opening twice leaves the same registers as opening once |
| Watchdog.ReopenRestores | eldd/ch05/watchdog/watchdog.c:37-49 | without NOWAYOUT, close after open followed by a reopen restores exactly the state of the first open |
| Watchdog.NoWayOutStaysEnabled | eldd/ch05/watchdog/watchdog.c:44-51 | with NOWAYOUT, an opened watchdog is still enabled after close |
| Watchdog.WriteIsKeepalive | eldd/ch05/watchdog/watchdog.c:55-76 | writing to the device and the KEEPALIVE ioctl leave identical registers |
| Watchdog.SetTimeoutDiscardsControl | eldd/ch05/watchdog/watchdog.c:77-83 | SETTIMEOUT gives the same control register whatever was there before; when TIMEOUT_BITS is above the enable bit, it disables a watchdog that was open |

## Left out

- Concurrency: the spinlock around the packet copy and the wait-queue
  mechanics are not modelled. Whether a reader waits is an input, and the
  wake-up and throttle calls are returned as decision flags.
- The datasheet-dependent regions of the receive callback stay abstract.
  That covers frame boundaries, checksums, resynchronisation, leaving
  STREAM_DATA and what PARSED does. `n_touch_receive_room` stays abstract
  too. The driver does not contain this code.
- TouchLd.ReceiveBuf: the four elided regions outside the state switch
  are taken to be empty. These are the pre-switch work on `cp`
  (ld_touchpad.c line 47), which could otherwise change the state before
  the switch; the rest of the RESET case (line 60), which `Dispatch`'s
  "packet untouched" depends on; the code between the copy and the wake
  test (line 85); and the code after the throttle test (line 96).
- The flip-buffer arguments `fp` and `count` of the receive callback are
  not modelled. The received bytes `cp` are handed to the datasheet
  regions only.
- The other line-discipline entry points (close, flush, chars_in_buffer,
  read, write, ioctl, poll, write_wakeup) are not modelled. They appear
  only by name in the operations table.
- TouchLd.ReceiveBuf: `read_cnt` is an unbounded integer. The C `int`
  overflow after 2^31 bytes without consumption is not modelled.
- Eeprom.Read: `transferred` is an unbounded integer, so the C `int`
  overflow for counts near 2^31 is not modelled. The writes past the
  BANK_SIZE buffer for larger counts are not modelled as a failure either.
  `ReadFitsBuffer` states when they happen.
- Eeprom.Read: its `data` is `my_buf[0..transferred)` read as bytes. That
  is what the caller would get if `my_buf` were a byte array. As written,
  the caller receives the in-memory bytes of the `int` array instead
  (`Delivered`; see Findings).
- Eeprom.Read: a negative error code from the SMBus word read is not
  modelled, because `fetch` returns a 16-bit word. How the SMBus core
  narrows the offset argument is left to `fetch`. `copy_to_user` is
  treated as always succeeding.
- `eep_open` is not modelled: its body only selects the bank. `eep_init`,
  `eep_attach`, `eep_probe`, `eep_detach` and the file-operations and I2C
  tables are not modelled either. They are registration glue over kernel
  calls.
- The watchdog's `my_wdt_init`, `my_wdt_exit` and misc-device table are not
  modelled (registration glue). The body of GETTIMEOUT is elided in the
  driver, so it is modelled as changing nothing. `copy_from_user` of the
  timeout becomes the `timeout` field of the command. Commands are an
  enumeration rather than their numeric ioctl codes.
- Watchdog.Ioctl: TIMEOUT_BITS must be below 32. A shift by the register
  width or more is undefined in C. The `timeout` copied from the caller is
  a C `int`, and `timeout << TIMEOUT_BITS` is undefined in C for a
  negative `timeout` or when the result overflows. The model instead
  treats `timeout` as 32 bits and shifts with wrap-around, dropping the
  bits shifted out. The elided region before the switch (watchdog.c line
  70) is taken to do nothing.
- The LED, UART, platform-driver and tty declaration files, and the
  user-space ioctl snippet, are not modelled. They are thin wrappers or
  declarations with no logic of their own.

## Findings

| source | as written | input that shows it | evidently intended | confidence | as-written member | corrected member |
|---|---|---|---|---|---|---|
| eldd/ch08/eeprom/eeprom.c:45-65 | `my_buf` is an `int` array holding one byte value per element, and `copy_to_user` copies `transferred` raw bytes of its memory, so on a little-endian machine the caller gets each value followed by three zero bytes | a two-byte read of an EEPROM word `0x1234`: the caller receives `[0x34, 0x00]` | `my_buf` a byte array, so the caller receives the word's bytes `[0x34, 0x12]`, low byte first | not executed; depends on a 32-bit little-endian `int` | Eeprom.Delivered, Eeprom.IntBufferDropsHighBytes | Eeprom.Read |
