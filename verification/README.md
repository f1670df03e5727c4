# Ledger HID APDU transport, modelled in Dafny

This project models the chunking transport that carries APDUs (command and
response units of the secure element) over fixed-size HID reports, as written
in `ledger-secure-sdk/src/os_io_usb.c`. It covers both directions of one HID
session:

- **Reassembly.** `io_usb_hid_receive` takes one incoming report. It copies
  the report into the zero-padded scratch buffer `G_io_usb_ep_buffer`, then
  dispatches on the tag byte:
  - control tags (0x00 version, 0x01 allocate channel, 0x02 ping) are answered
    in place and abandon any exchange;
  - data chunks (tag 0x05) are checked against the expected sequence number
    and, for the first chunk, against the destination's capacity; their
    payload is copied under two clamps.

  Every call returns one of MORE_DATA, RECEIVED or RESET.
- **Fragmentation.** `io_usb_hid_send` arms the session with an outgoing APDU
  and emits its first chunk. Every later `io_usb_hid_sent` event emits the
  next zero-filled chunk, and the event after the last chunk cleans up.
- **Reset.** `io_usb_hid_init` forgets any exchange in flight.

The five globals become one immutable `Session` record. The pointer
`G_io_usb_hid_current_buffer` becomes `Cursor`: `Null`, or an offset into the
destination (receive) or source (send) buffer.

The link has two sizes, held as the parameters of `Link`:

- `segmentSize` is the scratch buffer size `MAX(USB_SEGMENT_SIZE, BLE_SEGMENT_SIZE)`;
- `epLength` is `IO_HID_EP_LENGTH`;
- `Link.Valid` requires `7 <= epLength <= segmentSize`.

The callback `sndfct` becomes an output trace of reports. The report length
`l` is an `unsigned short`, so `l -= 5` and `l -= 2` wrap modulo 2^16 on a
short report. The sequence number is an `unsigned int` and its `++` wraps at
2^32.

Modules, one per concern:

- `Bytes` (`bytes.dfy`): C integer widths, 16-bit wrap-around, big-endian fields, `memmove` splicing.
- `HidSession` (`session.dfy`): tags, header sizes, `Link`, `Session`, `io_usb_hid_init`.
- `HidReceive` (`receive.dfy`): `io_usb_hid_receive` and its properties.
- `HidSend` (`send.dfy`): `io_usb_hid_sent`, `io_usb_hid_send`, and the run of `sent` events.
- `HidRoundTrip` (`roundtrip.dfy`): reassembly of every fragmented APDU.

Behaviour of the code worth knowing, which the model follows:

- The control tags reset any reception in progress, although the comments at
  lines 184, 192 and 200 say "do not reset the current apdu reception". The
  model follows the code: `VersionReply`, `AllocateChannelReply` and
  `PingEcho` all end idle with status RESET.
- An unknown tag does not always leave the state as it was. It skips the
  dispatch and falls into the common tail. While bytes remain, it returns
  MORE_DATA with the session untouched. With no bytes remaining, it calls
  `io_usb_hid_init` and returns RECEIVED, even though no APDU was delivered
  (`UnknownTagFallsThrough`).
- A first chunk whose declared total exceeds the capacity is rejected with
  RESET, but the declared total stays recorded in `G_io_usb_hid_total_length`
  (`OversizeRejected`).

## Model

| member | source | states |
|---|---|---|
| `Bytes.DecodeEncodeU16` | ledger-secure-sdk/src/os_io_usb.c:239-248 | the two bytes stored as `v >> 8` and `v` (each truncated to a byte) read back through `U2BE` as `v` reduced modulo 2^16 |
| `Bytes.BE16` | ledger-secure-sdk/src/os_io_usb.c:239-248 | the two bytes stored for a 16-bit field, high byte then low byte, each truncated to a byte, recombine to the value reduced modulo 2^16 |
| `Bytes.ReadU16BE` | ledger-secure-sdk/src/os_io_usb.c:127-150 | the value `U2BE` reads has the first byte as its high byte and the second as its low byte |
| `HidReceive.Abort` | ledger-secure-sdk/src/os_io_usb.c:216-218 | abandoning the exchange reports RESET, leaves the session idle with its total and channel, the destination untouched and the replies already emitted unchanged |
| `HidReceive.Tail` | ledger-secure-sdk/src/os_io_usb.c:207-214 | the common tail reports MORE_DATA exactly while bytes remain and keeps the session then; otherwise it resets the session and reports RECEIVED; it never reports RESET, never touches the destination and emits no reply |
| `HidSend.Arm` | ledger-secure-sdk/src/os_io_usb.c:277-280 | the armed session expects a first chunk, keeps its channel, has its cursor at the start of the source and the whole APDU remaining, so cursor plus remaining equals the total |
| `HidSession.Init` | ledger-secure-sdk/src/os_io_usb.c:221-225 | after the reset no exchange is in flight (sequence 0, nothing remaining, no cursor), while the total length and channel keep their values |
| `HidSession.InitIdempotent` | ledger-secure-sdk/src/os_io_usb.c:221-225 | resetting twice equals resetting once, and a reset leaves a session unchanged exactly when it was already idle |
| `HidReceive.InitRxValid` | ledger-secure-sdk/src/os_io_usb.c:96-100 | the zero-initialised power-on globals and every reset state satisfy the reception invariant (cursor plus remaining equals the declared total, within the destination) |
| `HidReceive.Scratch` | ledger-secure-sdk/src/os_io_usb.c:117-121 | the scratch buffer is exactly `segmentSize` bytes: the report's first `l` bytes, then zeros, so no later read goes past it |
| `HidReceive.Clamp` | ledger-secure-sdk/src/os_io_usb.c:152-158 | the payload length after both clamps never exceeds the remaining length nor the scratch room after the header; it is their minimum with `l` whenever the remaining length fits 16 bits |
| `HidReceive.Append` | ledger-secure-sdk/src/os_io_usb.c:177-214 | the payload lands at the cursor and nowhere else; cursor and remaining move by its length and the sequence by one; MORE_DATA exactly while bytes remain, otherwise idle and RECEIVED |
| `HidReceive.ReceiveData` | ledger-secure-sdk/src/os_io_usb.c:125-181 | a data chunk keeps the reception invariant, writes only inside the window the session reserves in the destination, and abandons the exchange on a sequence mismatch |
| `HidReceive.ControlReply` | ledger-secure-sdk/src/os_io_usb.c:183-204 | a control reply is `IO_HID_EP_LENGTH` bytes, equal to the scratch buffer except bytes 3..7, which hold the given field (or are kept for a ping) |
| `HidReceive.Receive` | ledger-secure-sdk/src/os_io_usb.c:102-219 | any report keeps the reception invariant and the destination's size; RECEIVED and RESET leave the session idle; MORE_DATA leaves bytes to receive; only RESET emits replies, at most one of `IO_HID_EP_LENGTH` bytes; RESET leaves the destination untouched; writes stay inside the reserved window |
| `HidReceive.SequenceMismatchResets` | ledger-secure-sdk/src/os_io_usb.c:127-130 | a data chunk with an unexpected sequence number returns RESET, clears sequence, remaining and cursor, and writes nothing to the destination |
| `HidReceive.OversizeRejected` | ledger-secure-sdk/src/os_io_usb.c:138-142 | a first chunk declaring more bytes than the destination holds returns RESET before any byte is copied |
| `HidReceive.AcceptedFirstChunk` | ledger-secure-sdk/src/os_io_usb.c:132-162 | an accepted first chunk copies at most the declared total and at most `segmentSize - 7` bytes even when `l` wraps, to the start of the destination only; it records total and channel; MORE_DATA exactly while bytes remain |
| `HidReceive.AcceptedNextChunk` | ledger-secure-sdk/src/os_io_usb.c:163-181 | an accepted continuation copies at most the remaining length and at most `segmentSize - 5` bytes, at the cursor only; sequence grows by exactly one and remaining shrinks by exactly the copied length |
| `HidReceive.EmptyApduCompletes` | ledger-secure-sdk/src/os_io_usb.c:207-214 | a first chunk declaring a total of zero completes at once with RECEIVED, an idle session and the destination untouched |
| `HidReceive.VersionReply` | ledger-secure-sdk/src/os_io_usb.c:183-189 | a version query is answered with bytes 3..7 zeroed and the rest of the report unchanged, then RESET whatever was in progress |
| `HidReceive.AllocateChannelReply` | ledger-secure-sdk/src/os_io_usb.c:191-197 | a channel allocation is answered with only bytes 3..7 replaced by the random bytes, then RESET |
| `HidReceive.PingEcho` | ledger-secure-sdk/src/os_io_usb.c:199-204 | a ping is echoed unchanged (first `IO_HID_EP_LENGTH` bytes of the scratch buffer), then RESET |
| `HidReceive.UnknownTagFallsThrough` | ledger-secure-sdk/src/os_io_usb.c:205-214 | any other tag leaves the destination alone: MORE_DATA with the session unchanged while bytes remain, otherwise reset and RECEIVED |
| `HidSend.DataChunk` | ledger-secure-sdk/src/os_io_usb.c:236-258 | the assembled chunk decodes to the channel, tag 0x05, the sequence number, the remaining length (first chunk only) and the payload after the header, with zeros to the end |
| `HidSend.Sent` | ledger-secure-sdk/src/os_io_usb.c:230-272 | a `sent` event emits a chunk exactly when bytes remain and a cursor is set; the chunk decodes to the session's fields and the next `min(remaining, N-7 or N-5)` source bytes, and the session advances by that many bytes and one sequence number; otherwise it resets the session and reports the APDU sent |
| `HidSend.Send` | ledger-secure-sdk/src/os_io_usb.c:274-283 | a zero-length send does nothing; otherwise it emits one chunk, a first chunk carrying the length and the first `min(len, N-7)` source bytes, and leaves sequence 1 with the rest to send |
| `HidSend.Drain` | ledger-secure-sdk/src/os_io_usb.c:233-264 | the run of `sent` events emits only full `segmentSize` chunks, and at least one exactly when data remains to be sent |
| `HidSend.Transmit` | ledger-secure-sdk/src/os_io_usb.c:274-283 | a whole transmission emits only full chunks, and none exactly when the APDU is empty |
| `HidSend.CleanupAfterLastChunk` | ledger-secure-sdk/src/os_io_usb.c:265-271 | the `sent` event after the last data chunk emits nothing and leaves the session idle |
| `HidRoundTrip.Feed` | ledger-secure-sdk/src/os_io_usb.c:102-219 | delivering a run of reports yields one status per report, keeps the destination's size and keeps the reception invariant |
| `HidRoundTrip.SentFirstChunkDecodes` | ledger-secure-sdk/src/os_io_usb.c:245-252 | the first chunk emitted by `sent`, read through the receiver's scratch buffer at length `IO_HID_EP_LENGTH`, carries sequence 0, the sender's channel and total, and the receiver's clamps cut its payload to exactly the bytes sent |
| `HidRoundTrip.SentNextChunkDecodes` | ledger-secure-sdk/src/os_io_usb.c:253-258 | a continuation chunk emitted by `sent`, read the same way, carries the sender's channel and sequence number, and the receiver's clamps cut its payload to exactly the bytes sent |
| `HidRoundTrip.ExchangeFirst` | ledger-secure-sdk/src/os_io_usb.c:135-162 | the first emitted chunk, delivered to a receiver waiting for sequence 0, copies exactly the bytes sent to the start of the destination and records the sender's total and channel |
| `HidRoundTrip.ExchangeNext` | ledger-secure-sdk/src/os_io_usb.c:163-181 | a later emitted chunk, delivered to a receiver in step, copies exactly the bytes sent to the position they came from |
| `HidRoundTrip.SyncStep` | ledger-secure-sdk/src/os_io_usb.c:245-260 | one `sent` event followed by delivery of its chunk keeps sender and receiver in step, or on the last chunk completes with RECEIVED and the APDU in the destination |
| `HidRoundTrip.DrainReassembles` | ledger-secure-sdk/src/os_io_usb.c:230-264 | delivering every chunk a sender in step still emits gives MORE_DATA for each but the last, RECEIVED for the last, no replies, and the APDU rebuilt |
| `HidRoundTrip.RoundTrip` | ledger-secure-sdk/src/os_io_usb.c:274-283 | every chunk of a non-empty APDU, delivered in order at length `IO_HID_EP_LENGTH` to a waiting receiver with room for it, gives MORE_DATA then RECEIVED, rebuilds the APDU at the start of the destination, leaves the rest alone, and ends idle with the sender's length and channel |

## Left out

- `io_usb_send_ep` and `io_usb_send_apdu_data` (lines 42-64) are endpoint and SPI plumbing with timeouts. `sndfct` is modelled as the list of reports it is handed.
- `cx_rng_no_throw` (line 193) is an external entropy source. Its four bytes are the `entropy` parameter of `Receive`.
- `io_seproxyhal_get_ep_rx_size` (lines 28-33) reads hardware-owned state and is not called by the modelled functions.
- The choice between `G_io_apdu_buffer` and the caller's `apdu_buffer` (lines 103-115) is not modelled. The destination is a parameter and its length is the capacity. `apdu_buf_len` is a `uint16_t`, and the model does not truncate the capacity to 16 bits.
- The branch at line 118 that skips the copy when the report already is `G_io_usb_ep_buffer` is not modelled. The model always copies and zero-pads.
- The scratch buffer is not part of the session state. Both directions overwrite it completely before reading it.
- The `volatile` qualifiers and the interleaving of events are left out. The receive and send paths share the same globals, and the round trip gives the sender and the receiver separate sessions instead of modelling their concurrent use.
- `G_io_app.apdu_state = APDU_IDLE` (line 270) is modelled as the `Finished` outcome of `Sent`, not as a variable.
- `src/c/src.c` (the boot loop, exception handling and USB power toggling) is not part of this model.
- HidReceive.Receive: requires the reception invariant `RxValid`, which the source never checks. Every state that `io_usb_hid_init` and `io_usb_hid_receive` produce satisfies it (`InitRxValid` and `Receive`'s own ensures). A send in progress also satisfies it whenever the APDU being sent fits the destination. The model does not tell a send cursor from a receive cursor, so `Receive` does not model a report that arrives mid-send, which writes through the shared pointer into the send buffer (see the line on interleaving above).
- HidSend.Sent: requires that the bytes still to send lie inside the source buffer (`TxValid`). `io_usb_hid_send` establishes this for a source of at least `sndlength` bytes.
- HidRoundTrip.RoundTrip: states the round trip only at report length `IO_HID_EP_LENGTH` and for a sender whose 16-bit header fields do not wrap. The APDU length is a 16-bit value, and every continuation chunk except the last carries `IO_HID_EP_LENGTH - 5 >= 2` bytes, so the sequence number stays below 2^16.
