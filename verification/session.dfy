/**
 The state shared by both directions of the HID APDU transport: the link
 geometry, the chunk tags, and the five session globals
 (`G_io_usb_hid_total_length`, `_channel`, `_remaining_length`,
 `_sequence_number`, `_current_buffer`) as one immutable record.
 */
module HidSession {
  import opened Bytes

  /** Chunk tags (byte 2 of every report). */
  const TAG_VERSION: byte := 0x00
  const TAG_ALLOCATE_CHANNEL: byte := 0x01
  const TAG_PING: byte := 0x02
  const TAG_APDU: byte := 0x05

  /** Header of the first APDU chunk: channel, tag, sequence number, total length. */
  const FIRST_HEADER: nat := 7
  /** Header of a continuation chunk: channel, tag, sequence number. */
  const NEXT_HEADER: nat := 5

  /** `segmentSize` is the size of the scratch report buffer
      (`MAX(USB_SEGMENT_SIZE, BLE_SEGMENT_SIZE)`); `epLength` is `IO_HID_EP_LENGTH`,
      the length of control replies and the report size outgoing payloads are cut to. */
  datatype Link = Link(segmentSize: nat, epLength: nat) {
    predicate Valid() {
      FIRST_HEADER <= epLength <= segmentSize
    }
  }

  /** `G_io_usb_hid_current_buffer`: NULL, or an offset into the caller's
      destination (receive) or source (send) buffer. */
  datatype Cursor = Null | At(offset: nat)

  datatype Session = Session(
    totalLength: u32,
    channel: u32,
    remaining: u32,
    sequence: u32,
    cursor: Cursor)

  /** The globals as zero-initialised static storage leaves them at boot. */
  const PowerOn: Session := Session(0, 0, 0, 0, Null)

  /** No exchange in flight. */
  predicate Idle(s: Session) {
    s.sequence == 0 && s.remaining == 0 && s.cursor == Null
  }

  /** `io_usb_hid_init`: forget any exchange in flight; the total length and
      channel are left as they were. */
  function Init(s: Session): (r: Session)
    ensures Idle(r)
    ensures r.totalLength == s.totalLength && r.channel == s.channel
  {
    s.(sequence := 0, remaining := 0, cursor := Null)
  }

  /** Resetting twice is the same as resetting once, and resetting changes
      exactly the sessions that were not already idle. */
  lemma InitIdempotent(s: Session)
    ensures Init(Init(s)) == Init(s)
    ensures Init(s) == s <==> Idle(s)
  {
  }
}
