/**
 The fragmentation engine: `io_usb_hid_send` arms the session with an
 outgoing APDU and emits its first chunk; every later `io_usb_hid_sent`
 event emits the next chunk, and the event after the last chunk cleans up.
 */
module HidSend {
  import opened Bytes
  import opened HidSession

  /** What one `io_usb_hid_sent` call does: hand one zero-padded chunk to
      `sndfct`, or reset the session and set `G_io_app.apdu_state` to
      `APDU_IDLE`. */
  datatype SentOutcome = Emitted(chunk: seq<byte>) | Finished

  datatype SentStep = SentStep(session: Session, outcome: SentOutcome)

  /** The session after `io_usb_hid_send` and the chunks it handed to `sndfct`. */
  datatype SendStep = SendStep(session: Session, trace: seq<seq<byte>>)

  /** While a cursor is set, the bytes still to send lie inside the source buffer. */
  predicate TxValid(s: Session, sourceLength: nat) {
    s.cursor.At? ==> s.cursor.offset + s.remaining <= sourceLength
  }

  /** Payload bytes one outgoing chunk carries at most: `IO_HID_EP_LENGTH`
      minus the header of a first or of a continuation chunk. */
  function PayloadRoom(link: Link, sequence: nat): nat
    requires link.Valid()
  {
    if sequence == 0 then link.epLength - FIRST_HEADER else link.epLength - NEXT_HEADER
  }

  /** How a receiver decodes an outgoing data chunk: `segmentSize` bytes;
      channel, tag 0x05 and sequence number (each reduced to the 16 bits the
      header holds); on a first chunk the remaining length at bytes 5..7; the
      payload right after the header; zeros to the end. */
  ghost predicate ChunkCarries(link: Link, chunk: seq<byte>, channel: nat, sequence: nat, remaining: nat, payload: seq<byte>) {
    var header := if sequence == 0 then FIRST_HEADER else NEXT_HEADER;
    && |chunk| == link.segmentSize
    && header + |payload| <= |chunk|
    && ReadU16BE(chunk, 0) == channel % 0x1_0000
    && chunk[2] == TAG_APDU
    && ReadU16BE(chunk, 3) == sequence % 0x1_0000
    && (sequence == 0 ==> ReadU16BE(chunk, 5) == remaining % 0x1_0000)
    && chunk[header..header + |payload|] == payload
    && forall i :: header + |payload| <= i < |chunk| ==> chunk[i] == 0
  }

  /** The chunk `io_usb_hid_sent` assembles in the scratch buffer. */
  function DataChunk(link: Link, channel: nat, sequence: nat, remaining: nat, payload: seq<byte>): (chunk: seq<byte>)
    requires link.Valid() && |payload| <= PayloadRoom(link, sequence)
    ensures ChunkCarries(link, chunk, channel, sequence, remaining, payload)
  {
    var header := BE16(channel) + [TAG_APDU] + BE16(sequence) + (if sequence == 0 then BE16(remaining) else []);
    var chunk := header + payload + Zeros(link.segmentSize - |header| - |payload|);
    DecodeEncodeU16(channel, chunk, 0);
    DecodeEncodeU16(sequence, chunk, 3);
    if sequence == 0 then
      DecodeEncodeU16(remaining, chunk, 5);
      chunk
    else
      chunk
  }

  /** `io_usb_hid_sent(sndfct)` with the outgoing APDU in `src`. */
  function Sent(link: Link, s: Session, src: seq<byte>): (r: SentStep)
    requires link.Valid() && TxValid(s, |src|)
    ensures TxValid(r.session, |src|)
    ensures r.outcome.Finished? <==> s.remaining == 0 || s.cursor.Null?
    ensures r.outcome.Finished? ==> r.session == Init(s)
    ensures r.outcome.Emitted? ==>
      var c := s.cursor.offset;
      var n := Min(s.remaining, PayloadRoom(link, s.sequence));
      && r.session == s.(cursor := At(c + n), remaining := s.remaining - n, sequence := Inc32(s.sequence))
      && ChunkCarries(link, r.outcome.chunk, s.channel, s.sequence, s.remaining, src[c..c + n])
  {
    if s.remaining != 0 && s.cursor.At? then
      var c := s.cursor.offset;
      var room := PayloadRoom(link, s.sequence);
      var n := if s.remaining > room then room else s.remaining;
      var chunk := DataChunk(link, s.channel, s.sequence, s.remaining, src[c..c + n]);
      var next := s.(cursor := At(c + n), remaining := s.remaining - n, sequence := Inc32(s.sequence));
      SentStep(next, Emitted(chunk))
    else
      SentStep(Init(s), Finished)
  }

  /** The chunks an outcome hands to `sndfct`. */
  function Trace(outcome: SentOutcome): seq<seq<byte>> {
    match outcome
    case Emitted(chunk) => [chunk]
    case Finished => []
  }

  /** The session `io_usb_hid_send` prepares before its first `sent` call:
      a first chunk is next, the cursor is at the start of the source and
      the whole APDU remains, so cursor plus remaining equals the total. */
  function Arm(s: Session, length: u16): (r: Session)
    ensures r.sequence == 0 && r.channel == s.channel
    ensures r.cursor == At(0) && r.remaining == r.totalLength == length
  {
    s.(sequence := 0, cursor := At(0), remaining := length, totalLength := length)
  }

  /** `io_usb_hid_send(sndfct, length, src)`: nothing for an empty APDU,
      otherwise arm the session and emit the first chunk at once. */
  function Send(link: Link, s: Session, length: u16, src: seq<byte>): (r: SendStep)
    requires link.Valid() && length <= |src|
    ensures length == 0 ==> r == SendStep(s, [])
    ensures length != 0 ==>
      var n := Min(length, PayloadRoom(link, 0));
      && |r.trace| == 1
      && ChunkCarries(link, r.trace[0], s.channel, 0, length, src[..n])
      && r.session == s.(sequence := 1, cursor := At(n), remaining := length - n, totalLength := length)
  {
    if length == 0 then
      SendStep(s, [])
    else
      var st := Sent(link, Arm(s, length), src);
      SendStep(st.session, Trace(st.outcome))
  }

  /** Every chunk the `sent` events emit from session `s` until the one that
      cleans up. Each chunk is a full scratch buffer, and a session with bytes
      to send emits at least one. */
  function Drain(link: Link, s: Session, src: seq<byte>): (chunks: seq<seq<byte>>)
    requires link.Valid() && TxValid(s, |src|)
    ensures forall k :: 0 <= k < |chunks| ==> |chunks[k]| == link.segmentSize
    ensures s.remaining != 0 && s.cursor.At? <==> |chunks| > 0
    decreases s.remaining, if s.sequence == 0 then 1 else 0
  {
    var st := Sent(link, s, src);
    match st.outcome
    case Finished => []
    case Emitted(chunk) => [chunk] + Drain(link, st.session, src)
  }

  /** The whole transmission of an APDU: the chunk `io_usb_hid_send` emits
      followed by those of the `sent` events after it. */
  function Transmit(link: Link, s: Session, length: u16, src: seq<byte>): (chunks: seq<seq<byte>>)
    requires link.Valid() && length <= |src|
    ensures forall k :: 0 <= k < |chunks| ==> |chunks[k]| == link.segmentSize
    ensures |chunks| == 0 <==> length == 0
  {
    var st := Send(link, s, length, src);
    st.trace + (if length == 0 then [] else Drain(link, st.session, src))
  }

  /** The `sent` event that follows the last data chunk emits nothing, resets
      the session and leaves the device idle. */
  lemma CleanupAfterLastChunk(link: Link, s: Session, src: seq<byte>)
    requires link.Valid() && TxValid(s, |src|)
    requires Sent(link, s, src).outcome.Emitted? && Sent(link, s, src).session.remaining == 0
    ensures var after := Sent(link, Sent(link, s, src).session, src);
      after.outcome == Finished && Idle(after.session)
  {
  }
}
