/**
 The reassembly engine, `io_usb_hid_receive`: one incoming report is copied
 into the zero-padded scratch buffer, then either answered in place (control
 tags), appended to the destination APDU buffer (tag 0x05) or ignored.
 */
module HidReceive {
  import opened Bytes
  import opened HidSession

  /** `io_usb_hid_receive_status_t`. */
  datatype Status = MoreData | Received | Reset

  /** The session after one report, the destination buffer, the status and
      the reports handed to `sndfct` (the output trace). */
  datatype RxStep = RxStep(session: Session, dest: seq<byte>, status: Status, replies: seq<seq<byte>>)

  /** The reception invariant: while a chunk sequence is in progress the cursor
      and the remaining length together cover exactly the declared total, which
      fits in the destination buffer. Every state `io_usb_hid_receive` and
      `io_usb_hid_init` produce satisfies it, and it is what keeps every
      continuation write inside the destination. */
  predicate RxValid(s: Session, capacity: nat) {
    s.sequence != 0 ==>
      s.cursor.At? && s.cursor.offset + s.remaining == s.totalLength <= capacity
  }

  /** The scratch buffer after the incoming report of length `l` is copied in:
      the first `MIN(l, S)` bytes of the report, then zeros. */
  function Scratch(link: Link, report: seq<byte>, l: u16): (buf: seq<byte>)
    requires Min(l, link.segmentSize) <= |report|
    ensures |buf| == link.segmentSize
    ensures forall i :: 0 <= i < |buf| ==> buf[i] == (if i < l then report[i] else 0)
  {
    var n := Min(l, link.segmentSize);
    report[..n] + Zeros(link.segmentSize - n)
  }

  /** The bytes of payload a report of length `l` offers after a header of
      `header` bytes, computed as an unsigned 16-bit difference: a report
      shorter than its header offers almost 64 KiB. */
  function Available(l: u16, header: nat): nat
    requires header <= 0x1_0000
  {
    if header <= l then l - header else 0x1_0000 + l - header
  }

  /** The two clamps applied to the payload length before the copy: first to
      the remaining length (assigned back into the 16-bit `l`), then to the
      scratch room after the header. */
  function Clamp(l: u16, remaining: u32, room: nat): (n: nat)
    ensures n <= remaining && n <= room
    ensures remaining < 0x1_0000 ==> n == Min(Min(l, remaining), room)
  {
    var l1 := if l > remaining then Wrap16(remaining) else l;
    if l1 > room then room else l1
  }

  /** Abandon any exchange: `goto apdu_reset`. */
  function Abort(s: Session, dest: seq<byte>, replies: seq<seq<byte>>): (r: RxStep)
    ensures r.status == Reset && Idle(r.session) && r.dest == dest && r.replies == replies
    ensures r.session.totalLength == s.totalLength && r.session.channel == s.channel
  {
    RxStep(Init(s), dest, Reset, replies)
  }

  /** The common tail after the tag dispatch: more data while bytes remain,
      otherwise reset the sequence number and report the APDU received. */
  function Tail(s: Session, dest: seq<byte>): (r: RxStep)
    ensures r.dest == dest && r.replies == []
    ensures r.status == MoreData <==> s.remaining != 0
    ensures r.status != Reset
    ensures r.session == if s.remaining != 0 then s else Init(s)
  {
    if s.remaining != 0 then RxStep(s, dest, MoreData, []) else RxStep(Init(s), dest, Received, [])
  }

  /** Append `payload` at the cursor, advance the cursor, consume the
      remaining length and step the sequence number (the code after the two
      copy branches), then run the tail. */
  function Append(s: Session, payload: seq<byte>, dest: seq<byte>): (r: RxStep)
    requires s.cursor.At? && s.cursor.offset + |payload| <= |dest|
    requires |payload| <= s.remaining && s.sequence < 0xFFFF_FFFF
    ensures WritesWithin(dest, r.dest, s.cursor.offset, s.cursor.offset + |payload|)
    ensures r.dest[s.cursor.offset..s.cursor.offset + |payload|] == payload
    ensures r.status == MoreData <==> |payload| < s.remaining
    ensures r.status != Reset && r.replies == []
    ensures r.status == MoreData ==>
      r.session == s.(cursor := At(s.cursor.offset + |payload|), remaining := s.remaining - |payload|, sequence := s.sequence + 1)
    ensures r.status == Received ==>
      Idle(r.session) && r.session.totalLength == s.totalLength && r.session.channel == s.channel
  {
    var c := s.cursor.offset;
    var next := s.(cursor := At(c + |payload|), remaining := s.remaining - |payload|, sequence := s.sequence + 1);
    Tail(next, Splice(dest, c, payload))
  }

  /** The tag 0x05 branch on the scratch buffer `buf`. */
  function ReceiveData(link: Link, s: Session, buf: seq<byte>, l: u16, dest: seq<byte>): (r: RxStep)
    requires link.Valid() && |buf| == link.segmentSize
    requires RxValid(s, |dest|)
    ensures RxValid(r.session, |dest|) && r.replies == []
    ensures ReadU16BE(buf, 3) != s.sequence ==> r == Abort(s, dest, [])
    ensures s.sequence != 0 ==> WritesWithin(dest, r.dest, s.cursor.offset, s.cursor.offset + s.remaining)
    ensures s.sequence == 0 ==> WritesWithin(dest, r.dest, 0, r.session.totalLength)
  {
    if ReadU16BE(buf, 3) != s.sequence then
      Abort(s, dest, [])
    else
      var l1 := Wrap16(l - NEXT_HEADER);
      if s.sequence == 0 then
        var total := ReadU16BE(buf, 5);
        if total > |dest| then
          Abort(s.(totalLength := total), dest, [])
        else
          var l2 := Wrap16(l1 - 2);
          var first := s.(totalLength := total, remaining := total, cursor := At(0), channel := ReadU16BE(buf, 0));
          var n := Clamp(l2, total, link.segmentSize - FIRST_HEADER);
          Append(first, buf[FIRST_HEADER..FIRST_HEADER + n], dest)
      else
        var n := Clamp(l1, s.remaining, link.segmentSize - NEXT_HEADER);
        Append(s, buf[NEXT_HEADER..NEXT_HEADER + n], dest)
  }

  /** The reply `sndfct` receives for a control tag: the first
      `IO_HID_EP_LENGTH` bytes of the scratch buffer, whose bytes 3..7 have been
      replaced by `field` (the protocol version or the channel bytes), or left
      alone for a ping. */
  function ControlReply(link: Link, buf: seq<byte>, field: seq<byte>): (reply: seq<byte>)
    requires link.Valid() && |buf| == link.segmentSize
    requires |field| == 4 || field == []
    ensures |reply| == link.epLength
    ensures reply[..3] == buf[..3] && reply[7..] == buf[7..link.epLength]
    ensures reply[3..7] == if field == [] then buf[3..7] else field
  {
    if field == [] then buf[..link.epLength] else Splice(buf, 3, field)[..link.epLength]
  }

  /** `io_usb_hid_receive(sndfct, report, l, dest)`. `entropy` stands for the
      four bytes `cx_rng_no_throw` would produce for a channel allocation. */
  function Receive(link: Link, s: Session, report: seq<byte>, l: u16, dest: seq<byte>, entropy: seq<byte>): (r: RxStep)
    requires link.Valid() && Min(l, link.segmentSize) <= |report| && |entropy| == 4
    requires RxValid(s, |dest|)
    ensures RxValid(r.session, |dest|) && |r.dest| == |dest|
    ensures r.status != MoreData ==> Idle(r.session)
    ensures r.status == MoreData ==> r.session.remaining > 0
    ensures r.status == Reset || r.replies == []
    ensures |r.replies| <= 1 && forall k :: 0 <= k < |r.replies| ==> |r.replies[k]| == link.epLength
    ensures r.status == Reset ==> r.dest == dest
    ensures s.sequence != 0 ==> WritesWithin(dest, r.dest, s.cursor.offset, s.cursor.offset + s.remaining)
    ensures s.sequence == 0 ==> WritesWithin(dest, r.dest, 0, r.session.totalLength)
  {
    var buf := Scratch(link, report, l);
    var tag := buf[2];
    if tag == TAG_APDU then
      ReceiveData(link, s, buf, l, dest)
    else if tag == TAG_VERSION then
      Abort(s, dest, [ControlReply(link, buf, [0, 0, 0, 0])])
    else if tag == TAG_ALLOCATE_CHANNEL then
      Abort(s, dest, [ControlReply(link, buf, entropy)])
    else if tag == TAG_PING then
      Abort(s, dest, [ControlReply(link, buf, [])])
    else
      Tail(s, dest)
  }

  /** The first power-on state and every reset state satisfy the reception invariant. */
  lemma InitRxValid(s: Session, capacity: nat)
    ensures RxValid(Init(s), capacity) && RxValid(PowerOn, capacity)
  {
  }

  /** A data chunk carrying a sequence number other than the expected one
      abandons the exchange and touches nothing else. */
  lemma SequenceMismatchResets(link: Link, s: Session, report: seq<byte>, l: u16, dest: seq<byte>, entropy: seq<byte>)
    requires link.Valid() && Min(l, link.segmentSize) <= |report| && |entropy| == 4
    requires RxValid(s, |dest|)
    requires Scratch(link, report, l)[2] == TAG_APDU
    requires ReadU16BE(Scratch(link, report, l), 3) != s.sequence
    ensures var r := Receive(link, s, report, l, dest, entropy);
      && r.status == Reset && r.dest == dest && r.replies == []
      && r.session == s.(sequence := 0, remaining := 0, cursor := Null)
  {
  }

  /** A first chunk declaring more bytes than the destination holds is
      rejected before anything is copied; only the recorded total changes. */
  lemma OversizeRejected(link: Link, s: Session, report: seq<byte>, l: u16, dest: seq<byte>, entropy: seq<byte>)
    requires link.Valid() && Min(l, link.segmentSize) <= |report| && |entropy| == 4
    requires RxValid(s, |dest|) && s.sequence == 0
    requires var buf := Scratch(link, report, l);
      buf[2] == TAG_APDU && ReadU16BE(buf, 3) == 0 && ReadU16BE(buf, 5) > |dest|
    ensures var r := Receive(link, s, report, l, dest, entropy);
      && r.status == Reset && r.dest == dest && r.replies == [] && Idle(r.session)
      && r.session.totalLength == ReadU16BE(Scratch(link, report, l), 5)
      && r.session.channel == s.channel
  {
  }

  /** An accepted first chunk (sequence 0, declared total within the
      destination): the payload copied is at most the declared total and at
      most what the scratch buffer holds after the 7-byte header, even when the
      report is shorter than the header and `l` wraps; it lands at the start of
      the destination and nowhere else; the channel and total are recorded, and
      the status is MORE_DATA exactly while bytes remain. */
  lemma AcceptedFirstChunk(link: Link, s: Session, report: seq<byte>, l: u16, dest: seq<byte>, entropy: seq<byte>)
    requires link.Valid() && Min(l, link.segmentSize) <= |report| && |entropy| == 4
    requires s.sequence == 0
    requires var buf := Scratch(link, report, l);
      buf[2] == TAG_APDU && ReadU16BE(buf, 3) == 0 && ReadU16BE(buf, 5) <= |dest|
    ensures var buf := Scratch(link, report, l);
      var r := Receive(link, s, report, l, dest, entropy);
      var total := ReadU16BE(buf, 5);
      var n := Min(Min(Available(l, FIRST_HEADER), total), link.segmentSize - FIRST_HEADER);
      && n <= total && n <= link.segmentSize - FIRST_HEADER
      && WritesWithin(dest, r.dest, 0, n)
      && r.dest[..n] == buf[FIRST_HEADER..FIRST_HEADER + n]
      && r.replies == []
      && r.session.totalLength == total && r.session.channel == ReadU16BE(buf, 0)
      && (r.status == MoreData <==> n < total)
      && (r.status == MoreData ==> r.session.sequence == 1 && r.session.remaining == total - n && r.session.cursor == At(n))
      && (r.status != MoreData ==> r.status == Received && Idle(r.session))
  {
  }

  /** An accepted continuation chunk (sequence number as expected, not 0):
      the payload copied is at most the remaining length and at most what the
      scratch buffer holds after the 5-byte header, even when `l` wraps; it
      lands at the cursor and nowhere else; the cursor and remaining length
      move by its length and the sequence number by one, and the status is
      MORE_DATA exactly while bytes remain. */
  lemma AcceptedNextChunk(link: Link, s: Session, report: seq<byte>, l: u16, dest: seq<byte>, entropy: seq<byte>)
    requires link.Valid() && Min(l, link.segmentSize) <= |report| && |entropy| == 4
    requires RxValid(s, |dest|) && s.sequence != 0
    requires var buf := Scratch(link, report, l);
      buf[2] == TAG_APDU && ReadU16BE(buf, 3) == s.sequence
    ensures var buf := Scratch(link, report, l);
      var r := Receive(link, s, report, l, dest, entropy);
      var c := s.cursor.offset;
      var n := Min(Min(Available(l, NEXT_HEADER), s.remaining), link.segmentSize - NEXT_HEADER);
      && n <= s.remaining && n <= link.segmentSize - NEXT_HEADER
      && WritesWithin(dest, r.dest, c, c + n)
      && r.dest[c..c + n] == buf[NEXT_HEADER..NEXT_HEADER + n]
      && r.replies == []
      && r.session.totalLength == s.totalLength && r.session.channel == s.channel
      && (r.status == MoreData <==> n < s.remaining)
      && (r.status == MoreData ==>
            r.session == s.(sequence := s.sequence + 1, remaining := s.remaining - n, cursor := At(c + n)))
      && (r.status != MoreData ==> r.status == Received && Idle(r.session))
  {
  }

  /** A first chunk declaring a total of zero completes the APDU at once. */
  lemma EmptyApduCompletes(link: Link, s: Session, report: seq<byte>, l: u16, dest: seq<byte>, entropy: seq<byte>)
    requires link.Valid() && Min(l, link.segmentSize) <= |report| && |entropy| == 4
    requires RxValid(s, |dest|) && s.sequence == 0
    requires var buf := Scratch(link, report, l);
      buf[2] == TAG_APDU && ReadU16BE(buf, 3) == 0 && ReadU16BE(buf, 5) == 0
    ensures var r := Receive(link, s, report, l, dest, entropy);
      r.status == Received && r.dest == dest && Idle(r.session) && r.session.totalLength == 0
  {
  }

  /** A version query is answered with bytes 3..7 zeroed, and resets the
      session whatever reception was in progress. */
  lemma VersionReply(link: Link, s: Session, report: seq<byte>, l: u16, dest: seq<byte>, entropy: seq<byte>)
    requires link.Valid() && Min(l, link.segmentSize) <= |report| && |entropy| == 4
    requires RxValid(s, |dest|)
    requires Scratch(link, report, l)[2] == TAG_VERSION
    ensures var buf := Scratch(link, report, l);
      var r := Receive(link, s, report, l, dest, entropy);
      && r.status == Reset && Idle(r.session) && r.dest == dest
      && |r.replies| == 1 && |r.replies[0]| == link.epLength
      && r.replies[0][..3] == buf[..3] && r.replies[0][3..7] == [0, 0, 0, 0]
      && r.replies[0][7..] == buf[7..link.epLength]
  {
  }

  /** A channel allocation is answered with bytes 3..7 replaced by fresh
      random bytes and the rest of the request unchanged; it resets the session. */
  lemma AllocateChannelReply(link: Link, s: Session, report: seq<byte>, l: u16, dest: seq<byte>, entropy: seq<byte>)
    requires link.Valid() && Min(l, link.segmentSize) <= |report| && |entropy| == 4
    requires RxValid(s, |dest|)
    requires Scratch(link, report, l)[2] == TAG_ALLOCATE_CHANNEL
    ensures var buf := Scratch(link, report, l);
      var r := Receive(link, s, report, l, dest, entropy);
      && r.status == Reset && Idle(r.session) && r.dest == dest
      && |r.replies| == 1 && |r.replies[0]| == link.epLength
      && r.replies[0][..3] == buf[..3] && r.replies[0][3..7] == entropy
      && r.replies[0][7..] == buf[7..link.epLength]
  {
  }

  /** A ping is echoed unchanged (the first `IO_HID_EP_LENGTH` bytes of the
      scratch buffer) and resets the session. */
  lemma PingEcho(link: Link, s: Session, report: seq<byte>, l: u16, dest: seq<byte>, entropy: seq<byte>)
    requires link.Valid() && Min(l, link.segmentSize) <= |report| && |entropy| == 4
    requires RxValid(s, |dest|)
    requires Scratch(link, report, l)[2] == TAG_PING
    ensures var buf := Scratch(link, report, l);
      var r := Receive(link, s, report, l, dest, entropy);
      && r.status == Reset && Idle(r.session) && r.dest == dest
      && r.replies == [buf[..link.epLength]]
  {
  }

  /** Any other tag changes no session field before the tail: MORE_DATA with
      the session untouched while bytes remain, otherwise a reset and RECEIVED. */
  lemma UnknownTagFallsThrough(link: Link, s: Session, report: seq<byte>, l: u16, dest: seq<byte>, entropy: seq<byte>)
    requires link.Valid() && Min(l, link.segmentSize) <= |report| && |entropy| == 4
    requires RxValid(s, |dest|)
    requires var tag := Scratch(link, report, l)[2];
      tag != TAG_APDU && tag != TAG_VERSION && tag != TAG_ALLOCATE_CHANNEL && tag != TAG_PING
    ensures var r := Receive(link, s, report, l, dest, entropy);
      && r.dest == dest && r.replies == []
      && (s.remaining != 0 ==> r.status == MoreData && r.session == s)
      && (s.remaining == 0 ==> r.status == Received && r.session == Init(s))
  {
  }
}
