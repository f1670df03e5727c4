/**
 Fragmentation against reassembly: the chunks one session emits for an APDU,
 fed in order into `io_usb_hid_receive` on a second session, rebuild the APDU
 in the destination buffer.
 */
module HidRoundTrip {
  import opened Bytes
  import opened HidSession
  import opened HidReceive
  import opened HidSend

  /** The receiving session, destination, statuses and replies after a run of reports. */
  datatype FeedResult = FeedResult(session: Session, dest: seq<byte>, statuses: seq<Status>, replies: seq<seq<byte>>)

  /** Deliver `reports` one by one to `io_usb_hid_receive`, each with length `l`.
      The four `entropy` bytes are fixed for the whole run, so every channel
      allocation in it is answered with the same bytes; on the device each
      allocation draws fresh ones. */
  function Feed(link: Link, rx: Session, reports: seq<seq<byte>>, l: u16, dest: seq<byte>, entropy: seq<byte>): (r: FeedResult)
    requires link.Valid() && |entropy| == 4 && RxValid(rx, |dest|)
    requires forall k :: 0 <= k < |reports| ==> Min(l, link.segmentSize) <= |reports[k]|
    ensures |r.statuses| == |reports| && |r.dest| == |dest| && RxValid(r.session, |dest|)
    decreases |reports|
  {
    if reports == [] then
      FeedResult(rx, dest, [], [])
    else
      var step := Receive(link, rx, reports[0], l, dest, entropy);
      var rest := Feed(link, step.session, reports[1..], l, step.dest, entropy);
      FeedResult(rest.session, rest.dest, [step.status] + rest.statuses, step.replies + rest.replies)
  }

  /** MORE_DATA for every report but the last, which is RECEIVED. */
  predicate CompletesAtEnd(statuses: seq<Status>) {
    && |statuses| > 0
    && statuses[|statuses| - 1] == Received
    && forall k :: 0 <= k < |statuses| - 1 ==> statuses[k] == MoreData
  }

  /** The sender `tx` and receiver `rx` agree mid-transfer of `src[..length]`:
      before the first chunk the receiver waits for sequence 0 and the
      destination is untouched; afterwards both sessions hold the same
      sequence number, cursor and remaining length, the destination holds the
      source up to the cursor and its original bytes from there on, and the
      sequence number is small enough to fit the 16-bit header field. */
  ghost predicate Sync(link: Link, tx: Session, rx: Session, src: seq<byte>, length: nat, dest0: seq<byte>, dest: seq<byte>) {
    && tx.cursor.At?
    && tx.cursor.offset + tx.remaining == length
    && length <= |src| && length <= |dest| && |dest0| == |dest| && length < 0x1_0000
    && RxValid(rx, |dest|)
    && var c := tx.cursor.offset;
    if tx.sequence == 0 then
      c == 0 && rx.sequence == 0 && dest == dest0
    else
      && rx.sequence == tx.sequence
      && rx.cursor == At(c) && rx.remaining == tx.remaining
      && rx.totalLength == length && rx.channel == tx.channel % 0x1_0000
      && (forall i :: 0 <= i < c ==> dest[i] == src[i])
      && (forall i :: c <= i < |dest| ==> dest[i] == dest0[i])
      && 2 * (tx.sequence - 1) <= c
  }

  /** A data chunk delivered with length `IO_HID_EP_LENGTH` reads the same
      through the receiver's scratch buffer, as long as its header and
      payload fit in `IO_HID_EP_LENGTH` bytes. */
  lemma ScratchOfCarried(link: Link, chunk: seq<byte>, channel: nat, sequence: nat, remaining: nat, payload: seq<byte>)
    requires link.Valid() && link.epLength < 0x1_0000
    requires ChunkCarries(link, chunk, channel, sequence, remaining, payload)
    requires (if sequence == 0 then FIRST_HEADER else NEXT_HEADER) + |payload| <= link.epLength
    ensures var buf := Scratch(link, chunk, link.epLength);
      var header := if sequence == 0 then FIRST_HEADER else NEXT_HEADER;
      && buf[2] == TAG_APDU
      && ReadU16BE(buf, 0) == channel % 0x1_0000
      && ReadU16BE(buf, 3) == sequence % 0x1_0000
      && (sequence == 0 ==> ReadU16BE(buf, 5) == remaining % 0x1_0000)
      && buf[header..header + |payload|] == payload
  {
  }

  /** The first chunk `sent` emits, seen through the receiver's scratch
      buffer when delivered with length `IO_HID_EP_LENGTH`: a data chunk with
      sequence 0 carrying the sender's channel and total, whose payload the
      receiver's clamps cut to exactly the bytes sent. */
  lemma SentFirstChunkDecodes(link: Link, tx: Session, src: seq<byte>)
    requires link.Valid() && link.epLength < 0x1_0000
    requires TxValid(tx, |src|) && tx.cursor.At? && 0 < tx.remaining < 0x1_0000 && tx.sequence == 0
    ensures var st := Sent(link, tx, src);
      && st.outcome.Emitted?
      && |st.outcome.chunk| == link.segmentSize
      && var buf := Scratch(link, st.outcome.chunk, link.epLength);
      var c := tx.cursor.offset;
      var n := Min(tx.remaining, link.epLength - FIRST_HEADER);
      && buf[2] == TAG_APDU
      && ReadU16BE(buf, 0) == tx.channel % 0x1_0000
      && ReadU16BE(buf, 3) == 0
      && ReadU16BE(buf, 5) == tx.remaining
      && Min(Min(Available(link.epLength, FIRST_HEADER), tx.remaining), link.segmentSize - FIRST_HEADER) == n
      && buf[FIRST_HEADER..FIRST_HEADER + n] == src[c..c + n]
  {
    var st := Sent(link, tx, src);
    var c := tx.cursor.offset;
    var n := Min(tx.remaining, link.epLength - FIRST_HEADER);
    ScratchOfCarried(link, st.outcome.chunk, tx.channel, 0, tx.remaining, src[c..c + n]);
    FitsU16(tx.remaining);
  }

  /** A continuation chunk `sent` emits, seen the same way: a data chunk
      carrying the sender's channel and sequence number, whose payload the
      receiver's clamps cut to exactly the bytes sent. */
  lemma SentNextChunkDecodes(link: Link, tx: Session, src: seq<byte>)
    requires link.Valid() && link.epLength < 0x1_0000
    requires TxValid(tx, |src|) && tx.cursor.At? && 0 < tx.remaining < 0x1_0000 && 0 < tx.sequence < 0x1_0000
    ensures var st := Sent(link, tx, src);
      && st.outcome.Emitted?
      && |st.outcome.chunk| == link.segmentSize
      && var buf := Scratch(link, st.outcome.chunk, link.epLength);
      var c := tx.cursor.offset;
      var n := Min(tx.remaining, link.epLength - NEXT_HEADER);
      && buf[2] == TAG_APDU
      && ReadU16BE(buf, 0) == tx.channel % 0x1_0000
      && ReadU16BE(buf, 3) == tx.sequence
      && Min(Min(Available(link.epLength, NEXT_HEADER), tx.remaining), link.segmentSize - NEXT_HEADER) == n
      && buf[NEXT_HEADER..NEXT_HEADER + n] == src[c..c + n]
  {
    var st := Sent(link, tx, src);
    var c := tx.cursor.offset;
    var n := Min(tx.remaining, link.epLength - NEXT_HEADER);
    ScratchOfCarried(link, st.outcome.chunk, tx.channel, tx.sequence, tx.remaining, src[c..c + n]);
    FitsU16(tx.sequence);
  }

  /** The first `sent` event of a transfer and the delivery of its chunk to a
      receiver waiting for sequence 0: the receiver records the total and
      channel and copies exactly the bytes sent to the start of the destination. */
  lemma ExchangeFirst(link: Link, tx: Session, rx: Session, src: seq<byte>, dest: seq<byte>, entropy: seq<byte>)
    returns (chunk: seq<byte>, r: RxStep)
    requires link.Valid() && link.epLength < 0x1_0000 && |entropy| == 4
    requires TxValid(tx, |src|) && tx.cursor == At(0) && 0 < tx.remaining <= |dest| && tx.remaining < 0x1_0000
    requires tx.sequence == 0 && rx.sequence == 0
    ensures Sent(link, tx, src).outcome == Emitted(chunk) && |chunk| == link.segmentSize
    ensures r == Receive(link, rx, chunk, link.epLength, dest, entropy)
    ensures var n := Min(tx.remaining, PayloadRoom(link, 0));
      && n <= |dest| && n <= |src|
      && WritesWithin(dest, r.dest, 0, n) && r.dest[0..n] == src[0..n]
      && r.replies == []
      && (r.status == MoreData <==> n < tx.remaining)
      && (r.status != MoreData ==> r.status == Received && Idle(r.session))
      && (r.status == MoreData ==>
            r.session.sequence == 1 && r.session.remaining == tx.remaining - n && r.session.cursor == At(n))
      && r.session.totalLength == tx.remaining
      && r.session.channel == tx.channel % 0x1_0000
  {
    assert PayloadRoom(link, 0) == link.epLength - FIRST_HEADER;
    var n := Min(tx.remaining, link.epLength - FIRST_HEADER);
    SentFirstChunkDecodes(link, tx, src);
    chunk := Sent(link, tx, src).outcome.chunk;
    r := Receive(link, rx, chunk, link.epLength, dest, entropy);
    var buf := Scratch(link, chunk, link.epLength);
    assert buf[FIRST_HEADER..FIRST_HEADER + n] == src[0..n];
    assert n == Min(Min(Available(link.epLength, FIRST_HEADER), tx.remaining), link.segmentSize - FIRST_HEADER);
    AcceptedFirstChunk(link, rx, chunk, link.epLength, dest, entropy);
    assert r.dest[..n] == r.dest[0..n];
  }

  /** A later `sent` event and the delivery of its chunk to a receiver
      expecting the same sequence number at the same cursor: the receiver
      copies exactly the bytes sent to the position they came from. */
  lemma ExchangeNext(link: Link, tx: Session, rx: Session, src: seq<byte>, dest: seq<byte>, entropy: seq<byte>)
    returns (chunk: seq<byte>, r: RxStep)
    requires link.Valid() && link.epLength < 0x1_0000 && |entropy| == 4
    requires TxValid(tx, |src|) && tx.cursor.At? && 0 < tx.remaining < 0x1_0000
    requires 0 < tx.sequence < 0x1_0000 && RxValid(rx, |dest|)
    requires rx.sequence == tx.sequence && rx.cursor == tx.cursor && rx.remaining == tx.remaining
    ensures Sent(link, tx, src).outcome == Emitted(chunk) && |chunk| == link.segmentSize
    ensures r == Receive(link, rx, chunk, link.epLength, dest, entropy)
    ensures var c := tx.cursor.offset;
      var n := Min(tx.remaining, PayloadRoom(link, tx.sequence));
      && c + n <= |dest| && c + n <= |src|
      && WritesWithin(dest, r.dest, c, c + n) && r.dest[c..c + n] == src[c..c + n]
      && r.replies == []
      && (r.status == MoreData <==> n < tx.remaining)
      && (r.status != MoreData ==> r.status == Received && Idle(r.session))
      && (r.status == MoreData ==>
            r.session == rx.(sequence := rx.sequence + 1, remaining := tx.remaining - n, cursor := At(c + n)))
      && r.session.totalLength == rx.totalLength
      && r.session.channel == rx.channel
  {
    var c := tx.cursor.offset;
    assert PayloadRoom(link, tx.sequence) == link.epLength - NEXT_HEADER;
    var n := Min(tx.remaining, link.epLength - NEXT_HEADER);
    SentNextChunkDecodes(link, tx, src);
    chunk := Sent(link, tx, src).outcome.chunk;
    r := Receive(link, rx, chunk, link.epLength, dest, entropy);
    var buf := Scratch(link, chunk, link.epLength);
    assert buf[NEXT_HEADER..NEXT_HEADER + n] == src[c..c + n];
    assert n == Min(Min(Available(link.epLength, NEXT_HEADER), tx.remaining), link.segmentSize - NEXT_HEADER);
    AcceptedNextChunk(link, rx, chunk, link.epLength, dest, entropy);
  }

  /** One `sent` event followed by the delivery of its chunk keeps the two
      sessions in step, or completes the APDU on the last chunk. */
  lemma SyncStep(link: Link, tx: Session, rx: Session, src: seq<byte>, length: nat, dest0: seq<byte>, dest: seq<byte>, entropy: seq<byte>)
    requires link.Valid() && link.epLength < 0x1_0000 && |entropy| == 4
    requires Sync(link, tx, rx, src, length, dest0, dest) && tx.remaining > 0
    ensures var st := Sent(link, tx, src);
      && st.outcome.Emitted?
      && |st.outcome.chunk| == link.segmentSize
      && var r := Receive(link, rx, st.outcome.chunk, link.epLength, dest, entropy);
      && r.replies == []
      && (st.session.remaining > 0 ==>
            r.status == MoreData && Sync(link, st.session, r.session, src, length, dest0, r.dest))
      && (st.session.remaining == 0 ==>
            && r.status == Received && Idle(r.session)
            && r.session.totalLength == length && r.session.channel == tx.channel % 0x1_0000
            && r.dest[..length] == src[..length] && r.dest[length..] == dest0[length..])
  {
    if tx.sequence == 0 {
      SyncStepFirst(link, tx, rx, src, length, dest0, dest, entropy);
    } else {
      SyncStepNext(link, tx, rx, src, length, dest0, dest, entropy);
    }
  }

  /** `SyncStep` for the first chunk of a transfer. */
  lemma SyncStepFirst(link: Link, tx: Session, rx: Session, src: seq<byte>, length: nat, dest0: seq<byte>, dest: seq<byte>, entropy: seq<byte>)
    requires link.Valid() && link.epLength < 0x1_0000 && |entropy| == 4
    requires Sync(link, tx, rx, src, length, dest0, dest) && tx.remaining > 0 && tx.sequence == 0
    ensures var st := Sent(link, tx, src);
      && st.outcome.Emitted?
      && |st.outcome.chunk| == link.segmentSize
      && var r := Receive(link, rx, st.outcome.chunk, link.epLength, dest, entropy);
      && r.replies == []
      && (st.session.remaining > 0 ==>
            r.status == MoreData && Sync(link, st.session, r.session, src, length, dest0, r.dest))
      && (st.session.remaining == 0 ==>
            && r.status == Received && Idle(r.session)
            && r.session.totalLength == length && r.session.channel == tx.channel % 0x1_0000
            && r.dest[..length] == src[..length] && r.dest[length..] == dest0[length..])
  {
    var n := Min(tx.remaining, PayloadRoom(link, 0));
    var chunk, r := ExchangeFirst(link, tx, rx, src, dest, entropy);
    var st := Sent(link, tx, src);
    assert st.session == tx.(cursor := At(n), remaining := tx.remaining - n, sequence := 1);
    if st.session.remaining == 0 {
      LastChunkDone(dest0, dest, r.dest, src, 0, n, length);
    } else {
      NextInSync(link, tx, st.session, rx, r.session, src, length, dest0, dest, r.dest, 0, n);
    }
  }

  /** `SyncStep` for a continuation chunk. */
  lemma SyncStepNext(link: Link, tx: Session, rx: Session, src: seq<byte>, length: nat, dest0: seq<byte>, dest: seq<byte>, entropy: seq<byte>)
    requires link.Valid() && link.epLength < 0x1_0000 && |entropy| == 4
    requires Sync(link, tx, rx, src, length, dest0, dest) && tx.remaining > 0 && tx.sequence != 0
    ensures var st := Sent(link, tx, src);
      && st.outcome.Emitted?
      && |st.outcome.chunk| == link.segmentSize
      && var r := Receive(link, rx, st.outcome.chunk, link.epLength, dest, entropy);
      && r.replies == []
      && (st.session.remaining > 0 ==>
            r.status == MoreData && Sync(link, st.session, r.session, src, length, dest0, r.dest))
      && (st.session.remaining == 0 ==>
            && r.status == Received && Idle(r.session)
            && r.session.totalLength == length && r.session.channel == tx.channel % 0x1_0000
            && r.dest[..length] == src[..length] && r.dest[length..] == dest0[length..])
  {
    var c := tx.cursor.offset;
    var n := Min(tx.remaining, PayloadRoom(link, tx.sequence));
    var chunk, r := ExchangeNext(link, tx, rx, src, dest, entropy);
    var st := Sent(link, tx, src);
    assert st.session == tx.(cursor := At(c + n), remaining := tx.remaining - n, sequence := tx.sequence + 1);
    if st.session.remaining == 0 {
      LastChunkDone(dest0, dest, r.dest, src, c, n, length);
    } else {
      NextInSync(link, tx, st.session, rx, r.session, src, length, dest0, dest, r.dest, c, n);
    }
  }

  /** After the last chunk the destination holds the APDU and, beyond it, its original bytes. */
  lemma LastChunkDone(dest0: seq<byte>, dest: seq<byte>, next: seq<byte>, src: seq<byte>, c: nat, n: nat, length: nat)
    requires c + n == length <= |dest| == |dest0| && length <= |src|
    requires forall i :: 0 <= i < c ==> dest[i] == src[i]
    requires forall i :: c <= i < |dest| ==> dest[i] == dest0[i]
    requires WritesWithin(dest, next, c, c + n) && next[c..c + n] == src[c..c + n]
    ensures next[..length] == src[..length] && next[length..] == dest0[length..]
  {
  }

  /** A chunk that leaves bytes to send leaves the two sessions in step. */
  lemma NextInSync(link: Link, tx: Session, tx': Session, rx: Session, rx': Session, src: seq<byte>, length: nat,
                   dest0: seq<byte>, dest: seq<byte>, dest': seq<byte>, c: nat, n: nat)
    requires link.Valid() && Sync(link, tx, rx, src, length, dest0, dest) && tx.cursor == At(c)
    requires n == Min(tx.remaining, PayloadRoom(link, tx.sequence)) && n < tx.remaining
    requires tx' == tx.(cursor := At(c + n), remaining := tx.remaining - n, sequence := tx.sequence + 1)
    requires rx'.sequence == rx.sequence + 1 && rx'.cursor == At(c + n) && rx'.remaining == tx.remaining - n
    requires rx'.totalLength == length && rx'.channel == tx.channel % 0x1_0000
    requires WritesWithin(dest, dest', c, c + n) && dest'[c..c + n] == src[c..c + n]
    ensures Sync(link, tx', rx', src, length, dest0, dest')
  {
  }

  /** Delivering a chunk followed by more: the first report's step, then the rest. */
  lemma FeedCons(link: Link, rx: Session, chunk: seq<byte>, rest: seq<seq<byte>>, l: u16, dest: seq<byte>, entropy: seq<byte>)
    requires link.Valid() && |entropy| == 4 && RxValid(rx, |dest|)
    requires Min(l, link.segmentSize) <= |chunk|
    requires forall k :: 0 <= k < |rest| ==> Min(l, link.segmentSize) <= |rest[k]|
    ensures var r := Receive(link, rx, chunk, l, dest, entropy);
      var tail := Feed(link, r.session, rest, l, r.dest, entropy);
      Feed(link, rx, [chunk] + rest, l, dest, entropy)
        == FeedResult(tail.session, tail.dest, [r.status] + tail.statuses, r.replies + tail.replies)
  {
  }

  /** One more MORE_DATA in front of a run that completes at its end still completes at its end. */
  lemma CompletesAtEndCons(statuses: seq<Status>)
    requires CompletesAtEnd(statuses)
    ensures CompletesAtEnd([MoreData] + statuses)
  {
  }

  /** Draining the sender into the receiver completes the APDU exactly at the last chunk. */
  lemma {:induction false} DrainReassembles(link: Link, tx: Session, rx: Session, src: seq<byte>, length: nat, dest0: seq<byte>, dest: seq<byte>, entropy: seq<byte>)
    requires link.Valid() && link.epLength < 0x1_0000 && |entropy| == 4
    requires Sync(link, tx, rx, src, length, dest0, dest) && tx.remaining > 0
    ensures var f := Feed(link, rx, Drain(link, tx, src), link.epLength, dest, entropy);
      && CompletesAtEnd(f.statuses) && f.replies == []
      && Idle(f.session) && f.session.totalLength == length && f.session.channel == tx.channel % 0x1_0000
      && f.dest[..length] == src[..length] && f.dest[length..] == dest0[length..]
    decreases tx.remaining, if tx.sequence == 0 then 1 else 0
  {
    var st := Sent(link, tx, src);
    SyncStep(link, tx, rx, src, length, dest0, dest, entropy);
    var chunk := st.outcome.chunk;
    var rest := Drain(link, st.session, src);
    assert Drain(link, tx, src) == [chunk] + rest;
    var r := Receive(link, rx, chunk, link.epLength, dest, entropy);
    FeedCons(link, rx, chunk, rest, link.epLength, dest, entropy);
    var tail := Feed(link, r.session, rest, link.epLength, r.dest, entropy);
    if st.session.remaining > 0 {
      DrainReassembles(link, st.session, r.session, src, length, dest0, r.dest, entropy);
      CompletesAtEndCons(tail.statuses);
    } else {
      assert rest == [];
    }
  }

  /** Round trip: every chunk of an APDU of `length` bytes, sent from any
      session and delivered in order (each with length `IO_HID_EP_LENGTH`) to a
      receiver waiting for sequence 0 whose destination holds at least
      `length` bytes, yields MORE_DATA for each chunk but the last and RECEIVED
      for the last, rebuilds the APDU at the start of the destination, leaves
      the rest of the destination alone and the receiver idle with the
      sender's total length and channel. */
  lemma RoundTrip(link: Link, tx: Session, rx: Session, length: u16, src: seq<byte>, dest: seq<byte>, entropy: seq<byte>)
    requires link.Valid() && link.epLength < 0x1_0000 && |entropy| == 4
    requires 0 < length <= |src| && length <= |dest|
    requires rx.sequence == 0
    ensures var f := Feed(link, rx, Transmit(link, tx, length, src), link.epLength, dest, entropy);
      && CompletesAtEnd(f.statuses) && f.replies == []
      && Idle(f.session) && f.session.totalLength == length && f.session.channel == tx.channel % 0x1_0000
      && f.dest[..length] == src[..length] && f.dest[length..] == dest[length..]
  {
    ArmedInSync(link, tx, rx, length, src, dest);
    DrainReassembles(link, Arm(tx, length), rx, src, length, dest, dest, entropy);
    TransmitIsDrain(link, tx, length, src);
  }

  /** A freshly armed sender and a receiver waiting for sequence 0 are in step. */
  lemma ArmedInSync(link: Link, tx: Session, rx: Session, length: u16, src: seq<byte>, dest: seq<byte>)
    requires length <= |src| && length <= |dest| && rx.sequence == 0 && RxValid(rx, |dest|)
    ensures Sync(link, Arm(tx, length), rx, src, length, dest, dest)
  {
  }

  /** A transmission is the drain of the armed session: `io_usb_hid_send`'s
      own chunk is the first one the drain would emit. */
  lemma TransmitIsDrain(link: Link, tx: Session, length: u16, src: seq<byte>)
    requires link.Valid() && 0 < length <= |src|
    ensures Transmit(link, tx, length, src) == Drain(link, Arm(tx, length), src)
  {
  }
}
