/** The client's side of TCP framing, under any chunking of the byte stream. */
module TcpReceiving {
  import opened Bytes
  import opened Protocol
  import opened Frames
  import opened TcpSending
  import opened UdpClientState

  const MAX_PAYLOAD_LENGTH: nat := 52_428_800
  const MAX_CONSECUTIVE_TIMEOUTS: nat := 10

  /** What `recv` answers: at most as many bytes as asked for and as there are; none means the peer has closed. */
  datatype RecvOutcome = Chunk(count: nat) | Interrupted | TimedOut | Failed

  // ----- reading a number of bytes

  /** `stream` and `outcomes` are what is left of them afterwards. */
  datatype Reading = Reading(ok: bool, data: bytes, stream: bytes, outcomes: seq<RecvOutcome>)

  function Read(stream: bytes, outcomes: seq<RecvOutcome>, length: nat, timeouts: nat): Reading
    decreases |outcomes|
  {
    if length == 0 then Reading(true, [], stream, outcomes)
    else if outcomes == [] then Reading(false, [], stream, outcomes)
    else
      var rest := outcomes[1..];
      match outcomes[0]
      case Interrupted => Read(stream, rest, length, timeouts)
      case TimedOut =>
        if timeouts + 1 >= MAX_CONSECUTIVE_TIMEOUTS then Reading(false, [], stream, rest)
        else Read(stream, rest, length, timeouts + 1)
      case Failed => Reading(false, [], stream, rest)
      case Chunk(count) =>
        var n := Min(count, Min(length, |stream|));
        if n == 0 then Reading(false, [], stream, rest)
        else var r := Read(stream[n..], rest, length - n, 0); r.(data := stream[..n] + r.data)
  }

  /** Reading takes a beginning of the stream, and on success all that was asked for. */
  lemma {:induction false} ReadTakes(stream: bytes, outcomes: seq<RecvOutcome>, length: nat, timeouts: nat)
    ensures var r := Read(stream, outcomes, length, timeouts);
      && r.data + r.stream == stream && |r.data| <= length && (r.ok ==> |r.data| == length)
    decreases |outcomes|
  {
    if length > 0 && outcomes != [] {
      var rest := outcomes[1..];
      match outcomes[0]
      case Interrupted => ReadTakes(stream, rest, length, timeouts);
      case TimedOut => ReadTakes(stream, rest, length, timeouts + 1);
      case Failed =>
      case Chunk(count) =>
        var n := Min(count, Min(length, |stream|));
        if n > 0 {
          ReadTakes(stream[n..], rest, length - n, 0);
          var r := Read(stream[n..], rest, length - n, 0);
          assert (stream[..n] + r.data) + r.stream == stream[..n] + (r.data + r.stream);
        }
    }
  }

  /** No error, no close, and never ten timeouts without a chunk in between. */
  predicate Patient(outcomes: seq<RecvOutcome>, timeouts: nat) {
    outcomes == [] ||
    match outcomes[0]
    case Interrupted => Patient(outcomes[1..], timeouts)
    case TimedOut => timeouts + 1 < 10 && Patient(outcomes[1..], timeouts + 1)
    case Failed => false
    case Chunk(count) => count > 0 && Patient(outcomes[1..], 0)
  }

  function Chunks(outcomes: seq<RecvOutcome>): nat {
    if outcomes == [] then 0 else Chunks(outcomes[1..]) + if outcomes[0].Chunk? then 1 else 0
  }

  /** The connection delivers the rest of the stream, in chunks of any size. */
  predicate Delivers(outcomes: seq<RecvOutcome>, stream: bytes) {
    Patient(outcomes, 0) && Chunks(outcomes) >= |stream|
  }

  lemma {:induction false} PatientAnew(outcomes: seq<RecvOutcome>, timeouts: nat, fewer: nat)
    requires Patient(outcomes, timeouts) && fewer <= timeouts
    ensures Patient(outcomes, fewer)
  {
    if outcomes != [] {
      match outcomes[0]
      case Interrupted => PatientAnew(outcomes[1..], timeouts, fewer);
      case TimedOut => PatientAnew(outcomes[1..], timeouts + 1, fewer + 1);
      case Failed =>
      case Chunk(count) =>
    }
  }

  /** A connection that delivers lets every read within the stream succeed, and still delivers what is left. */
  lemma {:induction false} ReadSucceeds(stream: bytes, outcomes: seq<RecvOutcome>, length: nat, timeouts: nat)
    requires Patient(outcomes, timeouts) && Chunks(outcomes) >= |stream| >= length
    ensures var r := Read(stream, outcomes, length, timeouts); r.ok && Delivers(r.outcomes, r.stream)
    decreases |outcomes|
  {
    if length == 0 {
      PatientAnew(outcomes, timeouts, 0);
    } else {
      var rest := outcomes[1..];
      match outcomes[0]
      case Interrupted => ReadSucceeds(stream, rest, length, timeouts);
      case TimedOut => ReadSucceeds(stream, rest, length, timeouts + 1);
      case Chunk(count) =>
        var n := Min(count, Min(length, |stream|));
        ReadSucceeds(stream[n..], rest, length - n, 0);
    }
  }

  /** How many bytes the outcomes have room for. */
  function Room(outcomes: seq<RecvOutcome>): nat {
    if outcomes == [] then 0 else Room(outcomes[1..]) + if outcomes[0].Chunk? then outcomes[0].count else 0
  }

  lemma {:induction false} ReadMeans(stream: bytes, outcomes: seq<RecvOutcome>, length: nat, timeouts: nat)
    returns (n: nat)
    requires Read(stream, outcomes, length, timeouts).ok
    ensures n <= |outcomes| && Patient(outcomes[..n], timeouts) && Room(outcomes[..n]) >= length && |stream| >= length
    decreases |outcomes|
  {
    n := 0;
    if length > 0 {
      var rest := outcomes[1..];
      match outcomes[0] {
        case Interrupted => n := ReadMeans(stream, rest, length, timeouts);
        case TimedOut => n := ReadMeans(stream, rest, length, timeouts + 1);
        case Chunk(count) =>
          var taken := Min(count, Min(length, |stream|));
          n := ReadMeans(stream[taken..], rest, length - taken, 0);
      }
      n := n + 1;
      assert outcomes[..n][0] == outcomes[0];
      assert outcomes[..n][1..] == rest[..n - 1];
    } else {
      assert outcomes[..0] == [];
    }
  }

  lemma {:induction false} ReadWhen(stream: bytes, outcomes: seq<RecvOutcome>, length: nat, timeouts: nat, n: nat)
    requires n <= |outcomes| && Patient(outcomes[..n], timeouts) && Room(outcomes[..n]) >= length && |stream| >= length
    ensures Read(stream, outcomes, length, timeouts).ok
    decreases |outcomes|
  {
    if length > 0 {
      var rest := outcomes[1..];
      assert outcomes[..n][0] == outcomes[0];
      assert outcomes[..n][1..] == rest[..n - 1];
      match outcomes[0]
      case Interrupted => ReadWhen(stream, rest, length, timeouts, n - 1);
      case TimedOut => ReadWhen(stream, rest, length, timeouts + 1, n - 1);
      case Chunk(count) =>
        var taken := Min(count, Min(length, |stream|));
        ReadWhen(stream[taken..], rest, length - taken, 0, n - 1);
    }
  }

  /** A read succeeds exactly when the stream is long enough and, before any error, any close and ten timeouts without
      a chunk in between, the chunks have room for what is asked for. */
  lemma ReadsExactly(stream: bytes, outcomes: seq<RecvOutcome>, length: nat)
    ensures Read(stream, outcomes, length, 0).ok <==>
      && |stream| >= length
      && exists n: nat :: n <= |outcomes| && Patient(outcomes[..n], 0) && Room(outcomes[..n]) >= length
  {
    hide Read, Patient, Room;
    if Read(stream, outcomes, length, 0).ok {
      var _ := ReadMeans(stream, outcomes, length, 0);
    }
    if |stream| >= length {
      if n: nat :| n <= |outcomes| && Patient(outcomes[..n], 0) && Room(outcomes[..n]) >= length {
        ReadWhen(stream, outcomes, length, 0, n);
      }
    }
  }

  // ----- reading a frame

  datatype FrameReading = FrameReading(frame: Option<ReceivedFrame>, stream: bytes, outcomes: seq<RecvOutcome>)

  function ReadFrame(expectMetadata: bool, stream: bytes, outcomes: seq<RecvOutcome>, now: nat): FrameReading {
    var h := Read(stream, outcomes, MESSAGE_HEADER_SIZE, 0);
    if !h.ok then FrameReading(None, h.stream, h.outcomes)
    else
      ReadTakes(stream, outcomes, MESSAGE_HEADER_SIZE, 0);
      var header := DecodeMessageHeader(h.data);
      if header.magic != MAGIC || header.payloadLength > MAX_PAYLOAD_LENGTH
         || (expectMetadata && header.payloadLength < METADATA_SIZE) then FrameReading(None, h.stream, h.outcomes)
      else if !expectMetadata then
        ReadPayload(header, NO_METADATA, false, header.payloadLength, h.stream, h.outcomes, now)
      else
        var m := Read(h.stream, h.outcomes, METADATA_SIZE, 0);
        if !m.ok then FrameReading(None, m.stream, m.outcomes)
        else
          ReadTakes(h.stream, h.outcomes, METADATA_SIZE, 0);
          var metadata := DecodeMetadata(m.data);
          ReadPayload(header, metadata, metadata.HasSenderLatency(), header.payloadLength - METADATA_SIZE,
                      m.stream, m.outcomes, now)
  }

  function ReadPayload(header: MessageHeader, metadata: FrameDiagnosticMetadata, available: bool, length: nat,
      stream: bytes, outcomes: seq<RecvOutcome>, now: nat): FrameReading
  {
    var p := Read(stream, outcomes, length, 0);
    FrameReading(if p.ok then Some(ReceivedFrame(header, metadata, available, now, p.data)) else None,
                 p.stream, p.outcomes)
  }

  // ----- what is read of what was sent

  /** A frame and the time it was sent. */
  datatype Sent = Sent(frame: EncodedFrame, timestamp: nat) {
    function Bytes(embedMetadata: bool): bytes {
      FrameBytes(frame, embedMetadata, timestamp)
    }

    predicate Fits() {
      frame.Fits() && timestamp < U64
    }

    /** Within 50 MiB, metadata included. */
    predicate Small(embedMetadata: bool) {
      (if embedMetadata then 40 else 0) + |frame.payload| <= 50 * 1024 * 1024
    }

    /** The frame a client with the same metadata setting is to hand out. */
    function Expected(embedMetadata: bool, now: nat): ReceivedFrame {
      var length := (if embedMetadata then 40 else 0) + |frame.payload|;
      ReceivedFrame(
        MessageHeader([0x43, 0x43, 0x54, 0x43], 1, frame.frameType, length),
        if embedMetadata
        then FrameDiagnosticMetadata(frame.sequence, frame.capture, frame.encodeStart, frame.encodeEnd, timestamp)
        else FrameDiagnosticMetadata(0, 0, 0, 0, 0),
        embedMetadata && frame.capture != 0 && timestamp != 0, now, frame.payload)
    }
  }

  lemma ReadExactly(part: bytes, rest: bytes, outcomes: seq<RecvOutcome>)
    ensures var r := Read(part + rest, outcomes, |part|, 0);
      && (r.ok ==> r.data == part && r.stream == rest)
      && (Delivers(outcomes, part + rest) ==> r.ok && Delivers(r.outcomes, r.stream))
  {
    var r := Read(part + rest, outcomes, |part|, 0);
    ReadTakes(part + rest, outcomes, |part|, 0);
    if r.ok {
      assert r.data == (r.data + r.stream)[..|part|] == part;
      assert r.stream == (r.data + r.stream)[|part|..] == rest;
    }
    if Delivers(outcomes, part + rest) {
      ReadSucceeds(part + rest, outcomes, |part|, 0);
    }
  }

  /** Whatever the chunking, a sent frame is read back as it was, or not at all; and it is read when the connection
      delivers and the frame is within the limit. */
  lemma FrameReadBack(s: Sent, embedMetadata: bool, rest: bytes, outcomes: seq<RecvOutcome>, now: nat)
    requires s.Fits() && s.Small(embedMetadata)
    ensures var r := ReadFrame(embedMetadata, s.Bytes(embedMetadata) + rest, outcomes, now);
      && (r.frame.Some? ==> r.frame.value == s.Expected(embedMetadata, now) && r.stream == rest)
      && (Delivers(outcomes, s.Bytes(embedMetadata) + rest) ==> r.frame.Some? && Delivers(r.outcomes, r.stream))
  {
    hide Read, EncodeMessageHeader, DecodeMessageHeader, EncodeMetadata, DecodeMetadata, Delivers;
    var header := HeaderOf(s.frame, embedMetadata);
    var metadata := MetadataOf(s.frame, s.timestamp);
    var h := EncodeMessageHeader(header);
    var m := if embedMetadata then EncodeMetadata(metadata) else [];
    var body := m + (s.frame.payload + rest);
    assert s.Bytes(embedMetadata) + rest == h + body;
    MessageHeaderRoundTrip(header, []);
    assert h + [] == h;
    ReadExactly(h, body, outcomes);
    var afterHeader := Read(h + body, outcomes, MESSAGE_HEADER_SIZE, 0);
    if embedMetadata {
      MetadataRoundTrip(metadata, []);
      assert m + [] == m;
      ReadExactly(m, s.frame.payload + rest, afterHeader.outcomes);
      ReadExactly(s.frame.payload, rest, Read(body, afterHeader.outcomes, METADATA_SIZE, 0).outcomes);
    } else {
      assert body == s.frame.payload + rest;
      ReadExactly(s.frame.payload, rest, afterHeader.outcomes);
    }
  }

  /** A frame over the limit is never read back. */
  lemma LargeIsNotReadBack(s: Sent, embedMetadata: bool, rest: bytes, outcomes: seq<RecvOutcome>, now: nat)
    requires s.Fits() && !s.Small(embedMetadata)
    ensures var r := ReadFrame(embedMetadata, s.Bytes(embedMetadata) + rest, outcomes, now);
      r.frame != Some(s.Expected(embedMetadata, now))
  {
    hide Read, EncodeMessageHeader, DecodeMessageHeader, EncodeMetadata, DecodeMetadata;
    var header := HeaderOf(s.frame, embedMetadata);
    var h := EncodeMessageHeader(header);
    var body := s.Bytes(embedMetadata)[MESSAGE_HEADER_SIZE..] + rest;
    assert s.Bytes(embedMetadata) + rest == h + body;
    MessageHeaderRoundTrip(header, []);
    assert h + [] == h;
    ReadExactly(h, body, outcomes);
    var r := ReadFrame(embedMetadata, h + body, outcomes, now);
    if r.frame.Some? {
      var afterHeader := Read(h + body, outcomes, MESSAGE_HEADER_SIZE, 0);
      if embedMetadata {
        var m := Read(afterHeader.stream, afterHeader.outcomes, METADATA_SIZE, 0);
        ReadTakes(m.stream, m.outcomes, header.payloadLength - METADATA_SIZE, 0);
      } else {
        ReadTakes(afterHeader.stream, afterHeader.outcomes, header.payloadLength, 0);
      }
      assert |r.frame.value.payload| < |s.frame.payload|;
    }
  }

  /** Nothing on the wire tells a client that does not expect metadata from one that does: the embedded metadata
      is then read as the first forty bytes of the payload. */
  lemma UnexpectedMetadataIsPayload(s: Sent, rest: bytes, outcomes: seq<RecvOutcome>, now: nat)
    requires s.Fits() && s.Small(true)
    ensures var r := ReadFrame(false, s.Bytes(true) + rest, outcomes, now);
      && (Delivers(outcomes, s.Bytes(true) + rest) ==> r.frame.Some?)
      && (r.frame.Some? ==> r.frame.value.payload == EncodeMetadata(MetadataOf(s.frame, s.timestamp)) + s.frame.payload)
  {
    hide ReadFrame, Delivers, EncodeMessageHeader, EncodeMetadata;
    var seen := s.(frame := s.frame.(payload := EncodeMetadata(MetadataOf(s.frame, s.timestamp)) + s.frame.payload));
    assert seen.Bytes(false) == s.Bytes(true);
    FrameReadBack(seen, false, rest, outcomes, now);
  }

  /** Nor does the header tell a client that expects metadata that there is none: the first forty bytes of the payload
      are then read as metadata. A payload shorter than that is refused, and its bytes are left to be taken for the next
      header. */
  lemma MissingMetadataIsPayload(s: Sent, rest: bytes, outcomes: seq<RecvOutcome>, now: nat)
    requires s.Fits() && s.Small(false)
    ensures var r := ReadFrame(true, s.Bytes(false) + rest, outcomes, now);
      if |s.frame.payload| < METADATA_SIZE then
        && r.frame.None?
        && (Delivers(outcomes, s.Bytes(false) + rest) ==> r.stream == s.frame.payload + rest)
      else
        && (Delivers(outcomes, s.Bytes(false) + rest) ==> r.frame.Some?)
        && (r.frame.Some? ==>
              && r.frame.value.metadata == DecodeMetadata(s.frame.payload[..METADATA_SIZE])
              && r.frame.value.payload == s.frame.payload[METADATA_SIZE..] && r.stream == rest)
  {
    hide Read, EncodeMessageHeader, DecodeMessageHeader, DecodeMetadata, Delivers;
    var header, h := HeaderOf(s.frame, false), EncodeMessageHeader(HeaderOf(s.frame, false));
    var body := s.frame.payload + rest;
    assert s.Bytes(false) + rest == h + body;
    MessageHeaderRoundTrip(header, []);
    assert h + [] == h;
    ReadExactly(h, body, outcomes);
    if |s.frame.payload| >= METADATA_SIZE {
      var afterHeader := Read(h + body, outcomes, MESSAGE_HEADER_SIZE, 0);
      var first, others := s.frame.payload[..METADATA_SIZE], s.frame.payload[METADATA_SIZE..];
      assert body == first + (others + rest);
      ReadExactly(first, others + rest, afterHeader.outcomes);
      ReadExactly(others, rest, Read(body, afterHeader.outcomes, METADATA_SIZE, 0).outcomes);
    }
  }

  /** Whatever bytes a connection delivers: a frame is taken exactly when the magic is right, the length at most 50 MiB
      and, with metadata expected, at least 40, and all of it is there. It is read from its offsets, and what follows it
      is left. Of a frame that is refused the header alone is consumed. */
  lemma TakesExactly(expectMetadata: bool, stream: bytes, outcomes: seq<RecvOutcome>, now: nat)
    requires Delivers(outcomes, stream) && |stream| >= 12
    ensures var r := ReadFrame(expectMetadata, stream, outcomes, now);
      var n, start := Field(stream, 8, 4), if expectMetadata then 52 else 12;
      var refused := stream[..4] != [0x43, 0x43, 0x54, 0x43] || n > 50 * 1024 * 1024 || (expectMetadata && n < 40);
      && (r.frame.Some? <==> !refused && |stream| >= 12 + n)
      && (refused ==> r.stream == stream[12..])
      && (r.frame.Some? ==>
            && r.stream == stream[12 + n..] && r.frame.value.payload == stream[start..12 + n]
            && r.frame.value.header == MessageHeader(stream[..4], Field(stream, 4, 2), Field(stream, 6, 2), n)
            && r.frame.value.receiveTimestamp == now
            && TimesRead(r.frame.value, expectMetadata, stream))
  {
    hide Read, Delivers, DecodeMessageHeader, DecodeMetadata, Field;
    var n := Field(stream, 8, 4);
    SplitRead(stream, 12, outcomes);
    HeaderAt(stream);
    var h := Read(stream, outcomes, 12, 0);
    if expectMetadata && n >= 40 {
      SplitRead(h.stream, 40, h.outcomes);
      var m := Read(h.stream, h.outcomes, 40, 0);
      if m.ok {
        SplitRead(m.stream, n - 40, m.outcomes);
        MetadataAt(stream);
      }
    } else {
      SplitRead(h.stream, n, h.outcomes);
    }
  }

  lemma SplitRead(stream: bytes, length: nat, outcomes: seq<RecvOutcome>)
    requires Delivers(outcomes, stream)
    ensures var r := Read(stream, outcomes, length, 0);
      && (r.ok <==> |stream| >= length)
      && (r.ok ==> r.data == stream[..length] && r.stream == stream[length..] && Delivers(r.outcomes, r.stream))
  {
    hide Read, Delivers;
    ReadTakes(stream, outcomes, length, 0);
    if |stream| >= length {
      assert stream[..length] + stream[length..] == stream;
      ReadExactly(stream[..length], stream[length..], outcomes);
    }
  }

  ghost predicate TimesRead(f: ReceivedFrame, expectMetadata: bool, stream: bytes)
    requires |stream| >= 12 && (expectMetadata ==> |stream| >= 52)
  {
    if expectMetadata then
      && f.metadata == FrameDiagnosticMetadata(Field(stream, 12, 8), Field(stream, 20, 8), Field(stream, 28, 8),
                                               Field(stream, 36, 8), Field(stream, 44, 8))
      && (f.senderMetadataAvailable <==> Field(stream, 20, 8) != 0 && Field(stream, 44, 8) != 0)
    else f.metadata == FrameDiagnosticMetadata(0, 0, 0, 0, 0) && !f.senderMetadataAvailable
  }

  lemma HeaderAt(stream: bytes)
    requires |stream| >= 12
    ensures DecodeMessageHeader(stream[..12])
            == MessageHeader(stream[..4], Field(stream, 4, 2), Field(stream, 6, 2), Field(stream, 8, 4))
  {
    hide FromLittleEndian;
    var h := stream[..12];
    assert h[..4] == stream[..4] && h[4..6] == stream[4..6] && h[6..8] == stream[6..8] && h[8..12] == stream[8..12];
  }

  lemma MetadataAt(stream: bytes)
    requires |stream| >= 52
    ensures DecodeMetadata(stream[12..][..40]) == FrameDiagnosticMetadata(
      Field(stream, 12, 8), Field(stream, 20, 8), Field(stream, 28, 8), Field(stream, 36, 8), Field(stream, 44, 8))
  {
    hide FromLittleEndian;
    var m := stream[12..][..40];
    assert m[0..8] == stream[12..20] && m[8..16] == stream[20..28] && m[16..24] == stream[28..36];
    assert m[24..32] == stream[36..44] && m[32..40] == stream[44..52];
  }

  // ----- many frames

  function StreamOf(sents: seq<Sent>, embedMetadata: bool): bytes {
    if sents == [] then [] else sents[0].Bytes(embedMetadata) + StreamOf(sents[1..], embedMetadata)
  }

  /** `count` calls of `ReceiveTcpFrame`, or fewer when one fails. */
  function ReadFrames(expectMetadata: bool, stream: bytes, outcomes: seq<RecvOutcome>, count: nat,
      now: nat -> nat): seq<ReceivedFrame>
    decreases count
  {
    if count == 0 then []
    else
      var r := ReadFrame(expectMetadata, stream, outcomes, now(count));
      if r.frame.None? then [] else [r.frame.value] + ReadFrames(expectMetadata, r.stream, r.outcomes, count - 1, now)
  }

  function AllExpected(sents: seq<Sent>, embedMetadata: bool, now: nat -> nat): seq<ReceivedFrame>
    decreases |sents|
  {
    if sents == [] then []
    else [sents[0].Expected(embedMetadata, now(|sents|))] + AllExpected(sents[1..], embedMetadata, now)
  }

  lemma StreamOfFirst(sents: seq<Sent>, embedMetadata: bool, rest: bytes)
    requires sents != []
    ensures StreamOf(sents, embedMetadata) + rest ==
      sents[0].Bytes(embedMetadata) + (StreamOf(sents[1..], embedMetadata) + rest)
  {
    hide Sent.Bytes;
  }

  /** The first frame is read back, and then the others, or nothing. */
  lemma ReadFramesFirst(sents: seq<Sent>, embedMetadata: bool, stream: bytes, outcomes: seq<RecvOutcome>,
      now: nat -> nat)
    requires sents != []
    ensures var r := ReadFrame(embedMetadata, stream, outcomes, now(|sents|));
      var frames := ReadFrames(embedMetadata, stream, outcomes, |sents|, now);
      var others := ReadFrames(embedMetadata, r.stream, r.outcomes, |sents[1..]|, now);
      var expected := AllExpected(sents[1..], embedMetadata, now);
      && (r.frame.None? ==> frames == [])
      && (r.frame == Some(sents[0].Expected(embedMetadata, now(|sents|))) ==>
            && (others <= expected ==> frames <= AllExpected(sents, embedMetadata, now))
            && (others == expected ==> frames == AllExpected(sents, embedMetadata, now)))
  {
    hide ReadFrame, Sent.Expected;
  }

  /** Any frames within the limit, written one after the other, are read back as they were: whatever the
      connection does, what is read is a beginning of what was sent, and it is all of it when the connection
      delivers. */
  lemma {:induction false} FramesReadBack(sents: seq<Sent>, embedMetadata: bool, rest: bytes,
      outcomes: seq<RecvOutcome>, now: nat -> nat)
    requires forall i :: 0 <= i < |sents| ==> sents[i].Fits() && sents[i].Small(embedMetadata)
    ensures var stream := StreamOf(sents, embedMetadata) + rest;
      var frames := ReadFrames(embedMetadata, stream, outcomes, |sents|, now);
      && frames <= AllExpected(sents, embedMetadata, now)
      && (Delivers(outcomes, stream) ==> frames == AllExpected(sents, embedMetadata, now))
    decreases |sents|
  {
    if sents != [] {
      hide ReadFrame, Delivers, Sent.Bytes, Sent.Expected, Sent.Fits, Sent.Small, StreamOf, ReadFrames, AllExpected;
      var stream := StreamOf(sents, embedMetadata) + rest;
      StreamOfFirst(sents, embedMetadata, rest);
      FrameReadBack(sents[0], embedMetadata, StreamOf(sents[1..], embedMetadata) + rest, outcomes, now(|sents|));
      ReadFramesFirst(sents, embedMetadata, stream, outcomes, now);
      var r := ReadFrame(embedMetadata, stream, outcomes, now(|sents|));
      if r.frame.Some? {
        FramesReadBack(sents[1..], embedMetadata, rest, r.outcomes, now);
      }
    }
  }

  // ----- the client

  class TcpStreamClient {
    const expectMetadata: bool
    /** What the peer has sent and the client has not read, and what the coming calls of `recv` answer. */
    var incoming: bytes
    var outcomes: seq<RecvOutcome>

    constructor (expectMetadata: bool, incoming: bytes, outcomes: seq<RecvOutcome>)
      ensures this.expectMetadata == expectMetadata && this.incoming == incoming && this.outcomes == outcomes
    {
      this.expectMetadata, this.incoming, this.outcomes := expectMetadata, incoming, outcomes;
    }

    method ReceiveAll(length: nat) returns (ok: bool, buffer: bytes)
      modifies this
      ensures Reading(ok, buffer, incoming, outcomes) == Read(old(incoming), old(outcomes), length, 0)
    {
      buffer := [];
      var consecutiveTimeouts := 0;
      while |buffer| < length
        invariant |buffer| <= length
        invariant var r := Read(incoming, outcomes, length - |buffer|, consecutiveTimeouts);
          r.(data := buffer + r.data) == Read(old(incoming), old(outcomes), length, 0)
        decreases |outcomes|
      {
        if |outcomes| == 0 {
          return false, buffer;
        }
        var result := outcomes[0];
        outcomes := outcomes[1..];
        match result
        case Interrupted =>
        case TimedOut =>
          consecutiveTimeouts := consecutiveTimeouts + 1;
          if consecutiveTimeouts >= MAX_CONSECUTIVE_TIMEOUTS {
            return false, buffer;
          }
        case Failed =>
          return false, buffer;
        case Chunk(count) =>
          var n := Min(count, Min(length - |buffer|, |incoming|));
          if n == 0 {
            return false, buffer;
          }
          ghost var r := Read(incoming[n..], outcomes, length - |buffer| - n, 0);
          assert buffer + (incoming[..n] + r.data) == (buffer + incoming[..n]) + r.data;
          buffer := buffer + incoming[..n];
          incoming := incoming[n..];
          consecutiveTimeouts := 0;
      }
      ok := true;
    }

    method ReceiveTcpFrame(now: nat) returns (frame: Option<ReceivedFrame>)
      modifies this
      ensures FrameReading(frame, incoming, outcomes) == ReadFrame(expectMetadata, old(incoming), old(outcomes), now)
    {
      hide Read, DecodeMessageHeader, DecodeMetadata;
      ReadTakes(incoming, outcomes, MESSAGE_HEADER_SIZE, 0);
      var ok, headerBytes := ReceiveAll(MESSAGE_HEADER_SIZE);
      if !ok {
        return None;
      }
      var header := DecodeMessageHeader(headerBytes);
      if header.magic != MAGIC {
        return None;
      }
      var payloadLength := header.payloadLength;
      if payloadLength > MAX_PAYLOAD_LENGTH {
        return None;
      }
      var available, metadata := false, NO_METADATA;
      if expectMetadata {
        if payloadLength < METADATA_SIZE {
          return None;
        }
        ReadTakes(incoming, outcomes, METADATA_SIZE, 0);
        var metadataBytes;
        ok, metadataBytes := ReceiveAll(METADATA_SIZE);
        if !ok {
          return None;
        }
        metadata := DecodeMetadata(metadataBytes);
        payloadLength := payloadLength - METADATA_SIZE;
        available := metadata.HasSenderLatency();
      }
      var payload := [];
      if payloadLength > 0 {
        ok, payload := ReceiveAll(payloadLength);
        if !ok {
          return None;
        }
      } else {
        NothingToRead(incoming, outcomes);
      }
      frame := Some(ReceivedFrame(header, metadata, available, now, payload));
    }
  }

  lemma NothingToRead(stream: bytes, outcomes: seq<RecvOutcome>)
    ensures Read(stream, outcomes, 0, 0) == Reading(true, [], stream, outcomes)
  {
  }
}
