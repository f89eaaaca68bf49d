/** The client's depacketizer: one RTP datagram at a time, NAL units joined into an Annex B frame. */
module RtpReceiver {
  import opened Bytes
  import opened Protocol
  import opened RtpProtocol
  import opened AnnexB
  import opened RtpPacketizer
  import opened UdpClientState

  // ----- what a payload does to the frame being assembled

  datatype Body = Body(payload: bytes, damaged: bool, fuInProgress: bool) {
    function Damage(): Body {
      Body(payload, true, false)
    }
  }

  const EMPTY_BODY := Body([], false, false)

  function NalHeaderOf(payload: bytes): byte
    requires |payload| > 1
  {
    LowByte(payload[0] as nat / 32 * 32 + payload[1] as nat % 32)
  }

  function Depacketize(b: Body, payload: bytes): Body {
    var nalType := NalType(payload);
    if payload == [] then b
    else if 0 < nalType < 24 then Body(b.payload + START_CODE + payload, b.damaged, false)
    else if nalType == FU_A && |payload| >= 2 then
      if StartBit(payload) then
        if |payload| <= 2 then b.Damage()
        else Body(b.payload + START_CODE + [NalHeaderOf(payload)] + payload[2..], b.damaged, !EndBit(payload))
      else if !b.fuInProgress || |payload| <= 2 then b.Damage()
      else Body(b.payload + payload[2..], b.damaged, !EndBit(payload))
    else b.Damage()
  }

  // ----- sender timestamps

  datatype SenderLatency = SenderLatency(capture: nat, transportSend: nat, available: bool, invalid: bool) {
    function Reject(): SenderLatency {
      SenderLatency(capture, transportSend, false, true)
    }
  }

  const NO_LATENCY := SenderLatency(0, 0, false, false)

  /** One packet without valid timestamps, or with another capture time, spoils the whole frame's. */
  function Note(l: SenderLatency, extension: Option<RtpLatencyExtension>): SenderLatency {
    if l.invalid then l
    else if extension.None? || extension.value.capture == 0 || extension.value.transportSend == 0 then l.Reject()
    else if !l.available then SenderLatency(extension.value.capture, extension.value.transportSend, true, false)
    else if l.capture != extension.value.capture then l.Reject()
    else l.(transportSend := extension.value.transportSend)
  }

  // ----- one datagram

  /** `payloadType` below zero accepts every payload type. */
  datatype RtpConfig = RtpConfig(payloadType: int, expectMetadata: bool) {
    predicate Accepts(f: RtpHeaderFields) {
      payloadType < 0 || f.payloadType == payloadType % 256
    }
  }

  datatype RtpAssembly = RtpAssembly(active: bool, timestamp: nat, ssrc: nat, nextSequence: nat, body: Body,
      latency: SenderLatency) {
    predicate Follows(f: RtpHeaderFields) {
      active && timestamp == f.timestamp && ssrc == f.ssrc
    }

    /** The assembly as the packet's header leaves it: begun anew, gone on with, or damaged by a gap. */
    function Seen(f: RtpHeaderFields): RtpAssembly {
      var next := (f.sequenceNumber + 1) % U16;
      if !Follows(f) then RtpAssembly(true, f.timestamp, f.ssrc, next, EMPTY_BODY, NO_LATENCY)
      else if f.sequenceNumber != nextSequence then this.(nextSequence := next, body := body.Damage())
      else this.(nextSequence := next)
    }

    predicate Ready() {
      active && body.payload != [] && !body.damaged && !body.fuInProgress
    }
  }

  const INACTIVE := RtpAssembly(false, 0, 0, 0, EMPTY_BODY, NO_LATENCY)

  function Completed(config: RtpConfig, a: RtpAssembly, now: nat): ReceivedFrame {
    var available := config.expectMetadata && a.latency.available && !a.latency.invalid;
    ReceivedFrame(
      MessageHeader(MAGIC, AV_STREAM, 0, |a.body.payload| % U32),
      FrameDiagnosticMetadata(a.timestamp, if available then a.latency.capture else 0, 0, 0,
                              if available then a.latency.transportSend else 0),
      available, now, a.body.payload)
  }

  datatype Step = Step(assembly: RtpAssembly, frame: Option<ReceivedFrame>)

  function Accept(config: RtpConfig, a: RtpAssembly, f: RtpHeaderFields, extension: Option<RtpLatencyExtension>,
      payload: bytes, now: nat): Step
  {
    var begun := a.Seen(f);
    var latency := if config.expectMetadata then Note(begun.latency, extension) else begun.latency;
    var after := begun.(latency := latency, body := Depacketize(begun.body, payload));
    if !f.marker then Step(after, None)
    else Step(INACTIVE, if after.Ready() then Some(Completed(config, after, now)) else None)
  }

  function Receive(config: RtpConfig, a: RtpAssembly, data: bytes, now: nat): Step {
    var p := ParseRtpHeader(data);
    if p.None? || |data| <= p.value.headerSize || !config.Accepts(p.value.fields) then Step(a, None)
    else Accept(config, a, p.value.fields, ParseRtpLatencyExtension(p.value.extension), data[p.value.headerSize..], now)
  }

  // ----- what one packet does

  /** A payload by its first bytes: a single NAL unit, of type 1 to 23, follows a start code; a fragment, of type 28 and
      with at least one byte of the NAL unit, begins or continues one; anything else but nothing damages the frame. */
  lemma PayloadExactly(b: Body, payload: bytes)
    requires payload != []
    ensures var r, nalType := Depacketize(b, payload), payload[0] as nat % 32;
      if 1 <= nalType <= 23 then r == Body(b.payload + [0, 0, 0, 1] + payload, b.damaged, false)
      else if nalType == 28 && |payload| > 2 && (payload[1] as nat >= 0x80 || b.fuInProgress) then
        && r.damaged == b.damaged && (r.fuInProgress <==> payload[1] as nat % 0x80 < 0x40)
        && if payload[1] as nat < 0x80 then r.payload == b.payload + payload[2..]
           else
             && |r.payload| == |b.payload| + 5 + |payload[2..]|
             && r.payload[..|b.payload| + 4] == b.payload + [0, 0, 0, 1]
             && r.payload[|b.payload| + 4] as nat == payload[0] as nat - 28 + payload[1] as nat % 32
             && r.payload[|b.payload| + 5..] == payload[2..]
      else r == Body(b.payload, true, false)
  {
    var header := payload[0] as nat / 32 * 32 + (if |payload| > 1 then payload[1] as nat % 32 else 0);
    assert header < 256 && LowByte(header) as nat == header;
  }

  /** The sender's timestamps of a frame are lost for good with the first packet that lacks one of them, or has another
      capture time than the packets before it; otherwise they are those of the newest packet. */
  lemma TimestampsExactly(l: SenderLatency, extension: Option<RtpLatencyExtension>)
    ensures var r := Note(l, extension); var e := extension;
      if || l.invalid || e.None? || e.value.capture == 0 || e.value.transportSend == 0
         || (l.available && l.capture != e.value.capture)
      then r.invalid && (!l.invalid ==> !r.available)
      else r == SenderLatency(e.value.capture, e.value.transportSend, true, false)
  {
  }

  /** A packet is taken when it parses, holds a payload and has the payload type. With another timestamp or source than
      the frame being assembled it begins a frame; out of turn it damages the frame; and the marker ends it, with a
      frame handed out exactly when that is neither empty, damaged nor cut short. */
  lemma ReceivesExactly(config: RtpConfig, a: RtpAssembly, data: bytes, now: nat)
    ensures var (p, r) := (ParseRtpHeader(data), Receive(config, a, data, now));
      if || p.None? || |data| == p.value.headerSize
         || (config.payloadType >= 0 && p.value.fields.payloadType != config.payloadType % 256)
      then r == Step(a, None)
      else
        var f, payload := p.value.fields, data[p.value.headerSize..];
        var begins := !(a.active && a.timestamp == f.timestamp && a.ssrc == f.ssrc);
        var before :=
          if begins then Body([], false, false)
          else if f.sequenceNumber != a.nextSequence then Body(a.body.payload, true, false)
          else a.body;
        var latency := if begins then SenderLatency(0, 0, false, false) else a.latency;
        var extension := ParseRtpLatencyExtension(p.value.extension);
        var noted := if config.expectMetadata then Note(latency, extension) else latency;
        var body := Depacketize(before, payload);
        var after := RtpAssembly(true, f.timestamp, f.ssrc, (f.sequenceNumber + 1) % 0x1_0000, body, noted);
        if !f.marker then r == Step(after, None)
        else
          && !r.assembly.active
          && (r.frame.Some? <==> body.payload != [] && !body.damaged && !body.fuInProgress)
          && (r.frame.Some? ==> HandsOut(r.frame.value, after, config.expectMetadata, now))
  {
    hide Depacketize, Note;
  }

  /** The frame handed out for a complete assembly: its timestamp stands for the sequence. */
  ghost predicate HandsOut(f: ReceivedFrame, a: RtpAssembly, expectMetadata: bool, now: nat) {
    var known := expectMetadata && a.latency.available && !a.latency.invalid;
    && f.payload == a.body.payload && f.receiveTimestamp == now && (f.senderMetadataAvailable <==> known)
    && f.header == MessageHeader([0x43, 0x43, 0x54, 0x43], 1, 0, |f.payload| % 0x1_0000_0000)
    && f.metadata.sequence == a.timestamp && f.metadata.encodeStart == 0 && f.metadata.encodeEnd == 0
    && f.metadata.capture == (if known then a.latency.capture else 0)
    && f.metadata.transportSend == (if known then a.latency.transportSend else 0)
  }

  // ----- the client

  class RtpReceiver {
    const config: RtpConfig
    var payload: bytes
    var timestamp: nat
    var ssrc: nat
    var nextSequenceNumber: nat
    var captureTimestamp: nat
    var transportSendTimestamp: nat
    var active: bool
    var hasSequenceNumber: bool
    var senderMetadataAvailable: bool
    var senderMetadataInvalid: bool
    var frameDamaged: bool
    var fuInProgress: bool

    constructor (config: RtpConfig)
      ensures this.config == config && Valid() && State() == INACTIVE
    {
      this.config := config;
      new;
      ResetRtpState();
    }

    ghost predicate Valid()
      reads this
    {
      hasSequenceNumber == active
    }

    ghost function State(): RtpAssembly
      reads this
    {
      RtpAssembly(active, timestamp, ssrc, nextSequenceNumber, Body(payload, frameDamaged, fuInProgress),
               SenderLatency(captureTimestamp, transportSendTimestamp, senderMetadataAvailable, senderMetadataInvalid))
    }

    method ResetRtpState()
      modifies this
      ensures Valid() && State() == INACTIVE
    {
      payload, timestamp, ssrc, nextSequenceNumber := [], 0, 0, 0;
      captureTimestamp, transportSendTimestamp := 0, 0;
      active, hasSequenceNumber := false, false;
      senderMetadataAvailable, senderMetadataInvalid := false, false;
      frameDamaged, fuInProgress := false, false;
    }

    /** One turn of the receive loop, with the datagram and the clock as inputs. */
    method ProcessRtpDatagram(data: bytes, now: nat) returns (frame: Option<ReceivedFrame>)
      requires Valid()
      modifies this
      ensures Valid() && Step(State(), frame) == Receive(config, old(State()), data, now)
    {
      frame := None;
      var parsed := ParseRtpHeader(data);
      if parsed.None? || |data| <= parsed.value.headerSize {
        return;
      }
      var fields := parsed.value.fields;
      if config.payloadType >= 0 && fields.payloadType != config.payloadType % 256 {
        return;
      }
      NoteHeader(fields);
      if config.expectMetadata && !senderMetadataInvalid {
        NoteSenderTimestamps(ParseRtpLatencyExtension(parsed.value.extension));
      }
      AppendPayload(data[parsed.value.headerSize..]);
      if !fields.marker {
        return;
      }
      var frameReady := active && payload != [] && !frameDamaged && !fuInProgress;
      if frameReady {
        var available := config.expectMetadata && senderMetadataAvailable && !senderMetadataInvalid;
        var metadata := FrameDiagnosticMetadata(timestamp, 0, 0, 0, 0);
        if available {
          metadata := metadata.(capture := captureTimestamp, transportSend := transportSendTimestamp);
        }
        var header := MessageHeader(MAGIC, AV_STREAM, 0, |payload| % U32);
        frame := Some(ReceivedFrame(header, metadata, available, now, payload));
      }
      ResetRtpState();
    }

    method NoteHeader(fields: RtpHeaderFields)
      requires Valid()
      modifies this
      ensures Valid() && State() == old(State()).Seen(fields)
    {
      if !active || timestamp != fields.timestamp || ssrc != fields.ssrc {
        payload, timestamp, ssrc := [], fields.timestamp, fields.ssrc;
        nextSequenceNumber := (fields.sequenceNumber + 1) % U16;
        active, hasSequenceNumber := true, true;
        captureTimestamp, transportSendTimestamp := 0, 0;
        senderMetadataAvailable, senderMetadataInvalid := false, false;
        frameDamaged, fuInProgress := false, false;
      } else if hasSequenceNumber && fields.sequenceNumber != nextSequenceNumber {
        frameDamaged, fuInProgress := true, false;
        nextSequenceNumber := (fields.sequenceNumber + 1) % U16;
      } else {
        nextSequenceNumber := (fields.sequenceNumber + 1) % U16;
        hasSequenceNumber := true;
      }
    }

    method NoteSenderTimestamps(extension: Option<RtpLatencyExtension>)
      requires Valid() && !senderMetadataInvalid
      modifies this
      ensures Valid() && State() == old(State()).(latency := Note(old(State()).latency, extension))
    {
      if extension.None? || extension.value.capture == 0 || extension.value.transportSend == 0 {
        senderMetadataAvailable, senderMetadataInvalid := false, true;
      } else if !senderMetadataAvailable {
        captureTimestamp, transportSendTimestamp := extension.value.capture, extension.value.transportSend;
        senderMetadataAvailable := true;
      } else if captureTimestamp != extension.value.capture {
        senderMetadataAvailable, senderMetadataInvalid := false, true;
      } else {
        transportSendTimestamp := extension.value.transportSend;
      }
    }

    method AppendPayload(data: bytes)
      requires Valid()
      modifies this
      ensures Valid() && State() == old(State()).(body := Depacketize(old(State()).body, data))
    {
      if |data| == 0 {
        return;
      }
      var nalType := data[0] as nat % 32;
      if nalType > 0 && nalType < 24 {
        payload := AppendAnnexBNalu(data, payload);
        assert Join([data]) == START_CODE + data;
        assert payload == old(payload) + START_CODE + data;
        fuInProgress := false;
      } else if nalType == FU_A && |data| >= 2 {
        var start, end := StartBit(data), EndBit(data);
        if start {
          if |data| <= 2 {
            frameDamaged, fuInProgress := true, false;
          } else {
            payload := AppendAnnexBStartCode(payload);
            payload := payload + [NalHeaderOf(data)];
            payload := payload + data[2..];
            fuInProgress := !end;
          }
        } else if !fuInProgress || |data| <= 2 {
          frameDamaged, fuInProgress := true, false;
        } else {
          payload := payload + data[2..];
          if end {
            fuInProgress := false;
          }
        }
      } else {
        frameDamaged, fuInProgress := true, false;
      }
    }
  }
}
