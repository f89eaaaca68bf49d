/** Frames on the wire as RTP packets, and what the client makes of them: in order, and under an adversary
    that drops, repeats and reorders packets. */
module RtpDelivery {
  import opened Bytes
  import opened Protocol
  import opened Frames
  import opened AnnexB
  import opened RtpProtocol
  import opened RtpPacketizer
  import opened RtpReceiver

  /** A frame as the packetizer sent it; `capture` is in the latency extension, when that is enabled. */
  datatype RtpSent = RtpSent(
    payloadType: nat, ssrc: nat, timestamp: nat, capture: Option<nat>, nals: seq<bytes>, max: nat, first: nat)
  {
    ghost predicate Valid() {
      && payloadType < 128 && ssrc < U32 && timestamp < U32 && (capture.Some? ==> capture.value < U64)
      && max > 2 && first < U16 && nals != [] && forall nal :: nal in nals ==> nal != []
    }

    function OnStream(): Stream {
      Stream(payloadType, ssrc, timestamp,
             if capture.None? then None
             else Some(BuildRtpLatencyHeaderExtension(RtpLatencyExtension(capture.value, 0))))
    }

    function Sent(): seq<bytes>
      requires max > 2
    {
      Payloads(nals, max)
    }

    function Fields(k: nat): RtpHeaderFields
      requires max > 2
    {
      OnStream().Fields(k + 1 == |Sent()|, first + k)
    }

    function Packet(k: nat): bytes
      requires max > 2 && k < |Sent()|
    {
      OnStream().Packets(Sent(), true, first)[k]
    }

    /** Packet `k` as it leaves the socket, stamped with its send time. */
    ghost function Datagram(k: nat, stamp: nat): bytes
      requires max > 2 && k < |Sent()|
    {
      Stamped(Packet(k), stamp)
    }

    function Timestamps(stamp: nat): Option<RtpLatencyExtension> {
      if capture.Some? then Some(RtpLatencyExtension(capture.value, stamp)) else None
    }
  }

  /** The packets `Packetize` makes of a frame. */
  function SentBy(p: RtpPacketizer, frame: EncodedFrame, first: nat): RtpSent {
    RtpSent(p.payloadType, p.ssrc, BuildTimestamp(frame, p.clockRate),
            if p.enableLatencyExtension then Some(frame.capture) else None,
            Nalus(frame.payload), p.maxPayloadSize, first)
  }

  lemma PacketizedIsSent(p: RtpPacketizer, frame: EncodedFrame, first: nat)
    ensures SentBy(p, frame, first).OnStream() == p.StreamOf(frame)
    ensures
      (&& p.payloadType < 128 && p.ssrc < U32 && p.maxPayloadSize > 2 && first < U16
       && frame.Fits() && Nalus(frame.payload) != []) ==>
      SentBy(p, frame, first).Valid()
  {
    hide Nalus;
    NalusWellFormed(frame.payload);
  }

  // ----- reading a packet

  lemma PacketRead(s: RtpSent, k: nat)
    requires s.Valid() && k < |s.Sent()|
    ensures var p := ParseRtpHeader(s.Packet(k));
      && p.Some? && p.value.fields == s.Fields(k) && s.Packet(k)[p.value.headerSize..] == s.Sent()[k]
      && ParseRtpLatencyExtension(p.value.extension) == s.Timestamps(0)
  {
    hide HeaderBytes, ParseRtpHeader, Payloads, BuildRtpLatencyHeaderExtension, ParseRtpLatencyExtension;
    var extension, f, payload := s.OnStream().extension, s.Fields(k), s.Sent()[k];
    assert s.Packet(k) == HeaderBytes(f, extension) + payload;
    LatencyExtensionRead(extension, s.capture);
    HeaderRoundTrip(f, extension, payload);
    assert (HeaderBytes(f, extension) + payload)[|HeaderBytes(f, extension)|..] == payload;
  }

  lemma LatencyExtensionRead(extension: Option<RtpHeaderExtension>, capture: Option<nat>)
    requires capture.Some? ==> capture.value < U64
    requires extension ==
      if capture.None? then None else Some(BuildRtpLatencyHeaderExtension(RtpLatencyExtension(capture.value, 0)))
    ensures ExtensionFits(extension)
    ensures ParseRtpLatencyExtension(Seen(extension))
            == if capture.Some? then Some(RtpLatencyExtension(capture.value, 0)) else None
  {
    if capture.Some? {
      LatencyRoundTrip(RtpLatencyExtension(capture.value, 0));
    }
  }

  /** The receiver reads from a stamped packet the header, payload and timestamps it was sent with. */
  lemma DatagramRead(s: RtpSent, k: nat, stamp: nat)
    requires s.Valid() && k < |s.Sent()| && stamp < U64
    ensures var d := s.Datagram(k, stamp); var p := ParseRtpHeader(d);
      && p.Some? && p.value.fields == s.Fields(k)
      && d[p.value.headerSize..] == s.Sent()[k] != [] && |d| > p.value.headerSize
      && ParseRtpLatencyExtension(p.value.extension) == s.Timestamps(stamp)
  {
    hide ParseRtpHeader, ParseRtpLatencyExtension, Payloads, RtpSent.Packet, Spliced;
    PacketRead(s, k);
    PayloadsFit(s.nals, s.max);
    assert s.Sent()[k] in s.Sent();
    if s.capture.Some? {
      StampKeepsTheRest(s.Packet(k), stamp);
    }
  }

  /** What receiving packet `k` comes to. */
  function Taken(config: RtpConfig, a: RtpAssembly, s: RtpSent, k: nat, stamp: nat, now: nat): Step
    requires s.max > 2 && k < |s.Sent()|
  {
    if config.Accepts(s.Fields(k)) then Accept(config, a, s.Fields(k), s.Timestamps(stamp), s.Sent()[k], now)
    else Step(a, None)
  }

  lemma ReceivedIsTaken(config: RtpConfig, a: RtpAssembly, s: RtpSent, k: nat, stamp: nat, now: nat)
    requires s.Valid() && k < |s.Sent()| && stamp < U64
    ensures Receive(config, a, s.Datagram(k, stamp), now) == Taken(config, a, s, k, stamp, now)
  {
    hide ParseRtpHeader, ParseRtpLatencyExtension, Payloads, RtpSent.Datagram, Accept, RtpSent.Fields,
        RtpConfig.Accepts, RtpSent.Timestamps;
    DatagramRead(s, k, stamp);
  }
}
