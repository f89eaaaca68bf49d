/** The server's H.264 packetizer: single NAL units and FU-A (sections 5.6 and 5.8 of RFC 6184). */
module RtpPacketizer {
  import opened Bytes
  import opened Protocol
  import opened Frames
  import opened RtpProtocol
  import opened AnnexB

  const FU_A: nat := 28
  const NS_PER_S: nat := 1_000_000_000

  // ----- payloads

  /** FU indicator, FU header with the S and E bits, and `size` bytes of the NAL unit. */
  function FuPayload(nal: bytes, offset: nat, size: nat): bytes
    requires 1 <= offset && offset + size <= |nal|
  {
    [LowByte(nal[0] as nat / 32 * 32 + FU_A),
     LowByte((if offset == 1 then 128 else 0) + (if offset + size == |nal| then 64 else 0) + nal[0] as nat % 32)]
    + nal[offset..offset + size]
  }

  function FuPayloads(nal: bytes, capacity: nat, offset: nat): seq<bytes>
    requires capacity > 0 && 1 <= offset <= |nal|
    decreases |nal| - offset
  {
    if offset == |nal| then []
    else
      var size := Min(capacity, |nal| - offset);
      [FuPayload(nal, offset, size)] + FuPayloads(nal, capacity, offset + size)
  }

  /** What is sent for one NAL unit. */
  function NalPayloads(nal: bytes, max: nat): seq<bytes>
    requires max > 2
  {
    if |nal| <= max then [nal] else FuPayloads(nal, max - 2, 1)
  }

  function Payloads(nals: seq<bytes>, max: nat): seq<bytes>
    requires max > 2
  {
    if nals == [] then [] else NalPayloads(nals[0], max) + Payloads(nals[1..], max)
  }

  lemma {:induction false} PayloadsConcat(a: seq<bytes>, b: seq<bytes>, max: nat)
    requires max > 2
    ensures Payloads(a + b, max) == Payloads(a, max) + Payloads(b, max)
  {
    hide NalPayloads;
    if a == [] {
      assert a + b == b;
    } else {
      PayloadsConcat(a[1..], b, max);
      assert (a + b)[1..] == a[1..] + b;
      ConcatAssociates(NalPayloads(a[0], max), Payloads(a[1..], max), Payloads(b, max));
    }
  }

  predicate StartBit(payload: bytes)
    requires |payload| > 1
  {
    payload[1] as nat / 128 == 1
  }

  predicate EndBit(payload: bytes)
    requires |payload| > 1
  {
    payload[1] as nat / 64 % 2 == 1
  }

  lemma FuIndicatorFields(n: nat)
    requires n < 256
    ensures var b := n / 32 * 32 + FU_A;
      b < 256 && b % 32 == FU_A && b / 32 == n / 32 && b == n - n % 32 + 28 && LowByte(b) as nat == b
  {
  }

  lemma FuHeaderFields(start: bool, end: bool, nalType: nat)
    requires nalType < 32
    ensures var b := (if start then 128 else 0) + (if end then 64 else 0) + nalType;
      && b < 256 && (b / 128 == 1 <==> start) && (b / 64 % 2 == 1 <==> end) && b % 32 == nalType
      && LowByte(b) as nat == b
  {
  }

  lemma FuPayloadBytes(nal: bytes, offset: nat, size: nat)
    requires 1 <= offset && offset + size <= |nal|
    ensures var p := FuPayload(nal, offset, size);
      && |p| == size + 2 && p[2..] == nal[offset..offset + size]
      && p[0] == LowByte(nal[0] as nat / 32 * 32 + FU_A)
      && p[1] == LowByte((if offset == 1 then 128 else 0) + (if offset + size == |nal| then 64 else 0)
                         + nal[0] as nat % 32)
  {
    hide LowByte;
  }

  lemma FuPayloadFields(nal: bytes, offset: nat, size: nat)
    requires 1 <= offset && offset + size <= |nal|
    ensures var p := FuPayload(nal, offset, size);
      && |p| == size + 2 && p[2..] == nal[offset..offset + size]
      && (StartBit(p) <==> offset == 1) && (EndBit(p) <==> offset + size == |nal|)
      && p[0] as nat % 32 == FU_A && p[0] as nat / 32 == nal[0] as nat / 32 && p[1] as nat % 32 == nal[0] as nat % 32
  {
    hide FuPayload, LowByte;
    FuPayloadBytes(nal, offset, size);
    FuIndicatorFields(nal[0] as nat);
    FuHeaderFields(offset == 1, offset + size == |nal|, nal[0] as nat % 32);
  }

  lemma {:induction false} FuPayloadsShape(nal: bytes, capacity: nat, offset: nat)
    requires capacity > 0 && 1 <= offset <= |nal|
    ensures var ps := FuPayloads(nal, capacity, offset);
      && (offset < |nal| ==> ps != [])
      && (|nal| - offset > capacity ==> |ps| >= 2)
      && forall k :: 0 <= k < |ps| ==>
           && 2 < |ps[k]| <= capacity + 2 && ps[k][0] as nat % 32 == FU_A
           && (StartBit(ps[k]) <==> offset == 1 && k == 0) && (EndBit(ps[k]) <==> k == |ps| - 1)
    decreases |nal| - offset
  {
    hide FuPayload, StartBit, EndBit;
    if offset < |nal| {
      var size := Min(capacity, |nal| - offset);
      FuPayloadFields(nal, offset, size);
      FuPayloadsShape(nal, capacity, offset + size);
    }
  }

  /** A fragmented NAL unit becomes at least two fragments: the first alone carries S, the last alone E, so
      no fragment carries both, and each holds NAL bytes and fits the payload size. */
  lemma FragmentsShape(nal: bytes, max: nat)
    requires 2 < max < |nal|
    ensures var ps := NalPayloads(nal, max);
      && |ps| >= 2
      && forall k :: 0 <= k < |ps| ==>
           && 2 < |ps[k]| <= max && ps[k][0] as nat % 32 == 28
           && (ps[k][1] as nat >= 0x80 <==> k == 0) && (ps[k][1] as nat % 0x80 >= 0x40 <==> k == |ps| - 1)
           && !(ps[k][1] as nat >= 0x80 && ps[k][1] as nat % 0x80 >= 0x40)
  {
    hide FuPayloads;
    FuPayloadsShape(nal, max - 2, 1);
  }

  lemma {:induction false} PayloadsFit(nals: seq<bytes>, max: nat)
    requires max > 2 && forall nal :: nal in nals ==> nal != []
    ensures forall p :: p in Payloads(nals, max) ==> 0 < |p| <= max
    ensures nals != [] ==> Payloads(nals, max) != []
  {
    hide FuPayloads, StartBit, EndBit;
    if nals != [] {
      assert forall nal :: nal in nals[1..] ==> nal in nals;
      PayloadsFit(nals[1..], max);
      if |nals[0]| > max {
        FragmentsShape(nals[0], max);
      }
      forall p | p in Payloads(nals, max)
        ensures 0 < |p| <= max
      {
        assert p in NalPayloads(nals[0], max) || p in Payloads(nals[1..], max);
        assert nals[0] in nals;
      }
    }
  }

  // ----- packets

  /** What the packets of one frame share. */
  datatype Stream = Stream(payloadType: nat, ssrc: nat, timestamp: nat, extension: Option<RtpHeaderExtension>) {
    function Fields(marker: bool, sequenceNumber: nat): RtpHeaderFields {
      RtpHeaderFields(marker, payloadType, sequenceNumber % U16, timestamp, ssrc)
    }

    function Packet(marker: bool, sequenceNumber: nat, payload: bytes): bytes {
      HeaderBytes(Fields(marker, sequenceNumber), extension) + payload
    }

    /** Consecutive sequence numbers, and the marker, if any, on the last one. */
    function Packets(payloads: seq<bytes>, marker: bool, first: nat): (r: seq<bytes>)
      ensures |r| == |payloads|
    {
      seq(|payloads|, k requires 0 <= k < |payloads| => Packet(marker && k == |payloads| - 1, first + k, payloads[k]))
    }
  }

  lemma PacketsConcat(s: Stream, a: seq<bytes>, b: seq<bytes>, marker: bool, first: nat)
    ensures s.Packets(a + b, marker, first) ==
      s.Packets(a, marker && b == [], first) + s.Packets(b, marker, first + |a|)
  {
    hide Stream.Packet;
    if b == [] {
      assert a + b == a;
    }
  }

  lemma SequenceWraps(a: nat, b: nat)
    ensures (a % U16 + b) % U16 == (a + b) % U16
  {
  }

  /** With the latency extension or without any, no packet is longer than the header overhead and the
      configured payload size: within the datagram size the configuration was validated against. */
  lemma PacketsFit(s: Stream, nals: seq<bytes>, max: nat, first: nat, maxDatagramSize: nat)
    requires 64 <= max <= maxDatagramSize - 32 && forall nal :: nal in nals ==> nal != []
    requires s.extension.Some? ==> |s.extension.value.payload| == LATENCY_PAYLOAD_SIZE
    ensures forall p :: p in s.Packets(Payloads(nals, max), true, first) ==> |p| <= maxDatagramSize
  {
    hide Payloads, FixedHeader, BigEndian;
    PayloadsFit(nals, max);
    var ps := Payloads(nals, max);
    var packets := s.Packets(ps, true, first);
    forall k | 0 <= k < |packets|
      ensures |packets[k]| <= maxDatagramSize
    {
      assert ps[k] in ps;
    }
  }

  // ----- the packetizer

  /** The RTP timestamp: capture time in clock units, or the frame's sequence without one. The product wraps at 64
      bits. */
  function BuildTimestamp(frame: EncodedFrame, clockRate: nat): (t: nat)
    ensures t < U32
  {
    if frame.capture == 0 then frame.sequence % U32 else frame.capture * clockRate % U64 / NS_PER_S % U32
  }

  /** Two captures at least one clock tick and less than 2^32 ticks apart get different timestamps,
      as long as the product of capture time and clock rate stays within 64 bits. */
  lemma TimestampsDiffer(a: EncodedFrame, b: EncodedFrame, clockRate: nat)
    requires 0 < a.capture && a.capture * clockRate + NS_PER_S <= b.capture * clockRate < U64
    requires b.capture * clockRate < a.capture * clockRate + (U32 - 1) * NS_PER_S
    ensures BuildTimestamp(a, clockRate) != BuildTimestamp(b, clockRate)
  {
    assert b.capture != 0;
    TicksDiffer(a.capture * clockRate, b.capture * clockRate);
  }

  lemma TicksDiffer(x: nat, y: nat)
    requires x + NS_PER_S <= y < U64 && y < x + (U32 - 1) * NS_PER_S
    ensures x % U64 / NS_PER_S % U32 != y % U64 / NS_PER_S % U32
  {
    var p, q := x / NS_PER_S, y / NS_PER_S;
    assert p < q < p + U32;
    ResiduesDiffer(p, q);
  }

  lemma ResiduesDiffer(p: nat, q: nat)
    requires p < q < p + U32
    ensures p % U32 != q % U32
  {
  }

  /** With a capture time the timestamp counts its clock ticks, modulo 2^32, in what 64 bits leave of the product with
      the clock rate; without one it is the frame's number. */
  lemma TimestampExactly(frame: EncodedFrame, clockRate: nat, lost: nat, ticks: nat, beyond: nat)
    requires frame.capture * clockRate == lost * 0x1_0000_0000_0000_0000 + (ticks * 1_000_000_000 + beyond)
    requires beyond < 1_000_000_000 && ticks * 1_000_000_000 + beyond < 0x1_0000_0000_0000_0000
    ensures BuildTimestamp(frame, clockRate) ==
      if frame.capture == 0 then frame.sequence % 0x1_0000_0000 else ticks % 0x1_0000_0000
  {
    ModExact(0x1_0000_0000_0000_0000, lost, ticks * 1_000_000_000 + beyond);
    DivExact(1_000_000_000, ticks, beyond);
  }

  class RtpPacketizer {
    const payloadType: nat
    const clockRate: nat
    const maxPayloadSize: nat
    const ssrc: nat
    const enableLatencyExtension: bool
    var sequenceNumber: u16

    /** `initial` stands for the random first sequence number. */
    constructor (payloadType: nat, clockRate: nat, maxPayloadSize: nat, ssrc: nat, enableLatencyExtension: bool,
        initial: u16)
      ensures this.payloadType == payloadType && this.clockRate == clockRate && this.maxPayloadSize == maxPayloadSize
      ensures this.ssrc == ssrc && this.enableLatencyExtension == enableLatencyExtension && sequenceNumber == initial
    {
      this.payloadType, this.clockRate, this.maxPayloadSize := payloadType, clockRate, maxPayloadSize;
      this.ssrc, this.enableLatencyExtension, sequenceNumber := ssrc, enableLatencyExtension, initial;
    }

    function StreamAt(timestamp: nat, extension: Option<RtpHeaderExtension>): Stream {
      Stream(payloadType, ssrc, timestamp, extension)
    }

    /** The stream a frame goes out on: the capture time travels in the extension, the send time is stamped later. */
    function StreamOf(frame: EncodedFrame): Stream {
      StreamAt(BuildTimestamp(frame, clockRate),
               if !enableLatencyExtension then None
               else Some(BuildRtpLatencyHeaderExtension(RtpLatencyExtension(frame.capture, 0))))
    }

    /** Splits a video frame and packetizes every NAL unit; the last packet of the last one has the marker. */
    method Packetize(frame: EncodedFrame, previous: seq<bytes>) returns (ok: bool, packets: seq<bytes>)
      modifies this
      ensures ok <==> frame.frameType == 3 && maxPayloadSize > 2 && Nalus(frame.payload) != []
      ensures ok ==>
        packets == StreamOf(frame).Packets(Payloads(Nalus(frame.payload), maxPayloadSize), true, old(sequenceNumber))
      ensures ok ==> sequenceNumber == (old(sequenceNumber) + |packets|) % U16
      ensures !ok ==> packets == previous && sequenceNumber == old(sequenceNumber)
    {
      hide Nalus, Payloads, FuPayloads, BuildTimestamp, BuildRtpLatencyHeaderExtension, Stream.Packets,
          NalPayloads;
      packets := previous;
      if frame.frameType != VIDEO {
        return false, packets;
      }
      if maxPayloadSize <= 2 {
        return false, packets;
      }
      var views := SplitAnnexBNalus(frame.payload);
      ghost var nals := Nalus(frame.payload);
      if |views| == 0 {
        return false, packets;
      }
      packets := [];
      var timestamp := BuildTimestamp(frame, clockRate);
      var extension := None;
      if enableLatencyExtension {
        extension := Some(BuildRtpLatencyHeaderExtension(RtpLatencyExtension(frame.capture, 0)));
      }
      ghost var s, first := StreamAt(timestamp, extension), sequenceNumber;
      NalusWellFormed(frame.payload);
      StreamStart(s, nals, maxPayloadSize, first);
      for index := 0 to |views|
        invariant packets == s.Packets(Payloads(nals[..index], maxPayloadSize), index == |nals|, first)
        invariant sequenceNumber == (first + |packets|) % U16
        invariant index > 0 ==> packets != []
      {
        var nal := frame.payload[views[index].offset..views[index].offset + views[index].size];
        assert nal == nals[index] && nal in nals;
        var marker := index + 1 == |views|;
        StreamGrows(s, nals, index, maxPayloadSize, first, sequenceNumber, marker);
        packets := PacketizeNalu(nal, marker, timestamp, extension, packets);
      }
      assert nals[..|nals|] == nals;
      ok := |packets| > 0;
    }

    /** The body of the loop of `Packetize`: one packet, or one for each fragment. */
    method PacketizeNalu(nal: bytes, marker: bool, timestamp: nat, extension: Option<RtpHeaderExtension>,
        previous: seq<bytes>)
      returns (packets: seq<bytes>)
      requires maxPayloadSize > 2 && nal != []
      requires HasExtension(extension) ==> |extension.value.payload| % 4 == 0
      modifies this
      ensures var payloads := NalPayloads(nal, maxPayloadSize);
        && packets == previous + StreamAt(timestamp, extension).Packets(payloads, marker, old(sequenceNumber))
        && sequenceNumber == (old(sequenceNumber) + |payloads|) % U16
    {
      hide FuPayloads, Stream.Packets;
      var done;
      if |nal| <= maxPayloadSize {
        done, packets := PacketizeSingleNalu(nal, marker, timestamp, extension, previous);
      } else {
        done, packets := PacketizeFragmentedNalu(nal, marker, timestamp, extension, previous);
      }
    }

    method PacketizeSingleNalu(nal: bytes, marker: bool, timestamp: nat, extension: Option<RtpHeaderExtension>,
        previous: seq<bytes>)
      returns (ok: bool, packets: seq<bytes>)
      modifies this
      ensures ok <==> (HasExtension(extension) ==> |extension.value.payload| % 4 == 0)
      ensures packets ==
        previous + if ok then StreamAt(timestamp, extension).Packets([nal], marker, old(sequenceNumber)) else []
      ensures sequenceNumber == (old(sequenceNumber) + 1) % U16
    {
      hide HeaderBytes;
      var fields := RtpHeaderFields(marker, payloadType, sequenceNumber % U16, timestamp, ssrc);
      sequenceNumber := (sequenceNumber + 1) % U16;
      var header := WriteRtpHeader(fields, extension);
      if header.None? {
        return false, previous;
      }
      ok, packets := true, previous + [header.value + nal];
    }

    method PacketizeFragmentedNalu(nal: bytes, marker: bool, timestamp: nat, extension: Option<RtpHeaderExtension>,
        previous: seq<bytes>)
      returns (ok: bool, packets: seq<bytes>)
      requires maxPayloadSize >= 2
      modifies this
      ensures ok <==> |nal| >= 2 && maxPayloadSize > 2
      ensures ok ==>
        packets == previous
          + StreamAt(timestamp, extension).Packets(FuPayloads(nal, maxPayloadSize - 2, 1), marker, old(sequenceNumber))
      ensures ok ==> sequenceNumber == (old(sequenceNumber) + |FuPayloads(nal, maxPayloadSize - 2, 1)|) % U16
      ensures !ok ==> packets == previous && sequenceNumber == old(sequenceNumber)
    {
      hide FuPayload, FuPayloads, Stream.Packets, Stream.Packet;
      packets := previous;
      if |nal| < 2 {
        return false, packets;
      }
      var capacity := maxPayloadSize - 2;
      if capacity == 0 {
        return false, packets;
      }
      var offset := 1;
      ghost var s, first := StreamAt(timestamp, extension), sequenceNumber;
      ghost var done: seq<bytes> := [];
      FuStart(s, nal, capacity, first);
      while offset < |nal|
        invariant 1 <= offset <= |nal|
        invariant done + FuPayloads(nal, capacity, offset) == FuPayloads(nal, capacity, 1)
        invariant packets == previous + s.Packets(done, marker && offset == |nal|, first)
        invariant sequenceNumber == (first + |done|) % U16
        decreases |nal| - offset
      {
        var size := Min(capacity, |nal| - offset);
        SequenceWraps(first + |done|, 1);
        FuGrows(s, nal, capacity, offset, done, marker, first, sequenceNumber);
        var last := marker && offset + size >= |nal|;
        var fields := RtpHeaderFields(last, payloadType, sequenceNumber % U16, timestamp, ssrc);
        sequenceNumber := (sequenceNumber + 1) % U16;
        var packet := BuildFragment(nal, offset, size, fields, extension);
        packets := packets + [packet];
        done := done + [FuPayload(nal, offset, size)];
        offset := offset + size;
      }
      FuEnds(nal, capacity, done);
      ok := true;
    }
  }

  /** One FU-A packet, written piece by piece into a buffer of its exact size. */
  method BuildFragment(nal: bytes, offset: nat, size: nat, fields: RtpHeaderFields,
      extension: Option<RtpHeaderExtension>)
    returns (packet: bytes)
    requires 1 <= offset && offset + size <= |nal|
    ensures packet == HeaderBytes(fields, extension) + FuPayload(nal, offset, size)
  {
    hide HeaderBytes, Spliced, Filled;
    var headerSize :=
      RTP_HEADER_SIZE + if HasExtension(extension) then EXTENSION_HEADER_SIZE + |extension.value.payload| else 0;
    HeaderLength(fields, extension);
    var buffer := new byte[headerSize + 2 + size];
    ghost var before, header := buffer[..], HeaderBytes(fields, extension);
    WriteRtpHeaderToBuffer(buffer, fields, extension);
    var indicator := LowByte(nal[0] as nat / 32 * 32 + FU_A);
    var start, end := offset == 1, offset + size >= |nal|;
    var fuHeader := LowByte((if start then 128 else 0) + (if end then 64 else 0) + nal[0] as nat % 32);
    var chunk := nal[offset..offset + size];
    FilledFurther(buffer[..], before, header, [indicator, fuHeader]);
    WriteTwo(buffer, headerSize, indicator, fuHeader);
    FilledFurther(buffer[..], before, header + [indicator, fuHeader], chunk);
    CopyInto(buffer, headerSize + 2, chunk);
    packet := buffer[..];
    FilledWhole(packet, before, header + [indicator, fuHeader] + chunk);
    assert packet == header + ([indicator, fuHeader] + chunk);
  }

  method WriteTwo(buffer: array<byte>, at: nat, first: byte, second: byte)
    requires at + 2 <= buffer.Length
    modifies buffer
    ensures buffer[..] == Spliced(old(buffer[..]), at, [first, second])
  {
    buffer[at] := first;
    buffer[at + 1] := second;
  }

  lemma HeaderLength(fields: RtpHeaderFields, extension: Option<RtpHeaderExtension>)
    ensures |HeaderBytes(fields, extension)|
            == RTP_HEADER_SIZE
               + if HasExtension(extension) then EXTENSION_HEADER_SIZE + |extension.value.payload| else 0
  {
    hide FixedHeader;
  }

  // ----- the two loops, step by step

  lemma FuStart(s: Stream, nal: bytes, capacity: nat, first: nat)
    requires capacity > 0 && |nal| >= 2
    ensures [] + FuPayloads(nal, capacity, 1) == FuPayloads(nal, capacity, 1) && s.Packets([], false, first) == []
  {
  }

  lemma FuEnds(nal: bytes, capacity: nat, done: seq<bytes>)
    requires capacity > 0 && |nal| >= 1
    ensures done + FuPayloads(nal, capacity, |nal|) == done
  {
  }

  lemma FuGrows(s: Stream, nal: bytes, capacity: nat, offset: nat, done: seq<bytes>, marker: bool, first: nat,
      sequenceNumber: nat)
    requires capacity > 0 && 1 <= offset < |nal|
    requires sequenceNumber % U16 == (first + |done|) % U16
    ensures var size := Min(capacity, |nal| - offset);
      var fu := FuPayload(nal, offset, size);
      var last := marker && offset + size == |nal|;
      && done + [fu] + FuPayloads(nal, capacity, offset + size) == done + FuPayloads(nal, capacity, offset)
      && s.Packets(done + [fu], last, first) == s.Packets(done, false, first) + [s.Packet(last, sequenceNumber, fu)]
      && s.Packet(last, sequenceNumber, fu)
         == HeaderBytes(RtpHeaderFields(last, s.payloadType, sequenceNumber % U16, s.timestamp, s.ssrc),
           s.extension) + fu
  {
    hide FuPayload, HeaderBytes;
    var size := Min(capacity, |nal| - offset);
    var fu := FuPayload(nal, offset, size);
    var last := marker && offset + size == |nal|;
    PacketsConcat(s, done, [fu], last, first);
    assert s.Packets([fu], last, first + |done|) == [s.Packet(last, first + |done|, fu)];
    assert done + [fu] + FuPayloads(nal, capacity, offset + size) ==
      done + ([fu] + FuPayloads(nal, capacity, offset + size));
  }

  lemma StreamStart(s: Stream, nals: seq<bytes>, max: nat, first: nat)
    requires max > 2
    ensures Payloads(nals[..0], max) == [] && s.Packets([], false, first) == []
  {
  }

  /** The packets of one more NAL unit. */
  lemma StreamGrows(s: Stream, nals: seq<bytes>, index: nat, max: nat, first: nat, at: nat, marker: bool)
    requires max > 2 && index < |nals| && nals[index] != []
    requires at == (first + |Payloads(nals[..index], max)|) % U16
    ensures var before := Payloads(nals[..index], max); var more := NalPayloads(nals[index], max);
      && Payloads(nals[..index + 1], max) == before + more && more != []
      && s.Packets(before + more, marker, first) == s.Packets(before, false, first) + s.Packets(more, marker, at)
      && (at + |more|) % U16 == (first + |before + more|) % U16
  {
    hide FuPayloads, Stream.Packets;
    var nal := nals[index];
    PayloadsConcat(nals[..index], [nal], max);
    assert nals[..index] + [nal] == nals[..index + 1];
    assert Payloads([nal], max) == NalPayloads(nal, max) + [];
    if |nal| > max {
      FragmentsShape(nal, max);
    }
    var before, more := Payloads(nals[..index], max), NalPayloads(nal, max);
    PacketsConcat(s, before, more, marker, first);
    SequenceWraps(first + |before|, |more|);
    PacketsFrom(s, more, marker, first + |before|);
  }

  lemma PacketsFrom(s: Stream, payloads: seq<bytes>, marker: bool, first: nat)
    ensures s.Packets(payloads, marker, first % U16) == s.Packets(payloads, marker, first)
  {
    hide HeaderBytes;
    forall k | 0 <= k < |payloads|
      ensures s.Packet(marker && k == |payloads| - 1, first % U16 + k, payloads[k])
              == s.Packet(marker && k == |payloads| - 1, first + k, payloads[k])
    {
      SequenceWraps(first, k);
    }
  }
}
