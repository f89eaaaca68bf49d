/** Every message by the offsets of its fields, and for each parser exactly what it refuses. */
module WireFormat {
  import opened Bytes
  import opened Protocol
  import opened Frames
  import opened UdpSender
  import opened UdpClientSpec
  import opened TcpSending
  import opened RtpProtocol
  import opened RtpPacketizer

  /** Little-endian numbers side by side, the first of `width` bytes. */
  lemma FieldAt(before: bytes, value: nat, width: nat, after: bytes)
    requires value < Pow256(width)
    ensures Field(before + LittleEndian(value, width) + after, |before|, width) == value
  {
    var d := before + LittleEndian(value, width) + after;
    LittleEndianRoundTrip(value, width);
    assert d[|before|..|before| + width] == LittleEndian(value, width);
  }

  // ----- UDP: what the client takes

  /** A datagram is valid exactly when header and fragment header are there, magic, type and lengths agree, and the
      fragment lies within its frame. */
  lemma ClientTakesExactly(data: bytes)
    ensures Parse(data).Fragment? <==>
      && |data| >= 68 && data[..4] == [0x43, 0x43, 0x54, 0x43] && Field(data, 4, 2) == 1
      && Field(data, 8, 4) == |data| - 12
      && Field(data, 62, 2) > 0 && Field(data, 64, 2) <= 1
      && (Field(data, 64, 2) == 0 ==>
            && Field(data, 60, 2) < Field(data, 62, 2)
            && Field(data, 56, 4) + (|data| - 68) <= Field(data, 52, 4))
    ensures Parse(data).Fragment? ==>
      var f := Parse(data).fragment;
      && f.metadata == FrameDiagnosticMetadata(
           Field(data, 12, 8), Field(data, 20, 8), Field(data, 28, 8), Field(data, 36, 8), Field(data, 44, 8))
      && f.framePayloadSize == Field(data, 52, 4) && f.fragmentOffset == Field(data, 56, 4)
      && f.fragmentIndex == Field(data, 60, 2) && f.fragmentCount == Field(data, 62, 2)
      && f.fragmentRole == Field(data, 64, 2) && Parse(data).body == data[68..]
  {
    hide FromLittleEndian;
    if |data| >= 68 {
      var rest := data[12..];
      FieldWithin(data, 12, 0, 8);
      FieldWithin(data, 12, 8, 8);
      FieldWithin(data, 12, 16, 8);
      FieldWithin(data, 12, 24, 8);
      FieldWithin(data, 12, 32, 8);
      FieldWithin(data, 12, 40, 4);
      FieldWithin(data, 12, 44, 4);
      FieldWithin(data, 12, 48, 2);
      FieldWithin(data, 12, 50, 2);
      FieldWithin(data, 12, 52, 2);
    }
  }

  // ----- UDP: requests

  /** A request: message header, its time and count, and for each item the sequence and the index. */
  lemma NackLayout(sequence: nat, indices: seq<nat>, clock: nat)
    requires sequence < U64 && clock < U64 && |indices| < U16 && forall i :: 0 <= i < |indices| ==> indices[i] < U16
    ensures var d := NackDatagram(sequence, indices, clock);
      && |d| == 24 + 12 * |indices| && d[..4] == [0x43, 0x43, 0x54, 0x43]
      && Field(d, 4, 2) == 2 && Field(d, 6, 2) == 0 && Field(d, 8, 4) == 12 + 12 * |indices|
      && Field(d, 12, 8) == clock && Field(d, 20, 2) == |indices| && Field(d, 22, 2) == 0
      && forall i :: 0 <= i < |indices| ==>
           && Field(d, 24 + 12 * i, 8) == sequence && Field(d, 32 + 12 * i, 2) == indices[i]
           && Field(d, 34 + 12 * i, 2) == 0
  {
    hide EncodeNackItems, Field, EncodeMessageHeader, EncodeNackHeader;
    var n, d := |indices|, NackDatagram(sequence, indices, clock);
    var h := MessageHeader(MAGIC, UDP_NACK, 0, NACK_HEADER_SIZE + n * NACK_ITEM_SIZE);
    var items := NackItems(sequence, indices);
    var rest := EncodeNackHeader(clock, n) + EncodeNackItems(items);
    assert d == EncodeMessageHeader(h) + rest;
    MessageHeaderRoundTrip(h, rest);
    NackHeaderLayout(clock, n, EncodeNackItems(items));
    assert d[12..] == rest;
    FieldWithin(d, 12, 0, 8);
    FieldWithin(d, 12, 8, 2);
    FieldWithin(d, 12, 10, 2);
    assert d[24..] == EncodeNackItems(items) + [];
    forall i | 0 <= i < n
      ensures Field(d, 24 + 12 * i, 8) == sequence && Field(d, 32 + 12 * i, 2) == indices[i]
      ensures Field(d, 34 + 12 * i, 2) == 0
    {
      ItemLayout(items, i);
      FieldWithin(d, 24, 12 * i, 8);
      FieldWithin(d, 24, 12 * i + 8, 2);
      FieldWithin(d, 24, 12 * i + 10, 2);
      assert d[24..] == EncodeNackItems(items);
    }
  }

  lemma NackHeaderLayout(clock: nat, count: nat, rest: bytes)
    requires clock < U64 && count < U16
    ensures var s := EncodeNackHeader(clock, count) + rest;
      Field(s, 0, 8) == clock && Field(s, 8, 2) == count && Field(s, 10, 2) == 0
  {
    hide Field, LittleEndian, Pow256;
    Pow256Values();
    FieldAt([], clock, 8, LittleEndian(count, 2) + LittleEndian(0, 2) + rest);
    FieldAt(LittleEndian(clock, 8), count, 2, LittleEndian(0, 2) + rest);
    FieldAt(LittleEndian(clock, 8) + LittleEndian(count, 2), 0, 2, rest);
    Regrouped(LittleEndian(clock, 8), LittleEndian(count, 2), LittleEndian(0, 2), rest);
  }

  lemma Regrouped(a: bytes, b: bytes, c: bytes, d: bytes)
    ensures a + b + c + d == [] + a + (b + c + d) == a + b + (c + d)
  {
  }

  lemma {:induction false} ItemLayout(items: seq<NackItem>, i: nat)
    requires i < |items| && items[i].Fits()
    ensures var s := EncodeNackItems(items);
      && Field(s, 12 * i, 8) == items[i].frameSequence && Field(s, 12 * i + 8, 2) == items[i].fragmentIndex
      && Field(s, 12 * i + 10, 2) == 0
  {
    hide Field;
    var s, others := EncodeNackItems(items), EncodeNackItems(items[1..]);
    if i == 0 {
      NackHeaderLayout(items[0].frameSequence, items[0].fragmentIndex, others);
      assert s == EncodeNackHeader(items[0].frameSequence, items[0].fragmentIndex) + others;
    } else {
      ItemLayout(items[1..], i - 1);
      assert s[12..] == others;
      FieldWithin(s, 12, 12 * (i - 1), 8);
      FieldWithin(s, 12, 12 * (i - 1) + 8, 2);
      FieldWithin(s, 12, 12 * (i - 1) + 10, 2);
    }
  }

  /** The server acts on a datagram exactly when it is a request and holds as many items as it announces. */
  lemma ServerTakesExactly(data: bytes)
    ensures var items := ParseNackRequest(data);
      && (items.Some? <==>
            && |data| >= 24 && data[..4] == [0x43, 0x43, 0x54, 0x43] && Field(data, 4, 2) == 2
            && Field(data, 8, 4) == 12 + 12 * Field(data, 20, 2) && |data| >= 24 + 12 * Field(data, 20, 2))
      && (items.Some? ==>
            && |items.value| == Field(data, 20, 2)
            && forall i :: 0 <= i < |items.value| ==>
                 items.value[i] == NackItem(Field(data, 24 + 12 * i, 8), Field(data, 32 + 12 * i, 2)))
  {
    hide FromLittleEndian, DecodeNackItems;
    var items := ParseNackRequest(data);
    if items.Some? {
      forall i | 0 <= i < |items.value|
        ensures items.value[i] == NackItem(Field(data, 24 + 12 * i, 8), Field(data, 32 + 12 * i, 2))
      {
        ItemRead(data[24..], |items.value|, i);
        FieldWithin(data, 24, 12 * i, 8);
        FieldWithin(data, 24, 12 * i + 8, 2);
      }
    }
  }

  lemma {:induction false} ItemRead(s: bytes, count: nat, i: nat)
    requires |s| >= count * NACK_ITEM_SIZE && i < count
    ensures DecodeNackItems(s, count)[i] == NackItem(Field(s, 12 * i, 8), Field(s, 12 * i + 8, 2))
  {
    hide FromLittleEndian;
    if i > 0 {
      ItemRead(s[NACK_ITEM_SIZE..], count - 1, i - 1);
      FieldWithin(s, 12, 12 * (i - 1), 8);
      FieldWithin(s, 12, 12 * (i - 1) + 8, 2);
    }
  }

  // ----- TCP

  /** A frame on a connection: header, metadata when embedded, payload. */
  lemma TcpFrameLayout(frame: EncodedFrame, embedMetadata: bool, sendTimestamp: nat)
    requires frame.Fits() && sendTimestamp < U64 && |frame.payload| + 40 < U32
    ensures var d := FrameBytes(frame, embedMetadata, sendTimestamp); var start := if embedMetadata then 52 else 12;
      && |d| == start + |frame.payload| && d[..4] == [0x43, 0x43, 0x54, 0x43]
      && Field(d, 4, 2) == 1 && Field(d, 6, 2) == frame.frameType && Field(d, 8, 4) == |d| - 12
      && d[start..] == frame.payload
      && (embedMetadata ==>
            && Field(d, 12, 8) == frame.sequence && Field(d, 20, 8) == frame.capture
            && Field(d, 28, 8) == frame.encodeStart && Field(d, 36, 8) == frame.encodeEnd
            && Field(d, 44, 8) == sendTimestamp)
  {
    hide Field, EncodeMessageHeader, EncodeMetadata;
    var h, d := HeaderOf(frame, embedMetadata), FrameBytes(frame, embedMetadata, sendTimestamp);
    var m := if embedMetadata then EncodeMetadata(MetadataOf(frame, sendTimestamp)) else [];
    assert d == EncodeMessageHeader(h) + (m + frame.payload);
    MessageHeaderRoundTrip(h, m + frame.payload);
    assert d[12..] == m + frame.payload;
    if embedMetadata {
      MetadataRoundTrip(MetadataOf(frame, sendTimestamp), frame.payload);
      FieldWithin(d, 12, 0, 8);
      FieldWithin(d, 12, 8, 8);
      FieldWithin(d, 12, 16, 8);
      FieldWithin(d, 12, 24, 8);
      FieldWithin(d, 12, 32, 8);
    }
  }

  // ----- RTP

  /** Section 5.1 of RFC 3550: version 2, no padding, no contributing sources; X, M and the numbers in their places;
      section 5.3.1: profile, length in words, and the extension. */
  lemma RtpHeaderLayout(f: RtpHeaderFields, extension: Option<RtpHeaderExtension>)
    ensures var d := HeaderBytes(f, extension); var extended := extension.Some? && extension.value.payload != [];
      && |d| == (if extended then 16 + |extension.value.payload| else 12)
      && d[0] as nat == (if extended then 0x90 else 0x80)
      && d[1] as nat == f.payloadType % 0x80 + (if f.marker then 0x80 else 0)
      && d[2..4] == BigEndian(f.sequenceNumber, 2) && d[4..8] == BigEndian(f.timestamp, 4)
      && d[8..12] == BigEndian(f.ssrc, 4)
      && (extended ==>
            && d[12..14] == BigEndian(extension.value.profileId, 2)
            && d[14..16] == BigEndian(|extension.value.payload| / 4, 2) && d[16..] == extension.value.payload)
  {
    hide BigEndian, FixedHeader;
    FixedHeaderLayout(f, HasExtension(extension), ExtensionBytes(extension));
    if HasExtension(extension) {
      ExtensionLayout(FixedHeader(f, true), extension);
    }
  }

  lemma FixedHeaderLayout(f: RtpHeaderFields, extended: bool, rest: bytes)
    ensures var d := FixedHeader(f, extended) + rest;
      && d[0] as nat == (if extended then 0x90 else 0x80)
      && d[1] as nat == f.payloadType % 0x80 + (if f.marker then 0x80 else 0)
      && d[2..4] == BigEndian(f.sequenceNumber, 2) && d[4..8] == BigEndian(f.timestamp, 4)
      && d[8..12] == BigEndian(f.ssrc, 4)
  {
    hide BigEndian;
  }

  lemma ExtensionLayout(fixed: bytes, extension: Option<RtpHeaderExtension>)
    requires |fixed| == 12 && HasExtension(extension)
    ensures var d := fixed + ExtensionBytes(extension);
      && |d| == 16 + |extension.value.payload| && d[12..14] == BigEndian(extension.value.profileId, 2)
      && d[14..16] == BigEndian(|extension.value.payload| / 4, 2) && d[16..] == extension.value.payload
  {
    hide BigEndian;
  }

  /** A packet parses exactly when it has version 2, no padding, and room for what its header announces. */
  lemma RtpTakesExactly(d: bytes)
    ensures var p := ParseRtpHeader(d);
      && (p.Some? <==>
            && |d| >= 12 && 0x80 <= d[0] as nat < 0xC0 && d[0] as nat % 0x40 < 0x20
            && var base := 12 + 4 * (d[0] as nat % 16);
               && |d| >= base
               && (d[0] as nat % 0x20 >= 0x10 ==>
                     |d| >= base + 4 && |d| >= base + 4 + 4 * FromBigEndian(d[base + 2..base + 4])))
      && (p.Some? ==>
            var base := 12 + 4 * (d[0] as nat % 16);
            && p.value.fields == RtpHeaderFields(d[1] as nat >= 0x80, d[1] as nat % 0x80,
                 FromBigEndian(d[2..4]), FromBigEndian(d[4..8]), FromBigEndian(d[8..12]))
            && if d[0] as nat % 0x20 < 0x10 then
                 p.value.headerSize == base && p.value.extension == RtpHeaderExtension(0, [])
               else
                 var size := 4 * FromBigEndian(d[base + 2..base + 4]);
                 && p.value.headerSize == base + 4 + size
                 && p.value.extension
                    == RtpHeaderExtension(FromBigEndian(d[base..base + 2]), d[base + 4..base + 4 + size]))
  {
    hide FromBigEndian;
  }

  /** The latency extension: profile 0x5353, capture time, and the send time, in network order. */
  lemma LatencyLayout(e: RtpLatencyExtension)
    ensures var x := BuildRtpLatencyHeaderExtension(e);
      && x.profileId == 0x5353 && |x.payload| == 16
      && x.payload[..8] == BigEndian(e.capture, 8) && x.payload[8..] == BigEndian(e.transportSend, 8)
  {
  }

  /** Sections 5.6 and 5.8 of RFC 6184: a NAL unit that fits is sent as it is. Of a larger one each payload has the
      indicator with type 28 and the header with S, E and the type, and the rest of the NAL unit in order. */
  lemma FuLayout(nal: bytes, offset: nat, size: nat)
    requires 1 <= offset && offset + size <= |nal|
    ensures var p := FuPayload(nal, offset, size);
      && |p| == size + 2
      && p[0] as nat == nal[0] as nat - nal[0] as nat % 32 + 28
      && p[1] as nat == nal[0] as nat % 32 + (if offset == 1 then 0x80 else 0)
                        + (if offset + size == |nal| then 0x40 else 0)
      && p[2..] == nal[offset..offset + size]
  {
    hide FuPayload, LowByte;
    FuPayloadBytes(nal, offset, size);
    FuHeaderFields(offset == 1, offset + size == |nal|, nal[0] as nat % 32);
    FuIndicatorFields(nal[0] as nat);
  }
}
