/** RTP headers (sections 5.1 and 5.3.1 of RFC 3550) and the latency extension both ends use. */
module RtpProtocol {
  import opened Bytes
  import opened Protocol

  const RTP_HEADER_SIZE: nat := 12
  const EXTENSION_HEADER_SIZE: nat := 4
  const LATENCY_PROFILE_ID: nat := 0x5353
  const LATENCY_PAYLOAD_SIZE: nat := 16

  datatype RtpHeaderFields = RtpHeaderFields(
    marker: bool, payloadType: nat, sequenceNumber: nat, timestamp: nat, ssrc: nat) {
    predicate Fits() {
      payloadType < 128 && sequenceNumber < U16 && timestamp < U32 && ssrc < U32
    }
  }

  datatype RtpHeaderExtension = RtpHeaderExtension(profileId: nat, payload: bytes)

  const NO_EXTENSION := RtpHeaderExtension(0, [])

  datatype RtpLatencyExtension = RtpLatencyExtension(capture: nat, transportSend: nat) {
    predicate Fits() {
      capture < U64 && transportSend < U64
    }
  }

  // ----- writing

  /** What a null extension pointer and an empty extension payload have in common. */
  predicate HasExtension(extension: Option<RtpHeaderExtension>) {
    extension.Some? && extension.value.payload != []
  }

  /** The extension header and payload, or nothing. */
  function ExtensionBytes(extension: Option<RtpHeaderExtension>): bytes {
    if HasExtension(extension) then
      BigEndian(extension.value.profileId, 2) + BigEndian(|extension.value.payload| / 4, 2) + extension.value.payload
    else []
  }

  function FixedHeader(f: RtpHeaderFields, extended: bool): (s: bytes)
    ensures |s| == RTP_HEADER_SIZE
  {
    [if extended then 0x90 else 0x80, LowByte(f.payloadType % 128 + if f.marker then 128 else 0)] +
    BigEndian(f.sequenceNumber, 2) + BigEndian(f.timestamp, 4) + BigEndian(f.ssrc, 4)
  }

  function HeaderBytes(f: RtpHeaderFields, extension: Option<RtpHeaderExtension>): bytes {
    FixedHeader(f, HasExtension(extension)) + ExtensionBytes(extension)
  }

  /** `width` bytes of `value` written in network order, as `WriteBe16`, `WriteBe32` and `WriteBe64` do. */
  method WriteBe(value: nat, width: nat, data: array<byte>, at: nat)
    requires at + width <= data.Length
    modifies data
    ensures data[..] == Spliced(old(data[..]), at, BigEndian(value, width))
    decreases width
  {
    if width > 0 {
      WriteBe(value / 256, width - 1, data, at);
      data[at + width - 1] := LowByte(value);
    }
  }

  lemma FilledFirst(before: bytes, x: byte, y: byte)
    requires |before| >= 2
    ensures Filled(before[0 := x][1 := y], before, [x, y])
  {
  }

  /** Writes each header field at its own offset of a buffer the caller has sized. */
  method WriteRtpHeaderToBuffer(buffer: array<byte>, fields: RtpHeaderFields, extension: Option<RtpHeaderExtension>)
    requires buffer.Length >= |HeaderBytes(fields, extension)|
    modifies buffer
    ensures Filled(buffer[..], old(buffer[..]), HeaderBytes(fields, extension))
  {
    hide BigEndian, LowByte, Spliced, Filled;
    ghost var before := buffer[..];
    var extended := HasExtension(extension);
    var first := if extended then 0x90 else 0x80;
    var second := LowByte(fields.payloadType % 128 + if fields.marker then 128 else 0);
    buffer[0] := first;
    buffer[1] := second;
    FilledFirst(before, first, second);
    assert buffer[..] == before[0 := first][1 := second];
    FilledFurther(buffer[..], before, [first, second], BigEndian(fields.sequenceNumber, 2));
    WriteBe(fields.sequenceNumber, 2, buffer, 2);
    FilledFurther(buffer[..], before, [first, second] + BigEndian(fields.sequenceNumber, 2),
      BigEndian(fields.timestamp, 4));
    WriteBe(fields.timestamp, 4, buffer, 4);
    FilledFurther(buffer[..], before,
      [first, second] + BigEndian(fields.sequenceNumber, 2) + BigEndian(fields.timestamp, 4),
                  BigEndian(fields.ssrc, 4));
    WriteBe(fields.ssrc, 4, buffer, 8);
    assert Filled(buffer[..], before, FixedHeader(fields, extended));
    if extended {
      WriteExtension(buffer, before, FixedHeader(fields, extended), extension.value);
    } else {
      assert FixedHeader(fields, extended) + ExtensionBytes(extension) == FixedHeader(fields, extended);
    }
  }

  method WriteExtension(buffer: array<byte>, ghost before: bytes, ghost done: bytes, extension: RtpHeaderExtension)
    requires extension.payload != [] && |done| == RTP_HEADER_SIZE
    requires buffer.Length == |before| >= |done + ExtensionBytes(Some(extension))|
    requires Filled(buffer[..], before, done)
    modifies buffer
    ensures Filled(buffer[..], before, done + ExtensionBytes(Some(extension)))
  {
    hide BigEndian, LowByte, Spliced, Filled;
    ghost var profile, words := BigEndian(extension.profileId, 2), BigEndian(|extension.payload| / 4, 2);
    FilledFurther(buffer[..], before, done, profile);
    WriteBe(extension.profileId, 2, buffer, RTP_HEADER_SIZE);
    FilledFurther(buffer[..], before, done + profile, words);
    WriteBe(|extension.payload| / 4, 2, buffer, RTP_HEADER_SIZE + 2);
    FilledFurther(buffer[..], before, done + profile + words, extension.payload);
    CopyInto(buffer, RTP_HEADER_SIZE + 4, extension.payload);
    assert done + profile + words + extension.payload == done + (profile + words + extension.payload);
  }

  /** The growing writer: refuses an extension that is not whole 32-bit words. */
  method WriteRtpHeader(fields: RtpHeaderFields, extension: Option<RtpHeaderExtension>) returns (packet: Option<bytes>)
    ensures packet == if HasExtension(extension) && |extension.value.payload| % 4 != 0 then None
                      else Some(HeaderBytes(fields, extension))
  {
    hide BigEndian, FixedHeader, Spliced;
    var extended := HasExtension(extension);
    if extended && |extension.value.payload| % 4 != 0 {
      return None;
    }
    var extensionSize := if extended then EXTENSION_HEADER_SIZE + |extension.value.payload| else 0;
    var buffer := new byte[RTP_HEADER_SIZE + extensionSize];
    WriteRtpHeaderToBuffer(buffer, fields, extension);
    assert buffer[..] == HeaderBytes(fields, extension);
    packet := Some(buffer[..]);
  }

  // ----- parsing

  /** `headerSize` counts the contributing sources and the extension. */
  datatype ParsedHeader = ParsedHeader(fields: RtpHeaderFields, headerSize: nat, extension: RtpHeaderExtension)

  predicate HasExtensionBit(data: bytes)
    requires |data| > 0
  {
    data[0] as nat / 16 % 2 == 1
  }

  function CsrcCount(data: bytes): nat
    requires |data| > 0
  {
    data[0] as nat % 16
  }

  function ReadBe(data: bytes, at: nat, width: nat): nat
    requires at + width <= |data|
  {
    FromBigEndian(data[at..at + width])
  }

  function FieldsOf(data: bytes): RtpHeaderFields
    requires |data| >= RTP_HEADER_SIZE
  {
    RtpHeaderFields(data[1] as nat / 128 == 1, data[1] as nat % 128,
                    ReadBe(data, 2, 2), ReadBe(data, 4, 4), ReadBe(data, 8, 4))
  }

  function ParseRtpHeader(data: bytes): (p: Option<ParsedHeader>)
    ensures p.Some? ==> RTP_HEADER_SIZE <= p.value.headerSize <= |data|
  {
    if |data| < RTP_HEADER_SIZE then None
    else
      var version := data[0] as nat / 64;
      var padded := data[0] as nat / 32 % 2 == 1;
      var base := RTP_HEADER_SIZE + CsrcCount(data) * 4;
      if version != 2 || padded || |data| < base then None
      else if !HasExtensionBit(data) then Some(ParsedHeader(FieldsOf(data), base, NO_EXTENSION))
      else if |data| < base + EXTENSION_HEADER_SIZE then None
      else
        var payloadSize := ReadBe(data, base + 2, 2) * 4;
        var headerSize := base + EXTENSION_HEADER_SIZE + payloadSize;
        if |data| < headerSize then None
        else Some(ParsedHeader(FieldsOf(data), headerSize,
                               RtpHeaderExtension(ReadBe(data, base, 2),
                                 data[base + EXTENSION_HEADER_SIZE..headerSize])))
  }

  /** What the parser hands out for an extension the writer was given. */
  function Seen(extension: Option<RtpHeaderExtension>): RtpHeaderExtension {
    if HasExtension(extension) then extension.value else NO_EXTENSION
  }

  predicate ExtensionFits(extension: Option<RtpHeaderExtension>) {
    extension.Some? ==>
      extension.value.profileId < U16 && |extension.value.payload| % 4 == 0 && |extension.value.payload| / 4 < U16
  }

  lemma FieldsRoundTrip(f: RtpHeaderFields, extended: bool, rest: bytes)
    requires f.Fits()
    ensures FieldsOf(FixedHeader(f, extended) + rest) == f
  {
    hide BigEndian, FromBigEndian;
    var s := FixedHeader(f, extended) + rest;
    Pow256Values();
    assert s[2..4] == BigEndian(f.sequenceNumber, 2);
    assert s[4..8] == BigEndian(f.timestamp, 4);
    assert s[8..12] == BigEndian(f.ssrc, 4);
    BigEndianRoundTrip(f.sequenceNumber, 2);
    BigEndianRoundTrip(f.timestamp, 4);
    BigEndianRoundTrip(f.ssrc, 4);
  }

  /** Parsing what was written gives back the fields, the extension and where the payload starts. */
  lemma HeaderRoundTrip(f: RtpHeaderFields, extension: Option<RtpHeaderExtension>, payload: bytes)
    requires f.Fits() && ExtensionFits(extension)
    ensures var header := HeaderBytes(f, extension);
      ParseRtpHeader(header + payload) == Some(ParsedHeader(f, |header|, Seen(extension)))
  {
    hide BigEndian, FromBigEndian, FieldsOf;
    var header := HeaderBytes(f, extension);
    var s := header + payload;
    var extended := HasExtension(extension);
    var e := ExtensionBytes(extension);
    assert s == FixedHeader(f, extended) + (e + payload);
    FieldsRoundTrip(f, extended, e + payload);
    if extended {
      Pow256Values();
      var words := |extension.value.payload| / 4;
      assert s[12..14] == BigEndian(extension.value.profileId, 2);
      assert s[14..16] == BigEndian(words, 2);
      BigEndianRoundTrip(extension.value.profileId, 2);
      BigEndianRoundTrip(words, 2);
      assert s[16..16 + words * 4] == extension.value.payload;
    }
  }

  lemma {:induction false} BigEndianRestored(s: bytes)
    ensures BigEndian(FromBigEndian(s), |s|) == s
  {
    if s != [] {
      var v := FromBigEndian(s);
      BigEndianRestored(s[..|s| - 1]);
      assert v / 256 == FromBigEndian(s[..|s| - 1]) && v % 256 == s[|s| - 1] as nat;
      assert s == s[..|s| - 1] + [s[|s| - 1]];
    }
  }

  lemma FixedHeaderRestored(data: bytes)
    requires |data| >= RTP_HEADER_SIZE && data[0] as nat / 32 == 4 && CsrcCount(data) == 0
    ensures FixedHeader(FieldsOf(data), HasExtensionBit(data)) == data[..RTP_HEADER_SIZE]
  {
    hide BigEndian, FromBigEndian;
    BigEndianRestored(data[2..4]);
    BigEndianRestored(data[4..8]);
    BigEndianRestored(data[8..12]);
    assert data[0] == if HasExtensionBit(data) then 0x90 else 0x80;
    var f := FieldsOf(data);
    assert f.payloadType % 128 + (if f.marker then 128 else 0) == data[1] as nat;
    assert data[..12] == [data[0], data[1]] + data[2..4] + data[4..8] + data[8..12];
  }

  /** Writing what was parsed gives back the header's own bytes exactly when it names no contributing
      sources and announces no empty extension: the writer produces neither. */
  lemma ParsedHeaderRewritten(data: bytes)
    requires ParseRtpHeader(data).Some?
    ensures var p := ParseRtpHeader(data).value;
      HeaderBytes(p.fields, Some(p.extension)) == data[..p.headerSize]
      <==> CsrcCount(data) == 0 && (HasExtensionBit(data) ==> p.extension.payload != [])
  {
    hide BigEndian, FromBigEndian, FixedHeader, FieldsOf;
    var p := ParseRtpHeader(data).value;
    if CsrcCount(data) == 0 && (HasExtensionBit(data) ==> p.extension.payload != []) {
      FixedHeaderRestored(data);
      ExtensionRestored(data);
      assert data[..p.headerSize] == data[..12] + data[12..p.headerSize];
    }
  }

  lemma ExtensionRestored(data: bytes)
    requires ParseRtpHeader(data).Some? && CsrcCount(data) == 0
    requires HasExtensionBit(data) ==> ParseRtpHeader(data).value.extension.payload != []
    ensures var p := ParseRtpHeader(data).value;
      HasExtension(Some(p.extension)) == HasExtensionBit(data)
      && ExtensionBytes(Some(p.extension)) == data[12..p.headerSize]
  {
    hide BigEndian, FromBigEndian, FieldsOf;
    var p := ParseRtpHeader(data).value;
    if HasExtensionBit(data) {
      BigEndianRestored(data[12..14]);
      BigEndianRestored(data[14..16]);
      assert data[12..p.headerSize] == data[12..14] + data[14..16] + data[16..p.headerSize];
    }
  }

  // ----- the latency extension

  function BuildRtpLatencyHeaderExtension(e: RtpLatencyExtension): (x: RtpHeaderExtension)
    ensures |x.payload| == LATENCY_PAYLOAD_SIZE
  {
    RtpHeaderExtension(LATENCY_PROFILE_ID, BigEndian(e.capture, 8) + BigEndian(e.transportSend, 8))
  }

  function ParseRtpLatencyExtension(extension: RtpHeaderExtension): Option<RtpLatencyExtension> {
    if extension.profileId != LATENCY_PROFILE_ID || |extension.payload| != LATENCY_PAYLOAD_SIZE then None
    else Some(RtpLatencyExtension(ReadBe(extension.payload, 0, 8), ReadBe(extension.payload, 8, 8)))
  }

  lemma LatencyRoundTrip(e: RtpLatencyExtension)
    requires e.Fits()
    ensures ParseRtpLatencyExtension(BuildRtpLatencyHeaderExtension(e)) == Some(e)
  {
    hide BigEndian, FromBigEndian;
    var payload := BuildRtpLatencyHeaderExtension(e).payload;
    Pow256Values();
    assert payload[0..8] == BigEndian(e.capture, 8);
    assert payload[8..16] == BigEndian(e.transportSend, 8);
    BigEndianRoundTrip(e.capture, 8);
    BigEndianRoundTrip(e.transportSend, 8);
  }

  /** The timestamps a datagram carries, if it carries any. */
  function Latency(data: bytes): Option<RtpLatencyExtension> {
    var p := ParseRtpHeader(data);
    if p.None? then None else ParseRtpLatencyExtension(p.value.extension)
  }

  /** `data` with another transport send timestamp. */
  ghost function Stamped(data: bytes, transportSend: nat): bytes {
    if Latency(data).None? then data
    else Spliced(data, ParseRtpHeader(data).value.headerSize - 8, BigEndian(transportSend, 8))
  }

  /** What the in-place update checks, byte by byte. */
  predicate LooksLatent(data: bytes) {
    && |data| >= RTP_HEADER_SIZE + EXTENSION_HEADER_SIZE + LATENCY_PAYLOAD_SIZE
    && data[0] as nat / 64 == 2 && data[0] as nat / 32 % 2 == 0 && data[0] as nat / 16 % 2 == 1
    && var base := RTP_HEADER_SIZE + data[0] as nat % 16 * 4;
       && |data| >= base + EXTENSION_HEADER_SIZE + LATENCY_PAYLOAD_SIZE
       && ReadBe(data, base, 2) == LATENCY_PROFILE_ID && ReadBe(data, base + 2, 2) == LATENCY_PAYLOAD_SIZE / 4
  }

  /** The check passes exactly for what the parser finds a latency extension in. */
  lemma LooksLatentIsLatent(data: bytes)
    ensures LooksLatent(data) <==> Latency(data).Some?
    ensures LooksLatent(data) ==>
      ParseRtpHeader(data).value.headerSize
      == RTP_HEADER_SIZE + data[0] as nat % 16 * 4 + EXTENSION_HEADER_SIZE + LATENCY_PAYLOAD_SIZE
  {
    hide FromBigEndian, FieldsOf;
  }

  /** Refuses what carries no latency extension, and otherwise overwrites its last eight bytes. */
  method UpdateRtpLatencyExtensionTransportSendTimestamp(data: array<byte>, transportSend: nat) returns (ok: bool)
    modifies data
    ensures ok <==> Latency(old(data[..])).Some?
    ensures data[..] == Stamped(old(data[..]), transportSend)
  {
    hide Latency, ParseRtpHeader, BigEndian, FromBigEndian, Spliced;
    LooksLatentIsLatent(data[..]);
    if data.Length < RTP_HEADER_SIZE + EXTENSION_HEADER_SIZE + LATENCY_PAYLOAD_SIZE {
      return false;
    }
    var version := data[0] as nat / 64;
    var padded := data[0] as nat / 32 % 2 == 1;
    var extended := data[0] as nat / 16 % 2 == 1;
    var base := RTP_HEADER_SIZE + data[0] as nat % 16 * 4;
    if version != 2 || padded || !extended || data.Length < base + EXTENSION_HEADER_SIZE {
      return false;
    }
    if ReadBe(data[..], base, 2) != LATENCY_PROFILE_ID
      || ReadBe(data[..], base + 2, 2) != LATENCY_PAYLOAD_SIZE / 4
      || data.Length < base + EXTENSION_HEADER_SIZE + LATENCY_PAYLOAD_SIZE {
      return false;
    }
    WriteBe(transportSend, 8, data, base + EXTENSION_HEADER_SIZE + 8);
    return true;
  }

  /** Stamping a datagram changes its transport send timestamp and nothing else a receiver reads. */
  lemma StampKeepsTheRest(data: bytes, transportSend: nat)
    requires Latency(data).Some? && transportSend < U64
    ensures var after := Stamped(data, transportSend); var p := ParseRtpHeader(data).value;
      && |after| == |data|
      && ParseRtpHeader(after).Some?
      && ParseRtpHeader(after).value.fields == p.fields && ParseRtpHeader(after).value.headerSize == p.headerSize
      && Latency(after) == Some(Latency(data).value.(transportSend := transportSend))
      && after[p.headerSize..] == data[p.headerSize..]
  {
    hide BigEndian, FromBigEndian;
    var after := Stamped(data, transportSend);
    var p := ParseRtpHeader(data).value;
    var base := RTP_HEADER_SIZE + CsrcCount(data) * 4;
    assert p.headerSize == base + 20;
    assert after[..base + 12] == data[..base + 12];
    forall i, j | 0 <= i <= j <= base + 12
      ensures after[i..j] == data[i..j]
    {
      assert after[i..j] == after[..base + 12][i..j];
    }
    assert FieldsOf(after) == FieldsOf(data);
    var e := after[base + 4..base + 20];
    assert e[0..8] == after[base + 4..base + 12] == data[base + 4..base + 12] == p.extension.payload[0..8];
    assert e[8..16] == after[base + 12..base + 20] == BigEndian(transportSend, 8);
    Pow256Values();
    BigEndianRoundTrip(transportSend, 8);
  }
}
