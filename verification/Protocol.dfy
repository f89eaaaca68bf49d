/** The packed, little-endian messages shared by the server and the client. */
module Protocol {
  import opened Bytes

  datatype Option<+T> = None | Some(value: T)

  const AV_STREAM: nat := 1
  const UDP_NACK: nat := 2

  const DATA: nat := 0
  const XOR_PARITY: nat := 1

  /** "CCTC" */
  const MAGIC: bytes := [0x43, 0x43, 0x54, 0x43]

  const MESSAGE_HEADER_SIZE: nat := 12
  const FRAGMENT_HEADER_SIZE: nat := 56
  const DATAGRAM_OVERHEAD: nat := 68
  const NACK_HEADER_SIZE: nat := 12
  const NACK_ITEM_SIZE: nat := 12
  const METADATA_SIZE: nat := 40

  datatype MessageHeader = MessageHeader(magic: bytes, messageType: nat, subType: nat, payloadLength: nat) {
    predicate Fits() {
      |magic| == 4 && messageType < U16 && subType < U16 && payloadLength < U32
    }
  }

  datatype FrameDiagnosticMetadata = FrameDiagnosticMetadata(
    sequence: nat, capture: nat, encodeStart: nat, encodeEnd: nat, transportSend: nat) {
    predicate Fits() {
      sequence < U64 && capture < U64 && encodeStart < U64 && encodeEnd < U64 && transportSend < U64
    }

    predicate HasSenderLatency() {
      capture != 0 && transportSend != 0
    }
  }

  const NO_METADATA := FrameDiagnosticMetadata(0, 0, 0, 0, 0)

  /** `metadata.sequence` is the wire field `frame_sequence`. */
  datatype FragmentHeader = FragmentHeader(
    metadata: FrameDiagnosticMetadata,
    framePayloadSize: nat, fragmentOffset: nat,
    fragmentIndex: nat, fragmentCount: nat, fragmentRole: nat) {
    predicate Fits() {
      && metadata.Fits() && framePayloadSize < U32 && fragmentOffset < U32
      && fragmentIndex < U16 && fragmentCount < U16 && fragmentRole < U16
    }
  }

  datatype NackItem = NackItem(frameSequence: nat, fragmentIndex: nat) {
    predicate Fits() {
      frameSequence < U64 && fragmentIndex < U16
    }
  }

  function Field(s: bytes, at: nat, width: nat): nat
    requires at + width <= |s|
  {
    FromLittleEndian(s[at..at + width])
  }

  lemma FieldWithin(d: bytes, from: nat, at: nat, width: nat)
    requires from + at + width <= |d|
    ensures Field(d, from + at, width) == Field(d[from..], at, width)
  {
    assert d[from..][at..at + width] == d[from + at..from + at + width];
  }

  // ----- message header

  function EncodeMessageHeader(h: MessageHeader): (s: bytes)
    ensures |s| == |h.magic| + 8
  {
    h.magic + LittleEndian(h.messageType, 2) + LittleEndian(h.subType, 2) + LittleEndian(h.payloadLength, 4)
  }

  function DecodeMessageHeader(s: bytes): (h: MessageHeader)
    requires |s| >= MESSAGE_HEADER_SIZE
    ensures h.Fits()
  {
    FromLittleEndianBound(s[4..6]); FromLittleEndianBound(s[6..8]); FromLittleEndianBound(s[8..12]); Pow256Values();
    MessageHeader(s[..4], Field(s, 4, 2), Field(s, 6, 2), Field(s, 8, 4))
  }

  lemma MessageHeaderRoundTrip(h: MessageHeader, rest: bytes)
    requires h.Fits()
    ensures DecodeMessageHeader(EncodeMessageHeader(h) + rest) == h
  {
    var s := EncodeMessageHeader(h) + rest;
    Pow256Values();
    assert s[..4] == h.magic;
    assert s[4..6] == LittleEndian(h.messageType, 2);
    assert s[6..8] == LittleEndian(h.subType, 2);
    assert s[8..12] == LittleEndian(h.payloadLength, 4);
    LittleEndianRoundTrip(h.messageType, 2);
    LittleEndianRoundTrip(h.subType, 2);
    LittleEndianRoundTrip(h.payloadLength, 4);
  }

  // ----- frame metadata

  function EncodeMetadata(m: FrameDiagnosticMetadata): (s: bytes)
    ensures |s| == METADATA_SIZE
  {
    LittleEndian(m.sequence, 8) + LittleEndian(m.capture, 8) + LittleEndian(m.encodeStart, 8) +
    LittleEndian(m.encodeEnd, 8) + LittleEndian(m.transportSend, 8)
  }

  function DecodeMetadata(s: bytes): (m: FrameDiagnosticMetadata)
    requires |s| >= METADATA_SIZE
  {
    FrameDiagnosticMetadata(Field(s, 0, 8), Field(s, 8, 8), Field(s, 16, 8), Field(s, 24, 8), Field(s, 32, 8))
  }

  lemma MetadataRoundTrip(m: FrameDiagnosticMetadata, rest: bytes)
    requires m.Fits()
    ensures DecodeMetadata(EncodeMetadata(m) + rest) == m
  {
    var s := EncodeMetadata(m) + rest;
    Pow256Values();
    assert s[0..8] == LittleEndian(m.sequence, 8);
    assert s[8..16] == LittleEndian(m.capture, 8);
    assert s[16..24] == LittleEndian(m.encodeStart, 8);
    assert s[24..32] == LittleEndian(m.encodeEnd, 8);
    assert s[32..40] == LittleEndian(m.transportSend, 8);
    LittleEndianRoundTrip(m.sequence, 8);
    LittleEndianRoundTrip(m.capture, 8);
    LittleEndianRoundTrip(m.encodeStart, 8);
    LittleEndianRoundTrip(m.encodeEnd, 8);
    LittleEndianRoundTrip(m.transportSend, 8);
  }

  // ----- fragment header

  function EncodeFragmentHeader(h: FragmentHeader): (s: bytes)
    ensures |s| == FRAGMENT_HEADER_SIZE
  {
    EncodeMetadata(h.metadata) + LittleEndian(h.framePayloadSize, 4) + LittleEndian(h.fragmentOffset, 4) +
    LittleEndian(h.fragmentIndex, 2) + LittleEndian(h.fragmentCount, 2) + LittleEndian(h.fragmentRole, 2) +
    LittleEndian(0, 2)
  }

  function DecodeFragmentHeader(s: bytes): (h: FragmentHeader)
    requires |s| >= FRAGMENT_HEADER_SIZE
    ensures h.framePayloadSize < U32
  {
    FromLittleEndianBound(s[40..44]); Pow256Values();
    FragmentHeader(DecodeMetadata(s), Field(s, 40, 4), Field(s, 44, 4),
                   Field(s, 48, 2), Field(s, 50, 2), Field(s, 52, 2))
  }

  lemma FragmentHeaderRoundTrip(h: FragmentHeader, rest: bytes)
    requires h.Fits()
    ensures DecodeFragmentHeader(EncodeFragmentHeader(h) + rest) == h
  {
    var s := EncodeFragmentHeader(h) + rest;
    var m := EncodeMetadata(h.metadata);
    Pow256Values();
    assert s == m + s[40..];
    MetadataRoundTrip(h.metadata, s[40..]);
    assert s[40..44] == LittleEndian(h.framePayloadSize, 4);
    assert s[44..48] == LittleEndian(h.fragmentOffset, 4);
    assert s[48..50] == LittleEndian(h.fragmentIndex, 2);
    assert s[50..52] == LittleEndian(h.fragmentCount, 2);
    assert s[52..54] == LittleEndian(h.fragmentRole, 2);
    LittleEndianRoundTrip(h.framePayloadSize, 4);
    LittleEndianRoundTrip(h.fragmentOffset, 4);
    LittleEndianRoundTrip(h.fragmentIndex, 2);
    LittleEndianRoundTrip(h.fragmentCount, 2);
    LittleEndianRoundTrip(h.fragmentRole, 2);
  }

  // ----- NACK items

  function EncodeNackHeader(requestTimestamp: nat, requestCount: nat): (s: bytes)
    ensures |s| == NACK_HEADER_SIZE
  {
    LittleEndian(requestTimestamp, 8) + LittleEndian(requestCount, 2) + LittleEndian(0, 2)
  }

  function EncodeNackItem(item: NackItem): (s: bytes)
    ensures |s| == NACK_ITEM_SIZE
  {
    LittleEndian(item.frameSequence, 8) + LittleEndian(item.fragmentIndex, 2) + LittleEndian(0, 2)
  }

  function DecodeNackItem(s: bytes): NackItem
    requires |s| >= NACK_ITEM_SIZE
  {
    NackItem(Field(s, 0, 8), Field(s, 8, 2))
  }

  lemma NackItemRoundTrip(item: NackItem, rest: bytes)
    requires item.Fits()
    ensures DecodeNackItem(EncodeNackItem(item) + rest) == item
  {
    var s := EncodeNackItem(item) + rest;
    Pow256Values();
    assert s[0..8] == LittleEndian(item.frameSequence, 8);
    assert s[8..10] == LittleEndian(item.fragmentIndex, 2);
    LittleEndianRoundTrip(item.frameSequence, 8);
    LittleEndianRoundTrip(item.fragmentIndex, 2);
  }

  /** The items one after the other. */
  function EncodeNackItems(items: seq<NackItem>): (s: bytes)
    ensures |s| == |items| * NACK_ITEM_SIZE
  {
    if items == [] then [] else EncodeNackItem(items[0]) + EncodeNackItems(items[1..])
  }

  function DecodeNackItems(s: bytes, count: nat): (items: seq<NackItem>)
    requires |s| >= count * NACK_ITEM_SIZE
    ensures |items| == count
  {
    if count == 0 then [] else [DecodeNackItem(s)] + DecodeNackItems(s[NACK_ITEM_SIZE..], count - 1)
  }

  lemma {:induction false} NackItemsRoundTrip(items: seq<NackItem>, rest: bytes)
    requires forall i :: 0 <= i < |items| ==> items[i].Fits()
    ensures DecodeNackItems(EncodeNackItems(items) + rest, |items|) == items
  {
    hide EncodeNackItem, DecodeNackItem;
    if items != [] {
      var s := EncodeNackItems(items) + rest;
      var tail := EncodeNackItems(items[1..]) + rest;
      assert s == EncodeNackItem(items[0]) + tail;
      NackItemRoundTrip(items[0], tail);
      assert s[NACK_ITEM_SIZE..] == tail;
      NackItemsRoundTrip(items[1..], rest);
    }
  }
}
