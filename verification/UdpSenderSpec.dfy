/** The datagrams the server makes of one frame. */
module UdpSenderSpec {
  import opened Bytes
  import opened Protocol
  import opened Fec
  import opened Frames

  datatype SenderConfig = SenderConfig(
    maxDatagramSize: nat, targetPayloadSize: nat, embedFrameMetadata: bool, enableFec: bool, enableNack: bool,
    cacheFrames: nat, cacheMaxAgeMs: nat, maxFragmentsPerRequest: nat)
  {
    /** What the configuration loader accepts. */
    predicate Validated() {
      && 512 <= maxDatagramSize <= 65507 && 256 <= targetPayloadSize <= maxDatagramSize
      && cacheFrames > 0 && cacheMaxAgeMs > 0 && maxFragmentsPerRequest > 0
    }

    function MaxAgeNs(): nat {
      cacheMaxAgeMs * NS_PER_MS
    }

    predicate HasCapacity() {
      targetPayloadSize > DATAGRAM_OVERHEAD && maxDatagramSize > DATAGRAM_OVERHEAD
    }

    /** The largest payload of one fragment. */
    function Capacity(): (n: nat)
      requires HasCapacity()
      ensures n > 0
    {
      Min(targetPayloadSize, maxDatagramSize - DATAGRAM_OVERHEAD)
    }
  }

  function CountOf(length: nat, capacity: nat): (n: nat)
    requires capacity > 0
    ensures n > 0
  {
    if length == 0 then 1 else 1 + (length - 1) / capacity
  }

  /** A frame as it goes out: under which configuration, and with which send timestamp. */
  datatype SentFrame = SentFrame(frame: EncodedFrame, config: SenderConfig, sendTimestamp: nat) {
    function Capacity(): (n: nat)
      requires config.HasCapacity()
      ensures n > 0
    {
      config.Capacity()
    }

    function Count(): (n: nat)
      requires config.HasCapacity()
      ensures n > 0
    {
      CountOf(|frame.payload|, Capacity())
    }

    /** The frames `SendFrameFragments` does not refuse. */
    predicate Sendable() {
      config.HasCapacity() && Count() <= 0xFFFF
    }

    predicate Valid() {
      frame.Fits() && config.Validated() && Sendable() && sendTimestamp < U64
    }

    function Metadata(): FrameDiagnosticMetadata {
      if config.embedFrameMetadata then
        FrameDiagnosticMetadata(frame.sequence, frame.capture, frame.encodeStart, frame.encodeEnd, sendTimestamp)
      else NO_METADATA.(sequence := frame.sequence)
    }

    /** Where fragment `i` starts, and, for the count itself, where the frame ends. */
    function Cut(i: nat): (cut: nat)
      requires config.HasCapacity()
      ensures cut <= |frame.payload|
    {
      Min(i * Capacity(), |frame.payload|)
    }

    ghost function Cuts(): (cuts: seq<nat>)
      requires config.HasCapacity()
      ensures |cuts| == Count() + 1
    {
      seq(Count() + 1, i requires 0 <= i => Cut(i))
    }

    function DataHeader(i: nat): FragmentHeader
      requires Sendable()
    {
      FragmentHeader(Metadata(), |frame.payload|, i * Capacity(), i, Count(), DATA)
    }

    /** The payload bytes of fragment `i`. */
    function Body(i: nat): bytes
      requires Sendable()
    {
      CutsAscend(frame.payload, Capacity(), i);
      frame.payload[Cut(i)..Cut(i + 1)]
    }

    function DataDatagram(i: nat): bytes
      requires Sendable()
    {
      Wrap(frame.frameType, DataHeader(i), Body(i))
    }

    function DataDatagrams(): seq<bytes>
      requires Sendable()
    {
      seq(Count(), i requires 0 <= i => DataDatagram(i))
    }

    function ParityHeader(): FragmentHeader
      requires Sendable()
    {
      FragmentHeader(Metadata(), |frame.payload|, 0, 0, Count(), XOR_PARITY)
    }

    predicate HasParity()
      requires Sendable()
    {
      config.enableFec && Count() > 1
    }

    ghost function ParityBody(): bytes
      requires Sendable()
    {
      CutsTile(this);
      Parity(frame.payload, Cuts())
    }

    ghost function ParityDatagram(): bytes
      requires Sendable()
    {
      Wrap(frame.frameType, ParityHeader(), ParityBody())
    }

    /** Everything `SendFrameFragments` hands to the socket when no send fails. */
    ghost function Datagrams(): seq<bytes>
      requires Sendable()
    {
      DataDatagrams() + (if HasParity() then [ParityDatagram()] else [])
    }
  }

  /** Message header, fragment header and body; the casts to 16 and 32 bits are those of the encoders. */
  function Wrap(frameType: nat, header: FragmentHeader, body: bytes): (s: bytes)
    ensures |s| == DATAGRAM_OVERHEAD + |body|
  {
    EncodeMessageHeader(MessageHeader(MAGIC, AV_STREAM, frameType, FRAGMENT_HEADER_SIZE + |body|)) +
    EncodeFragmentHeader(header) + body
  }

  // ----- the fragments tile the payload

  lemma CutsAscend(payload: bytes, capacity: nat, i: nat)
    ensures Min(i * capacity, |payload|) <= Min((i + 1) * capacity, |payload|)
  {
    MulMonotone(i, i + 1, capacity);
  }

  lemma DivideUp(length: nat, capacity: nat)
    requires capacity > 0 && length > 0
    ensures var n := CountOf(length, capacity); (n - 1) * capacity < length <= n * capacity
  {
    var q := (length - 1) / capacity;
    assert length - 1 == q * capacity + (length - 1) % capacity;
    assert (q + 1) * capacity == q * capacity + capacity;
  }

  /** The cuts of a sent frame tile its payload, with no empty fragment unless the frame is empty. */
  lemma CutsTile(s: SentFrame)
    requires s.Sendable()
    ensures Tiling(s.Cuts(), |s.frame.payload|)
    ensures s.frame.payload != [] ==> NonEmptyFragments(s.Cuts())
    ensures forall i :: 0 <= i < s.Count() ==> s.Cuts()[i] == i * s.Capacity()
  {
    var cuts, c, n := s.Cuts(), s.Capacity(), |s.frame.payload|;
    var count := s.Count();
    if n > 0 {
      DivideUp(n, c);
    }
    forall i | 0 <= i < count
      ensures cuts[i] == i * c && (n > 0 ==> cuts[i] < n)
    {
      MulMonotone(i, count - 1, c);
    }
    forall i, j | 0 <= i <= j < |cuts|
      ensures cuts[i] <= cuts[j]
    {
      MulMonotone(i, j, c);
    }
    if n > 0 {
      forall i, j | 0 <= i < j < |cuts|
        ensures cuts[i] < cuts[j]
      {
        MulMonotone(i + 1, j, c);
        assert (i + 1) * c == i * c + c;
        if j == count {
          assert cuts[i] < n;
        }
      }
    }
  }

  lemma CutExact(s: SentFrame, i: nat)
    requires s.Sendable() && i < s.Count()
    ensures s.Cut(i) == i * s.Capacity()
    ensures s.Cut(i + 1) == Min(s.Cut(i) + s.Capacity(), |s.frame.payload|)
  {
    CutsTile(s);
    assert s.Cuts()[i] == s.Cut(i);
    assert (i + 1) * s.Capacity() == i * s.Capacity() + s.Capacity();
  }

  lemma CutEnds(s: SentFrame, i: nat)
    requires s.Sendable() && i < s.Count()
    ensures s.Cut(i) <= s.Cut(i + 1) <= s.Cut(s.Count()) == |s.frame.payload|
    ensures s.frame.payload != [] ==> s.Cut(i) < s.Cut(i + 1)
    ensures s.Cuts()[i] == s.Cut(i) && s.Cuts()[i + 1] == s.Cut(i + 1)
  {
    CutsTile(s);
    assert s.Cuts()[i] == s.Cut(i) && s.Cuts()[i + 1] == s.Cut(i + 1) && s.Cuts()[s.Count()] == s.Cut(s.Count());
  }

  lemma BodyIsFragment(s: SentFrame, i: nat)
    requires s.Sendable() && i < s.Count()
    ensures Tiling(s.Cuts(), |s.frame.payload|) && s.Body(i) == Fragment(s.frame.payload, s.Cuts(), i)
  {
    CutsTile(s);
  }

  /** No fragment is larger than the capacity. */
  lemma BodyFits(s: SentFrame, i: nat)
    requires s.Sendable()
    ensures |s.Body(i)| <= s.Capacity()
  {
    assert (i + 1) * s.Capacity() == i * s.Capacity() + s.Capacity();
  }

  /** Under a validated configuration every frame that is not refused fits the 32-bit size field. */
  lemma PayloadFits(s: SentFrame)
    requires s.Valid()
    ensures |s.frame.payload| < U32
  {
    var n, c := |s.frame.payload|, s.Capacity();
    if n > 0 {
      DivideUp(n, c);
      MulMonotone(s.Count(), 0xFFFF, c);
      assert 0xFFFF * c <= 0xFFFF * (65507 - DATAGRAM_OVERHEAD);
    }
  }

  lemma {:induction false} ParityLength(fs: seq<bytes>, limit: nat)
    requires forall i :: 0 <= i < |fs| ==> |fs[i]| <= limit
    ensures |XorFold([], fs)| <= limit
  {
    if fs != [] {
      ParityLength(fs[..|fs| - 1], limit);
    }
  }

  lemma ParityFits(s: SentFrame)
    requires s.Sendable()
    ensures |s.ParityBody()| <= s.Capacity()
  {
    CutsTile(s);
    var fs := Fragments(s.frame.payload, s.Cuts(), 0, s.Count());
    forall i | 0 <= i < |fs|
      ensures |fs[i]| <= s.Capacity()
    {
      BodyIsFragment(s, i);
      BodyFits(s, i);
    }
    ParityLength(fs, s.Capacity());
  }

  // ----- which frames are sent, and with what

  /** A frame is sent exactly when the limits leave room for a payload byte behind the 68 bytes of headers, and 65535
      fragments are enough for it. */
  lemma SendableExactly(s: SentFrame)
    ensures s.Sendable() <==>
      && s.config.targetPayloadSize > 68 && s.config.maxDatagramSize > 68
      && |s.frame.payload| <= 65535 * s.config.targetPayloadSize
      && |s.frame.payload| <= 65535 * (s.config.maxDatagramSize - 68)
  {
    if s.config.HasCapacity() && s.frame.payload != [] {
      DivideUp(|s.frame.payload|, s.Capacity());
      if s.Count() <= 65535 {
        MulMonotone(s.Count(), 65535, s.Capacity());
      } else {
        MulMonotone(65535, s.Count() - 1, s.Capacity());
      }
    }
  }

  /** It has a parity exactly when that is enabled and one fragment is not enough for it. */
  lemma HasParityExactly(s: SentFrame)
    requires s.Sendable()
    ensures s.HasParity() <==> s.config.enableFec && |s.frame.payload| > s.Capacity()
    ensures s.Datagrams() == s.DataDatagrams() + if s.HasParity() then [s.ParityDatagram()] else []
    ensures s.Capacity() <= s.config.targetPayloadSize && s.Capacity() + 68 <= s.config.maxDatagramSize
  {
    hide SentFrame.DataDatagram, SentFrame.ParityDatagram;
    if s.frame.payload != [] {
      DivideUp(|s.frame.payload|, s.Capacity());
      if s.Count() >= 2 {
        MulMonotone(1, s.Count() - 1, s.Capacity());
      }
    }
  }

  // ----- the bytes of a datagram

  /** The fields of a datagram by their offsets: the message header, then the fragment header from byte 12 on. */
  ghost predicate HasFields(d: bytes, s: SentFrame, offset: nat, index: nat, count: nat, role: nat, body: bytes) {
    var embedded := s.config.embedFrameMetadata;
    && |d| == 68 + |body| && d[..4] == [0x43, 0x43, 0x54, 0x43]
    && Field(d, 4, 2) == 1 && Field(d, 6, 2) == s.frame.frameType && Field(d, 8, 4) == 56 + |body|
    && Field(d, 12, 8) == s.frame.sequence
    && Field(d, 20, 8) == (if embedded then s.frame.capture else 0)
    && Field(d, 28, 8) == (if embedded then s.frame.encodeStart else 0)
    && Field(d, 36, 8) == (if embedded then s.frame.encodeEnd else 0)
    && Field(d, 44, 8) == (if embedded then s.sendTimestamp else 0)
    && Field(d, 52, 4) == |s.frame.payload| && Field(d, 56, 4) == offset
    && Field(d, 60, 2) == index && Field(d, 62, 2) == count && Field(d, 64, 2) == role && Field(d, 66, 2) == 0
    && d[68..] == body
  }

  lemma FragmentFields(d: bytes, f: FragmentHeader, body: bytes)
    requires |d| >= 12 && d[12..] == EncodeFragmentHeader(f) + body && f.Fits()
    ensures Field(d, 12, 8) == f.metadata.sequence && Field(d, 20, 8) == f.metadata.capture
    ensures Field(d, 28, 8) == f.metadata.encodeStart && Field(d, 36, 8) == f.metadata.encodeEnd
    ensures Field(d, 44, 8) == f.metadata.transportSend
    ensures Field(d, 52, 4) == f.framePayloadSize && Field(d, 56, 4) == f.fragmentOffset
    ensures Field(d, 60, 2) == f.fragmentIndex && Field(d, 62, 2) == f.fragmentCount
    ensures Field(d, 64, 2) == f.fragmentRole
    ensures Field(d, 66, 2) == 0 && d[68..] == body
  {
    hide EncodeFragmentHeader, Field;
    FragmentHeaderRoundTrip(f, body);
    FieldWithin(d, 12, 0, 8);
    FieldWithin(d, 12, 8, 8);
    FieldWithin(d, 12, 16, 8);
    FieldWithin(d, 12, 24, 8);
    FieldWithin(d, 12, 32, 8);
    FieldWithin(d, 12, 40, 4);
    FieldWithin(d, 12, 44, 4);
    FieldWithin(d, 12, 48, 2);
    FieldWithin(d, 12, 50, 2);
    FieldWithin(d, 12, 52, 2);
    FieldWithin(d, 12, 54, 2);
    ReservedField(f, body);
    assert d[68..] == d[12..][56..] == body;
  }

  lemma ReservedField(f: FragmentHeader, body: bytes)
    ensures Field(EncodeFragmentHeader(f) + body, 54, 2) == 0
  {
    hide EncodeMetadata;
    var d := EncodeFragmentHeader(f) + body;
    Pow256Values();
    LittleEndianRoundTrip(0, 2);
    assert d[54..56] == LittleEndian(0, 2);
  }

  lemma WrappedFields(s: SentFrame, f: FragmentHeader, body: bytes)
    requires s.frame.frameType < U16 && f.Fits() && 56 + |body| < U32
    ensures var d := Wrap(s.frame.frameType, f, body);
      && |d| == 68 + |body| && d[..4] == [0x43, 0x43, 0x54, 0x43]
      && Field(d, 4, 2) == 1 && Field(d, 6, 2) == s.frame.frameType && Field(d, 8, 4) == 56 + |body|
      && d[12..] == EncodeFragmentHeader(f) + body
  {
    hide EncodeFragmentHeader, EncodeMessageHeader, Field;
    var h := MessageHeader(MAGIC, AV_STREAM, s.frame.frameType, FRAGMENT_HEADER_SIZE + |body|);
    var rest := EncodeFragmentHeader(f) + body;
    assert Wrap(s.frame.frameType, f, body) == EncodeMessageHeader(h) + rest;
    MessageHeaderRoundTrip(h, rest);
  }

  /** A data datagram carries, each in its place, the frame's numbers and times and its piece of the payload. */
  lemma DataDatagramLayout(s: SentFrame, i: nat)
    requires s.Valid() && i < s.Count()
    ensures var c, n := s.Capacity(), |s.frame.payload|;
      && i * c <= n
      && HasFields(s.DataDatagram(i), s, i * c, i, s.Count(), 0, s.frame.payload[i * c..Min(i * c + c, n)])
  {
    hide CountOf, Wrap, Field, EncodeFragmentHeader;
    PayloadFits(s);
    CutExact(s, i);
    BodyFits(s, i);
    WrappedFields(s, s.DataHeader(i), s.Body(i));
    FragmentFields(s.DataDatagram(i), s.DataHeader(i), s.Body(i));
  }

  /** And so does the parity datagram, with the XOR of all pieces. */
  lemma ParityDatagramLayout(s: SentFrame)
    requires s.Valid()
    ensures HasFields(s.ParityDatagram(), s, 0, 0, s.Count(), 1, s.ParityBody())
  {
    hide CountOf, Wrap, Field, EncodeFragmentHeader, SentFrame.ParityBody;
    PayloadFits(s);
    ParityFits(s);
    WrappedFields(s, s.ParityHeader(), s.ParityBody());
    FragmentFields(s.ParityDatagram(), s.ParityHeader(), s.ParityBody());
  }

  /** No datagram is larger than the configuration allows, and no fragment than its target. */
  lemma DatagramsFit(s: SentFrame, d: bytes)
    requires s.Valid() && d in s.Datagrams()
    ensures |d| <= s.config.maxDatagramSize && |d| <= 68 + s.config.targetPayloadSize
  {
    hide CountOf, SentFrame.DataDatagram, SentFrame.ParityDatagram;
    var k :| 0 <= k < |s.Datagrams()| && s.Datagrams()[k] == d;
    if k < s.Count() {
      DatagramSizes(s, k);
    } else {
      ParitySize(s);
    }
  }

  lemma DatagramSizes(s: SentFrame, i: nat)
    requires s.Valid()
    ensures |s.DataDatagram(i)| <= 68 + s.Capacity()
  {
    hide CountOf;
    BodyFits(s, i);
  }

  lemma ParitySize(s: SentFrame)
    requires s.Valid()
    ensures |s.ParityDatagram()| <= 68 + s.Capacity()
  {
    hide CountOf;
    ParityFits(s);
  }
}
