/** Safety of the RTP receiver when the network drops, repeats and reorders the packets of many frames. */
module RtpSafety {
  import opened Bytes
  import opened Protocol
  import opened AnnexB
  import opened RtpProtocol
  import opened RtpPacketizer
  import opened RtpReceiver
  import opened RtpReassembly
  import opened RtpDelivery
  import opened RtpRoundTrip
  import opened UdpClientState

  /** Packet `packet` of frame `frame` reaches the client, stamped with its send time. */
  datatype Delivery = Delivery(frame: nat, packet: nat, stamp: nat, now: nat)

  ghost predicate Deliverable(sents: seq<RtpSent>, v: Delivery) {
    v.frame < |sents| && sents[v.frame].Valid() && v.packet < |sents[v.frame].Sent()| && v.stamp < U64
  }

  ghost predicate AllDeliverable(sents: seq<RtpSent>, vs: seq<Delivery>) {
    forall k :: 0 <= k < |vs| ==> Deliverable(sents, vs[k])
  }

  /** The frames of one source differ in their timestamps. */
  ghost predicate Distinct(sents: seq<RtpSent>) {
    forall i, j :: 0 <= i < j < |sents| ==> sents[i].timestamp != sents[j].timestamp || sents[i].ssrc != sents[j].ssrc
  }

  /** No frame has more packets than there are sequence numbers, and RTP carries its NAL units. */
  ghost predicate Sendable(s: RtpSent) {
    s.Valid() && |s.Sent()| <= U16 && AllCarried(s.nals, s.max)
  }

  // ----- runs

  /** A frame handed out, and the delivery that began the assembly it came from. */
  datatype Emission = Emission(frame: ReceivedFrame, first: Delivery)

  datatype Progress = Progress(assembly: RtpAssembly, first: Delivery, emissions: seq<Emission>)

  const NO_DELIVERY := Delivery(0, 0, 0, 0)

  /** The datagram begins a new assembly. */
  ghost predicate Begins(config: RtpConfig, a: RtpAssembly, data: bytes) {
    var p := ParseRtpHeader(data);
    p.Some? && |data| > p.value.headerSize && config.Accepts(p.value.fields) && !a.Follows(p.value.fields)
  }

  /** What the client has after any deliveries, starting idle. */
  ghost function Run(config: RtpConfig, sents: seq<RtpSent>, vs: seq<Delivery>): Progress
    requires AllDeliverable(sents, vs)
    decreases |vs|
  {
    if vs == [] then Progress(INACTIVE, NO_DELIVERY, [])
    else
      var last := vs[|vs| - 1];
      Received(config, Run(config, sents, vs[..|vs| - 1]), last, sents[last.frame].Datagram(last.packet, last.stamp))
  }

  ghost function Received(config: RtpConfig, before: Progress, v: Delivery, data: bytes): Progress {
    var step := Receive(config, before.assembly, data, v.now);
    var first := if Begins(config, before.assembly, data) then v else before.first;
    Progress(step.assembly, first,
             before.emissions + if step.frame.Some? then [Emission(step.frame.value, first)] else [])
  }

  // ----- suffixes

  /** The frame is the Annex B join of the NAL units of `s` from `from` on, the first of which packet `packet`
      begins; it is all of them if and only if that is packet 0. */
  ghost predicate SuffixFrom(s: RtpSent, packet: nat, from: nat, f: ReceivedFrame) {
    && s.max > 2 && from < |s.nals| && packet == |Payloads(s.nals[..from], s.max)|
    && f.payload == Join(s.nals[from..]) && (f.payload == Join(s.nals) <==> packet == 0)
    && f.metadata.sequence == s.timestamp && (f.senderMetadataAvailable ==> s.capture == Some(f.metadata.capture))
  }

  /** The frame is such a suffix of the frame, and from the packet, of the delivery that began its assembly. */
  ghost predicate IsSuffix(sents: seq<RtpSent>, e: Emission) {
    e.first.frame < |sents| && exists from: nat :: SuffixFrom(sents[e.first.frame], e.first.packet, from, e.frame)
  }

  ghost predicate AllSuffixes(sents: seq<RtpSent>, emissions: seq<Emission>) {
    forall e :: e in emissions ==> IsSuffix(sents, e)
  }

  /** The assembly is what packets `from` to `to` of `s`, and nothing else, make of an empty one. */
  ghost predicate Holds(s: RtpSent, a: RtpAssembly, from: nat, to: nat) {
    && s.max > 2 && from <= to < |s.Sent()| && Awaits(a, s, to) && a.body == Fold(EMPTY_BODY, s.Sent()[from..to])
    && (a.latency.available ==> s.capture == Some(a.latency.capture))
  }

  /** An undamaged assembly holds packets of the frame, and from the packet, of the delivery that began it. */
  ghost predicate Tracks(sents: seq<RtpSent>, a: RtpAssembly, first: Delivery) {
    a.active && !a.body.damaged ==>
      first.frame < |sents| && exists to: nat :: Holds(sents[first.frame], a, first.packet, to)
  }

  lemma Advance(config: RtpConfig, sents: seq<RtpSent>, first: Delivery, a: RtpAssembly, k: nat, stamp: nat, now: nat)
    requires first.frame < |sents| && Sendable(sents[first.frame]) && Holds(sents[first.frame], a, first.packet, k)
    requires config.Accepts(sents[first.frame].Fields(k))
    ensures var step := Taken(config, a, sents[first.frame], k, stamp, now);
      && Tracks(sents, step.assembly, first)
      && (step.frame.Some? ==> IsSuffix(sents, Emission(step.frame.value, first)))
  {
    hide RtpSent.Sent, Fold, Depacketize, Taken, RtpConfig.Accepts, AllCarried;
    var s, from := sents[first.frame], first.packet;
    var ps := s.Sent();
    AcceptAwaited(config, a, s, k, stamp, now);
    var latency := if config.expectMetadata then Note(a.latency, s.Timestamps(stamp)) else a.latency;
    var after := a.(nextSequence := (s.first + k + 1) % U16, body := Depacketize(a.body, ps[k]), latency := latency);
    assert ps[from..k + 1] == ps[from..k] + [ps[k]];
    FoldConcat(EMPTY_BODY, ps[from..k], [ps[k]]);
    FoldOne(a.body, ps[k]);
    if k + 1 < |ps| {
      assert Holds(s, after, from, k + 1);
    } else if after.Ready() {
      assert ps[from..k + 1] == ps[from..];
      var j := LastPacket(s, from);
      assert SuffixFrom(s, from, j, Completed(config, after, now));
    }
  }

  lemma LastPacket(s: RtpSent, from: nat) returns (j: nat)
    requires Sendable(s) && from < |s.Sent()|
    ensures var r := Fold(EMPTY_BODY, s.Sent()[from..]);
      !r.damaged ==>
        && j < |s.nals| && from == |Payloads(s.nals[..j], s.max)|
        && r.payload == Join(s.nals[j..]) && (r.payload == Join(s.nals) <==> from == 0)
  {
    hide Fold, Payloads, Join;
    j := SuffixRestored(s.nals, s.max, from);
    if !Fold(EMPTY_BODY, s.Sent()[from..]).damaged {
      SuffixIsWhole(s.nals, s.max, j);
    }
  }

  lemma SequenceNamesPacket(s: RtpSent, j: nat, k: nat)
    requires s.max > 2 && |s.Sent()| <= U16 && j < |s.Sent()| && k < |s.Sent()|
    requires (s.first + j) % U16 == (s.first + k) % U16
    ensures j == k
  {
    Residues(s.first + j, s.first + k);
  }

  lemma Residues(a: nat, b: nat)
    requires a % U16 == b % U16 && a < b + U16 && b < a + U16
    ensures a == b
  {
  }

  /** A damaged assembly emits nothing and stays damaged until it is begun anew. */
  lemma DamagedEmitsNothing(config: RtpConfig, a: RtpAssembly, s: RtpSent, k: nat, stamp: nat, now: nat)
    requires s.max > 2 && k < |s.Sent()| && config.Accepts(s.Fields(k)) && a.Seen(s.Fields(k)).body.damaged
    ensures var step := Taken(config, a, s, k, stamp, now);
      step.frame.None? && (step.assembly == INACTIVE || step.assembly.body.damaged)
  {
    hide RtpSent.Sent, Depacketize, Note, RtpConfig.Accepts, RtpAssembly.Seen;
    DamageStaysOnce(a.Seen(s.Fields(k)).body, s.Sent()[k]);
  }

  lemma BeginsExactly(config: RtpConfig, a: RtpAssembly, s: RtpSent, k: nat, stamp: nat)
    requires s.Valid() && k < |s.Sent()| && stamp < U64
    ensures Begins(config, a, s.Datagram(k, stamp)) <==> config.Accepts(s.Fields(k)) && !a.Follows(s.Fields(k))
  {
    hide ParseRtpHeader, RtpSent.Datagram, RtpSent.Sent, RtpSent.Fields, RtpConfig.Accepts, RtpAssembly.Follows;
    DatagramRead(s, k, stamp);
  }

  lemma StepTracks(config: RtpConfig, sents: seq<RtpSent>, before: Progress, v: Delivery)
    requires Distinct(sents) && Deliverable(sents, v) && (forall i :: 0 <= i < |sents| ==> Sendable(sents[i]))
    requires Tracks(sents, before.assembly, before.first)
    ensures var after := Received(config, before, v, sents[v.frame].Datagram(v.packet, v.stamp));
      && Tracks(sents, after.assembly, after.first)
      && (AllSuffixes(sents, before.emissions) ==> AllSuffixes(sents, after.emissions))
  {
    hide RtpSent.Sent, Fold, Receive, RtpSent.Datagram, Accept, RtpConfig.Accepts, AllCarried, IsSuffix, Sendable,
        RtpSent.Timestamps, Begins;
    var a, s, k := before.assembly, sents[v.frame], v.packet;
    ReceivedIsTaken(config, a, s, k, v.stamp, v.now);
    BeginsExactly(config, a, s, k, v.stamp);
    if config.Accepts(s.Fields(k)) {
      var f := s.Fields(k);
      if a.Seen(f).body.damaged {
        DamagedEmitsNothing(config, a, s, k, v.stamp, v.now);
      } else if !a.Follows(f) {
        var begun := RtpAssembly(true, s.timestamp, s.ssrc, (s.first + k) % U16, EMPTY_BODY, NO_LATENCY);
        StartsAfresh(config, a, begun, s, k, v.stamp, v.now);
        assert s.Sent()[k..k] == [];
        FoldNothing(EMPTY_BODY);
        Advance(config, sents, v, begun, k, v.stamp, v.now);
      } else {
        var first := before.first;
        var to :| 0 <= to && Holds(sents[first.frame], a, first.packet, to);
        assert first.frame == v.frame;
        SendableCounts(s);
        SequenceNamesPacket(s, to, k);
        Advance(config, sents, first, a, k, v.stamp, v.now);
      }
    }
  }

  lemma SendableCounts(s: RtpSent)
    requires Sendable(s)
    ensures |s.Sent()| <= U16
  {
  }

  lemma {:induction false} RunTracks(config: RtpConfig, sents: seq<RtpSent>, vs: seq<Delivery>)
    requires Distinct(sents) && (forall i :: 0 <= i < |sents| ==> Sendable(sents[i]))
    requires AllDeliverable(sents, vs)
    ensures var r := Run(config, sents, vs);
      Tracks(sents, r.assembly, r.first) && AllSuffixes(sents, r.emissions)
    decreases |vs|
  {
    hide IsSuffix, Received, Sendable, Distinct, Deliverable, RtpSent.Datagram;
    if vs != [] {
      var last := vs[|vs| - 1];
      assert last.frame < |sents| by { DeliverableFrame(sents, last); }
      RunTracks(config, sents, vs[..|vs| - 1]);
      StepTracks(config, sents, Run(config, sents, vs[..|vs| - 1]), last);
    }
  }

  lemma DeliverableFrame(sents: seq<RtpSent>, v: Delivery)
    requires Deliverable(sents, v)
    ensures v.frame < |sents|
  {
  }

  /** Whatever the network loses, repeats or reorders, every RTP frame the client emits is the Annex B join of a
      non-empty suffix of one sent frame's NAL units, under that frame's timestamp: no NAL unit is cut short,
      no two frames are spliced. It is the whole frame if and only if its assembly began with packet 0. Its
      capture time, when given, is that frame's. */
  lemma {:induction false} EveryRtpFrameIsASuffix(config: RtpConfig, sents: seq<RtpSent>, vs: seq<Delivery>)
    requires Distinct(sents) && (forall i :: 0 <= i < |sents| ==> Sendable(sents[i]))
    requires AllDeliverable(sents, vs)
    ensures AllSuffixes(sents, Run(config, sents, vs).emissions)
  {
    hide Received, Sendable, Distinct, Deliverable, IsSuffix;
    RunTracks(config, sents, vs);
  }
}
