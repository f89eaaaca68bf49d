/** In-order delivery of one frame's packets, from the first or from any later one. */
module RtpRoundTrip {
  import opened Bytes
  import opened Protocol
  import opened Frames
  import opened AnnexB
  import opened RtpPacketizer
  import opened RtpReceiver
  import opened RtpReassembly
  import opened RtpDelivery
  import opened UdpClientState

  datatype Trace = Trace(assembly: RtpAssembly, frames: seq<ReceivedFrame>)

  function Emitted(frame: Option<ReceivedFrame>): seq<ReceivedFrame> {
    if frame.Some? then [frame.value] else []
  }

  /** Packets `k`, `k + 1` and so on to the last one, with their send times and the receiver's clock. */
  ghost function InOrder(config: RtpConfig, a: RtpAssembly, s: RtpSent, k: nat, stamp: nat -> nat,
      now: nat -> nat): Trace
    requires s.max > 2 && k <= |s.Sent()|
    decreases |s.Sent()| - k
  {
    if k == |s.Sent()| then Trace(a, [])
    else
      var step := Receive(config, a, s.Datagram(k, stamp(k)), now(k));
      var rest := InOrder(config, step.assembly, s, k + 1, stamp, now);
      Trace(rest.assembly, Emitted(step.frame) + rest.frames)
  }

  /** The sender timestamps after packets `k` and following. */
  ghost function NoteAll(config: RtpConfig, l: SenderLatency, s: RtpSent, k: nat, stamp: nat -> nat): SenderLatency
    requires s.max > 2 && k <= |s.Sent()|
    decreases |s.Sent()| - k
  {
    if k == |s.Sent()| then l
    else NoteAll(config, if config.expectMetadata then Note(l, s.Timestamps(stamp(k))) else l, s, k + 1, stamp)
  }

  /** What the marker packet finds assembled when packets `k` and following meet the assembly `a`. */
  ghost function Assembled(config: RtpConfig, a: RtpAssembly, s: RtpSent, k: nat, stamp: nat -> nat): RtpAssembly
    requires s.max > 2 && k <= |s.Sent()|
  {
    RtpAssembly(true, s.timestamp, s.ssrc, (s.first + |s.Sent()|) % U16,
                Fold(a.body, s.Sent()[k..]), NoteAll(config, a.latency, s, k, stamp))
  }

  /** The assembly waits for packet `k` of `s`. */
  predicate Awaits(a: RtpAssembly, s: RtpSent, k: nat) {
    a.active && a.timestamp == s.timestamp && a.ssrc == s.ssrc && a.nextSequence == (s.first + k) % U16
  }

  lemma AcceptAwaited(config: RtpConfig, a: RtpAssembly, s: RtpSent, k: nat, stamp: nat, now: nat)
    requires s.max > 2 && k < |s.Sent()| && Awaits(a, s, k) && config.Accepts(s.Fields(k))
    ensures var after := a.(nextSequence := (s.first + k + 1) % U16, body := Depacketize(a.body, s.Sent()[k]),
                            latency := if config.expectMetadata then Note(a.latency, s.Timestamps(stamp))
                                       else a.latency);
      Taken(config, a, s, k, stamp, now) ==
      if k + 1 < |s.Sent()| then Step(after, None)
      else Step(INACTIVE, if after.Ready() then Some(Completed(config, after, now)) else None)
  {
    hide Depacketize, Payloads, Completed, Note, RtpConfig.Accepts;
    NextSequence(s.first + k);
  }

  lemma NextSequence(n: nat)
    ensures (n % U16 + 1) % U16 == (n + 1) % U16
  {
  }

  lemma LastAwaited(config: RtpConfig, a: RtpAssembly, s: RtpSent, k: nat, stamp: nat -> nat, now: nat -> nat)
    requires s.Valid() && k + 1 == |s.Sent()| && Awaits(a, s, k) && config.Accepts(s.Fields(k)) && stamp(k) < U64
    ensures var last := Assembled(config, a, s, k, stamp);
      InOrder(config, a, s, k, stamp, now) ==
        Trace(INACTIVE, if last.Ready() then [Completed(config, last, now(k))] else [])
  {
    hide RtpSent.Sent, Depacketize, Completed, Note, RtpConfig.Accepts, Taken, Receive, RtpAssembly.Ready,
        RtpSent.Datagram, RtpSent.Timestamps;
    ReceivedIsTaken(config, a, s, k, stamp(k), now(k));
    AcceptAwaited(config, a, s, k, stamp(k), now(k));
    var ps := s.Sent();
    FoldHead(a.body, ps[k..]);
    assert ps[k..][0] == ps[k] && ps[k..][1..] == ps[k + 1..] == [];
    FoldNothing(Depacketize(a.body, ps[k]));
    var step := Receive(config, a, s.Datagram(k, stamp(k)), now(k));
    assert InOrder(config, step.assembly, s, k + 1, stamp, now) == Trace(step.assembly, []);
    assert Emitted(step.frame) + [] == Emitted(step.frame);
    var latency := if config.expectMetadata then Note(a.latency, s.Timestamps(stamp(k))) else a.latency;
    assert NoteAll(config, latency, s, k + 1, stamp) == latency;
  }

  lemma {:induction false} InOrderAwaited(config: RtpConfig, a: RtpAssembly, s: RtpSent, k: nat, stamp: nat -> nat,
      now: nat -> nat)
    requires s.Valid() && k < |s.Sent()| && Awaits(a, s, k) && config.Accepts(s.Fields(k)) && forall i :: stamp(i) < U64
    ensures var last := Assembled(config, a, s, k, stamp);
      InOrder(config, a, s, k, stamp, now)
      == Trace(INACTIVE, if last.Ready() then [Completed(config, last, now(|s.Sent()| - 1))] else [])
    decreases |s.Sent()| - k
  {
    hide RtpSent.Sent, Depacketize, Completed, Note, RtpConfig.Accepts, Taken, Receive, RtpAssembly.Ready,
        RtpSent.Datagram, RtpSent.Timestamps;
    if k + 1 == |s.Sent()| {
      LastAwaited(config, a, s, k, stamp, now);
    } else {
      ReceivedIsTaken(config, a, s, k, stamp(k), now(k));
      AcceptAwaited(config, a, s, k, stamp(k), now(k));
      var ps := s.Sent();
      FoldHead(a.body, ps[k..]);
      assert ps[k..][0] == ps[k] && ps[k..][1..] == ps[k + 1..];
      AcceptedAlike(config, s, k);
      InOrderAwaited(config, Receive(config, a, s.Datagram(k, stamp(k)), now(k)).assembly, s, k + 1, stamp, now);
    }
  }

  lemma AcceptedAlike(config: RtpConfig, s: RtpSent, k: nat)
    requires s.max > 2 && config.Accepts(s.Fields(k))
    ensures config.Accepts(s.Fields(k + 1))
  {
  }

  /** The client takes the frame's payload type, any type when its own is negative, and is not already assembling a
      frame with the same timestamp from the same source. */
  ghost predicate TakesAnew(config: RtpConfig, a: RtpAssembly, s: RtpSent) {
    && (config.payloadType < 0 || config.payloadType % 256 == s.payloadType)
    && !(a.active && a.timestamp == s.timestamp && a.ssrc == s.ssrc)
  }

  lemma TakesAnewMeans(config: RtpConfig, a: RtpAssembly, s: RtpSent, k: nat)
    requires s.Valid()
    ensures TakesAnew(config, a, s) <==> !a.Follows(s.Fields(k)) && config.Accepts(s.Fields(k))
  {
    hide RtpSent.Sent;
  }

  /** Packets `k` to the last in order, met by a receiver not on this frame: the client ends up idle, and has
      emitted the frame assembled from them if and only if that is neither empty nor damaged nor cut short. */
  lemma {:induction false} DeliveredInOrder(config: RtpConfig, a: RtpAssembly, s: RtpSent, k: nat, stamp: nat -> nat,
      now: nat -> nat)
    requires s.Valid() && k < |s.Sent()| && TakesAnew(config, a, s)
    requires forall i :: stamp(i) < U64
    ensures var last := Assembled(config, INACTIVE, s, k, stamp);
      InOrder(config, a, s, k, stamp, now)
      == Trace(INACTIVE, if last.Ready() then [Completed(config, last, now(|s.Sent()| - 1))] else [])
  {
    hide Payloads, Depacketize, Completed, Note, RtpConfig.Accepts, Receive, RtpAssembly.Ready, RtpSent.Datagram,
        RtpSent.Timestamps, Fold, NoteAll;
    TakesAnewMeans(config, a, s, k);
    var begun := RtpAssembly(true, s.timestamp, s.ssrc, (s.first + k) % U16, EMPTY_BODY, NO_LATENCY);
    StartsAfresh(config, a, begun, s, k, stamp(k), now(k));
    ReceivedIsTaken(config, a, s, k, stamp(k), now(k));
    ReceivedIsTaken(config, begun, s, k, stamp(k), now(k));
    InOrderAwaited(config, begun, s, k, stamp, now);
  }

  lemma StartsAfresh(config: RtpConfig, a: RtpAssembly, begun: RtpAssembly, s: RtpSent, k: nat, stamp: nat, now: nat)
    requires s.max > 2 && k < |s.Sent()| && !a.Follows(s.Fields(k)) && config.Accepts(s.Fields(k))
    requires begun == RtpAssembly(true, s.timestamp, s.ssrc, (s.first + k) % U16, EMPTY_BODY, NO_LATENCY)
    ensures Taken(config, a, s, k, stamp, now) == Taken(config, begun, s, k, stamp, now)
  {
    hide Payloads, Depacketize, Completed, Note, RtpConfig.Accepts;
    assert begun.Seen(s.Fields(k)) == a.Seen(s.Fields(k));
  }

  /** One frame and no other: these NAL units, under this timestamp. */
  predicate OneFrameOf(frames: seq<ReceivedFrame>, nals: seq<bytes>, timestamp: nat) {
    |frames| == 1 && frames[0].payload == Join(nals) && frames[0].metadata.sequence == timestamp
  }

  /** The round trip: from the first packet on, across any wrap of the sequence numbers, the client emits one
      frame holding exactly the NAL units sent, if and only if every NAL unit that fits one packet has a type from 1
      to 23. */
  lemma {:induction false} RoundTrip(config: RtpConfig, a: RtpAssembly, s: RtpSent, stamp: nat -> nat, now: nat -> nat)
    requires s.Valid() && TakesAnew(config, a, s) && forall i :: stamp(i) < U64
    ensures s.Sent() != []
    ensures OneFrameOf(InOrder(config, a, s, 0, stamp, now).frames, s.nals, s.timestamp)
            <==> forall nal :: nal in s.nals && |nal| <= s.max ==> 1 <= nal[0] as nat % 32 <= 23
  {
    hide Payloads, Depacketize, Note, RtpConfig.Accepts, InOrder, NoteAll, Fold, NalType;
    TakesAnewMeans(config, a, s, 0);
    PayloadsFit(s.nals, s.max);
    DeliveredInOrder(config, a, s, 0, stamp, now);
    RestoredExactly(s.nals, s.max);
    assert s.Sent()[0..] == s.Sent();
    assert Join(s.nals) != [] by { JoinNonEmpty(s.nals); }
    CarriedExactly(s);
  }

  lemma CarriedExactly(s: RtpSent)
    requires s.Valid()
    ensures AllCarried(s.nals, s.max) <==>
      forall nal :: nal in s.nals && |nal| <= s.max ==> 1 <= nal[0] as nat % 32 <= 23
  {
  }

  lemma JoinNonEmpty(nals: seq<bytes>)
    requires nals != []
    ensures Join(nals) != []
  {
  }

  /** What comes out splits into the NAL units of what went in. */
  lemma SameNalus(payload: bytes, received: bytes)
    requires received == Join(Nalus(payload))
    ensures Nalus(received) == Nalus(payload)
  {
    SplitIsStable(payload);
  }

  /** From a frame to the packets `Packetize` makes of it, over the wire with any send times, and back: the frame
      the client emits splits into the NAL units of the frame that was sent. */
  lemma {:induction false} FrameRoundTrip(config: RtpConfig, a: RtpAssembly, p: RtpPacketizer, frame: EncodedFrame,
      first: nat, stamp: nat -> nat, now: nat -> nat)
    requires p.payloadType < 128 && p.ssrc < U32 && p.maxPayloadSize > 2 && first < U16 && frame.Fits()
    requires Nalus(frame.payload) != []
    requires forall nal :: nal in Nalus(frame.payload) && nal != [] && |nal| <= p.maxPayloadSize ==>
      1 <= nal[0] as nat % 32 <= 23
    requires var s := SentBy(p, frame, first); TakesAnew(config, a, s)
    requires forall i :: stamp(i) < U64
    ensures var s := SentBy(p, frame, first);
      && s.OnStream().Packets(s.Sent(), true, first)
         == p.StreamOf(frame).Packets(Payloads(Nalus(frame.payload), p.maxPayloadSize), true, first)
      && OneFrameOf(InOrder(config, a, s, 0, stamp, now).frames, Nalus(frame.payload), s.timestamp)
      && Nalus(InOrder(config, a, s, 0, stamp, now).frames[0].payload) == Nalus(frame.payload)
  {
    hide Nalus, InOrder, Payloads, RtpConfig.Accepts, BuildTimestamp, NalType;
    PacketizedIsSent(p, frame, first);
    RoundTrip(config, a, SentBy(p, frame, first), stamp, now);
    SameNalus(frame.payload, Join(Nalus(frame.payload)));
  }

  /** From the first packet of a NAL unit on, nothing is damaged. */
  lemma BeginningRestored(s: RtpSent, i: nat)
    requires s.Valid() && AllCarried(s.nals, s.max) && i < |s.nals|
    ensures var from := |Payloads(s.nals[..i], s.max)|;
      from < |s.Sent()| && Fold(EMPTY_BODY, s.Sent()[from..]) == Body(Join(s.nals[i..]), false, false)
  {
    hide Payloads, Fold, Carried, Join;
    var before, after := s.nals[..i], s.nals[i..];
    assert s.nals == before + after;
    PayloadsConcat(before, after, s.max);
    assert forall nal :: nal in after ==> nal in s.nals;
    PayloadsFit(after, s.max);
    assert s.Sent()[|Payloads(before, s.max)|..] == Payloads(after, s.max);
    CarriedNals(after, s.max, EMPTY_BODY);
    assert [] + Join(after) == Join(after);
  }

  /** The loss of the head of a frame, up to any NAL unit, goes unnoticed: the NAL units from there on are
      emitted as a frame of their own. */
  lemma {:induction false} HeadLossIsUnnoticed(config: RtpConfig, a: RtpAssembly, s: RtpSent, i: nat,
      stamp: nat -> nat, now: nat -> nat)
    requires s.Valid() && AllCarried(s.nals, s.max) && i < |s.nals| && forall n :: stamp(n) < U64
    requires TakesAnew(config, a, s)
    ensures var from := |Payloads(s.nals[..i], s.max)|;
      && from < |s.Sent()|
      && InOrder(config, a, s, from, stamp, now).assembly == INACTIVE
      && OneFrameOf(InOrder(config, a, s, from, stamp, now).frames, s.nals[i..], s.timestamp)
  {
    hide Payloads, Depacketize, Note, InOrder, NoteAll, Fold, Carried, Join;
    TakesAnewMeans(config, a, s, 0);
    var from := |Payloads(s.nals[..i], s.max)|;
    BeginningRestored(s, i);
    DeliveredInOrder(config, a, s, from, stamp, now);
    JoinNonEmpty(s.nals[i..]);
  }

  /** Only the whole list of NAL units joins to the whole frame, and only it begins with packet 0. */
  lemma SuffixIsWhole(nals: seq<bytes>, max: nat, i: nat)
    requires max > 2 && i < |nals| && forall nal :: nal in nals ==> nal != []
    ensures Join(nals[i..]) == Join(nals) <==> i == 0
    ensures |Payloads(nals[..i], max)| == 0 <==> i == 0
  {
    hide Payloads, Join;
    var before, after := nals[..i], nals[i..];
    assert nals == before + after;
    JoinConcat(before, after);
    forall nal | nal in before
      ensures nal != []
    {
      assert nal in nals;
    }
    PayloadsFit(before, max);
    if i > 0 {
      JoinNonEmpty(before);
    } else {
      NothingToSend(max);
      assert after == nals;
    }
  }

  lemma NothingToSend(max: nat)
    requires max > 2
    ensures Payloads([], max) == []
  {
  }

  /** Packet `k` is the first one of a NAL unit. */
  ghost predicate BeginsNal(s: RtpSent, k: nat)
    requires s.max > 2
  {
    exists i: nat :: i < |s.nals| && k == |Payloads(s.nals[..i], s.max)|
  }

  /** Packets `k` to the last in order: a frame is emitted if and only if packet `k` begins a NAL unit, and it is the
      frame that was sent if and only if `k` is 0. */
  lemma {:induction false} WholeExactly(config: RtpConfig, a: RtpAssembly, s: RtpSent, k: nat, stamp: nat -> nat,
      now: nat -> nat)
    requires s.Valid() && AllCarried(s.nals, s.max) && k < |s.Sent()| && forall n :: stamp(n) < U64
    requires TakesAnew(config, a, s)
    ensures var frames := InOrder(config, a, s, k, stamp, now).frames;
      && (frames != [] <==> BeginsNal(s, k))
      && (OneFrameOf(frames, s.nals, s.timestamp) <==> k == 0)
  {
    hide Payloads, Depacketize, Note, InOrder, NoteAll, Fold, Carried, Join, RtpConfig.Accepts;
    TakesAnewMeans(config, a, s, k);
    var frames := InOrder(config, a, s, k, stamp, now).frames;
    DeliveredInOrder(config, a, s, k, stamp, now);
    var j := SuffixRestored(s.nals, s.max, k);
    var r := Fold(EMPTY_BODY, s.Sent()[k..]);
    if !r.damaged {
      SuffixIsWhole(s.nals, s.max, j);
      JoinNonEmpty(s.nals[j..]);
    }
    if i: nat :| i < |s.nals| && k == |Payloads(s.nals[..i], s.max)| {
      BeginningRestored(s, i);
    }
    SuffixIsWhole(s.nals, s.max, 0);
  }

  // ----- the sender's timestamps

  lemma {:induction false} RejectedStays(config: RtpConfig, l: SenderLatency, s: RtpSent, k: nat, stamp: nat -> nat)
    requires s.max > 2 && k <= |s.Sent()| && l.invalid
    ensures NoteAll(config, l, s, k, stamp) == l
    decreases |s.Sent()| - k
  {
    hide RtpSent.Sent, RtpSent.Timestamps;
    if k < |s.Sent()| {
      RejectedStays(config, l, s, k + 1, stamp);
    }
  }

  /** The timestamps of the packets from `k` on can be used. */
  ghost predicate Usable(s: RtpSent, k: nat, stamp: nat -> nat)
    requires s.max > 2
  {
    s.capture.Some? && s.capture.value != 0 && forall i :: k <= i < |s.Sent()| ==> stamp(i) != 0
  }

  lemma {:induction false} NoteAllExactly(config: RtpConfig, l: SenderLatency, s: RtpSent, k: nat, stamp: nat -> nat)
    requires s.max > 2 && k < |s.Sent()| && config.expectMetadata
    requires l == NO_LATENCY || (l.available && !l.invalid && Some(l.capture) == s.capture)
    ensures var r := NoteAll(config, l, s, k, stamp);
      if Usable(s, k, stamp) then r == SenderLatency(s.capture.value, stamp(|s.Sent()| - 1), true, false)
      else !r.available
    decreases |s.Sent()| - k
  {
    hide RtpSent.Sent;
    var next := Note(l, s.Timestamps(stamp(k)));
    if next.invalid {
      RejectedStays(config, next, s, k + 1, stamp);
    } else if k + 1 < |s.Sent()| {
      NoteAllExactly(config, next, s, k + 1, stamp);
    }
  }

  /** An emitted frame carries the sender's capture time and its last packet's send time exactly when the
      client expects them and every packet had both. */
  lemma {:induction false} LatencyTravels(config: RtpConfig, a: RtpAssembly, s: RtpSent, k: nat, stamp: nat -> nat,
      now: nat -> nat, f: ReceivedFrame)
    requires s.Valid() && k < |s.Sent()| && TakesAnew(config, a, s)
    requires forall i :: stamp(i) < U64
    requires f in InOrder(config, a, s, k, stamp, now).frames
    ensures f.senderMetadataAvailable <==> config.expectMetadata && Usable(s, k, stamp)
    ensures f.senderMetadataAvailable ==>
              Some(f.metadata.capture) == s.capture && f.metadata.transportSend == stamp(|s.Sent()| - 1)
  {
    hide RtpSent.Sent, Depacketize, Note, RtpConfig.Accepts, InOrder, Fold, NoteAll;
    TakesAnewMeans(config, a, s, k);
    DeliveredInOrder(config, a, s, k, stamp, now);
    if config.expectMetadata {
      NoteAllExactly(config, NO_LATENCY, s, k, stamp);
    }
  }
}
