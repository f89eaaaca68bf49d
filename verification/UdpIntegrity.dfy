/** Whatever the network drops, repeats or reorders, a completed frame is the frame that was sent. */
module UdpIntegrity {
  import opened Bytes
  import opened Protocol
  import opened UdpSenderSpec
  import opened UdpClientState
  import opened UdpClientSpec
  import opened UdpRecovery
  import opened UdpEmission

  // ----- what genuine datagrams parse to

  lemma DataParses(s: SentFrame, i: nat)
    requires s.Valid() && i < s.Count()
    ensures Parse(s.DataDatagram(i)) ==
      Fragment(MessageHeader(MAGIC, AV_STREAM, s.frame.frameType, FRAGMENT_HEADER_SIZE + |s.Body(i)|),
               s.DataHeader(i), s.Body(i))
  {
    hide CountOf;
    PayloadFits(s);
    CutExact(s, i);
    WrappedParses(s.frame.frameType, s.DataHeader(i), s.Body(i));
  }

  lemma ParityParses(s: SentFrame)
    requires s.Valid()
    ensures Parse(s.ParityDatagram()) ==
      Fragment(MessageHeader(MAGIC, AV_STREAM, s.frame.frameType, FRAGMENT_HEADER_SIZE + |s.ParityBody()|),
               s.ParityHeader(), s.ParityBody())
  {
    hide CountOf, SentFrame.ParityBody;
    PayloadFits(s);
    ParityFits(s);
    WrappedParses(s.frame.frameType, s.ParityHeader(), s.ParityBody());
  }

  lemma WrappedParses(frameType: nat, f: FragmentHeader, body: bytes)
    requires frameType < U16 && f.Fits() && FRAGMENT_HEADER_SIZE + |body| < U32
    requires f.fragmentCount > 0 && f.fragmentRole <= XOR_PARITY
    requires f.fragmentRole == DATA ==>
      f.fragmentIndex < f.fragmentCount && f.fragmentOffset + |body| <= f.framePayloadSize
    ensures Parse(Wrap(frameType, f, body)) ==
      Fragment(MessageHeader(MAGIC, AV_STREAM, frameType, FRAGMENT_HEADER_SIZE + |body|), f, body)
  {
    hide DecodeMessageHeader, DecodeFragmentHeader, EncodeMessageHeader, EncodeFragmentHeader;
    var h := MessageHeader(MAGIC, AV_STREAM, frameType, FRAGMENT_HEADER_SIZE + |body|);
    var data, rest := Wrap(frameType, f, body), EncodeFragmentHeader(f) + body;
    assert data == EncodeMessageHeader(h) + rest;
    MessageHeaderRoundTrip(h, rest);
    assert data[MESSAGE_HEADER_SIZE..] == rest;
    FragmentHeaderRoundTrip(f, body);
    assert data[DATAGRAM_OVERHEAD..] == body;
  }

  // ----- assemblies that hold what was sent

  function ExpectedMetadata(cfg: ClientConfig, s: SentFrame): FrameDiagnosticMetadata {
    if cfg.expectMetadata then s.Metadata() else NO_METADATA.(sequence := s.frame.sequence)
  }

  /** The assembly belongs to the sent frame: layout, metadata, received slots and parity are the sender's. */
  ghost predicate Matches(cfg: ClientConfig, s: SentFrame, a: Assembly)
    requires s.Sendable() && a.WellFormed()
  {
    CutsTile(s);
    && Holds(s.frame.payload, s.Cuts(), a)
    && a.metadata == ExpectedMetadata(cfg, s)
    && (a.hasFec ==> a.fecPayload == s.ParityBody())
  }

  lemma NewMatches(cfg: ClientConfig, s: SentFrame, header: MessageHeader, f: FragmentHeader, now: nat)
    requires s.Sendable() && f.metadata == s.Metadata() && f.fragmentCount == s.Count()
    requires f.framePayloadSize == |s.frame.payload|
    ensures Matches(cfg, s, NewAssembly(cfg, header, f, now))
  {
    hide CountOf;
  }

  lemma ParityMatches(cfg: ClientConfig, s: SentFrame, a: Assembly, now: nat)
    requires s.Sendable() && a.WellFormed() && Matches(cfg, s, a)
    ensures Matches(cfg, s, StoreParity(cfg, a, s.ParityBody(), now))
  {
    hide SentFrame.ParityBody, SentFrame.Cuts, CountTrue, CountOf;
    CutsTile(s);
    var r := StoreParity(cfg, a, s.ParityBody(), now);
    forall i: nat | i < |r.received| && r.received[i]
      ensures SlotHolds(s.frame.payload, s.Cuts(), r, i)
    {
      assert SlotHolds(s.frame.payload, s.Cuts(), a, i);
    }
  }

  lemma DataMatches(cfg: ClientConfig, s: SentFrame, a: Assembly, i: nat, now: nat)
    requires s.Sendable() && a.WellFormed() && Matches(cfg, s, a) && i < s.Count()
    ensures SameLayout(a, s.DataHeader(i)) && s.DataHeader(i).fragmentOffset + |s.Body(i)| <= |s.frame.payload|
    ensures Matches(cfg, s, StoreData(a, s.DataHeader(i), s.Body(i), now))
  {
    hide CountTrue, CountOf, Spliced, SentFrame.ParityBody, SlotHolds;
    CutExact(s, i);
    CutEnds(s, i);
    BodyIsFragment(s, i);
    var r := StoreData(a, s.DataHeader(i), s.Body(i), now);
    if !a.received[i] {
      SplicedFillsSlot(s.frame.payload, s.Cuts(), a, r, i);
    }
  }

  lemma RestoredMatches(cfg: ClientConfig, s: SentFrame, a: Assembly)
    requires s.Valid() && a.WellFormed() && Matches(cfg, s, a)
    ensures Matches(cfg, s, Restored(cfg, a))
  {
    hide CountTrue, CountOf, Holds, Recoverable, SentFrame.Cuts;
    CutsTile(s);
    PayloadFits(s);
    if Recoverable(cfg, a) {
      RecoverableHasParity(cfg, a);
      RecoveryIsExact(cfg, s.frame.payload, s.Cuts(), a);
    }
  }

  lemma RecoverableHasParity(cfg: ClientConfig, a: Assembly)
    requires a.WellFormed() && Recoverable(cfg, a)
    ensures a.hasFec
  {
  }

  /** A complete matching assembly holds the sender's payload. */
  lemma CompleteIsIntact(cfg: ClientConfig, s: SentFrame, a: Assembly)
    requires s.Sendable() && a.WellFormed() && Matches(cfg, s, a) && a.Complete()
    ensures a.payload == s.frame.payload
  {
    hide CountTrue, CountOf, Holds;
    CutsTile(s);
    CompleteIsWhole(s.frame.payload, s.Cuts(), a);
  }

  // ----- the client among genuine datagrams

  /** The frames sent so far, by sequence: their sequences are pairwise distinct. */
  ghost predicate SentOnce(sent: map<nat, SentFrame>) {
    forall k :: k in sent ==> sent[k].Valid() && sent[k].frame.sequence == k
  }

  ghost predicate Genuine(sent: map<nat, SentFrame>, data: bytes)
    requires SentOnce(sent)
  {
    exists k :: k in sent && data in sent[k].Datagrams()
  }

  /** Payload and timestamps are those of the frame sent with this sequence: its capture and encoding times and the
      time it was sent, when the sender embeds them and the client expects them, and otherwise zero. */
  ghost predicate Intact(cfg: ClientConfig, sent: map<nat, SentFrame>, f: ReceivedFrame) {
    && f.metadata.sequence in sent
    && var s := sent[f.metadata.sequence]; var known := cfg.expectMetadata && s.config.embedFrameMetadata;
       && f.payload == s.frame.payload
       && f.metadata.capture == (if known then s.frame.capture else 0)
       && f.metadata.encodeStart == (if known then s.frame.encodeStart else 0)
       && f.metadata.encodeEnd == (if known then s.frame.encodeEnd else 0)
       && f.metadata.transportSend == (if known then s.sendTimestamp else 0)
       && (f.senderMetadataAvailable <==> known && s.frame.capture != 0 && s.sendTimestamp != 0)
  }

  ghost predicate AllIntact(cfg: ClientConfig, sent: map<nat, SentFrame>, frames: seq<ReceivedFrame>) {
    forall f :: f in frames ==> Intact(cfg, sent, f)
  }

  ghost predicate Consistent(cfg: ClientConfig, sent: map<nat, SentFrame>, c: Client)
    requires SentOnce(sent) && c.WellFormed()
  {
    && (forall k :: k in c.assemblies ==> k in sent && Matches(cfg, sent[k], c.assemblies[k]))
    && (forall f :: f in c.completed ==> Intact(cfg, sent, f))
  }

  /** Any state with fewer assemblies and the same completed frames is consistent too. */
  lemma FewerAssemblies(cfg: ClientConfig, sent: map<nat, SentFrame>, c: Client, d: Client)
    requires SentOnce(sent) && c.WellFormed() && d.WellFormed() && Consistent(cfg, sent, c)
    requires forall k :: k in d.assemblies ==> k in c.assemblies && d.assemblies[k] == c.assemblies[k]
    requires forall f :: f in d.completed ==> f in c.completed
    ensures Consistent(cfg, sent, d)
  {
    hide Matches, Intact, Client.WellFormed;
  }

  lemma OneAssembly(cfg: ClientConfig, sent: map<nat, SentFrame>, c: Client, d: Client, k: nat)
    requires SentOnce(sent) && c.WellFormed() && d.WellFormed() && Consistent(cfg, sent, c)
    requires k in sent && k in d.assemblies && Matches(cfg, sent[k], d.assemblies[k])
    requires d.assemblies == c.assemblies[k := d.assemblies[k]] && d.completed == c.completed
    ensures Consistent(cfg, sent, d)
  {
    hide Matches, Intact;
  }

  lemma RequestedMatches(cfg: ClientConfig, s: SentFrame, a: Assembly, r: Assembly)
    requires s.Sendable() && a.WellFormed() && r.WellFormed() && Matches(cfg, s, a)
    requires r == a.(lastNack := r.lastNack, nackAttempts := r.nackAttempts)
    ensures Matches(cfg, s, r)
  {
    hide CountTrue, CountOf, SentFrame.Cuts, SentFrame.ParityBody;
    CutsTile(s);
    forall i: nat | i < |r.received| && r.received[i]
      ensures SlotHolds(s.frame.payload, s.Cuts(), r, i)
    {
      assert SlotHolds(s.frame.payload, s.Cuts(), a, i);
    }
  }

  lemma {:induction false} RequestKeysConsistent(cfg: ClientConfig, sent: map<nat, SentFrame>, c: Client,
      keys: set<nat>, m: Moment)
    requires SentOnce(sent) && c.WellFormed() && Consistent(cfg, sent, c) && keys <= c.assemblies.Keys
    ensures Consistent(cfg, sent, RequestKeys(cfg, c, keys, m).0)
    decreases |keys|
  {
    hide Matches, Intact, SendNack, NackDue, Client.WellFormed, Consistent;
    if keys != {} {
      var k := Least(keys);
      var d := RequestOne(cfg, c, k, m).0;
      RequestOneConsistent(cfg, sent, c, k, m);
      RequestKeysConsistent(cfg, sent, d, keys - {k}, m);
    }
  }

  lemma RequestOneConsistent(cfg: ClientConfig, sent: map<nat, SentFrame>, c: Client, k: nat, m: Moment)
    requires SentOnce(sent) && c.WellFormed() && Consistent(cfg, sent, c) && k in c.assemblies
    ensures Consistent(cfg, sent, RequestOne(cfg, c, k, m).0)
  {
    hide Matches, Intact, SendNack, NackDue, CountTrue;
    if NackDue(cfg, c.assemblies[k], m.now) {
      var d := RequestOne(cfg, c, k, m).0;
      RequestedMatches(cfg, sent[k], c.assemblies[k], d.assemblies[k]);
      OneAssembly(cfg, sent, c, d, k);
    }
  }

  lemma RecoverOneConsistent(cfg: ClientConfig, sent: map<nat, SentFrame>, c: Client, k: nat)
    requires SentOnce(sent) && c.WellFormed() && Consistent(cfg, sent, c) && k in c.assemblies
    ensures Consistent(cfg, sent, RecoverOne(cfg, c, k))
  {
    hide Matches, Intact, CountTrue, Restored, Recoverable;
    RestoredMatches(cfg, sent[k], c.assemblies[k]);
    OneAssembly(cfg, sent, c, RecoverOne(cfg, c, k), k);
  }

  lemma {:induction false} RecoverKeysConsistent(cfg: ClientConfig, sent: map<nat, SentFrame>, c: Client,
      keys: set<nat>)
    requires SentOnce(sent) && c.WellFormed() && Consistent(cfg, sent, c) && keys <= c.assemblies.Keys
    ensures Consistent(cfg, sent, RecoverKeys(cfg, c, keys).0)
    decreases |keys|
  {
    hide Consistent, RecoverOne, KeyIfRecoverable, Client.WellFormed;
    if keys != {} {
      var k := Least(keys);
      RecoverOneConsistent(cfg, sent, c, k);
      RecoverKeysConsistent(cfg, sent, RecoverOne(cfg, c, k), keys - {k});
    }
  }

  lemma TryPopConsistent(cfg: ClientConfig, sent: map<nat, SentFrame>, c: Client, now: nat, limits: PopLimits)
    requires SentOnce(sent) && c.WellFormed() && Consistent(cfg, sent, c)
    ensures Consistent(cfg, sent, TryPop(cfg, c, now, limits).0)
  {
    hide Matches, Intact, PopCandidate, Ripe, Client.WellFormed, Assembly.WellFormed;
    var d := TryPop(cfg, c, now, limits).0;
    assert d.completed == c.completed;
    FewerAssemblies(cfg, sent, c, d);
  }

  lemma FinalizeConsistent(cfg: ClientConfig, sent: map<nat, SentFrame>, c: Client, k: nat, m: Moment)
    requires SentOnce(sent) && c.WellFormed() && Consistent(cfg, sent, c)
    requires k in c.assemblies && c.assemblies[k].Complete()
    ensures Consistent(cfg, sent, Finalize(cfg, c, k, m).client)
  {
    hide Consistent, RequestMissing, TryPop, Complete, Assembly.WellFormed;
    var frame := CompletedFrame(cfg, c.assemblies[k], m.now);
    var c1 := Complete(cfg, c, k, m.now);
    CompleteConsistent(cfg, sent, c, k, m.now);
    if cfg.jitterBufferEnabled {
      var c2 := Buffer(c1, frame);
      FewerAssemblies(cfg, sent, c1, c2);
      if !m.defer {
        RequestMissingConsistent(cfg, sent, c2, m);
        TryPopConsistent(cfg, sent, RequestMissing(cfg, c2, m).0, m.now, m.limits);
      }
    }
  }

  lemma CompleteConsistent(cfg: ClientConfig, sent: map<nat, SentFrame>, c: Client, k: nat, now: nat)
    requires SentOnce(sent) && c.WellFormed() && Consistent(cfg, sent, c)
    requires k in c.assemblies && c.assemblies[k].Complete()
    ensures Consistent(cfg, sent, Complete(cfg, c, k, now))
  {
    hide CountTrue, Holds;
    CompleteIsIntact(cfg, sent[k], c.assemblies[k]);
    var frame := CompletedFrame(cfg, c.assemblies[k], now);
    assert Intact(cfg, sent, frame);
  }

  lemma RequestMissingConsistent(cfg: ClientConfig, sent: map<nat, SentFrame>, c: Client, m: Moment)
    requires SentOnce(sent) && c.WellFormed() && Consistent(cfg, sent, c)
    ensures Consistent(cfg, sent, RequestMissing(cfg, c, m).0)
  {
    hide Consistent, RequestKeys, Client.WellFormed;
    if cfg.nackEnabled && cfg.nackMaxRequestsPerPacket != 0 {
      RequestKeysConsistent(cfg, sent, c, c.assemblies.Keys, m);
    }
  }

  /** The fragment is one of those made of the frame sent under its sequence. */
  ghost predicate PieceOf(sent: map<nat, SentFrame>, p: Parsed)
    requires SentOnce(sent) && p.Fragment?
  {
    var k := p.fragment.metadata.sequence;
    && k in sent
    && (|| (exists i: nat :: i < sent[k].Count() && p.fragment == sent[k].DataHeader(i) && p.body == sent[k].Body(i))
        || (p.fragment == sent[k].ParityHeader() && p.body == sent[k].ParityBody()))
  }

  lemma GenuineParses(sent: map<nat, SentFrame>, data: bytes)
    requires SentOnce(sent) && Genuine(sent, data)
    ensures Parse(data).Fragment? && PieceOf(sent, Parse(data))
  {
    hide CountOf, SentFrame.DataDatagram, SentFrame.ParityDatagram, SentFrame.Body, SentFrame.ParityBody, Parse;
    var k :| k in sent && data in sent[k].Datagrams();
    var s := sent[k];
    var n :| 0 <= n < |s.Datagrams()| && s.Datagrams()[n] == data;
    if n < s.Count() {
      DataParses(s, n);
    } else {
      ParityParses(s);
    }
  }

  lemma PieceFits(cfg: ClientConfig, sent: map<nat, SentFrame>, p: Parsed)
    requires SentOnce(sent) && p.Fragment? && PieceOf(sent, p)
    ensures var s := sent[p.fragment.metadata.sequence];
      && p.fragment.metadata == s.Metadata() && p.fragment.fragmentCount == s.Count()
      && p.fragment.framePayloadSize == |s.frame.payload|
  {
    hide CountOf, SentFrame.Body, SentFrame.ParityBody;
  }

  lemma OpenedConsistent(cfg: ClientConfig, sent: map<nat, SentFrame>, c: Client, p: Parsed, now: nat)
    requires SentOnce(sent) && c.WellFormed() && Consistent(cfg, sent, c) && p.Accepted() && PieceOf(sent, p)
    ensures Consistent(cfg, sent, Opened(cfg, c, p, now))
  {
    hide Matches, Intact, NewAssembly, CountTrue, PieceOf;
    PieceFits(cfg, sent, p);
    var k := p.fragment.metadata.sequence;
    assert k in sent by { PieceKnown(sent, p); }
    if k !in c.assemblies {
      NewMatches(cfg, sent[k], p.header, p.fragment, now);
      OneAssembly(cfg, sent, c, Opened(cfg, c, p, now), k);
    }
  }

  lemma PieceKnown(sent: map<nat, SentFrame>, p: Parsed)
    requires SentOnce(sent) && p.Fragment? && PieceOf(sent, p)
    ensures p.fragment.metadata.sequence in sent
  {
  }

  lemma StoredConsistent(cfg: ClientConfig, sent: map<nat, SentFrame>, c: Client, p: Parsed, now: nat)
    requires SentOnce(sent) && c.WellFormed() && Consistent(cfg, sent, c) && p.Accepted() && PieceOf(sent, p)
    requires p.fragment.metadata.sequence in c.assemblies
    requires SameLayout(c.assemblies[p.fragment.metadata.sequence], p.fragment)
    ensures Consistent(cfg, sent, Stored(cfg, c, p, now))
  {
    hide Matches, Intact, StoreData, StoreParity, CountTrue, CountOf, SentFrame.Body, SentFrame.ParityBody;
    var k := p.fragment.metadata.sequence;
    var s, a, d := sent[k], c.assemblies[k], Stored(cfg, c, p, now);
    if p.fragment.fragmentRole == XOR_PARITY {
      ParityMatches(cfg, s, a, now);
    } else {
      var i: nat :| i < s.Count() && p.fragment == s.DataHeader(i) && p.body == s.Body(i);
      DataMatches(cfg, s, a, i, now);
    }
    OneAssembly(cfg, sent, c, d, k);
  }

  lemma AcceptConsistent(cfg: ClientConfig, sent: map<nat, SentFrame>, c: Client, p: Parsed, m: Moment)
    requires SentOnce(sent) && c.WellFormed() && Consistent(cfg, sent, c) && p.Accepted() && PieceOf(sent, p)
    ensures Consistent(cfg, sent, Accept(cfg, c, p, m).client)
  {
    hide Consistent, Opened, Stored, RecoverOne, Finalize, PieceOf, SameLayout, Assembly.WellFormed;
    var k := p.fragment.metadata.sequence;
    var c1 := Opened(cfg, c, p, m.now);
    OpenedConsistent(cfg, sent, c, p, m.now);
    if !SameLayout(c1.assemblies[k], p.fragment) {
      GiveUpConsistent(cfg, sent, c1, {k});
    } else {
      var c2 := Stored(cfg, c1, p, m.now);
      StoredConsistent(cfg, sent, c1, p, m.now);
      RecoverOneConsistent(cfg, sent, c2, k);
      var c3 := if p.fragment.fragmentRole == DATA then RecoverOne(cfg, c2, k) else c2;
      if c3.assemblies[k].Complete() {
        FinalizeConsistent(cfg, sent, c3, k, m);
      }
    }
  }

  lemma GiveUpConsistent(cfg: ClientConfig, sent: map<nat, SentFrame>, c: Client, gone: set<nat>)
    requires SentOnce(sent) && c.WellFormed() && Consistent(cfg, sent, c) && gone <= c.assemblies.Keys
    ensures Consistent(cfg, sent, GiveUp(c, gone))
  {
    hide Consistent;
    FewerAssemblies(cfg, sent, c, GiveUp(c, gone));
  }

  lemma {:induction false} FinalizeKeysConsistent(cfg: ClientConfig, sent: map<nat, SentFrame>, c: Client,
      keys: seq<nat>, m: Moment)
    requires SentOnce(sent) && c.WellFormed() && Consistent(cfg, sent, c)
    ensures Consistent(cfg, sent, FinalizeKeys(cfg, c, keys, m).client)
    decreases |keys|
  {
    hide Consistent, Finalize, Client.WellFormed;
    if keys != [] {
      if keys[0] !in c.assemblies || !c.assemblies[keys[0]].Complete() {
        FinalizeKeysConsistent(cfg, sent, c, keys[1..], m);
      } else {
        FinalizeConsistent(cfg, sent, c, keys[0], m);
        FinalizeKeysConsistent(cfg, sent, Finalize(cfg, c, keys[0], m).client, keys[1..], m);
      }
    }
  }

  /** The network may drop, repeat and reorder, but it delivers only what was sent. */
  ghost predicate GenuineEvent(sent: map<nat, SentFrame>, e: Event)
    requires SentOnce(sent)
  {
    e.Datagram? ==> Genuine(sent, e.data)
  }

  lemma StepConsistent(cfg: ClientConfig, sent: map<nat, SentFrame>, c: Client, e: Event)
    requires SentOnce(sent) && c.WellFormed() && Consistent(cfg, sent, c) && GenuineEvent(sent, e)
    ensures Consistent(cfg, sent, Step(cfg, c, e).client)
  {
    hide Consistent, Assembly.WellFormed, Accept, Parse, FinalizeKeys, RecoverKeys, RequestMissing, TryPop, GiveUp,
        Genuine, PieceOf;
    match e
    case Datagram(data, m) =>
      var c0 := c.(stats := c.stats.(datagramsReceived := c.stats.datagramsReceived + 1));
      FewerAssemblies(cfg, sent, c, c0);
      GiveUpConsistent(cfg, sent, c0, ExpiredKeys(c0, m.now));
      var c1, p := PruneExpired(c0, m.now), Parse(data);
      GenuineParses(sent, data);
      if p.fragment.metadata.sequence in c1.recentSet {
        FewerAssemblies(cfg, sent, c1,
          c1.(stats := c1.stats.(staleDatagramsDropped := c1.stats.staleDatagramsDropped + 1)));
      } else {
        AcceptConsistent(cfg, sent, c1, p, m);
      }
    case Recovery(m) =>
      RecoverKeysConsistent(cfg, sent, c, c.assemblies.Keys);
      var (c1, recovered) := RecoverKeys(cfg, c, c.assemblies.Keys);
      FinalizeKeysConsistent(cfg, sent, c1, recovered, m);
    case Prune(m) =>
      GiveUpConsistent(cfg, sent, c, ExpiredKeys(c, m.now));
    case RequestNacks(m) =>
      RequestMissingConsistent(cfg, sent, c, m);
    case Pop(m) =>
      TryPopConsistent(cfg, sent, c, m.now, m.limits);
  }

  lemma {:induction false} RunConsistent(cfg: ClientConfig, sent: map<nat, SentFrame>, events: seq<Event>)
    requires SentOnce(sent) && forall i :: 0 <= i < |events| ==> GenuineEvent(sent, events[i])
    ensures Consistent(cfg, sent, Run(cfg, events))
  {
    hide Step, Matches, GenuineEvent;
    if events != [] {
      var before := events[..|events| - 1];
      RunConsistent(cfg, sent, before);
      StepConsistent(cfg, sent, Run(cfg, before), events[|events| - 1]);
    }
  }

  /** Every frame a run completes, and every frame it hands to its caller, has exactly the payload and the
      metadata of the frame sent under its sequence, for every schedule of genuine datagrams. */
  lemma {:induction false} EveryFrameIsIntact(cfg: ClientConfig, sent: map<nat, SentFrame>, events: seq<Event>)
    requires SentOnce(sent) && forall i :: 0 <= i < |events| ==> GenuineEvent(sent, events[i])
    ensures AllIntact(cfg, sent, Run(cfg, events).completed) && AllIntact(cfg, sent, Emitted(cfg, events))
  {
    hide Run, Emitted, Intact, Matches, GenuineEvent;
    RunConsistent(cfg, sent, events);
    EmittedAccounted(cfg, events);
  }
}
