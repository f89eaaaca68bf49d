/** Which frames a run hands to its caller, and what is counted for them. */
module UdpEmission {
  import opened Bytes
  import opened Protocol
  import opened UdpClientState
  import opened UdpClientSpec
  import opened UdpInvariants

  /** What one call adds to the completed frames and hands out. */
  ghost predicate Accounted(cfg: ClientConfig, c: Client, d: Client, frame: Option<ReceivedFrame>) {
    && c.completed <= d.completed
    && (cfg.jitterBufferEnabled ==>
          && d.stats.emittedFrames == c.stats.emittedFrames + (if frame.Some? then 1 else 0)
          && (frame.Some? ==> frame.value in d.completed))
    && (!cfg.jitterBufferEnabled ==>
          d.completed == c.completed + (if frame.Some? then [frame.value] else []))
  }

  ghost predicate Silent(c: Client, d: Client) {
    d.completed == c.completed && d.stats.emittedFrames == c.stats.emittedFrames
  }

  lemma SilentThen(cfg: ClientConfig, c: Client, d: Client, e: Client, frame: Option<ReceivedFrame>)
    requires Silent(c, d) && Accounted(cfg, d, e, frame)
    ensures Accounted(cfg, c, e, frame)
  {
  }

  lemma {:induction false} RequestKeysSilent(cfg: ClientConfig, c: Client, keys: set<nat>, m: Moment)
    requires c.WellFormed() && keys <= c.assemblies.Keys
    ensures Silent(c, RequestKeys(cfg, c, keys, m).0)
    decreases |keys|
  {
    hide SendNack, NackDue;
    if keys != {} {
      var k := Least(keys);
      RequestKeysSilent(cfg, RequestOne(cfg, c, k, m).0, keys - {k}, m);
    }
  }

  lemma {:induction false} RecoverKeysSilent(cfg: ClientConfig, c: Client, keys: set<nat>)
    requires c.WellFormed() && keys <= c.assemblies.Keys
    ensures Silent(c, RecoverKeys(cfg, c, keys).0)
    decreases |keys|
  {
    hide Recoverable, Restored, KeyIfRecoverable;
    if keys != {} {
      var k := Least(keys);
      RecoverKeysSilent(cfg, RecoverOne(cfg, c, k), keys - {k});
    }
  }

  lemma TryPopAccounted(cfg: ClientConfig, c: Client, now: nat, limits: PopLimits)
    requires Conservation(cfg, c)
    ensures var (d, frame) := TryPop(cfg, c, now, limits); Accounted(cfg, c, d, frame)
  {
    hide PopCandidate, Ripe;
  }

  lemma BufferSilent(c: Client, frame: ReceivedFrame)
    ensures Silent(c, Buffer(c, frame))
  {
  }

  /** What follows the completion of a frame when the jitter buffer is on. */
  lemma BufferedAccounted(cfg: ClientConfig, c2: Client, m: Moment)
    requires Inv(cfg, c2) && c2.WellFormed() && cfg.jitterBufferEnabled
    ensures var (d, frame) := TryPop(cfg, RequestMissing(cfg, c2, m).0, m.now, m.limits); Accounted(cfg, c2, d, frame)
  {
    hide Inv, RequestMissing, TryPop, Client.WellFormed, Accounted, Silent, Conservation;
    RequestMissingKeeps(cfg, c2, m);
    RequestsSilent(cfg, c2, m);
    var c3 := RequestMissing(cfg, c2, m).0;
    InvConservation(cfg, c3);
    TryPopAccounted(cfg, c3, m.now, m.limits);
    SilentThen(cfg, c2, c3, TryPop(cfg, c3, m.now, m.limits).0, TryPop(cfg, c3, m.now, m.limits).1);
  }

  lemma FinalizeAccounted(cfg: ClientConfig, c: Client, k: nat, m: Moment)
    requires Inv(cfg, c) && k in c.assemblies && c.assemblies[k].Complete()
    ensures var o := Finalize(cfg, c, k, m); Accounted(cfg, c, o.client, o.frame)
  {
    hide Ledger, Suppression, Complete, RequestMissing, TryPop, Buffer, CompletedFrame;
    var frame := CompletedFrame(cfg, c.assemblies[k], m.now);
    var c1 := Complete(cfg, c, k, m.now);
    CompleteKeeps(cfg, c, k, m.now);
    if cfg.jitterBufferEnabled {
      BufferSilent(c1, frame);
      BufferKeeps(cfg, c1, frame);
      if !m.defer {
        BufferedAccounted(cfg, Buffer(c1, frame), m);
      }
    }
  }

  /** Finalizing completes one frame, and hands it out itself when there is no jitter buffer. */
  lemma FinalizeAppends(cfg: ClientConfig, c: Client, k: nat, m: Moment)
    requires c.WellFormed() && k in c.assemblies
    ensures var o := Finalize(cfg, c, k, m); var frame := CompletedFrame(cfg, c.assemblies[k], m.now);
      && o.client.completed == c.completed + [frame]
      && (!cfg.jitterBufferEnabled ==> o.frame == Some(frame))
  {
    hide RequestMissing, TryPop, Complete, Buffer, Client.WellFormed;
    var frame := CompletedFrame(cfg, c.assemblies[k], m.now);
    var c1 := Complete(cfg, c, k, m.now);
    CompleteAppends(cfg, c, k, m.now);
    BufferSilent(c1, frame);
    if cfg.jitterBufferEnabled && !m.defer {
      BufferWellFormed(c1, frame);
      RequestsSilent(cfg, Buffer(c1, frame), m);
      TryPopAppendsNothing(cfg, RequestMissing(cfg, Buffer(c1, frame), m).0, m.now, m.limits);
    }
  }

  lemma CompleteAppends(cfg: ClientConfig, c: Client, k: nat, now: nat)
    requires c.WellFormed() && k in c.assemblies
    ensures Complete(cfg, c, k, now).completed == c.completed + [CompletedFrame(cfg, c.assemblies[k], now)]
  {
    hide Client.WellFormed;
  }

  lemma BufferWellFormed(c: Client, frame: ReceivedFrame)
    requires c.WellFormed()
    ensures Buffer(c, frame).WellFormed()
  {
    hide Assembly.WellFormed;
  }

  lemma TryPopAppendsNothing(cfg: ClientConfig, c: Client, now: nat, limits: PopLimits)
    ensures TryPop(cfg, c, now, limits).0.completed == c.completed
  {
    hide PopCandidate, Ripe;
  }

  lemma OpenedSilent(cfg: ClientConfig, c: Client, p: Parsed, now: nat)
    requires c.WellFormed() && p.Accepted()
    ensures Silent(c, Opened(cfg, c, p, now))
  {
    hide Client.WellFormed, NewAssembly;
  }

  lemma StoredSilent(cfg: ClientConfig, c: Client, p: Parsed, now: nat)
    requires c.WellFormed() && p.Accepted() && p.fragment.metadata.sequence in c.assemblies
    requires SameLayout(c.assemblies[p.fragment.metadata.sequence], p.fragment)
    ensures Silent(c, Stored(cfg, c, p, now))
  {
    hide StoreParity, StoreData;
  }

  lemma RecoverOneSilent(cfg: ClientConfig, c: Client, k: nat)
    requires c.WellFormed() && k in c.assemblies
    ensures Silent(c, RecoverOne(cfg, c, k))
  {
    hide Restored, Recoverable;
  }

  lemma SilentTwice(c: Client, d: Client, e: Client)
    requires Silent(c, d) && Silent(d, e)
    ensures Silent(c, e)
  {
  }

  lemma SilentOnly(cfg: ClientConfig, c: Client, d: Client)
    requires Silent(c, d)
    ensures Accounted(cfg, c, d, None)
  {
  }

  lemma GiveUpSilent(c: Client, gone: set<nat>)
    requires c.WellFormed() && gone <= c.assemblies.Keys
    ensures Silent(c, GiveUp(c, gone))
  {
  }

  /** The assembly of an accepted fragment after it is stored and recovery is tried. */
  lemma ProgressAccounted(cfg: ClientConfig, c: Client, c1: Client, c3: Client, p: Parsed, m: Moment)
    requires Inv(cfg, c1) && p.Accepted() && p.fragment.metadata.sequence in c1.assemblies
    requires SameLayout(c1.assemblies[p.fragment.metadata.sequence], p.fragment)
    requires c1.WellFormed() && p.fragment.metadata.sequence !in c1.recentSet && Silent(c, c1)
    requires c3 == if p.fragment.fragmentRole == DATA
                   then RecoverOne(cfg, Stored(cfg, c1, p, m.now), p.fragment.metadata.sequence)
                   else Stored(cfg, c1, p, m.now)
    ensures Inv(cfg, c3) && Silent(c, c3)
  {
    hide Inv, SameLayout, Stored, RecoverOne, Client.WellFormed, Silent;
    var c2 := Stored(cfg, c1, p, m.now);
    StoredKeeps(cfg, c1, p, m.now);
    StoredSilent(cfg, c1, p, m.now);
    SilentTwice(c, c1, c2);
    RecoverOneKeeps(cfg, c2, p.fragment.metadata.sequence);
    RecoverOneSilent(cfg, c2, p.fragment.metadata.sequence);
    SilentTwice(c, c2, RecoverOne(cfg, c2, p.fragment.metadata.sequence));
  }

  lemma AcceptAccounted(cfg: ClientConfig, c: Client, p: Parsed, m: Moment)
    requires Inv(cfg, c) && p.Accepted() && p.fragment.metadata.sequence !in c.recentSet
    ensures c.WellFormed()
    ensures var o := Accept(cfg, c, p, m); Accounted(cfg, c, o.client, o.frame)
  {
    hide Inv, SameLayout, Finalize, Opened, Stored, RecoverOne, Client.WellFormed, Silent, Accounted, GiveUp;
    var k := p.fragment.metadata.sequence;
    InvWellFormed(cfg, c);
    var c1 := Opened(cfg, c, p, m.now);
    OpenedKeeps(cfg, c, p, m.now);
    OpenedSilent(cfg, c, p, m.now);
    if !SameLayout(c1.assemblies[k], p.fragment) {
      GiveUpSilent(c1, {k});
      SilentTwice(c, c1, GiveUp(c1, {k}));
      SilentOnly(cfg, c, GiveUp(c1, {k}));
    } else {
      OpenedRecent(cfg, c, p, m.now);
      var c2 := Stored(cfg, c1, p, m.now);
      var c3 := if p.fragment.fragmentRole == DATA then RecoverOne(cfg, c2, k) else c2;
      ProgressAccounted(cfg, c, c1, c3, p, m);
      if c3.assemblies[k].Complete() {
        FinalizeAccounted(cfg, c3, k, m);
        SilentThen(cfg, c, c3, Finalize(cfg, c3, k, m).client, Finalize(cfg, c3, k, m).frame);
      } else {
        SilentOnly(cfg, c, c3);
      }
    }
  }

  lemma OpenedRecent(cfg: ClientConfig, c: Client, p: Parsed, now: nat)
    requires c.WellFormed() && p.Accepted()
    ensures Opened(cfg, c, p, now).recentSet == c.recentSet
  {
    hide Client.WellFormed, NewAssembly;
  }

  lemma {:induction false} FinalizeKeysAccounted(cfg: ClientConfig, c: Client, keys: seq<nat>, m: Moment)
    requires Inv(cfg, c)
    ensures var o := FinalizeKeys(cfg, c, keys, m); Accounted(cfg, c, o.client, o.frame)
    decreases |keys|
  {
    hide Inv, Finalize;
    assert c.WellFormed() by { InvWellFormed(cfg, c); }
    if keys != [] {
      if keys[0] !in c.assemblies || !c.assemblies[keys[0]].Complete() {
        FinalizeKeysAccounted(cfg, c, keys[1..], m);
      } else {
        var o := Finalize(cfg, c, keys[0], m);
        FinalizeKeeps(cfg, c, keys[0], m);
        FinalizeAccounted(cfg, c, keys[0], m);
        FinalizeKeysAccounted(cfg, o.client, keys[1..], m);
      }
    }
  }

  lemma PruneSilent(c: Client, now: nat)
    requires c.WellFormed()
    ensures Silent(c, PruneExpired(c, now)) && PruneExpired(c, now).recentSet == c.recentSet
  {
    hide Client.WellFormed, ExpiredKeys;
  }

  lemma DatagramAccounted(cfg: ClientConfig, c: Client, data: bytes, m: Moment)
    requires Inv(cfg, c) && c.WellFormed()
    ensures var o := ReceiveDatagram(cfg, c, data, m); Accounted(cfg, c, o.client, o.frame)
  {
    hide Inv, Accept, Parse, PruneExpired, Client.WellFormed;
    var c0 := c.(stats := c.stats.(datagramsReceived := c.stats.datagramsReceived + 1));
    SameExceptCounters(cfg, c, c0);
    PruneKeeps(cfg, c0, m.now);
    PruneSilent(c0, m.now);
    var p, c1 := Parse(data), PruneExpired(c0, m.now);
    if p.Fragment? && p.fragment.metadata.sequence !in c1.recentSet {
      AcceptAccounted(cfg, c1, p, m);
      SilentThen(cfg, c, c1, Accept(cfg, c1, p, m).client, Accept(cfg, c1, p, m).frame);
    }
  }

  lemma RecoveryAccounted(cfg: ClientConfig, c: Client, m: Moment)
    requires Inv(cfg, c) && c.WellFormed()
    ensures var o := RecoveryPass(cfg, c, m); Accounted(cfg, c, o.client, o.frame)
  {
    hide Inv, FinalizeKeys, RecoverKeys, Client.WellFormed, Accounted, Silent;
    RecoverKeysKeeps(cfg, c, c.assemblies.Keys);
    RecoverKeysSilent(cfg, c, c.assemblies.Keys);
    var (c1, recovered) := RecoverKeys(cfg, c, c.assemblies.Keys);
    FinalizeKeysAccounted(cfg, c1, recovered, m);
    SilentThen(cfg, c, c1, FinalizeKeys(cfg, c1, recovered, m).client, FinalizeKeys(cfg, c1, recovered, m).frame);
  }

  lemma RequestsSilent(cfg: ClientConfig, c: Client, m: Moment)
    requires c.WellFormed()
    ensures Silent(c, RequestMissing(cfg, c, m).0)
  {
    hide Client.WellFormed, RequestKeys;
    RequestKeysSilent(cfg, c, c.assemblies.Keys, m);
  }

  lemma StepAccounted(cfg: ClientConfig, c: Client, e: Event)
    requires Inv(cfg, c)
    ensures c.WellFormed()
    ensures var o := Step(cfg, c, e); Accounted(cfg, c, o.client, o.frame)
  {
    hide Inv, ReceiveDatagram, RecoveryPass, PruneExpired, RequestMissing, TryPop, Client.WellFormed, Accounted,
        Silent, Conservation;
    InvWellFormed(cfg, c);
    match e
    case Datagram(data, m) => DatagramAccounted(cfg, c, data, m);
    case Recovery(m) => RecoveryAccounted(cfg, c, m);
    case Prune(m) =>
      PruneSilent(c, m.now);
      SilentOnly(cfg, c, PruneExpired(c, m.now));
    case RequestNacks(m) =>
      RequestsSilent(cfg, c, m);
      SilentOnly(cfg, c, RequestMissing(cfg, c, m).0);
    case Pop(m) =>
      InvConservation(cfg, c);
      TryPopAccounted(cfg, c, m.now, m.limits);
  }

  lemma InvConservation(cfg: ClientConfig, c: Client)
    requires Inv(cfg, c)
    ensures Conservation(cfg, c)
  {
  }

  ghost predicate FramesConserved(cfg: ClientConfig, c: Client, emitted: seq<ReceivedFrame>) {
    && (cfg.jitterBufferEnabled ==>
          && |c.completed| == |emitted| + c.stats.droppedFrames + c.stats.currentDepth
          && c.stats.currentDepth == |c.jitterBuffer|
          && forall f :: f in emitted ==> f in c.completed)
    && (!cfg.jitterBufferEnabled ==> emitted == c.completed)
  }

  /** With the jitter buffer, every frame handed out is a completed one, and each completed frame is
      emitted, dropped as a duplicate, or still buffered; without it, exactly the completed frames are
      handed out, in the order of completion. */
  lemma {:induction false} CompletedFramesConserved(cfg: ClientConfig, events: seq<Event>)
    ensures FramesConserved(cfg, Run(cfg, events), Emitted(cfg, events))
  {
    EmittedAccounted(cfg, events);
    RunKeeps(cfg, events);
    InvConservation(cfg, Run(cfg, events));
  }

  lemma {:induction false} EmittedAccounted(cfg: ClientConfig, events: seq<Event>)
    ensures var c := Run(cfg, events);
      var emitted := Emitted(cfg, events);
      && (cfg.jitterBufferEnabled ==>
            |emitted| == c.stats.emittedFrames && forall f :: f in emitted ==> f in c.completed)
      && (!cfg.jitterBufferEnabled ==> emitted == c.completed)
  {
    hide Inv, Step;
    if events != [] {
      var before, last := events[..|events| - 1], events[|events| - 1];
      EmittedAccounted(cfg, before);
      RunKeeps(cfg, before);
      StepAccounted(cfg, Run(cfg, before), last);
    }
  }
}
