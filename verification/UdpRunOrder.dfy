/** The order of emission in runs of the client: every step plays operations on the jitter buffer. */
module UdpRunOrder {
  import opened Bytes
  import opened Protocol
  import opened UdpClientState
  import opened UdpClientSpec
  import opened UdpSenderSpec
  import opened UdpInvariants
  import opened UdpEmission
  import opened UdpIntegrity
  import opened UdpJitterOrder

  /** What the order of emission depends on. */
  datatype View = View(jitterBuffer: map<nat, BufferedFrame>, nextSequence: nat, hasNextSequence: bool, skipped: nat)

  function ViewOf(c: Client): View {
    View(c.jitterBuffer, c.nextSequence, c.hasNextSequence, c.stats.skippedFrames)
  }

  lemma TryPopView(cfg: ClientConfig, c: Client, d: Client, now: nat, limits: PopLimits)
    requires ViewOf(c) == ViewOf(d)
    ensures var (e, frame) := TryPop(cfg, c, now, limits); var (e', frame') := TryPop(cfg, d, now, limits);
      ViewOf(e) == ViewOf(e') && frame == frame'
  {
    hide Ripe, Advance, Emit, PopCandidate;
    if cfg.jitterBufferEnabled && c.jitterBuffer != map[] {
      CandidateView(c, d, now, limits);
      var candidate := PopCandidate(c, now, limits);
      if candidate.Some? {
        EmitView(c, d, candidate.value, now, limits);
      }
    }
  }

  lemma CandidateView(c: Client, d: Client, now: nat, limits: PopLimits)
    requires ViewOf(c) == ViewOf(d) && c.jitterBuffer != map[]
    ensures PopCandidate(c, now, limits) == PopCandidate(d, now, limits)
  {
  }

  lemma EmitView(c: Client, d: Client, k: nat, now: nat, limits: PopLimits)
    requires ViewOf(c) == ViewOf(d) && k in c.jitterBuffer
    ensures var c1, d1 := Advance(c, k), Advance(d, k);
      && ViewOf(c1) == ViewOf(d1) && Ripe(c1, k, now, limits) == Ripe(d1, k, now, limits)
      && ViewOf(Emit(c1, k)) == ViewOf(Emit(d1, k))
  {
  }

  lemma ApplyView(cfg: ClientConfig, c: Client, d: Client, op: Op)
    requires ViewOf(c) == ViewOf(d)
    ensures ViewOf(Apply(cfg, c, op).0) == ViewOf(Apply(cfg, d, op).0) && Apply(cfg, c, op).1 == Apply(cfg, d, op).1
  {
    hide TryPop;
    if op.TryOne? {
      TryPopView(cfg, c, d, op.now, op.limits);
    }
  }

  lemma {:induction false} PlayView(cfg: ClientConfig, c: Client, d: Client, ops: seq<Op>)
    requires ViewOf(c) == ViewOf(d)
    ensures ViewOf(Play(cfg, c, ops).0) == ViewOf(Play(cfg, d, ops).0) && Play(cfg, c, ops).1 == Play(cfg, d, ops).1
    decreases |ops|
  {
    hide Apply, ViewOf;
    if ops != [] {
      ApplyView(cfg, c, d, ops[0]);
      PlayView(cfg, Apply(cfg, c, ops[0]).0, Apply(cfg, d, ops[0]).0, ops[1..]);
    }
  }

  lemma {:induction false} PlayConcat(cfg: ClientConfig, c: Client, a: seq<Op>, b: seq<Op>)
    ensures var (d, first) := Play(cfg, c, a); var (e, second) := Play(cfg, d, b);
      Play(cfg, c, a + b) == (e, first + second)
    decreases |a|
  {
    hide Apply;
    if a == [] {
      assert a + b == b;
      assert [] + Play(cfg, c, b).1 == Play(cfg, c, b).1;
    } else {
      var (c1, frame) := Apply(cfg, c, a[0]);
      assert (a + b)[0] == a[0] && (a + b)[1..] == a[1..] + b;
      PlayConcat(cfg, c1, a[1..], b);
      var (d, rest) := Play(cfg, c1, a[1..]);
      var head := if frame.Some? then [frame.value.metadata.sequence] else [];
      var second := Play(cfg, d, b).1;
      assert Play(cfg, c, a) == (d, head + rest);
      assert Play(cfg, c, a + b) == (Play(cfg, d, b).0, head + (rest + second));
      assert head + (rest + second) == head + rest + second;
    }
  }

  // ----- the operations of one step

  /** The operations lead to the same buffer and emit the same frame as the call. */
  ghost predicate Plays(cfg: ClientConfig, c: Client, ops: seq<Op>, o: Outcome) {
    var (d, emitted) := Play(cfg, c, ops);
    ViewOf(d) == ViewOf(o.client) && emitted == if o.frame.Some? then [o.frame.value.metadata.sequence] else []
  }

  lemma PlaysNothing(cfg: ClientConfig, c: Client, o: Outcome)
    requires ViewOf(o.client) == ViewOf(c) && o.frame.None?
    ensures Plays(cfg, c, [], o)
  {
  }

  lemma PlaysFrom(cfg: ClientConfig, c: Client, d: Client, ops: seq<Op>, o: Outcome)
    requires ViewOf(c) == ViewOf(d) && Plays(cfg, c, ops, o)
    ensures Plays(cfg, d, ops, o)
  {
    hide Play, ViewOf;
    PlayView(cfg, c, d, ops);
  }

  /** A call that emits nothing, and then another. */
  lemma PlaysThen(cfg: ClientConfig, c: Client, a: seq<Op>, o: Outcome, b: seq<Op>, p: Outcome, whole: Outcome)
    requires Plays(cfg, c, a, o) && o.frame.None? && Plays(cfg, o.client, b, p)
    requires whole.client == p.client && whole.frame == p.frame
    ensures Plays(cfg, c, a + b, whole)
  {
    hide Play, ViewOf;
    PlayConcat(cfg, c, a, b);
    PlayView(cfg, o.client, Play(cfg, c, a).0, b);
  }

  /** A frame is buffered; then, unless the pop is deferred, one pop is tried. */
  ghost function FinalizeOps(cfg: ClientConfig, c: Client, k: nat, m: Moment): seq<Op>
    requires k in c.assemblies
  {
    [Insert(CompletedFrame(cfg, c.assemblies[k], m.now))] + if m.defer then [] else [TryOne(m.now, m.limits)]
  }

  ghost function FinalizeKeysOps(cfg: ClientConfig, c: Client, keys: seq<nat>, m: Moment): seq<Op>
    requires c.WellFormed()
    decreases |keys|
  {
    if keys == [] then []
    else if keys[0] !in c.assemblies || !c.assemblies[keys[0]].Complete() then FinalizeKeysOps(cfg, c, keys[1..], m)
    else
      var o := Finalize(cfg, c, keys[0], m);
      FinalizeOps(cfg, c, keys[0], m) + if o.frame.Some? then [] else FinalizeKeysOps(cfg, o.client, keys[1..], m)
  }

  /** The assembly of an accepted fragment, after it is stored and recovery is tried. */
  ghost function Progressed(cfg: ClientConfig, c: Client, p: Parsed, now: nat): (d: Client)
    requires c.WellFormed() && p.Accepted() && p.fragment.metadata.sequence in c.assemblies
    requires SameLayout(c.assemblies[p.fragment.metadata.sequence], p.fragment)
    ensures d.WellFormed() && p.fragment.metadata.sequence in d.assemblies
  {
    var c2 := Stored(cfg, c, p, now);
    if p.fragment.fragmentRole == DATA then RecoverOne(cfg, c2, p.fragment.metadata.sequence) else c2
  }

  ghost function AcceptOps(cfg: ClientConfig, c: Client, p: Parsed, m: Moment): seq<Op>
    requires c.WellFormed() && p.Accepted()
  {
    var k, c1 := p.fragment.metadata.sequence, Opened(cfg, c, p, m.now);
    if !SameLayout(c1.assemblies[k], p.fragment) then []
    else
      var c3 := Progressed(cfg, c1, p, m.now);
      if c3.assemblies[k].Complete() then FinalizeOps(cfg, c3, k, m) else []
  }

  ghost function StepOps(cfg: ClientConfig, c: Client, e: Event): seq<Op>
    requires c.WellFormed()
  {
    match e
    case Datagram(data, m) =>
      var c1 := PruneExpired(c.(stats := c.stats.(datagramsReceived := c.stats.datagramsReceived + 1)), m.now);
      var p := Parse(data);
      if p.Invalid? || p.fragment.metadata.sequence in c1.recentSet then [] else AcceptOps(cfg, c1, p, m)
    case Recovery(m) =>
      var (c1, recovered) := RecoverKeys(cfg, c, c.assemblies.Keys);
      FinalizeKeysOps(cfg, c1, recovered, m)
    case Pop(m) => [TryOne(m.now, m.limits)]
    case _ => []
  }

  lemma CompleteView(cfg: ClientConfig, c: Client, k: nat, now: nat)
    requires c.WellFormed() && k in c.assemblies
    ensures ViewOf(Complete(cfg, c, k, now)) == ViewOf(c)
  {
    hide Client.WellFormed;
  }

  lemma {:induction false} RequestKeysView(cfg: ClientConfig, c: Client, keys: set<nat>, m: Moment)
    requires c.WellFormed() && keys <= c.assemblies.Keys
    ensures ViewOf(RequestKeys(cfg, c, keys, m).0) == ViewOf(c)
    decreases |keys|
  {
    hide SendNack, NackDue;
    if keys != {} {
      var k := Least(keys);
      RequestKeysView(cfg, RequestOne(cfg, c, k, m).0, keys - {k}, m);
    }
  }

  lemma RequestsView(cfg: ClientConfig, c: Client, m: Moment)
    requires c.WellFormed()
    ensures ViewOf(RequestMissing(cfg, c, m).0) == ViewOf(c)
  {
    hide Client.WellFormed, RequestKeys;
    RequestKeysView(cfg, c, c.assemblies.Keys, m);
  }

  lemma {:induction false} RecoverKeysView(cfg: ClientConfig, c: Client, keys: set<nat>)
    requires c.WellFormed() && keys <= c.assemblies.Keys
    ensures ViewOf(RecoverKeys(cfg, c, keys).0) == ViewOf(c)
    decreases |keys|
  {
    hide Recoverable, Restored, KeyIfRecoverable;
    if keys != {} {
      var k := Least(keys);
      RecoverKeysView(cfg, RecoverOne(cfg, c, k), keys - {k});
    }
  }

  lemma PlaysOne(cfg: ClientConfig, c: Client, op: Op)
    ensures var (d, frame) := Apply(cfg, c, op); Plays(cfg, c, [op], Outcome(d, frame, []))
  {
    hide Apply;
    assert Play(cfg, Apply(cfg, c, op).0, [op][1..]) == (Apply(cfg, c, op).0, []);
  }

  lemma FinalizePlays(cfg: ClientConfig, c: Client, k: nat, m: Moment)
    requires c.WellFormed() && k in c.assemblies && cfg.jitterBufferEnabled
    ensures Plays(cfg, c, FinalizeOps(cfg, c, k, m), Finalize(cfg, c, k, m))
  {
    hide Complete, Buffer, RequestMissing, TryPop, Play, Plays, ViewOf, Client.WellFormed, CompletedFrame;
    var frame := CompletedFrame(cfg, c.assemblies[k], m.now);
    var c1 := Complete(cfg, c, k, m.now);
    CompleteView(cfg, c, k, m.now);
    var c2 := Buffer(c1, frame);
    PlaysOne(cfg, c1, Insert(frame));
    PlaysFrom(cfg, c1, c, [Insert(frame)], Outcome(c2, None, []));
    if m.defer {
      assert FinalizeOps(cfg, c, k, m) == [Insert(frame)];
    } else {
      BufferWellFormed(c1, frame);
      var c3 := RequestMissing(cfg, c2, m).0;
      RequestsView(cfg, c2, m);
      PlaysOne(cfg, c3, TryOne(m.now, m.limits));
      var (d, popped) := TryPop(cfg, c3, m.now, m.limits);
      PlaysFrom(cfg, c3, c2, [TryOne(m.now, m.limits)], Outcome(d, popped, []));
      PlaysThen(cfg, c, [Insert(frame)], Outcome(c2, None, []), [TryOne(m.now, m.limits)], Outcome(d, popped, []),
        Finalize(cfg, c, k, m));
    }
  }

  lemma {:induction false} FinalizeKeysPlays(cfg: ClientConfig, c: Client, keys: seq<nat>, m: Moment)
    requires c.WellFormed() && cfg.jitterBufferEnabled
    ensures Plays(cfg, c, FinalizeKeysOps(cfg, c, keys, m), FinalizeKeys(cfg, c, keys, m))
    decreases |keys|
  {
    hide Finalize, FinalizeOps, Plays, Client.WellFormed, Assembly.Complete, ViewOf;
    if keys == [] {
      PlaysNothing(cfg, c, FinalizeKeys(cfg, c, keys, m));
    } else if keys[0] !in c.assemblies || !c.assemblies[keys[0]].Complete() {
      FinalizeKeysPlays(cfg, c, keys[1..], m);
    } else {
      var o, ops := Finalize(cfg, c, keys[0], m), FinalizeOps(cfg, c, keys[0], m);
      FinalizePlays(cfg, c, keys[0], m);
      if o.frame.Some? {
        assert ops + [] == ops;
      } else {
        FinalizeKeysPlays(cfg, o.client, keys[1..], m);
        PlaysThen(cfg, c, ops, o, FinalizeKeysOps(cfg, o.client, keys[1..], m),
          FinalizeKeys(cfg, o.client, keys[1..], m), FinalizeKeys(cfg, c, keys, m));
      }
    }
  }

  lemma OpenedView(cfg: ClientConfig, c: Client, p: Parsed, now: nat)
    requires c.WellFormed() && p.Accepted()
    ensures ViewOf(Opened(cfg, c, p, now)) == ViewOf(c)
  {
    hide Client.WellFormed, NewAssembly;
  }

  lemma ProgressedView(cfg: ClientConfig, c: Client, p: Parsed, now: nat)
    requires c.WellFormed() && p.Accepted() && p.fragment.metadata.sequence in c.assemblies
    requires SameLayout(c.assemblies[p.fragment.metadata.sequence], p.fragment)
    ensures ViewOf(Progressed(cfg, c, p, now)) == ViewOf(c)
  {
    hide StoreParity, StoreData, Restored, Recoverable, Client.WellFormed, SameLayout;
  }

  lemma AcceptPlays(cfg: ClientConfig, c: Client, p: Parsed, m: Moment)
    requires c.WellFormed() && p.Accepted() && cfg.jitterBufferEnabled
    ensures Plays(cfg, c, AcceptOps(cfg, c, p, m), Accept(cfg, c, p, m))
  {
    hide Opened, Stored, RecoverOne, Finalize, FinalizeOps, SameLayout, Client.WellFormed, Assembly.Complete, Plays;
    var k, c1 := p.fragment.metadata.sequence, Opened(cfg, c, p, m.now);
    OpenedView(cfg, c, p, m.now);
    if !SameLayout(c1.assemblies[k], p.fragment) {
      PlaysNothing(cfg, c, Accept(cfg, c, p, m));
    } else {
      var c3 := Progressed(cfg, c1, p, m.now);
      ProgressedView(cfg, c1, p, m.now);
      if c3.assemblies[k].Complete() {
        FinalizePlays(cfg, c3, k, m);
        PlaysFrom(cfg, c3, c, FinalizeOps(cfg, c3, k, m), Finalize(cfg, c3, k, m));
      } else {
        PlaysNothing(cfg, c, Accept(cfg, c, p, m));
      }
    }
  }

  lemma PruneView(c: Client, now: nat)
    requires c.WellFormed()
    ensures ViewOf(PruneExpired(c, now)) == ViewOf(c)
  {
    hide Client.WellFormed, ExpiredKeys;
  }

  lemma DatagramPlays(cfg: ClientConfig, c: Client, data: bytes, m: Moment)
    requires c.WellFormed() && cfg.jitterBufferEnabled
    ensures Plays(cfg, c, StepOps(cfg, c, Datagram(data, m)), ReceiveDatagram(cfg, c, data, m))
  {
    hide Parse, Accept, AcceptOps, PruneExpired, Client.WellFormed, Plays;
    var c0 := c.(stats := c.stats.(datagramsReceived := c.stats.datagramsReceived + 1));
    assert c0.WellFormed() by { WellFormedIgnores(c, c0); }
    PruneView(c0, m.now);
    var p, c1 := Parse(data), PruneExpired(c0, m.now);
    if p.Invalid? || p.fragment.metadata.sequence in c1.recentSet {
      PlaysNothing(cfg, c, ReceiveDatagram(cfg, c, data, m));
    } else {
      AcceptPlays(cfg, c1, p, m);
      PlaysFrom(cfg, c1, c, AcceptOps(cfg, c1, p, m), Accept(cfg, c1, p, m));
    }
  }

  /** Every step of the client plays its operations on the jitter buffer, and emits what they emit. */
  lemma StepPlays(cfg: ClientConfig, c: Client, e: Event)
    requires c.WellFormed() && cfg.jitterBufferEnabled
    ensures Plays(cfg, c, StepOps(cfg, c, e), Step(cfg, c, e))
  {
    hide ReceiveDatagram, FinalizeKeys, FinalizeKeysOps, RecoverKeys, RequestMissing, TryPop, PruneExpired, AcceptOps,
        Client.WellFormed, Plays;
    match e
    case Datagram(data, m) => DatagramPlays(cfg, c, data, m);
    case Recovery(m) =>
      RecoverKeysView(cfg, c, c.assemblies.Keys);
      var (c1, recovered) := RecoverKeys(cfg, c, c.assemblies.Keys);
      FinalizeKeysPlays(cfg, c1, recovered, m);
      PlaysFrom(cfg, c1, c, FinalizeKeysOps(cfg, c1, recovered, m), FinalizeKeys(cfg, c1, recovered, m));
    case Prune(m) =>
      PruneView(c, m.now);
      PlaysNothing(cfg, c, Step(cfg, c, e));
    case RequestNacks(m) =>
      RequestsView(cfg, c, m);
      PlaysNothing(cfg, c, Outcome(RequestMissing(cfg, c, m).0, None, []));
      PlaysSame(cfg, c, [], Outcome(RequestMissing(cfg, c, m).0, None, []), Step(cfg, c, e));
    case Pop(m) =>
      PlaysOne(cfg, c, TryOne(m.now, m.limits));
  }

  lemma PlaysSame(cfg: ClientConfig, c: Client, ops: seq<Op>, o: Outcome, p: Outcome)
    requires Plays(cfg, c, ops, o) && p.client == o.client && p.frame == o.frame
    ensures Plays(cfg, c, ops, p)
  {
  }

  // ----- runs

  /** The operations of the steps `events` after the run `before`. */
  ghost function RunOps(cfg: ClientConfig, before: seq<Event>, events: seq<Event>): seq<Op>
    decreases |events|
  {
    if events == [] then []
    else
      var init, last := events[..|events| - 1], events[|events| - 1];
      RunOps(cfg, before, init) + StepOps(cfg, Run(cfg, before + init), last)
  }

  /** What a run emits after `before`, as sequences. */
  ghost function EmittedSequences(cfg: ClientConfig, before: seq<Event>, events: seq<Event>): seq<nat>
    decreases |events|
  {
    if events == [] then []
    else
      var init, last := events[..|events| - 1], events[|events| - 1];
      var frame := Step(cfg, Run(cfg, before + init), last).frame;
      EmittedSequences(cfg, before, init) + if frame.Some? then [frame.value.metadata.sequence] else []
  }

  lemma {:induction false} EmittedSplit(cfg: ClientConfig, before: seq<Event>, events: seq<Event>)
    ensures Sequences(Emitted(cfg, before + events)) ==
      Sequences(Emitted(cfg, before)) + EmittedSequences(cfg, before, events)
    decreases |events|
  {
    hide Step, Run;
    if events == [] {
      assert before + events == before;
    } else {
      var init, last := events[..|events| - 1], events[|events| - 1];
      EmittedSplit(cfg, before, init);
      assert (before + events)[..|before + events| - 1] == before + init;
      var frame := Step(cfg, Run(cfg, before + init), last).frame;
      SequencesSnoc(Emitted(cfg, before + init), frame);
    }
  }

  lemma SequencesSnoc(frames: seq<ReceivedFrame>, frame: Option<ReceivedFrame>)
    ensures Sequences(frames + if frame.Some? then [frame.value] else []) ==
      Sequences(frames) + if frame.Some? then [frame.value.metadata.sequence] else []
  {
  }

  /** A stretch of a run plays its operations on the buffer it starts from. */
  lemma {:induction false} RunPlays(cfg: ClientConfig, before: seq<Event>, events: seq<Event>)
    requires cfg.jitterBufferEnabled
    ensures var (d, emitted) := Play(cfg, Run(cfg, before), RunOps(cfg, before, events));
      ViewOf(d) == ViewOf(Run(cfg, before + events)) && emitted == EmittedSequences(cfg, before, events)
    decreases |events|
  {
    hide Step, StepOps, Play, ViewOf, Run;
    var c := Run(cfg, before);
    if events == [] {
      assert before + events == before;
      PlayNothing(cfg, c);
    } else {
      var init, last := events[..|events| - 1], events[|events| - 1];
      RunPlays(cfg, before, init);
      var so, ops := Run(cfg, before + init), StepOps(cfg, Run(cfg, before + init), last);
      RunSnoc(cfg, before + init, last);
      assert before + events == before + init + [last];
      StepPlays(cfg, so, last);
      PlayConcat(cfg, c, RunOps(cfg, before, init), ops);
      PlayView(cfg, so, Play(cfg, c, RunOps(cfg, before, init)).0, ops);
    }
  }

  lemma PlayNothing(cfg: ClientConfig, c: Client)
    ensures Play(cfg, c, []) == (c, [])
  {
  }

  /** In any stretch of any run that is an episode, the emitted sequences strictly increase, and the expected sequence
      is the first one plus the frames emitted plus the frames counted as skipped. */
  lemma {:induction false} RunsEmitInOrder(cfg: ClientConfig, before: seq<Event>, events: seq<Event>)
    requires cfg.jitterBufferEnabled && Ahead(Run(cfg, before)) && Run(cfg, before).jitterBuffer != map[]
    requires Episode(cfg, Run(cfg, before), RunOps(cfg, before, events))
    ensures var c, d := Run(cfg, before), Run(cfg, before + events);
      var emitted := EmittedSequences(cfg, before, events);
      && Sequences(Emitted(cfg, before + events)) == Sequences(Emitted(cfg, before)) + emitted
      && (forall i :: 0 <= i < |emitted| ==> Expected(c) <= emitted[i])
      && (forall i, j :: 0 <= i < j < |emitted| ==> emitted[i] < emitted[j])
      && (c.hasNextSequence || d.hasNextSequence || emitted != [] ==>
            d.nextSequence == Expected(c) + |emitted| + (d.stats.skippedFrames - c.stats.skippedFrames))
  {
    hide Run, Play, RunOps, EmittedSequences, Emitted, Episode, Ahead, Expected;
    EmittedSplit(cfg, before, events);
    RunPlays(cfg, before, events);
    EmissionIsOrdered(cfg, Run(cfg, before), RunOps(cfg, before, events));
  }

  // ----- a run in which the order breaks

  lemma SingleIsStored(cfg: ClientConfig, s: SentFrame, header: MessageHeader, now: nat)
    requires s.Valid() && s.Count() == 1
    ensures var f := s.DataHeader(0); var a := NewAssembly(cfg, header, f, now);
      && SameLayout(a, f) && f.fragmentOffset + |s.Body(0)| <= f.framePayloadSize
      && var r := StoreData(a, f, s.Body(0), now);
         r.Complete() && !r.hasFec && r.metadata.sequence == s.frame.sequence
  {
    hide CountOf, Spliced;
    CutExact(s, 0);
    var a := NewAssembly(cfg, header, s.DataHeader(0), now);
    assert a.received == [false];
  }

  lemma RecoversNothing(cfg: ClientConfig, c: Client, k: nat)
    requires c.WellFormed() && k in c.assemblies && !c.assemblies[k].hasFec
    ensures RecoverOne(cfg, c, k) == c
  {
    hide Assembly.WellFormed;
    assert c.assemblies[k := c.assemblies[k]] == c.assemblies;
  }

  /** Nothing is under way, and at most `n` sequences are remembered. */
  ghost predicate Quiet(c: Client, n: nat) {
    c.assemblies == map[] && |c.recentOrder| <= n
  }

  /** A frame of one fragment is completed by its datagram and goes to the jitter buffer. */
  lemma SingleIsBuffered(cfg: ClientConfig, c: Client, s: SentFrame, p: Parsed, m: Moment, n: nat)
      returns (f: ReceivedFrame)
    requires s.Valid() && s.Count() == 1 && cfg.jitterBufferEnabled && m.defer
    requires c.WellFormed() && Quiet(c, n) && n < RECENT_WINDOW && s.frame.sequence !in c.recentSet
    requires p.Accepted() && p.fragment == s.DataHeader(0) && p.body == s.Body(0)
    ensures f.metadata.sequence == s.frame.sequence && f.receiveTimestamp == m.now
    ensures var o := Accept(cfg, c, p, m);
      && o.frame.None? && ViewOf(o.client) == ViewOf(Buffer(c, f)) && Quiet(o.client, n + 1)
      && o.client.recentSet == c.recentSet + {s.frame.sequence}
  {
    hide CountOf, StoreData, RecoverOne, NewAssembly, Client.WellFormed, SentFrame.Body, SameLayout, CountTrue;
    var k := s.frame.sequence;
    var a := NewAssembly(cfg, p.header, p.fragment, m.now);
    SingleIsStored(cfg, s, p.header, m.now);
    var c2 := Stored(cfg, Opened(cfg, c, p, m.now), p, m.now);
    assert c2.assemblies[k] == StoreData(a, p.fragment, p.body, m.now);
    RecoversNothing(cfg, c2, k);
    f := CompletedFrame(cfg, c2.assemblies[k], m.now);
    assert c2.assemblies - {k} == map[];
  }

  lemma PruneNothing(c: Client, now: nat)
    requires c.WellFormed() && c.assemblies == map[]
    ensures PruneExpired(c, now) == c
  {
    assert ExpiredKeys(c, now) == {};
    GiveUpNone(c);
  }

  lemma SingleArrives(cfg: ClientConfig, c: Client, s: SentFrame, m: Moment, n: nat) returns (f: ReceivedFrame)
    requires s.Valid() && s.Count() == 1 && cfg.jitterBufferEnabled && m.defer
    requires c.WellFormed() && Quiet(c, n) && n < RECENT_WINDOW && s.frame.sequence !in c.recentSet
    ensures f.metadata.sequence == s.frame.sequence && f.receiveTimestamp == m.now
    ensures var o := Step(cfg, c, Datagram(s.DataDatagram(0), m));
      && o.frame.None? && ViewOf(o.client) == ViewOf(Buffer(c, f)) && Quiet(o.client, n + 1)
      && o.client.recentSet == c.recentSet + {s.frame.sequence}
  {
    hide CountOf, Accept, Parse, PruneExpired, Client.WellFormed, SentFrame.DataDatagram, SentFrame.Body;
    var c0 := c.(stats := c.stats.(datagramsReceived := c.stats.datagramsReceived + 1));
    WellFormedIgnores(c, c0);
    PruneNothing(c0, m.now);
    DataParses(s, 0);
    f := SingleIsBuffered(cfg, c0, s, Parse(s.DataDatagram(0)), m, n);
  }

  lemma FirstCandidate(c: Client, k: nat, now: nat, limits: PopLimits)
    requires !c.hasNextSequence && k in c.jitterBuffer && forall j :: j in c.jitterBuffer ==> k <= j
    ensures c.jitterBuffer != map[] && PopCandidate(c, now, limits) == Some(k)
  {
    assert Least(c.jitterBuffer.Keys) == k;
  }

  lemma EmitEffect(c: Client, k: nat, now: nat, limits: PopLimits)
    requires k in c.jitterBuffer && |c.jitterBuffer| >= limits.maxFrames && k + 1 < U64
    ensures var d := Emit(Advance(c, k), k);
      && Ripe(Advance(c, k), k, now, limits)
      && d.jitterBuffer == c.jitterBuffer - {k} && d.nextSequence == k + 1
      && (d.hasNextSequence <==> c.jitterBuffer - {k} != map[])
      && d.assemblies == c.assemblies && d.recentOrder == c.recentOrder && d.recentSet == c.recentSet
  {
    assert |c.jitterBuffer| > 0;
  }

  lemma TwoBuffered(buffer: map<nat, BufferedFrame>, a: BufferedFrame, b: BufferedFrame, k: nat, j: nat)
    requires k < j && buffer == map[k := a, j := b]
    ensures |buffer| == 2 && buffer - {k} == map[j := b]
  {
    assert buffer.Keys == {k, j} && |buffer.Keys| == 2;
  }

  /** The first pop, when two frames are buffered and two are as many as may wait. */
  lemma FirstOfTwo(cfg: ClientConfig, c: Client, a: BufferedFrame, b: BufferedFrame, k: nat, j: nat, m: Moment)
    requires cfg.jitterBufferEnabled && k < j < U64 && m.limits.maxFrames <= 2
    requires c.WellFormed() && c.jitterBuffer == map[k := a, j := b] && !c.hasNextSequence
    ensures var o := Step(cfg, c, Pop(m));
      && o.frame == Some(a.frame) && o.client.jitterBuffer == map[j := b]
      && o.client.hasNextSequence && o.client.nextSequence == k + 1
      && o.client.assemblies == c.assemblies
      && o.client.recentOrder == c.recentOrder && o.client.recentSet == c.recentSet
  {
    hide Client.WellFormed, PopCandidate, Ripe, Advance, Emit;
    TwoBuffered(c.jitterBuffer, a, b, k, j);
    FirstCandidate(c, k, m.now, m.limits);
    EmitEffect(c, k, m.now, m.limits);
    assert j in map[j := b];
  }

  lemma ResetIsQuiet(cfg: ClientConfig)
    ensures Quiet(RESET, 0) && Run(cfg, []) == RESET && Sequences(Emitted(cfg, [])) == []
  {
  }

  lemma RunStep(cfg: ClientConfig, events: seq<Event>, e: Event)
    ensures Run(cfg, events + [e]) == Step(cfg, Run(cfg, events), e).client
    ensures var frame := Step(cfg, Run(cfg, events), e).frame;
      Sequences(Emitted(cfg, events + [e])) ==
      Sequences(Emitted(cfg, events)) + if frame.Some? then [frame.value.metadata.sequence] else []
  {
    hide Step;
    assert (events + [e])[..|events|] == events;
    SequencesSnoc(Emitted(cfg, events), Step(cfg, Run(cfg, events), e).frame);
  }

  lemma BuffersOne(c: Client, f: ReceivedFrame)
    requires f.metadata.sequence !in c.jitterBuffer
    ensures ViewOf(Buffer(c, f)) ==
      ViewOf(c).(jitterBuffer := c.jitterBuffer[f.metadata.sequence := BufferedFrame(f, f.receiveTimestamp)])
  {
  }

  lemma QuietIgnores(c: Client, d: Client, n: nat)
    requires Quiet(c, n) && d.assemblies == c.assemblies && d.recentOrder == c.recentOrder
    ensures Quiet(d, n)
  {
  }

  lemma PopView(cfg: ClientConfig, c: Client, d: Client, m: Moment)
    requires ViewOf(c) == ViewOf(d) && c.WellFormed()
    ensures Step(cfg, c, Pop(m)).frame == TryPop(cfg, d, m.now, m.limits).1
  {
    hide TryPop;
    TryPopView(cfg, c, d, m.now, m.limits);
  }

  lemma RunBuffersConsistently(cfg: ClientConfig, events: seq<Event>)
    ensures BufferConsistent(Run(cfg, events))
  {
    RunKeeps(cfg, events);
  }

  /** Two frames arrive and the first is emitted. */
  lemma MiddleGoesFirst(cfg: ClientConfig, mid: SentFrame, high: SentFrame, ms: seq<Moment>)
    requires mid.Valid() && high.Valid() && mid.Count() == high.Count() == 1
    requires mid.frame.sequence < high.frame.sequence
    requires cfg.jitterBufferEnabled && |ms| == 3 && ms[0].defer && ms[1].defer && ms[2].limits.maxFrames <= 2
    ensures var events := [Datagram(mid.DataDatagram(0), ms[0]), Datagram(high.DataDatagram(0), ms[1]), Pop(ms[2])];
      var c := Run(cfg, events);
      && Sequences(Emitted(cfg, events)) == [mid.frame.sequence]
      && c.jitterBuffer.Keys == {high.frame.sequence} && c.hasNextSequence && c.nextSequence == mid.frame.sequence + 1
      && Quiet(c, 2) && c.recentSet == {mid.frame.sequence, high.frame.sequence}
  {
    hide Step, SentFrame.DataDatagram, CountOf, Quiet, Client.WellFormed, Run, Emitted, Buffer;
    var e0, e1, e2 := Datagram(mid.DataDatagram(0), ms[0]), Datagram(high.DataDatagram(0), ms[1]), Pop(ms[2]);
    ResetIsQuiet(cfg);
    var f0 := SingleArrives(cfg, RESET, mid, ms[0], 0);
    RunStep(cfg, [], e0);
    assert [] + [e0] == [e0];
    var c1 := Run(cfg, [e0]);
    BuffersOne(RESET, f0);
    var f1 := SingleArrives(cfg, c1, high, ms[1], 1);
    RunStep(cfg, [e0], e1);
    assert [e0] + [e1] == [e0, e1];
    var c2 := Run(cfg, [e0, e1]);
    BuffersOne(c1, f1);
    var a, b := BufferedFrame(f0, ms[0].now), BufferedFrame(f1, ms[1].now);
    FirstOfTwo(cfg, c2, a, b, mid.frame.sequence, high.frame.sequence, ms[2]);
    RunStep(cfg, [e0, e1], e2);
    assert [e0, e1] + [e2] == [e0, e1, e2];
    QuietIgnores(c2, Run(cfg, [e0, e1, e2]), 2);
  }

  /** The order of emission is not the order of sequences: with a depth limit of two, a run of three frames emits the
      middle one first and then the one that came late. */
  lemma {:induction false} LateFrameIsEmittedLate(cfg: ClientConfig, low: SentFrame, mid: SentFrame, high: SentFrame,
      ms: seq<Moment>)
    requires low.Valid() && mid.Valid() && high.Valid() && low.Count() == mid.Count() == high.Count() == 1
    requires low.frame.sequence < mid.frame.sequence && mid.frame.sequence + 1 < high.frame.sequence
    requires cfg.jitterBufferEnabled && |ms| == 5 && ms[0].defer && ms[1].defer && ms[3].defer
    requires ms[2].limits.maxFrames <= 2 && ms[4].limits.maxFrames <= 2
    ensures var events :=
        [Datagram(mid.DataDatagram(0), ms[0]), Datagram(high.DataDatagram(0), ms[1]), Pop(ms[2]),
         Datagram(low.DataDatagram(0), ms[3]), Pop(ms[4])];
      Sequences(Emitted(cfg, events)) == [mid.frame.sequence, low.frame.sequence]
  {
    hide Step, SentFrame.DataDatagram, CountOf, Quiet, Client.WellFormed, Run, Emitted, Buffer, BufferConsistent;
    var before := [Datagram(mid.DataDatagram(0), ms[0]), Datagram(high.DataDatagram(0), ms[1]), Pop(ms[2])];
    var e, pop := Datagram(low.DataDatagram(0), ms[3]), Pop(ms[4]);
    MiddleGoesFirst(cfg, mid, high, ms[..3]);
    var c := Run(cfg, before);
    var late := SingleArrives(cfg, c, low, ms[3], 2);
    RunStep(cfg, before, e);
    RunBuffersConsistently(cfg, before);
    LateInsertGoesBack(cfg, c, late, ms[4].now, ms[4].limits);
    OneKey(c.jitterBuffer, high.frame.sequence);
    PopView(cfg, Run(cfg, before + [e]), Buffer(c, late), ms[4]);
    RunStep(cfg, before + [e], pop);
    assert before + [e] + [pop] ==
      [Datagram(mid.DataDatagram(0), ms[0]), Datagram(high.DataDatagram(0), ms[1]), Pop(ms[2]), e, pop];
  }

  lemma OneKey<V>(m: map<nat, V>, k: nat)
    requires m.Keys == {k}
    ensures |m| == 1
  {
    assert |m.Keys| == 1;
  }
}
