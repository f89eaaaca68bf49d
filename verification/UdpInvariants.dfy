/** What every operation of the UDP receiver keeps, whatever bytes arrive and whenever. */
module UdpInvariants {
  import opened Bytes
  import opened Protocol
  import opened Fec
  import opened UdpClientState
  import opened UdpClientSpec

  // ----- the fragment ledger

  /** Every fragment of every assembly ever made was received once, recovered, given up, or is still missing. */
  ghost predicate Ledger(c: Client)
    requires c.WellFormed()
  {
    c.created + c.stats.duplicateFragments ==
      c.stats.fragmentsReceived + c.stats.fecRecoveredFragments + c.stats.timedOutFragments + TotalMissing(c.assemblies)
  }

  // ----- duplicate suppression

  ghost function Sequences(frames: seq<ReceivedFrame>): (s: seq<nat>)
    ensures |s| == |frames|
  {
    seq(|frames|, i requires 0 <= i < |frames| => frames[i].metadata.sequence)
  }

  ghost function LastN(s: seq<nat>, n: nat): seq<nat> {
    if |s| <= n then s else s[|s| - n..]
  }

  /** A sequence comes back only after at least `RECENT_WINDOW` others. */
  ghost predicate Spaced(s: seq<nat>) {
    forall i, j :: 0 <= i < j < |s| && s[i] == s[j] ==> j - i > RECENT_WINDOW
  }

  ghost predicate Suppression(c: Client) {
    && c.recentOrder == LastN(Sequences(c.completed), RECENT_WINDOW)
    && c.recentSet == (set x | x in c.recentOrder)
    && c.recentSet !! c.assemblies.Keys
    && Spaced(Sequences(c.completed))
  }

  // ----- conservation of completed frames

  ghost predicate Conservation(cfg: ClientConfig, c: Client) {
    && BufferConsistent(c)
    && c.stats.completedFrames == |c.completed|
    && (cfg.jitterBufferEnabled ==>
          c.stats.completedFrames == c.stats.emittedFrames + c.stats.droppedFrames + |c.jitterBuffer|)
    && (!cfg.jitterBufferEnabled ==> c.jitterBuffer == map[])
  }

  ghost predicate BufferConsistent(c: Client) {
    && c.stats.currentDepth == |c.jitterBuffer| <= c.stats.maxDepth
    && (c.hasNextSequence ==> c.jitterBuffer != map[])
    && (forall k :: k in c.jitterBuffer ==>
          c.jitterBuffer[k].frame.metadata.sequence == k && c.jitterBuffer[k].frame in c.completed)
  }

  ghost predicate Inv(cfg: ClientConfig, c: Client) {
    c.WellFormed() && Ledger(c) && Suppression(c) && Conservation(cfg, c)
  }

  lemma ResetInv(cfg: ClientConfig)
    ensures Inv(cfg, RESET)
  {
    assert Sequences([]) == [];
  }

  /** Only the counters the invariant does not speak of differ. */
  lemma SameExceptCounters(cfg: ClientConfig, c: Client, d: Client)
    requires Inv(cfg, c)
    requires d == c.(stats := d.stats)
    requires d.stats == c.stats.(
      datagramsReceived := d.stats.datagramsReceived, invalidDatagrams := d.stats.invalidDatagrams,
      staleDatagramsDropped := d.stats.staleDatagramsDropped)
    ensures Inv(cfg, d)
  {
  }

  lemma GiveUpKeeps(cfg: ClientConfig, c: Client, gone: set<nat>)
    requires Inv(cfg, c) && gone <= c.assemblies.Keys
    ensures Inv(cfg, GiveUp(c, gone))
  {
    hide TotalMissing, Restrict, Spaced, CountTrue;
    TotalMissingSplit(c.assemblies, gone);
  }

  /** One assembly replaced or added, with the ledger entries that go with it. */
  lemma UpdateKeeps(cfg: ClientConfig, c: Client, d: Client, k: nat)
    requires Inv(cfg, c) && k !in c.recentSet && k in d.assemblies
    requires d == c.(assemblies := c.assemblies[k := d.assemblies[k]], stats := d.stats, created := d.created)
    requires d.assemblies[k].WellFormed() && d.assemblies[k].metadata.sequence == k
    requires d.stats == c.stats.(
      fragmentsReceived := d.stats.fragmentsReceived, duplicateFragments := d.stats.duplicateFragments,
      fecRecoveredFragments := d.stats.fecRecoveredFragments, fecRecoveredFrames := d.stats.fecRecoveredFrames,
      fecFragmentsReceived := d.stats.fecFragmentsReceived,
      nackRequestsSent := d.stats.nackRequestsSent, nackFragmentsRequested := d.stats.nackFragmentsRequested)
    requires
      d.created - c.created + d.stats.duplicateFragments - c.stats.duplicateFragments ==
      d.stats.fragmentsReceived - c.stats.fragmentsReceived
      + d.stats.fecRecoveredFragments - c.stats.fecRecoveredFragments
      + d.assemblies[k].MissingCount() - (if k in c.assemblies then c.assemblies[k].MissingCount() else 0)
    ensures Inv(cfg, d)
  {
    hide TotalMissing, Spaced, CountTrue;
    TotalMissingUpdate(c.assemblies, k, d.assemblies[k]);
  }

  lemma OpenedKeeps(cfg: ClientConfig, c: Client, p: Parsed, now: nat)
    requires Inv(cfg, c) && p.Accepted() && p.fragment.metadata.sequence !in c.recentSet
    ensures Inv(cfg, Opened(cfg, c, p, now))
  {
    hide CountTrue, TotalMissing, Spaced;
    var k := p.fragment.metadata.sequence;
    if k !in c.assemblies {
      UpdateKeeps(cfg, c, Opened(cfg, c, p, now), k);
    }
  }

  lemma StoredKeeps(cfg: ClientConfig, c: Client, p: Parsed, now: nat)
    requires Inv(cfg, c) && p.Accepted() && p.fragment.metadata.sequence in c.assemblies
    requires SameLayout(c.assemblies[p.fragment.metadata.sequence], p.fragment)
    ensures Inv(cfg, Stored(cfg, c, p, now))
  {
    hide CountTrue, TotalMissing, Spaced;
    UpdateKeeps(cfg, c, Stored(cfg, c, p, now), p.fragment.metadata.sequence);
  }

  lemma RecoverOneKeeps(cfg: ClientConfig, c: Client, k: nat)
    requires Inv(cfg, c) && k in c.assemblies
    ensures Inv(cfg, RecoverOne(cfg, c, k))
  {
    hide CountTrue, TotalMissing, Spaced, Spliced, XorFold;
    UpdateKeeps(cfg, c, RecoverOne(cfg, c, k), k);
  }

  lemma RequestOneKeeps(cfg: ClientConfig, c: Client, k: nat, m: Moment)
    requires Inv(cfg, c) && k in c.assemblies
    ensures Inv(cfg, RequestOne(cfg, c, k, m).0)
  {
    hide CountTrue, TotalMissing, Spaced, SendNack, NackDue;
    if NackDue(cfg, c.assemblies[k], m.now) {
      UpdateKeeps(cfg, c, RequestOne(cfg, c, k, m).0, k);
    }
  }

  lemma {:induction false} RecoverKeysKeeps(cfg: ClientConfig, c: Client, keys: set<nat>)
    requires Inv(cfg, c) && keys <= c.assemblies.Keys
    ensures Inv(cfg, RecoverKeys(cfg, c, keys).0)
    decreases |keys|
  {
    hide Inv, RecoverOne, KeyIfRecoverable;
    if keys != {} {
      var k := Least(keys);
      assert c.WellFormed() by { InvWellFormed(cfg, c); }
      RecoverOneKeeps(cfg, c, k);
      RecoverKeysKeeps(cfg, RecoverOne(cfg, c, k), keys - {k});
    }
  }

  lemma InvWellFormed(cfg: ClientConfig, c: Client)
    requires Inv(cfg, c)
    ensures c.WellFormed()
  {
  }

  lemma {:induction false} RequestKeysKeeps(cfg: ClientConfig, c: Client, keys: set<nat>, m: Moment)
    requires Inv(cfg, c) && keys <= c.assemblies.Keys
    ensures Inv(cfg, RequestKeys(cfg, c, keys, m).0)
    decreases |keys|
  {
    hide Inv, RequestOne;
    if keys != {} {
      var k := Least(keys);
      assert c.WellFormed() by { InvWellFormed(cfg, c); }
      RequestOneKeeps(cfg, c, k, m);
      RequestKeysKeeps(cfg, RequestOne(cfg, c, k, m).0, keys - {k}, m);
    }
  }

  // ----- completion

  /** The window after one more sequence is the window of the longer history. */
  lemma LastNSnoc(s: seq<nat>, k: nat)
    ensures LastN(s + [k], RECENT_WINDOW) ==
      var order := LastN(s, RECENT_WINDOW) + [k];
      if |order| > RECENT_WINDOW then order[1..] else order
  {
  }

  lemma RecentInWindow(s: seq<nat>, i: nat)
    requires i < |s|
    ensures |s| - i <= RECENT_WINDOW ==> s[i] in LastN(s, RECENT_WINDOW)
  {
    if |s| - i <= RECENT_WINDOW {
      var w := LastN(s, RECENT_WINDOW);
      assert w[i - (|s| - |w|)] == s[i];
    }
  }

  lemma SpacedSnoc(s: seq<nat>, k: nat)
    requires Spaced(s) && k !in LastN(s, RECENT_WINDOW)
    ensures Spaced(s + [k])
  {
    forall i | 0 <= i < |s| && s[i] == k
      ensures |s| - i > RECENT_WINDOW
    {
      RecentInWindow(s, i);
    }
  }

  lemma RememberKeeps(c: Client, d: Client, k: nat)
    requires Suppression(c) && k in c.assemblies
    requires |d.completed| == |c.completed| + 1 && d.completed[..|c.completed|] == c.completed
    requires d.completed[|c.completed|].metadata.sequence == k
    requires d.assemblies == c.assemblies - {k}
    requires d.recentOrder == Remember(c, k).recentOrder && d.recentSet == Remember(c, k).recentSet
    ensures Suppression(d)
  {
    hide Spaced, LastN;
    var s := Sequences(c.completed);
    assert Sequences(d.completed) == s + [k];
    assert k !in c.recentOrder;
    LastNSnoc(s, k);
    SpacedSnoc(s, k);
    var order := c.recentOrder + [k];
    assert Elements(order) == c.recentSet + {k};
    if |order| > RECENT_WINDOW {
      LastNLength(s, k);
      WindowDistinct(s);
      ElementsWithoutFirst(order);
      assert order[..1] == [order[0]];
      assert Elements(order[1..]) == (set x | x in order[1..]);
    } else {
      assert order[0..] == order;
    }
  }

  lemma LastNLength(s: seq<nat>, k: nat)
    ensures |LastN(s, RECENT_WINDOW)| <= RECENT_WINDOW
  {
  }

  ghost function Elements(s: seq<nat>): set<nat> {
    set x | x in s
  }

  lemma ElementsWithoutFirst(s: seq<nat>)
    requires s != [] && forall i, j :: 0 <= i < j < |s| ==> s[i] != s[j]
    ensures Elements(s[1..]) == Elements(s) - {s[0]}
  {
    assert s == [s[0]] + s[1..];
    assert s[0] !in s[1..];
  }

  /** The sequences in the window are pairwise distinct. */
  lemma WindowDistinct(s: seq<nat>)
    requires Spaced(s)
    ensures var w := LastN(s, RECENT_WINDOW); forall i, j :: 0 <= i < j < |w| ==> w[i] != w[j]
  {
    var w := LastN(s, RECENT_WINDOW);
    forall i, j | 0 <= i < j < |w|
      ensures w[i] != w[j]
    {
      var d := |s| - |w|;
      assert w[i] == s[i + d] && w[j] == s[j + d];
    }
  }

  lemma CompleteKeeps(cfg: ClientConfig, c: Client, k: nat, now: nat)
    requires Inv(cfg, c) && k in c.assemblies && c.assemblies[k].Complete()
    ensures var d := Complete(cfg, c, k, now);
      && d.WellFormed() && Ledger(d) && Suppression(d)
      && d == c.(assemblies := d.assemblies, recentOrder := d.recentOrder, recentSet := d.recentSet,
                 stats := d.stats, completed := d.completed)
      && d.completed == c.completed + [CompletedFrame(cfg, c.assemblies[k], now)]
      && d.stats == c.stats.(completedFrames := c.stats.completedFrames + 1)
  {
    hide TotalMissing, Spaced, CountTrue, LastN, Sequences;
    var d := Complete(cfg, c, k, now);
    TotalMissingRemove(c.assemblies, k);
    RememberKeeps(c, d, k);
  }

  lemma FinalizeKeeps(cfg: ClientConfig, c: Client, k: nat, m: Moment)
    requires Inv(cfg, c) && k in c.assemblies && c.assemblies[k].Complete()
    ensures Inv(cfg, Finalize(cfg, c, k, m).client)
  {
    hide TotalMissing, Suppression, Spaced, CountTrue, LastN, Sequences, Complete, RequestMissing, TryPop;
    var frame := CompletedFrame(cfg, c.assemblies[k], m.now);
    var c1 := Complete(cfg, c, k, m.now);
    CompleteKeeps(cfg, c, k, m.now);
    if cfg.jitterBufferEnabled {
      var c2 := Buffer(c1, frame);
      BufferKeeps(cfg, c1, frame);
      if !m.defer {
        RequestMissingKeeps(cfg, c2, m);
        TryPopKeeps(cfg, RequestMissing(cfg, c2, m).0, m.now, m.limits);
      }
    } else {
      SuppressionIgnores(c1, c1);
    }
  }

  lemma SuppressionIgnores(c: Client, d: Client)
    requires Suppression(c)
    requires d.completed == c.completed && d.recentOrder == c.recentOrder && d.recentSet == c.recentSet
    requires d.assemblies == c.assemblies
    ensures Suppression(d)
  {
  }

  /** A frame completed but not yet buffered is the one frame the conservation law is short of. */
  lemma BufferKeeps(cfg: ClientConfig, c: Client, frame: ReceivedFrame)
    requires c.WellFormed() && Ledger(c) && Suppression(c) && cfg.jitterBufferEnabled
    requires BufferConsistent(c) && c.stats.completedFrames == |c.completed| && frame in c.completed
    requires c.stats.completedFrames == c.stats.emittedFrames + c.stats.droppedFrames + |c.jitterBuffer| + 1
    ensures Inv(cfg, Buffer(c, frame))
  {
    hide TotalMissing, Spaced, CountTrue, LastN, Sequences;
    SuppressionIgnores(c, Buffer(c, frame));
  }

  lemma RequestMissingKeeps(cfg: ClientConfig, c: Client, m: Moment)
    requires Inv(cfg, c)
    ensures Inv(cfg, RequestMissing(cfg, c, m).0)
  {
    hide Inv, RequestKeys;
    assert c.WellFormed() by { InvWellFormed(cfg, c); }
    if cfg.nackEnabled && cfg.nackMaxRequestsPerPacket != 0 {
      RequestKeysKeeps(cfg, c, c.assemblies.Keys, m);
    }
  }

  lemma AdvanceKeeps(cfg: ClientConfig, c: Client, k: nat)
    requires Inv(cfg, c) && c.jitterBuffer != map[]
    ensures Inv(cfg, Advance(c, k))
  {
    hide TotalMissing, Suppression, CountTrue;
    SuppressionIgnoresBuffer(c, Advance(c, k));
  }

  lemma EmitKeeps(cfg: ClientConfig, c: Client, k: nat)
    requires Inv(cfg, c) && k in c.jitterBuffer && cfg.jitterBufferEnabled
    ensures Inv(cfg, Emit(c, k))
  {
    hide TotalMissing, Suppression, CountTrue;
    SuppressionIgnoresBuffer(c, Emit(c, k));
    RemoveKeySize(c.jitterBuffer, k);
  }

  lemma TryPopKeeps(cfg: ClientConfig, c: Client, now: nat, limits: PopLimits)
    requires Inv(cfg, c)
    ensures Inv(cfg, TryPop(cfg, c, now, limits).0)
  {
    hide Inv, Advance, Emit, Ripe, PopCandidate;
    if cfg.jitterBufferEnabled && c.jitterBuffer != map[] {
      var candidate := PopCandidate(c, now, limits);
      if candidate.Some? {
        AdvanceKeeps(cfg, c, candidate.value);
        EmitKeeps(cfg, Advance(c, candidate.value), candidate.value);
      }
    }
  }

  lemma SuppressionIgnoresBuffer(c: Client, d: Client)
    requires d == c.(jitterBuffer := d.jitterBuffer, nextSequence := d.nextSequence,
                     hasNextSequence := d.hasNextSequence, stats := d.stats)
    ensures Suppression(d) == Suppression(c)
  {
  }

  // ----- whole steps

  lemma PruneKeeps(cfg: ClientConfig, c: Client, now: nat)
    requires Inv(cfg, c)
    ensures Inv(cfg, PruneExpired(c, now))
  {
    hide GiveUp, Inv;
    assert c.WellFormed() by { InvWellFormed(cfg, c); }
    GiveUpKeeps(cfg, c, ExpiredKeys(c, now));
  }

  lemma AcceptKeeps(cfg: ClientConfig, c: Client, p: Parsed, m: Moment)
    requires Inv(cfg, c) && p.Accepted() && p.fragment.metadata.sequence !in c.recentSet
    ensures Inv(cfg, Accept(cfg, c, p, m).client)
  {
    hide Inv, Opened, SameLayout, Stored, RecoverOne, Finalize, GiveUp;
    var k := p.fragment.metadata.sequence;
    assert c.WellFormed() by { InvWellFormed(cfg, c); }
    var c1 := Opened(cfg, c, p, m.now);
    OpenedKeeps(cfg, c, p, m.now);
    if !SameLayout(c1.assemblies[k], p.fragment) {
      GiveUpKeeps(cfg, c1, {k});
    } else {
      var c2 := Stored(cfg, c1, p, m.now);
      StoredKeeps(cfg, c1, p, m.now);
      RecoverOneKeeps(cfg, c2, k);
      var c3 := if p.fragment.fragmentRole == DATA then RecoverOne(cfg, c2, k) else c2;
      if c3.assemblies[k].Complete() {
        FinalizeKeeps(cfg, c3, k, m);
      }
    }
  }

  lemma ReceiveKeeps(cfg: ClientConfig, c: Client, data: bytes, m: Moment)
    requires Inv(cfg, c)
    ensures Inv(cfg, ReceiveDatagram(cfg, c, data, m).client)
  {
    hide Inv, PruneExpired, Parse, Accept;
    assert c.WellFormed() by { InvWellFormed(cfg, c); }
    var c0 := c.(stats := c.stats.(datagramsReceived := c.stats.datagramsReceived + 1));
    SameExceptCounters(cfg, c, c0);
    var c1 := PruneExpired(c0, m.now);
    PruneKeeps(cfg, c0, m.now);
    var p := Parse(data);
    if p.Invalid? {
      SameExceptCounters(cfg, c1, c1.(stats := c1.stats.(invalidDatagrams := c1.stats.invalidDatagrams + 1)));
    } else if p.fragment.metadata.sequence in c1.recentSet {
      SameExceptCounters(cfg, c1, c1.(stats := c1.stats.(staleDatagramsDropped := c1.stats.staleDatagramsDropped + 1)));
    } else {
      AcceptKeeps(cfg, c1, p, m);
    }
  }

  lemma {:induction false} FinalizeKeysKeeps(cfg: ClientConfig, c: Client, keys: seq<nat>, m: Moment)
    requires Inv(cfg, c)
    ensures Inv(cfg, FinalizeKeys(cfg, c, keys, m).client)
    decreases |keys|
  {
    hide Inv, Finalize;
    assert c.WellFormed() by { InvWellFormed(cfg, c); }
    if keys != [] {
      if keys[0] !in c.assemblies || !c.assemblies[keys[0]].Complete() {
        FinalizeKeysKeeps(cfg, c, keys[1..], m);
      } else {
        FinalizeKeeps(cfg, c, keys[0], m);
        FinalizeKeysKeeps(cfg, Finalize(cfg, c, keys[0], m).client, keys[1..], m);
      }
    }
  }

  lemma RecoveryKeeps(cfg: ClientConfig, c: Client, m: Moment)
    requires Inv(cfg, c)
    ensures Inv(cfg, RecoveryPass(cfg, c, m).client)
  {
    hide Inv, RecoverKeys, FinalizeKeys;
    assert c.WellFormed() by { InvWellFormed(cfg, c); }
    RecoverKeysKeeps(cfg, c, c.assemblies.Keys);
    var (c1, recovered) := RecoverKeys(cfg, c, c.assemblies.Keys);
    FinalizeKeysKeeps(cfg, c1, recovered, m);
  }

  lemma StepKeeps(cfg: ClientConfig, c: Client, e: Event)
    requires Inv(cfg, c)
    ensures Inv(cfg, Step(cfg, c, e).client)
  {
    hide Inv, ReceiveDatagram, RecoveryPass, PruneExpired, RequestMissing, TryPop;
    assert c.WellFormed() by { InvWellFormed(cfg, c); }
    match e
    case Datagram(data, m) => ReceiveKeeps(cfg, c, data, m);
    case Recovery(m) => RecoveryKeeps(cfg, c, m);
    case Prune(m) => PruneKeeps(cfg, c, m.now);
    case RequestNacks(m) => RequestMissingKeeps(cfg, c, m);
    case Pop(m) => TryPopKeeps(cfg, c, m.now, m.limits);
  }

  lemma {:induction false} RunKeeps(cfg: ClientConfig, events: seq<Event>)
    ensures Inv(cfg, Run(cfg, events))
  {
    hide Inv, Step;
    if events == [] {
      ResetInv(cfg);
    } else {
      var before := events[..|events| - 1];
      RunKeeps(cfg, before);
      StepKeeps(cfg, Run(cfg, before), events[|events| - 1]);
    }
  }

  // ----- what that means for a run

  /** Set and queue hold the same distinct sequences, at most 1024, and none of an assembly alive. */
  ghost predicate WindowExact(c: Client) {
    && |c.recentOrder| <= 1024
    && (forall k :: k in c.recentSet <==> k in c.recentOrder)
    && (forall i, j :: 0 <= i < j < |c.recentOrder| ==> c.recentOrder[i] != c.recentOrder[j])
    && c.recentSet !! c.assemblies.Keys
  }

  /** Between two completions of one sequence lie at least 1024 others. */
  ghost predicate RepeatsSpaced(completed: seq<ReceivedFrame>) {
    forall i, j :: 0 <= i < j < |completed| && completed[i].metadata.sequence == completed[j].metadata.sequence
      ==> j - i - 1 >= 1024
  }

  /** The fragment ledger balances after any run, over any bytes, timeouts and layout conflicts included. */
  lemma {:induction false} FragmentLedgerBalances(cfg: ClientConfig, events: seq<Event>)
    ensures var c := Run(cfg, events);
      c.created ==
        (c.stats.fragmentsReceived - c.stats.duplicateFragments + c.stats.fecRecoveredFragments)
        + c.stats.timedOutFragments + TotalMissing(c.assemblies)
  {
    hide Run;
    RunKeeps(cfg, events);
  }

  /** A completed sequence is refused until at least 1024 other frames have completed. */
  lemma {:induction false} CompletedSequencesAreSpaced(cfg: ClientConfig, events: seq<Event>)
    ensures WindowExact(Run(cfg, events)) && RepeatsSpaced(Run(cfg, events).completed)
  {
    hide Run;
    RunKeeps(cfg, events);
    var c := Run(cfg, events);
    WindowDistinct(Sequences(c.completed));
    forall i, j | 0 <= i < j < |c.completed| && c.completed[i].metadata.sequence == c.completed[j].metadata.sequence
      ensures j - i - 1 >= RECENT_WINDOW
    {
      assert Sequences(c.completed)[i] == Sequences(c.completed)[j];
    }
  }
}
