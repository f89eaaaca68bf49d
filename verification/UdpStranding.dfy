/** When a complete assembly can be left behind by the recovery pass, and what becomes of it. */
module UdpStranding {
  import opened Bytes
  import opened Protocol
  import opened UdpClientState
  import opened UdpClientSpec
  import opened UdpInvariants
  import opened UdpEmission

  ghost predicate NoneComplete(c: Client) {
    forall k :: k in c.assemblies ==> !c.assemblies[k].Complete()
  }

  ghost predicate NoneRecoverable(cfg: ClientConfig, c: Client)
    requires c.WellFormed()
  {
    forall k :: k in c.assemblies ==> !Recoverable(cfg, c.assemblies[k])
  }

  ghost function CompleteKeys(c: Client): set<nat> {
    set k | k in c.assemblies && c.assemblies[k].Complete()
  }

  /** The assemblies a recovery pass can restore. */
  ghost function RecoverableKeys(cfg: ClientConfig, c: Client): set<nat>
    requires c.WellFormed()
  {
    set k | k in c.assemblies && Recoverable(cfg, c.assemblies[k])
  }

  ghost predicate StrictlyAscending(s: seq<nat>) {
    forall i, j :: 0 <= i < j < |s| ==> s[i] < s[j]
  }

  lemma CompleteIsNotRecoverable(cfg: ClientConfig, a: Assembly)
    requires a.WellFormed() && a.Complete()
    ensures !Recoverable(cfg, a)
  {
  }

  /** What the first loop does: each assembly of `keys` is restored, and listed if that succeeded. */
  lemma RecoverOneEffect(cfg: ClientConfig, c: Client, k: nat)
    requires c.WellFormed() && k in c.assemblies
    ensures RecoverOne(cfg, c, k).assemblies == c.assemblies[k := Restored(cfg, c.assemblies[k])]
  {
    hide Recoverable, Restored;
  }

  lemma RecoverKeysUnfolds(cfg: ClientConfig, c: Client, keys: set<nat>)
    requires c.WellFormed() && keys <= c.assemblies.Keys
    ensures keys == {} ==> RecoverKeys(cfg, c, keys) == (c, [])
    ensures keys != {} ==>
      var k := Least(keys);
      var rest := RecoverKeys(cfg, RecoverOne(cfg, c, k), keys - {k});
      RecoverKeys(cfg, c, keys) == (rest.0, KeyIfRecoverable(cfg, c, k) + rest.1)
  {
    hide RecoverOne, KeyIfRecoverable, Client.WellFormed;
  }

  lemma {:induction false} RecoverKeysRestores(cfg: ClientConfig, c: Client, keys: set<nat>)
    requires c.WellFormed() && keys <= c.assemblies.Keys
    ensures var (d, found) := RecoverKeys(cfg, c, keys);
      && (forall k :: k in c.assemblies ==>
            d.assemblies[k] == if k in keys then Restored(cfg, c.assemblies[k]) else c.assemblies[k])
      && (forall k :: k in found <==> k in keys && Recoverable(cfg, c.assemblies[k]))
      && StrictlyAscending(found)
    decreases |keys|
  {
    hide Recoverable, Restored, Client.WellFormed, Assembly.WellFormed, RecoverOne, StrictlyAscending, RecoverKeys;
    RecoverKeysUnfolds(cfg, c, keys);
    if keys != {} {
      var k := Least(keys);
      var c1 := RecoverOne(cfg, c, k);
      RecoverOneEffect(cfg, c, k);
      RecoverKeysRestores(cfg, c1, keys - {k});
      var rest := RecoverKeys(cfg, c1, keys - {k}).1;
      AscendingCons(k, rest);
      assert [] + rest == rest;
    } else {
      NoneAscend();
    }
  }

  lemma NoneAscend()
    ensures StrictlyAscending([])
  {
  }

  lemma AscendingCons(k: nat, rest: seq<nat>)
    requires StrictlyAscending(rest) && forall j :: j in rest ==> k < j
    ensures StrictlyAscending([k] + rest)
  {
    forall i | 0 <= i < |rest|
      ensures k < rest[i]
    {
      assert rest[i] in rest;
    }
  }

  /** After the first loop the complete assemblies are those that were and the restored ones, and none is
      recoverable any more. */
  lemma AfterFirstLoop(cfg: ClientConfig, c: Client)
    requires c.WellFormed()
    ensures var (d, found) := RecoverKeys(cfg, c, c.assemblies.Keys);
      && NoneRecoverable(cfg, d)
      && Elements(found) == RecoverableKeys(cfg, c) && StrictlyAscending(found)
      && CompleteKeys(d) == CompleteKeys(c) + RecoverableKeys(cfg, c)
      && CompleteKeys(c) !! RecoverableKeys(cfg, c)
  {
    hide Recoverable, CountTrue, Recovered, RecoverKeys, StrictlyAscending;
    RecoverKeysRestores(cfg, c, c.assemblies.Keys);
    var d := RecoverKeys(cfg, c, c.assemblies.Keys).0;
    forall k | k in d.assemblies
      ensures !Recoverable(cfg, d.assemblies[k])
    {
      if Recoverable(cfg, c.assemblies[k]) {
        CompleteIsNotRecoverable(cfg, d.assemblies[k]);
      }
    }
    forall k | k in CompleteKeys(c)
      ensures !Recoverable(cfg, c.assemblies[k])
    {
      CompleteIsNotRecoverable(cfg, c.assemblies[k]);
    }
  }

  // ----- finalizing in order

  /** Finalizing one assembly leaves the others complete, or not, and recoverable, or not, as they were. */
  lemma FinalizeRemovesOne(cfg: ClientConfig, c: Client, k: nat, m: Moment)
    requires c.WellFormed() && k in c.assemblies
    ensures var d := Finalize(cfg, c, k, m).client;
      && d.assemblies.Keys == c.assemblies.Keys - {k}
      && forall j :: j in d.assemblies ==> SameProgress(c.assemblies[j], d.assemblies[j])
  {
    hide TryPop, RequestMissing, Complete, Buffer, Client.WellFormed, SameProgress;
    var c1 := Complete(cfg, c, k, m.now);
    var c2 := Buffer(c1, CompletedFrame(cfg, c.assemblies[k], m.now));
    CompleteRemoves(cfg, c, k, m.now);
    BufferKeepsAssemblies(c1, CompletedFrame(cfg, c.assemblies[k], m.now));
    SameProgressRefl(c);
    if cfg.jitterBufferEnabled && !m.defer {
      RequestMissingProgress(cfg, c2, m);
    }
  }

  lemma CompleteRemoves(cfg: ClientConfig, c: Client, k: nat, now: nat)
    requires c.WellFormed() && k in c.assemblies
    ensures Complete(cfg, c, k, now).assemblies == c.assemblies - {k}
  {
    hide Client.WellFormed;
  }

  lemma BufferKeepsAssemblies(c: Client, frame: ReceivedFrame)
    ensures Buffer(c, frame).assemblies == c.assemblies && (Buffer(c, frame).WellFormed() <==> c.WellFormed())
  {
    hide Assembly.WellFormed;
  }

  lemma RequestMissingProgress(cfg: ClientConfig, c: Client, m: Moment)
    requires c.WellFormed()
    ensures var d := RequestMissing(cfg, c, m).0;
      && d.assemblies.Keys == c.assemblies.Keys
      && forall j :: j in c.assemblies ==> SameProgress(c.assemblies[j], d.assemblies[j])
  {
    hide RequestKeys, SameProgress, Client.WellFormed;
    SameProgressRefl(c);
    RequestKeysProgress(cfg, c, c.assemblies.Keys, m);
  }

  /** Equal but for the bookkeeping of requests. */
  ghost predicate SameProgress(a: Assembly, b: Assembly) {
    b == a.(lastNack := b.lastNack, nackAttempts := b.nackAttempts)
  }

  lemma {:induction false} RequestKeysProgress(cfg: ClientConfig, c: Client, keys: set<nat>, m: Moment)
    requires c.WellFormed() && keys <= c.assemblies.Keys
    ensures var d := RequestKeys(cfg, c, keys, m).0;
      forall j :: j in c.assemblies ==> SameProgress(c.assemblies[j], d.assemblies[j])
    decreases |keys|
  {
    hide RequestOne, Assembly.WellFormed;
    if keys != {} {
      var k := Least(keys);
      var c1 := RequestOne(cfg, c, k, m).0;
      RequestOneProgress(cfg, c, k, m);
      RequestKeysProgress(cfg, c1, keys - {k}, m);
      SameProgressChain(c, c1, RequestKeys(cfg, c1, keys - {k}, m).0);
    }
  }

  lemma RequestOneProgress(cfg: ClientConfig, c: Client, k: nat, m: Moment)
    requires c.WellFormed() && k in c.assemblies
    ensures var d := RequestOne(cfg, c, k, m).0;
      forall j :: j in c.assemblies ==> SameProgress(c.assemblies[j], d.assemblies[j])
  {
    hide SendNack, NackDue, Assembly.WellFormed, Missing;
  }

  lemma SameProgressSame(cfg: ClientConfig, a: Assembly, b: Assembly)
    requires a.WellFormed() && b.WellFormed() && SameProgress(a, b)
    ensures a.Complete() == b.Complete() && Recoverable(cfg, a) == Recoverable(cfg, b)
  {
    hide CountTrue;
    SameSlices(a, b, |a.received|);
  }

  lemma {:induction false} SameSlices(a: Assembly, b: Assembly, k: nat)
    requires a.WellFormed() && b.WellFormed() && SameProgress(a, b) && k <= |a.received|
    ensures SlicesInRange(a, k) == SlicesInRange(b, k)
  {
  }

  lemma ElementsCons(s: seq<nat>, n: nat)
    requires 0 < n <= |s| && StrictlyAscending(s)
    ensures Elements(s[..n]) == {s[0]} + Elements(s[1..][..n - 1])
    ensures StrictlyAscending(s[1..]) && s[0] !in s[1..]
    ensures Elements(s[..0]) == {} && Elements(s[..1]) == {s[0]}
  {
    assert s[..n] == [s[0]] + s[1..][..n - 1];
  }

  /** The second loop from its second key on. */
  lemma RestStaysComplete(c: Client, d: Client, keys: seq<nat>)
    requires keys != [] && keys[0] !in keys[1..] && d.assemblies.Keys == c.assemblies.Keys - {keys[0]}
    requires forall i :: 0 <= i < |keys| ==> keys[i] in c.assemblies && c.assemblies[keys[i]].Complete()
    requires forall j :: j in d.assemblies ==> SameProgress(c.assemblies[j], d.assemblies[j])
    ensures var rest := keys[1..];
      forall i :: 0 <= i < |rest| ==> rest[i] in d.assemblies && d.assemblies[rest[i]].Complete()
  {
    hide SameProgress, Assembly.Complete;
    var rest := keys[1..];
    forall i | 0 <= i < |rest|
      ensures rest[i] in d.assemblies && d.assemblies[rest[i]].Complete()
    {
      assert rest[i] == keys[i + 1] && rest[i] in rest;
      SameProgressComplete(c.assemblies[keys[i + 1]], d.assemblies[keys[i + 1]]);
    }
  }

  lemma FinalizeKeysUnfolds(cfg: ClientConfig, c: Client, keys: seq<nat>, m: Moment)
    requires c.WellFormed()
    ensures keys == [] ==> FinalizeKeys(cfg, c, keys, m) == Outcome(c, None, [])
    ensures keys != [] && keys[0] in c.assemblies && c.assemblies[keys[0]].Complete() ==>
      var o, whole := Finalize(cfg, c, keys[0], m), FinalizeKeys(cfg, c, keys, m);
      if o.frame.Some? then whole == o
      else
        var rest := FinalizeKeys(cfg, o.client, keys[1..], m);
        whole.client == rest.client && whole.frame == rest.frame
  {
    hide Finalize, Client.WellFormed;
  }

  /** With ascending keys of complete assemblies, the second loop finalizes a prefix of them: all of them when
      it hands out no frame, otherwise up to the one whose frame is handed out. */
  lemma {:induction false} FinalizeKeysPrefix(cfg: ClientConfig, c: Client, keys: seq<nat>, m: Moment) returns (n: nat)
    requires c.WellFormed() && StrictlyAscending(keys)
    requires forall i :: 0 <= i < |keys| ==> keys[i] in c.assemblies && c.assemblies[keys[i]].Complete()
    ensures var o := FinalizeKeys(cfg, c, keys, m);
      && n <= |keys| && (o.frame.None? ==> n == |keys|) && (keys != [] ==> n > 0)
      && (!cfg.jitterBufferEnabled && keys != [] ==> n == 1)
      && (cfg.jitterBufferEnabled && m.defer ==> o.frame.None?)
      && o.client.assemblies.Keys == c.assemblies.Keys - Elements(keys[..n])
      && forall j :: j in o.client.assemblies ==> SameProgress(c.assemblies[j], o.client.assemblies[j])
    decreases |keys|
  {
    hide Finalize, FinalizeKeys, Client.WellFormed, SameProgress, Assembly.Complete, Elements, StrictlyAscending;
    n := 0;
    SameProgressRefl(c);
    FinalizeKeysUnfolds(cfg, c, keys, m);
    if keys != [] {
      var o := Finalize(cfg, c, keys[0], m);
      FinalizeRemovesOne(cfg, c, keys[0], m);
      FinalizeHandsOut(cfg, c, keys[0], m);
      if o.frame.Some? {
        n := 1;
        ElementsCons(keys, 1);
      } else {
        ElementsCons(keys, 1);
        RestStaysComplete(c, o.client, keys);
        n := FinalizeKeysPrefix(cfg, o.client, keys[1..], m);
        n := n + 1;
        ElementsCons(keys, n);
        SameProgressChain(c, o.client, FinalizeKeys(cfg, o.client, keys[1..], m).client);
      }
    } else {
      NoElements();
    }
  }

  lemma NoElements()
    ensures Elements([]) == {}
  {
  }

  lemma SameProgressComplete(a: Assembly, b: Assembly)
    requires SameProgress(a, b)
    ensures a.Complete() == b.Complete()
  {
  }

  lemma SameProgressRefl(c: Client)
    ensures forall j :: j in c.assemblies ==> SameProgress(c.assemblies[j], c.assemblies[j])
  {
  }

  lemma SameProgressChain(c: Client, d: Client, e: Client)
    requires e.assemblies.Keys <= d.assemblies.Keys <= c.assemblies.Keys
    requires forall j :: j in d.assemblies ==> SameProgress(c.assemblies[j], d.assemblies[j])
    requires forall j :: j in e.assemblies ==> SameProgress(d.assemblies[j], e.assemblies[j])
    ensures forall j :: j in e.assemblies ==> SameProgress(c.assemblies[j], e.assemblies[j])
  {
    forall j | j in e.assemblies
      ensures SameProgress(c.assemblies[j], e.assemblies[j])
    {
      assert SameProgress(c.assemblies[j], d.assemblies[j]) && SameProgress(d.assemblies[j], e.assemblies[j]);
    }
  }

  lemma FinalizeHandsOut(cfg: ClientConfig, c: Client, k: nat, m: Moment)
    requires c.WellFormed() && k in c.assemblies
    ensures !cfg.jitterBufferEnabled ==> Finalize(cfg, c, k, m).frame.Some?
    ensures cfg.jitterBufferEnabled && m.defer ==> Finalize(cfg, c, k, m).frame.None?
  {
    hide RequestMissing, TryPop, Complete, Buffer, Assembly.WellFormed;
  }

  // ----- the whole pass

  /** In every mode the pass leaves complete what was complete before and of the assemblies it restores those after
      the one it hands out, so none when it hands out no frame; and no assembly is recoverable afterwards. */
  lemma PassStrands(cfg: ClientConfig, c: Client, m: Moment) returns (stranded: set<nat>)
    requires c.WellFormed()
    ensures var o := RecoveryPass(cfg, c, m); var restored := RecoverableKeys(cfg, c);
      && NoneRecoverable(cfg, o.client)
      && CompleteKeys(o.client) == CompleteKeys(c) + stranded
      && stranded <= restored && CompleteKeys(c) !! stranded
      && (forall i, j :: i in restored - stranded && j in stranded ==> i < j)
      && (restored != {} ==> stranded != restored)
      && (o.frame.None? ==> stranded == {})
      && (cfg.jitterBufferEnabled && m.defer ==> stranded == {})
      && (!cfg.jitterBufferEnabled && restored != {} ==> stranded == restored - {Least(restored)})
  {
    hide RecoverKeys, FinalizeKeys, Recoverable, Assembly.WellFormed, Assembly.Complete, SameProgress,
        Client.WellFormed, Elements, StrictlyAscending, CompleteKeys, RecoverableKeys, NoneRecoverable;
    var (d, found) := RecoverKeys(cfg, c, c.assemblies.Keys);
    AfterFirstLoop(cfg, c);
    var restored := RecoverableKeys(cfg, c);
    ElementsComplete(d, found);
    var n := FinalizeKeysPrefix(cfg, d, found, m);
    stranded := Elements(found[n..]);
    SplitAscending(found, n);
    ProgressKeys(cfg, d, FinalizeKeys(cfg, d, found, m).client, Elements(found[..n]));
  }

  /** The cut of an ascending sequence in two. */
  lemma SplitAscending(s: seq<nat>, n: nat)
    requires n <= |s| && StrictlyAscending(s)
    ensures Elements(s) == Elements(s[..n]) + Elements(s[n..])
    ensures forall i, j :: i in Elements(s[..n]) && j in Elements(s[n..]) ==> i < j
    ensures n == |s| ==> Elements(s[n..]) == {}
    ensures s != [] <==> Elements(s) != {}
    ensures n > 0 ==> Elements(s[..n]) != {}
    ensures s != [] && n == 1 ==> Elements(s[n..]) == Elements(s) - {Least(Elements(s))}
  {
    assert s == s[..n] + s[n..];
    if s != [] {
      assert s[0] in Elements(s);
    }
    if n > 0 {
      assert s[0] in s[..n];
    }
  }

  lemma WellFormedAt(c: Client, k: nat)
    requires c.WellFormed() && k in c.assemblies
    ensures c.assemblies[k].WellFormed()
  {
  }

  lemma ElementsComplete(c: Client, keys: seq<nat>)
    requires Elements(keys) <= CompleteKeys(c)
    ensures forall i :: 0 <= i < |keys| ==> keys[i] in c.assemblies && c.assemblies[keys[i]].Complete()
  {
    hide Assembly.Complete;
    forall i | 0 <= i < |keys|
      ensures keys[i] in c.assemblies && c.assemblies[keys[i]].Complete()
    {
      assert keys[i] in Elements(keys);
    }
  }

  /** Removing some assemblies and otherwise only requesting fragments. */
  lemma ProgressKeys(cfg: ClientConfig, c: Client, d: Client, gone: set<nat>)
    requires c.WellFormed() && d.WellFormed() && d.assemblies.Keys == c.assemblies.Keys - gone
    requires forall j :: j in d.assemblies ==> SameProgress(c.assemblies[j], d.assemblies[j])
    ensures CompleteKeys(d) == CompleteKeys(c) - gone
    ensures NoneRecoverable(cfg, c) ==> NoneRecoverable(cfg, d)
  {
    hide Recoverable, Assembly.WellFormed, Assembly.Complete, SameProgress;
    forall k | k in d.assemblies
      ensures Recoverable(cfg, d.assemblies[k]) == Recoverable(cfg, c.assemblies[k])
      ensures d.assemblies[k].Complete() == c.assemblies[k].Complete()
    {
      WellFormedAt(c, k);
      WellFormedAt(d, k);
      SameProgressSame(cfg, c.assemblies[k], d.assemblies[k]);
    }
  }

  lemma NoneCompleteMeans(c: Client)
    ensures NoneComplete(c) <==> CompleteKeys(c) == {}
  {
    hide Assembly.Complete;
    if !NoneComplete(c) {
      var k :| k in c.assemblies && c.assemblies[k].Complete();
      assert k in CompleteKeys(c);
    }
  }

  /** Without the jitter buffer the pass hands out the first frame it restores and leaves the others complete. So it
      leaves a complete assembly behind exactly when it finds one or restores two or more. */
  lemma UnbufferedPassStrands(cfg: ClientConfig, c: Client, m: Moment)
    requires c.WellFormed() && !cfg.jitterBufferEnabled
    ensures var after := RecoveryPass(cfg, c, m).client; var restored := RecoverableKeys(cfg, c);
      && CompleteKeys(after) ==
         CompleteKeys(c) + (if restored == {} then {} else restored - {Least(restored)})
      && (!NoneComplete(after) <==> !NoneComplete(c) || |restored| >= 2)
  {
    hide RecoveryPass, NoneComplete, CompleteKeys, RecoverableKeys, NoneRecoverable, Client.WellFormed;
    var stranded := PassStrands(cfg, c, m);
    var after, restored := RecoveryPass(cfg, c, m).client, RecoverableKeys(cfg, c);
    NoneCompleteMeans(c);
    NoneCompleteMeans(after);
    if restored != {} {
      assert |stranded| == |restored| - 1;
    }
  }

  /** A deferred pass with the jitter buffer on leaves no assembly recoverable, and complete only what was. */
  lemma DeferredPassLeavesNothing(cfg: ClientConfig, c: Client, m: Moment)
    requires c.WellFormed() && cfg.jitterBufferEnabled && m.defer
    ensures var d := RecoveryPass(cfg, c, m).client;
      && NoneRecoverable(cfg, d) && CompleteKeys(d) == CompleteKeys(c)
      && (NoneComplete(c) ==> NoneComplete(d))
  {
    hide RecoveryPass, NoneComplete, CompleteKeys, RecoverableKeys, NoneRecoverable, Client.WellFormed;
    var stranded := PassStrands(cfg, c, m);
    NoneCompleteMeans(c);
    NoneCompleteMeans(RecoveryPass(cfg, c, m).client);
  }

  /** A stranded assembly is never finalized without another datagram: every other operation leaves it as it is
      until it expires, and then a frame received in full is counted as timed out. */
  lemma StrandedUntilDatagram(cfg: ClientConfig, c: Client, k: nat, e: Event)
    requires c.WellFormed() && k in c.assemblies && c.assemblies[k].Complete() && !e.Datagram?
    ensures var d := Step(cfg, c, e).client;
      if e.Prune? && Expired(c.assemblies[k], e.moment.now) then
        k !in d.assemblies && d.completed == c.completed && d.stats.timedOutFrames > c.stats.timedOutFrames
      else k in d.assemblies && SameProgress(c.assemblies[k], d.assemblies[k]) && d.assemblies[k].Complete()
  {
    hide Assembly.WellFormed, RecoverKeys, FinalizeKeys, RequestKeys, TryPop, Recoverable, Expired, TotalMissing;
    match e
    case Recovery(m) =>
      RecoveryIgnores(cfg, c, k, m);
    case Prune(m) =>
      var gone := ExpiredKeys(c, m.now);
      if k in gone {
        assert |gone| > 0;
      }
    case RequestNacks(m) =>
      RequestKeysProgress(cfg, c, c.assemblies.Keys, m);
    case Pop(m) =>
  }

  lemma PrefixMember(s: seq<nat>, n: nat, x: nat)
    requires n <= |s|
    ensures x in s[..n] ==> x in s
  {
  }

  lemma RecoveryIgnores(cfg: ClientConfig, c: Client, k: nat, m: Moment)
    requires c.WellFormed() && k in c.assemblies && c.assemblies[k].Complete()
    ensures var d := RecoveryPass(cfg, c, m).client;
      k in d.assemblies && SameProgress(c.assemblies[k], d.assemblies[k]) && d.assemblies[k].Complete()
  {
    hide Assembly.WellFormed, RecoverKeys, FinalizeKeys, Recoverable;
    var (d, found) := RecoverKeys(cfg, c, c.assemblies.Keys);
    RecoverKeysRestores(cfg, c, c.assemblies.Keys);
    CompleteIsNotRecoverable(cfg, c.assemblies[k]);
    forall i | 0 <= i < |found|
      ensures found[i] in d.assemblies && d.assemblies[found[i]].Complete()
    {
      assert found[i] in found;
    }
    var n := FinalizeKeysPrefix(cfg, d, found, m);
    PrefixMember(found, n, k);
    assert k !in found[..n];
  }

  // ----- what a fragment settles at once

  /** A data fragment settles its assembly: what is left of it afterwards is incomplete and cannot be recovered, so the
      fragment that completes a frame, or all but completes it with its parity there, finalizes it. */
  lemma DataSettles(cfg: ClientConfig, c: Client, p: Parsed, m: Moment)
    requires c.WellFormed() && p.Accepted() && p.fragment.fragmentRole == 0
    ensures var (k, d) := (p.fragment.metadata.sequence, Accept(cfg, c, p, m).client);
      k in d.assemblies ==>
        && d.assemblies[k].receivedCount < |d.assemblies[k].received|
        && !Recoverable(cfg, d.assemblies[k])
  {
    hide Opened, Stored, Finalize, SameLayout, GiveUp, Client.WellFormed, Recoverable;
    var k := p.fragment.metadata.sequence;
    var c1 := Opened(cfg, c, p, m.now);
    if SameLayout(c1.assemblies[k], p.fragment) {
      var c2 := Stored(cfg, c1, p, m.now);
      RecoverOneEffect(cfg, c2, k);
      WellFormedAt(c2, k);
      FinalizeRemovesOne(cfg, RecoverOne(cfg, c2, k), k, m);
    }
  }

  /** A parity fragment that finds its assembly incomplete is stored, and recovery waits for the pass or for data. */
  lemma ParityWaits(cfg: ClientConfig, c: Client, p: Parsed, m: Moment)
    requires c.WellFormed() && p.Accepted() && p.fragment.fragmentRole == 1
    requires p.fragment.metadata.sequence in c.assemblies
    requires var a := c.assemblies[p.fragment.metadata.sequence];
      && |a.received| == p.fragment.fragmentCount && |a.payload| == p.fragment.framePayloadSize
      && a.receivedCount < |a.received|
    ensures Accept(cfg, c, p, m) == Outcome(Stored(cfg, c, p, m.now), None, [])
  {
    hide CountTrue, RecoverOne, Finalize;
  }

  // ----- what a datagram does to a complete assembly

  /** A fragment changes the assembly of its own sequence; the others keep their progress. */
  lemma AcceptLeavesOthers(cfg: ClientConfig, c: Client, p: Parsed, m: Moment, j: nat)
    requires c.WellFormed() && p.Accepted() && j in c.assemblies && j != p.fragment.metadata.sequence
    ensures var d := Accept(cfg, c, p, m).client;
      j in d.assemblies && SameProgress(c.assemblies[j], d.assemblies[j])
  {
    hide Opened, Stored, RecoverOne, Finalize, SameLayout, GiveUp, Client.WellFormed, Assembly.Complete;
    var k := p.fragment.metadata.sequence;
    var c1 := Opened(cfg, c, p, m.now);
    OpenedLeavesOthers(cfg, c, p, m.now, j);
    if SameLayout(c1.assemblies[k], p.fragment) {
      var c2 := Stored(cfg, c1, p, m.now);
      StoredLeavesOthers(cfg, c1, p, m.now, j);
      RecoverOneEffect(cfg, c2, k);
      var c3 := if p.fragment.fragmentRole == DATA then RecoverOne(cfg, c2, k) else c2;
      FinalizeRemovesOne(cfg, c3, k, m);
    }
  }

  lemma OpenedLeavesOthers(cfg: ClientConfig, c: Client, p: Parsed, now: nat, j: nat)
    requires c.WellFormed() && p.Accepted() && j in c.assemblies && j != p.fragment.metadata.sequence
    ensures var d := Opened(cfg, c, p, now); j in d.assemblies && d.assemblies[j] == c.assemblies[j]
  {
    hide NewAssembly, Client.WellFormed;
  }

  lemma StoredLeavesOthers(cfg: ClientConfig, c: Client, p: Parsed, now: nat, j: nat)
    requires c.WellFormed() && p.Accepted() && p.fragment.metadata.sequence in c.assemblies
    requires SameLayout(c.assemblies[p.fragment.metadata.sequence], p.fragment)
    requires j in c.assemblies && j != p.fragment.metadata.sequence
    ensures var d := Stored(cfg, c, p, now); j in d.assemblies && d.assemblies[j] == c.assemblies[j]
  {
    hide StoreData, StoreParity, Client.WellFormed;
  }

  lemma PruneKeepsYoung(c: Client, now: nat, k: nat)
    requires c.WellFormed() && k in c.assemblies && !Expired(c.assemblies[k], now)
    ensures var d := PruneExpired(c, now);
      && k in d.assemblies && d.assemblies[k] == c.assemblies[k]
      && d.recentSet == c.recentSet && d.completed == c.completed && d.stats.timedOutFrames >= c.stats.timedOutFrames
  {
    hide Assembly.WellFormed, Expired, TotalMissing;
  }

  /** Storing another copy of a fragment in a complete assembly, or its parity, leaves the frame as it is. */
  lemma StoredAgain(cfg: ClientConfig, c: Client, p: Parsed, now: nat)
    requires c.WellFormed() && p.Accepted() && p.fragment.metadata.sequence in c.assemblies
    requires var a := c.assemblies[p.fragment.metadata.sequence]; a.Complete() && SameLayout(a, p.fragment)
    ensures Opened(cfg, c, p, now) == c
    ensures var k := p.fragment.metadata.sequence; var d := Stored(cfg, c, p, now);
      && d.completed == c.completed && d.assemblies[k].Complete()
      && CompletedFrame(cfg, d.assemblies[k], now) == CompletedFrame(cfg, c.assemblies[k], now)
  {
    hide CountTrue;
    AllReceived(c.assemblies[p.fragment.metadata.sequence].received);
  }

  lemma RecoverCompleteOne(cfg: ClientConfig, c: Client, k: nat)
    requires c.WellFormed() && k in c.assemblies && c.assemblies[k].Complete()
    ensures var d := RecoverOne(cfg, c, k); d.assemblies == c.assemblies && d.completed == c.completed
  {
    hide Recoverable, Assembly.WellFormed;
    CompleteIsNotRecoverable(cfg, c.assemblies[k]);
  }

  /** Another of its datagrams finalizes a complete assembly. */
  lemma AcceptFinishes(cfg: ClientConfig, c: Client, p: Parsed, m: Moment)
    requires c.WellFormed() && p.Accepted() && p.fragment.metadata.sequence in c.assemblies
    requires var a := c.assemblies[p.fragment.metadata.sequence]; a.Complete() && SameLayout(a, p.fragment)
    ensures var k := p.fragment.metadata.sequence; var o := Accept(cfg, c, p, m);
      var frame := CompletedFrame(cfg, c.assemblies[k], m.now);
      && k !in o.client.assemblies && o.client.completed == c.completed + [frame]
      && (!cfg.jitterBufferEnabled ==> o.frame == Some(frame))
  {
    hide Opened, Stored, RecoverOne, Finalize, SameLayout, GiveUp, Client.WellFormed, Assembly.Complete, CompletedFrame;
    var k := p.fragment.metadata.sequence;
    StoredAgain(cfg, c, p, m.now);
    var c2 := Stored(cfg, c, p, m.now);
    RecoverCompleteOne(cfg, c2, k);
    var c3 := if p.fragment.fragmentRole == DATA then RecoverOne(cfg, c2, k) else c2;
    FinalizeAppends(cfg, c3, k, m);
    FinalizeRemovesOne(cfg, c3, k, m);
  }

  /** A stranded assembly that has not expired is finalized by any datagram of its sequence that the receiver
      accepts and that agrees with its layout, and given up at one that does not agree. A datagram of another
      frame leaves it as it is. */
  lemma StrandedMeetsDatagram(cfg: ClientConfig, c: Client, k: nat, data: bytes, m: Moment)
    requires c.WellFormed() && k in c.assemblies && c.assemblies[k].Complete()
    requires !Expired(c.assemblies[k], m.now)
    ensures var a, o, p := c.assemblies[k], Step(cfg, c, Datagram(data, m)), Parse(data);
      var frame := CompletedFrame(cfg, a, m.now);
      if p.Invalid? || p.fragment.metadata.sequence != k || k in c.recentSet then
        k in o.client.assemblies && SameProgress(a, o.client.assemblies[k]) && o.client.assemblies[k].Complete()
      else if SameLayout(a, p.fragment) then
        && k !in o.client.assemblies && o.client.completed == c.completed + [frame]
        && (!cfg.jitterBufferEnabled ==> o.frame == Some(frame))
      else
        && k !in o.client.assemblies && o.client.completed == c.completed
        && o.client.stats.timedOutFrames > c.stats.timedOutFrames
  {
    hide Parse, Accept, PruneExpired, Client.WellFormed, Assembly.Complete, SameLayout, Expired, CompletedFrame,
        SameProgress;
    var c0 := c.(stats := c.stats.(datagramsReceived := c.stats.datagramsReceived + 1));
    WellFormedIgnores(c, c0);
    PruneKeepsYoung(c0, m.now, k);
    SameProgressRefl(c);
    var p, c1 := Parse(data), PruneExpired(c0, m.now);
    if p.Fragment? && p.fragment.metadata.sequence !in c1.recentSet {
      if p.fragment.metadata.sequence != k {
        AcceptLeavesOthers(cfg, c1, p, m, k);
        SameProgressComplete(c.assemblies[k], Accept(cfg, c1, p, m).client.assemblies[k]);
      } else if SameLayout(c.assemblies[k], p.fragment) {
        AcceptFinishes(cfg, c1, p, m);
      } else {
        AcceptGivesUp(cfg, c1, p, m);
      }
    }
  }

  lemma AcceptGivesUp(cfg: ClientConfig, c: Client, p: Parsed, m: Moment)
    requires c.WellFormed() && p.Accepted() && p.fragment.metadata.sequence in c.assemblies
    requires !SameLayout(c.assemblies[p.fragment.metadata.sequence], p.fragment)
    ensures var d := Accept(cfg, c, p, m).client;
      && p.fragment.metadata.sequence !in d.assemblies && d.completed == c.completed
      && d.stats.timedOutFrames == c.stats.timedOutFrames + 1
  {
    hide Stored, RecoverOne, Finalize, SameLayout, Client.WellFormed, Assembly.Complete, TotalMissing;
  }

  // ----- the receive loop with the jitter buffer on

  /** The loop's order of calls: a pass that may pop finds nothing left to recover. */
  ghost predicate Passes(cfg: ClientConfig, c: Client, e: Event)
    requires c.WellFormed()
  {
    e.Recovery? && !e.moment.defer ==> NoneRecoverable(cfg, c)
  }

  ghost predicate Disciplined(cfg: ClientConfig, events: seq<Event>) {
    events == [] ||
    (Disciplined(cfg, events[..|events| - 1]) && Passes(cfg, Run(cfg, events[..|events| - 1]), events[|events| - 1]))
  }

  lemma OpenedIsIncomplete(cfg: ClientConfig, c: Client, p: Parsed, now: nat)
    requires c.WellFormed() && p.Accepted() && NoneComplete(c)
    ensures NoneComplete(Opened(cfg, c, p, now))
  {
    hide Client.WellFormed;
  }

  /** Storing a fragment and recovering touch one assembly. */
  lemma StoredTouchesOne(cfg: ClientConfig, c: Client, p: Parsed, now: nat)
    requires c.WellFormed() && p.Accepted() && p.fragment.metadata.sequence in c.assemblies && NoneComplete(c)
    requires SameLayout(c.assemblies[p.fragment.metadata.sequence], p.fragment)
    ensures var k := p.fragment.metadata.sequence; var c2 := Stored(cfg, c, p, now);
      && (forall j :: j in c2.assemblies && j != k ==> !c2.assemblies[j].Complete())
      && (var c3 := RecoverOne(cfg, c2, k); forall j :: j in c3.assemblies && j != k ==> !c3.assemblies[j].Complete())
  {
    hide StoreData, StoreParity, Restored, Recoverable, Assembly.WellFormed, Assembly.Complete;
  }

  lemma FinalizedOnly(cfg: ClientConfig, c: Client, k: nat, m: Moment)
    requires c.WellFormed() && k in c.assemblies
    requires forall j :: j in c.assemblies && j != k ==> !c.assemblies[j].Complete()
    ensures NoneComplete(Finalize(cfg, c, k, m).client)
  {
    hide Finalize, Client.WellFormed, SameProgress, Assembly.Complete;
    FinalizeRemovesOne(cfg, c, k, m);
    var d := Finalize(cfg, c, k, m).client;
    forall j | j in d.assemblies
      ensures !d.assemblies[j].Complete()
    {
      SameProgressComplete(c.assemblies[j], d.assemblies[j]);
    }
  }

  lemma FewerNoneComplete(c: Client, d: Client)
    requires NoneComplete(c) && d.assemblies.Keys <= c.assemblies.Keys
    requires forall j :: j in d.assemblies ==> d.assemblies[j] == c.assemblies[j]
    ensures NoneComplete(d)
  {
    hide Assembly.Complete;
  }

  lemma AcceptNoneComplete(cfg: ClientConfig, c: Client, p: Parsed, m: Moment)
    requires c.WellFormed() && p.Accepted() && NoneComplete(c)
    ensures NoneComplete(Accept(cfg, c, p, m).client)
  {
    hide Client.WellFormed, Opened, Stored, RecoverOne, Finalize, SameLayout, GiveUp, Assembly.Complete;
    var k := p.fragment.metadata.sequence;
    var c1 := Opened(cfg, c, p, m.now);
    OpenedIsIncomplete(cfg, c, p, m.now);
    if !SameLayout(c1.assemblies[k], p.fragment) {
      FewerNoneComplete(c1, GiveUp(c1, {k}));
    } else {
      var c2 := Stored(cfg, c1, p, m.now);
      StoredTouchesOne(cfg, c1, p, m.now);
      var c3 := if p.fragment.fragmentRole == DATA then RecoverOne(cfg, c2, k) else c2;
      if c3.assemblies[k].Complete() {
        FinalizedOnly(cfg, c3, k, m);
      }
    }
  }

  lemma DatagramNoneComplete(cfg: ClientConfig, c: Client, data: bytes, m: Moment)
    requires c.WellFormed() && NoneComplete(c)
    ensures NoneComplete(ReceiveDatagram(cfg, c, data, m).client)
  {
    hide Parse, Accept, PruneExpired, Assembly.WellFormed, Assembly.Complete;
    var c0 := c.(stats := c.stats.(datagramsReceived := c.stats.datagramsReceived + 1));
    PrunedNoneComplete(c0, m.now);
    var p, c1 := Parse(data), PruneExpired(c0, m.now);
    if p.Fragment? && p.fragment.metadata.sequence !in c1.recentSet {
      AcceptNoneComplete(cfg, c1, p, m);
    }
  }

  lemma PrunedNoneComplete(c: Client, now: nat)
    requires c.WellFormed() && NoneComplete(c)
    ensures NoneComplete(PruneExpired(c, now))
  {
    hide Assembly.Complete, Assembly.WellFormed, Expired;
  }

  lemma SomeMember(s: seq<nat>)
    ensures s != [] ==> exists k :: k in s
  {
    if s != [] {
      assert s[0] in s;
    }
  }

  /** A pass with nothing to recover changes nothing. */
  lemma IdlePass(cfg: ClientConfig, c: Client, m: Moment)
    requires c.WellFormed() && NoneRecoverable(cfg, c)
    ensures RecoveryPass(cfg, c, m).client.assemblies == c.assemblies
  {
    hide RecoverKeys, Recoverable, Client.WellFormed;
    RecoverKeysRestores(cfg, c, c.assemblies.Keys);
    var (d, found) := RecoverKeys(cfg, c, c.assemblies.Keys);
    assert d.assemblies == c.assemblies;
    SomeMember(found);
  }

  lemma RequestsNoneComplete(cfg: ClientConfig, c: Client, m: Moment)
    requires c.WellFormed() && NoneComplete(c)
    ensures NoneComplete(RequestMissing(cfg, c, m).0)
  {
    hide RequestMissing, Client.WellFormed, SameProgress, Assembly.Complete;
    RequestMissingProgress(cfg, c, m);
    var d := RequestMissing(cfg, c, m).0;
    forall j | j in d.assemblies
      ensures !d.assemblies[j].Complete()
    {
      SameProgressComplete(c.assemblies[j], d.assemblies[j]);
    }
  }

  lemma StepNoneComplete(cfg: ClientConfig, c: Client, e: Event)
    requires c.WellFormed() && NoneComplete(c) && cfg.jitterBufferEnabled && Passes(cfg, c, e)
    ensures NoneComplete(Step(cfg, c, e).client)
    ensures e.Recovery? ==> NoneRecoverable(cfg, Step(cfg, c, e).client)
  {
    hide ReceiveDatagram, RecoveryPass, PruneExpired, RequestMissing, TryPop, Client.WellFormed, Recoverable,
        Assembly.Complete;
    match e
    case Datagram(data, m) => DatagramNoneComplete(cfg, c, data, m);
    case Recovery(m) =>
      if m.defer {
        DeferredPassLeavesNothing(cfg, c, m);
      } else {
        IdlePass(cfg, c, m);
      }
    case Prune(m) => PrunedNoneComplete(c, m.now);
    case RequestNacks(m) => RequestsNoneComplete(cfg, c, m);
    case Pop(m) =>
  }

  /** In every run of the loop with the jitter buffer on, no complete assembly is ever left behind, and after each
      recovery pass none can be recovered either. */
  lemma {:induction false} NothingIsStranded(cfg: ClientConfig, events: seq<Event>)
    requires cfg.jitterBufferEnabled && Disciplined(cfg, events)
    ensures NoneComplete(Run(cfg, events))
    ensures events != [] && events[|events| - 1].Recovery? ==> NoneRecoverable(cfg, Run(cfg, events))
  {
    hide Step, NoneComplete, NoneRecoverable, Passes;
    if events == [] {
      NoneAtStart();
    } else {
      var before := events[..|events| - 1];
      NothingIsStranded(cfg, before);
      StepNoneComplete(cfg, Run(cfg, before), events[|events| - 1]);
    }
  }

  lemma NoneAtStart()
    ensures NoneComplete(RESET)
  {
  }

  lemma PopKeepsRecoverable(cfg: ClientConfig, c: Client, m: Moment)
    requires c.WellFormed() && NoneRecoverable(cfg, c)
    ensures NoneRecoverable(cfg, Step(cfg, c, Pop(m)).client)
  {
    hide Recoverable, TryPop, Client.WellFormed;
  }

  lemma PruneKeepsRecoverable(cfg: ClientConfig, c: Client, m: Moment)
    requires c.WellFormed() && NoneRecoverable(cfg, c)
    ensures NoneRecoverable(cfg, Step(cfg, c, Prune(m)).client)
  {
    hide Recoverable, Assembly.WellFormed, Expired, TotalMissing, Restrict;
  }
}
