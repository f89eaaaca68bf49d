/** When the UDP client acts: when it asks for missing fragments, when it hands out a buffered frame, and when it gives
    an assembly up. The conditions are written out on the clock and the configuration. */
module UdpTiming {
  import opened Bytes
  import opened Protocol
  import opened UdpClientState
  import opened UdpClientSpec
  import opened UdpEmission
  import opened UdpStranding

  // ----- requests

  /** A fragment is missing, the frame is known for long enough, it has not been asked for too often, and the last
      request is not too recent. */
  ghost predicate ToRequest(cfg: ClientConfig, a: Assembly, now: nat) {
    var delay := if cfg.nackRequestDelayMs > 0 then cfg.nackRequestDelayMs * 1_000_000 else 0;
    var retry := if cfg.nackRetryIntervalMs > 0 then cfg.nackRetryIntervalMs * 1_000_000 else 0;
    && (exists i :: 0 <= i < |a.received| && !a.received[i])
    && 0 < a.firstSeen <= now && now - a.firstSeen >= delay
    && a.nackAttempts < cfg.nackMaxRetries
    && (a.lastNack == 0 || a.lastNack > now || now - a.lastNack >= retry)
  }

  lemma DueExactly(cfg: ClientConfig, a: Assembly, now: nat)
    requires a.WellFormed()
    ensures NackDue(cfg, a, now) <==> ToRequest(cfg, a, now)
    ensures NackDue(cfg, a, now) ==> Missing(a.received) != []
  {
    MissingIsExact(a.received);
    if a.receivedCount < |a.received| {
      var i := Missing(a.received)[0];
      assert i in Missing(a.received);
      assert !a.received[i];
    } else {
      AllReceived(a.received);
    }
  }

  /** How far a request gets: chunk by chunk up to the first one the socket refuses. */
  lemma {:induction false} ChunksSent(sequence: nat, missing: seq<nat>, limit: nat, chunk: nat, channel: NackChannel)
    requires limit > 0
    ensures var r := SendNack(sequence, missing, limit, chunk, channel);
      && (forall n :: chunk <= n < chunk + |r.sent| ==> channel.accepts(sequence, n))
      && (r.ok ==> r.requested == |missing|)
      && (!r.ok ==> !channel.accepts(sequence, chunk + |r.sent|) && r.requested == |r.sent| * limit < |missing|)
      && (missing != [] && channel.accepts(sequence, chunk) ==> r.sent != [])
    decreases |missing|
  {
    hide NackDatagram;
    if missing != [] && channel.accepts(sequence, chunk) {
      var n := Min(limit, |missing|);
      ChunksSent(sequence, missing[n..], limit, chunk + 1, channel);
      var rest := SendNack(sequence, missing[n..], limit, chunk + 1, channel);
      if !rest.ok {
        MulStep(|rest.sent|, limit);
      }
    }
  }

  /** A request that gets through takes as few chunks as the limit allows. */
  lemma {:induction false} ChunksAreFull(sequence: nat, missing: seq<nat>, limit: nat, chunk: nat, channel: NackChannel)
    requires limit > 0
    ensures var r := SendNack(sequence, missing, limit, chunk, channel);
      r.ok ==> |missing| <= |r.sent| * limit < |missing| + limit
    decreases |missing|
  {
    hide NackDatagram;
    if missing != [] && channel.accepts(sequence, chunk) {
      var n := Min(limit, |missing|);
      ChunksAreFull(sequence, missing[n..], limit, chunk + 1, channel);
      var rest := SendNack(sequence, missing[n..], limit, chunk + 1, channel);
      if rest.ok {
        OneMoreChunk(|missing|, limit, |rest.sent|);
      }
    }
  }

  lemma OneMoreChunk(total: nat, limit: nat, chunks: nat)
    requires limit > 0 && total > 0
    requires var left := total - Min(limit, total); left <= chunks * limit < left + limit
    ensures total <= (chunks + 1) * limit < total + limit
  {
    MulStep(chunks, limit);
    if chunks > 0 {
      MulMonotone(1, chunks, limit);
    }
  }

  /** An assembly is asked for exactly when it is time to, in as few datagrams as the limit allows. A request is noted
      exactly when the socket took all of it; so an assembly whose request was refused in part is asked for again. */
  lemma RequestedExactly(cfg: ClientConfig, c: Client, k: nat, m: Moment)
    requires c.WellFormed() && k in c.assemblies
    ensures var a := c.assemblies[k]; var (d, requests) := RequestOne(cfg, c, k, m); var s := a.metadata.sequence;
      && (requests != [] <==> ToRequest(cfg, a, m.now) && m.channel.accepts(s, 0))
      && (!ToRequest(cfg, a, m.now) ==> d == c)
      && var asked := d.stats.nackFragmentsRequested - c.stats.nackFragmentsRequested; var all := |Missing(a.received)|;
         var limit := if cfg.nackMaxRequestsPerPacket > 1 then cfg.nackMaxRequestsPerPacket else 1;
         && 0 <= asked <= all && (asked < all && ToRequest(cfg, a, m.now) ==> !m.channel.accepts(s, |requests|))
         && asked <= |requests| * limit < asked + limit && (asked < all ==> asked == |requests| * limit)
         && d.assemblies ==
            if ToRequest(cfg, a, m.now) && asked == all
            then c.assemblies[k := a.(lastNack := m.now, nackAttempts := a.nackAttempts + 1)]
            else c.assemblies
  {
    hide ToRequest, NackDue, SendNack, Missing, CountTrue;
    var a := c.assemblies[k];
    DueExactly(cfg, a, m.now);
    ChunksSent(a.metadata.sequence, Missing(a.received), Max(1, cfg.nackMaxRequestsPerPacket), 0, m.channel);
    ChunksAreFull(a.metadata.sequence, Missing(a.received), Max(1, cfg.nackMaxRequestsPerPacket), 0, m.channel);
    NothingSent(a.metadata.sequence, Missing(a.received), Max(1, cfg.nackMaxRequestsPerPacket), m.channel);
    assert c.assemblies[k := a] == c.assemblies;
  }

  lemma NothingSent(sequence: nat, missing: seq<nat>, limit: nat, channel: NackChannel)
    requires limit > 0
    ensures !channel.accepts(sequence, 0) ==> SendNack(sequence, missing, limit, 0, channel).sent == []
  {
  }

  lemma OneOfMany(cfg: ClientConfig, c: Client, d: Client, k: nat, m: Moment)
    requires c.WellFormed() && d.WellFormed()
    requires k in c.assemblies && k in d.assemblies && c.assemblies[k] == d.assemblies[k]
    ensures RequestOne(cfg, c, k, m).0.assemblies[k] == RequestOne(cfg, d, k, m).0.assemblies[k]
    ensures RequestOne(cfg, c, k, m).1 == RequestOne(cfg, d, k, m).1
    ensures forall j :: j in c.assemblies && j != k ==> RequestOne(cfg, c, k, m).0.assemblies[j] == c.assemblies[j]
  {
    hide NackDue, SendNack, Assembly.WellFormed, Missing;
  }

  /** What is requested for each of `keys`. */
  ghost predicate AskedEach(cfg: ClientConfig, c: Client, keys: set<nat>, m: Moment, d: Client, requests: seq<bytes>)
    requires c.WellFormed() && keys <= c.assemblies.Keys
  {
    && d.assemblies.Keys == c.assemblies.Keys
    && (forall k :: k in c.assemblies ==>
          d.assemblies[k] == if k in keys then RequestOne(cfg, c, k, m).0.assemblies[k] else c.assemblies[k])
    && (forall r :: r in requests <==> exists k :: k in keys && r in RequestOne(cfg, c, k, m).1)
  }

  lemma AskedOneMore(cfg: ClientConfig, c: Client, keys: set<nat>, k: nat, m: Moment, d: Client, rest: seq<bytes>)
    requires c.WellFormed() && k in keys && keys <= c.assemblies.Keys
    requires AskedEach(cfg, RequestOne(cfg, c, k, m).0, keys - {k}, m, d, rest)
    ensures AskedEach(cfg, c, keys, m, d, RequestOne(cfg, c, k, m).1 + rest)
  {
    hide RequestOne, Client.WellFormed;
    var (c1, first) := RequestOne(cfg, c, k, m);
    OneOfMany(cfg, c, c, k, m);
    forall j | j in keys - {k}
      ensures RequestOne(cfg, c1, j, m).0.assemblies[j] == RequestOne(cfg, c, j, m).0.assemblies[j]
      ensures RequestOne(cfg, c1, j, m).1 == RequestOne(cfg, c, j, m).1
    {
      OneOfMany(cfg, c, c1, j, m);
    }
    forall r
      ensures r in first + rest <==> exists j :: j in keys && r in RequestOne(cfg, c, j, m).1
    {
      if j :| j in keys && r in RequestOne(cfg, c, j, m).1 {
        assert j == k || j in keys - {k};
      }
    }
  }

  lemma {:induction false} KeysAsked(cfg: ClientConfig, c: Client, keys: set<nat>, m: Moment)
    requires c.WellFormed() && keys <= c.assemblies.Keys
    ensures var (d, requests) := RequestKeys(cfg, c, keys, m); AskedEach(cfg, c, keys, m, d, requests)
    decreases |keys|
  {
    hide RequestOne, Client.WellFormed;
    if keys != {} {
      var k := Least(keys);
      var c1 := RequestOne(cfg, c, k, m).0;
      KeysAsked(cfg, c1, keys - {k}, m);
      AskedOneMore(cfg, c, keys, k, m, RequestKeys(cfg, c1, keys - {k}, m).0, RequestKeys(cfg, c1, keys - {k}, m).1);
    }
  }

  /** With requests enabled, one call asks for every assembly it is time to ask for, as for each of them alone. */
  lemma EveryAssemblyIsAsked(cfg: ClientConfig, c: Client, m: Moment)
    requires c.WellFormed()
    ensures var (d, requests) := RequestMissing(cfg, c, m);
      if cfg.nackEnabled && cfg.nackMaxRequestsPerPacket > 0 then AskedEach(cfg, c, c.assemblies.Keys, m, d, requests)
      else d == c && requests == []
  {
    hide RequestKeys, AskedEach, Client.WellFormed;
    KeysAsked(cfg, c, c.assemblies.Keys, m);
  }

  // ----- the jitter buffer

  /** How long frame `k` has been buffered. */
  ghost function BufferedFor(c: Client, k: nat, now: nat): nat
    requires k in c.jitterBuffer
  {
    if now < c.jitterBuffer[k].bufferedTimestamp then 0 else now - c.jitterBuffer[k].bufferedTimestamp
  }

  /** The expected frame, when it is buffered, is handed out exactly when it has been held back for the target delay or
      the longest wait, or the buffer is full. */
  lemma PopsExpectedExactly(cfg: ClientConfig, c: Client, now: nat, limits: PopLimits)
    requires cfg.jitterBufferEnabled && c.jitterBuffer != map[]
    requires (if c.hasNextSequence then c.nextSequence else Least(c.jitterBuffer.Keys)) in c.jitterBuffer
    ensures var (d, frame) := TryPop(cfg, c, now, limits);
      var next := if c.hasNextSequence then c.nextSequence else Least(c.jitterBuffer.Keys);
      var waited := BufferedFor(c, next, now);
      if || waited >= limits.targetDelayNs
         || (limits.maxWaitNs > 0 && waited >= limits.maxWaitNs)
         || |c.jitterBuffer| >= limits.maxFrames
      then frame == Some(c.jitterBuffer[next].frame) && HandedOut(c, d, next, 0)
      else frame == None && d == c.(nextSequence := next, hasNextSequence := true)
  {
    NotEmpty(c.jitterBuffer);
  }

  /** When the expected frame is not buffered, the oldest is handed out in its place exactly when it has waited for the
      longest wait, or the buffer is full; and the sequences passed over are counted. */
  lemma PopsOldestExactly(cfg: ClientConfig, c: Client, now: nat, limits: PopLimits)
    requires cfg.jitterBufferEnabled && c.jitterBuffer != map[]
    requires c.hasNextSequence && c.nextSequence !in c.jitterBuffer
    ensures var (d, frame) := TryPop(cfg, c, now, limits); var oldest := Least(c.jitterBuffer.Keys);
      if || (limits.maxWaitNs > 0 && BufferedFor(c, oldest, now) >= limits.maxWaitNs)
         || |c.jitterBuffer| >= limits.maxFrames
      then
        && frame == Some(c.jitterBuffer[oldest].frame)
        && HandedOut(c, d, oldest, if oldest > c.nextSequence then oldest - c.nextSequence else 0)
      else frame == None && d == c
  {
    NotEmpty(c.jitterBuffer);
  }

  /** Frame `k` has left the buffer, the one after it is expected as long as others are buffered, and `skipped`
      sequences were passed over. */
  ghost predicate HandedOut(c: Client, d: Client, k: nat, skipped: nat) {
    && d.jitterBuffer == c.jitterBuffer - {k}
    && (d.hasNextSequence <==> d.jitterBuffer != map[])
    && d.nextSequence == (k + 1) % 0x1_0000_0000_0000_0000
    && d.stats.emittedFrames == c.stats.emittedFrames + 1 && d.stats.skippedFrames == c.stats.skippedFrames + skipped
    && d.stats.currentDepth == |d.jitterBuffer|
    && d.stats.maxDepth == (if |d.jitterBuffer| > c.stats.maxDepth then |d.jitterBuffer| else c.stats.maxDepth)
    && d.assemblies == c.assemblies && d.recentOrder == c.recentOrder && d.recentSet == c.recentSet
  }

  lemma NotEmpty(buffer: map<nat, BufferedFrame>)
    requires buffer != map[]
    ensures |buffer| >= 1
  {
    assert buffer.Keys != {};
  }

  /** A completed frame waits from the time it was completed. */
  lemma BufferedWhenCompleted(cfg: ClientConfig, c: Client, k: nat, m: Moment)
    requires c.WellFormed() && k in c.assemblies && cfg.jitterBufferEnabled && m.defer
    ensures var (a, d) := (c.assemblies[k], Finalize(cfg, c, k, m).client); var key := a.metadata.sequence;
      if key in c.jitterBuffer then
        d.jitterBuffer == c.jitterBuffer && d.stats.droppedFrames == c.stats.droppedFrames + 1
      else
        && d.jitterBuffer.Keys == c.jitterBuffer.Keys + {key} && d.stats.droppedFrames == c.stats.droppedFrames
        && (forall j :: j in c.jitterBuffer ==> d.jitterBuffer[j] == c.jitterBuffer[j])
        && d.jitterBuffer[key].bufferedTimestamp == m.now
        && d.jitterBuffer[key].frame.payload == a.payload && d.jitterBuffer[key].frame.metadata == a.metadata
        && d.jitterBuffer[key].frame.receiveTimestamp == m.now
        && d.stats.currentDepth == |d.jitterBuffer|
        && d.stats.maxDepth == (if |d.jitterBuffer| > c.stats.maxDepth then |d.jitterBuffer| else c.stats.maxDepth)
  {
    hide Client.WellFormed, Complete;
    CompletedBuffer(cfg, c, k, m.now);
  }

  lemma CompletedBuffer(cfg: ClientConfig, c: Client, k: nat, now: nat)
    requires c.WellFormed() && k in c.assemblies
    ensures var d := Complete(cfg, c, k, now);
      && d.jitterBuffer == c.jitterBuffer
      && d.stats.droppedFrames == c.stats.droppedFrames && d.stats.maxDepth == c.stats.maxDepth
  {
    hide Client.WellFormed;
  }

  // ----- expiry

  /** An assembly without a new fragment for more than a quarter of a second is given up, and no other. */
  lemma ExpiresExactly(c: Client, now: nat)
    requires c.WellFormed()
    ensures var d := PruneExpired(c, now);
      && (forall k :: k in d.assemblies <==>
            && k in c.assemblies
            && var last := c.assemblies[k].lastFragment; last == 0 || now <= last || now - last <= 250_000_000)
      && (forall k :: k in d.assemblies ==> d.assemblies[k] == c.assemblies[k])
      && d.stats.timedOutFrames == c.stats.timedOutFrames + |c.assemblies.Keys - d.assemblies.Keys|
  {
    hide Assembly.WellFormed, TotalMissing, Restrict;
    assert c.assemblies.Keys - PruneExpired(c, now).assemblies.Keys == ExpiredKeys(c, now);
  }

  /** Every datagram, whatever it holds, has the idle assemblies given up first; its own sequence begins anew then. */
  lemma IdleAssembliesGo(cfg: ClientConfig, c: Client, data: bytes, m: Moment, k: nat)
    requires c.WellFormed() && k in c.assemblies
    requires var last := c.assemblies[k].lastFragment; 0 < last < m.now && m.now - last > 250_000_000
    ensures var d := ReceiveDatagram(cfg, c, data, m).client;
      k in d.assemblies ==>
        && Parse(data).Fragment? && Parse(data).fragment.metadata.sequence == k
        && d.assemblies[k].firstSeen == m.now
  {
    hide Parse, Accept, PruneExpired, Client.WellFormed;
    var c0 := c.(stats := c.stats.(datagramsReceived := c.stats.datagramsReceived + 1));
    WellFormedIgnores(c, c0);
    IdleGoes(c0, k, m.now);
    var p, c1 := Parse(data), PruneExpired(c0, m.now);
    if p.Fragment? && p.fragment.metadata.sequence !in c1.recentSet {
      AcceptOpens(cfg, c1, p, m);
    }
  }

  lemma IdleGoes(c: Client, k: nat, now: nat)
    requires c.WellFormed() && k in c.assemblies
    requires var last := c.assemblies[k].lastFragment; 0 < last < now && now - last > 250_000_000
    ensures k !in PruneExpired(c, now).assemblies
  {
    ExpiresExactly(c, now);
  }

  /** A fragment opens no assembly but its own. */
  lemma AcceptOpens(cfg: ClientConfig, c: Client, p: Parsed, m: Moment)
    requires c.WellFormed() && p.Accepted()
    ensures var k, d := p.fragment.metadata.sequence, Accept(cfg, c, p, m).client;
      && d.assemblies.Keys <= c.assemblies.Keys + {k}
      && (k in d.assemblies && k !in c.assemblies ==> d.assemblies[k].firstSeen == m.now)
  {
    hide StoreParity, StoreData, Restored, Recoverable, Finalize, SameLayout, GiveUp, Client.WellFormed,
        Assembly.Complete, CountTrue;
    var k, c1 := p.fragment.metadata.sequence, Opened(cfg, c, p, m.now);
    if SameLayout(c1.assemblies[k], p.fragment) {
      var c2 := Stored(cfg, c1, p, m.now);
      StoredSince(cfg, c1, p, m.now);
      RestoredSince(cfg, c2, k);
      var c3 := if p.fragment.fragmentRole == DATA then RecoverOne(cfg, c2, k) else c2;
      FinalizeRemovesOne(cfg, c3, k, m);
    }
  }

  lemma StoredSince(cfg: ClientConfig, c: Client, p: Parsed, now: nat)
    requires c.WellFormed() && p.Accepted() && p.fragment.metadata.sequence in c.assemblies
    requires SameLayout(c.assemblies[p.fragment.metadata.sequence], p.fragment)
    ensures var k, d := p.fragment.metadata.sequence, Stored(cfg, c, p, now);
      d.assemblies.Keys == c.assemblies.Keys && d.assemblies[k].firstSeen == c.assemblies[k].firstSeen
  {
    hide Client.WellFormed, CountTrue, Spliced;
  }

  lemma RestoredSince(cfg: ClientConfig, c: Client, k: nat)
    requires c.WellFormed() && k in c.assemblies
    ensures RecoverOne(cfg, c, k).assemblies[k].firstSeen == c.assemblies[k].firstSeen
  {
    hide Client.WellFormed, Recoverable;
  }

  /** An assembly begins with the first fragment of its sequence: its two clocks start, and nothing is received yet. */
  lemma AssembliesBegin(cfg: ClientConfig, c: Client, p: Parsed, now: nat)
    requires c.WellFormed() && p.Accepted()
    ensures var k := p.fragment.metadata.sequence; var d := Opened(cfg, c, p, now); var a := d.assemblies[k];
      if k in c.assemblies then d == c
      else
        && d.assemblies == c.assemblies[k := a] && d.stats == c.stats
        && a.firstSeen == now && a.lastFragment == now && a.lastNack == 0 && a.nackAttempts == 0
        && a.received == seq(p.fragment.fragmentCount, _ => false) && |a.payload| == p.fragment.framePayloadSize
        && !a.hasFec && a.header == p.header
        && a.metadata == if cfg.expectMetadata then p.fragment.metadata else FrameDiagnosticMetadata(k, 0, 0, 0, 0)
  {
    hide Client.WellFormed, Assembly.WellFormed, CountTrue;
  }

  /** Each fragment that is stored sets back the clock its assembly expires by: the parity, of which the newest copy is
      kept while recovery is enabled, and data that had not been received, which is written at its offset alone. */
  lemma StoringExactly(cfg: ClientConfig, c: Client, p: Parsed, now: nat)
    requires c.WellFormed() && p.Accepted() && p.fragment.metadata.sequence in c.assemblies
    requires var a := c.assemblies[p.fragment.metadata.sequence];
      |a.received| == p.fragment.fragmentCount && |a.payload| == p.fragment.framePayloadSize
    ensures var (k, f) := (p.fragment.metadata.sequence, p.fragment);
      var a, d := c.assemblies[k], Stored(cfg, c, p, now); var b := d.assemblies[k];
      && d.assemblies == c.assemblies[k := b]
      && if f.fragmentRole == 1 then
           && (if cfg.fecEnabled then b.hasFec && b.fecPayload == p.body && b.fecTimestamp == now
               else b.hasFec == a.hasFec && b.fecPayload == a.fecPayload && b.fecTimestamp == a.fecTimestamp)
           && b == a.(fecPayload := b.fecPayload, hasFec := b.hasFec, fecTimestamp := b.fecTimestamp,
                      lastFragment := now)
           && d.stats == c.stats.(
                fecFragmentsReceived := c.stats.fecFragmentsReceived + if cfg.fecEnabled then 1 else 0)
         else if a.received[f.fragmentIndex] then
           && b == a
           && d.stats == c.stats.(fragmentsReceived := c.stats.fragmentsReceived + 1,
                                  duplicateFragments := c.stats.duplicateFragments + 1)
         else
           && WrittenAt(a, b, f.fragmentIndex, f.fragmentOffset, p.body) && b.lastFragment == now
           && b.hasFec == a.hasFec && b.fecPayload == a.fecPayload && b.fecTimestamp == a.fecTimestamp
           && b.firstSeen == a.firstSeen && b.lastNack == a.lastNack && b.nackAttempts == a.nackAttempts
           && d.stats == c.stats.(fragmentsReceived := c.stats.fragmentsReceived + 1)
  {
    hide Client.WellFormed, CountTrue;
  }

  /** Slot `i` is filled with `body` at `offset`; every other byte and slot is as before. */
  ghost predicate WrittenAt(a: Assembly, b: Assembly, i: nat, offset: nat, body: bytes)
    requires i < |a.received| && |a.offsets| == |a.sizes| == |a.received|
  {
    && |b.payload| == |a.payload|
    && (forall j :: 0 <= j < |a.payload| ==>
          b.payload[j] == if offset <= j < offset + |body| then body[j - offset] else a.payload[j])
    && b.received == a.received[i := true] && b.offsets == a.offsets[i := offset]
    && b.sizes == a.sizes[i := |body|] && b.receivedCount == a.receivedCount + 1
    && b.header == a.header && b.metadata == a.metadata
  }

  /** A fragment that claims another number of fragments or another size of the frame ends the assembly. */
  lemma ConflictsExactly(cfg: ClientConfig, c: Client, p: Parsed, m: Moment)
    requires c.WellFormed() && p.Accepted() && p.fragment.metadata.sequence in c.assemblies
    requires var a := c.assemblies[p.fragment.metadata.sequence];
      |a.received| != p.fragment.fragmentCount || |a.payload| != p.fragment.framePayloadSize
    ensures var (k, o) := (p.fragment.metadata.sequence, Accept(cfg, c, p, m));
      && o.frame.None? && o.nacks == [] && o.client.assemblies == c.assemblies - {k}
      && o.client.stats == c.stats.(
           timedOutFrames := c.stats.timedOutFrames + 1,
           timedOutFragments := c.stats.timedOutFragments + |Missing(c.assemblies[k].received)|)
  {
    hide GiveUp, CountTrue;
    GiveUpSingle(c, p.fragment.metadata.sequence);
  }

  // ----- what is counted

  /** Every datagram is counted, and as invalid or stale when it is. */
  lemma DatagramsAreCounted(cfg: ClientConfig, c: Client, data: bytes, m: Moment)
    requires c.WellFormed()
    ensures var d := ReceiveDatagram(cfg, c, data, m).client; var p := Parse(data);
      && d.stats.datagramsReceived == c.stats.datagramsReceived + 1
      && d.stats.invalidDatagrams == c.stats.invalidDatagrams + (if p.Invalid? then 1 else 0)
      && d.stats.staleDatagramsDropped == c.stats.staleDatagramsDropped
           + (if p.Fragment? && p.fragment.metadata.sequence in c.recentSet then 1 else 0)
  {
    hide Parse, Accept, PruneExpired, Client.WellFormed;
    var c0 := c.(stats := c.stats.(datagramsReceived := c.stats.datagramsReceived + 1));
    WellFormedIgnores(c, c0);
    PruneCounts(c0, m.now);
    var p, c1 := Parse(data), PruneExpired(c0, m.now);
    if p.Fragment? && p.fragment.metadata.sequence !in c1.recentSet {
      AcceptCounts(cfg, c1, p, m);
    }
  }

  /** A recovery attempt counts the fragment and the frame it restores, one each, and nothing else. */
  lemma RecoveriesAreCounted(cfg: ClientConfig, c: Client, k: nat)
    requires c.WellFormed() && k in c.assemblies
    ensures var restored := if Recoverable(cfg, c.assemblies[k]) then 1 else 0;
      RecoverOne(cfg, c, k).stats
      == c.stats.(fecRecoveredFragments := c.stats.fecRecoveredFragments + restored,
                  fecRecoveredFrames := c.stats.fecRecoveredFrames + restored)
  {
    hide Recoverable, Restored;
  }

  /** The counters of datagrams, which only their arrival changes. */
  ghost predicate SameArrivals(c: Client, d: Client) {
    && d.stats.datagramsReceived == c.stats.datagramsReceived && d.stats.invalidDatagrams == c.stats.invalidDatagrams
    && d.stats.staleDatagramsDropped == c.stats.staleDatagramsDropped
  }

  lemma PruneCounts(c: Client, now: nat)
    requires c.WellFormed()
    ensures SameArrivals(c, PruneExpired(c, now)) && PruneExpired(c, now).recentSet == c.recentSet
  {
    hide Client.WellFormed, ExpiredKeys;
  }

  lemma AcceptCounts(cfg: ClientConfig, c: Client, p: Parsed, m: Moment)
    requires c.WellFormed() && p.Accepted()
    ensures SameArrivals(c, Accept(cfg, c, p, m).client)
  {
    hide NewAssembly, StoreParity, StoreData, Restored, Recoverable, Finalize, SameLayout, Client.WellFormed,
        Assembly.Complete, TotalMissing;
    var k, c1 := p.fragment.metadata.sequence, Opened(cfg, c, p, m.now);
    if SameLayout(c1.assemblies[k], p.fragment) {
      var c2 := Stored(cfg, c1, p, m.now);
      FinalizeCounts(cfg, if p.fragment.fragmentRole == DATA then RecoverOne(cfg, c2, k) else c2, k, m);
    }
  }

  lemma CompleteCounts(cfg: ClientConfig, c: Client, k: nat, now: nat)
    requires c.WellFormed() && k in c.assemblies
    ensures SameArrivals(c, Complete(cfg, c, k, now))
  {
    hide Client.WellFormed;
  }

  lemma BufferCounts(c: Client, frame: ReceivedFrame)
    ensures SameArrivals(c, Buffer(c, frame))
  {
  }

  lemma TryPopCounts(cfg: ClientConfig, c: Client, now: nat, limits: PopLimits)
    ensures SameArrivals(c, TryPop(cfg, c, now, limits).0)
  {
    hide PopCandidate, Ripe;
  }

  lemma RequestsCount(cfg: ClientConfig, c: Client, m: Moment)
    requires c.WellFormed()
    ensures SameArrivals(c, RequestMissing(cfg, c, m).0)
  {
    hide RequestKeys, Client.WellFormed;
    RequestKeysCount(cfg, c, c.assemblies.Keys, m);
  }

  lemma FinalizeCounts(cfg: ClientConfig, c: Client, k: nat, m: Moment)
    requires c.WellFormed() && k in c.assemblies
    ensures SameArrivals(c, Finalize(cfg, c, k, m).client)
  {
    hide RequestMissing, TryPop, Complete, Buffer, Client.WellFormed, CompletedFrame;
    var frame := CompletedFrame(cfg, c.assemblies[k], m.now);
    var c1 := Complete(cfg, c, k, m.now);
    var c2 := Buffer(c1, frame);
    CompleteCounts(cfg, c, k, m.now);
    BufferCounts(c1, frame);
    if cfg.jitterBufferEnabled && !m.defer {
      BufferWellFormed(c1, frame);
      RequestsCount(cfg, c2, m);
      TryPopCounts(cfg, RequestMissing(cfg, c2, m).0, m.now, m.limits);
    }
  }

  lemma {:induction false} RequestKeysCount(cfg: ClientConfig, c: Client, keys: set<nat>, m: Moment)
    requires c.WellFormed() && keys <= c.assemblies.Keys
    ensures SameArrivals(c, RequestKeys(cfg, c, keys, m).0)
    decreases |keys|
  {
    hide SendNack, NackDue;
    if keys != {} {
      var k := Least(keys);
      RequestKeysCount(cfg, RequestOne(cfg, c, k, m).0, keys - {k}, m);
    }
  }

  /** Unless the pop is deferred, completing a frame is completing it with the pop deferred, asking for what is missing,
      and trying one pop. */
  lemma FinalizeThenPops(cfg: ClientConfig, c: Client, k: nat, m: Moment)
    requires c.WellFormed() && k in c.assemblies && cfg.jitterBufferEnabled && !m.defer
    ensures var later := Finalize(cfg, c, k, m.(defer := true)); var o := Finalize(cfg, c, k, m);
      var asked := Step(cfg, later.client, RequestNacks(m)); var popped := Step(cfg, asked.client, Pop(m));
      o.client == popped.client && o.frame == popped.frame && o.nacks == asked.nacks && later.frame.None?
  {
    hide RequestMissing, TryPop, Complete, Buffer, Client.WellFormed;
  }
}
