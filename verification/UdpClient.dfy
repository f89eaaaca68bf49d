/** The client's UDP receiver: its fields and the methods that update them. */
module UdpClient {
  import opened Bytes
  import opened Protocol
  import opened Fec
  import opened UdpClientState
  import opened UdpClientSpec

  class StreamClient {
    const config: ClientConfig
    var udpAssemblies: map<nat, Assembly>
    var udpJitterBuffer: map<nat, BufferedFrame>
    var nextJitterBufferSequence: nat
    var hasNextJitterBufferSequence: bool
    var recentlyCompletedOrder: seq<nat>
    var recentlyCompleted: set<nat>
    var stats: Stats
    ghost var completedFrames: seq<ReceivedFrame>
    ghost var createdFragments: nat

    ghost function State(): Client
      reads this
    {
      Client(udpAssemblies, udpJitterBuffer, nextJitterBufferSequence, hasNextJitterBufferSequence,
             recentlyCompletedOrder, recentlyCompleted, stats, completedFrames, createdFragments)
    }

    ghost predicate Valid()
      reads this
    {
      State().WellFormed()
    }

    constructor (config: ClientConfig)
      ensures Valid() && this.config == config && State() == RESET
    {
      this.config := config;
      udpAssemblies, udpJitterBuffer := map[], map[];
      nextJitterBufferSequence, hasNextJitterBufferSequence := 0, false;
      recentlyCompletedOrder, recentlyCompleted := [], {};
      stats := NO_STATS;
      completedFrames, createdFragments := [], 0;
    }

    method ProcessUdpDatagram(data: bytes, m: Moment) returns (frame: Option<ReceivedFrame>, nacks: seq<bytes>)
      requires Valid()
      modifies this
      ensures Valid()
      ensures ReceiveDatagram(config, old(State()), data, m) == Outcome(State(), frame, nacks)
    {
      hide Parse, Accept, PruneExpired, Assembly.WellFormed;
      frame, nacks := None, [];
      stats := stats.(datagramsReceived := stats.datagramsReceived + 1);
      PruneExpiredUdpAssemblies(m.now);
      var parsed := Parse(data);
      if parsed.Invalid? {
        stats := stats.(invalidDatagrams := stats.invalidDatagrams + 1);
        return;
      }
      if parsed.fragment.metadata.sequence in recentlyCompleted {
        stats := stats.(staleDatagramsDropped := stats.staleDatagramsDropped + 1);
        return;
      }
      frame, nacks := AcceptFragment(parsed, m);
    }

    /** The part of `ProcessUdpDatagram` after validation and duplicate suppression. */
    method AcceptFragment(p: Parsed, m: Moment) returns (frame: Option<ReceivedFrame>, nacks: seq<bytes>)
      requires Valid() && p.Accepted()
      modifies this
      ensures Valid()
      ensures Accept(config, old(State()), p, m) == Outcome(State(), frame, nacks)
    {
      hide CountTrue, RecoverOne, GiveUp;
      frame, nacks := None, [];
      var f := p.fragment;
      var k := f.metadata.sequence;
      if k !in udpAssemblies {
        udpAssemblies := udpAssemblies[k := NewAssembly(config, p.header, f, m.now)];
        createdFragments := createdFragments + f.fragmentCount;
      }
      ghost var ready := State();
      assert ready == Opened(config, old(State()), p, m.now);
      if !SameLayout(udpAssemblies[k], f) {
        GiveUpAssembly(k);
        return;
      }
      StoreFragment(p, m.now);
      if f.fragmentRole == DATA {
        var _ := RecoverAssembly(k);
      }
      if udpAssemblies[k].receivedCount == |udpAssemblies[k].received| {
        frame, nacks := FinalizeCompletedUdpFrame(k, m);
      }
    }

    /** Writes a parity or data fragment into its assembly. */
    method StoreFragment(p: Parsed, now: nat)
      requires Valid() && p.Accepted() && p.fragment.metadata.sequence in udpAssemblies
      requires SameLayout(udpAssemblies[p.fragment.metadata.sequence], p.fragment)
      modifies this`udpAssemblies, this`stats
      ensures Valid() && State() == Stored(config, old(State()), p, now)
    {
      hide CountTrue, Spliced;
      var f := p.fragment;
      var k := f.metadata.sequence;
      var assembly := udpAssemblies[k];
      if f.fragmentRole == XOR_PARITY {
        if config.fecEnabled {
          assembly := assembly.(fecPayload := p.body, hasFec := true, fecTimestamp := now);
          stats := stats.(fecFragmentsReceived := stats.fecFragmentsReceived + 1);
        }
        assembly := assembly.(lastFragment := now);
      } else {
        stats := stats.(fragmentsReceived := stats.fragmentsReceived + 1);
        var i := f.fragmentIndex;
        if !assembly.received[i] {
          CountTrueSet(assembly.received, i);
          assembly := assembly.(
            payload := Spliced(assembly.payload, f.fragmentOffset, p.body), received := assembly.received[i := true],
            offsets := assembly.offsets[i := f.fragmentOffset], sizes := assembly.sizes[i := |p.body|],
            receivedCount := assembly.receivedCount + 1, lastFragment := now);
        } else {
          stats := stats.(duplicateFragments := stats.duplicateFragments + 1);
        }
      }
      udpAssemblies := udpAssemblies[k := assembly];
    }

    /** Restores the one missing fragment of `a` from the parity, when it can. */
    method MaybeRecoverWithUdpFec(a: Assembly) returns (r: Assembly, ok: bool)
      requires a.WellFormed()
      modifies this`stats
      ensures ok <==> Recoverable(config, a)
      ensures ok ==> r == Recovered(config, a) && stats == CountRecoveries(old(stats), 1)
      ensures !ok ==> r == a && stats == old(stats)
    {
      hide CountTrue, Missing, XorFold, ReceivedSlices, SlicesInRange, Spliced;
      r, ok := a, false;
      if !config.fecEnabled || !a.hasFec || a.fecTimestamp == 0 || |a.received| == 0
        || a.receivedCount >= |a.received| {
        return;
      }
      var missingCount, missingIndex := OnlyMissing(a.received);
      if missingCount != 1 {
        return;
      }
      MissingIsExact(a.received);
      assert Missing(a.received)[0] == missingIndex;
      assert missingIndex in Missing(a.received);
      var missingOffset := 0;
      if missingIndex > 0 {
        missingOffset := (a.offsets[missingIndex - 1] + a.sizes[missingIndex - 1]) % U32;
      }
      var missingSize := 0;
      if missingIndex + 1 < |a.received| {
        var nextOffset := a.offsets[missingIndex + 1];
        if nextOffset < missingOffset {
          return;
        }
        missingSize := nextOffset - missingOffset;
      } else if |a.payload| >= missingOffset {
        missingSize := (|a.payload| - missingOffset) % U32;
      }
      if missingSize == 0 || missingSize > |a.fecPayload| || missingOffset + missingSize > |a.payload| {
        return;
      }
      var inRange, recovered := XorReceived(a);
      if !inRange {
        return;
      }
      CountTrueSet(a.received, missingIndex);
      r := a.(payload := Spliced(a.payload, missingOffset, recovered[..missingSize]),
              received := a.received[missingIndex := true],
              offsets := a.offsets[missingIndex := missingOffset], sizes := a.sizes[missingIndex := missingSize],
              receivedCount := a.receivedCount + 1);
      stats := stats.(fecRecoveredFragments := stats.fecRecoveredFragments + 1);
      if r.receivedCount == |r.received| {
        stats := stats.(fecRecoveredFrames := stats.fecRecoveredFrames + 1);
      }
      ok := true;
    }

    method PruneExpiredUdpAssemblies(now: nat)
      requires Valid()
      modifies this`udpAssemblies, this`stats
      ensures Valid() && State() == PruneExpired(old(State()), now)
    {
      hide GiveUp, Expired;
      ghost var start := State();
      var left := udpAssemblies.Keys;
      GiveUpNone(start);
      assert ExpiredKeys(start, now) - left == {};
      while left != {}
        invariant left <= start.assemblies.Keys
        invariant State() == GiveUp(start, ExpiredKeys(start, now) - left)
      {
        var k := Least(left);
        ghost var gone := ExpiredKeys(start, now) - left;
        left := left - {k};
        if Expired(udpAssemblies[k], now) {
          GiveUpOneMore(start, gone, k);
          GiveUpAssembly(k);
          assert ExpiredKeys(start, now) - left == gone + {k};
        } else {
          assert ExpiredKeys(start, now) - left == gone;
        }
      }
      assert ExpiredKeys(start, now) - {} == ExpiredKeys(start, now);
    }

    /** Erases an assembly and counts it, with the fragments it still misses, as timed out. */
    method GiveUpAssembly(k: nat)
      requires Valid() && k in udpAssemblies
      modifies this`udpAssemblies, this`stats
      ensures Valid() && State() == GiveUp(old(State()), {k})
    {
      GiveUpSingle(State(), k);
      stats := stats.(timedOutFrames := stats.timedOutFrames + 1,
                      timedOutFragments := stats.timedOutFragments + udpAssemblies[k].MissingCount());
      udpAssemblies := udpAssemblies - {k};
    }

    method FinalizeCompletedUdpFrame(k: nat, m: Moment) returns (frame: Option<ReceivedFrame>, nacks: seq<bytes>)
      requires Valid() && k in udpAssemblies && udpAssemblies[k].Complete()
      modifies this
      ensures Valid()
      ensures Finalize(config, old(State()), k, m) == Outcome(State(), frame, nacks)
    {
      hide Remember, Buffer, RequestMissing, TryPop;
      frame, nacks := None, [];
      var assembly := udpAssemblies[k];
      var completed := ReceivedFrame(assembly.header, assembly.metadata,
                                     config.expectMetadata && assembly.metadata.HasSenderLatency(), m.now,
                                     assembly.payload);
      stats := stats.(completedFrames := stats.completedFrames + 1);
      completedFrames := completedFrames + [completed];
      RememberCompletedUdpFrameSequence(k);
      udpAssemblies := udpAssemblies - {k};
      assert State() == UdpClientSpec.Complete(config, old(State()), k, m.now);
      if !config.jitterBufferEnabled {
        frame := Some(completed);
        return;
      }
      BufferCompletedUdpFrame(completed);
      if m.defer {
        return;
      }
      nacks := MaybeSendUdpNackRequests(m);
      frame := TryPopReadyUdpFrame(m.now, m.limits);
    }

    method RememberCompletedUdpFrameSequence(k: nat)
      modifies this`recentlyCompletedOrder, this`recentlyCompleted
      ensures State() == Remember(old(State()), k)
    {
      if k in recentlyCompleted {
        return;
      }
      recentlyCompleted := recentlyCompleted + {k};
      recentlyCompletedOrder := recentlyCompletedOrder + [k];
      ghost var order, all := recentlyCompletedOrder, recentlyCompleted;
      ghost var popped := 0;
      while |recentlyCompletedOrder| > RECENT_WINDOW
        invariant 0 <= popped <= |order|
        invariant recentlyCompletedOrder == order[popped..]
        invariant recentlyCompleted == all - (set x | x in order[..popped])
        invariant popped > 0 ==> |order| - popped >= RECENT_WINDOW
      {
        var oldest := recentlyCompletedOrder[0];
        OneMoreGone(all, order, popped);
        recentlyCompletedOrder := recentlyCompletedOrder[1..];
        recentlyCompleted := recentlyCompleted - {oldest};
        popped := popped + 1;
      }
      assert popped == 0 ==> order[popped..] == order && order[..popped] == [];
    }

    method BufferCompletedUdpFrame(frame: ReceivedFrame)
      modifies this`udpJitterBuffer, this`stats
      ensures State() == Buffer(old(State()), frame)
    {
      var k := frame.metadata.sequence;
      if k in udpJitterBuffer {
        stats := stats.(droppedFrames := stats.droppedFrames + 1);
        return;
      }
      udpJitterBuffer := udpJitterBuffer[k := BufferedFrame(frame, frame.receiveTimestamp)];
      UpdateJitterBufferDepthStats();
    }

    method UpdateJitterBufferDepthStats()
      modifies this`stats
      ensures State() == DepthCounted(old(State()))
    {
      stats := stats.(currentDepth := |udpJitterBuffer|);
      if stats.currentDepth > stats.maxDepth {
        stats := stats.(maxDepth := stats.currentDepth);
      }
    }

    method TryPopReadyUdpFrame(now: nat, limits: PopLimits) returns (frame: Option<ReceivedFrame>)
      modifies this`udpJitterBuffer, this`nextJitterBufferSequence, this`hasNextJitterBufferSequence, this`stats
      ensures TryPop(config, old(State()), now, limits) == (State(), frame)
    {
      hide PopCandidate, Advance, Ripe, Emit;
      frame := None;
      if !config.jitterBufferEnabled || udpJitterBuffer == map[] {
        return;
      }
      var expected := SelectCandidate(now, limits);
      if expected.Some? {
        frame := EmitWhenRipe(expected.value, now, limits);
      }
    }

    /** The first half of `TryPopReadyUdpFrame`: the buffered sequence to emit next, if the wait for it is over. */
    method SelectCandidate(now: nat, limits: PopLimits) returns (candidate: Option<nat>)
      requires udpJitterBuffer != map[]
      modifies this`nextJitterBufferSequence, this`hasNextJitterBufferSequence, this`stats
      ensures candidate == PopCandidate(old(State()), now, limits)
      ensures State() == if candidate.Some? then Advance(old(State()), candidate.value) else old(State())
    {
      hide Least;
      var oldest := Least(udpJitterBuffer.Keys);
      if !hasNextJitterBufferSequence {
        nextJitterBufferSequence := oldest;
        hasNextJitterBufferSequence := true;
      }
      if nextJitterBufferSequence in udpJitterBuffer {
        return Some(nextJitterBufferSequence);
      }
      var bufferedAt := udpJitterBuffer[oldest].bufferedTimestamp;
      var oldestWait := if now > bufferedAt then now - bufferedAt else 0;
      var shouldSkipMissing :=
        (limits.maxWaitNs > 0 && oldestWait >= limits.maxWaitNs) || |udpJitterBuffer| >= Max(limits.maxFrames, 1);
      if !shouldSkipMissing {
        return None;
      }
      if oldest > nextJitterBufferSequence {
        stats := stats.(skippedFrames := stats.skippedFrames + (oldest - nextJitterBufferSequence));
      }
      nextJitterBufferSequence := oldest;
      return Some(oldest);
    }

    /** The second half: the candidate leaves the buffer when the delay target or a limit is reached. */
    method EmitWhenRipe(k: nat, now: nat, limits: PopLimits) returns (frame: Option<ReceivedFrame>)
      requires k in udpJitterBuffer && nextJitterBufferSequence == k && hasNextJitterBufferSequence
      modifies this`udpJitterBuffer, this`nextJitterBufferSequence, this`hasNextJitterBufferSequence, this`stats
      ensures frame == if Ripe(old(State()), k, now, limits) then Some(old(udpJitterBuffer)[k].frame) else None
      ensures State() == if frame.Some? then Emit(old(State()), k) else old(State())
    {
      var buffered := udpJitterBuffer[k];
      var wait := if now > buffered.bufferedTimestamp then now - buffered.bufferedTimestamp else 0;
      var reachedTargetDelay := limits.targetDelayNs == 0 || wait >= limits.targetDelayNs;
      var reachedDepthLimit := |udpJitterBuffer| >= Max(limits.maxFrames, 1);
      var reachedMaxWait := limits.maxWaitNs > 0 && wait >= limits.maxWaitNs;
      if !reachedTargetDelay && !reachedDepthLimit && !reachedMaxWait {
        return None;
      }
      stats := stats.(emittedFrames := stats.emittedFrames + 1);
      udpJitterBuffer := udpJitterBuffer - {k};
      nextJitterBufferSequence := (nextJitterBufferSequence + 1) % U64;
      if udpJitterBuffer == map[] {
        hasNextJitterBufferSequence := false;
      }
      UpdateJitterBufferDepthStats();
      return Some(buffered.frame);
    }

    method FinalizeRecoverableUdpFecFrames(m: Moment) returns (frame: Option<ReceivedFrame>, nacks: seq<bytes>)
      requires Valid()
      modifies this
      ensures Valid()
      ensures RecoveryPass(config, old(State()), m) == Outcome(State(), frame, nacks)
    {
      var recoveredSequences := RecoverEveryAssembly();
      frame, nacks := FinalizeInOrder(recoveredSequences, m);
    }

    /** The first loop of `FinalizeRecoverableUdpFecFrames`. */
    method RecoverEveryAssembly() returns (recoveredSequences: seq<nat>)
      requires Valid()
      modifies this`udpAssemblies, this`stats
      ensures Valid()
      ensures RecoverKeys(config, old(State()), old(udpAssemblies).Keys) == (State(), recoveredSequences)
    {
      hide RecoverKeys, RecoverOne, Recoverable, Least;
      recoveredSequences := [];
      var left := udpAssemblies.Keys;
      ghost var all := RecoverKeys(config, State(), left);
      assert recoveredSequences + all.1 == all.1;
      while left != {}
        invariant Valid() && left <= udpAssemblies.Keys
        invariant all.0 == RecoverKeys(config, State(), left).0
        invariant all.1 == recoveredSequences + RecoverKeys(config, State(), left).1
      {
        var k := Least(left);
        RecoverKeysUnfold(config, State(), left, recoveredSequences);
        left := left - {k};
        var ok := RecoverAssembly(k);
        if ok {
          recoveredSequences := recoveredSequences + [k];
        } else {
          assert recoveredSequences + [] == recoveredSequences;
        }
      }
      RecoverKeysUnfold(config, State(), left, recoveredSequences);
    }

    /** A recovery attempt on an assembly of the map, made only while it is incomplete. */
    method RecoverAssembly(k: nat) returns (ok: bool)
      requires Valid() && k in udpAssemblies
      modifies this`udpAssemblies, this`stats
      ensures Valid() && State() == RecoverOne(config, old(State()), k)
      ensures ok <==> Recoverable(config, old(udpAssemblies)[k])
    {
      hide Recoverable, Recovered, CountTrue;
      ok := false;
      RecoverableIsIncomplete(config, udpAssemblies[k]);
      if udpAssemblies[k].receivedCount < |udpAssemblies[k].received| {
        var assembly;
        assembly, ok := MaybeRecoverWithUdpFec(udpAssemblies[k]);
        udpAssemblies := udpAssemblies[k := assembly];
      } else {
        assert udpAssemblies == udpAssemblies[k := udpAssemblies[k]];
      }
    }

    /** The second loop of `FinalizeRecoverableUdpFecFrames`. */
    method FinalizeInOrder(sequences: seq<nat>, m: Moment) returns (frame: Option<ReceivedFrame>, nacks: seq<bytes>)
      requires Valid()
      modifies this
      ensures Valid()
      ensures FinalizeKeys(config, old(State()), sequences, m) == Outcome(State(), frame, nacks)
    {
      hide FinalizeKeys, Finalize;
      frame, nacks := None, [];
      ghost var all := FinalizeKeys(config, State(), sequences, m);
      assert sequences[0..] == sequences && nacks + all.nacks == all.nacks;
      for i := 0 to |sequences|
        invariant Valid() && frame == None
        invariant var rest := FinalizeKeys(config, State(), sequences[i..], m);
          all.client == rest.client && all.frame == rest.frame && all.nacks == nacks + rest.nacks
      {
        var sequence := sequences[i];
        FinalizeKeysUnfold(config, State(), sequences, i, m, nacks);
        if sequence !in udpAssemblies || udpAssemblies[sequence].receivedCount != |udpAssemblies[sequence].received| {
          continue;
        }
        var sent;
        frame, sent := FinalizeCompletedUdpFrame(sequence, m);
        nacks := nacks + sent;
        if frame.Some? {
          return;
        }
      }
      FinalizeKeysUnfold(config, State(), sequences, |sequences|, m, nacks);
    }

    method MaybeSendUdpNackRequests(m: Moment) returns (nacks: seq<bytes>)
      requires Valid()
      modifies this`udpAssemblies, this`stats
      ensures Valid()
      ensures RequestMissing(config, old(State()), m) == (State(), nacks)
    {
      nacks := [];
      if !config.nackEnabled || config.nackMaxRequestsPerPacket == 0 {
        return;
      }
      hide RequestKeys, RequestOne, Least;
      var left := udpAssemblies.Keys;
      ghost var all := RequestKeys(config, State(), left, m);
      assert nacks + all.1 == all.1;
      while left != {}
        invariant Valid() && left <= udpAssemblies.Keys
        invariant all.0 == RequestKeys(config, State(), left, m).0
        invariant all.1 == nacks + RequestKeys(config, State(), left, m).1
      {
        var k := Least(left);
        RequestKeysUnfold(config, State(), left, m, nacks);
        left := left - {k};
        var sent := RequestFragments(k, m);
        nacks := nacks + sent;
      }
      RequestKeysUnfold(config, State(), left, m, nacks);
    }

    /** The body of the loop of `MaybeSendUdpNackRequests`. */
    method RequestFragments(k: nat, m: Moment) returns (sent: seq<bytes>)
      requires Valid() && k in udpAssemblies
      modifies this`udpAssemblies, this`stats
      ensures Valid() && RequestOne(config, old(State()), k, m) == (State(), sent)
    {
      hide SendNack, CountTrue, Missing;
      hide NackDue;
      sent := [];
      var assembly := udpAssemblies[k];
      var due := RequestDue(assembly, m.now);
      if !due {
        return;
      }
      NackDueMeansMissing(config, assembly, m.now);
      var missingFragments := MissingFragments(assembly.received);
      var ok;
      sent, ok := SendUdpNack(assembly.metadata.sequence, missingFragments, m.channel);
      if ok {
        udpAssemblies := udpAssemblies[k := assembly.(lastNack := m.now, nackAttempts := assembly.nackAttempts + 1)];
      } else {
        assert udpAssemblies == udpAssemblies[k := assembly];
      }
    }

    /** The conditions at the head of that loop. */
    method RequestDue(assembly: Assembly, now: nat) returns (due: bool)
      requires assembly.WellFormed()
      ensures due <==> NackDue(config, assembly, now)
    {
      hide CountTrue;
      var delay := (if config.nackRequestDelayMs > 0 then config.nackRequestDelayMs else 0) * NS_PER_MS;
      var retry := (if config.nackRetryIntervalMs > 0 then config.nackRetryIntervalMs else 0) * NS_PER_MS;
      if |assembly.received| == 0 || assembly.receivedCount >= |assembly.received|
        || assembly.firstSeen == 0 || now < assembly.firstSeen || now - assembly.firstSeen < delay
        || assembly.nackAttempts >= config.nackMaxRetries {
        return false;
      }
      if assembly.lastNack != 0 && now >= assembly.lastNack && now - assembly.lastNack < retry {
        return false;
      }
      due := true;
    }

    method SendUdpNack(sequence: nat, missing: seq<nat>, channel: NackChannel) returns (sent: seq<bytes>, ok: bool)
      requires missing != []
      modifies this`stats
      ensures var result := SendNack(sequence, missing, Max(1, config.nackMaxRequestsPerPacket), 0, channel);
        && sent == result.sent && ok == result.ok
        && stats == old(stats).(nackRequestsSent := old(stats).nackRequestsSent + |sent|,
                                nackFragmentsRequested := old(stats).nackFragmentsRequested + result.requested)
    {
      hide NackDatagram, SendNack;
      sent, ok := [], true;
      var limit := Max(1, config.nackMaxRequestsPerPacket);
      var offset, chunk := 0, 0;
      ghost var requested: nat := 0;
      ghost var all := SendNack(sequence, missing, limit, 0, channel);
      assert missing[offset..] == missing && sent + all.sent == all.sent;
      while offset < |missing|
        invariant 0 <= offset <= |missing|
        invariant var rest := SendNack(sequence, missing[offset..], limit, chunk, channel);
          all.sent == sent + rest.sent && all.requested == requested + rest.requested && all.ok == rest.ok
        invariant stats == old(stats).(nackRequestsSent := old(stats).nackRequestsSent + |sent|,
                                       nackFragmentsRequested := old(stats).nackFragmentsRequested + requested)
      {
        SendNackUnfold(sequence, missing, offset, limit, chunk, channel, sent);
        var count := Min(limit, |missing| - offset);
        var payload := BuildNack(sequence, missing[offset..offset + count], channel.clock(sequence, chunk));
        if !channel.accepts(sequence, chunk) {
          ok := false;
          return;
        }
        stats := stats.(nackRequestsSent := stats.nackRequestsSent + 1,
                        nackFragmentsRequested := stats.nackFragmentsRequested + count);
        sent := sent + [payload];
        requested := requested + count;
        offset, chunk := offset + count, chunk + 1;
      }
      SendNackUnfold(sequence, missing, offset, limit, chunk, channel, sent);
    }
  }

  /** One NACK message: header, NACK header, and one item per index. */
  method BuildNack(sequence: nat, indices: seq<nat>, clock: nat) returns (payload: bytes)
    ensures payload == NackDatagram(sequence, indices, clock)
  {
    var count := |indices|;
    var header := EncodeMessageHeader(MessageHeader(MAGIC, UDP_NACK, 0, NACK_HEADER_SIZE + count * NACK_ITEM_SIZE));
    payload := header + EncodeNackHeader(clock, count);
    ghost var items := [];
    for index := 0 to count
      invariant items == NackItems(sequence, indices[..index])
      invariant payload == header + EncodeNackHeader(clock, count) + EncodeNackItems(items)
    {
      var item := NackItem(sequence, indices[index]);
      EncodeNackItemsSnoc(items, item);
      payload := payload + EncodeNackItem(item);
      items := items + [item];
    }
    assert indices[..count] == indices;
  }

  /** How many fragments are missing, as far as more than one, and which one if it is the only one. */
  method OnlyMissing(received: seq<bool>) returns (missingCount: nat, missingIndex: nat)
    ensures missingCount == 1 <==> |Missing(received)| == 1
    ensures missingCount == 1 ==> Missing(received) == [missingIndex]
  {
    missingIndex, missingCount := |received|, 0;
    for index := 0 to |received|
      invariant missingCount == |Missing(received[..index])| <= 1
      invariant missingCount == 1 ==> Missing(received[..index]) == [missingIndex]
    {
      assert received[..index + 1][..index] == received[..index];
      MissingPrefix(received, index + 1);
      if !received[index] {
        missingIndex := index;
        missingCount := missingCount + 1;
        if missingCount > 1 {
          return;
        }
      }
    }
    assert received[..|received|] == received;
  }

  /** The parity with every received slice XORed out, unless one lies outside the payload. */
  method XorReceived(a: Assembly) returns (inRange: bool, recovered: bytes)
    requires a.WellFormed()
    ensures inRange <==> SlicesInRange(a, |a.received|)
    ensures inRange ==> recovered == XorFold(a.fecPayload, ReceivedSlices(a, |a.received|))
  {
    hide CountTrue, Xor, XorFold;
    inRange, recovered := false, a.fecPayload;
    XorFoldNothing(a.fecPayload);
    for index := 0 to |a.received|
      invariant SlicesInRange(a, index)
      invariant recovered == XorFold(a.fecPayload, ReceivedSlices(a, index))
    {
      if a.received[index] {
        var offset, size := a.offsets[index], a.sizes[index];
        if offset + size > |a.payload| {
          return;
        }
        var slice := a.payload[offset..offset + size];
        XorFoldSnoc(a.fecPayload, ReceivedSlices(a, index), slice);
        recovered := XorInto(recovered, slice);
      }
    }
    inRange := true;
  }

  /** The indices of the fragments not received, in ascending order. */
  method MissingFragments(received: seq<bool>) returns (missing: seq<nat>)
    ensures missing == Missing(received)
  {
    missing := [];
    for index := 0 to |received|
      invariant missing == Missing(received[..index])
    {
      assert received[..index + 1][..index] == received[..index];
      if !received[index] {
        missing := missing + [index];
      }
    }
    assert received[..|received|] == received;
  }

  lemma {:induction false} MissingPrefix(flags: seq<bool>, k: nat)
    requires k <= |flags|
    ensures Missing(flags[..k]) <= Missing(flags)
  {
    if k < |flags| {
      MissingPrefix(flags[..|flags| - 1], k);
      assert flags[..|flags| - 1][..k] == flags[..k];
    } else {
      assert flags[..k] == flags;
    }
  }

  /** One more step of the pass after `before` has been collected. */
  lemma RecoverKeysUnfold(cfg: ClientConfig, c: Client, keys: set<nat>, before: seq<nat>)
    requires c.WellFormed() && keys <= c.assemblies.Keys
    ensures keys == {} ==> RecoverKeys(cfg, c, keys).0 == c && before + RecoverKeys(cfg, c, keys).1 == before
    ensures keys != {} ==>
      var k := Least(keys);
      var rest := RecoverKeys(cfg, RecoverOne(cfg, c, k), keys - {k});
      RecoverKeys(cfg, c, keys).0 == rest.0 &&
      before + RecoverKeys(cfg, c, keys).1 == (before + KeyIfRecoverable(cfg, c, k)) + rest.1
  {
    hide KeyIfRecoverable, RecoverOne;
  }

  lemma FinalizeKeysUnfold(cfg: ClientConfig, c: Client, keys: seq<nat>, i: nat, m: Moment, before: seq<bytes>)
    requires c.WellFormed() && i <= |keys|
    ensures var all := FinalizeKeys(cfg, c, keys[i..], m);
      if i == |keys| then all.client == c && all.frame == None && before + all.nacks == before
      else if keys[i] !in c.assemblies || !c.assemblies[keys[i]].Complete() then
        all == FinalizeKeys(cfg, c, keys[i + 1..], m)
      else
        var o := Finalize(cfg, c, keys[i], m);
        var rest := FinalizeKeys(cfg, o.client, keys[i + 1..], m);
        if o.frame.Some? then all == o
        else
          && all.client == rest.client && all.frame == rest.frame
          && before + all.nacks == (before + o.nacks) + rest.nacks
  {
    hide Finalize;
    if i < |keys| {
      assert keys[i..][1..] == keys[i + 1..];
    }
  }

  lemma RequestKeysUnfold(cfg: ClientConfig, c: Client, keys: set<nat>, m: Moment, before: seq<bytes>)
    requires c.WellFormed() && keys <= c.assemblies.Keys
    ensures keys == {} ==> RequestKeys(cfg, c, keys, m).0 == c && before + RequestKeys(cfg, c, keys, m).1 == before
    ensures keys != {} ==>
      var k := Least(keys);
      var (c1, first) := RequestOne(cfg, c, k, m);
      var rest := RequestKeys(cfg, c1, keys - {k}, m);
      RequestKeys(cfg, c, keys, m).0 == rest.0 && before + RequestKeys(cfg, c, keys, m).1 == (before + first) + rest.1
  {
    hide RequestOne;
  }

  lemma SendNackUnfold(sequence: nat, missing: seq<nat>, offset: nat, limit: nat, chunk: nat, channel: NackChannel,
      before: seq<bytes>)
    requires offset <= |missing| && limit > 0
    ensures var now := SendNack(sequence, missing[offset..], limit, chunk, channel);
      if offset == |missing| then before + now.sent == before && now.requested == 0 && now.ok
      else if !channel.accepts(sequence, chunk) then before + now.sent == before && now.requested == 0 && !now.ok
      else
        var end := offset + Min(limit, |missing| - offset);
        var datagram := NackDatagram(sequence, missing[offset..end], channel.clock(sequence, chunk));
        var rest := SendNack(sequence, missing[end..], limit, chunk + 1, channel);
        && before + now.sent == (before + [datagram]) + rest.sent
        && now.requested == (end - offset) + rest.requested && now.ok == rest.ok
  {
    hide NackDatagram;
    if offset < |missing| {
      var n := Min(limit, |missing| - offset);
      assert missing[offset..][..n] == missing[offset..offset + n];
      assert missing[offset..][n..] == missing[offset + n..];
    }
  }

  lemma NackDueMeansMissing(cfg: ClientConfig, a: Assembly, now: nat)
    requires a.WellFormed() && NackDue(cfg, a, now)
    ensures Missing(a.received) != []
  {
  }

  lemma RecoverableIsIncomplete(cfg: ClientConfig, a: Assembly)
    requires a.WellFormed()
    ensures Recoverable(cfg, a) ==> a.receivedCount < |a.received|
  {
  }

  lemma XorFoldNothing(start: bytes)
    ensures XorFold(start, []) == start
  {
  }

  lemma XorFoldSnoc(start: bytes, fs: seq<bytes>, f: bytes)
    ensures XorFold(start, fs + [f]) == Xor(XorFold(start, fs), f)
  {
    assert (fs + [f])[..|fs|] == fs;
  }

  lemma {:induction false} EncodeNackItemsSnoc(items: seq<NackItem>, item: NackItem)
    ensures EncodeNackItems(items + [item]) == EncodeNackItems(items) + EncodeNackItem(item)
  {
    hide EncodeNackItem;
    var all := items + [item];
    if items == [] {
      assert all[1..] == [] && EncodeNackItems([]) == [];
      assert EncodeNackItems(all) == EncodeNackItem(item) + [];
    } else {
      EncodeNackItemsSnoc(items[1..], item);
      assert all[1..] == items[1..] + [item];
      assert EncodeNackItems(all) == EncodeNackItem(items[0]) + (EncodeNackItems(items[1..]) + EncodeNackItem(item));
    }
  }

  lemma OneMoreGone(all: set<nat>, order: seq<nat>, n: nat)
    requires n < |order|
    ensures order[n..] == [order[n]] + order[n + 1..]
    ensures var before, after := order[..n], order[..n + 1];
      all - (set x | x in after) == all - (set x | x in before) - {order[n]}
  {
    assert order[..n + 1] == order[..n] + [order[n]];
  }
}
