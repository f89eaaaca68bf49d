/** The order in which the jitter buffer emits, and when that order breaks. */
module UdpJitterOrder {
  import opened Bytes
  import opened Protocol
  import opened UdpClientState
  import opened UdpClientSpec
  import opened UdpInvariants

  /** What happens to the buffer: a completed frame goes in, or a pop is tried. */
  datatype Op = Insert(frame: ReceivedFrame) | TryOne(now: nat, limits: PopLimits)

  ghost function Apply(cfg: ClientConfig, c: Client, op: Op): (Client, Option<ReceivedFrame>) {
    match op
    case Insert(frame) => (Buffer(c, frame), None)
    case TryOne(now, limits) => TryPop(cfg, c, now, limits)
  }

  /** The state after `ops`, and the sequences emitted on the way. */
  ghost function Play(cfg: ClientConfig, c: Client, ops: seq<Op>): (Client, seq<nat>)
    decreases |ops|
  {
    if ops == [] then (c, [])
    else
      var (c1, frame) := Apply(cfg, c, ops[0]);
      var (c2, rest) := Play(cfg, c1, ops[1..]);
      (c2, (if frame.Some? then [frame.value.metadata.sequence] else []) + rest)
  }

  /** The sequence the next pop expects: at the first pop, the oldest one. */
  ghost function Expected(c: Client): nat
    requires c.jitterBuffer != map[]
  {
    if c.hasNextSequence then c.nextSequence else Least(c.jitterBuffer.Keys)
  }

  /** An episode: the buffer does not drain before the last operation, and after the first pop nothing
      below the expected sequence comes in. */
  ghost predicate Episode(cfg: ClientConfig, c: Client, ops: seq<Op>)
    decreases |ops|
  {
    ops != [] ==>
      && c.jitterBuffer != map[]
      && (ops[0].Insert? ==> c.hasNextSequence && c.nextSequence <= ops[0].frame.metadata.sequence < U64 - 1)
      && Episode(cfg, Apply(cfg, c, ops[0]).0, ops[1..])
  }

  /** Nothing buffered lies below the expected sequence, and none is the last 64-bit number. */
  ghost predicate Ahead(c: Client) {
    && (forall k :: k in c.jitterBuffer ==> k < U64 - 1 && c.jitterBuffer[k].frame.metadata.sequence == k)
    && (c.hasNextSequence ==> forall k :: k in c.jitterBuffer ==> c.nextSequence <= k)
  }

  lemma InsertStaysAhead(c: Client, frame: ReceivedFrame)
    requires Ahead(c) && c.hasNextSequence && c.nextSequence <= frame.metadata.sequence < U64 - 1
    ensures var d := Buffer(c, frame);
      && Ahead(d) && d.hasNextSequence && d.nextSequence == c.nextSequence
      && d.stats.skippedFrames == c.stats.skippedFrames
      && (c.jitterBuffer != map[] ==> d.jitterBuffer != map[])
  {
    assert c.jitterBuffer != map[] ==> exists k :: k in c.jitterBuffer;
  }

  /** With nothing buffered below the expected sequence, the candidate is the oldest frame. */
  lemma CandidateIsOldest(c: Client, now: nat, limits: PopLimits)
    requires Ahead(c) && c.jitterBuffer != map[]
    ensures var k := PopCandidate(c, now, limits);
      && (k.None? ==> c.hasNextSequence)
      && (k.Some? ==> Expected(c) <= k.value && forall j :: j in c.jitterBuffer ==> k.value <= j)
  {
    hide MaxWaitReached, AtDepthLimit;
  }

  lemma AdvanceCounts(c: Client, k: nat)
    requires Ahead(c) && k in c.jitterBuffer && Expected(c) <= k && forall j :: j in c.jitterBuffer ==> k <= j
    ensures var d := Advance(c, k);
      && Ahead(d) && d.jitterBuffer == c.jitterBuffer && d.nextSequence == k && d.hasNextSequence
      && d.stats.skippedFrames == c.stats.skippedFrames + (k - Expected(c))
  {
  }

  lemma EmitStaysAhead(c: Client, k: nat)
    requires Ahead(c) && k in c.jitterBuffer && forall j :: j in c.jitterBuffer ==> k <= j
    ensures var d := Emit(c, k);
      Ahead(d) && d.nextSequence == k + 1 && d.stats.skippedFrames == c.stats.skippedFrames
  {
  }

  /** One pop emits at or after the expected sequence, and accounts for what it passes over. */
  lemma PopStaysAhead(cfg: ClientConfig, c: Client, now: nat, limits: PopLimits)
    requires cfg.jitterBufferEnabled && Ahead(c) && c.jitterBuffer != map[]
    ensures var (d, frame) := TryPop(cfg, c, now, limits);
      && Ahead(d) && d.stats.skippedFrames >= c.stats.skippedFrames
      && (frame.Some? ==>
            && Expected(c) <= frame.value.metadata.sequence
            && d.nextSequence == frame.value.metadata.sequence + 1
            && d.nextSequence == Expected(c) + 1 + (d.stats.skippedFrames - c.stats.skippedFrames))
      && (frame.None? ==>
            && d.jitterBuffer == c.jitterBuffer && (c.hasNextSequence ==> d.hasNextSequence)
            && (d.hasNextSequence ==> d.nextSequence == Expected(c) + (d.stats.skippedFrames - c.stats.skippedFrames))
            && (!d.hasNextSequence ==> d == c))
  {
    hide Ripe, Advance, Emit, PopCandidate;
    var candidate := PopCandidate(c, now, limits);
    CandidateIsOldest(c, now, limits);
    if candidate.Some? {
      AdvanceCounts(c, candidate.value);
      EmitStaysAhead(Advance(c, candidate.value), candidate.value);
    }
  }

  /** From the first pop until the buffer drains, the emitted sequences strictly increase, and the expected
      sequence is the first one plus the frames emitted plus the frames counted as skipped. */
  lemma {:induction false} EmissionIsOrdered(cfg: ClientConfig, c: Client, ops: seq<Op>)
    requires cfg.jitterBufferEnabled && Ahead(c) && c.jitterBuffer != map[] && Episode(cfg, c, ops)
    ensures var (d, emitted) := Play(cfg, c, ops);
      && (forall i :: 0 <= i < |emitted| ==> Expected(c) <= emitted[i])
      && (forall i, j :: 0 <= i < j < |emitted| ==> emitted[i] < emitted[j])
      && (c.hasNextSequence || d.hasNextSequence || emitted != [] ==>
            d.nextSequence == Expected(c) + |emitted| + (d.stats.skippedFrames - c.stats.skippedFrames))
    decreases |ops|
  {
    hide TryPop, Buffer, Ahead, Least;
    if ops != [] {
      var (c1, frame) := Apply(cfg, c, ops[0]);
      var (d, rest) := Play(cfg, c1, ops[1..]);
      match ops[0] {
        case Insert(f) => InsertStaysAhead(c, f);
        case TryOne(now, limits) => PopStaysAhead(cfg, c, now, limits);
      }
      PopKeepsNext(cfg, c, ops[0]);
      if c1.jitterBuffer != map[] {
        EmissionIsOrdered(cfg, c1, ops[1..]);
        assert frame.Some? ==> Expected(c1) == frame.value.metadata.sequence + 1;
      } else {
        assert ops[1..] == [] && rest == [];
      }
      var emitted := Play(cfg, c, ops).1;
      assert emitted == (if frame.Some? then [frame.value.metadata.sequence] else []) + rest;
    }
  }

  /** While frames stay buffered, the expected sequence is not forgotten. */
  lemma PopKeepsNext(cfg: ClientConfig, c: Client, op: Op)
    requires cfg.jitterBufferEnabled && Ahead(c) && c.jitterBuffer != map[]
    ensures var (d, frame) := Apply(cfg, c, op);
      d.jitterBuffer != map[] && (frame.Some? || c.hasNextSequence) ==> d.hasNextSequence
  {
    hide Ripe, PopCandidate;
  }

  // ----- when the order breaks

  /** A pop emits a sequence below the expected one exactly when the expected frame is missing, something
      older is buffered, and the wait for the expected frame is over. */
  lemma PopGoesBackExactly(cfg: ClientConfig, c: Client, now: nat, limits: PopLimits)
    requires cfg.jitterBufferEnabled && BufferConsistent(c) && c.hasNextSequence
    ensures var frame := TryPop(cfg, c, now, limits).1;
      var oldest := Least(c.jitterBuffer.Keys);
      frame.Some? && frame.value.metadata.sequence < c.nextSequence <==>
        && c.nextSequence !in c.jitterBuffer
        && oldest < c.nextSequence
        && (|| MaxWaitReached(WaitedSince(c.jitterBuffer[oldest].bufferedTimestamp, now), limits)
            || AtDepthLimit(c, limits))
  {
  }

  /** The order is not kept in general: a late frame, older than everything buffered, is emitted next, after newer
      frames are gone, exactly when the depth limit or its own longest wait is reached; and `next` moves back to it. */
  lemma LateInsertGoesBack(cfg: ClientConfig, c: Client, late: ReceivedFrame, now: nat, limits: PopLimits)
    requires cfg.jitterBufferEnabled && BufferConsistent(c) && c.hasNextSequence && c.nextSequence !in c.jitterBuffer
    requires late.metadata.sequence < c.nextSequence < U64
    requires forall k :: k in c.jitterBuffer ==> late.metadata.sequence < k
    ensures var (d, frame) := TryPop(cfg, Buffer(c, late), now, limits);
      && (frame == Some(late) <==>
            |c.jitterBuffer| + 1 >= limits.maxFrames || MaxWaitReached(WaitedSince(late.receiveTimestamp, now), limits))
      && (frame == Some(late) ==> d.nextSequence == late.metadata.sequence + 1 <= c.nextSequence)
      && (frame != Some(late) ==> frame == None)
  {
    hide PopCandidate, Ripe, Least, Buffer, AtDepthLimit, MaxWaitReached, BufferConsistent;
    LateIsCandidate(c, late, now, limits);
    if PopCandidate(Buffer(c, late), now, limits).Some? {
      LateIsRipe(Advance(Buffer(c, late), late.metadata.sequence), late, now, limits);
    }
  }

  lemma LateIsCandidate(c: Client, late: ReceivedFrame, now: nat, limits: PopLimits)
    requires c.hasNextSequence && c.nextSequence !in c.jitterBuffer && late.metadata.sequence < c.nextSequence
    requires forall k :: k in c.jitterBuffer ==> late.metadata.sequence < k
    ensures var c1, k := Buffer(c, late), late.metadata.sequence;
      && k in c1.jitterBuffer && c1.jitterBuffer[k] == BufferedFrame(late, late.receiveTimestamp)
      && |c1.jitterBuffer| == |c.jitterBuffer| + 1
      && PopCandidate(c1, now, limits) ==
         if |c.jitterBuffer| + 1 >= limits.maxFrames || MaxWaitReached(WaitedSince(late.receiveTimestamp, now), limits)
         then Some(k) else None
  {
    hide MaxWaitReached;
    var c1 := Buffer(c, late);
    assert late.metadata.sequence in c1.jitterBuffer;
    assert Least(c1.jitterBuffer.Keys) == late.metadata.sequence;
  }

  lemma LateIsRipe(c: Client, late: ReceivedFrame, now: nat, limits: PopLimits)
    requires var k := late.metadata.sequence;
      k in c.jitterBuffer && c.jitterBuffer[k].bufferedTimestamp == late.receiveTimestamp
    requires |c.jitterBuffer| >= limits.maxFrames || MaxWaitReached(WaitedSince(late.receiveTimestamp, now), limits)
    ensures Ripe(c, late.metadata.sequence, now, limits)
  {
    hide MaxWaitReached;
    assert |c.jitterBuffer| > 0;
  }

  // ----- popping until refused

  /** At the depth limit a pop always succeeds. */
  lemma DepthLimitForcesPop(cfg: ClientConfig, c: Client, now: nat, limits: PopLimits)
    requires cfg.jitterBufferEnabled && AtDepthLimit(c, limits)
    ensures TryPop(cfg, c, now, limits).1.Some?
  {
  }

  lemma PopShrinks(cfg: ClientConfig, c: Client, now: nat, limits: PopLimits)
    requires TryPop(cfg, c, now, limits).1.Some?
    ensures |TryPop(cfg, c, now, limits).0.jitterBuffer| == |c.jitterBuffer| - 1
  {
    hide PopCandidate, Ripe;
    RemoveKeySize(c.jitterBuffer, PopCandidate(c, now, limits).value);
  }

  /** `TryPopReadyUdpFrame` called again and again at one time, until it refuses. */
  ghost function PopAll(cfg: ClientConfig, c: Client, now: nat, limits: PopLimits): (r: (Client, seq<ReceivedFrame>))
    decreases |c.jitterBuffer|
  {
    var (d, frame) := TryPop(cfg, c, now, limits);
    if frame.None? then (d, [])
    else
      PopShrinks(cfg, c, now, limits);
      var rest := PopAll(cfg, d, now, limits);
      (rest.0, [frame.value] + rest.1)
  }

  /** Repeated pops end with fewer frames than the depth limit, and hand out every frame that left. */
  lemma {:induction false} PopAllDrainsToLimit(cfg: ClientConfig, c: Client, now: nat, limits: PopLimits)
    requires cfg.jitterBufferEnabled
    ensures var (d, frames) := PopAll(cfg, c, now, limits);
      && |d.jitterBuffer| < Max(limits.maxFrames, 1)
      && |frames| + |d.jitterBuffer| == |c.jitterBuffer|
    decreases |c.jitterBuffer|
  {
    hide PopCandidate, Ripe;
    var (d, frame) := TryPop(cfg, c, now, limits);
    if frame.Some? {
      PopShrinks(cfg, c, now, limits);
      PopAllDrainsToLimit(cfg, d, now, limits);
    } else if AtDepthLimit(c, limits) {
      DepthLimitForcesPop(cfg, c, now, limits);
    }
  }
}
