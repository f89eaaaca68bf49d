/** Each operation of the client's UDP receiver as a function of the state before it. */
module UdpClientSpec {
  import opened Bytes
  import opened Protocol
  import opened Fec
  import opened UdpClientState

  // ----- expiry

  predicate Expired(a: Assembly, now: nat) {
    a.lastFragment != 0 && now > a.lastFragment && now - a.lastFragment > ASSEMBLY_TIMEOUT_NS
  }

  /** Assemblies given up: what they still miss counts as timed out. */
  ghost function GiveUp(c: Client, gone: set<nat>): (r: Client)
    requires c.WellFormed() && gone <= c.assemblies.Keys
    ensures r.WellFormed() && r.assemblies == c.assemblies - gone
  {
    c.(assemblies := c.assemblies - gone,
       stats := c.stats.(timedOutFrames := c.stats.timedOutFrames + |gone|,
                         timedOutFragments := c.stats.timedOutFragments + TotalMissing(Restrict(c.assemblies, gone))))
  }

  lemma GiveUpTotals(c: Client, gone: set<nat>, k: nat)
    requires c.WellFormed() && gone <= c.assemblies.Keys && k in c.assemblies && k !in gone
    ensures TotalMissing(Restrict(c.assemblies, gone + {k}))
            == TotalMissing(Restrict(c.assemblies, gone)) + TotalMissing(Restrict(c.assemblies - gone, {k}))
  {
    hide TotalMissing, Restrict;
    TotalMissingOneMore(c.assemblies, gone, k);
    TotalMissingSingle(c.assemblies - gone, k);
  }

  lemma GiveUpOneMore(c: Client, gone: set<nat>, k: nat)
    requires c.WellFormed() && gone <= c.assemblies.Keys && k in c.assemblies && k !in gone
    ensures GiveUp(GiveUp(c, gone), {k}) == GiveUp(c, gone + {k})
  {
    hide TotalMissing, Restrict, Client.WellFormed, Assembly.WellFormed;
    var r := GiveUp(c, gone);
    GiveUpTotals(c, gone, k);
    assert c.assemblies - (gone + {k}) == r.assemblies - {k};
    assert |gone + {k}| == |gone| + 1;
  }

  lemma GiveUpNone(c: Client)
    requires c.WellFormed()
    ensures GiveUp(c, {}) == c
  {
    assert c.assemblies - {} == c.assemblies;
    assert Restrict(c.assemblies, {}) == map[];
  }

  lemma GiveUpSingle(c: Client, k: nat)
    requires c.WellFormed() && k in c.assemblies
    ensures GiveUp(c, {k}) ==
      c.(assemblies := c.assemblies - {k},
         stats := c.stats.(timedOutFrames := c.stats.timedOutFrames + 1,
                           timedOutFragments := c.stats.timedOutFragments + c.assemblies[k].MissingCount()))
  {
    TotalMissingSingle(c.assemblies, k);
  }

  ghost function ExpiredKeys(c: Client, now: nat): set<nat> {
    set k | k in c.assemblies && Expired(c.assemblies[k], now)
  }

  /** Every expired assembly is given up, and no other. */
  ghost function PruneExpired(c: Client, now: nat): (r: Client)
    requires c.WellFormed()
    ensures r.WellFormed()
  {
    GiveUp(c, ExpiredKeys(c, now))
  }

  // ----- datagrams

  datatype Parsed = Invalid | Fragment(header: MessageHeader, fragment: FragmentHeader, body: bytes) {
    predicate Accepted() {
      && Fragment?
      && fragment.framePayloadSize < U32
      && fragment.fragmentCount > 0
      && fragment.fragmentRole <= XOR_PARITY
      && (fragment.fragmentRole == DATA ==>
            && fragment.fragmentIndex < fragment.fragmentCount
            && fragment.fragmentOffset + |body| <= fragment.framePayloadSize)
    }
  }

  function Parse(data: bytes): (p: Parsed)
    ensures p.Fragment? ==> p.Accepted()
  {
    if |data| < DATAGRAM_OVERHEAD then Invalid
    else
      var header := DecodeMessageHeader(data);
      if header.magic != MAGIC || header.messageType != AV_STREAM then Invalid
      else if header.payloadLength < FRAGMENT_HEADER_SIZE then Invalid
      else
        var f := DecodeFragmentHeader(data[MESSAGE_HEADER_SIZE..]);
        var body := data[DATAGRAM_OVERHEAD..];
        if f.fragmentCount == 0 || f.fragmentRole > XOR_PARITY then Invalid
        else if f.fragmentRole == DATA && f.fragmentIndex >= f.fragmentCount then Invalid
        else if |body| + FRAGMENT_HEADER_SIZE != header.payloadLength then Invalid
        else if f.fragmentRole == DATA && f.fragmentOffset + |body| > f.framePayloadSize then Invalid
        else Fragment(header, f, body)
  }

  function NewAssembly(cfg: ClientConfig, header: MessageHeader, f: FragmentHeader, now: nat): (a: Assembly)
    requires f.fragmentCount > 0
    ensures a.WellFormed()
  {
    NoneReceived(f.fragmentCount);
    Assembly(
      header,
      if cfg.expectMetadata then f.metadata else NO_METADATA.(sequence := f.metadata.sequence),
      seq(f.framePayloadSize, _ => 0 as byte),
      seq(f.fragmentCount, _ => false), seq(f.fragmentCount, _ => 0), seq(f.fragmentCount, _ => 0), 0,
      [], false, 0, now, now, 0, 0)
  }

  predicate SameLayout(a: Assembly, f: FragmentHeader) {
    |a.received| == f.fragmentCount && |a.payload| == f.framePayloadSize
  }

  /** The parity fragment is kept, never counted. */
  function StoreParity(cfg: ClientConfig, a: Assembly, body: bytes, now: nat): (r: Assembly)
    requires a.WellFormed()
    ensures r.WellFormed()
  {
    if cfg.fecEnabled then a.(fecPayload := body, hasFec := true, fecTimestamp := now, lastFragment := now)
    else a.(lastFragment := now)
  }

  /** The first copy of a data fragment is written at its offset; later copies change nothing. */
  function StoreData(a: Assembly, f: FragmentHeader, body: bytes, now: nat): (r: Assembly)
    requires a.WellFormed() && SameLayout(a, f)
    requires f.fragmentIndex < f.fragmentCount && f.fragmentOffset + |body| <= f.framePayloadSize
    ensures r.WellFormed()
  {
    var i := f.fragmentIndex;
    if a.received[i] then a
    else
      CountTrueSet(a.received, i);
      a.(payload := Spliced(a.payload, f.fragmentOffset, body), received := a.received[i := true],
         offsets := a.offsets[i := f.fragmentOffset], sizes := a.sizes[i := |body|],
         receivedCount := a.receivedCount + 1, lastFragment := now)
  }

  // ----- XOR recovery

  /** The stored slices of the received fragments with an index below `k`. */
  function ReceivedSlices(a: Assembly, k: nat): seq<bytes>
    requires a.WellFormed() && k <= |a.received| && SlicesInRange(a, k)
  {
    if k == 0 then []
    else if a.received[k - 1] then
      ReceivedSlices(a, k - 1) + [a.payload[a.offsets[k - 1]..a.offsets[k - 1] + a.sizes[k - 1]]]
    else ReceivedSlices(a, k - 1)
  }

  predicate SlicesInRange(a: Assembly, k: nat)
    requires a.WellFormed() && k <= |a.received|
  {
    forall i :: 0 <= i < k && a.received[i] ==> a.offsets[i] + a.sizes[i] <= |a.payload|
  }

  /** Where a missing fragment starts, from the end of the fragment before it (in 32-bit arithmetic). */
  function InferredOffset(a: Assembly, missing: nat): nat
    requires a.WellFormed() && missing < |a.received|
  {
    if missing > 0 then (a.offsets[missing - 1] + a.sizes[missing - 1]) % U32 else 0
  }

  /** Its size, from the start of the fragment after it or the end of the frame; `None` on a contradiction. */
  function InferredSize(a: Assembly, missing: nat): Option<nat>
    requires a.WellFormed() && missing < |a.received|
  {
    var offset := InferredOffset(a, missing);
    if missing + 1 < |a.received| then
      if a.offsets[missing + 1] < offset then None else Some(a.offsets[missing + 1] - offset)
    else if |a.payload| >= offset then Some((|a.payload| - offset) % U32)
    else Some(0)
  }

  ghost predicate Recoverable(cfg: ClientConfig, a: Assembly)
    requires a.WellFormed()
  {
    MissingIsExact(a.received);
    && cfg.fecEnabled && a.hasFec && a.fecTimestamp != 0
    && |Missing(a.received)| == 1
    && var missing := Missing(a.received)[0];
       assert missing in Missing(a.received);
       var offset, size := InferredOffset(a, missing), InferredSize(a, missing);
       && size.Some? && size.value != 0 && size.value <= |a.fecPayload| && offset + size.value <= |a.payload|
       && SlicesInRange(a, |a.received|)
  }

  /** The assembly with its one missing fragment restored from the parity. */
  ghost function Recovered(cfg: ClientConfig, a: Assembly): (r: Assembly)
    requires a.WellFormed() && Recoverable(cfg, a)
    ensures r.WellFormed() && r.Complete() && r.metadata == a.metadata
  {
    MissingIsExact(a.received);
    var missing := Missing(a.received)[0];
    assert missing in Missing(a.received);
    var offset, size := InferredOffset(a, missing), InferredSize(a, missing).value;
    var found := XorFold(a.fecPayload, ReceivedSlices(a, |a.received|));
    CountTrueSet(a.received, missing);
    a.(payload := Spliced(a.payload, offset, found[..size]), received := a.received[missing := true],
       offsets := a.offsets[missing := offset], sizes := a.sizes[missing := size],
       receivedCount := a.receivedCount + 1)
  }

  function CountRecoveries(s: Stats, n: nat): Stats {
    s.(fecRecoveredFragments := s.fecRecoveredFragments + n, fecRecoveredFrames := s.fecRecoveredFrames + n)
  }

  // ----- completed frames

  /** The new sequence goes to the back; the front goes while the window is too long. */
  function Remember(c: Client, k: nat): Client {
    if k in c.recentSet then c
    else
      var order := c.recentOrder + [k];
      var excess := if |order| > RECENT_WINDOW then |order| - RECENT_WINDOW else 0;
      c.(recentOrder := order[excess..], recentSet := c.recentSet + {k} - (set x | x in order[..excess]))
  }

  function DepthCounted(c: Client): Client {
    var depth := |c.jitterBuffer|;
    c.(stats := c.stats.(currentDepth := depth, maxDepth := Max(depth, c.stats.maxDepth)))
  }

  /** A frame whose sequence is already buffered is dropped. */
  function Buffer(c: Client, frame: ReceivedFrame): Client {
    var k := frame.metadata.sequence;
    if k in c.jitterBuffer then c.(stats := c.stats.(droppedFrames := c.stats.droppedFrames + 1))
    else DepthCounted(c.(jitterBuffer := c.jitterBuffer[k := BufferedFrame(frame, frame.receiveTimestamp)]))
  }

  function CompletedFrame(cfg: ClientConfig, a: Assembly, now: nat): ReceivedFrame {
    ReceivedFrame(a.header, a.metadata, cfg.expectMetadata && a.metadata.HasSenderLatency(), now, a.payload)
  }

  /** The bookkeeping every completed frame causes, up to the jitter buffer. */
  function Complete(cfg: ClientConfig, c: Client, k: nat, now: nat): (r: Client)
    requires c.WellFormed() && k in c.assemblies
    ensures r.WellFormed()
  {
    var c1 := c.(stats := c.stats.(completedFrames := c.stats.completedFrames + 1),
                 completed := c.completed + [CompletedFrame(cfg, c.assemblies[k], now)]);
    var c2 := Remember(c1, k);
    c2.(assemblies := c2.assemblies - {k})
  }

  function Finalize(cfg: ClientConfig, c: Client, k: nat, m: Moment): (o: Outcome)
    requires c.WellFormed() && k in c.assemblies
    ensures o.client.WellFormed()
  {
    var frame := CompletedFrame(cfg, c.assemblies[k], m.now);
    var c1 := Complete(cfg, c, k, m.now);
    if !cfg.jitterBufferEnabled then Outcome(c1, Some(frame), [])
    else if m.defer then Outcome(Buffer(c1, frame), None, [])
    else
      var (c2, nacks) := RequestMissing(cfg, Buffer(c1, frame), m);
      var (c3, popped) := TryPop(cfg, c2, m.now, m.limits);
      Outcome(c3, popped, nacks)
  }

  // ----- the jitter buffer

  function WaitedSince(timestamp: nat, now: nat): nat {
    if now > timestamp then now - timestamp else 0
  }

  predicate AtDepthLimit(c: Client, limits: PopLimits) {
    |c.jitterBuffer| >= Max(limits.maxFrames, 1)
  }

  predicate MaxWaitReached(waited: nat, limits: PopLimits) {
    limits.maxWaitNs > 0 && waited >= limits.maxWaitNs
  }

  /** The sequence the pop is about: the expected one, or, once waiting for it is given up, the oldest. */
  function PopCandidate(c: Client, now: nat, limits: PopLimits): (k: Option<nat>)
    requires c.jitterBuffer != map[]
    ensures k.Some? ==> k.value in c.jitterBuffer
  {
    var oldest := Least(c.jitterBuffer.Keys);
    var expected := if c.hasNextSequence then c.nextSequence else oldest;
    if expected in c.jitterBuffer then Some(expected)
    else if MaxWaitReached(WaitedSince(c.jitterBuffer[oldest].bufferedTimestamp, now), limits) then Some(oldest)
    else if AtDepthLimit(c, limits) then Some(oldest)
    else None
  }

  predicate Ripe(c: Client, k: nat, now: nat, limits: PopLimits)
    requires k in c.jitterBuffer
  {
    var waited := WaitedSince(c.jitterBuffer[k].bufferedTimestamp, now);
    || limits.targetDelayNs == 0 || waited >= limits.targetDelayNs
    || AtDepthLimit(c, limits) || MaxWaitReached(waited, limits)
  }

  /** `next` moved onto the candidate; every sequence jumped over on the way up counts as skipped. */
  function Advance(c: Client, candidate: nat): (r: Client)
    ensures r.jitterBuffer == c.jitterBuffer && r.nextSequence == candidate && r.hasNextSequence
    ensures r.assemblies == c.assemblies
  {
    var expected := if c.hasNextSequence then c.nextSequence else candidate;
    c.(nextSequence := candidate, hasNextSequence := true,
       stats := c.stats.(skippedFrames := c.stats.skippedFrames +
                           (if candidate > expected then candidate - expected else 0)))
  }

  function Emit(c: Client, k: nat): Client {
    var buffer := c.jitterBuffer - {k};
    DepthCounted(c.(jitterBuffer := buffer, nextSequence := (k + 1) % U64, hasNextSequence := buffer != map[],
                    stats := c.stats.(emittedFrames := c.stats.emittedFrames + 1)))
  }

  function TryPop(cfg: ClientConfig, c: Client, now: nat, limits: PopLimits): (r: (Client, Option<ReceivedFrame>))
    ensures r.0.assemblies == c.assemblies
    ensures c.WellFormed() ==> r.0.WellFormed()
  {
    if !cfg.jitterBufferEnabled || c.jitterBuffer == map[] then (c, None)
    else
      var candidate := PopCandidate(c, now, limits);
      if candidate.None? then (c, None)
      else
        var c1 := Advance(c, candidate.value);
        if Ripe(c1, candidate.value, now, limits) then
          (Emit(c1, candidate.value), Some(c.jitterBuffer[candidate.value].frame))
        else (c1, None)
  }

  // ----- NACK requests

  function Nanoseconds(ms: int): nat {
    if ms > 0 then ms * NS_PER_MS else 0
  }

  predicate NackDue(cfg: ClientConfig, a: Assembly, now: nat) {
    && a.received != [] && a.receivedCount < |a.received|
    && a.firstSeen != 0 && now >= a.firstSeen && now - a.firstSeen >= Nanoseconds(cfg.nackRequestDelayMs)
    && a.nackAttempts < cfg.nackMaxRetries
    && !(a.lastNack != 0 && now >= a.lastNack && now - a.lastNack < Nanoseconds(cfg.nackRetryIntervalMs))
  }

  function NackItems(sequence: nat, indices: seq<nat>): (items: seq<NackItem>)
    ensures |items| == |indices|
  {
    seq(|indices|, i requires 0 <= i < |indices| => NackItem(sequence, indices[i]))
  }

  function NackDatagram(sequence: nat, indices: seq<nat>, clock: nat): bytes {
    EncodeMessageHeader(MessageHeader(MAGIC, UDP_NACK, 0, NACK_HEADER_SIZE + |indices| * NACK_ITEM_SIZE)) +
    EncodeNackHeader(clock, |indices|) +
    EncodeNackItems(NackItems(sequence, indices))
  }

  datatype NackResult = NackResult(sent: seq<bytes>, requested: nat, ok: bool)

  /** The missing indices cut into chunks of at most `limit`, sent until the socket refuses one. */
  function SendNack(sequence: nat, missing: seq<nat>, limit: nat, chunk: nat, channel: NackChannel): NackResult
    requires limit > 0
    decreases |missing|
  {
    if missing == [] then NackResult([], 0, true)
    else if !channel.accepts(sequence, chunk) then NackResult([], 0, false)
    else
      var n := Min(limit, |missing|);
      var rest := SendNack(sequence, missing[n..], limit, chunk + 1, channel);
      NackResult([NackDatagram(sequence, missing[..n], channel.clock(sequence, chunk))] + rest.sent,
                 n + rest.requested, rest.ok)
  }

  function RequestOne(cfg: ClientConfig, c: Client, k: nat, m: Moment): (r: (Client, seq<bytes>))
    requires c.WellFormed() && k in c.assemblies
    ensures r.0.WellFormed() && r.0.assemblies.Keys == c.assemblies.Keys
  {
    var a := c.assemblies[k];
    if !NackDue(cfg, a, m.now) then (c, [])
    else
      var limit := Max(1, cfg.nackMaxRequestsPerPacket);
      var result := SendNack(a.metadata.sequence, Missing(a.received), limit, 0, m.channel);
      var a' := if result.ok then a.(lastNack := m.now, nackAttempts := a.nackAttempts + 1) else a;
      (c.(assemblies := c.assemblies[k := a'],
          stats := c.stats.(nackRequestsSent := c.stats.nackRequestsSent + |result.sent|,
                            nackFragmentsRequested := c.stats.nackFragmentsRequested + result.requested)),
       result.sent)
  }

  /** The requests for each of `keys`, in ascending order. */
  function RequestKeys(cfg: ClientConfig, c: Client, keys: set<nat>, m: Moment): (r: (Client, seq<bytes>))
    requires c.WellFormed() && keys <= c.assemblies.Keys
    ensures r.0.WellFormed() && r.0.assemblies.Keys == c.assemblies.Keys
    decreases |keys|
  {
    if keys == {} then (c, [])
    else
      var k := Least(keys);
      var (c1, first) := RequestOne(cfg, c, k, m);
      var (c2, rest) := RequestKeys(cfg, c1, keys - {k}, m);
      (c2, first + rest)
  }

  function RequestMissing(cfg: ClientConfig, c: Client, m: Moment): (r: (Client, seq<bytes>))
    requires c.WellFormed()
    ensures r.0.WellFormed()
  {
    if !cfg.nackEnabled || cfg.nackMaxRequestsPerPacket == 0 then (c, [])
    else RequestKeys(cfg, c, c.assemblies.Keys, m)
  }

  // ----- one datagram

  /** The assembly a valid fragment belongs to, made on first sight. */
  function Opened(cfg: ClientConfig, c: Client, p: Parsed, now: nat): (r: Client)
    requires c.WellFormed() && p.Accepted()
    ensures r.WellFormed() && p.fragment.metadata.sequence in r.assemblies
  {
    var k := p.fragment.metadata.sequence;
    if k in c.assemblies then c
    else c.(assemblies := c.assemblies[k := NewAssembly(cfg, p.header, p.fragment, now)],
            created := c.created + p.fragment.fragmentCount)
  }

  function Stored(cfg: ClientConfig, c: Client, p: Parsed, now: nat): (r: Client)
    requires c.WellFormed() && p.Accepted() && p.fragment.metadata.sequence in c.assemblies
    requires SameLayout(c.assemblies[p.fragment.metadata.sequence], p.fragment)
    ensures r.WellFormed() && p.fragment.metadata.sequence in r.assemblies
  {
    var k := p.fragment.metadata.sequence;
    var a := c.assemblies[k];
    if p.fragment.fragmentRole == XOR_PARITY then
      c.(assemblies := c.assemblies[k := StoreParity(cfg, a, p.body, now)],
         stats := c.stats.(fecFragmentsReceived := c.stats.fecFragmentsReceived + (if cfg.fecEnabled then 1 else 0)))
    else
      c.(assemblies := c.assemblies[k := StoreData(a, p.fragment, p.body, now)],
         stats := c.stats.(fragmentsReceived := c.stats.fragmentsReceived + 1,
                           duplicateFragments := c.stats.duplicateFragments +
                             (if a.received[p.fragment.fragmentIndex] then 1 else 0)))
  }

  /** The assembly after a recovery attempt. */
  ghost function Restored(cfg: ClientConfig, a: Assembly): (r: Assembly)
    requires a.WellFormed()
    ensures r.WellFormed() && r.metadata == a.metadata
  {
    if Recoverable(cfg, a) then Recovered(cfg, a) else a
  }

  ghost function RecoverOne(cfg: ClientConfig, c: Client, k: nat): (r: Client)
    requires c.WellFormed() && k in c.assemblies
    ensures r.WellFormed() && r.assemblies.Keys == c.assemblies.Keys
  {
    var a := c.assemblies[k];
    c.(assemblies := c.assemblies[k := Restored(cfg, a)],
       stats := if Recoverable(cfg, a) then CountRecoveries(c.stats, 1) else c.stats)
  }

  ghost function KeyIfRecoverable(cfg: ClientConfig, c: Client, k: nat): seq<nat>
    requires c.WellFormed() && k in c.assemblies
  {
    if Recoverable(cfg, c.assemblies[k]) then [k] else []
  }

  /** A recovery attempt on each of `keys`, in ascending order; and the keys it succeeded for. */
  ghost function RecoverKeys(cfg: ClientConfig, c: Client, keys: set<nat>): (r: (Client, seq<nat>))
    requires c.WellFormed() && keys <= c.assemblies.Keys
    ensures r.0.WellFormed() && r.0.assemblies.Keys == c.assemblies.Keys
    decreases |keys|
  {
    if keys == {} then (c, [])
    else
      var k := Least(keys);
      var rest := RecoverKeys(cfg, RecoverOne(cfg, c, k), keys - {k});
      (rest.0, KeyIfRecoverable(cfg, c, k) + rest.1)
  }

  /** A fragment that passed every check, from its assembly to a completed frame. */
  ghost function Accept(cfg: ClientConfig, c: Client, p: Parsed, m: Moment): (o: Outcome)
    requires c.WellFormed() && p.Accepted()
    ensures o.client.WellFormed()
  {
    var k := p.fragment.metadata.sequence;
    var c1 := Opened(cfg, c, p, m.now);
    if !SameLayout(c1.assemblies[k], p.fragment) then Outcome(GiveUp(c1, {k}), None, [])
    else
      var c2 := Stored(cfg, c1, p, m.now);
      var c3 := if p.fragment.fragmentRole == DATA then RecoverOne(cfg, c2, k) else c2;
      if c3.assemblies[k].Complete() then Finalize(cfg, c3, k, m) else Outcome(c3, None, [])
  }

  ghost function ReceiveDatagram(cfg: ClientConfig, c: Client, data: bytes, m: Moment): (o: Outcome)
    requires c.WellFormed()
    ensures o.client.WellFormed()
  {
    var c1 := PruneExpired(c.(stats := c.stats.(datagramsReceived := c.stats.datagramsReceived + 1)), m.now);
    var p := Parse(data);
    if p.Invalid? then Outcome(c1.(stats := c1.stats.(invalidDatagrams := c1.stats.invalidDatagrams + 1)), None, [])
    else if p.fragment.metadata.sequence in c1.recentSet then
      Outcome(c1.(stats := c1.stats.(staleDatagramsDropped := c1.stats.staleDatagramsDropped + 1)), None, [])
    else Accept(cfg, c1, p, m)
  }

  // ----- the recovery pass over every assembly

  /** Finalizes in order, and stops at the first frame handed out. */
  function FinalizeKeys(cfg: ClientConfig, c: Client, keys: seq<nat>, m: Moment): (o: Outcome)
    requires c.WellFormed()
    ensures o.client.WellFormed()
    decreases |keys|
  {
    if keys == [] then Outcome(c, None, [])
    else if keys[0] !in c.assemblies || !c.assemblies[keys[0]].Complete() then FinalizeKeys(cfg, c, keys[1..], m)
    else
      var o := Finalize(cfg, c, keys[0], m);
      if o.frame.Some? then o
      else
        var rest := FinalizeKeys(cfg, o.client, keys[1..], m);
        rest.(nacks := o.nacks + rest.nacks)
  }

  ghost function RecoveryPass(cfg: ClientConfig, c: Client, m: Moment): (o: Outcome)
    requires c.WellFormed()
    ensures o.client.WellFormed()
  {
    var (c1, recovered) := RecoverKeys(cfg, c, c.assemblies.Keys);
    FinalizeKeys(cfg, c1, recovered, m)
  }

  // ----- runs

  datatype Event =
    | Datagram(data: bytes, moment: Moment)
    | Recovery(moment: Moment)
    | Prune(moment: Moment)
    | RequestNacks(moment: Moment)
    | Pop(moment: Moment)

  /** One step of the receive loop, which calls these operations in some order. */
  ghost function Step(cfg: ClientConfig, c: Client, e: Event): (o: Outcome)
    requires c.WellFormed()
    ensures o.client.WellFormed()
  {
    match e
    case Datagram(data, m) => ReceiveDatagram(cfg, c, data, m)
    case Recovery(m) => RecoveryPass(cfg, c, m)
    case Prune(m) => Outcome(PruneExpired(c, m.now), None, [])
    case RequestNacks(m) => var (c', nacks) := RequestMissing(cfg, c, m); Outcome(c', None, nacks)
    case Pop(m) => var (c', frame) := TryPop(cfg, c, m.now, m.limits); Outcome(c', frame, [])
  }

  /** The state after a run from the reset client. */
  ghost function Run(cfg: ClientConfig, events: seq<Event>): (c: Client)
    ensures c.WellFormed()
  {
    if events == [] then RESET else Step(cfg, Run(cfg, events[..|events| - 1]), events[|events| - 1]).client
  }

  lemma RunSnoc(cfg: ClientConfig, events: seq<Event>, e: Event)
    ensures Run(cfg, events + [e]) == Step(cfg, Run(cfg, events), e).client
  {
    hide Step;
    assert (events + [e])[..|events|] == events;
  }

  /** The frames the run hands to its caller, in order. */
  ghost function Emitted(cfg: ClientConfig, events: seq<Event>): seq<ReceivedFrame> {
    if events == [] then []
    else
      var before, last := events[..|events| - 1], events[|events| - 1];
      var frame := Step(cfg, Run(cfg, before), last).frame;
      Emitted(cfg, before) + (if frame.Some? then [frame.value] else [])
  }
}
