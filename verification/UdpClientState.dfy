/** The client's UDP state and, as functions on it, what each of its operations is to compute. */
module UdpClientState {
  import opened Bytes
  import opened Protocol

  const ASSEMBLY_TIMEOUT_NS: nat := 250_000_000
  const RECENT_WINDOW: nat := 1024
  datatype ClientConfig = ClientConfig(
    expectMetadata: bool, jitterBufferEnabled: bool, fecEnabled: bool, nackEnabled: bool,
    nackRequestDelayMs: int, nackRetryIntervalMs: int, nackMaxRetries: int, nackMaxRequestsPerPacket: nat)

  datatype Assembly = Assembly(
    header: MessageHeader, metadata: FrameDiagnosticMetadata,
    payload: bytes, received: seq<bool>, offsets: seq<nat>, sizes: seq<nat>, receivedCount: nat,
    fecPayload: bytes, hasFec: bool, fecTimestamp: nat,
    firstSeen: nat, lastFragment: nat, lastNack: nat, nackAttempts: nat)
  {
    ghost predicate WellFormed() {
      && 1 <= |received| == |offsets| == |sizes|
      && receivedCount == CountTrue(received)
    }

    predicate Complete() {
      receivedCount == |received|
    }

    function MissingCount(): nat
      requires receivedCount <= |received|
    {
      |received| - receivedCount
    }
  }

  datatype ReceivedFrame = ReceivedFrame(
    header: MessageHeader, metadata: FrameDiagnosticMetadata, senderMetadataAvailable: bool,
    receiveTimestamp: nat, payload: bytes)

  datatype BufferedFrame = BufferedFrame(frame: ReceivedFrame, bufferedTimestamp: nat)

  datatype Stats = Stats(
    datagramsReceived: nat, invalidDatagrams: nat, staleDatagramsDropped: nat,
    fragmentsReceived: nat, duplicateFragments: nat, timedOutFragments: nat, timedOutFrames: nat,
    completedFrames: nat, emittedFrames: nat, skippedFrames: nat, droppedFrames: nat,
    currentDepth: nat, maxDepth: nat,
    nackRequestsSent: nat, nackFragmentsRequested: nat,
    fecFragmentsReceived: nat, fecRecoveredFragments: nat, fecRecoveredFrames: nat)

  const NO_STATS := Stats(0, 0, 0, 0, 0, 0, 0, 0, 0, 0, 0, 0, 0, 0, 0, 0, 0, 0)

  /** `completed` (every frame completed so far) and `created` (the fragment counts of every assembly
      made so far, added up) are history: no operation reads them. */
  datatype Client = Client(
    assemblies: map<nat, Assembly>,
    jitterBuffer: map<nat, BufferedFrame>, nextSequence: nat, hasNextSequence: bool,
    recentOrder: seq<nat>, recentSet: set<nat>,
    stats: Stats,
    completed: seq<ReceivedFrame>, created: nat)
  {
    ghost predicate WellFormed() {
      forall k :: k in assemblies ==> assemblies[k].WellFormed() && assemblies[k].metadata.sequence == k
    }
  }

  lemma WellFormedIgnores(c: Client, d: Client)
    requires c.WellFormed() && d.assemblies == c.assemblies
    ensures d.WellFormed()
  {
  }

  const RESET := Client(map[], map[], 0, false, [], {}, NO_STATS, [], 0)

  /** The delay target and limits in force at a pop: the adaptive controller's or the configured ones. */
  datatype PopLimits = PopLimits(targetDelayNs: nat, maxWaitNs: nat, maxFrames: nat)

  /** Whether the socket takes chunk `n` of the NACK for a frame, and the clock read for it. */
  datatype NackChannel = NackChannel(accepts: (nat, nat) -> bool, clock: (nat, nat) -> nat)

  /** One call of a client operation at time `now`. */
  datatype Moment = Moment(now: nat, defer: bool, limits: PopLimits, channel: NackChannel)

  datatype Outcome = Outcome(client: Client, frame: Option<ReceivedFrame>, nacks: seq<bytes>)

  // ----- received flags

  function CountTrue(flags: seq<bool>): (n: nat)
    ensures n <= |flags|
  {
    if flags == [] then 0 else CountTrue(flags[..|flags| - 1]) + (if flags[|flags| - 1] then 1 else 0)
  }

  /** The indices of the unset flags, ascending. */
  function Missing(flags: seq<bool>): (m: seq<nat>)
    ensures |m| + CountTrue(flags) == |flags|
  {
    if flags == [] then []
    else
      var last := |flags| - 1;
      Missing(flags[..last]) + (if flags[last] then [] else [last])
  }

  /** `Missing` lists exactly the unset flags, in ascending order. */
  lemma {:induction false} MissingIsExact(flags: seq<bool>)
    ensures forall k :: k in Missing(flags) <==> 0 <= k < |flags| && !flags[k]
    ensures forall i, j :: 0 <= i < j < |Missing(flags)| ==> Missing(flags)[i] < Missing(flags)[j]
  {
    if flags != [] {
      var before := Missing(flags[..|flags| - 1]);
      MissingIsExact(flags[..|flags| - 1]);
      assert forall i :: 0 <= i < |before| ==> before[i] in before;
    }
  }

  lemma {:induction false} CountTrueSet(flags: seq<bool>, i: nat)
    requires i < |flags| && !flags[i]
    ensures CountTrue(flags[i := true]) == CountTrue(flags) + 1
  {
    var last := |flags| - 1;
    if i < last {
      assert flags[i := true][..last] == flags[..last][i := true];
      CountTrueSet(flags[..last], i);
    } else {
      assert flags[i := true][..last] == flags[..last];
    }
  }

  lemma AllReceived(flags: seq<bool>)
    requires CountTrue(flags) == |flags|
    ensures forall i :: 0 <= i < |flags| ==> flags[i]
  {
    MissingIsExact(flags);
    assert Missing(flags) == [];
  }

  lemma NoneReceived(count: nat)
    ensures CountTrue(seq(count, _ => false)) == 0
  {
    var flags := seq(count, _ => false);
    if count > 0 {
      assert flags[..count - 1] == seq(count - 1, _ => false);
      NoneReceived(count - 1);
    }
  }

  // ----- keys in the order of a std::map

  lemma {:induction false} LeastExists(s: set<nat>)
    requires s != {}
    ensures exists k :: k in s && forall j :: j in s ==> k <= j
  {
    var k :| k in s;
    LeastFrom(s, k);
  }

  lemma {:induction false} LeastFrom(s: set<nat>, k: nat)
    requires k in s
    ensures exists m :: m in s && forall j :: j in s ==> m <= j
  {
    if exists j :: j in s && j < k {
      var j :| j in s && j < k;
      LeastFrom(s, j);
    }
  }

  function Least(s: set<nat>): (k: nat)
    requires s != {}
    ensures k in s && forall j :: j in s ==> k <= j
  {
    LeastExists(s);
    var k :| k in s && forall j :: j in s ==> k <= j;
    k
  }

  // ----- sums over maps

  ghost function Total(m: map<nat, nat>): nat
    decreases |m|
  {
    if m == map[] then 0
    else
      var k := Least(m.Keys);
      assert |m - {k}| < |m| by { RemoveKeySize(m, k); }
      m[k] + Total(m - {k})
  }

  lemma RemoveKeySize<V>(m: map<nat, V>, k: nat)
    requires k in m
    ensures |m - {k}| == |m| - 1
  {
    assert (m - {k}).Keys == m.Keys - {k};
    assert |m.Keys - {k}| == |m.Keys| - 1;
  }

  lemma {:induction false} TotalRemove(m: map<nat, nat>, k: nat)
    requires k in m
    ensures Total(m) == m[k] + Total(m - {k})
    decreases |m|
  {
    var least := Least(m.Keys);
    if k != least {
      var rest, other := m - {least}, m - {k};
      RemoveKeySize(m, least);
      TotalRemove(rest, k);
      assert other.Keys == m.Keys - {k} && least in other.Keys;
      assert Least(other.Keys) == least;
      assert rest - {k} == other - {least};
    }
  }

  lemma TotalUpdate(m: map<nat, nat>, k: nat, v: nat)
    ensures Total(m[k := v]) == Total(m) - (if k in m then m[k] else 0) + v
  {
    var updated := m[k := v];
    TotalRemove(updated, k);
    if k in m {
      TotalRemove(m, k);
      assert updated - {k} == m - {k};
    } else {
      assert updated - {k} == m;
    }
  }

  ghost function Restrict<V>(m: map<nat, V>, keys: set<nat>): map<nat, V>
    requires keys <= m.Keys
  {
    map k | k in keys :: m[k]
  }

  lemma {:induction false} TotalSplit(m: map<nat, nat>, gone: set<nat>)
    requires gone <= m.Keys
    ensures Total(m) == Total(m - gone) + Total(Restrict(m, gone))
    decreases |gone|
  {
    var lost := Restrict(m, gone);
    if gone == {} {
      assert m - gone == m;
      assert lost == map[];
    } else {
      var k :| k in gone;
      var fewer := gone - {k};
      TotalSplit(m, fewer);
      TotalRemove(m - fewer, k);
      assert m - fewer - {k} == m - gone;
      TotalRemove(lost, k);
      assert lost - {k} == Restrict(m, fewer);
    }
  }

  // ----- fragments still missing

  ghost predicate AllWellFormed(assemblies: map<nat, Assembly>) {
    forall k :: k in assemblies ==> assemblies[k].WellFormed()
  }

  ghost function MissingCounts(assemblies: map<nat, Assembly>): map<nat, nat>
    requires AllWellFormed(assemblies)
  {
    map k | k in assemblies :: assemblies[k].MissingCount()
  }

  /** What all of `assemblies` still miss. */
  ghost function TotalMissing(assemblies: map<nat, Assembly>): nat
    requires AllWellFormed(assemblies)
  {
    Total(MissingCounts(assemblies))
  }

  lemma TotalMissingRemove(assemblies: map<nat, Assembly>, k: nat)
    requires AllWellFormed(assemblies) && k in assemblies
    ensures TotalMissing(assemblies) == assemblies[k].MissingCount() + TotalMissing(assemblies - {k})
  {
    TotalRemove(MissingCounts(assemblies), k);
    assert MissingCounts(assemblies - {k}) == MissingCounts(assemblies) - {k};
  }

  lemma TotalMissingOneMore(assemblies: map<nat, Assembly>, keys: set<nat>, k: nat)
    requires AllWellFormed(assemblies) && keys <= assemblies.Keys && k in assemblies && k !in keys
    ensures TotalMissing(Restrict(assemblies, keys + {k})) ==
      assemblies[k].MissingCount() + TotalMissing(Restrict(assemblies, keys))
  {
    var more := Restrict(assemblies, keys + {k});
    TotalMissingRemove(more, k);
    assert more - {k} == Restrict(assemblies, keys);
  }

  lemma TotalMissingSingle(assemblies: map<nat, Assembly>, k: nat)
    requires AllWellFormed(assemblies) && k in assemblies
    ensures TotalMissing(Restrict(assemblies, {k})) == assemblies[k].MissingCount()
  {
    TotalMissingOneMore(assemblies, {}, k);
    assert {} + {k} == {k} && Restrict(assemblies, {}) == map[];
  }

  lemma TotalMissingUpdate(assemblies: map<nat, Assembly>, k: nat, a: Assembly)
    requires AllWellFormed(assemblies) && a.WellFormed()
    ensures TotalMissing(assemblies[k := a]) ==
      TotalMissing(assemblies) - (if k in assemblies then assemblies[k].MissingCount() else 0) + a.MissingCount()
  {
    TotalUpdate(MissingCounts(assemblies), k, a.MissingCount());
    assert MissingCounts(assemblies[k := a]) == MissingCounts(assemblies)[k := a.MissingCount()];
  }

  lemma TotalMissingSplit(assemblies: map<nat, Assembly>, gone: set<nat>)
    requires AllWellFormed(assemblies) && gone <= assemblies.Keys
    ensures TotalMissing(assemblies) == TotalMissing(assemblies - gone) + TotalMissing(Restrict(assemblies, gone))
  {
    var counts := MissingCounts(assemblies);
    TotalSplit(counts, gone);
    assert MissingCounts(assemblies - gone) == counts - gone;
    assert MissingCounts(Restrict(assemblies, gone)) == Restrict(counts, gone);
  }
}
