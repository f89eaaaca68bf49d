/** From an assembly with missing fragments, through request, lookup and resend, to the completed frame. */
module UdpRetransmission {
  import opened Bytes
  import opened Protocol
  import opened UdpSenderSpec
  import opened UdpSender
  import opened UdpClientState
  import opened UdpClientSpec
  import opened UdpInvariants
  import opened UdpEmission
  import opened UdpRecovery
  import opened UdpIntegrity
  import opened UdpNackLoop
  import opened UdpTiming

  // ----- the server's answers

  /** What the server resends for all of them, the i-th arriving at `times[i]`. */
  function Answers(config: SenderConfig, cache: seq<CachedFrame>, requests: seq<bytes>, times: seq<nat>): seq<bytes>
    requires |times| >= |requests|
    decreases |requests|
  {
    if requests == [] then []
    else Answer(config, cache, requests[0], times[0]) +
         Answers(config, AfterRequest(config, cache, requests[0], times[0]), requests[1..], times[1..])
  }

  /** The frame was sent no longer ago than cached frames may be old. */
  ghost predicate YoungAt(config: SenderConfig, s: SentFrame, now: nat) {
    now <= s.sendTimestamp || now - s.sendTimestamp <= config.cacheMaxAgeMs * 1_000_000
  }

  lemma AgeOf(config: SenderConfig, s: SentFrame, now: nat)
    requires s.Sendable()
    ensures OverAge(CacheEntry(s), now, config.MaxAgeNs()) <==> !YoungAt(config, s, now)
  {
    hide CountOf, SentFrame.DataDatagram;
  }

  /** A frame that is not over age survives pruning. */
  lemma YoungStaysCached(sent: map<nat, SentFrame>, cache: seq<CachedFrame>, s: SentFrame, now: nat, maxAgeNs: nat)
    requires SentOnce(sent) && CacheGenuine(sent, cache) && TimeSorted(cache) && s.frame.sequence in sent
    requires sent[s.frame.sequence] == s
    requires Cached(cache, s.frame.sequence) && !OverAge(CacheEntry(s), now, maxAgeNs)
    ensures var kept := PruneFront(cache, now, maxAgeNs);
      Cached(kept, s.frame.sequence) && CacheGenuine(sent, kept) && TimeSorted(kept)
  {
    hide CountOf, SentFrame.DataDatagram;
    var kept := PruneFront(cache, now, maxAgeNs);
    var n := PruneFrontIsSuffix(cache, now, maxAgeNs);
    var j :| 0 <= j < |cache| && cache[j].frameSequence == s.frame.sequence;
    if j < n {
      PrunedAreOverAge(cache, now, maxAgeNs, n, j);
    }
    assert kept[j - n].frameSequence == s.frame.sequence;
  }

  lemma {:induction false} PrunedAreOverAge(cache: seq<CachedFrame>, now: nat, maxAgeNs: nat, n: nat, j: nat)
    requires n <= |cache| && PruneFront(cache, now, maxAgeNs) == cache[n..] && j < n
    ensures OverAge(cache[j], now, maxAgeNs)
    decreases |cache|
  {
    assert |PruneFront(cache, now, maxAgeNs)| < |cache|;
    if j > 0 {
      assert cache[1..][n - 1..] == cache[n..];
      PrunedAreOverAge(cache[1..], now, maxAgeNs, n - 1, j - 1);
    }
  }

  lemma NoDataDatagrams(s: SentFrame)
    requires s.Sendable()
    ensures DataDatagramsOf(s, []) == []
  {
  }

  lemma DataDatagramsSplit(s: SentFrame, indices: seq<nat>, n: nat)
    requires s.Sendable() && n <= |indices|
    ensures DataDatagramsOf(s, indices) == DataDatagramsOf(s, indices[..n]) + DataDatagramsOf(s, indices[n..])
  {
    hide SentFrame.DataDatagram;
  }

  /** While the frame stays young, the server answers the chunked requests with exactly the missing datagrams. */
  lemma {:induction false} AnswersAreExact(config: SenderConfig, sent: map<nat, SentFrame>, cache: seq<CachedFrame>,
      s: SentFrame, missing: seq<nat>, limit: nat, chunk: nat, channel: NackChannel, times: seq<nat>)
    requires SentOnce(sent) && CacheGenuine(sent, cache) && TimeSorted(cache) && s.frame.sequence in sent
    requires sent[s.frame.sequence] == s
    requires config.Validated() && config.enableNack && Cached(cache, s.frame.sequence)
    requires forall i :: 0 <= i < |missing| ==> missing[i] < s.Count()
    requires |missing| < U16 && 0 < limit && Min(limit, |missing|) <= config.maxFragmentsPerRequest
    requires MESSAGE_HEADER_SIZE + NACK_HEADER_SIZE + Min(limit, |missing|) * NACK_ITEM_SIZE <= config.maxDatagramSize
    requires forall n: nat :: channel.accepts(s.frame.sequence, n)
    requires |times| >= |SendNack(s.frame.sequence, missing, limit, chunk, channel).sent|
    requires forall i :: 0 <= i < |times| ==> YoungAt(config, s, times[i])
    ensures Answers(config, cache, SendNack(s.frame.sequence, missing, limit, chunk, channel).sent, times) ==
      DataDatagramsOf(s, missing)
    decreases |missing|
  {
    hide NackDatagram, ParseNackRequest, SentFrame.DataDatagram, CountOf, Found, CacheGenuine, TimeSorted, Cached,
        OverAge, PruneFront, CacheEntry, DataDatagramsOf;
    NoDataDatagrams(s);
    if missing != [] {
      var k := s.frame.sequence;
      var n := Min(limit, |missing|);
      var first, rest := missing[..n], missing[n..];
      var clock := channel.clock(k, chunk);
      var requests := SendNack(k, missing, limit, chunk, channel).sent;
      assert requests == [NackDatagram(k, first, clock)] + SendNack(k, rest, limit, chunk + 1, channel).sent;
      var maxAgeNs := config.MaxAgeNs();
      var kept := PruneFront(cache, times[0], maxAgeNs);
      AgeOf(config, s, times[0]);
      YoungStaysCached(sent, cache, s, times[0], maxAgeNs);
      NackDatagramLength(k, first, clock);
      RequestParses(k, first, clock, config.maxDatagramSize);
      FoundExact(sent, kept, s, first);
      assert NackItems(k, first)[..n] == NackItems(k, first);
      AnswersAreExact(config, sent, kept, s, rest, limit, chunk + 1, channel, times[1..]);
      DataDatagramsSplit(s, missing, n);
    }
  }

  // ----- delivery

  /** After the first `since` completed frames, one with sequence `k` was completed. */
  ghost predicate Done(c: Client, k: nat, since: nat) {
    exists i :: since <= i < |c.completed| && c.completed[i].metadata.sequence == k
  }

  /** An incomplete assembly, alive since `start`, whose missing fragments are all among `todo`. */
  ghost predicate Awaiting(c: Client, k: nat, todo: seq<nat>, start: nat) {
    && k in c.assemblies
    && c.assemblies[k].WellFormed()
    && !c.assemblies[k].Complete()
    && c.assemblies[k].lastFragment >= start
    && forall i :: 0 <= i < |c.assemblies[k].received| && !c.assemblies[k].received[i] ==> i in todo
  }

  lemma FinalizeIsDone(cfg: ClientConfig, c: Client, k: nat, m: Moment)
    requires c.WellFormed() && k in c.assemblies
    ensures Done(Finalize(cfg, c, k, m).client, k, |c.completed|)
  {
    hide Finalize, Assembly.WellFormed;
    FinalizeAppends(cfg, c, k, m);
    assert Finalize(cfg, c, k, m).client.completed[|c.completed|].metadata.sequence == k;
  }

  /** The k-th assembly after the resent fragment is stored and recovery is tried. */
  lemma StoringHelps(cfg: ClientConfig, s: SentFrame, a: Assembly, i: nat, todo: seq<nat>, now: nat)
    requires s.Valid() && a.WellFormed() && Matches(cfg, s, a) && i < s.Count()
    requires forall j :: 0 <= j < |a.received| && !a.received[j] ==> j in [i] + todo
    ensures SameLayout(a, s.DataHeader(i)) && s.DataHeader(i).fragmentOffset + |s.Body(i)| <= |s.frame.payload|
    ensures var r := Restored(cfg, StoreData(a, s.DataHeader(i), s.Body(i), now));
      || r.Complete()
      || (&& r.lastFragment in {a.lastFragment, now}
          && forall j :: 0 <= j < |r.received| && !r.received[j] ==> j in todo)
  {
    hide CountTrue, CountOf, Spliced, SentFrame.ParityBody, SentFrame.Body, Holds, Recoverable;
    DataMatches(cfg, s, a, i, now);
    var stored := StoreData(a, s.DataHeader(i), s.Body(i), now);
    var r := Restored(cfg, stored);
    forall j | 0 <= j < |stored.received| && !stored.received[j]
      ensures j in todo
    {
      assert j != i && !a.received[j];
    }
  }

  lemma AcceptHelps(cfg: ClientConfig, sent: map<nat, SentFrame>, c: Client, s: SentFrame, p: Parsed, i: nat,
      todo: seq<nat>, start: nat, m: Moment)
    requires SentOnce(sent) && Inv(cfg, c) && Consistent(cfg, sent, c) && s.frame.sequence in sent
    requires sent[s.frame.sequence] == s
    requires i < s.Count() && p.Accepted() && p.fragment == s.DataHeader(i) && p.body == s.Body(i)
    requires Awaiting(c, s.frame.sequence, [i] + todo, start) && start <= m.now
    ensures var d := Accept(cfg, c, p, m).client;
      Done(d, s.frame.sequence, |c.completed|) || Awaiting(d, s.frame.sequence, todo, start)
  {
    hide Finalize, Matches, SentFrame.Body, CountOf, StoreData, Restored, Recoverable, Inv, Done, GiveUp, CountTrue,
        Opened, Stored, RecoverOne, Client.WellFormed, SameLayout, Assembly.WellFormed, SentFrame.DataHeader;
    var k := s.frame.sequence;
    InvWellFormed(cfg, c);
    NotRecent(cfg, c, k);
    StoringHelps(cfg, s, c.assemblies[k], i, todo, m.now);
    DataHeaderFields(s, i);
    StoredData(cfg, c, p, m.now);
    var c2 := Stored(cfg, c, p, m.now);
    var c3 := RecoverOne(cfg, c2, k);
    RecoverOneAt(cfg, c2, k);
    StoredSilent(cfg, c, p, m.now);
    RecoverOneSilent(cfg, c2, k);
    if c3.assemblies[k].Complete() {
      FinalizeIsDone(cfg, c3, k, m);
    }
  }

  lemma DataHeaderFields(s: SentFrame, i: nat)
    requires s.Sendable()
    ensures s.DataHeader(i).metadata.sequence == s.frame.sequence && s.DataHeader(i).fragmentRole == DATA
  {
  }

  lemma StoredData(cfg: ClientConfig, c: Client, p: Parsed, now: nat)
    requires c.WellFormed() && p.Accepted() && p.fragment.metadata.sequence in c.assemblies
    requires p.fragment.fragmentRole == DATA
    requires SameLayout(c.assemblies[p.fragment.metadata.sequence], p.fragment)
    ensures Opened(cfg, c, p, now) == c
    ensures var k := p.fragment.metadata.sequence;
      Stored(cfg, c, p, now).assemblies[k] == StoreData(c.assemblies[k], p.fragment, p.body, now)
  {
    hide StoreData, SameLayout;
  }

  lemma RecoverOneAt(cfg: ClientConfig, c: Client, k: nat)
    requires c.WellFormed() && k in c.assemblies
    ensures RecoverOne(cfg, c, k).assemblies[k] == Restored(cfg, c.assemblies[k])
    ensures RecoverOne(cfg, c, k).assemblies[k].WellFormed()
  {
    hide Restored, Recoverable;
  }

  lemma NotRecent(cfg: ClientConfig, c: Client, k: nat)
    requires Inv(cfg, c) && k in c.assemblies
    ensures k !in c.recentSet
  {
  }

  /** Delivering a missing fragment in time completes the frame or brings its assembly one fragment closer. */
  lemma DeliveryHelps(cfg: ClientConfig, sent: map<nat, SentFrame>, c: Client, s: SentFrame, i: nat, todo: seq<nat>,
      start: nat, m: Moment)
    requires SentOnce(sent) && Inv(cfg, c) && Consistent(cfg, sent, c) && s.frame.sequence in sent
    requires sent[s.frame.sequence] == s
    requires i < s.Count() && Awaiting(c, s.frame.sequence, [i] + todo, start)
    requires start <= m.now <= start + ASSEMBLY_TIMEOUT_NS
    ensures var d := ReceiveDatagram(cfg, c, s.DataDatagram(i), m).client;
      Done(d, s.frame.sequence, |c.completed|) || Awaiting(d, s.frame.sequence, todo, start)
  {
    hide Consistent, Inv, Accept, Parse, SentFrame.DataDatagram, SentFrame.Body, CountOf, GiveUp, Assembly.WellFormed,
        Done;
    var k := s.frame.sequence;
    InvWellFormed(cfg, c);
    assert c.WellFormed();
    var c0 := c.(stats := c.stats.(datagramsReceived := c.stats.datagramsReceived + 1));
    SameExceptCounters(cfg, c, c0);
    FewerAssemblies(cfg, sent, c, c0);
    var c1 := PruneExpired(c0, m.now);
    PruneKeeps(cfg, c0, m.now);
    GiveUpConsistent(cfg, sent, c0, ExpiredKeys(c0, m.now));
    assert k !in ExpiredKeys(c0, m.now);
    assert c1.assemblies[k] == c.assemblies[k];
    PruneSilent(c0, m.now);
    NotRecent(cfg, c, k);
    DataParses(s, i);
    var p := Parse(s.DataDatagram(i));
    AcceptHelps(cfg, sent, c1, s, p, i, todo, start, m);
  }

  /** The client after receiving `datagrams[i]` at `moments[i]`. */
  ghost function Deliver(cfg: ClientConfig, c: Client, datagrams: seq<bytes>, moments: seq<Moment>): (d: Client)
    requires c.WellFormed() && |moments| >= |datagrams|
    ensures d.WellFormed()
    decreases |datagrams|
  {
    if datagrams == [] then c
    else Deliver(cfg, ReceiveDatagram(cfg, c, datagrams[0], moments[0]).client, datagrams[1..], moments[1..])
  }

  lemma DoneSince(c: Client, d: Client, k: nat, since: nat, earlier: nat)
    requires c.completed <= d.completed && earlier <= since
    ensures Done(c, k, since) ==> Done(d, k, earlier)
  {
    if i :| since <= i < |c.completed| && c.completed[i].metadata.sequence == k {
      assert d.completed[i] == c.completed[i];
    }
  }

  lemma {:induction false} DoneStays(cfg: ClientConfig, c: Client, k: nat, since: nat, datagrams: seq<bytes>,
      moments: seq<Moment>)
    requires Inv(cfg, c) && c.WellFormed() && Done(c, k, since) && |moments| >= |datagrams|
    ensures Done(Deliver(cfg, c, datagrams, moments), k, since)
    decreases |datagrams|
  {
    hide Inv, ReceiveDatagram, Done;
    if datagrams != [] {
      var e := Datagram(datagrams[0], moments[0]);
      StepAccounted(cfg, c, e);
      StepKeeps(cfg, c, e);
      var d := Step(cfg, c, e).client;
      DoneSince(c, d, k, since, since);
      DoneStays(cfg, d, k, since, datagrams[1..], moments[1..]);
    }
  }

  lemma {:induction false} DeliverySettles(cfg: ClientConfig, sent: map<nat, SentFrame>, c: Client, s: SentFrame,
      todo: seq<nat>, start: nat, moments: seq<Moment>)
    requires SentOnce(sent) && Inv(cfg, c) && c.WellFormed() && Consistent(cfg, sent, c) && s.frame.sequence in sent
    requires sent[s.frame.sequence] == s
    requires Awaiting(c, s.frame.sequence, todo, start) && |moments| >= |todo|
    requires forall i :: 0 <= i < |todo| ==>
      todo[i] < s.Count() && start <= moments[i].now <= start + ASSEMBLY_TIMEOUT_NS
    ensures var d := Deliver(cfg, c, DataDatagramsOf(s, todo), moments);
      Done(d, s.frame.sequence, |c.completed|) || Awaiting(d, s.frame.sequence, [], start)
    decreases |todo|
  {
    hide Inv, ReceiveDatagram, Consistent, SentFrame.DataDatagram, CountOf, Awaiting, Done, Genuine;
    if todo != [] {
      var rest := todo[1..];
      var e := Datagram(s.DataDatagram(todo[0]), moments[0]);
      var d := Step(cfg, c, e).client;
      assert todo == [todo[0]] + rest;
      DeliveryHelps(cfg, sent, c, s, todo[0], rest, start, moments[0]);
      StepKeeps(cfg, c, e);
      DataIsGenuine(sent, s, todo[0]);
      StepConsistent(cfg, sent, c, e);
      assert DataDatagramsOf(s, todo)[1..] == DataDatagramsOf(s, rest);
      if Done(d, s.frame.sequence, |c.completed|) {
        DoneStays(cfg, d, s.frame.sequence, |c.completed|, DataDatagramsOf(s, rest), moments[1..]);
      } else {
        DeliverySettles(cfg, sent, d, s, rest, start, moments[1..]);
        StepAccounted(cfg, c, e);
        var end := Deliver(cfg, d, DataDatagramsOf(s, rest), moments[1..]);
        DoneSince(end, end, s.frame.sequence, |d.completed|, |c.completed|);
      }
    }
  }

  lemma DataIsGenuine(sent: map<nat, SentFrame>, s: SentFrame, i: nat)
    requires SentOnce(sent) && s.frame.sequence in sent && sent[s.frame.sequence] == s && i < s.Count()
    ensures Genuine(sent, s.DataDatagram(i))
  {
    hide CountOf, SentFrame.DataDatagram, SentFrame.ParityDatagram;
    assert s.Datagrams()[i] == s.DataDatagram(i);
  }

  /** Nothing incomplete can be waiting for nothing. */
  lemma NothingAwaited(c: Client, k: nat, start: nat)
    ensures !Awaiting(c, k, [], start)
  {
    if k in c.assemblies {
      var missing := Missing(c.assemblies[k].received);
      MissingIsExact(c.assemblies[k].received);
      if missing != [] {
        assert missing[0] in missing;
      }
    }
  }

  // ----- the loop, closed

  /** After the first `since` completed frames, the frame that was sent was completed, with its payload. */
  ghost predicate CompletedSince(c: Client, s: SentFrame, since: nat) {
    exists i :: since <= i < |c.completed|
      && c.completed[i].metadata.sequence == s.frame.sequence && c.completed[i].payload == s.frame.payload
  }

  /** Each request fits the server's buffer and its limit for one request, reaches the server before the frame is
      over age, and what is resent arrives before the assembly expires. */
  ghost predicate Answerable(cfg: ClientConfig, config: SenderConfig, c: Client, s: SentFrame, m: Moment,
      times: seq<nat>, moments: seq<Moment>)
    requires c.WellFormed() && s.frame.sequence in c.assemblies && s.Sendable()
  {
    var a := c.assemblies[s.frame.sequence];
    var perRequest := Min(Max(1, cfg.nackMaxRequestsPerPacket), |Missing(a.received)|);
    && perRequest <= config.maxFragmentsPerRequest
    && MESSAGE_HEADER_SIZE + NACK_HEADER_SIZE + perRequest * NACK_ITEM_SIZE <= config.maxDatagramSize
    && |times| >= |RequestOne(cfg, c, s.frame.sequence, m).1|
    && |moments| >= |Missing(a.received)|
    && (forall i :: 0 <= i < |Missing(a.received)| ==>
          a.lastFragment <= moments[i].now <= a.lastFragment + ASSEMBLY_TIMEOUT_NS)
    && (forall i :: 0 <= i < |times| ==> YoungAt(config, s, times[i]))
  }

  /** When a request for an assembly is due and nothing is lost on the way, the server resends exactly the
      missing datagrams, and delivering them completes the frame that was sent. */
  lemma NackLoopCloses(cfg: ClientConfig, config: SenderConfig, sent: map<nat, SentFrame>, c: Client, s: SentFrame,
      cache: seq<CachedFrame>, m: Moment, times: seq<nat>, moments: seq<Moment>)
    requires SentOnce(sent) && Inv(cfg, c) && Consistent(cfg, sent, c)
    requires s.frame.sequence in sent && sent[s.frame.sequence] == s && s.frame.sequence in c.assemblies
    requires ToRequest(cfg, c.assemblies[s.frame.sequence], m.now)
    requires forall n: nat :: m.channel.accepts(s.frame.sequence, n)
    requires config.Validated() && config.enableNack
    requires CacheGenuine(sent, cache) && TimeSorted(cache) && Cached(cache, s.frame.sequence)
    requires Answerable(cfg, config, c, s, m, times, moments)
    ensures var (d, requests) := RequestOne(cfg, c, s.frame.sequence, m);
      var resent := Answers(config, cache, requests, times);
      && resent == DataDatagramsOf(s, Missing(c.assemblies[s.frame.sequence].received))
      && CompletedSince(Deliver(cfg, d, resent, moments), s, |c.completed|)
  {
    hide Inv, Consistent, SentFrame.DataDatagram, CountOf, CacheGenuine, TimeSorted, Cached, OverAge, CacheEntry,
        SendNack, Missing, NackDue, Answers, RequestOne, Awaiting, Deliver, Assembly.WellFormed, DataDatagramsOf,
        SentFrame.Count, Client.WellFormed, CompletedSince, ToRequest;
    InvWellFormed(cfg, c);
    assert c.WellFormed();
    var k, a := s.frame.sequence, c.assemblies[s.frame.sequence];
    IsDue(cfg, c, k, m.now);
    var missing := Missing(a.received);
    var (d, requests) := RequestOne(cfg, c, k, m);
    AssemblyCount(cfg, sent, c, s);
    MissingIndices(a.received);
    RequestOneDue(cfg, c, k, m);
    AnswersAreExact(config, sent, cache, s, missing, Max(1, cfg.nackMaxRequestsPerPacket), 0, m.channel, times);
    RequestOneKeeps(cfg, c, k, m);
    RequestOneConsistent(cfg, sent, c, k, m);
    DeliveryCompletes(cfg, sent, d, s, missing, a.lastFragment, moments);
  }

  /** Delivering every missing fragment in time completes the frame that was sent. */
  lemma DeliveryCompletes(cfg: ClientConfig, sent: map<nat, SentFrame>, c: Client, s: SentFrame, todo: seq<nat>,
      start: nat, moments: seq<Moment>)
    requires SentOnce(sent) && Inv(cfg, c) && c.WellFormed() && Consistent(cfg, sent, c) && s.frame.sequence in sent
    requires sent[s.frame.sequence] == s
    requires Awaiting(c, s.frame.sequence, todo, start) && |moments| >= |todo|
    requires forall i :: 0 <= i < |todo| ==>
      todo[i] < s.Count() && start <= moments[i].now <= start + ASSEMBLY_TIMEOUT_NS
    ensures CompletedSince(Deliver(cfg, c, DataDatagramsOf(s, todo), moments), s, |c.completed|)
  {
    hide Inv, Consistent, DataDatagramsOf, CountOf, Awaiting, Done, Deliver;
    DeliverySettles(cfg, sent, c, s, todo, start, moments);
    var end := Deliver(cfg, c, DataDatagramsOf(s, todo), moments);
    NothingAwaited(end, s.frame.sequence, start);
    DeliverConsistent(cfg, sent, c, s, todo, moments);
    DoneIsIntact(cfg, sent, end, s, |c.completed|);
  }

  lemma IsDue(cfg: ClientConfig, c: Client, k: nat, now: nat)
    requires c.WellFormed() && k in c.assemblies
    ensures NackDue(cfg, c.assemblies[k], now) <==> ToRequest(cfg, c.assemblies[k], now)
  {
    DueExactly(cfg, c.assemblies[k], now);
  }

  lemma RequestOneDue(cfg: ClientConfig, c: Client, k: nat, m: Moment)
    requires c.WellFormed() && k in c.assemblies && NackDue(cfg, c.assemblies[k], m.now)
    ensures var (d, requests) := RequestOne(cfg, c, k, m);
      && requests
         == SendNack(k, Missing(c.assemblies[k].received), Max(1, cfg.nackMaxRequestsPerPacket), 0, m.channel).sent
      && Awaiting(d, k, Missing(c.assemblies[k].received), c.assemblies[k].lastFragment)
      && d.completed == c.completed
  {
    hide SendNack, Missing, CountTrue;
    var a := c.assemblies[k];
    MissingIsExact(a.received);
    var d := RequestOne(cfg, c, k, m).0;
    assert d.assemblies[k].received == a.received && d.assemblies[k].lastFragment == a.lastFragment;
  }

  lemma AssemblyCount(cfg: ClientConfig, sent: map<nat, SentFrame>, c: Client, s: SentFrame)
    requires SentOnce(sent) && c.WellFormed() && Consistent(cfg, sent, c)
    requires s.frame.sequence in sent && sent[s.frame.sequence] == s && s.frame.sequence in c.assemblies
    ensures |c.assemblies[s.frame.sequence].received| == s.Count() < U16
  {
    hide CountOf;
  }

  lemma MissingIndices(flags: seq<bool>)
    ensures |Missing(flags)| <= |flags| && forall i :: 0 <= i < |Missing(flags)| ==> Missing(flags)[i] < |flags|
  {
    hide Missing;
    MissingIsExact(flags);
    var missing := Missing(flags);
    forall i | 0 <= i < |missing|
      ensures missing[i] < |flags|
    {
      assert missing[i] in missing;
    }
  }

  lemma {:induction false} DeliverConsistent(cfg: ClientConfig, sent: map<nat, SentFrame>, c: Client, s: SentFrame,
      indices: seq<nat>, moments: seq<Moment>)
    requires SentOnce(sent) && c.WellFormed() && Consistent(cfg, sent, c) && s.frame.sequence in sent
    requires sent[s.frame.sequence] == s
    requires |moments| >= |indices| && forall i :: 0 <= i < |indices| ==> indices[i] < s.Count()
    ensures Consistent(cfg, sent, Deliver(cfg, c, DataDatagramsOf(s, indices), moments))
    decreases |indices|
  {
    hide Consistent, ReceiveDatagram, SentFrame.DataDatagram, CountOf, Genuine;
    if indices != [] {
      var e := Datagram(s.DataDatagram(indices[0]), moments[0]);
      DataIsGenuine(sent, s, indices[0]);
      StepConsistent(cfg, sent, c, e);
      assert DataDatagramsOf(s, indices)[1..] == DataDatagramsOf(s, indices[1..]);
      DeliverConsistent(cfg, sent, Step(cfg, c, e).client, s, indices[1..], moments[1..]);
    }
  }

  lemma DoneIsIntact(cfg: ClientConfig, sent: map<nat, SentFrame>, c: Client, s: SentFrame, since: nat)
    requires SentOnce(sent) && c.WellFormed() && Consistent(cfg, sent, c)
    requires s.frame.sequence in sent && sent[s.frame.sequence] == s && Done(c, s.frame.sequence, since)
    ensures CompletedSince(c, s, since)
  {
    hide Matches;
    var i :| since <= i < |c.completed| && c.completed[i].metadata.sequence == s.frame.sequence;
    assert Intact(cfg, sent, c.completed[i]);
  }
}
