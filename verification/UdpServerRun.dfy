/** Runs of the server: what its cache holds after any frames sent and any datagrams received, and until when a
    sent frame can be asked for. */
module UdpServerRun {
  import opened Bytes
  import opened Protocol
  import opened UdpSenderSpec
  import opened UdpSender
  import opened UdpClientState
  import opened UdpClientSpec
  import opened UdpInvariants
  import opened UdpIntegrity
  import opened UdpNackLoop
  import opened UdpTiming
  import opened UdpRetransmission

  /** A frame offered to the socket, or a datagram received. */
  datatype ServerEvent =
    | Sending(s: SentFrame, cacheNow: nat, socket: Socket)
    | Receiving(request: bytes, now: nat)
  {
    /** The event puts a frame into the cache. */
    ghost predicate Caches() {
      Sending? && IsCached(s, socket)
    }

    /** The time at which the event looks for over-age frames, if it does. */
    ghost function PrunesAt(config: SenderConfig): Option<nat> {
      if Sending? then if Caches() then Some(cacheNow) else None
      else if Requested(config, request) == [] then None
      else Some(now)
    }
  }

  ghost function ServerStep(config: SenderConfig, cache: seq<CachedFrame>, e: ServerEvent): seq<CachedFrame> {
    match e
    case Sending(s, cacheNow, socket) => AfterSend(cache, s, cacheNow, socket)
    case Receiving(request, now) => AfterRequest(config, cache, request, now)
  }

  /** The cache after a run that starts without one. */
  ghost function ServerRun(config: SenderConfig, events: seq<ServerEvent>): seq<CachedFrame> {
    if events == [] then []
    else ServerStep(config, ServerRun(config, events[..|events| - 1]), events[|events| - 1])
  }

  /** The frames the run caches are those of `sent`, under the server's configuration, each once and in the order of
      their send times. */
  ghost predicate Sends(config: SenderConfig, sent: map<nat, SentFrame>, events: seq<ServerEvent>)
    requires SentOnce(sent)
  {
    && (forall i :: 0 <= i < |events| && events[i].Caches() ==>
          var s := events[i].s; s.config == config && s.frame.sequence in sent && sent[s.frame.sequence] == s)
    && (forall i, j :: 0 <= i < j < |events| && events[i].Caches() && events[j].Caches() ==>
          && events[i].s.sendTimestamp <= events[j].s.sendTimestamp
          && events[i].s.frame.sequence != events[j].s.frame.sequence)
  }

  lemma SendsBefore(config: SenderConfig, sent: map<nat, SentFrame>, events: seq<ServerEvent>)
    requires SentOnce(sent) && Sends(config, sent, events) && events != []
    ensures Sends(config, sent, events[..|events| - 1])
  {
    hide IsCached;
  }

  /** How many frames are cached after event `p`. */
  ghost function StoresAfter(events: seq<ServerEvent>, p: nat): nat {
    if |events| <= p + 1 then 0
    else StoresAfter(events[..|events| - 1], p) + if events[|events| - 1].Caches() then 1 else 0
  }

  /** The frame of event `p` is not over age at any later pruning. */
  ghost predicate StaysYoung(config: SenderConfig, events: seq<ServerEvent>, p: nat)
    requires p < |events| && events[p].Caches()
  {
    forall j :: p < j < |events| && events[j].PrunesAt(config).Some? ==>
      YoungAt(config, events[p].s, events[j].PrunesAt(config).value)
  }

  /** `entry` has `n` newer ones in the cache. */
  ghost predicate HasNewer(cache: seq<CachedFrame>, entry: CachedFrame, n: nat) {
    n < |cache| && cache[|cache| - 1 - n] == entry
  }

  /** Entry `x` of the cache was put there by event `p`. */
  ghost predicate PutBy(cache: seq<CachedFrame>, x: nat, events: seq<ServerEvent>, p: nat)
    requires x < |cache|
  {
    && p < |events| && events[p].Caches() && cache[x] == CacheEntry(events[p].s)
    && StoresAfter(events, p) == |cache| - 1 - x
  }

  ghost predicate FromEvents(cache: seq<CachedFrame>, events: seq<ServerEvent>) {
    forall x: nat :: x < |cache| ==> Placed(cache, x, events)
  }

  ghost predicate Placed(cache: seq<CachedFrame>, x: nat, events: seq<ServerEvent>)
    requires x < |cache|
  {
    exists p: nat :: PutBy(cache, x, events, p)
  }

  lemma FromEventsLater(cache: seq<CachedFrame>, events: seq<ServerEvent>, n: nat)
    requires FromEvents(cache, events) && n <= |cache|
    ensures FromEvents(cache[n..], events)
  {
    hide CacheEntry;
    var later := cache[n..];
    forall x: nat | x < |later|
      ensures Placed(later, x, events)
    {
      assert Placed(cache, n + x, events);
      var p: nat :| PutBy(cache, n + x, events, p);
      assert PutBy(later, x, events, p);
    }
  }

  lemma FromEventsSnoc(cache: seq<CachedFrame>, events: seq<ServerEvent>, e: ServerEvent)
    requires FromEvents(cache, events)
    ensures FromEvents(if e.Caches() then cache + [CacheEntry(e.s)] else cache, events + [e])
  {
    hide CacheEntry, AcceptedCount, SentFrame.Datagrams, CountOf;
    var more := events + [e];
    var after := if e.Caches() then cache + [CacheEntry(e.s)] else cache;
    assert more[..|events|] == events;
    forall x: nat | x < |after|
      ensures Placed(after, x, more)
    {
      if x < |cache| {
        assert Placed(cache, x, events);
        var p: nat :| PutBy(cache, x, events, p);
        assert PutBy(after, x, more, p);
      } else {
        assert PutBy(after, x, more, |events|);
      }
    }
  }

  lemma NoneFromEvents()
    ensures FromEvents([], [])
  {
  }

  // ----- one event

  lemma YoungAfterPruning(cache: seq<CachedFrame>, now: nat, maxAgeNs: nat, n: nat, x: nat)
    requires TimeSorted(cache) && n <= x < |cache| && PruneFront(cache, now, maxAgeNs) == cache[n..]
    ensures !OverAge(cache[x], now, maxAgeNs)
  {
    FrontIsYoung(cache, now, maxAgeNs);
    assert cache[n..][0] == cache[n];
  }

  lemma {:induction false} FrontIsYoung(cache: seq<CachedFrame>, now: nat, maxAgeNs: nat)
    ensures var kept := PruneFront(cache, now, maxAgeNs); kept != [] ==> !OverAge(kept[0], now, maxAgeNs)
  {
    if cache != [] && OverAge(cache[0], now, maxAgeNs) {
      FrontIsYoung(cache[1..], now, maxAgeNs);
    }
  }

  /** Pruning a time-sorted cache takes away exactly what is over age. */
  lemma PrunedHasNewer(cache: seq<CachedFrame>, entry: CachedFrame, n: nat, now: nat, maxAgeNs: nat)
    requires TimeSorted(cache)
    ensures HasNewer(PruneFront(cache, now, maxAgeNs), entry, n) <==>
      HasNewer(cache, entry, n) && !OverAge(entry, now, maxAgeNs)
  {
    hide OverAge, TimeSorted;
    var gone := PruneFrontIsSuffix(cache, now, maxAgeNs);
    if n < |cache| {
      var x := |cache| - 1 - n;
      if x < gone {
        PrunedAreOverAge(cache, now, maxAgeNs, gone, x);
      } else {
        YoungAfterPruning(cache, now, maxAgeNs, gone, x);
      }
    }
  }

  lemma NewestHasNewer(cache: seq<CachedFrame>, added: CachedFrame, entry: CachedFrame, n: nat, limit: nat)
    ensures HasNewer(Newest(cache + [added], limit), entry, n + 1) <==> HasNewer(cache, entry, n) && n + 1 < limit
    ensures limit > 0 ==> HasNewer(Newest(cache + [added], limit), added, 0)
  {
  }

  lemma NewestIsSuffix(cache: seq<CachedFrame>, limit: nat) returns (n: nat)
    ensures n <= |cache| && Newest(cache, limit) == cache[n..]
  {
    n := if |cache| > limit then |cache| - limit else 0;
    assert cache[0..] == cache;
  }

  // ----- runs

  /** The whole invariant: genuine, sorted, bounded, and each entry from an event of the run. */
  ghost predicate CacheInv(config: SenderConfig, sent: map<nat, SentFrame>, events: seq<ServerEvent>,
      cache: seq<CachedFrame>)
    requires SentOnce(sent)
  {
    && CacheGenuine(sent, cache) && TimeSorted(cache) && FromEvents(cache, events) && |cache| <= config.cacheFrames
  }

  lemma CachedBefore(config: SenderConfig, sent: map<nat, SentFrame>, events: seq<ServerEvent>,
      cache: seq<CachedFrame>, e: ServerEvent)
    requires SentOnce(sent) && Sends(config, sent, events + [e]) && FromEvents(cache, events) && e.Caches()
    ensures forall x :: 0 <= x < |cache| ==> cache[x].cachedTimestamp <= e.s.sendTimestamp
  {
    hide IsCached;
    forall x: nat | x < |cache|
      ensures cache[x].cachedTimestamp <= e.s.sendTimestamp
    {
      assert Placed(cache, x, events);
      var p: nat :| PutBy(cache, x, events, p);
      assert (events + [e])[p] == events[p] && (events + [e])[|events|] == e;
    }
  }

  lemma StepKeepsCache(config: SenderConfig, sent: map<nat, SentFrame>, events: seq<ServerEvent>,
      cache: seq<CachedFrame>, e: ServerEvent)
    requires SentOnce(sent) && Sends(config, sent, events + [e]) && CacheInv(config, sent, events, cache)
    ensures CacheInv(config, sent, events + [e], ServerStep(config, cache, e))
  {
    hide CacheGenuine, TimeSorted, FromEvents, CacheEntry, PruneFront, IsCached, Requested, SentFrame.Sendable;
    assert (events + [e])[|events|] == e;
    FromEventsSnoc(cache, events, e);
    if e.Caches() {
      CachedBefore(config, sent, events, cache, e);
      CachingKeeps(sent, cache, e.s, e.cacheNow, config.MaxAgeNs(), config.cacheFrames);
      var n := PruneFrontIsSuffix(cache, e.cacheNow, config.MaxAgeNs());
      FromEventsLater(cache, events, n);
      FromEventsSnoc(cache[n..], events, e);
      var all := cache[n..] + [CacheEntry(e.s)];
      var k := NewestIsSuffix(all, config.cacheFrames);
      FromEventsLater(all, events + [e], k);
    } else if e.Receiving? && Requested(config, e.request) != [] {
      var n := PruneFrontIsSuffix(cache, e.now, config.MaxAgeNs());
      LaterKeeps(sent, cache, n);
      FromEventsLater(cache, events + [e], n);
    }
  }

  /** After any run of sends and requests the cache holds complete entries of frames that were sent, sorted by their
      send times, at most as many as configured. */
  lemma {:induction false} RunKeepsCache(config: SenderConfig, sent: map<nat, SentFrame>, events: seq<ServerEvent>)
    requires SentOnce(sent) && Sends(config, sent, events)
    ensures CacheInv(config, sent, events, ServerRun(config, events))
  {
    hide ServerStep, CacheGenuine, Sends;
    if events == [] {
      NoneFromEvents();
      EmptyIsGenuine(sent);
    } else {
      var before, e := events[..|events| - 1], events[|events| - 1];
      SendsBefore(config, sent, events);
      RunKeepsCache(config, sent, before);
      assert events == before + [e];
      StepKeepsCache(config, sent, before, ServerRun(config, before), e);
    }
  }

  lemma EmptyIsGenuine(sent: map<nat, SentFrame>)
    requires SentOnce(sent)
    ensures CacheGenuine(sent, [])
  {
  }

  // ----- until when a frame can be asked for

  lemma StoresAfterLast(events: seq<ServerEvent>, e: ServerEvent, p: nat)
    ensures p < |events| ==> StoresAfter(events + [e], p) == StoresAfter(events, p) + if e.Caches() then 1 else 0
    ensures p == |events| ==> StoresAfter(events + [e], p) == 0
  {
    hide ServerEvent.Caches;
    assert (events + [e])[..|events|] == events;
  }

  lemma StaysYoungLast(config: SenderConfig, events: seq<ServerEvent>, e: ServerEvent, p: nat)
    requires p < |events| && events[p].Caches()
    ensures StaysYoung(config, events + [e], p) <==>
      StaysYoung(config, events, p)
      && (e.PrunesAt(config).Some? ==> YoungAt(config, events[p].s, e.PrunesAt(config).value))
  {
    hide ServerEvent.PrunesAt, YoungAt, AcceptedCount, SentFrame.Datagrams, CountOf;
    var more := events + [e];
    assert more[p] == events[p];
    if StaysYoung(config, more, p) {
      assert more[|events|] == e;
      forall j | p < j < |events| && events[j].PrunesAt(config).Some?
        ensures YoungAt(config, events[p].s, events[j].PrunesAt(config).value)
      {
        assert more[j] == events[j];
      }
    }
  }

  /** What one event does to an entry that is not the one it adds. */
  lemma StepHasNewer(config: SenderConfig, cache: seq<CachedFrame>, e: ServerEvent, entry: CachedFrame, n: nat)
    requires TimeSorted(cache) && (e.Caches() ==> e.s.config == config)
    ensures var young := e.PrunesAt(config).Some? ==> !OverAge(entry, e.PrunesAt(config).value, config.MaxAgeNs());
      HasNewer(ServerStep(config, cache, e), entry, n + if e.Caches() then 1 else 0) <==>
      HasNewer(cache, entry, n) && young && (e.Caches() ==> n + 1 < config.cacheFrames)
  {
    hide PruneFront, Newest, TimeSorted, HasNewer, OverAge, CacheEntry, Requested, AcceptedCount, SentFrame.Datagrams,
        CountOf;
    if e.PrunesAt(config).Some? {
      var now := e.PrunesAt(config).value;
      PrunedHasNewer(cache, entry, n, now, config.MaxAgeNs());
      if e.Caches() {
        NewestHasNewer(PruneFront(cache, now, config.MaxAgeNs()), CacheEntry(e.s), entry, n, config.cacheFrames);
      }
    }
  }

  /** A frame keeps its place in the cache exactly as long as fewer frames than the cache holds were cached after it
      and no pruning found it over age. */
  lemma {:induction false} PlaceIsKept(config: SenderConfig, sent: map<nat, SentFrame>, events: seq<ServerEvent>,
      p: nat)
    requires SentOnce(sent) && Sends(config, sent, events) && config.cacheFrames > 0
    requires p < |events| && events[p].Caches()
    ensures HasNewer(ServerRun(config, events), CacheEntry(events[p].s), StoresAfter(events, p)) <==>
      StoresAfter(events, p) < config.cacheFrames && StaysYoung(config, events, p)
  {
    hide ServerStep, HasNewer, StaysYoung, StoresAfter, CacheEntry, CacheGenuine, FromEvents, TimeSorted,
        AcceptedCount, SentFrame.Datagrams, CountOf, ServerEvent.PrunesAt, OverAge;
    var last := |events| - 1;
    var before, e := events[..last], events[last];
    var cache, entry := ServerRun(config, before), CacheEntry(events[p].s);
    assert events == before + [e];
    StoresAfterLast(before, e, p);
    SendsBefore(config, sent, events);
    if p == last {
      JustCached(config, cache, e);
      YoungAtFirst(config, events, p);
    } else {
      PlaceIsKept(config, sent, before, p);
      RunKeepsCache(config, sent, before);
      StaysYoungLast(config, before, e, p);
      StepHasNewer(config, cache, e, entry, StoresAfter(before, p));
      if e.PrunesAt(config).Some? {
        AgeOf(config, events[p].s, e.PrunesAt(config).value);
      }
    }
  }

  lemma JustCached(config: SenderConfig, cache: seq<CachedFrame>, e: ServerEvent)
    requires e.Caches() && e.s.config == config && config.cacheFrames > 0
    ensures HasNewer(ServerStep(config, cache, e), CacheEntry(e.s), 0)
  {
    hide PruneFront, Newest, HasNewer, CacheEntry, AcceptedCount, SentFrame.Datagrams, CountOf;
    var kept := PruneFront(cache, e.cacheNow, config.MaxAgeNs());
    NewestHasNewer(kept, CacheEntry(e.s), CacheEntry(e.s), 0, config.cacheFrames);
  }

  lemma YoungAtFirst(config: SenderConfig, events: seq<ServerEvent>, p: nat)
    requires p == |events| - 1 && events[p].Caches()
    ensures StaysYoung(config, events, p)
  {
    hide OverAge;
  }

  /** After any run of the server, a frame it has cached is still there for a request if and only if it is among the
      newest frames the cache holds and no pruning since then found it over age. */
  lemma {:induction false} StillCached(config: SenderConfig, sent: map<nat, SentFrame>, events: seq<ServerEvent>,
      p: nat)
    requires SentOnce(sent) && Sends(config, sent, events) && config.cacheFrames > 0
    requires p < |events| && events[p].Caches()
    ensures Cached(ServerRun(config, events), events[p].s.frame.sequence) <==>
      StoresAfter(events, p) < config.cacheFrames && StaysYoung(config, events, p)
  {
    hide ServerRun, StaysYoung, StoresAfter, CacheGenuine, TimeSorted, AcceptedCount, SentFrame.Datagrams, CountOf,
        SentFrame.DataDatagram;
    PlaceIsKept(config, sent, events, p);
    RunKeepsCache(config, sent, events);
    var cache, k := ServerRun(config, events), events[p].s.frame.sequence;
    if Cached(cache, k) {
      var x: nat :| x < |cache| && cache[x].frameSequence == k;
      assert Placed(cache, x, events);
      var q: nat :| PutBy(cache, x, events, q);
      assert q == p;
    }
    if HasNewer(cache, CacheEntry(events[p].s), StoresAfter(events, p)) {
      assert cache[|cache| - 1 - StoresAfter(events, p)].frameSequence == k;
    }
  }

  /** The loop closed over whole runs: after any run of the client over genuine datagrams and any run of the server
      that still has the frame, a request that is due is answered with exactly the missing datagrams, and these
      complete the frame that was sent. */
  lemma {:induction false} RunsCloseTheLoop(cfg: ClientConfig, config: SenderConfig, sent: map<nat, SentFrame>,
      received: seq<Event>, served: seq<ServerEvent>, p: nat, m: Moment, times: seq<nat>, moments: seq<Moment>)
    requires SentOnce(sent) && forall i :: 0 <= i < |received| ==> GenuineEvent(sent, received[i])
    requires Sends(config, sent, served) && p < |served| && served[p].Caches() && config.Validated()
    requires StoresAfter(served, p) < config.cacheFrames && StaysYoung(config, served, p)
    requires served[p].s.frame.sequence in Run(cfg, received).assemblies
    requires ToRequest(cfg, Run(cfg, received).assemblies[served[p].s.frame.sequence], m.now)
    requires forall n: nat :: m.channel.accepts(served[p].s.frame.sequence, n)
    requires Answerable(cfg, config, Run(cfg, received), served[p].s, m, times, moments)
    ensures var c, s := Run(cfg, received), served[p].s;
      var (d, requests) := RequestOne(cfg, c, s.frame.sequence, m);
      var resent := Answers(config, ServerRun(config, served), requests, times);
      && resent == DataDatagramsOf(s, Missing(c.assemblies[s.frame.sequence].received))
      && CompletedSince(Deliver(cfg, d, resent, moments), s, |c.completed|)
  {
    hide Run, ServerRun, Inv, Consistent, ToRequest, RequestOne, Answers, Deliver, StaysYoung, StoresAfter,
        CacheGenuine, TimeSorted, Cached, FromEvents, GenuineEvent, AcceptedCount, SentFrame.Datagrams, CountOf,
        CompletedSince, DataDatagramsOf, Missing, Answerable;
    UdpInvariants.RunKeeps(cfg, received);
    RunConsistent(cfg, sent, received);
    RunKeepsCache(config, sent, served);
    StillCached(config, sent, served, p);
    NackLoopCloses(cfg, config, sent, Run(cfg, received), served[p].s, ServerRun(config, served), m, times, moments);
  }
}
