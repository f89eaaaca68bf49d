/** The server's UDP backend: fragmentation, parity, the retransmission cache and NACK handling. */
module UdpSender {
  import opened Bytes
  import opened Protocol
  import opened Fec
  import opened Frames
  import opened UdpSenderSpec

  datatype CachedFragment = CachedFragment(fragmentIndex: nat, datagram: bytes)
  datatype CachedFrame = CachedFrame(frameSequence: nat, cachedTimestamp: nat, fragments: seq<CachedFragment>)

  /** The socket as one frame sees it: what send call `n` returns, for how many clients. */
  datatype Socket = Socket(clients: nat, results: nat -> int) {
    /** Several clients share one batch call, which must reach at least one; a single send must be complete. */
    predicate Accepts(call: nat, size: nat) {
      if clients > 1 then results(call) > 0 else clients == 1 && results(call) == size
    }
  }

  /** How many of `datagrams` are handed over before a send fails. */
  ghost function AcceptedCount(socket: Socket, datagrams: seq<bytes>): (n: nat)
    ensures n <= |datagrams|
    ensures forall k :: 0 <= k < n ==> socket.Accepts(k, |datagrams[k]|)
    ensures n < |datagrams| ==> !socket.Accepts(n, |datagrams[n]|)
    decreases |datagrams|
  {
    if datagrams == [] then 0
    else
      var before := AcceptedCount(socket, datagrams[..|datagrams| - 1]);
      if before == |datagrams| - 1 && socket.Accepts(before, |datagrams[before]|) then before + 1 else before
  }

  /** The socket takes everything exactly when each call reaches at least one of several clients, or sends all bytes to
      the only one. */
  lemma {:induction false} EverythingAccepted(socket: Socket, datagrams: seq<bytes>)
    ensures AcceptedCount(socket, datagrams) == |datagrams| <==>
      forall k :: 0 <= k < |datagrams| ==>
        if socket.clients > 1 then socket.results(k) > 0
        else socket.clients == 1 && socket.results(k) == |datagrams[k]|
  {
    hide AcceptedCount;
    var n := AcceptedCount(socket, datagrams);
    if n < |datagrams| {
      assert !socket.Accepts(n, |datagrams[n]|);
    } else {
      forall k | 0 <= k < |datagrams|
        ensures if socket.clients > 1 then socket.results(k) > 0
                else socket.clients == 1 && socket.results(k) == |datagrams[k]|
      {
        assert socket.Accepts(k, |datagrams[k]|);
      }
    }
  }

  // ----- the cache

  /** What is cached of a frame: every data datagram, under its index. */
  ghost function CacheEntry(s: SentFrame): CachedFrame
    requires s.Sendable()
  {
    CachedFrame(s.frame.sequence, s.sendTimestamp,
      seq(s.Count(), i requires 0 <= i => CachedFragment(i, s.DataDatagram(i))))
  }

  predicate OverAge(f: CachedFrame, now: nat, maxAgeNs: nat) {
    now >= f.cachedTimestamp && now - f.cachedTimestamp > maxAgeNs
  }

  /** Over-age frames leave from the front only. */
  function PruneFront(cache: seq<CachedFrame>, now: nat, maxAgeNs: nat): seq<CachedFrame> {
    if cache != [] && OverAge(cache[0], now, maxAgeNs) then PruneFront(cache[1..], now, maxAgeNs) else cache
  }

  ghost function YoungFrames(cache: seq<CachedFrame>, now: nat, maxAgeNs: nat): seq<CachedFrame> {
    if cache == [] then []
    else
      var young := now <= cache[0].cachedTimestamp || now - cache[0].cachedTimestamp <= maxAgeNs;
      (if young then [cache[0]] else []) + YoungFrames(cache[1..], now, maxAgeNs)
  }

  /** The frames are cached in the order of their send timestamps. */
  ghost predicate TimeSorted(cache: seq<CachedFrame>) {
    forall i, j :: 0 <= i <= j < |cache| ==> cache[i].cachedTimestamp <= cache[j].cachedTimestamp
  }

  /** In a time-sorted cache, pruning the front drops exactly the over-age frames. */
  lemma {:induction false} PruneFrontIsExact(cache: seq<CachedFrame>, now: nat, maxAgeNs: nat)
    requires TimeSorted(cache)
    ensures PruneFront(cache, now, maxAgeNs) == YoungFrames(cache, now, maxAgeNs)
  {
    if cache != [] {
      PruneFrontIsExact(cache[1..], now, maxAgeNs);
      if !OverAge(cache[0], now, maxAgeNs) {
        assert PruneFront(cache[1..], now, maxAgeNs) == cache[1..] by {
          if |cache| > 1 { assert cache[0].cachedTimestamp <= cache[1].cachedTimestamp; }
        }
      }
    }
  }

  /** The newest frames that fit. */
  function Newest(cache: seq<CachedFrame>, limit: nat): seq<CachedFrame> {
    if |cache| > limit then cache[|cache| - limit..] else cache
  }

  // ----- NACK requests

  /** The first cached datagram with this sequence and index. */
  function Lookup(cache: seq<CachedFrame>, item: NackItem): Option<bytes> {
    if cache == [] then None
    else
      var mine := cache[0].frameSequence == item.frameSequence;
      var here := if mine then LookupFragment(cache[0].fragments, item.fragmentIndex) else None;
      if here.Some? then here else Lookup(cache[1..], item)
  }

  function LookupFragment(fragments: seq<CachedFragment>, index: nat): Option<bytes> {
    if fragments == [] then None
    else if fragments[0].fragmentIndex == index then Some(fragments[0].datagram)
    else LookupFragment(fragments[1..], index)
  }

  /** The cached datagrams the items ask for, in the order of the items. */
  function Found(cache: seq<CachedFrame>, items: seq<NackItem>): seq<bytes> {
    if items == [] then []
    else
      var last := Lookup(cache, items[|items| - 1]);
      Found(cache, items[..|items| - 1]) + (if last.Some? then [last.value] else [])
  }

  function ParseNackRequest(data: bytes): (items: Option<seq<NackItem>>)
  {
    if |data| < MESSAGE_HEADER_SIZE then None
    else
      var header := DecodeMessageHeader(data);
      if header.magic != MAGIC || header.messageType != UDP_NACK || header.payloadLength < NACK_HEADER_SIZE
         || |data| < MESSAGE_HEADER_SIZE + NACK_HEADER_SIZE then None
      else
        var requestCount := Field(data, MESSAGE_HEADER_SIZE + 8, 2);
        var expected := NACK_HEADER_SIZE + requestCount * NACK_ITEM_SIZE;
        if header.payloadLength != expected || |data| < MESSAGE_HEADER_SIZE + expected then None
        else Some(DecodeNackItems(data[MESSAGE_HEADER_SIZE + NACK_HEADER_SIZE..], requestCount))
  }

  /** What the receive buffer keeps of a datagram. */
  function Truncated(data: bytes, bufferSize: nat): bytes {
    data[..Min(|data|, bufferSize)]
  }

  /** The items of a datagram that is acted upon. */
  function Requested(config: SenderConfig, request: bytes): seq<NackItem> {
    var items := ParseNackRequest(Truncated(request, config.maxDatagramSize));
    if items.None? || !config.enableNack then [] else items.value
  }

  /** The cache after a datagram has been received. */
  function AfterRequest(config: SenderConfig, cache: seq<CachedFrame>, request: bytes, now: nat): seq<CachedFrame> {
    if Requested(config, request) == [] then cache else PruneFront(cache, now, config.MaxAgeNs())
  }

  /** What is resent for it. */
  function Answer(config: SenderConfig, cache: seq<CachedFrame>, request: bytes, now: nat): seq<bytes> {
    var items := Requested(config, request);
    Found(AfterRequest(config, cache, request, now), items[..Min(|items|, config.maxFragmentsPerRequest)])
  }

  /** At most as many datagrams as the limit are resent, those found for the first items. */
  lemma AnswerBounded(config: SenderConfig, cache: seq<CachedFrame>, request: bytes, now: nat)
    ensures |Answer(config, cache, request, now)| <= config.maxFragmentsPerRequest
    ensures !config.enableNack ==> Answer(config, cache, request, now) == []
  {
    hide ParseNackRequest, PruneFront, Lookup;
    var items := Requested(config, request);
    FoundBounded(AfterRequest(config, cache, request, now), items[..Min(|items|, config.maxFragmentsPerRequest)]);
  }

  lemma {:induction false} FoundBounded(cache: seq<CachedFrame>, items: seq<NackItem>)
    ensures |Found(cache, items)| <= |items|
  {
    hide Lookup;
    if items != [] {
      FoundBounded(cache, items[..|items| - 1]);
    }
  }

  /** Whether the frame goes out whole and is cached. */
  ghost predicate IsCached(s: SentFrame, socket: Socket) {
    s.config.enableNack && s.Sendable() && AcceptedCount(socket, s.Datagrams()) == |s.Datagrams()|
  }

  /** The cache after a frame has been offered to the socket. */
  ghost function AfterSend(cache: seq<CachedFrame>, s: SentFrame, cacheNow: nat, socket: Socket): seq<CachedFrame> {
    if IsCached(s, socket) then
      Newest(PruneFront(cache, cacheNow, s.config.MaxAgeNs()) + [CacheEntry(s)], s.config.cacheFrames)
    else cache
  }

  class UdpStreamingBackend {
    const config: SenderConfig
    var retransmitCache: seq<CachedFrame>
    var sendDatagram: array<byte>
    var nackRequestsReceived: nat
    var nackFragmentsRequested: nat
    var retransmitFragmentMisses: nat
    var retransmitFragmentsThrottled: nat

    constructor (config: SenderConfig)
      ensures this.config == config && retransmitCache == [] && fresh(sendDatagram)
    {
      this.config := config;
      retransmitCache := [];
      sendDatagram := new byte[0];
      nackRequestsReceived, nackFragmentsRequested := 0, 0;
      retransmitFragmentMisses, retransmitFragmentsThrottled := 0, 0;
    }

    /** Sends the fragments of a frame, then its parity. `attempted` lists the datagrams handed to the socket,
        the last of them in vain when `ok` is false. */
    method SendFrameFragments(frame: EncodedFrame, now: nat, cacheNow: nat, socket: Socket) returns (ok: bool,
        attempted: seq<bytes>)
      modifies this, sendDatagram
      ensures var s := SentFrame(frame, config, now);
        ok <==>
          && s.Sendable()
          && forall k :: 0 <= k < |s.Datagrams()| ==>
               if socket.clients > 1 then socket.results(k) > 0
               else socket.clients == 1 && socket.results(k) == |s.Datagrams()[k]|
      ensures var s := SentFrame(frame, config, now);
        s.Sendable() ==>
          var n := AcceptedCount(socket, s.Datagrams());
          && (ok <==> n == |s.Datagrams()|)
          && attempted == s.Datagrams()[..if ok then n else n + 1]
          && (ok && config.enableNack <==> IsCached(s, socket))
      ensures !SentFrame(frame, config, now).Sendable() ==> !ok && attempted == []
      ensures retransmitCache == AfterSend(old(retransmitCache), SentFrame(frame, config, now), cacheNow, socket)
    {
      hide SentFrame.DataDatagram, SentFrame.ParityDatagram, SentFrame.ParityBody, ParityUpTo, AcceptedCount, CountOf,
          CacheEntry, Newest, PruneFront;
      ok, attempted := false, [];
      if config.targetPayloadSize <= DATAGRAM_OVERHEAD || config.maxDatagramSize <= DATAGRAM_OVERHEAD {
        return;
      }
      ghost var s := SentFrame(frame, config, now);
      var size := |frame.payload|;
      var capacity := Min(config.targetPayloadSize, config.maxDatagramSize - DATAGRAM_OVERHEAD);
      var count := if size == 0 then 1 else (size + capacity - 1) / capacity;
      CountAsInSource(size, capacity);
      if s.Sendable() {
        EverythingAccepted(socket, s.Datagrams());
      }
      if count > 0xFFFF {
        return;
      }
      if sendDatagram.Length < config.maxDatagramSize {
        sendDatagram := new byte[config.maxDatagramSize];
      }
      var cached, parity;
      ok, attempted, cached, parity := SendDataFragments(frame, now, capacity, count, socket);
      DataComesFirst(s, |attempted|);
      if !ok {
        FirstRefusal(socket, s.Datagrams(), |attempted| - 1);
        return;
      }
      ParityUpToAll(s);
      if config.enableFec && count > 1 && |parity| > 0 {
        var datagramSize := BuildParity(frame, now, count, parity);
        attempted := attempted + [sendDatagram[..datagramSize]];
        if !socket.Accepts(count, datagramSize) {
          ParityRefused(socket, s);
          ok := false;
          return;
        }
      }
      assert attempted == s.Datagrams();
      NoRefusal(socket, s.Datagrams());
      if config.enableNack && |cached| > 0 {
        CacheFrameFragments(CachedFrame(frame.sequence, now, cached), cacheNow);
      }
    }

    /** The send loop: every data fragment is built, cached, folded into the parity and sent. */
    method SendDataFragments(frame: EncodedFrame, now: nat, capacity: nat, count: nat, socket: Socket)
      returns (ok: bool, attempted: seq<bytes>, cached: seq<CachedFragment>, parity: bytes)
      requires SentFrame(frame, config, now).Sendable() && sendDatagram.Length >= config.maxDatagramSize
      requires capacity == config.Capacity() && count == SentFrame(frame, config, now).Count()
      modifies sendDatagram
      ensures var all := SentFrame(frame, config, now).DataDatagrams();
        && |attempted| <= |all| && attempted == all[..|attempted|]
        && (ok ==> attempted == all && forall k :: 0 <= k < |all| ==> socket.Accepts(k, |all[k]|))
        && (!ok ==>
              && attempted != [] && !socket.Accepts(|attempted| - 1, |attempted[|attempted| - 1]|)
              && forall k :: 0 <= k < |attempted| - 1 ==> socket.Accepts(k, |all[k]|))
      ensures ok ==>
        CachedFrame(frame.sequence, now, cached)
        == if config.enableNack then CacheEntry(SentFrame(frame, config, now)) else CachedFrame(frame.sequence, now, [])
      ensures ok ==> parity == if config.enableFec then ParityUpTo(SentFrame(frame, config, now), count) else []
    {
      hide SentFrame.DataDatagram, SentFrame.Body, ParityUpTo, CountOf;
      ghost var s := SentFrame(frame, config, now);
      ok, attempted, cached, parity := false, [], [], [];
      ParityUpToNone(s);
      for index := 0 to count
        invariant attempted == s.DataDatagrams()[..index]
        invariant forall k :: 0 <= k < index ==> socket.Accepts(k, |s.DataDatagrams()[k]|)
        invariant cached == if config.enableNack then CacheEntry(s).fragments[..index] else []
        invariant parity == if config.enableFec then ParityUpTo(s, index) else []
      {
        var datagramSize, body := BuildFragment(frame, now, capacity, count, index);
        var datagram := sendDatagram[..datagramSize];
        if config.enableNack {
          cached := cached + [CachedFragment(index, datagram)];
        }
        ParityUpToStep(s, index);
        if config.enableFec && |body| > 0 {
          parity := XorInto(parity, body);
        }
        attempted := attempted + [datagram];
        if !socket.Accepts(index, datagramSize) {
          return;
        }
      }
      ok := true;
      assert CacheEntry(s).fragments[..count] == CacheEntry(s).fragments;
    }

    function MetadataOf(frame: EncodedFrame, now: nat): FrameDiagnosticMetadata {
      if config.embedFrameMetadata
      then FrameDiagnosticMetadata(frame.sequence, frame.capture, frame.encodeStart, frame.encodeEnd, now)
      else NO_METADATA.(sequence := frame.sequence)
    }

    /** Fills the send buffer with data fragment `index`. */
    method BuildFragment(frame: EncodedFrame, now: nat, capacity: nat, count: nat, index: nat)
        returns (datagramSize: nat, body: bytes)
      requires SentFrame(frame, config, now).Sendable() && sendDatagram.Length >= config.maxDatagramSize
      requires capacity == config.Capacity() && count == SentFrame(frame, config, now).Count() && index < count
      modifies sendDatagram
      ensures datagramSize <= sendDatagram.Length
      ensures sendDatagram[..datagramSize] == SentFrame(frame, config, now).DataDatagram(index)
      ensures body == SentFrame(frame, config, now).Body(index)
    {
      hide CountOf, Wrap, SentFrame.Body, SentFrame.Count, SentFrame.Sendable;
      ghost var s := SentFrame(frame, config, now);
      BodyAsInSource(s, index);
      BodyFits(s, index);
      var size := |frame.payload|;
      var offset := index * capacity;
      var fragmentSize := if size == 0 then 0 else Min(capacity, size - offset);
      body := frame.payload[offset..offset + fragmentSize];
      var header := FragmentHeader(MetadataOf(frame, now), size, offset, index, count, DATA);
      datagramSize := FillDatagram(frame.frameType, header, body);
    }

    /** Fills the send buffer with the parity fragment. */
    method BuildParity(frame: EncodedFrame, now: nat, count: nat, parity: bytes) returns (datagramSize: nat)
      requires SentFrame(frame, config, now).Sendable() && sendDatagram.Length >= config.maxDatagramSize
      requires count == SentFrame(frame, config, now).Count() && parity == SentFrame(frame, config, now).ParityBody()
      modifies sendDatagram
      ensures datagramSize <= sendDatagram.Length
      ensures sendDatagram[..datagramSize] == SentFrame(frame, config, now).ParityDatagram()
    {
      ParityFits(SentFrame(frame, config, now));
      hide CountOf;
      var header := FragmentHeader(MetadataOf(frame, now), |frame.payload|, 0, 0, count, XOR_PARITY);
      datagramSize := FillDatagram(frame.frameType, header, parity);
    }

    /** Copies header, fragment header and body into the reused send buffer. */
    method FillDatagram(frameType: nat, header: FragmentHeader, body: bytes) returns (size: nat)
      requires DATAGRAM_OVERHEAD + |body| <= sendDatagram.Length
      modifies sendDatagram
      ensures size == DATAGRAM_OVERHEAD + |body| && sendDatagram[..size] == Wrap(frameType, header, body)
    {
      hide EncodeFragmentHeader, Spliced, Filled;
      var message := EncodeMessageHeader(MessageHeader(MAGIC, AV_STREAM, frameType, FRAGMENT_HEADER_SIZE + |body|));
      var fragmentHeader := EncodeFragmentHeader(header);
      ghost var before := sendDatagram[..];
      FilledNothing(before);
      FilledFurther(before, before, [], message);
      assert [] + message == message;
      CopyInto(sendDatagram, 0, message);
      FilledFurther(sendDatagram[..], before, message, fragmentHeader);
      CopyInto(sendDatagram, MESSAGE_HEADER_SIZE, fragmentHeader);
      FilledFurther(sendDatagram[..], before, message + fragmentHeader, body);
      CopyInto(sendDatagram, DATAGRAM_OVERHEAD, body);
      size := DATAGRAM_OVERHEAD + |body|;
      FilledBeginning(sendDatagram[..], before, message + fragmentHeader + body);
    }

    method CacheFrameFragments(frame: CachedFrame, now: nat)
      modifies this`retransmitCache
      ensures retransmitCache ==
        Newest(PruneFront(old(retransmitCache), now, config.MaxAgeNs()) + [frame], config.cacheFrames)
    {
      PruneRetransmitCacheLocked(now);
      retransmitCache := retransmitCache + [frame];
      ghost var all := retransmitCache;
      while |retransmitCache| > config.cacheFrames
        invariant |retransmitCache| <= |all| && retransmitCache == all[|all| - |retransmitCache|..]
        invariant |retransmitCache| == |all| || |retransmitCache| >= config.cacheFrames
      {
        retransmitCache := retransmitCache[1..];
      }
    }

    method PruneRetransmitCacheLocked(now: nat)
      modifies this`retransmitCache
      ensures retransmitCache == PruneFront(old(retransmitCache), now, config.MaxAgeNs())
    {
      while |retransmitCache| > 0
        invariant PruneFront(retransmitCache, now, config.MaxAgeNs()) ==
          PruneFront(old(retransmitCache), now, config.MaxAgeNs())
        decreases |retransmitCache|
      {
        var frame := retransmitCache[0];
        if now >= frame.cachedTimestamp && now - frame.cachedTimestamp > config.MaxAgeNs() {
          retransmitCache := retransmitCache[1..];
          continue;
        }
        break;
      }
    }

    /** Resends what the cache still holds of the first items; the rest is throttled, what is gone is a miss. */
    method HandleNackRequest(now: nat, items: seq<NackItem>) returns (resent: seq<bytes>)
      modifies this
      ensures sendDatagram == old(sendDatagram)
      ensures !config.enableNack || items == [] ==> resent == [] && retransmitCache == old(retransmitCache)
      ensures config.enableNack && items != [] ==>
        var allowed := Min(|items|, config.maxFragmentsPerRequest);
        && retransmitCache == PruneFront(old(retransmitCache), now, config.MaxAgeNs())
        && resent == Found(retransmitCache, items[..allowed])
        && nackFragmentsRequested == old(nackFragmentsRequested) + |items|
        && retransmitFragmentsThrottled == old(retransmitFragmentsThrottled) + (|items| - allowed)
        && retransmitFragmentMisses + |resent| == old(retransmitFragmentMisses) + allowed
    {
      resent := [];
      if !config.enableNack || |items| == 0 {
        return;
      }
      PruneRetransmitCacheLocked(now);
      nackRequestsReceived := nackRequestsReceived + 1;
      nackFragmentsRequested := nackFragmentsRequested + |items|;
      var allowed := Min(|items|, config.maxFragmentsPerRequest);
      if |items| > allowed {
        retransmitFragmentsThrottled := retransmitFragmentsThrottled + (|items| - allowed);
      }
      ghost var cache, requested, throttled := retransmitCache, nackFragmentsRequested, retransmitFragmentsThrottled;
      for index := 0 to allowed
        invariant retransmitCache == cache && sendDatagram == old(sendDatagram)
        invariant nackFragmentsRequested == requested && retransmitFragmentsThrottled == throttled
        invariant resent == Found(cache, items[..index])
        invariant retransmitFragmentMisses + |resent| == old(retransmitFragmentMisses) + index
      {
        assert items[..index + 1][..index] == items[..index];
        var found := FindCached(items[index]);
        if found.Some? {
          resent := resent + [found.value];
        } else {
          retransmitFragmentMisses := retransmitFragmentMisses + 1;
        }
      }
    }

    /** A datagram as the receive loop reads it into its buffer: parsed, and answered if it is a request. */
    method ReceiveRequest(now: nat, datagram: bytes) returns (resent: seq<bytes>)
      modifies this
      ensures sendDatagram == old(sendDatagram)
      ensures resent == Answer(config, old(retransmitCache), datagram, now)
      ensures retransmitCache == AfterRequest(config, old(retransmitCache), datagram, now)
    {
      hide ParseNackRequest, PruneFront, Lookup;
      resent := [];
      var items := ParseNackRequest(Truncated(datagram, config.maxDatagramSize));
      if items.Some? {
        resent := HandleNackRequest(now, items.value);
      }
    }

    /** The two inner loops of `HandleNackRequest`. */
    method FindCached(item: NackItem) returns (found: Option<bytes>)
      ensures found == Lookup(retransmitCache, item)
    {
      found := None;
      var frameIndex := 0;
      while frameIndex < |retransmitCache| && found.None?
        invariant 0 <= frameIndex <= |retransmitCache|
        invariant Lookup(retransmitCache, item) ==
          if found.Some? then found else Lookup(retransmitCache[frameIndex..], item)
        decreases |retransmitCache| - frameIndex
      {
        var cachedFrame := retransmitCache[frameIndex];
        assert retransmitCache[frameIndex..][1..] == retransmitCache[frameIndex + 1..];
        frameIndex := frameIndex + 1;
        if cachedFrame.frameSequence != item.frameSequence {
          continue;
        }
        var fragmentIndex := 0;
        while fragmentIndex < |cachedFrame.fragments|
          invariant 0 <= fragmentIndex <= |cachedFrame.fragments|
          invariant LookupFragment(cachedFrame.fragments, item.fragmentIndex) ==
            LookupFragment(cachedFrame.fragments[fragmentIndex..], item.fragmentIndex)
        {
          assert cachedFrame.fragments[fragmentIndex..][1..] == cachedFrame.fragments[fragmentIndex + 1..];
          if cachedFrame.fragments[fragmentIndex].fragmentIndex == item.fragmentIndex {
            found := Some(cachedFrame.fragments[fragmentIndex].datagram);
            break;
          }
          fragmentIndex := fragmentIndex + 1;
        }
      }
    }
  }

  lemma CountAsInSource(size: nat, capacity: nat)
    requires capacity > 0
    ensures CountOf(size, capacity) == if size == 0 then 1 else (size + capacity - 1) / capacity
  {
    if size > 0 {
      var q := (size - 1) / capacity;
      assert size + capacity - 1 == (q + 1) * capacity + (size - 1) % capacity;
      DivUnique(size + capacity - 1, capacity, q + 1, (size - 1) % capacity);
    }
  }

  lemma DivUnique(x: nat, d: nat, q: nat, r: nat)
    requires d > 0 && r < d && x == q * d + r
    ensures x / d == q
  {
    var q', r' := x / d, x % d;
    assert x == q' * d + r';
    if q' < q {
      MulMonotone(q' + 1, q, d);
    } else if q < q' {
      MulMonotone(q + 1, q', d);
    }
  }

  lemma BodyAsInSource(s: SentFrame, i: nat)
    requires s.Sendable() && i < s.Count()
    ensures var size, c, offset := |s.frame.payload|, s.Capacity(), i * s.Capacity();
      && offset <= size
      && s.Body(i) == s.frame.payload[offset..offset + (if size == 0 then 0 else Min(c, size - offset))]
  {
    hide CountOf;
    CutExact(s, i);
  }

  // ----- the parity the send loop accumulates

  ghost function ParityUpTo(s: SentFrame, k: nat): bytes
    requires s.Sendable() && k <= s.Count()
  {
    CutsTile(s);
    XorFold([], Fragments(s.frame.payload, s.Cuts(), 0, k))
  }

  lemma ParityUpToNone(s: SentFrame)
    requires s.Sendable()
    ensures ParityUpTo(s, 0) == []
  {
  }

  lemma ParityUpToStep(s: SentFrame, k: nat)
    requires s.Sendable() && k < s.Count()
    ensures ParityUpTo(s, k + 1) == Xor(ParityUpTo(s, k), s.Body(k))
    ensures s.Body(k) == [] ==> ParityUpTo(s, k + 1) == ParityUpTo(s, k)
  {
    BodyIsFragment(s, k);
    var now, next := Fragments(s.frame.payload, s.Cuts(), 0, k), Fragments(s.frame.payload, s.Cuts(), 0, k + 1);
    assert next == now + [s.Body(k)] && next[..k] == now;
    if s.Body(k) == [] {
      XorEmpty(ParityUpTo(s, k));
    }
  }

  lemma XorEmpty(a: bytes)
    ensures Xor(a, []) == a
  {
    forall j | 0 <= j < |a|
      ensures Xor(a, [])[j] == a[j]
    {
      XorByteLaws(a[j], 0, 0);
    }
  }

  lemma ParityUpToAll(s: SentFrame)
    requires s.Sendable()
    ensures ParityUpTo(s, s.Count()) == s.ParityBody()
    ensures s.HasParity() ==> |s.ParityBody()| > 0
  {
    CutsTile(s);
    if s.HasParity() {
      var fs := Fragments(s.frame.payload, s.Cuts(), 0, s.Count());
      XorFoldLength([], fs);
      assert |fs[0]| > 0 && |fs[0]| <= |s.ParityBody()|;
    }
  }

  // ----- send results

  lemma DataComesFirst(s: SentFrame, n: nat)
    requires s.Sendable() && n <= s.Count()
    ensures s.Datagrams()[..n] == s.DataDatagrams()[..n]
    ensures |CacheEntry(s).fragments| == |s.DataDatagrams()| == s.Count() > 0
    ensures forall k :: 0 <= k < s.Count() ==> s.Datagrams()[k] == s.DataDatagrams()[k]
  {
  }

  lemma FirstRefusal(socket: Socket, datagrams: seq<bytes>, k: nat)
    requires k < |datagrams| && !socket.Accepts(k, |datagrams[k]|)
    requires forall i :: 0 <= i < k ==> socket.Accepts(i, |datagrams[i]|)
    ensures AcceptedCount(socket, datagrams) == k
  {
  }

  lemma ParityRefused(socket: Socket, s: SentFrame)
    requires s.Sendable() && s.HasParity() && !socket.Accepts(s.Count(), |s.ParityDatagram()|)
    requires forall i :: 0 <= i < s.Count() ==> socket.Accepts(i, |s.DataDatagrams()[i]|)
    ensures |s.Datagrams()| == s.Count() + 1 && s.Datagrams()[..s.Count() + 1] == s.Datagrams()
    ensures AcceptedCount(socket, s.Datagrams()) == s.Count()
  {
    hide SentFrame.DataDatagram, SentFrame.ParityDatagram, AcceptedCount, Socket.Accepts, CountOf;
    assert forall i :: 0 <= i < s.Count() ==> s.Datagrams()[i] == s.DataDatagrams()[i];
    FirstRefusal(socket, s.Datagrams(), s.Count());
  }

  lemma NoRefusal(socket: Socket, datagrams: seq<bytes>)
    requires forall i :: 0 <= i < |datagrams| ==> socket.Accepts(i, |datagrams[i]|)
    ensures AcceptedCount(socket, datagrams) == |datagrams|
  {
  }
}
