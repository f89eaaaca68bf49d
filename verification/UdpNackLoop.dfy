/** The retransmission loop: what the client asks for is what the server resends, and it completes the frame. */
module UdpNackLoop {
  import opened Bytes
  import opened Protocol
  import opened UdpSenderSpec
  import opened UdpSender
  import opened UdpClientState
  import opened UdpClientSpec
  import opened UdpIntegrity

  // ----- requests on the wire

  lemma NackDatagramLength(sequence: nat, indices: seq<nat>, clock: nat)
    ensures |NackDatagram(sequence, indices, clock)| ==
      MESSAGE_HEADER_SIZE + NACK_HEADER_SIZE + |indices| * NACK_ITEM_SIZE
  {
  }

  lemma NackHeaderFields(requestCount: nat, clock: nat, rest: bytes)
    requires requestCount < U16
    ensures Field(EncodeNackHeader(clock, requestCount) + rest, 8, 2) == requestCount
  {
    var s := EncodeNackHeader(clock, requestCount) + rest;
    assert s[8..10] == LittleEndian(requestCount, 2);
    Pow256Values();
    LittleEndianRoundTrip(requestCount, 2);
  }

  /** A request of at most 65535 items that the receive buffer holds parses to exactly its items, in order;
      one the buffer cuts off is rejected. */
  lemma RequestParses(sequence: nat, indices: seq<nat>, clock: nat, bufferSize: nat)
    requires sequence < U64 && |indices| < U16 && forall i :: 0 <= i < |indices| ==> indices[i] < U16
    requires bufferSize >= MESSAGE_HEADER_SIZE + NACK_HEADER_SIZE
    ensures var d := NackDatagram(sequence, indices, clock);
      ParseNackRequest(Truncated(d, bufferSize)) ==
      if |d| <= bufferSize then Some(NackItems(sequence, indices)) else None
  {
    hide EncodeNackItems, DecodeNackItems, EncodeNackHeader, DecodeMessageHeader, EncodeMessageHeader, FromLittleEndian;
    var n := |indices|;
    var items := NackItems(sequence, indices);
    var header := MessageHeader(MAGIC, UDP_NACK, 0, NACK_HEADER_SIZE + n * NACK_ITEM_SIZE);
    var d := NackDatagram(sequence, indices, clock);
    var t := Truncated(d, bufferSize);
    NackDatagramLength(sequence, indices, clock);
    assert d == EncodeMessageHeader(header) + (EncodeNackHeader(clock, n) + EncodeNackItems(items));
    assert t == EncodeMessageHeader(header) + t[MESSAGE_HEADER_SIZE..];
    MessageHeaderRoundTrip(header, t[MESSAGE_HEADER_SIZE..]);
    var rest := t[MESSAGE_HEADER_SIZE + NACK_HEADER_SIZE..];
    assert t[MESSAGE_HEADER_SIZE..] == EncodeNackHeader(clock, n) + rest;
    NackHeaderFields(n, clock, rest);
    assert t[MESSAGE_HEADER_SIZE + 8..MESSAGE_HEADER_SIZE + 10] == t[MESSAGE_HEADER_SIZE..][8..10];
    if |d| <= bufferSize {
      assert t == d && rest == EncodeNackItems(items) + [];
      NackItemsRoundTrip(items, []);
    }
  }

  // ----- the chunks together

  /** The items of all requests, in order of sending. */
  function RequestedItems(requests: seq<bytes>, bufferSize: nat): seq<NackItem> {
    if requests == [] then []
    else
      var first := ParseNackRequest(Truncated(requests[0], bufferSize));
      (if first.Some? then first.value else []) + RequestedItems(requests[1..], bufferSize)
  }

  /** When the socket takes every chunk and each fits the server's buffer, the requests parse to exactly the
      ascending list of missing indices: none lost, none repeated. */
  lemma {:induction false} RequestsListMissing(sequence: nat, missing: seq<nat>, limit: nat, chunk: nat,
      channel: NackChannel, bufferSize: nat)
    requires sequence < U64 && |missing| < U16 && forall i :: 0 <= i < |missing| ==> missing[i] < U16
    requires limit > 0 && forall n: nat :: channel.accepts(sequence, n)
    requires bufferSize >= MESSAGE_HEADER_SIZE + NACK_HEADER_SIZE + Min(limit, |missing|) * NACK_ITEM_SIZE
    ensures var r := SendNack(sequence, missing, limit, chunk, channel);
      r.ok && r.requested == |missing| && RequestedItems(r.sent, bufferSize) == NackItems(sequence, missing)
    decreases |missing|
  {
    hide NackDatagram, ParseNackRequest;
    if missing != [] {
      var n := Min(limit, |missing|);
      var first, rest := missing[..n], missing[n..];
      var d := NackDatagram(sequence, first, channel.clock(sequence, chunk));
      NackDatagramLength(sequence, first, channel.clock(sequence, chunk));
      RequestParses(sequence, first, channel.clock(sequence, chunk), bufferSize);
      RequestsListMissing(sequence, rest, limit, chunk + 1, channel, bufferSize);
      var r := SendNack(sequence, missing, limit, chunk, channel);
      var tail := SendNack(sequence, rest, limit, chunk + 1, channel);
      assert r.sent == [d] + tail.sent && r.sent[1..] == tail.sent;
      assert NackItems(sequence, missing) == NackItems(sequence, first) + NackItems(sequence, rest);
    }
  }

  // ----- the server's cache

  /** Every cached frame is the complete entry of a frame that was sent. */
  ghost predicate CacheGenuine(sent: map<nat, SentFrame>, cache: seq<CachedFrame>)
    requires SentOnce(sent)
  {
    forall i :: 0 <= i < |cache| ==>
      cache[i].frameSequence in sent && cache[i] == CacheEntry(sent[cache[i].frameSequence])
  }

  lemma {:induction false} PruneFrontIsSuffix(cache: seq<CachedFrame>, now: nat, maxAgeNs: nat) returns (n: nat)
    ensures n <= |cache| && PruneFront(cache, now, maxAgeNs) == cache[n..]
  {
    if cache != [] && OverAge(cache[0], now, maxAgeNs) {
      var m := PruneFrontIsSuffix(cache[1..], now, maxAgeNs);
      n := m + 1;
      assert cache[1..][m..] == cache[n..];
    } else {
      n := 0;
      assert cache[0..] == cache;
    }
  }

  lemma LaterKeeps(sent: map<nat, SentFrame>, cache: seq<CachedFrame>, n: nat)
    requires SentOnce(sent) && n <= |cache|
    ensures CacheGenuine(sent, cache) ==> CacheGenuine(sent, cache[n..])
    ensures TimeSorted(cache) ==> TimeSorted(cache[n..])
  {
    hide CacheEntry;
  }

  lemma OneMoreKeeps(sent: map<nat, SentFrame>, cache: seq<CachedFrame>, s: SentFrame)
    requires SentOnce(sent) && s.frame.sequence in sent && sent[s.frame.sequence] == s
    ensures CacheGenuine(sent, cache) ==> CacheGenuine(sent, cache + [CacheEntry(s)])
    ensures TimeSorted(cache) && (forall i :: 0 <= i < |cache| ==> cache[i].cachedTimestamp <= s.sendTimestamp) ==>
      TimeSorted(cache + [CacheEntry(s)])
  {
    hide CountOf, SentFrame.DataDatagram;
  }

  /** Pruning and caching keep the cache genuine, and, as long as send times do not go back, sorted by time. */
  lemma CachingKeeps(sent: map<nat, SentFrame>, cache: seq<CachedFrame>, s: SentFrame, now: nat, maxAgeNs: nat,
      limit: nat)
    requires SentOnce(sent) && CacheGenuine(sent, cache) && s.frame.sequence in sent && sent[s.frame.sequence] == s
    ensures CacheGenuine(sent, PruneFront(cache, now, maxAgeNs))
    ensures CacheGenuine(sent, Newest(PruneFront(cache, now, maxAgeNs) + [CacheEntry(s)], limit))
    ensures TimeSorted(cache) ==> TimeSorted(PruneFront(cache, now, maxAgeNs))
    ensures TimeSorted(cache) && (forall i :: 0 <= i < |cache| ==> cache[i].cachedTimestamp <= s.sendTimestamp) ==>
      TimeSorted(Newest(PruneFront(cache, now, maxAgeNs) + [CacheEntry(s)], limit))
  {
    hide CacheGenuine, TimeSorted, CacheEntry, PruneFront;
    var n := PruneFrontIsSuffix(cache, now, maxAgeNs);
    LaterKeeps(sent, cache, n);
    OneMoreKeeps(sent, cache[n..], s);
    var all := cache[n..] + [CacheEntry(s)];
    if |all| > limit {
      LaterKeeps(sent, all, |all| - limit);
    }
  }

  lemma {:induction false} LookupFragmentExact(s: SentFrame, fragments: seq<CachedFragment>, i: nat, from: nat)
    requires s.Sendable() && from <= i < s.Count()
    requires fragments == CacheEntry(s).fragments[from..]
    ensures LookupFragment(fragments, i) == Some(s.DataDatagram(i))
    decreases i - from
  {
    hide SentFrame.DataDatagram, CountOf;
    if from < i {
      LookupFragmentExact(s, fragments[1..], i, from + 1);
    }
  }

  ghost predicate Cached(cache: seq<CachedFrame>, sequence: nat) {
    exists i :: 0 <= i < |cache| && cache[i].frameSequence == sequence
  }

  lemma CachedTail(cache: seq<CachedFrame>, sequence: nat)
    requires cache != []
    ensures Cached(cache[1..], sequence) ==> Cached(cache, sequence)
  {
    if j :| 0 <= j < |cache[1..]| && cache[1..][j].frameSequence == sequence {
      assert cache[j + 1].frameSequence == sequence;
    }
  }

  lemma {:induction false} LookupExact(sent: map<nat, SentFrame>, cache: seq<CachedFrame>, s: SentFrame, i: nat)
    requires SentOnce(sent) && CacheGenuine(sent, cache)
    requires s.frame.sequence in sent && sent[s.frame.sequence] == s && i < s.Count()
    ensures Lookup(cache, NackItem(s.frame.sequence, i)) ==
      if Cached(cache, s.frame.sequence) then Some(s.DataDatagram(i)) else None
  {
    hide SentFrame.DataDatagram, CountOf;
    if cache != [] {
      CachedTail(cache, s.frame.sequence);
      LookupExact(sent, cache[1..], s, i);
      if cache[0].frameSequence == s.frame.sequence {
        assert CacheEntry(s).fragments[0..] == CacheEntry(s).fragments;
        LookupFragmentExact(s, CacheEntry(s).fragments, i, 0);
      } else if Cached(cache, s.frame.sequence) {
        var j :| 0 <= j < |cache| && cache[j].frameSequence == s.frame.sequence;
        assert cache[1..][j - 1].frameSequence == s.frame.sequence;
      }
    }
  }

  ghost function DataDatagramsOf(s: SentFrame, indices: seq<nat>): (d: seq<bytes>)
    requires s.Sendable()
    ensures |d| == |indices|
  {
    seq(|indices|, i requires 0 <= i < |indices| => s.DataDatagram(indices[i]))
  }

  /** A cached frame answers a request with exactly the requested datagrams; a frame no longer cached with none. */
  lemma {:induction false} FoundExact(sent: map<nat, SentFrame>, cache: seq<CachedFrame>, s: SentFrame,
      indices: seq<nat>)
    requires SentOnce(sent) && CacheGenuine(sent, cache)
    requires s.frame.sequence in sent && sent[s.frame.sequence] == s
    requires forall i :: 0 <= i < |indices| ==> indices[i] < s.Count()
    ensures Found(cache, NackItems(s.frame.sequence, indices)) ==
      if Cached(cache, s.frame.sequence) then DataDatagramsOf(s, indices) else []
  {
    hide SentFrame.DataDatagram, CountOf, Lookup, Cached;
    if indices != [] {
      var items, last := NackItems(s.frame.sequence, indices), |indices| - 1;
      assert items[..last] == NackItems(s.frame.sequence, indices[..last]);
      FoundExact(sent, cache, s, indices[..last]);
      LookupExact(sent, cache, s, indices[last]);
      assert DataDatagramsOf(s, indices) == DataDatagramsOf(s, indices[..last]) + [s.DataDatagram(indices[last])];
    }
  }

  /** Whatever a request asks for, the server resends only datagrams it has sent before. */
  lemma {:induction false} ResentIsGenuine(sent: map<nat, SentFrame>, cache: seq<CachedFrame>, items: seq<NackItem>)
    requires SentOnce(sent) && CacheGenuine(sent, cache)
    ensures forall d :: d in Found(cache, items) ==> Genuine(sent, d)
  {
    hide Genuine, Lookup, CacheGenuine;
    if items != [] {
      var last := items[|items| - 1];
      ResentIsGenuine(sent, cache, items[..|items| - 1]);
      LookupIsGenuine(sent, cache, last);
    }
  }

  lemma {:induction false} LookupIsGenuine(sent: map<nat, SentFrame>, cache: seq<CachedFrame>, item: NackItem)
    requires SentOnce(sent) && CacheGenuine(sent, cache)
    ensures Lookup(cache, item).Some? ==> Genuine(sent, Lookup(cache, item).value)
  {
    hide SentFrame.DataDatagram, CountOf, Genuine, SentFrame.ParityDatagram;
    if cache != [] {
      LookupIsGenuine(sent, cache[1..], item);
      if cache[0].frameSequence == item.frameSequence {
        var s := sent[cache[0].frameSequence];
        FragmentIsGenuine(sent, s, CacheEntry(s).fragments, item.fragmentIndex);
      }
    }
  }

  lemma {:induction false} FragmentIsGenuine(sent: map<nat, SentFrame>, s: SentFrame, fragments: seq<CachedFragment>,
      index: nat)
    requires SentOnce(sent) && s.frame.sequence in sent && sent[s.frame.sequence] == s
    requires forall i :: 0 <= i < |fragments| ==> fragments[i] in CacheEntry(s).fragments
    ensures LookupFragment(fragments, index).Some? ==> Genuine(sent, LookupFragment(fragments, index).value)
  {
    hide SentFrame.DataDatagram, CountOf, SentFrame.ParityDatagram;
    if fragments != [] {
      if fragments[0].fragmentIndex == index {
        var i :| 0 <= i < s.Count() && CacheEntry(s).fragments[i] == fragments[0];
        assert s.Datagrams()[i] == s.DataDatagram(i);
      } else {
        FragmentIsGenuine(sent, s, fragments[1..], index);
      }
    }
  }
}
