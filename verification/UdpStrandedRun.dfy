/** A run that leaves a frame behind, for any two sent frames, when the jitter buffer is off. */
module UdpStrandedRun {
  import opened Bytes
  import opened Protocol
  import opened Fec
  import opened Frames
  import opened UdpSenderSpec
  import opened UdpClientState
  import opened UdpClientSpec
  import opened UdpRecovery
  import opened UdpIntegrity
  import opened UdpStranding
  import opened UdpReceiveLoop

  /** The moments lie within one assembly timeout, and the calls are those of the loop as it drains the socket. */
  ghost predicate Within(ms: seq<Moment>, start: nat) {
    start > 0 && forall i :: 0 <= i < |ms| ==> start <= ms[i].now <= start + ASSEMBLY_TIMEOUT_NS && ms[i].defer
  }

  /** The `n`-th index when `lost` is left out. */
  function Skip(n: nat, lost: nat): nat {
    if n < lost then n else n + 1
  }

  /** Whether index `i` is among the first `n`. */
  predicate Got(i: nat, lost: nat, n: nat) {
    i != lost && if i < lost then i < n else i <= n
  }

  /** The data datagrams of the frame in order, all but `lost`, the n-th arriving at `ms[n]`. */
  function DataEvents(s: SentFrame, lost: nat, ms: seq<Moment>): (events: seq<Event>)
    requires s.Sendable()
    ensures |events| == |ms|
  {
    seq(|ms|, n requires 0 <= n < |ms| => Datagram(s.DataDatagram(Skip(n, lost)), ms[n]))
  }

  /** The client has the first `n` datagrams of the frame, or has none and does not know the frame. */
  ghost predicate Holding(c: Client, s: SentFrame, lost: nat, n: nat, parity: bool, start: nat)
    requires c.WellFormed() && s.Sendable()
  {
    var k := s.frame.sequence;
    && k !in c.recentSet
    && (n == 0 && !parity ==> k !in c.assemblies)
    && (n > 0 || parity ==>
          && k in c.assemblies
          && var a := c.assemblies[k];
             && |a.received| == s.Count() && a.lastFragment >= start && a.hasFec == parity
             && (parity ==> a.fecTimestamp != 0)
             && forall i: nat :: i < |a.received| ==> a.received[i] == Got(i, lost, n))
  }

  // ----- one datagram

  /** The assembly of `s`, old or new, before its next datagram is stored. */
  lemma OpenedHolding(cfg: ClientConfig, sent: map<nat, SentFrame>, c: Client, s: SentFrame, p: Parsed, lost: nat,
      n: nat, parity: bool, start: nat, now: nat)
    requires SentOnce(sent) && c.WellFormed() && Consistent(cfg, sent, c) && p.Accepted() && PieceOf(sent, p)
    requires p.fragment.metadata.sequence == s.frame.sequence && sent[s.frame.sequence] == s
    requires Holding(c, s, lost, n, parity, start) && start <= now
    ensures var k := s.frame.sequence; var d := Opened(cfg, c, p, now); var a := d.assemblies[k];
      && d.assemblies == c.assemblies[k := a] && d.recentSet == c.recentSet
      && |a.received| == s.Count() && SameLayout(a, p.fragment) && a.lastFragment >= start && a.hasFec == parity
      && (forall i: nat :: i < |a.received| ==> a.received[i] == Got(i, lost, n))
  {
    hide CountOf, CountTrue, Matches, Intact, SentFrame.ParityBody, SentFrame.Body;
    PieceFits(cfg, sent, p);
    var k := s.frame.sequence;
    if k in c.assemblies {
      MatchesLayout(cfg, s, c.assemblies[k]);
    }
  }

  lemma MatchesLayout(cfg: ClientConfig, s: SentFrame, a: Assembly)
    requires s.Sendable() && a.WellFormed() && Matches(cfg, s, a)
    ensures |a.received| == s.Count() && |a.payload| == |s.frame.payload|
  {
    hide CountOf, CountTrue;
  }

  lemma SomethingMissing(cfg: ClientConfig, a: Assembly, i: nat)
    requires a.WellFormed() && i < |a.received| && !a.received[i]
    ensures !a.Complete()
  {
    if a.Complete() {
      AllReceived(a.received);
    }
  }

  lemma NoParityNoRecovery(cfg: ClientConfig, a: Assembly)
    requires a.WellFormed() && !a.hasFec
    ensures Restored(cfg, a) == a
  {
  }

  lemma StoreDataEffect(a: Assembly, f: FragmentHeader, body: bytes, now: nat)
    requires a.WellFormed() && SameLayout(a, f)
    requires f.fragmentIndex < f.fragmentCount && f.fragmentOffset + |body| <= f.framePayloadSize
    ensures var r := StoreData(a, f, body, now);
      && r.received == a.received[f.fragmentIndex := true] && r.hasFec == a.hasFec
      && r.lastFragment in {a.lastFragment, now}
  {
    hide CountTrue, Spliced;
  }

  /** One more data datagram: its slot is set, nothing is recovered, nothing is completed. */
  lemma AcceptData(cfg: ClientConfig, sent: map<nat, SentFrame>, c: Client, s: SentFrame, p: Parsed, lost: nat,
      n: nat, start: nat, m: Moment)
    requires SentOnce(sent) && c.WellFormed() && Consistent(cfg, sent, c) && p.Accepted() && PieceOf(sent, p)
    requires p.fragment.metadata.sequence == s.frame.sequence && sent[s.frame.sequence] == s
    requires p.fragment.fragmentRole == DATA && p.fragment.fragmentIndex == Skip(n, lost)
    requires lost < s.Count() && n + 1 < s.Count() && Holding(c, s, lost, n, false, start) && start <= m.now
    ensures var k := s.frame.sequence; var d := Accept(cfg, c, p, m).client;
      && k in d.assemblies && d.assemblies == c.assemblies[k := d.assemblies[k]] && d.recentSet == c.recentSet
      && Holding(d, s, lost, n + 1, false, start) && Accept(cfg, c, p, m).frame.None?
  {
    hide CountOf, CountTrue, Consistent, PieceOf, Opened, RecoverOne, Finalize, StoreData, SameLayout,
        SentFrame.Count, Client.WellFormed, Assembly.Complete, GiveUp, Restored;
    var k := s.frame.sequence;
    OpenedHolding(cfg, sent, c, s, p, lost, n, false, start, m.now);
    var c1 := Opened(cfg, c, p, m.now);
    WellFormedAt(c1, k);
    LayoutCount(c1.assemblies[k], p.fragment);
    StoreDataEffect(c1.assemblies[k], p.fragment, p.body, m.now);
    var c2 := Stored(cfg, c1, p, m.now);
    WellFormedAt(c2, k);
    RecoverOneEffect(cfg, c2, k);
    NoParityNoRecovery(cfg, c2.assemblies[k]);
    SomethingMissing(cfg, c2.assemblies[k], lost);
    RecoverOneRecent(cfg, c2, k);
  }

  lemma LayoutCount(a: Assembly, f: FragmentHeader)
    requires SameLayout(a, f)
    ensures |a.received| == f.fragmentCount
  {
  }

  lemma RecoverOneRecent(cfg: ClientConfig, c: Client, k: nat)
    requires c.WellFormed() && k in c.assemblies
    ensures RecoverOne(cfg, c, k).recentSet == c.recentSet
  {
    hide Recoverable, Restored;
  }

  /** The parity: kept, and no recovery tried. */
  lemma AcceptParity(cfg: ClientConfig, sent: map<nat, SentFrame>, c: Client, s: SentFrame, p: Parsed, lost: nat,
      n: nat, start: nat, m: Moment)
    requires SentOnce(sent) && c.WellFormed() && Consistent(cfg, sent, c) && p.Accepted() && PieceOf(sent, p)
    requires p.fragment.metadata.sequence == s.frame.sequence && sent[s.frame.sequence] == s
    requires p.fragment.fragmentRole == XOR_PARITY && cfg.fecEnabled && 0 < start <= m.now
    requires lost < s.Count() && Holding(c, s, lost, n, false, start)
    ensures var k := s.frame.sequence; var d := Accept(cfg, c, p, m).client;
      && k in d.assemblies && d.assemblies == c.assemblies[k := d.assemblies[k]] && d.recentSet == c.recentSet
      && Holding(d, s, lost, n, true, start) && Accept(cfg, c, p, m).frame.None?
  {
    hide CountOf, CountTrue, Consistent, PieceOf, Opened, RecoverOne, Finalize, SameLayout, SentFrame.Count,
        Client.WellFormed, Assembly.Complete, GiveUp;
    var k := s.frame.sequence;
    OpenedHolding(cfg, sent, c, s, p, lost, n, false, start, m.now);
    var c1 := Opened(cfg, c, p, m.now);
    WellFormedAt(c1, k);
    var c2 := Stored(cfg, c1, p, m.now);
    WellFormedAt(c2, k);
    SomethingMissing(cfg, c2.assemblies[k], lost);
  }

  // ----- the state between datagrams

  lemma HoldingPruned(c: Client, s: SentFrame, lost: nat, n: nat, parity: bool, start: nat, now: nat)
    requires c.WellFormed() && s.Sendable() && Holding(c, s, lost, n, parity, start)
    requires 0 < start <= now <= start + ASSEMBLY_TIMEOUT_NS
    ensures Holding(PruneExpired(c, now), s, lost, n, parity, start)
  {
    hide CountOf, Assembly.WellFormed, TotalMissing;
  }

  lemma HoldingElsewhere(c: Client, d: Client, s: SentFrame, lost: nat, n: nat, parity: bool, start: nat)
    requires c.WellFormed() && d.WellFormed() && s.Sendable() && Holding(c, s, lost, n, parity, start)
    requires d.recentSet == c.recentSet && (s.frame.sequence in d.assemblies <==> s.frame.sequence in c.assemblies)
    requires s.frame.sequence in c.assemblies ==> d.assemblies[s.frame.sequence] == c.assemblies[s.frame.sequence]
    ensures Holding(d, s, lost, n, parity, start)
  {
    hide CountOf, Assembly.WellFormed;
  }

  /** Two frames on their way, with the client in a state both agree with. */
  ghost predicate Underway(cfg: ClientConfig, c: Client, s: SentFrame, lost: nat, n: nat, parity: bool, t: SentFrame,
      lostOther: nat, nOther: nat, parityOther: bool, start: nat)
    requires s.Valid() && t.Valid() && s.frame.sequence != t.frame.sequence
  {
    && c.WellFormed() && Consistent(cfg, Both(s, t), c)
    && Holding(c, s, lost, n, parity, start) && Holding(c, t, lostOther, nOther, parityOther, start)
  }

  ghost function Both(s: SentFrame, t: SentFrame): (sent: map<nat, SentFrame>)
    requires s.Valid() && t.Valid() && s.frame.sequence != t.frame.sequence
    ensures SentOnce(sent)
  {
    map[s.frame.sequence := s, t.frame.sequence := t]
  }

  lemma UnderwaySwap(cfg: ClientConfig, c: Client, s: SentFrame, lost: nat, n: nat, parity: bool, t: SentFrame,
      lostOther: nat, nOther: nat, parityOther: bool, start: nat)
    requires s.Valid() && t.Valid() && s.frame.sequence != t.frame.sequence
    requires Underway(cfg, c, s, lost, n, parity, t, lostOther, nOther, parityOther, start)
    ensures Underway(cfg, c, t, lostOther, nOther, parityOther, s, lost, n, parity, start)
  {
    hide Holding, Consistent, Client.WellFormed, EncodedFrame.Fits, SenderConfig.Validated, CountOf;
    assert Both(s, t) == Both(t, s);
  }

  lemma GenuineOfBoth(s: SentFrame, t: SentFrame, data: bytes)
    requires s.Valid() && t.Valid() && s.frame.sequence != t.frame.sequence && data in s.Datagrams()
    ensures Genuine(Both(s, t), data)
  {
    hide SentFrame.Datagrams, SentFrame.Valid;
    var sent := Both(s, t);
    assert sent[s.frame.sequence] == s;
  }

  /** What a datagram leaves in place before its fragment is accepted. */
  lemma BeforeAccept(cfg: ClientConfig, c: Client, data: bytes, m: Moment, s: SentFrame, lost: nat, n: nat,
      t: SentFrame, lostOther: nat, nOther: nat, parityOther: bool, start: nat) returns (c1: Client)
    requires s.Valid() && t.Valid() && s.frame.sequence != t.frame.sequence
    requires Underway(cfg, c, s, lost, n, false, t, lostOther, nOther, parityOther, start)
    requires 0 < start <= m.now <= start + ASSEMBLY_TIMEOUT_NS
    requires Parse(data).Fragment? && Parse(data).fragment.metadata.sequence == s.frame.sequence
    ensures Underway(cfg, c1, s, lost, n, false, t, lostOther, nOther, parityOther, start)
    ensures ReceiveDatagram(cfg, c, data, m) == Accept(cfg, c1, Parse(data), m)
  {
    hide Consistent, Parse, Accept, PruneExpired, Client.WellFormed, Holding, CountOf, EncodedFrame.Fits,
        SenderConfig.Validated;
    var sent := Both(s, t);
    var c0 := c.(stats := c.stats.(datagramsReceived := c.stats.datagramsReceived + 1));
    WellFormedIgnores(c, c0);
    FewerAssemblies(cfg, sent, c, c0);
    HoldingElsewhere(c, c0, s, lost, n, false, start);
    HoldingElsewhere(c, c0, t, lostOther, nOther, parityOther, start);
    c1 := PruneExpired(c0, m.now);
    GiveUpConsistent(cfg, sent, c0, ExpiredKeys(c0, m.now));
    assert c1 == GiveUp(c0, ExpiredKeys(c0, m.now)) by { PruneIsGiveUp(c0, m.now); }
    HoldingPruned(c0, s, lost, n, false, start, m.now);
    HoldingPruned(c0, t, lostOther, nOther, parityOther, start, m.now);
    HoldingIsNew(c1, s, lost, n, false, start);
  }

  lemma HoldingIsNew(c: Client, s: SentFrame, lost: nat, n: nat, parity: bool, start: nat)
    requires c.WellFormed() && s.Sendable() && Holding(c, s, lost, n, parity, start)
    ensures s.frame.sequence !in c.recentSet
  {
  }

  lemma PruneIsGiveUp(c: Client, now: nat)
    requires c.WellFormed()
    ensures PruneExpired(c, now) == GiveUp(c, ExpiredKeys(c, now))
  {
  }

  /** The next data datagram of the frame. */
  lemma DataArrives(cfg: ClientConfig, c: Client, s: SentFrame, lost: nat, n: nat, t: SentFrame, lostOther: nat,
      nOther: nat, parityOther: bool, start: nat, m: Moment)
    requires s.Valid() && t.Valid() && s.frame.sequence != t.frame.sequence
    requires Underway(cfg, c, s, lost, n, false, t, lostOther, nOther, parityOther, start)
    requires 0 < start <= m.now <= start + ASSEMBLY_TIMEOUT_NS && lost < s.Count() && n + 1 < s.Count()
    ensures var o := Step(cfg, c, Datagram(s.DataDatagram(Skip(n, lost)), m));
      o.frame.None? && Underway(cfg, o.client, s, lost, n + 1, false, t, lostOther, nOther, parityOther, start)
  {
    hide Consistent, Parse, Accept, ReceiveDatagram, Client.WellFormed, SentFrame.DataDatagram, SentFrame.Body,
        Holding, Genuine, PieceOf, CountOf, Skip;
    var sent, i := Both(s, t), Skip(n, lost);
    assert i < s.Count() by { SkipInRange(n, lost, s.Count()); }
    var data := s.DataDatagram(i);
    DataParses(s, i);
    DataIsSent(s, i);
    GenuineOfBoth(s, t, data);
    GenuineParses(sent, data);
    var c1 := BeforeAccept(cfg, c, data, m, s, lost, n, t, lostOther, nOther, parityOther, start);
    AcceptData(cfg, sent, c1, s, Parse(data), lost, n, start, m);
    var d := Accept(cfg, c1, Parse(data), m).client;
    StepConsistent(cfg, sent, c, Datagram(data, m));
    HoldingElsewhere(c1, d, t, lostOther, nOther, parityOther, start);
  }

  lemma SkipInRange(n: nat, lost: nat, count: nat)
    requires lost < count && n + 1 < count
    ensures Skip(n, lost) < count
  {
  }

  lemma DataIsSent(s: SentFrame, i: nat)
    requires s.Sendable() && i < s.Count()
    ensures s.DataDatagram(i) in s.Datagrams()
  {
    hide CountOf, SentFrame.DataDatagram, SentFrame.ParityDatagram;
    assert s.Datagrams()[i] == s.DataDatagram(i);
  }

  lemma ParityIsSent(s: SentFrame)
    requires s.Sendable() && s.HasParity()
    ensures s.ParityDatagram() in s.Datagrams()
  {
    hide CountOf, SentFrame.DataDatagram, SentFrame.ParityDatagram;
    assert s.Datagrams()[s.Count()] == s.ParityDatagram();
  }

  /** The parity of the frame. */
  lemma ParityArrives(cfg: ClientConfig, c: Client, s: SentFrame, lost: nat, n: nat, t: SentFrame, lostOther: nat,
      nOther: nat, parityOther: bool, start: nat, m: Moment)
    requires s.Valid() && t.Valid() && s.frame.sequence != t.frame.sequence
    requires Underway(cfg, c, s, lost, n, false, t, lostOther, nOther, parityOther, start)
    requires 0 < start <= m.now <= start + ASSEMBLY_TIMEOUT_NS && lost < s.Count() && s.HasParity() && cfg.fecEnabled
    ensures var o := Step(cfg, c, Datagram(s.ParityDatagram(), m));
      o.frame.None? && Underway(cfg, o.client, s, lost, n, true, t, lostOther, nOther, parityOther, start)
  {
    hide Consistent, Parse, Accept, ReceiveDatagram, Client.WellFormed, SentFrame.ParityDatagram,
        SentFrame.ParityBody, Holding, Genuine, PieceOf, CountOf;
    var sent, data := Both(s, t), s.ParityDatagram();
    ParityParses(s);
    ParityIsSent(s);
    GenuineOfBoth(s, t, data);
    GenuineParses(sent, data);
    var c1 := BeforeAccept(cfg, c, data, m, s, lost, n, t, lostOther, nOther, parityOther, start);
    AcceptParity(cfg, sent, c1, s, Parse(data), lost, n, start, m);
    var d := Accept(cfg, c1, Parse(data), m).client;
    StepConsistent(cfg, sent, c, Datagram(data, m));
    HoldingElsewhere(c1, d, t, lostOther, nOther, parityOther, start);
  }

  /** The loop is receiving what the socket holds. */
  ghost predicate Drains(cfg: ClientConfig, events: seq<Event>) {
    PhaseAfter(cfg, events).Some? && PhaseAfter(cfg, events).value.Draining?
  }

  lemma DrainsOn(cfg: ClientConfig, events: seq<Event>, data: bytes, m: Moment)
    requires Drains(cfg, events) && m.defer && Step(cfg, Run(cfg, events), Datagram(data, m)).frame.None?
    ensures Drains(cfg, events + [Datagram(data, m)])
  {
    hide Step, Run;
    assert (events + [Datagram(data, m)])[..|events|] == events;
  }

  /** All data datagrams of the frame but the lost one. */
  lemma {:induction false} DataDelivered(cfg: ClientConfig, before: seq<Event>, s: SentFrame, lost: nat,
      ms: seq<Moment>, t: SentFrame, lostOther: nat, nOther: nat, start: nat)
    requires s.Valid() && t.Valid() && s.frame.sequence != t.frame.sequence && lost < s.Count() && |ms| < s.Count()
    requires Underway(cfg, Run(cfg, before), s, lost, 0, false, t, lostOther, nOther, false, start)
    requires Within(ms, start) && Drains(cfg, before)
    ensures var events := before + DataEvents(s, lost, ms);
      Drains(cfg, events) && Underway(cfg, Run(cfg, events), s, lost, |ms|, false, t, lostOther, nOther, false, start)
    decreases |ms|
  {
    hide Run, Step, Underway, Drains, SentFrame.Count, SentFrame.DataDatagram, EncodedFrame.Fits,
        SenderConfig.Validated;
    if ms == [] {
      assert before + DataEvents(s, lost, ms) == before;
    } else {
      var n := |ms| - 1;
      DataDelivered(cfg, before, s, lost, ms[..n], t, lostOther, nOther, start);
      var so, data := before + DataEvents(s, lost, ms[..n]), s.DataDatagram(Skip(n, lost));
      DataArrives(cfg, Run(cfg, so), s, lost, n, t, lostOther, nOther, false, start, ms[n]);
      RunSnoc(cfg, so, Datagram(data, ms[n]));
      DrainsOn(cfg, so, data, ms[n]);
      assert before + DataEvents(s, lost, ms) == so + [Datagram(data, ms[n])];
    }
  }

  /** The loop's first call finds nothing to hand out. */
  lemma FirstPop(cfg: ClientConfig, first: Moment)
    ensures Run(cfg, [Pop(first)]) == RESET && Drains(cfg, [Pop(first)])
  {
    assert [Pop(first)][..0] == [];
    assert Step(cfg, Run(cfg, []), Pop(first)) == Outcome(RESET, None, []);
    assert PhaseAfter(cfg, []) == Some(Top);
  }

  lemma StartsUnderway(cfg: ClientConfig, s: SentFrame, i: nat, t: SentFrame, j: nat, start: nat)
    requires s.Valid() && t.Valid() && s.frame.sequence != t.frame.sequence
    ensures Underway(cfg, RESET, s, i, 0, false, t, j, 0, false, start)
  {
    hide CountOf;
  }

  /** With all data datagrams but one and the parity, a frame is recoverable. */
  lemma HoldingIsRecoverable(cfg: ClientConfig, c: Client, s: SentFrame, lost: nat, t: SentFrame, start: nat)
    requires s.Valid() && t.Valid() && s.frame.sequence != t.frame.sequence && cfg.fecEnabled
    requires c.WellFormed() && Consistent(cfg, Both(s, t), c) && lost < s.Count() && s.HasParity()
    requires Holding(c, s, lost, s.Count() - 1, true, start)
    ensures s.frame.sequence in RecoverableKeys(cfg, c)
  {
    hide CountOf, CountTrue, Recoverable, SlotHolds, SentFrame.Cuts, SentFrame.ParityBody;
    var a := c.assemblies[s.frame.sequence];
    WellFormedAt(c, s.frame.sequence);
    CutsTile(s);
    PayloadFits(s);
    ManyBytes(s);
    CutEnds(s, lost);
    assert Matches(cfg, s, a);
    assert AllBut(s.frame.payload, s.Cuts(), a, lost);
    ParityOfCuts(s);
    RecoveryIsPossible(cfg, s.frame.payload, s.Cuts(), a);
  }

  lemma ManyBytes(s: SentFrame)
    requires s.Sendable() && s.HasParity()
    ensures s.frame.payload != []
  {
  }

  lemma ParityOfCuts(s: SentFrame)
    requires s.Sendable()
    ensures Tiling(s.Cuts(), |s.frame.payload|) && s.ParityBody() == Parity(s.frame.payload, s.Cuts())
  {
    CutsTile(s);
  }

  // ----- the run

  /** One turn of the loop up to the last data datagram: two frames, each without one. */
  function TwoLosses(first: Moment, s: SentFrame, i: nat, ms: seq<Moment>, t: SentFrame, j: nat,
      mt: seq<Moment>): seq<Event>
    requires s.Sendable() && t.Sendable()
  {
    [Pop(first)] + DataEvents(s, i, ms) + DataEvents(t, j, mt)
  }

  /** And then the parities of both. */
  ghost function TwoParities(first: Moment, s: SentFrame, i: nat, ms: seq<Moment>, t: SentFrame, j: nat,
      mt: seq<Moment>, parities: seq<Moment>): seq<Event>
    requires s.Sendable() && t.Sendable() && |parities| == 2
  {
    TwoLosses(first, s, i, ms, t, j, mt) + [Datagram(s.ParityDatagram(), parities[0])]
    + [Datagram(t.ParityDatagram(), parities[1])]
  }

  /** Both frames without one data datagram each, and no parity yet. */
  lemma DataOfBoth(cfg: ClientConfig, first: Moment, s: SentFrame, i: nat, ms: seq<Moment>, t: SentFrame, j: nat,
      mt: seq<Moment>, start: nat)
    requires s.Valid() && t.Valid() && s.frame.sequence != t.frame.sequence
    requires i < s.Count() && j < t.Count() && |ms| == s.Count() - 1 && |mt| == t.Count() - 1
    requires Within(ms, start) && Within(mt, start)
    ensures var events := TwoLosses(first, s, i, ms, t, j, mt);
      && Drains(cfg, events)
      && Underway(cfg, Run(cfg, events), s, i, |ms|, false, t, j, |mt|, false, start)
  {
    hide Run, SentFrame.Count, DataEvents, Underway, Drains, EncodedFrame.Fits, SenderConfig.Validated;
    var e0 := [Pop(first)];
    FirstPop(cfg, first);
    StartsUnderway(cfg, s, i, t, j, start);
    DataDelivered(cfg, e0, s, i, ms, t, j, 0, start);
    var e1 := e0 + DataEvents(s, i, ms);
    UnderwaySwap(cfg, Run(cfg, e1), s, i, |ms|, false, t, j, 0, false, start);
    DataDelivered(cfg, e1, t, j, mt, s, i, |ms|, start);
    UnderwaySwap(cfg, Run(cfg, e1 + DataEvents(t, j, mt)), t, j, |mt|, false, s, i, |ms|, false, start);
  }

  lemma BothRecoverable(cfg: ClientConfig, first: Moment, s: SentFrame, i: nat, ms: seq<Moment>, t: SentFrame, j: nat,
      mt: seq<Moment>, parities: seq<Moment>, start: nat)
    requires s.Valid() && t.Valid() && s.frame.sequence != t.frame.sequence && s.HasParity() && t.HasParity()
    requires i < s.Count() && j < t.Count() && |ms| == s.Count() - 1 && |mt| == t.Count() - 1 && |parities| == 2
    requires cfg.fecEnabled && Within(ms, start) && Within(mt, start) && Within(parities, start)
    ensures var events := TwoParities(first, s, i, ms, t, j, mt, parities); var c := Run(cfg, events);
      && Drains(cfg, events)
      && CompleteKeys(c) == {} && RecoverableKeys(cfg, c) == {s.frame.sequence, t.frame.sequence}
  {
    hide Run, Step, SentFrame.Count, SentFrame.ParityDatagram, TwoLosses, Underway, Drains, EncodedFrame.Fits,
        SenderConfig.Validated, CompleteKeys, RecoverableKeys;
    var e := TwoLosses(first, s, i, ms, t, j, mt);
    DataOfBoth(cfg, first, s, i, ms, t, j, mt, start);
    ParityArrives(cfg, Run(cfg, e), s, i, |ms|, t, j, |mt|, false, start, parities[0]);
    DrainsOn(cfg, e, s.ParityDatagram(), parities[0]);
    RunSnoc(cfg, e, Datagram(s.ParityDatagram(), parities[0]));
    var e' := e + [Datagram(s.ParityDatagram(), parities[0])];
    UnderwaySwap(cfg, Run(cfg, e'), s, i, |ms|, true, t, j, |mt|, false, start);
    ParityArrives(cfg, Run(cfg, e'), t, j, |mt|, s, i, |ms|, true, start, parities[1]);
    DrainsOn(cfg, e', t.ParityDatagram(), parities[1]);
    RunSnoc(cfg, e', Datagram(t.ParityDatagram(), parities[1]));
    UnderwayIsRecoverable(cfg, Run(cfg, e' + [Datagram(t.ParityDatagram(), parities[1])]), t, j, s, i, start);
  }

  lemma UnderwayIsRecoverable(cfg: ClientConfig, c: Client, s: SentFrame, i: nat, t: SentFrame, j: nat, start: nat)
    requires s.Valid() && t.Valid() && s.frame.sequence != t.frame.sequence && s.HasParity() && t.HasParity()
    requires i < s.Count() && j < t.Count() && cfg.fecEnabled
    requires Underway(cfg, c, s, i, s.Count() - 1, true, t, j, t.Count() - 1, true, start)
    ensures CompleteKeys(c) == {} && RecoverableKeys(cfg, c) == {s.frame.sequence, t.frame.sequence}
  {
    hide Holding, Recoverable, CountOf, CountTrue, Assembly.Complete, Matches;
    UnderwaySwap(cfg, c, s, i, s.Count() - 1, true, t, j, t.Count() - 1, true, start);
    HoldingIsRecoverable(cfg, c, s, i, t, start);
    HoldingIsRecoverable(cfg, c, t, j, s, start);
    forall k | k in c.assemblies
      ensures k in RecoverableKeys(cfg, c) && !c.assemblies[k].Complete()
    {
      assert k in Both(s, t);
      WellFormedAt(c, k);
      if c.assemblies[k].Complete() {
        CompleteIsNotRecoverable(cfg, c.assemblies[k]);
      }
    }
  }

  /** Without the jitter buffer: when one turn of the loop receives, of any two sent frames with parity, all
      datagrams but one data datagram each, its recovery pass restores both frames and leaves the one with the larger
      sequence behind, complete. */
  lemma OneOfTwoIsStranded(cfg: ClientConfig, first: Moment, s: SentFrame, i: nat, ms: seq<Moment>, t: SentFrame,
      j: nat, mt: seq<Moment>, parities: seq<Moment>, last: Moment, start: nat)
    requires s.Valid() && t.Valid() && s.frame.sequence != t.frame.sequence && s.HasParity() && t.HasParity()
    requires i < s.Count() && j < t.Count() && |ms| == s.Count() - 1 && |mt| == t.Count() - 1 && |parities| == 2
    requires cfg.fecEnabled && !cfg.jitterBufferEnabled && last.defer
    requires Within(ms, start) && Within(mt, start) && Within(parities, start)
    ensures var events := TwoParities(first, s, i, ms, t, j, mt, parities) + [Recovery(last)];
      && LoopTrace(cfg, events)
      && CompleteKeys(Run(cfg, events)) == {Max(s.frame.sequence, t.frame.sequence)}
      && !NoneComplete(Run(cfg, events))
  {
    hide Run, RecoverableKeys, CompleteKeys, NoneComplete, RecoveryPass, TwoParities, SentFrame.Count,
        SentFrame.ParityDatagram, EncodedFrame.Fits, SenderConfig.Validated;
    var events := TwoParities(first, s, i, ms, t, j, mt, parities);
    BothRecoverable(cfg, first, s, i, ms, t, j, mt, parities, start);
    UnbufferedPassStrands(cfg, Run(cfg, events), last);
    RunSnoc(cfg, events, Recovery(last));
    PassEndsDrain(cfg, events, last);
    NoneCompleteMeans(Run(cfg, events + [Recovery(last)]));
  }

  lemma PassEndsDrain(cfg: ClientConfig, events: seq<Event>, m: Moment)
    requires Drains(cfg, events) && m.defer
    ensures LoopTrace(cfg, events + [Recovery(m)])
  {
    hide Step, Run;
    assert (events + [Recovery(m)])[..|events|] == events;
  }
}
