/** The order in which the receive loop calls the client's operations, and that it strands no frame with the jitter
    buffer on. */
module UdpReceiveLoop {
  import opened Bytes
  import opened Protocol
  import opened UdpClientState
  import opened UdpClientSpec
  import opened UdpStranding

  /** Where the loop stands between two calls. `drained`: this turn has received a datagram without waiting. */
  datatype Phase =
    | Top
    | Draining(drained: bool)
    | Recovered(drained: bool)
    | Idle
    | Pruned
    | Requesting
    | Requested
    | Blocking

  /** The first call of a turn; a frame that is ready ends the call, and the next call starts at the top again. */
  function Begin(handedOut: bool): Phase {
    if handedOut then Top else Draining(false)
  }

  /** The phase after call `e`, and none when the loop does not make that call here. A failing receive ends the turn
      without a call, so a turn may begin wherever the loop receives. */
  function Turn(phase: Phase, e: Event, handedOut: bool): Option<Phase> {
    match phase
    case Top => if e.Pop? then Some(Begin(handedOut)) else None
    case Draining(drained) =>
      if e.Pop? then Some(Begin(handedOut))
      else if e.Datagram? && e.moment.defer then Some(if handedOut then Top else Draining(true))
      else if e.Recovery? && e.moment.defer then Some(if handedOut then Top else Recovered(drained))
      else None
    case Recovered(drained) => if e.Pop? then Some(if handedOut || drained then Top else Idle) else None
    case Idle => if e.Prune? then Some(Pruned) else None
    case Pruned => if e.Recovery? && !e.moment.defer then Some(if handedOut then Top else Requesting) else None
    case Requesting => if e.RequestNacks? then Some(Requested) else None
    case Requested => if e.Pop? then Some(if handedOut then Top else Blocking) else None
    case Blocking =>
      if e.Pop? then Some(Begin(handedOut)) else if e.Datagram? && !e.moment.defer then Some(Top) else None
  }

  /** Where the loop stands after the calls `events`, if those are calls it can make. */
  ghost function PhaseAfter(cfg: ClientConfig, events: seq<Event>): Option<Phase> {
    if events == [] then Some(Top)
    else
      var before, last := events[..|events| - 1], events[|events| - 1];
      var phase := PhaseAfter(cfg, before);
      if phase.None? then None else Turn(phase.value, last, Step(cfg, Run(cfg, before), last).frame.Some?)
  }

  ghost predicate LoopTrace(cfg: ClientConfig, events: seq<Event>) {
    PhaseAfter(cfg, events).Some?
  }

  lemma PhaseNext(cfg: ClientConfig, events: seq<Event>, e: Event)
    ensures var phase := PhaseAfter(cfg, events);
      PhaseAfter(cfg, events + [e])
      == if phase.None? then None else Turn(phase.value, e, Step(cfg, Run(cfg, events), e).frame.Some?)
  {
    hide Turn, Step, Run;
    assert (events + [e])[..|events|] == events;
  }

  /** None of `calls`, made after `before`, hands a frame out. */
  ghost predicate Quiet(cfg: ClientConfig, before: seq<Event>, calls: seq<Event>) {
    forall i :: 0 <= i < |calls| ==> Step(cfg, Run(cfg, before + calls[..i]), calls[i]).frame.None?
  }

  /** The phase after calls of which none hands a frame out. */
  function Walk(phase: Option<Phase>, calls: seq<Event>): Option<Phase> {
    if calls == [] then phase
    else
      var before := Walk(phase, calls[..|calls| - 1]);
      if before.None? then None else Turn(before.value, calls[|calls| - 1], false)
  }

  lemma {:induction false} WalkConcat(phase: Option<Phase>, a: seq<Event>, b: seq<Event>)
    ensures Walk(phase, a + b) == Walk(Walk(phase, a), b)
  {
    hide Turn;
    if b == [] {
      assert a + b == a;
    } else {
      assert (a + b)[..|a + b| - 1] == a + b[..|b| - 1];
      WalkConcat(phase, a, b[..|b| - 1]);
    }
  }

  lemma {:induction false} QuietWalk(cfg: ClientConfig, before: seq<Event>, calls: seq<Event>)
    requires Quiet(cfg, before, calls)
    ensures PhaseAfter(cfg, before + calls) == Walk(PhaseAfter(cfg, before), calls)
  {
    hide Turn, Step, Run, PhaseAfter;
    if calls == [] {
      assert before + calls == before;
    } else {
      var init, last := calls[..|calls| - 1], calls[|calls| - 1];
      assert forall i :: 0 <= i < |init| ==> init[..i] == calls[..i] && init[i] == calls[i];
      QuietWalk(cfg, before, init);
      PhaseNext(cfg, before + init, last);
      assert before + calls == before + init + [last];
    }
  }

  lemma {:induction false} WalkDrains(drained: bool, datagrams: seq<Event>)
    requires forall e :: e in datagrams ==> e.Datagram? && e.moment.defer
    ensures Walk(Some(Draining(drained)), datagrams) == Some(Draining(drained || datagrams != []))
  {
    if datagrams != [] {
      WalkDrains(drained, datagrams[..|datagrams| - 1]);
    }
  }

  /** A turn of the loop, when nothing is handed out: a pop, all datagrams there are, a deferred pass and a pop. After
      datagrams it starts over, and otherwise the maintenance follows. */
  lemma TurnRuns(cfg: ClientConfig, before: seq<Event>, datagrams: seq<Event>, m: Moment, n: Moment, o: Moment)
    requires PhaseAfter(cfg, before) == Some(Top) && n.defer
    requires forall e :: e in datagrams ==> e.Datagram? && e.moment.defer
    requires Quiet(cfg, before, [Pop(m)] + datagrams + [Recovery(n)] + [Pop(o)])
    ensures PhaseAfter(cfg, before + ([Pop(m)] + datagrams + [Recovery(n)] + [Pop(o)]))
            == Some(if datagrams == [] then Idle else Top)
  {
    hide PhaseAfter, Quiet;
    QuietWalk(cfg, before, [Pop(m)] + datagrams + [Recovery(n)] + [Pop(o)]);
    WalkOne(Top, Pop(m));
    WalkConcat(Some(Top), [Pop(m)], datagrams);
    WalkDrains(false, datagrams);
    WalkConcat(Some(Top), [Pop(m)] + datagrams, [Recovery(n)]);
    WalkOne(Draining(datagrams != []), Recovery(n));
    WalkConcat(Some(Top), [Pop(m)] + datagrams + [Recovery(n)], [Pop(o)]);
    WalkOne(Recovered(datagrams != []), Pop(o));
  }

  lemma WalkOne(phase: Phase, e: Event)
    ensures Walk(Some(phase), [e]) == Turn(phase, e, false)
  {
    hide Turn;
    assert [e][..0] == [];
  }

  /** The maintenance, when nothing is handed out: expiry, a pass that may pop, requests, a pop, and one datagram. */
  lemma MaintenanceRuns(cfg: ClientConfig, before: seq<Event>, m: Moment, n: Moment, o: Moment, p: Moment, data: bytes,
      q: Moment)
    requires PhaseAfter(cfg, before) == Some(Idle) && !n.defer && !q.defer
    requires Quiet(cfg, before, [Prune(m)] + [Recovery(n)] + [RequestNacks(o)] + [Pop(p)] + [Datagram(data, q)])
    ensures PhaseAfter(cfg, before + ([Prune(m)] + [Recovery(n)] + [RequestNacks(o)] + [Pop(p)] + [Datagram(data, q)]))
            == Some(Top)
  {
    hide PhaseAfter, Quiet;
    var a := [Prune(m)] + [Recovery(n)];
    QuietWalk(cfg, before, a + [RequestNacks(o)] + [Pop(p)] + [Datagram(data, q)]);
    WalkOne(Idle, Prune(m));
    WalkConcat(Some(Idle), [Prune(m)], [Recovery(n)]);
    WalkOne(Pruned, Recovery(n));
    WalkConcat(Some(Idle), a, [RequestNacks(o)]);
    WalkOne(Requesting, RequestNacks(o));
    WalkConcat(Some(Idle), a + [RequestNacks(o)], [Pop(p)]);
    WalkOne(Requested, Pop(p));
    WalkConcat(Some(Idle), a + [RequestNacks(o)] + [Pop(p)], [Datagram(data, q)]);
    WalkOne(Blocking, Datagram(data, q));
  }

  /** Between the deferred pass and the pass that may pop, nothing is recoverable. */
  ghost predicate Settled(cfg: ClientConfig, c: Client, phase: Phase)
    requires c.WellFormed()
  {
    phase.Recovered? || phase.Idle? || phase.Pruned? ==> NoneRecoverable(cfg, c)
  }

  lemma TurnSettles(cfg: ClientConfig, c: Client, e: Event, phase: Phase)
    requires c.WellFormed() && NoneComplete(c) && cfg.jitterBufferEnabled && Settled(cfg, c, phase)
    requires Turn(phase, e, Step(cfg, c, e).frame.Some?).Some?
    ensures Passes(cfg, c, e) && NoneComplete(Step(cfg, c, e).client)
    ensures Settled(cfg, Step(cfg, c, e).client, Turn(phase, e, Step(cfg, c, e).frame.Some?).value)
  {
    hide Step, NoneComplete, NoneRecoverable, Client.WellFormed;
    StepNoneComplete(cfg, c, e);
    if phase.Recovered? {
      PopKeepsRecoverable(cfg, c, e.moment);
    } else if phase.Idle? {
      PruneKeepsRecoverable(cfg, c, e.moment);
    }
  }

  /** Every sequence of calls the loop can make is disciplined. */
  lemma {:induction false} LoopIsDisciplined(cfg: ClientConfig, events: seq<Event>)
    requires cfg.jitterBufferEnabled && LoopTrace(cfg, events)
    ensures Disciplined(cfg, events) && NoneComplete(Run(cfg, events))
    ensures Settled(cfg, Run(cfg, events), PhaseAfter(cfg, events).value)
  {
    hide Step, NoneComplete, Settled, Passes, Turn, Client.WellFormed;
    if events == [] {
      NoneAtStart();
      SettledAtTop(cfg);
    } else {
      var before := events[..|events| - 1];
      LoopIsDisciplined(cfg, before);
      TurnSettles(cfg, Run(cfg, before), events[|events| - 1], PhaseAfter(cfg, before).value);
    }
  }

  lemma SettledAtTop(cfg: ClientConfig)
    ensures Settled(cfg, RESET, Top)
  {
  }

  /** With the jitter buffer on, whatever datagrams arrive and wherever the loop is interrupted, no complete assembly
      is left behind, and when the loop gets to its maintenance none is left that it could recover. */
  lemma {:induction false} LoopStrandsNothing(cfg: ClientConfig, events: seq<Event>)
    requires cfg.jitterBufferEnabled && LoopTrace(cfg, events)
    ensures NoneComplete(Run(cfg, events))
    ensures PhaseAfter(cfg, events) == Some(Idle) || PhaseAfter(cfg, events) == Some(Pruned) ==>
      NoneRecoverable(cfg, Run(cfg, events))
  {
    hide Run, NoneComplete, NoneRecoverable, PhaseAfter;
    LoopIsDisciplined(cfg, events);
  }
}
