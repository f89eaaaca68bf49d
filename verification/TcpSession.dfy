/** One TCP client's send queue as a producer and a consumer thread share it, while other threads may end the session:
    every access to the queue and to the running flag is one atomic step, and the steps of all threads interleave in
    any order. */
module TcpSession {
  import opened Bytes
  import opened Frames
  import opened ThreadSafeQueue

  datatype TcpConfig = TcpConfig(maxPendingFrames: nat, dropOldestNonKey: bool, maxQueueWaitMs: int)

  /** `ticket` tells the frames apart: how many were offered before. No operation reads it. */
  datatype QueuedFrame = QueuedFrame(frame: EncodedFrame, enqueueTimestamp: nat, ticket: nat)

  predicate NonKey(q: QueuedFrame) {
    !q.frame.isKeyframe
  }

  ghost predicate HasNonKey(queue: seq<QueuedFrame>) {
    exists x :: x in queue && NonKey(x)
  }

  /** Where `EnqueueFrame` stands between its accesses to what is shared: the running flag read, the depth measured, the
      drop policy checked. */
  datatype Producer =
    | Idle
    | Admitted(incoming: QueuedFrame)
    | Measured(incoming: QueuedFrame, depth: nat)
    | Ready(incoming: QueuedFrame)
  {
    function Hand(): seq<QueuedFrame> {
      if Idle? then [] else [incoming]
    }
  }

  /** Where `SendLoop` stands: the running flag read, a frame popped, a frame being sent. */
  datatype Consumer = Waiting | Polling | Popped(held: QueuedFrame) | Sending(held: QueuedFrame) {
    function Hand(): seq<QueuedFrame> {
      if Waiting? || Polling? then [] else [held]
    }
  }

  datatype Session = Session(
    running: bool, queue: seq<QueuedFrame>, producer: Producer, consumer: Consumer,
    offered: nat, refused: nat, overflowDropped: nat, staleDropped: nat, failed: nat, cleared: nat, backpressure: nat,
    sent: seq<QueuedFrame>)

  const START := Session(true, [], Idle, Waiting, 0, 0, 0, 0, 0, 0, 0, [])

  // ----- the producer's steps

  function Offer(s: Session, frame: EncodedFrame, now: nat): Session {
    if !s.running || !s.producer.Idle? then s
    else s.(producer := Admitted(QueuedFrame(frame, now, s.offered)), offered := s.offered + 1)
  }

  function Measure(config: TcpConfig, s: Session): Session {
    if !s.producer.Admitted? then s
    else
      s.(producer := Measured(s.producer.incoming, |s.queue|),
         backpressure := s.backpressure + if |s.queue| >= config.maxPendingFrames then 1 else 0)
  }

  ghost predicate Refuses(config: TcpConfig, s: Session)
    requires s.producer.Measured?
  {
    && config.dropOldestNonKey && NonKey(s.producer.incoming)
    && s.producer.depth >= config.maxPendingFrames && !HasNonKey(s.queue)
  }

  ghost function Check(config: TcpConfig, s: Session): Session {
    if !s.producer.Measured? then s
    else if Refuses(config, s) then s.(producer := Idle, refused := s.refused + 1)
    else s.(producer := Ready(s.producer.incoming))
  }

  function Kept(config: TcpConfig, queue: seq<QueuedFrame>): seq<QueuedFrame> {
    if config.dropOldestNonKey then MakeRoom(queue, config.maxPendingFrames, NonKey)
    else MakeRoomInFront(queue, config.maxPendingFrames)
  }

  lemma {:induction false} MakeRoomShrinks<T>(q: seq<T>, max: nat, p: T -> bool)
    ensures |MakeRoom(q, max, p)| <= |q| && |MakeRoomInFront(q, max)| <= |q|
    decreases |q|
  {
    if |q| >= max && q != [] {
      MakeRoomShrinks(Without(q, Victim(q, p)), max, p);
      RoomInFront(q, max);
    }
  }

  function Push(config: TcpConfig, s: Session): Session {
    if !s.producer.Ready? then s
    else
      MakeRoomShrinks(s.queue, config.maxPendingFrames, NonKey);
      var kept := Kept(config, s.queue);
      s.(producer := Idle, queue := kept + [s.producer.incoming],
         overflowDropped := s.overflowDropped + (|s.queue| - |kept|))
  }

  // ----- the consumer's steps

  function Poll(s: Session): Session {
    if !s.running || !s.consumer.Waiting? then s else s.(consumer := Polling)
  }

  function Pop(s: Session): Session {
    if !s.consumer.Polling? then s
    else if s.queue == [] then s.(consumer := Waiting)
    else s.(queue := s.queue[1..], consumer := Popped(s.queue[0]))
  }

  predicate Stale(config: TcpConfig, q: QueuedFrame, now: nat) {
    && q.enqueueTimestamp != 0 && now >= q.enqueueTimestamp
    && config.maxQueueWaitMs > 0 && NonKey(q) && now - q.enqueueTimestamp > config.maxQueueWaitMs * NS_PER_MS
  }

  function Decide(config: TcpConfig, s: Session, now: nat): Session {
    if !s.consumer.Popped? then s
    else if Stale(config, s.consumer.held, now) then s.(consumer := Waiting, staleDropped := s.staleDropped + 1)
    else s.(consumer := Sending(s.consumer.held))
  }

  function Finish(s: Session, ok: bool): Session {
    if !s.consumer.Sending? then s
    else if ok then s.(consumer := Waiting, sent := s.sent + [s.consumer.held])
    else s.(consumer := Waiting, failed := s.failed + 1, running := false)
  }

  // ----- the end of a session

  /** The receive thread at its end, or `Stop`: the other threads see it at their next look at the flag. */
  function Halt(s: Session): Session {
    s.(running := false)
  }

  /** `Stop` empties the queue of a halted session. What was queued is lost. */
  function Clear(s: Session): Session {
    if s.running then s else s.(queue := [], cleared := s.cleared + |s.queue|)
  }

  // ----- interleavings

  datatype Event =
    | OfferEvent(frame: EncodedFrame, now: nat) | MeasureEvent | CheckEvent | PushEvent
    | PollEvent | PopEvent | DecideEvent(now: nat) | FinishEvent(ok: bool)
    | HaltEvent | ClearEvent

  ghost function Next(config: TcpConfig, s: Session, e: Event): Session {
    match e
    case OfferEvent(frame, now) => Offer(s, frame, now)
    case MeasureEvent => Measure(config, s)
    case CheckEvent => Check(config, s)
    case PushEvent => Push(config, s)
    case PollEvent => Poll(s)
    case PopEvent => Pop(s)
    case DecideEvent(now) => Decide(config, s, now)
    case FinishEvent(ok) => Finish(s, ok)
    case HaltEvent => Halt(s)
    case ClearEvent => Clear(s)
  }

  ghost function Run(config: TcpConfig, es: seq<Event>): Session {
    if es == [] then START else Next(config, Run(config, es[..|es| - 1]), es[|es| - 1])
  }

  // ----- what every interleaving keeps

  /** Every frame not lost yet, in the order sent, in hand, queued and coming. */
  function Line(s: Session): seq<QueuedFrame> {
    s.sent + s.consumer.Hand() + s.queue + s.producer.Hand()
  }

  ghost predicate InOrder(line: seq<QueuedFrame>, bound: nat) {
    && (forall i :: 0 <= i < |line| ==> line[i].ticket < bound)
    && (forall i, j :: 0 <= i < j < |line| ==> line[i].ticket < line[j].ticket)
  }

  /** Nothing is lost without being counted. */
  predicate Conserved(s: Session) {
    s.offered == s.refused + s.overflowDropped + s.staleDropped + s.failed + s.cleared + |Line(s)|
  }

  /** What the producer has seen still bounds what it will do to the queue: the consumer only takes away. */
  ghost predicate Guarded(config: TcpConfig, s: Session) {
    match s.producer
    case Idle => true
    case Admitted(_) => true
    case Measured(_, depth) => |s.queue| <= depth
    case Ready(incoming) =>
      config.dropOldestNonKey && NonKey(incoming) ==> |s.queue| < config.maxPendingFrames || HasNonKey(s.queue)
  }

  ghost predicate Inv(config: TcpConfig, s: Session) {
    |s.queue| <= config.maxPendingFrames && Conserved(s) && InOrder(Line(s), s.offered) && Guarded(config, s)
  }

  lemma OrderWithout(line: seq<QueuedFrame>, bound: nat, k: nat)
    requires InOrder(line, bound) && k < |line|
    ensures InOrder(Without(line, k), bound)
  {
  }

  lemma OrderSnoc(line: seq<QueuedFrame>, bound: nat, q: QueuedFrame)
    requires InOrder(line, bound) && q.ticket == bound
    ensures InOrder(line + [q], bound + 1)
  {
  }

  lemma OfferKeeps(config: TcpConfig, s: Session, frame: EncodedFrame, now: nat)
    requires Inv(config, s)
    ensures Inv(config, Offer(s, frame, now))
  {
    hide InOrder;
    if s.running && s.producer.Idle? {
      var q := QueuedFrame(frame, now, s.offered);
      assert Line(Offer(s, frame, now)) == Line(s) + [q];
      OrderSnoc(Line(s), s.offered, q);
    }
  }

  lemma MeasureKeeps(config: TcpConfig, s: Session)
    requires Inv(config, s)
    ensures Inv(config, Measure(config, s))
  {
    hide InOrder;
    assert Line(Measure(config, s)) == Line(s);
  }

  lemma CheckKeeps(config: TcpConfig, s: Session)
    requires Inv(config, s)
    ensures Inv(config, Check(config, s))
  {
    hide InOrder, HasNonKey;
    if s.producer.Measured? {
      if Refuses(config, s) {
        LineWithout(s, Check(config, s), |Line(s)| - 1);
      } else {
        assert Line(Check(config, s)) == Line(s);
      }
    }
  }

  /** One frame gone from the line. */
  lemma LineWithout(s: Session, t: Session, k: nat)
    requires k < |Line(s)| && InOrder(Line(s), s.offered) && t.offered == s.offered
    requires Line(t) == Without(Line(s), k)
    ensures InOrder(Line(t), t.offered) && |Line(t)| == |Line(s)| - 1
  {
    OrderWithout(Line(s), s.offered, k);
  }

  /** The line after the queue has lost its element `k`. */
  lemma QueueLoses(before: seq<QueuedFrame>, queue: seq<QueuedFrame>, after: seq<QueuedFrame>, k: nat)
    requires k < |queue|
    ensures before + Without(queue, k) + after == Without(before + queue + after, |before| + k)
  {
  }

  /** The line after a push: whole, or without the queue's victim. */
  lemma PushedLine(config: TcpConfig, s: Session)
    requires config.maxPendingFrames >= 1 && |s.queue| <= config.maxPendingFrames && s.producer.Ready?
    requires InOrder(Line(s), s.offered)
    ensures var t := Push(config, s);
      && InOrder(Line(t), t.offered) && |t.queue| <= config.maxPendingFrames
      && |Line(t)| + t.overflowDropped == |Line(s)| + s.overflowDropped
  {
    hide InOrder, MakeRoom, MakeRoomInFront, Victim, Without, Kept, Line;
    var t := Push(config, s);
    var before := s.sent + s.consumer.Hand();
    LineParts(s);
    LineParts(t);
    if |s.queue| == config.maxPendingFrames {
      var k := OneGoes(config, s.queue);
      QueueLoses(before, s.queue, [s.producer.incoming], k);
      LineWithout(s, t, |before| + k);
    } else {
      NoneGoes(config, s.queue);
    }
  }

  lemma LineParts(s: Session)
    ensures Line(s) == s.sent + s.consumer.Hand() + s.queue + s.producer.Hand()
    ensures forall kept: seq<QueuedFrame>, q: QueuedFrame :: s.queue == kept + [q] && s.producer.Idle? ==>
      Line(s) == s.sent + s.consumer.Hand() + kept + [q]
  {
    forall kept: seq<QueuedFrame>, q: QueuedFrame | s.queue == kept + [q] && s.producer.Idle?
      ensures Line(s) == s.sent + s.consumer.Hand() + kept + [q]
    {
    }
  }

  lemma OneGoes(config: TcpConfig, queue: seq<QueuedFrame>) returns (k: nat)
    requires 1 <= config.maxPendingFrames == |queue|
    ensures k < |queue| && Kept(config, queue) == Without(queue, k)
  {
    hide MakeRoom, MakeRoomInFront, Victim;
    RoomForOne(queue, config.maxPendingFrames, NonKey);
    k := if config.dropOldestNonKey then Victim(queue, NonKey) else 0;
  }

  lemma NoneGoes(config: TcpConfig, queue: seq<QueuedFrame>)
    requires |queue| < config.maxPendingFrames
    ensures Kept(config, queue) == queue
  {
    hide MakeRoom, MakeRoomInFront, Victim;
    RoomForOne(queue, config.maxPendingFrames, NonKey);
  }

  lemma PushKeeps(config: TcpConfig, s: Session)
    requires Inv(config, s) && config.maxPendingFrames >= 1
    ensures Inv(config, Push(config, s))
  {
    hide InOrder, HasNonKey, MakeRoom, MakeRoomInFront, Line, Kept;
    if s.producer.Ready? {
      PushedLine(config, s);
    }
  }

  lemma PopKeeps(config: TcpConfig, s: Session)
    requires Inv(config, s)
    ensures Inv(config, Pop(s))
  {
    hide InOrder, HasNonKey, Line;
    PopLine(s);
  }

  lemma PopLine(s: Session)
    ensures Line(Pop(s)) == Line(s)
  {
    if s.consumer.Polling? && s.queue != [] {
      var t := Pop(s);
      assert s.queue == [s.queue[0]] + t.queue;
      assert s.sent + [] + ([s.queue[0]] + t.queue) + s.producer.Hand()
             == s.sent + [s.queue[0]] + t.queue + s.producer.Hand();
    }
  }

  lemma PollKeeps(config: TcpConfig, s: Session)
    requires Inv(config, s)
    ensures Inv(config, Poll(s))
  {
    hide InOrder, HasNonKey;
    assert Line(Poll(s)) == Line(s);
  }

  lemma HaltKeeps(config: TcpConfig, s: Session)
    requires Inv(config, s)
    ensures Inv(config, Halt(s))
  {
    hide InOrder, HasNonKey;
    assert Line(Halt(s)) == Line(s);
  }

  /** An interval gone from the line. */
  lemma OrderWithoutMiddle(before: seq<QueuedFrame>, middle: seq<QueuedFrame>, after: seq<QueuedFrame>, bound: nat)
    requires InOrder(before + middle + after, bound)
    ensures InOrder(before + after, bound)
  {
    var line, left := before + middle + after, before + after;
    forall i | 0 <= i < |left|
      ensures left[i] == line[if i < |before| then i else i + |middle|]
    {
    }
  }

  /** An emptied queue leaves the line in order, and its room is enough for any frame on its way in. */
  lemma ClearKeeps(config: TcpConfig, s: Session)
    requires Inv(config, s) && config.maxPendingFrames >= 1
    ensures Inv(config, Clear(s))
  {
    hide InOrder, HasNonKey;
    if !s.running {
      OrderWithoutMiddle(s.sent + s.consumer.Hand(), s.queue, s.producer.Hand(), s.offered);
      assert Line(Clear(s)) == s.sent + s.consumer.Hand() + s.producer.Hand();
    }
  }

  lemma DecideKeeps(config: TcpConfig, s: Session, now: nat)
    requires Inv(config, s)
    ensures Inv(config, Decide(config, s, now))
  {
    hide InOrder, HasNonKey;
    if s.consumer.Popped? {
      if Stale(config, s.consumer.held, now) {
        HandDropped(s, Decide(config, s, now));
      } else {
        assert Line(Decide(config, s, now)) == Line(s);
      }
    }
  }

  lemma FinishKeeps(config: TcpConfig, s: Session, ok: bool)
    requires Inv(config, s)
    ensures Inv(config, Finish(s, ok))
  {
    hide InOrder, HasNonKey;
    if s.consumer.Sending? {
      if ok {
        assert Line(Finish(s, ok)) == Line(s);
      } else {
        HandDropped(s, Finish(s, ok));
      }
    }
  }

  lemma HandDropped(s: Session, t: Session)
    requires s.consumer.Hand() != [] && t.consumer.Waiting? && t.offered == s.offered
    requires t.sent == s.sent && t.queue == s.queue && t.producer == s.producer && InOrder(Line(s), s.offered)
    ensures InOrder(Line(t), t.offered) && |Line(t)| == |Line(s)| - 1
  {
    hide InOrder;
    assert Line(t) == Without(Line(s), |s.sent|);
    LineWithout(s, t, |s.sent|);
  }

  lemma {:induction false} RunKeeps(config: TcpConfig, es: seq<Event>)
    requires config.maxPendingFrames >= 1
    ensures Inv(config, Run(config, es))
  {
    if es == [] {
      assert Line(START) == [];
    } else {
      hide Inv, Offer, Measure, Check, Push, Poll, Pop, Decide, Finish, Halt, Clear;
      var before := es[..|es| - 1];
      RunKeeps(config, before);
      var s := Run(config, before);
      match es[|es| - 1]
      case OfferEvent(frame, now) => OfferKeeps(config, s, frame, now);
      case MeasureEvent => MeasureKeeps(config, s);
      case CheckEvent => CheckKeeps(config, s);
      case PushEvent => PushKeeps(config, s);
      case PollEvent => PollKeeps(config, s);
      case PopEvent => PopKeeps(config, s);
      case DecideEvent(now) => DecideKeeps(config, s, now);
      case FinishEvent(ok) => FinishKeeps(config, s, ok);
      case HaltEvent => HaltKeeps(config, s);
      case ClearEvent => ClearKeeps(config, s);
    }
  }

  /** In every interleaving, wherever the session ends: the queue stays within its bound, every frame offered is
      refused, dropped, sent, lost with the connection or with the queue, or still on its way, and the frames sent and
      queued keep the order they were offered in. */
  lemma {:induction false} EveryInterleaving(config: TcpConfig, es: seq<Event>)
    requires config.maxPendingFrames >= 1
    ensures var s := Run(config, es);
      && |s.queue| <= config.maxPendingFrames
      && s.offered == s.refused + s.overflowDropped + s.staleDropped + s.failed + s.cleared
                      + |s.sent| + |s.consumer.Hand()| + |s.queue| + |s.producer.Hand()|
      && InOrder(s.sent + s.consumer.Hand() + s.queue + s.producer.Hand(), s.offered)
  {
    RunKeeps(config, es);
  }

  // ----- keyframes

  /** The keyframes of a queue. */
  ghost function Keys(queue: seq<QueuedFrame>): set<QueuedFrame> {
    set x | x in queue && !NonKey(x)
  }

  lemma VictimOfMixed(queue: seq<QueuedFrame>)
    requires queue != [] && HasNonKey(queue)
    ensures NonKey(queue[Victim(queue, NonKey)])
  {
    FirstMatchIsFirst(queue, NonKey);
    var x :| x in queue && NonKey(x);
    var i :| 0 <= i < |queue| && queue[i] == x;
  }

  lemma KeysWithout(queue: seq<QueuedFrame>, k: nat)
    requires k < |queue|
    ensures NonKey(queue[k]) ==> Keys(Without(queue, k)) == Keys(queue)
    ensures Keys(queue) - {queue[k]} <= Keys(Without(queue, k)) <= Keys(queue)
  {
    var r := Without(queue, k);
    forall x | x in queue && x != queue[k]
      ensures x in r
    {
      var i :| 0 <= i < |queue| && queue[i] == x;
      assert x == if i < k then r[i] else r[i - 1];
    }
    forall x | x in r
      ensures x in queue
    {
    }
  }

  /** Keyframes are protected in every interleaving: queueing a frame that is none evicts none, and a keyframe
      is evicted, by another keyframe, only when every queued frame is one; then it is the oldest. */
  lemma {:induction false} KeyframesProtected(config: TcpConfig, es: seq<Event>)
    requires config.maxPendingFrames >= 1 && config.dropOldestNonKey && Run(config, es).producer.Ready?
    ensures var s := Run(config, es); var kept := Kept(config, s.queue);
      && Push(config, s).queue == kept + [s.producer.incoming]
      && (NonKey(s.producer.incoming) ==> Keys(kept) == Keys(s.queue))
      && (Keys(kept) != Keys(s.queue) ==> !HasNonKey(s.queue) && s.queue != [] && kept == s.queue[1..])
  {
    hide MakeRoom, MakeRoomInFront, Keys, HasNonKey;
    RunKeeps(config, es);
    var s := Run(config, es);
    RoomForOne(s.queue, config.maxPendingFrames, NonKey);
    if |s.queue| == config.maxPendingFrames {
      KeysWithout(s.queue, Victim(s.queue, NonKey));
      if HasNonKey(s.queue) {
        VictimOfMixed(s.queue);
      } else {
        OldestKeyGoes(s.queue);
      }
    }
  }

  lemma OldestKeyGoes(queue: seq<QueuedFrame>)
    requires queue != [] && !HasNonKey(queue)
    ensures Without(queue, Victim(queue, NonKey)) == queue[1..]
  {
    forall i | 0 <= i < |queue|
      ensures !NonKey(queue[i])
    {
      assert queue[i] in queue;
    }
  }

  /** Under the other policy a full queue loses its oldest frame, whatever it is, and the new one is queued. */
  lemma {:induction false} OldestGoes(config: TcpConfig, es: seq<Event>)
    requires config.maxPendingFrames >= 1 && !config.dropOldestNonKey && Run(config, es).producer.Ready?
    ensures var s := Run(config, es); var t := Push(config, s); var full := |s.queue| == config.maxPendingFrames;
      && t.queue == (if full then s.queue[1..] else s.queue) + [s.producer.incoming]
      && t.overflowDropped == s.overflowDropped + if full then 1 else 0
  {
    hide MakeRoom, MakeRoomInFront, HasNonKey;
    RunKeeps(config, es);
    RoomForOne(Run(config, es).queue, config.maxPendingFrames, NonKey);
  }

  /** A keyframe is never refused, whatever the queue holds. */
  lemma {:induction false} KeyframesAreNotRefused(config: TcpConfig, es: seq<Event>)
    requires Run(config, es).producer.Measured? && Run(config, es + [CheckEvent]).refused > Run(config, es).refused
    ensures NonKey(Run(config, es).producer.incoming)
  {
    assert (es + [CheckEvent])[..|es|] == es;
  }

  // ----- what the consumer drops and the producer refuses

  lemma RunNext(config: TcpConfig, es: seq<Event>, e: Event)
    ensures Run(config, es + [e]) == Next(config, Run(config, es), e)
  {
    assert (es + [e])[..|es|] == es;
  }

  /** In every interleaving the consumer sends a keyframe however long it waited. Any other frame it drops, and counts
      as stale, exactly when there is a limit and the frame has waited longer. */
  lemma DropsExactlyStale(config: TcpConfig, es: seq<Event>, now: nat)
    requires Run(config, es).consumer.Popped?
    ensures var s, t := Run(config, es), Run(config, es + [DecideEvent(now)]); var q := s.consumer.held;
      t == if && !q.frame.isKeyframe
              && config.maxQueueWaitMs > 0 && 0 < q.enqueueTimestamp <= now
              && now - q.enqueueTimestamp > config.maxQueueWaitMs * 1_000_000
           then s.(consumer := Waiting, staleDropped := s.staleDropped + 1)
           else s.(consumer := Sending(q))
  {
    hide Run;
    RunNext(config, es, DecideEvent(now));
  }

  /** In every interleaving a frame is refused exactly when keyframes are protected, it is none, the queue was full when
      its depth was measured, and every queued frame is a keyframe now. */
  lemma RefusesExactly(config: TcpConfig, es: seq<Event>)
    requires Run(config, es).producer.Measured?
    ensures var s, t := Run(config, es), Run(config, es + [CheckEvent]); var incoming := s.producer.incoming;
      t == if && config.dropOldestNonKey && !incoming.frame.isKeyframe && s.producer.depth >= config.maxPendingFrames
              && forall k :: 0 <= k < |s.queue| ==> s.queue[k].frame.isKeyframe
           then s.(producer := Idle, refused := s.refused + 1)
           else s.(producer := Ready(incoming))
  {
    hide Run;
    RunNext(config, es, CheckEvent);
    var queue := Run(config, es).queue;
    AllKeyframes(queue);
  }

  lemma AllKeyframes(queue: seq<QueuedFrame>)
    ensures HasNonKey(queue) <==> exists k :: 0 <= k < |queue| && !queue[k].frame.isKeyframe
  {
    if k :| 0 <= k < |queue| && !queue[k].frame.isKeyframe {
      assert queue[k] in queue && NonKey(queue[k]);
    }
  }

  /** A frame is stamped when it is offered, and the depth it is judged by is that of the queue when it is measured. */
  lemma MeasuresExactly(config: TcpConfig, es: seq<Event>, frame: EncodedFrame, now: nat)
    requires Run(config, es).running && Run(config, es).producer.Idle?
    ensures var s, t := Run(config, es), Run(config, es + [OfferEvent(frame, now)]);
      && t.producer == Admitted(QueuedFrame(frame, now, s.offered)) && t.offered == s.offered + 1
      && var u := Run(config, es + [OfferEvent(frame, now)] + [MeasureEvent]);
         && u.producer == Measured(t.producer.incoming, |s.queue|)
         && (u.backpressure > s.backpressure <==> |s.queue| >= config.maxPendingFrames)
  {
    hide Run;
    RunNext(config, es, OfferEvent(frame, now));
    RunNext(config, es + [OfferEvent(frame, now)], MeasureEvent);
  }

  /** A failed send ends the session: whatever the threads do from then on, no frame is offered, taken or sent. */
  lemma {:induction false} FailureEndsSession(config: TcpConfig, es: seq<Event>, later: seq<Event>)
    requires Run(config, es).consumer.Sending?
    ensures var s, t := Run(config, es), Run(config, es + [FinishEvent(false)] + later);
      && !t.running && t.failed == s.failed + 1 && t.offered == s.offered && t.sent == s.sent && t.consumer.Waiting?
    decreases |later|
  {
    hide Next, Run;
    RunNext(config, es, FinishEvent(false));
    FinishFails(config, Run(config, es));
    if later == [] {
      assert es + [FinishEvent(false)] + later == es + [FinishEvent(false)];
    } else {
      var init, last := later[..|later| - 1], later[|later| - 1];
      FailureEndsSession(config, es, init);
      RunNext(config, es + [FinishEvent(false)] + init, last);
      assert es + [FinishEvent(false)] + later == es + [FinishEvent(false)] + init + [last];
      NothingStarts(config, Run(config, es + [FinishEvent(false)] + init), last);
    }
  }

  /** The queue of a running session is never emptied. `Stop` halts the session first, and then empties it: nothing is
      offered or taken from then on, and at most the frame in the consumer's hand still goes out. */
  lemma {:induction false} StopEmpties(config: TcpConfig, es: seq<Event>, later: seq<Event>)
    ensures var s := Run(config, es);
      && (s.running ==> Run(config, es + [ClearEvent]) == s)
      && var t := Run(config, es + [HaltEvent] + [ClearEvent]);
         && t == s.(running := false, queue := [], cleared := s.cleared + |s.queue|)
         && (s.producer.Idle? ==>
               var u := Run(config, es + [HaltEvent] + [ClearEvent] + later);
               && !u.running && u.producer.Idle? && u.queue == [] && u.offered == s.offered
               && (u.sent == s.sent || u.sent == s.sent + s.consumer.Hand())
               && (u.consumer.Hand() == [] || (u.consumer.Hand() == s.consumer.Hand() && u.sent == s.sent)))
    decreases |later|
  {
    hide Next, Run;
    var stopped := es + [HaltEvent] + [ClearEvent];
    RunNext(config, es, HaltEvent);
    RunNext(config, es, ClearEvent);
    RunNext(config, es + [HaltEvent], ClearEvent);
    Stopped(config, Run(config, es));
    if later == [] {
      assert stopped + later == stopped;
    } else {
      var init, last := later[..|later| - 1], later[|later| - 1];
      StopEmpties(config, es, init);
      RunNext(config, stopped + init, last);
      assert stopped + later == stopped + init + [last];
      if Run(config, es).producer.Idle? {
        NothingComes(config, Run(config, stopped + init), last);
      }
    }
  }

  lemma Stopped(config: TcpConfig, s: Session)
    ensures s.running ==> Next(config, s, ClearEvent) == s
    ensures Next(config, Next(config, s, HaltEvent), ClearEvent)
            == s.(running := false, queue := [], cleared := s.cleared + |s.queue|)
  {
  }

  lemma NothingComes(config: TcpConfig, s: Session, e: Event)
    requires !s.running && s.producer.Idle? && s.queue == []
    ensures var t := Next(config, s, e);
      && !t.running && t.producer.Idle? && t.queue == [] && t.offered == s.offered
      && (t.sent == s.sent || (t.sent == s.sent + s.consumer.Hand() && t.consumer.Hand() == []))
      && (t.consumer.Hand() == [] || (t.consumer.Hand() == s.consumer.Hand() && t.sent == s.sent))
  {
    hide Kept, HasNonKey;
  }

  lemma FinishFails(config: TcpConfig, s: Session)
    requires s.consumer.Sending?
    ensures Next(config, s, FinishEvent(false)) == s.(running := false, consumer := Waiting, failed := s.failed + 1)
  {
  }

  lemma NothingStarts(config: TcpConfig, s: Session, e: Event)
    requires !s.running && s.consumer.Waiting?
    ensures var t := Next(config, s, e);
      !t.running && t.failed == s.failed && t.offered == s.offered && t.sent == s.sent && t.consumer.Waiting?
  {
    hide Kept, HasNonKey;
  }

  // ----- the session

  class TcpClientSession {
    const config: TcpConfig
    const outboundFrames: ThreadSafeQueue<QueuedFrame>
    var running: bool
    var overflowDroppedFrames: nat
    var staleDroppedFrames: nat
    var droppedIncomingNonKeyframes: nat
    var backpressureEvents: nat
    var maxQueueDepth: nat
    var offered: nat
    ghost var failed: nat
    ghost var cleared: nat
    ghost var sent: seq<QueuedFrame>

    constructor (config: TcpConfig)
      ensures State(Idle, Waiting) == START && this.config == config && fresh(outboundFrames)
    {
      this.config, running := config, true;
      outboundFrames := new ThreadSafeQueue<QueuedFrame>();
      overflowDroppedFrames, staleDroppedFrames, droppedIncomingNonKeyframes := 0, 0, 0;
      backpressureEvents, maxQueueDepth := 0, 0;
      offered, failed, cleared, sent := 0, 0, 0, [];
    }

    ghost function State(producer: Producer, consumer: Consumer): Session
      reads this, outboundFrames
    {
      Session(running, outboundFrames.queue, producer, consumer, offered, droppedIncomingNonKeyframes,
              overflowDroppedFrames, staleDroppedFrames, failed, cleared, backpressureEvents, sent)
    }

    /** The producer's call when nothing comes between its steps. */
    method EnqueueFrame(frame: EncodedFrame, now: nat)
      modifies this, outboundFrames
      ensures State(Idle, Waiting) ==
        Push(config, Check(config, Measure(config, Offer(old(State(Idle, Waiting)), frame, now))))
    {
      hide MakeRoom, MakeRoomInFront, HasNonKey;
      if !running {
        return;
      }
      var incoming, depthBeforePush := MeasureDepth(frame, now);
      var refused := CheckIncoming(incoming, depthBeforePush);
      if refused {
        return;
      }
      PushIncoming(incoming);
    }

    method MeasureDepth(frame: EncodedFrame, now: nat) returns (incoming: QueuedFrame, depth: nat)
      requires running
      modifies this
      ensures forall consumer ::
        State(Measured(incoming, depth), consumer) == Measure(config, Offer(old(State(Idle, consumer)), frame, now))
    {
      incoming := QueuedFrame(frame, now, offered);
      offered := offered + 1;
      depth := outboundFrames.Size();
      if depth >= config.maxPendingFrames {
        backpressureEvents := backpressureEvents + 1;
      }
    }

    method CheckIncoming(incoming: QueuedFrame, depth: nat) returns (refused: bool)
      modifies this
      ensures forall consumer ::
        State(if refused then Idle else Ready(incoming), consumer) ==
          Check(config, old(State(Measured(incoming, depth), consumer)))
    {
      refused := false;
      if config.dropOldestNonKey {
        if !incoming.frame.isKeyframe && depth >= config.maxPendingFrames {
          var any := outboundFrames.AnyMatching(NonKey);
          if !any {
            droppedIncomingNonKeyframes := droppedIncomingNonKeyframes + 1;
            refused := true;
          }
        }
      }
    }

    method PushIncoming(incoming: QueuedFrame)
      modifies this, outboundFrames
      ensures forall consumer :: State(Idle, consumer) == Push(config, old(State(Ready(incoming), consumer)))
    {
      hide MakeRoom, MakeRoomInFront;
      var dropped;
      if config.dropOldestNonKey {
        dropped := outboundFrames.PushDropSelective(incoming, config.maxPendingFrames, NonKey);
      } else {
        dropped := outboundFrames.PushDropOldestCountDropped(incoming, config.maxPendingFrames);
      }
      overflowDroppedFrames := overflowDroppedFrames + dropped;
      var currentDepth := outboundFrames.Size();
      if currentDepth > maxQueueDepth {
        maxQueueDepth := currentDepth;
      }
    }

    /** One turn of the consumer's loop when nothing comes between its steps: pop, drop a stale frame, or send,
        with `ok` for what sending returns. */
    method SendTurn(now: nat, ok: bool)
      modifies this, outboundFrames
      ensures State(Idle, Waiting) == Finish(Decide(config, Pop(Poll(old(State(Idle, Waiting)))), now), ok)
    {
      if !running {
        return;
      }
      var popped, q := TakeFrame();
      if !popped {
        return;
      }
      var stale := DropStale(q[0], now);
      if !stale {
        FinishSend(q[0], ok);
      }
    }

    method TakeFrame() returns (popped: bool, q: seq<QueuedFrame>)
      requires running
      modifies outboundFrames
      ensures |q| == if popped then 1 else 0
      ensures forall producer ::
        State(producer, if popped then Popped(q[0]) else Waiting) == Pop(Poll(old(State(producer, Waiting))))
    {
      popped, q := outboundFrames.TryPop();
      assert popped ==> old(outboundFrames.queue)[0] == q[0] && old(outboundFrames.queue)[1..] == outboundFrames.queue;
    }

    method DropStale(q: QueuedFrame, now: nat) returns (stale: bool)
      modifies `staleDroppedFrames
      ensures forall producer ::
        State(producer, if stale then Waiting else Sending(q)) == Decide(config, old(State(producer, Popped(q))), now)
    {
      stale := false;
      if q.enqueueTimestamp != 0 && now >= q.enqueueTimestamp {
        var queueWait := now - q.enqueueTimestamp;
        if config.maxQueueWaitMs > 0 && !q.frame.isKeyframe && queueWait > config.maxQueueWaitMs * NS_PER_MS {
          staleDroppedFrames := staleDroppedFrames + 1;
          stale := true;
        }
      }
    }

    method FinishSend(q: QueuedFrame, ok: bool)
      modifies `running, `failed, `sent
      ensures forall producer :: State(producer, Waiting) == Finish(old(State(producer, Sending(q))), ok)
    {
      if ok {
        sent := sent + [q];
      } else {
        failed := failed + 1;
        running := false;
      }
    }

    /** The end of the session, once both threads have stopped. */
    method Stop()
      modifies this, outboundFrames
      ensures State(Idle, Waiting) == Clear(Halt(old(State(Idle, Waiting))))
    {
      running := false;
      cleared := cleared + |outboundFrames.queue|;
      outboundFrames.Clear();
    }
  }
}
