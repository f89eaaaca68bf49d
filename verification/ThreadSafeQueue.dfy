/** The server's queue between two threads. Every method holds the queue's lock from start to end: one atomic step. */
module ThreadSafeQueue {

  function Without<T>(q: seq<T>, k: nat): (r: seq<T>)
    requires k < |q|
    ensures |r| == |q| - 1
  {
    q[..k] + q[k + 1..]
  }

  /** The index of the first element that matches, or the length when none does (`std::find_if`). */
  function FirstMatch<T>(q: seq<T>, predicate_: T -> bool): (k: nat)
    ensures k <= |q| && (k < |q| ==> predicate_(q[k]))
  {
    if q == [] || predicate_(q[0]) then 0 else 1 + FirstMatch(q[1..], predicate_)
  }

  lemma {:induction false} FirstMatchIsFirst<T>(q: seq<T>, predicate_: T -> bool)
    ensures forall i :: 0 <= i < FirstMatch(q, predicate_) ==> !predicate_(q[i])
  {
    if q != [] && !predicate_(q[0]) {
      FirstMatchIsFirst(q[1..], predicate_);
      var k := FirstMatch(q[1..], predicate_);
      forall i | 0 <= i < 1 + k
        ensures !predicate_(q[i])
      {
        assert i > 0 ==> q[i] == q[1..][i - 1];
      }
    }
  }

  /** The element that goes first: the oldest one that matches, or else the oldest. */
  function Victim<T>(q: seq<T>, predicate_: T -> bool): (k: nat)
    requires q != []
    ensures k < |q|
  {
    var k := FirstMatch(q, predicate_);
    if k < |q| then k else 0
  }

  /** Room made for one more element. */
  function MakeRoom<T>(q: seq<T>, max: nat, predicate_: T -> bool): seq<T>
    decreases |q|
  {
    if |q| >= max && q != [] then MakeRoom(Without(q, Victim(q, predicate_)), max, predicate_) else q
  }

  function MakeRoomInFront<T>(q: seq<T>, max: nat): seq<T>
    decreases |q|
  {
    if |q| >= max && q != [] then MakeRoomInFront(q[1..], max) else q
  }

  /** What making room keeps in front: the newest elements. */
  lemma {:induction false} RoomInFront<T>(q: seq<T>, max: nat)
    ensures MakeRoomInFront(q, max) == if max == 0 then [] else if |q| < max then q else q[|q| - (max - 1)..]
    decreases |q|
  {
    if |q| >= max && q != [] {
      RoomInFront(q[1..], max);
    }
  }

  /** A queue within its bound loses at most one element, and only when it is full. */
  lemma RoomForOne<T>(q: seq<T>, max: nat, predicate_: T -> bool)
    requires 1 <= max && |q| <= max
    ensures MakeRoom(q, max, predicate_) == if |q| < max then q else Without(q, Victim(q, predicate_))
    ensures MakeRoomInFront(q, max) == if |q| < max then q else q[1..]
  {
    if |q| == max {
      var r := Without(q, Victim(q, predicate_));
      assert MakeRoom(r, max, predicate_) == r;
    }
  }

  class ThreadSafeQueue<T> {
    var queue: seq<T>

    constructor ()
      ensures queue == []
    {
      queue := [];
    }

    method FindIf(predicate_: T -> bool) returns (candidate: nat)
      ensures candidate == FirstMatch(queue, predicate_)
    {
      candidate := 0;
      while candidate < |queue| && !predicate_(queue[candidate])
        invariant candidate <= |queue|
        invariant candidate + FirstMatch(queue[candidate..], predicate_) == FirstMatch(queue, predicate_)
      {
        assert queue[candidate..][1..] == queue[candidate + 1..];
        candidate := candidate + 1;
      }
    }

    method PushDropOldestCountDropped(value: T, maxSize: nat) returns (dropped: nat)
      modifies this
      ensures queue == MakeRoomInFront(old(queue), maxSize) + [value]
      ensures dropped == |old(queue)| - |MakeRoomInFront(old(queue), maxSize)|
    {
      dropped := 0;
      while |queue| >= maxSize && |queue| > 0
        invariant MakeRoomInFront(queue, maxSize) == MakeRoomInFront(old(queue), maxSize)
        invariant dropped + |queue| == |old(queue)|
        decreases |queue|
      {
        queue := queue[1..];
        dropped := dropped + 1;
      }
      queue := queue + [value];
    }

    method PushDropSelective(value: T, maxSize: nat, predicate_: T -> bool) returns (dropped: nat)
      modifies this
      ensures queue == MakeRoom(old(queue), maxSize, predicate_) + [value]
      ensures dropped == |old(queue)| - |MakeRoom(old(queue), maxSize, predicate_)|
    {
      dropped := 0;
      while |queue| >= maxSize && |queue| > 0
        invariant MakeRoom(queue, maxSize, predicate_) == MakeRoom(old(queue), maxSize, predicate_)
        invariant dropped + |queue| == |old(queue)|
        decreases |queue|
      {
        var candidate := FindIf(predicate_);
        ghost var left := Without(queue, Victim(queue, predicate_));
        if candidate < |queue| {
          queue := queue[..candidate] + queue[candidate + 1..];
        } else {
          assert left == queue[1..];
          queue := queue[1..];
        }
        assert queue == left;
        dropped := dropped + 1;
      }
      queue := queue + [value];
    }

    /** `WaitPopFor` once it has been woken or has timed out, and `TryPop`. */
    method TryPop() returns (ok: bool, value: seq<T>)
      modifies this
      ensures ok <==> old(queue) != []
      ensures old(queue) == value + queue && |value| == if ok then 1 else 0
    {
      ok, value := false, [];
      if |queue| > 0 {
        ok, value, queue := true, [queue[0]], queue[1..];
      }
    }

    method Clear()
      modifies this
      ensures queue == []
    {
      queue := [];
    }

    method Size() returns (size: nat)
      ensures size == |queue|
    {
      size := |queue|;
    }

    method AnyMatching(predicate_: T -> bool) returns (any: bool)
      ensures any <==> exists x :: x in queue && predicate_(x)
    {
      var candidate := FindIf(predicate_);
      FirstMatchIsFirst(queue, predicate_);
      any := candidate < |queue|;
      if any {
        assert queue[candidate] in queue;
      }
    }
  }
}
