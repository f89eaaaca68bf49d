/** The server's side of TCP framing: a frame handed to the socket in three parts, however little it takes at a time. */
module TcpSending {
  import opened Bytes
  import opened Protocol
  import opened Frames

  /** What `sendmsg` answers. The socket takes at most what is offered; taking nothing counts as failure. */
  datatype SendOutcome = Wrote(count: nat) | Interrupted | Failed

  /** `len` bytes of a buffer from `base` on. */
  datatype Iovec = Iovec(buffer: bytes, base: nat, len: nat) {
    predicate Valid() {
      base + len <= |buffer|
    }

    function Region(): (r: bytes)
      requires Valid()
      ensures |r| == len
    {
      buffer[base..base + len]
    }
  }

  ghost predicate AllValid(v: seq<Iovec>) {
    forall i :: 0 <= i < |v| ==> v[i].Valid() && v[i].len > 0
  }

  /** The bytes the vectors still hold. */
  ghost function Left(v: seq<Iovec>): bytes
    requires AllValid(v)
  {
    if v == [] then [] else v[0].Region() + Left(v[1..])
  }

  lemma {:induction false} LeftSnoc(v: seq<Iovec>, x: Iovec)
    requires AllValid(v) && x.Valid() && x.len > 0
    ensures AllValid(v + [x]) && Left(v + [x]) == Left(v) + x.Region()
  {
    hide Iovec.Region;
    if v == [] {
      assert v + [x] == [x] && [x][1..] == [];
      assert x.Region() + [] == x.Region() == [] + x.Region();
    } else {
      LeftSnoc(v[1..], x);
      assert (v + [x])[1..] == v[1..] + [x];
      assert v[0].Region() + (Left(v[1..]) + x.Region()) == v[0].Region() + Left(v[1..]) + x.Region();
    }
  }

  /** Whole vectors gone: `sent` is what the next one has lost. */
  lemma LeftHead(v: seq<Iovec>, sent: nat)
    requires AllValid(v) && v != [] && v[0].len <= sent <= |Left(v)|
    ensures Left(v)[sent..] == Left(v[1..])[sent - v[0].len..] && sent - v[0].len <= |Left(v[1..])|
  {
    hide Iovec.Region;
    DropHead(v[0].Region(), Left(v[1..]), sent);
  }

  lemma DropHead(a: bytes, b: bytes, n: nat)
    requires |a| <= n <= |a| + |b|
    ensures (a + b)[n..] == b[n - |a|..]
  {
  }

  lemma DropWithin(a: bytes, b: bytes, n: nat)
    requires n <= |a|
    ensures (a + b)[n..] == a[n..] + b
  {
  }

  lemma LeftPartly(v: seq<Iovec>, sent: nat)
    requires AllValid(v) && v != [] && 0 < sent < v[0].len
    ensures var w := v[0 := Iovec(v[0].buffer, v[0].base + sent, v[0].len - sent)];
      AllValid(w) && Left(w) == Left(v)[sent..]
  {
    var w := v[0 := Iovec(v[0].buffer, v[0].base + sent, v[0].len - sent)];
    assert w[1..] == v[1..];
    assert w[0].Region() == v[0].Region()[sent..];
    DropWithin(v[0].Region(), Left(v[1..]), sent);
  }

  /** The vectors after `sent` more bytes: whole ones leave, the rest move to the front, the first may shrink. */
  method Advance(iovecs: array<Iovec>, activeCount: nat, count: nat) returns (active: nat)
    requires activeCount <= iovecs.Length && AllValid(iovecs[..activeCount]) && count <= |Left(iovecs[..activeCount])|
    modifies iovecs
    ensures active <= activeCount && AllValid(iovecs[..active])
    ensures Left(iovecs[..active]) == old(Left(iovecs[..activeCount]))[count..]
  {
    hide Left, AllValid;
    ghost var v := iovecs[..activeCount];
    active := activeCount;
    var sent, shift := CountWhole(iovecs, activeCount, count);
    if shift > 0 {
      MoveFront(iovecs, active, shift);
      active := active - shift;
    }
    assert iovecs[..active] == v[shift..];
    if active > 0 && sent > 0 {
      LeftPartly(v[shift..], sent);
      iovecs[0] := Iovec(iovecs[0].buffer, iovecs[0].base + sent, iovecs[0].len - sent);
      assert iovecs[..active] == v[shift..][0 := iovecs[0]];
    }
  }

  method CountWhole(iovecs: array<Iovec>, activeCount: nat, count: nat) returns (sent: nat, shift: nat)
    requires activeCount <= iovecs.Length && AllValid(iovecs[..activeCount]) && count <= |Left(iovecs[..activeCount])|
    ensures var v := iovecs[..activeCount];
      && shift <= activeCount && AllValid(v[shift..])
      && sent <= |Left(v[shift..])| && Left(v[shift..])[sent..] == Left(v)[count..]
      && (if shift < activeCount then sent < v[shift].len else sent == 0)
      && (sent == 0 ==> Left(v[shift..]) == Left(v)[count..])
  {
    ghost var v := iovecs[..activeCount];
    sent, shift := count, 0;
    assert v[0..] == v;
    while shift < activeCount && sent >= iovecs[shift].len
      invariant shift <= activeCount && AllValid(v[shift..]) && sent <= |Left(v[shift..])|
      invariant Left(v[shift..])[sent..] == Left(v)[count..]
    {
      LeftHead(v[shift..], sent);
      assert v[shift..][1..] == v[shift + 1..];
      sent := sent - iovecs[shift].len;
      shift := shift + 1;
    }
  }

  method MoveFront(iovecs: array<Iovec>, activeCount: nat, shift: nat)
    requires shift <= activeCount <= iovecs.Length
    modifies iovecs
    ensures iovecs[..activeCount - shift] == old(iovecs[shift..activeCount])
  {
    for index := shift to activeCount
      invariant forall k :: 0 <= k < index - shift ==> iovecs[k] == old(iovecs[shift + k])
      invariant forall k :: index <= k < activeCount ==> iovecs[k] == old(iovecs[k])
    {
      iovecs[index - shift] := iovecs[index];
    }
  }

  /** The non-empty parts, in order. */
  method Gather(iovecs: array<Iovec>, buffers: seq<bytes>) returns (activeCount: nat)
    requires iovecs.Length == |buffers| == 3
    modifies iovecs
    ensures activeCount <= 3 && AllValid(iovecs[..activeCount])
    ensures Left(iovecs[..activeCount]) == buffers[0] + buffers[1] + buffers[2]
  {
    hide Left, AllValid;
    activeCount := 0;
    ghost var whole: bytes := [];
    NothingLeft();
    for index := 0 to 3
      invariant activeCount <= index && AllValid(iovecs[..activeCount]) && Left(iovecs[..activeCount]) == whole
      invariant whole ==
        if index == 0 then [] else if index == 1 then buffers[0]
        else if index == 2 then buffers[0] + buffers[1] else buffers[0] + buffers[1] + buffers[2]
    {
      ghost var v := iovecs[..activeCount];
      if |buffers[index]| > 0 {
        var x := Iovec(buffers[index], 0, |buffers[index]|);
        LeftSnoc(v, x);
        iovecs[activeCount] := x;
        assert iovecs[..activeCount + 1] == v + [x];
        activeCount := activeCount + 1;
      }
      whole := whole + buffers[index];
    }
  }

  lemma NothingLeft()
    ensures AllValid([]) && Left([]) == []
  {
  }

  /** How many of `total` bytes the socket takes: an interrupted call is repeated, any other without progress ends
      it. */
  function Taken(total: nat, outcomes: seq<SendOutcome>): (n: nat)
    ensures n <= total
    decreases |outcomes|
  {
    if total == 0 || outcomes == [] then 0
    else
      match outcomes[0]
      case Interrupted => Taken(total, outcomes[1..])
      case Failed => 0
      case Wrote(count) =>
        var n := Min(count, total);
        if n == 0 then 0 else n + Taken(total - n, outcomes[1..])
  }

  /** No call fails or takes nothing. */
  predicate Flows(outcomes: seq<SendOutcome>) {
    forall i :: 0 <= i < |outcomes| ==> !outcomes[i].Failed? && (outcomes[i].Wrote? ==> outcomes[i].count > 0)
  }

  function Room(outcomes: seq<SendOutcome>): nat {
    if outcomes == [] then 0 else Room(outcomes[1..]) + if outcomes[0].Wrote? then outcomes[0].count else 0
  }

  lemma FlowsCons(outcomes: seq<SendOutcome>)
    requires outcomes != []
    ensures Flows(outcomes) <==>
      !outcomes[0].Failed? && (outcomes[0].Wrote? ==> outcomes[0].count > 0) && Flows(outcomes[1..])
  {
    assert forall i :: 0 < i < |outcomes| ==> outcomes[i] == outcomes[1..][i - 1];
  }

  lemma {:induction false} TakenMeans(total: nat, outcomes: seq<SendOutcome>) returns (n: nat)
    requires Taken(total, outcomes) == total
    ensures n <= |outcomes| && Flows(outcomes[..n]) && Room(outcomes[..n]) >= total
    decreases |outcomes|
  {
    n := 0;
    if total > 0 {
      var rest := outcomes[1..];
      match outcomes[0] {
        case Interrupted => n := TakenMeans(total, rest);
        case Wrote(count) => n := TakenMeans(total - Min(count, total), rest);
      }
      n := n + 1;
      assert outcomes[..n][0] == outcomes[0];
      assert outcomes[..n][1..] == rest[..n - 1];
      FlowsCons(outcomes[..n]);
    } else {
      assert outcomes[..0] == [];
    }
  }

  lemma {:induction false} TakenWhen(total: nat, outcomes: seq<SendOutcome>, n: nat)
    requires n <= |outcomes| && Flows(outcomes[..n]) && Room(outcomes[..n]) >= total
    ensures Taken(total, outcomes) == total
    decreases |outcomes|
  {
    if total > 0 {
      var rest := outcomes[1..];
      assert outcomes[..n][0] == outcomes[0];
      assert outcomes[..n][1..] == rest[..n - 1];
      FlowsCons(outcomes[..n]);
      match outcomes[0]
      case Interrupted => TakenWhen(total, rest, n - 1);
      case Wrote(count) => TakenWhen(total - Min(count, total), rest, n - 1);
    }
  }

  /** All is sent exactly when, before any call fails or takes nothing, the calls have room for it. */
  lemma SendsExactly(total: nat, outcomes: seq<SendOutcome>)
    ensures Taken(total, outcomes) == total <==>
      exists n: nat :: n <= |outcomes| && Flows(outcomes[..n]) && Room(outcomes[..n]) >= total
  {
    hide Taken, Flows, Room;
    if Taken(total, outcomes) == total {
      var _ := TakenMeans(total, outcomes);
    }
    if n: nat :| n <= |outcomes| && Flows(outcomes[..n]) && Room(outcomes[..n]) >= total {
      TakenWhen(total, outcomes, n);
    }
  }

  /** Hands the three parts to the socket until all is taken. `wire` is what the socket took; the outcomes end
      when the session stops. */
  method SendMessageParts(header: bytes, metadata: bytes, payload: bytes, outcomes: seq<SendOutcome>)
    returns (ok: bool, wire: bytes)
    ensures wire <= header + metadata + payload && (ok <==> wire == header + metadata + payload)
    ensures |wire| == Taken(|header| + |metadata| + |payload|, outcomes)
  {
    hide Left, AllValid, Taken;
    var iovecs := new Iovec[3](_ => Iovec([], 0, 0));
    var activeCount := Gather(iovecs, [header, metadata, payload]);
    ghost var whole := header + metadata + payload;
    wire := [];
    var calls := 0;
    NothingLeft();
    assert outcomes[0..] == outcomes;
    while activeCount > 0 && calls < |outcomes|
      invariant activeCount <= 3 && 0 <= calls <= |outcomes| && AllValid(iovecs[..activeCount])
      invariant wire + Left(iovecs[..activeCount]) == whole
      invariant |wire| + Taken(|Left(iovecs[..activeCount])|, outcomes[calls..]) == Taken(|whole|, outcomes)
      decreases |outcomes| - calls
    {
      var outcome := outcomes[calls];
      LeftSome(iovecs[..activeCount]);
      TakenNext(|Left(iovecs[..activeCount])|, outcomes, calls);
      calls := calls + 1;
      var pending := Pending(iovecs, activeCount);
      match outcome
      case Interrupted =>
      case Failed => return false, wire;
      case Wrote(count) =>
        var taken := Min(count, |pending|);
        if taken == 0 {
          return false, wire;
        }
        wire := wire + pending[..taken];
        activeCount := Advance(iovecs, activeCount, taken);
    }
    if activeCount > 0 {
      LeftSome(iovecs[..activeCount]);
    }
    assert iovecs[..0] == [];
    TakenNothing(|Left(iovecs[..activeCount])|, outcomes, calls);
    ok := activeCount == 0;
  }

  lemma TakenNext(total: nat, outcomes: seq<SendOutcome>, calls: nat)
    requires calls < |outcomes| && total > 0
    ensures Taken(total, outcomes[calls..]) ==
      match outcomes[calls]
      case Interrupted => Taken(total, outcomes[calls + 1..])
      case Failed => 0
      case Wrote(count) =>
        if count == 0 then 0 else Min(count, total) + Taken(total - Min(count, total), outcomes[calls + 1..])
  {
    assert outcomes[calls..][1..] == outcomes[calls + 1..];
  }

  lemma TakenNothing(total: nat, outcomes: seq<SendOutcome>, calls: nat)
    requires calls <= |outcomes| && (total == 0 || calls == |outcomes|)
    ensures Taken(total, outcomes[calls..]) == 0
  {
  }

  lemma LeftSome(v: seq<Iovec>)
    requires AllValid(v) && v != []
    ensures Left(v) != []
  {
  }

  /** What the socket sees of the vectors. */
  method Pending(iovecs: array<Iovec>, activeCount: nat) returns (pending: bytes)
    requires activeCount <= iovecs.Length && AllValid(iovecs[..activeCount])
    ensures pending == Left(iovecs[..activeCount])
  {
    hide Left;
    pending := [];
    NothingLeft();
    for index := 0 to activeCount
      invariant AllValid(iovecs[..index]) && pending == Left(iovecs[..index])
    {
      LeftSnoc(iovecs[..index], iovecs[index]);
      assert iovecs[..index] + [iovecs[index]] == iovecs[..index + 1];
      pending := pending + iovecs[index].Region();
    }
  }

  // ----- a frame

  function MetadataOf(frame: EncodedFrame, sendTimestamp: nat): FrameDiagnosticMetadata {
    FrameDiagnosticMetadata(frame.sequence, frame.capture, frame.encodeStart, frame.encodeEnd, sendTimestamp)
  }

  function PayloadLength(frame: EncodedFrame, embedMetadata: bool): nat {
    (if embedMetadata then METADATA_SIZE else 0) + |frame.payload|
  }

  function HeaderOf(frame: EncodedFrame, embedMetadata: bool): MessageHeader {
    MessageHeader(MAGIC, AV_STREAM, frame.frameType % U16, PayloadLength(frame, embedMetadata) % U32)
  }

  /** A frame on the wire. */
  function FrameBytes(frame: EncodedFrame, embedMetadata: bool, sendTimestamp: nat): bytes {
    EncodeMessageHeader(HeaderOf(frame, embedMetadata))
    + (if embedMetadata then EncodeMetadata(MetadataOf(frame, sendTimestamp)) else [])
    + frame.payload
  }

  /** Succeeds exactly when the whole frame is on the wire; otherwise a beginning of it is, and the session ends. */
  method SendFrame(frame: EncodedFrame, embedMetadata: bool, sendTimestamp: nat, outcomes: seq<SendOutcome>)
    returns (ok: bool, wire: bytes)
    ensures wire <= FrameBytes(frame, embedMetadata, sendTimestamp)
    ensures ok <==> wire == FrameBytes(frame, embedMetadata, sendTimestamp)
    ensures |wire| == Taken(|FrameBytes(frame, embedMetadata, sendTimestamp)|, outcomes)
  {
    hide EncodeMessageHeader, EncodeMetadata;
    var header := MessageHeader(MAGIC, AV_STREAM, frame.frameType % U16, 0);
    var metadata := [];
    if embedMetadata {
      metadata := EncodeMetadata(MetadataOf(frame, sendTimestamp));
      header := header.(payloadLength := (METADATA_SIZE + |frame.payload|) % U32);
    } else {
      header := header.(payloadLength := |frame.payload| % U32);
    }
    ok, wire := SendMessageParts(EncodeMessageHeader(header), metadata, frame.payload, outcomes);
  }
}
