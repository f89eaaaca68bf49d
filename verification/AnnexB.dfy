/** Annex B byte streams (Annex B of ITU-T H.264): splitting into NAL units, joining, and the client's IDR scan. */
module AnnexB {
  import opened Bytes

  const IDR: nat := 5

  function NalType(nal: bytes): nat {
    if nal == [] then 0 else nal[0] as nat % 32
  }

  // ----- what a byte stream contains

  /** The three bytes 00 00 01 stand at `q`. */
  predicate StartAt(d: bytes, q: nat) {
    q + 3 <= |d| && d[q] == 0 && d[q + 1] == 0 && d[q + 2] == 1
  }

  /** The first start code at or after `from`, or the length when there is none. */
  function NextStart(d: bytes, from: nat): (q: nat)
    requires from <= |d|
    ensures from <= q <= |d| && (q < |d| ==> StartAt(d, q))
    decreases |d| - from
  {
    if from == |d| || StartAt(d, from) then from else NextStart(d, from + 1)
  }

  lemma {:induction false} NextStartIsFirst(d: bytes, from: nat)
    requires from <= |d|
    ensures forall k :: from <= k < NextStart(d, from) ==> !StartAt(d, k)
    ensures forall k :: k >= from && StartAt(d, k) ==> NextStart(d, from) <= k
    decreases |d| - from
  {
    if from < |d| && !StartAt(d, from) {
      NextStartIsFirst(d, from + 1);
    }
  }

  /** Without the zero bytes at its end. */
  function Trimmed(s: bytes): (t: bytes)
    ensures t <= s && (t != [] ==> t[|t| - 1] != 0)
  {
    if s != [] && s[|s| - 1] == 0 then Trimmed(s[..|s| - 1]) else s
  }

  /** The NAL units from the byte after a start code on: what lies between one start code and the next,
      without trailing zeros, unless nothing is left of it. */
  function NalusFrom(d: bytes, from: nat): seq<bytes>
    requires from <= |d|
    decreases |d| - from
  {
    var next := NextStart(d, from);
    var nal := Trimmed(d[from..next]);
    (if nal == [] then [] else [nal]) + (if next < |d| then NalusFrom(d, next + 3) else [])
  }

  function Nalus(d: bytes): seq<bytes> {
    var first := NextStart(d, 0);
    if first < |d| then NalusFrom(d, first + 3) else []
  }

  // ----- the server's splitter

  /** A view of `size` bytes at `offset` of the stream. */
  datatype NaluView = NaluView(offset: nat, size: nat)

  ghost predicate InStream(d: bytes, views: seq<NaluView>) {
    forall i :: 0 <= i < |views| ==> views[i].offset + views[i].size <= |d|
  }

  ghost function Contents(d: bytes, views: seq<NaluView>): seq<bytes>
    requires InStream(d, views)
  {
    seq(|views|, i requires 0 <= i < |views| => d[views[i].offset..views[i].offset + views[i].size])
  }

  /** Scans for 00 00 01 or 00 00 00 01. The start code found ends where the first 00 00 01 ends. */
  method FindAnnexBStartCode(d: bytes, offset: nat) returns (index: nat, prefixSize: nat)
    requires offset <= |d|
    ensures offset <= index <= index + prefixSize <= |d| && (index < |d| ==> prefixSize > 0)
    ensures var q := NextStart(d, offset);
      if q == |d| then index == |d| && prefixSize == 0
      else index + prefixSize == q + 3 && index == if q > offset && d[q - 1] == 0 then q - 1 else q
  {
    NextStartIsFirst(d, offset);
    index := offset;
    while index + 3 <= |d|
      invariant offset <= index <= |d|
      invariant NextStart(d, offset) >= index
      invariant index > offset && d[index - 1] == 0 ==> NextStart(d, offset) != index
    {
      if d[index] != 0 || d[index + 1] != 0 {
        index := index + 1;
        continue;
      }
      if d[index + 2] == 1 {
        assert StartAt(d, index);
        return index, 3;
      }
      if index + 4 <= |d| && d[index + 2] == 0 && d[index + 3] == 1 {
        assert StartAt(d, index + 1);
        return index, 4;
      }
      index := index + 1;
    }
    return |d|, 0;
  }

  /** What is split so far, and what the rest of the stream from the start code at `start` holds. */
  ghost predicate SplitSoFar(d: bytes, output: seq<NaluView>, start: nat, startCodeSize: nat) {
    && start + startCodeSize <= |d| && InStream(d, output)
    && Nalus(d) == Contents(d, output) + if start < |d| then NalusFrom(d, start + startCodeSize) else []
  }

  method SplitAnnexBNalus(d: bytes) returns (output: seq<NaluView>)
    ensures InStream(d, output) && Contents(d, output) == Nalus(d)
  {
    hide *;
    output := [];
    var start, startCodeSize := FindAnnexBStartCode(d, 0);
    SplitStarts(d, start, startCodeSize);
    while start < |d|
      invariant start + startCodeSize <= |d| && (start < |d| ==> startCodeSize > 0)
      invariant SplitSoFar(d, output, start, startCodeSize)
      decreases |d| - start
    {
      var payloadStart := start + startCodeSize;
      var payloadEnd, next, nextStartCodeSize := NextNalu(d, payloadStart);
      SplitGoesOn(d, output, start, startCodeSize, payloadEnd, next, nextStartCodeSize);
      if payloadEnd > payloadStart {
        output := output + [NaluView(payloadStart, payloadEnd - payloadStart)];
      }
      start, startCodeSize := next, nextStartCodeSize;
    }
    SplitEnds(d, output, start, startCodeSize);
  }

  lemma SplitStarts(d: bytes, start: nat, startCodeSize: nat)
    requires start + startCodeSize <= |d|
    requires NextStart(d, 0) == if start < |d| then start + startCodeSize - 3 else |d|
    ensures SplitSoFar(d, [], start, startCodeSize)
  {
    hide NalusFrom, NextStart, Contents, InStream;
    ContentsEmpty(d);
    ConcatAssociates([], Nalus(d), []);
  }

  lemma ContentsEmpty(d: bytes)
    ensures InStream(d, []) && Contents(d, []) == []
  {
  }

  lemma SplitEnds(d: bytes, output: seq<NaluView>, start: nat, startCodeSize: nat)
    requires SplitSoFar(d, output, start, startCodeSize) && start >= |d|
    ensures InStream(d, output) && Contents(d, output) == Nalus(d)
  {
    hide NalusFrom, NextStart, Nalus, Contents;
  }

  lemma SplitGoesOn(d: bytes, output: seq<NaluView>, start: nat, startCodeSize: nat, payloadEnd: nat, next: nat,
      nextStartCodeSize: nat)
    requires SplitSoFar(d, output, start, startCodeSize) && start < |d|
    requires start + startCodeSize <= payloadEnd <= next <= next + nextStartCodeSize <= |d|
    requires FirstNal(d, start + startCodeSize)
             == if payloadEnd > start + startCodeSize then [d[start + startCodeSize..payloadEnd]] else []
    requires OtherNals(d, start + startCodeSize) == if next < |d| then NalusFrom(d, next + nextStartCodeSize) else []
    ensures var payloadStart := start + startCodeSize;
      SplitSoFar(d,
        if payloadEnd > payloadStart then output + [NaluView(payloadStart, payloadEnd - payloadStart)] else output,
                 next, nextStartCodeSize)
  {
    hide NalusFrom, NextStart, Nalus, Contents, InStream, FirstNal, OtherNals;
    var payloadStart := start + startCodeSize;
    NalusFromUnfold(d, payloadStart);
    ConcatAssociates(Contents(d, output), FirstNal(d, payloadStart), OtherNals(d, payloadStart));
    if payloadEnd > payloadStart {
      ContentsSnoc(d, output, NaluView(payloadStart, payloadEnd - payloadStart));
    }
  }

  /** The body of the loop: the NAL unit from `payloadStart` on, and the start code after it. */
  method NextNalu(d: bytes, payloadStart: nat) returns (payloadEnd: nat, next: nat, nextStartCodeSize: nat)
    requires payloadStart <= |d|
    ensures payloadStart <= payloadEnd <= next <= next + nextStartCodeSize <= |d|
    ensures next < |d| ==> nextStartCodeSize > 0
    ensures FirstNal(d, payloadStart) == if payloadEnd > payloadStart then [d[payloadStart..payloadEnd]] else []
    ensures OtherNals(d, payloadStart) == if next < |d| then NalusFrom(d, next + nextStartCodeSize) else []
  {
    hide NalusFrom, NextStart, Trimmed;
    next, nextStartCodeSize := FindAnnexBStartCode(d, payloadStart);
    TrimExtraZero(d, payloadStart, next, NextStart(d, payloadStart));
    payloadEnd := TrimZeros(d, payloadStart, next);
  }

  lemma ContentsSnoc(d: bytes, views: seq<NaluView>, v: NaluView)
    requires InStream(d, views) && v.offset + v.size <= |d|
    ensures InStream(d, views + [v])
    ensures Contents(d, views + [v]) == Contents(d, views) + [d[v.offset..v.offset + v.size]]
  {
  }

  /** The inner loop of `SplitAnnexBNalus`: `end` moved back over zero bytes. */
  method TrimZeros(d: bytes, from: nat, next: nat) returns (end: nat)
    requires from <= next <= |d|
    ensures from <= end <= next && d[from..end] == Trimmed(d[from..next])
  {
    hide Trimmed;
    end := next;
    while end > from && d[end - 1] == 0
      invariant from <= end <= next
      invariant Trimmed(d[from..end]) == Trimmed(d[from..next])
    {
      TrimExtraZero(d, from, end - 1, end);
      end := end - 1;
    }
    NothingToTrim(d[from..end]);
  }

  lemma NothingToTrim(s: bytes)
    requires s != [] ==> s[|s| - 1] != 0
    ensures Trimmed(s) == s
  {
  }

  /** The first NAL unit of the split, unless nothing is left of it, and the others. */
  ghost function FirstNal(d: bytes, from: nat): seq<bytes>
    requires from <= |d|
  {
    var nal := Trimmed(d[from..NextStart(d, from)]);
    if nal == [] then [] else [nal]
  }

  ghost function OtherNals(d: bytes, from: nat): seq<bytes>
    requires from <= |d|
  {
    var next := NextStart(d, from);
    if next < |d| then NalusFrom(d, next + 3) else []
  }

  lemma NalusFromUnfold(d: bytes, from: nat)
    requires from <= |d|
    ensures NalusFrom(d, from) == FirstNal(d, from) + OtherNals(d, from)
  {
  }

  lemma ConcatAssociates(a: seq<bytes>, b: seq<bytes>, c: seq<bytes>)
    ensures a + (b + c) == (a + b) + c && a + [] == a && [] + b == b
  {
  }

  /** The zero byte of a four-byte start code is trimmed like any other. */
  lemma TrimExtraZero(d: bytes, from: nat, end: nat, next: nat)
    requires from <= end <= next <= |d| && (end == next || (end == next - 1 && d[end] == 0))
    ensures Trimmed(d[from..end]) == Trimmed(d[from..next])
  {
    if end < next {
      assert d[from..next][..next - 1 - from] == d[from..end];
    }
  }

  // ----- the split by positions

  /** From `from` on, up to `next`, there are only zero bytes. */
  predicate ZerosTo(d: bytes, from: nat, next: nat) {
    from <= next <= |d| && forall k :: from <= k < next ==> d[k] == 0
  }

  /** `next` is the next position at or after `from` where 00 00 01 stands, or the end. */
  predicate FirstCode(d: bytes, from: nat, next: nat) {
    && from <= next <= |d|
    && (next < |d| ==> next + 3 <= |d| && d[next] == 0 && d[next + 1] == 0 && d[next + 2] == 1)
    && forall k :: from <= k < next ==> !StartAt(d, k)
  }

  /** `nal` is what stands from `p` on, up to the next start code, without the zeros before that. */
  ghost predicate NalAt(d: bytes, p: nat, nal: bytes) {
    && p + |nal| <= |d| && nal == d[p..p + |nal|]
    && (nal != [] ==> nal[|nal| - 1] != 0)
    && exists next :: FirstCode(d, p, next) && ZerosTo(d, p + |nal|, next)
  }

  /** The NAL units of `nals`, and no others, stand behind the start codes from `from` on, in the order of `starts`:
      behind a start code that is not listed there is nothing. */
  ghost predicate SplitAt(d: bytes, from: nat, nals: seq<bytes>, starts: seq<nat>) {
    Lists(d, from, nals, starts) && NothingElse(d, from, starts)
  }

  ghost predicate Lists(d: bytes, from: nat, nals: seq<bytes>, starts: seq<nat>) {
    && |starts| == |nals|
    && (forall i, j :: 0 <= i < j < |starts| ==> starts[i] < starts[j])
    && (forall i :: 0 <= i < |starts| ==>
          from <= starts[i] && StartAt(d, starts[i]) && nals[i] != [] && NalAt(d, starts[i] + 3, nals[i]))
  }

  ghost predicate NothingElse(d: bytes, from: nat, starts: seq<nat>) {
    forall q: nat :: from <= q && StartAt(d, q) && q !in starts ==> NalAt(d, q + 3, [])
  }

  lemma NextStartMeans(d: bytes, from: nat)
    requires from <= |d|
    ensures FirstCode(d, from, NextStart(d, from))
  {
    hide NextStart;
    NextStartIsFirst(d, from);
  }

  lemma {:induction false} TrimmedMeans(s: bytes)
    ensures var t := Trimmed(s); t <= s && ZerosTo(s, |t|, |s|)
  {
    if s != [] && s[|s| - 1] == 0 {
      TrimmedMeans(s[..|s| - 1]);
    }
  }

  lemma FirstNalAt(d: bytes, q: nat)
    requires StartAt(d, q)
    ensures NalAt(d, q + 3, Trimmed(d[q + 3..NextStart(d, q + 3)]))
  {
    var next := NextStart(d, q + 3);
    var s := d[q + 3..next];
    NextStartMeans(d, q + 3);
    TrimmedMeans(s);
    var t := Trimmed(s);
    assert ZerosTo(d, q + 3 + |t|, next) by {
      forall k | q + 3 + |t| <= k < next
        ensures d[k] == 0
      {
        assert s[k - q - 3] == d[k];
      }
    }
  }

  /** Start codes do not overlap. */
  lemma NoneBetween(d: bytes, p: nat, q: nat)
    requires StartAt(d, p) && StartAt(d, q) && p < q
    ensures p + 3 <= q
  {
  }

  /** No start code but the one at `q` lies before `next`. */
  ghost predicate Alone(d: bytes, q: nat, next: nat) {
    q < next && StartAt(d, q) && forall p: nat :: q < p < next ==> !StartAt(d, p)
  }

  lemma ListsOneMore(d: bytes, q: nat, next: nat, nal: bytes, rest: seq<bytes>, others: seq<nat>)
    requires q < next && StartAt(d, q) && nal != [] && NalAt(d, q + 3, nal) && Lists(d, next, rest, others)
    ensures Lists(d, q, [nal] + rest, [q] + others)
  {
    hide NalAt, StartAt;
    var nals, starts := [nal] + rest, [q] + others;
    forall i | 0 <= i < |starts|
      ensures q <= starts[i] && StartAt(d, starts[i]) && nals[i] != [] && NalAt(d, starts[i] + 3, nals[i])
    {
      if i > 0 {
        assert starts[i] == others[i - 1] && nals[i] == rest[i - 1];
      }
    }
  }

  lemma ListsEarlier(d: bytes, q: nat, next: nat, nals: seq<bytes>, starts: seq<nat>)
    requires q <= next && Lists(d, next, nals, starts)
    ensures Lists(d, q, nals, starts)
  {
    hide NalAt, StartAt;
  }

  lemma NothingElseBefore(d: bytes, q: nat, next: nat, others: seq<nat>)
    requires Alone(d, q, next) && NothingElse(d, next, others)
    ensures NothingElse(d, q, [q] + others)
    ensures NalAt(d, q + 3, []) ==> NothingElse(d, q, others)
  {
    hide NalAt, StartAt;
    var starts := [q] + others;
    assert starts[0] == q;
    assert forall i :: 0 <= i < |others| ==> others[i] == starts[i + 1];
  }

  lemma SplitOn(d: bytes, q: nat, next: nat, rest: seq<bytes>, others: seq<nat>) returns (starts: seq<nat>)
    requires StartAt(d, q) && next == NextStart(d, q + 3)
    requires SplitAt(d, next, rest, others)
    ensures var nal := Trimmed(d[q + 3..next]); SplitAt(d, q, (if nal == [] then [] else [nal]) + rest, starts)
  {
    hide NalAt, Trimmed, NextStart, Lists, NothingElse;
    var nal := Trimmed(d[q + 3..next]);
    FirstNalAt(d, q);
    NextStartIsFirst(d, q + 3);
    assert Alone(d, q, next) by {
      forall p: nat | q < p < next
        ensures !StartAt(d, p)
      {
        if StartAt(d, p) {
          NoneBetween(d, q, p);
        }
      }
    }
    NothingElseBefore(d, q, next, others);
    if nal == [] {
      assert [] + rest == rest;
      ListsEarlier(d, q, next, rest, others);
      starts := others;
    } else {
      ListsOneMore(d, q, next, nal, rest, others);
      starts := [q] + others;
    }
  }

  lemma {:induction false} NalusFromSplit(d: bytes, q: nat) returns (starts: seq<nat>)
    requires StartAt(d, q)
    ensures SplitAt(d, q, NalusFrom(d, q + 3), starts)
    decreases |d| - q
  {
    hide NalAt, Trimmed, NextStart, NalusFrom, SplitAt;
    var next := NextStart(d, q + 3);
    NalusFromUnfold(d, q + 3);
    if next < |d| {
      starts := NalusFromSplit(d, next);
    } else {
      NothingSplit(d, next);
      starts := [];
    }
    starts := SplitOn(d, q, next, OtherNals(d, q + 3), starts);
  }

  lemma NothingSplit(d: bytes, from: nat)
    requires forall q: nat :: from <= q ==> !StartAt(d, q)
    ensures SplitAt(d, from, [], [])
  {
    hide NalAt;
  }

  /** For every byte string: the NAL units found are exactly what stands between the start codes 00 00 01, in order,
      each without the zeros before the next start code; what comes before the first start code is ignored. */
  lemma {:induction false} SplitExactly(d: bytes) returns (starts: seq<nat>)
    ensures SplitAt(d, 0, Nalus(d), starts)
  {
    hide NalAt, NextStart, NalusFrom, SplitAt;
    var first := NextStart(d, 0);
    NextStartIsFirst(d, 0);
    if first < |d| {
      starts := NalusFromSplit(d, first);
      SplitEarlier(d, first, Nalus(d), starts);
    } else {
      NothingSplit(d, 0);
      starts := [];
    }
  }

  lemma SplitEarlier(d: bytes, first: nat, nals: seq<bytes>, starts: seq<nat>)
    requires SplitAt(d, first, nals, starts) && forall q: nat :: q < first ==> !StartAt(d, q)
    ensures SplitAt(d, 0, nals, starts)
  {
    hide NalAt;
  }

  // ----- properties of the NAL units

  ghost predicate StartFree(nal: bytes) {
    forall q: nat :: !StartAt(nal, q)
  }

  /** Not empty, without 00 00 01, and not ending in a zero byte. */
  ghost predicate WellFormedNal(nal: bytes) {
    nal != [] && StartFree(nal) && nal[|nal| - 1] != 0
  }

  lemma {:induction false} NalusFromWellFormed(d: bytes, from: nat)
    requires from <= |d|
    ensures forall nal :: nal in NalusFrom(d, from) ==> WellFormedNal(nal)
    decreases |d| - from
  {
    hide NextStart, Trimmed, NalusFrom, StartFree;
    var next := NextStart(d, from);
    NextStartIsFirst(d, from);
    TrimmedStartFree(d, from, next);
    NalusFromUnfold(d, from);
    if next < |d| {
      NalusFromWellFormed(d, next + 3);
    }
    forall nal | nal in NalusFrom(d, from)
      ensures WellFormedNal(nal)
    {
      assert nal in FirstNal(d, from) || nal in OtherNals(d, from);
    }
  }

  lemma StartWithin(d: bytes, from: nat, s: bytes, q: nat)
    requires from <= |d| && s <= d[from..] && StartAt(s, q)
    ensures StartAt(d, from + q)
  {
    assert forall i :: q <= i < q + 3 ==> s[i] == d[from..][i];
  }

  lemma TrimmedStartFree(d: bytes, from: nat, next: nat)
    requires from <= next <= |d| && forall k :: from <= k < next ==> !StartAt(d, k)
    ensures StartFree(Trimmed(d[from..next]))
  {
    hide Trimmed;
    var nal := Trimmed(d[from..next]);
    forall q: nat
      ensures !StartAt(nal, q)
    {
      if StartAt(nal, q) {
        assert nal <= d[from..];
        StartWithin(d, from, nal, q);
      }
    }
  }

  /** Every NAL unit the splitter finds is well formed, whatever the bytes. */
  lemma NalusWellFormed(d: bytes)
    ensures forall nal :: nal in Nalus(d) ==> WellFormedNal(nal)
  {
    var first := NextStart(d, 0);
    if first < |d| {
      NalusFromWellFormed(d, first + 3);
    }
  }

  // ----- joining

  const START_CODE: bytes := [0, 0, 0, 1]

  /** The NAL units, each after a four-byte start code. */
  function Join(nals: seq<bytes>): bytes {
    if nals == [] then [] else START_CODE + nals[0] + Join(nals[1..])
  }

  lemma {:induction false} JoinConcat(a: seq<bytes>, b: seq<bytes>)
    ensures Join(a + b) == Join(a) + Join(b)
  {
    if a == [] {
      assert a + b == b;
    } else {
      JoinConcat(a[1..], b);
      assert (a + b)[1..] == a[1..] + b;
    }
  }

  /** `AppendAnnexBNalu` of both sides: a start code and the bytes, unless there are none. */
  method AppendAnnexBNalu(data: bytes, output: bytes) returns (r: bytes)
    ensures r == output + (if data == [] then [] else Join([data]))
  {
    r := output;
    if |data| == 0 {
      return;
    }
    r := AppendAnnexBStartCode(r);
    r := r + data;
    assert Join([data]) == START_CODE + data + [];
  }

  method AppendAnnexBStartCode(output: bytes) returns (r: bytes)
    ensures r == output + START_CODE
  {
    r := output + [0];
    r := r + [0];
    r := r + [0];
    r := r + [1];
  }

  /** No start code begins within a NAL unit or at its end: not inside it, not across its last byte, which is not
      zero, and not at the first zero byte of the four-byte start code after it. */
  lemma NoStartAt(d: bytes, p: nat, nal: bytes, rest: seq<bytes>, q: nat)
    requires p <= |d| && d[p..] == nal + Join(rest) && WellFormedNal(nal)
    requires p <= q < p + |nal| + 1 && q < |d|
    ensures !StartAt(d, q)
  {
    var tail := d[p..];
    if q + 3 <= p + |nal| {
      assert !StartAt(nal, q - p);
      assert d[q] == tail[q - p] && d[q + 1] == tail[q - p + 1] && d[q + 2] == tail[q - p + 2];
    } else if q < p + |nal| {
      assert d[p + |nal| - 1] == tail[|nal| - 1] == nal[|nal| - 1];
    } else if q + 3 <= |d| {
      assert d[q + 2] == tail[|nal| + 2] == Join(rest)[2];
    }
  }

  lemma NoStartIn(d: bytes, p: nat, nal: bytes, rest: seq<bytes>)
    requires p <= |d| && d[p..] == nal + Join(rest) && WellFormedNal(nal)
    ensures NextStart(d, p) == if rest == [] then |d| else p + |nal| + 1
  {
    var tail := d[p..];
    NextStartIsFirst(d, p);
    forall q | p <= q < p + |nal| + 1 && q < |d|
      ensures !StartAt(d, q)
    {
      NoStartAt(d, p, nal, rest, q);
    }
    if rest != [] {
      assert Join(rest)[..4] == START_CODE;
      assert tail[|nal|..|nal| + 4] == START_CODE;
      assert StartAt(d, p + |nal| + 1);
    }
  }

  /** The stream from a NAL unit on: the unit, the first zero byte after it, and the rest after its start code. */
  lemma JoinTail(d: bytes, p: nat, nal: bytes, rest: seq<bytes>)
    requires p <= |d| && d[p..] == nal + Join(rest)
    ensures if rest == [] then d[p..|d|] == nal
            else var next := p + |nal| + 1;
              next + 3 <= |d| && d[p..next] == nal + [0] && d[next + 3..] == rest[0] + Join(rest[1..])
  {
    if rest != [] {
      hide Join;
      var next, after := p + |nal| + 1, rest[0] + Join(rest[1..]);
      JoinStarts(rest);
      DropTwice(d, p, |nal| + 1);
      DropTwice(d, p, |nal| + 4);
      HeadOf(nal, [0], [0, 0, 1] + after);
      HeadOf(nal, START_CODE, after);
      assert d[p..next] == d[p..][..|nal| + 1];
    }
  }

  lemma JoinStarts(nals: seq<bytes>)
    requires nals != []
    ensures Join(nals) == START_CODE + (nals[0] + Join(nals[1..]))
    ensures Join(nals) == [0] + ([0, 0, 1] + (nals[0] + Join(nals[1..])))
  {
    Regroup(START_CODE, nals[0], Join(nals[1..]));
    assert START_CODE == [0] + [0, 0, 1];
    Regroup([0], [0, 0, 1], nals[0] + Join(nals[1..]));
  }

  lemma Regroup(a: bytes, b: bytes, c: bytes)
    ensures (a + b) + c == a + (b + c)
  {
  }

  lemma DropTwice(d: bytes, p: nat, n: nat)
    requires p + n <= |d|
    ensures d[p..][n..] == d[p + n..]
  {
  }

  lemma HeadOf(a: bytes, b: bytes, c: bytes)
    ensures (a + (b + c))[..|a| + |b|] == a + b && (a + (b + c))[|a| + |b|..] == c
  {
  }

  lemma {:induction false} SplitJoinFrom(d: bytes, p: nat, nal: bytes, rest: seq<bytes>)
    requires p <= |d| && d[p..] == nal + Join(rest) && WellFormedNal(nal)
    requires forall n :: n in rest ==> WellFormedNal(n)
    ensures NalusFrom(d, p) == [nal] + rest
    decreases |rest|
  {
    hide NextStart, Trimmed, NalusFrom, WellFormedNal, Join;
    NoStartIn(d, p, nal, rest);
    NalusFromUnfold(d, p);
    TrimmedNal(nal);
    JoinTail(d, p, nal, rest);
    if rest != [] {
      var next := p + |nal| + 1;
      SplitJoinFrom(d, next + 3, rest[0], rest[1..]);
      assert rest == [rest[0]] + rest[1..];
    }
  }

  lemma TrimmedNal(nal: bytes)
    requires WellFormedNal(nal)
    ensures nal != [] && Trimmed(nal) == nal && Trimmed(nal + [0]) == nal
  {
    assert (nal + [0])[..|nal|] == nal;
  }

  /** Splitting the join of well-formed NAL units gives them back. */
  lemma {:induction false} SplitJoin(nals: seq<bytes>)
    requires forall n :: n in nals ==> WellFormedNal(n)
    ensures Nalus(Join(nals)) == nals
  {
    hide NalusFrom, WellFormedNal;
    var d := Join(nals);
    if nals != [] {
      assert d == START_CODE + (nals[0] + Join(nals[1..]));
      assert StartAt(d, 1) && !StartAt(d, 0);
      NextStartIsFirst(d, 0);
      assert NextStart(d, 0) == 1;
      assert d[4..] == nals[0] + Join(nals[1..]);
      SplitJoinFrom(d, 4, nals[0], nals[1..]);
    }
  }

  /** Re-joining what was split and splitting again changes nothing, for every byte string. */
  lemma {:induction false} SplitIsStable(d: bytes)
    ensures Nalus(Join(Nalus(d))) == Nalus(d)
  {
    NalusWellFormed(d);
    SplitJoin(Nalus(d));
  }

  // ----- the client's IDR scan

  /** A start code followed by a NAL header byte of type 5. */
  predicate IdrAt(d: bytes, q: nat) {
    StartAt(d, q) && q + 3 < |d| && d[q + 3] as nat % 32 == IDR
  }

  method HasIdrNalUnit(d: bytes) returns (found: bool)
    ensures found <==> exists nal :: nal in Nalus(d) && NalType(nal) == IDR
    ensures found <==> exists nal :: nal in Nalus(d) && nal != [] && nal[0] as nat % 32 == 5
  {
    IdrScanAgrees(d);
    hide Nalus;
    assert forall nal: bytes :: NalType(nal) == IDR <==> nal != [] && nal[0] as nat % 32 == 5;
    if |d| < 4 {
      assert forall q: nat :: !IdrAt(d, q);
      return false;
    }
    var i := 0;
    while i + 3 < |d|
      invariant 0 <= i && forall q: nat :: q < i ==> !IdrAt(d, q)
    {
      if d[i] == 0 && d[i + 1] == 0 {
        var nalOffset := 0;
        if d[i + 2] == 1 {
          nalOffset := i + 3;
        } else if i + 4 < |d| && d[i + 2] == 0 && d[i + 3] == 1 {
          nalOffset := i + 4;
        } else {
          i := i + 1;
          continue;
        }
        if nalOffset < |d| {
          if d[nalOffset] as nat % 32 == IDR {
            assert IdrAt(d, nalOffset - 3);
            return true;
          }
        }
      }
      i := i + 1;
    }
    assert forall q: nat :: IdrAt(d, q) ==> q + 3 < |d|;
    return false;
  }

  /** After the start code at `q`, the split goes on with the NAL unit that carries the IDR type. */
  lemma IdrFirst(d: bytes, q: nat)
    requires IdrAt(d, q)
    ensures NalusFrom(d, q + 3) != [] && NalType(NalusFrom(d, q + 3)[0]) == IDR
  {
    hide Trimmed;
    var after := NextStart(d, q + 3);
    assert d[q + 3] != 0 && !StartAt(d, q + 3) && after > q + 3;
    var nal := Trimmed(d[q + 3..after]);
    assert d[q + 3..after][0] == d[q + 3];
    TrimmedKeepsHead(d[q + 3..after]);
  }

  lemma {:induction false} TrimmedKeepsHead(s: bytes)
    requires s != [] && s[0] != 0
    ensures Trimmed(s) != [] && Trimmed(s)[0] == s[0]
  {
    if s[|s| - 1] == 0 {
      TrimmedKeepsHead(s[..|s| - 1]);
    }
  }

  lemma {:induction false} IdrFound(d: bytes, from: nat, q: nat)
    requires from <= q && IdrAt(d, q)
    ensures exists nal :: nal in NalusFrom(d, from) && NalType(nal) == IDR
    decreases |d| - from
  {
    hide Trimmed, NalusFrom, NextStart, NalType;
    var next := NextStart(d, from);
    NextStartIsFirst(d, from);
    var rest := NalusFrom(d, next + 3);
    NalusFromUnfold(d, from);
    if q == next {
      IdrFirst(d, q);
      assert rest[0] in rest;
    } else {
      StartsDoNotOverlap(d, next, q);
      IdrFound(d, next + 3, q);
    }
    var nal :| nal in rest && NalType(nal) == IDR;
    assert nal in NalusFrom(d, from);
  }

  lemma StartsDoNotOverlap(d: bytes, p: nat, q: nat)
    requires StartAt(d, p) && StartAt(d, q) && p < q
    ensures p + 3 <= q
  {
  }

  lemma {:induction false} IdrSource(d: bytes, from: nat, nal: bytes)
    requires 3 <= from <= |d| && StartAt(d, from - 3) && nal in NalusFrom(d, from) && NalType(nal) == IDR
    ensures exists q: nat :: IdrAt(d, q)
    decreases |d| - from
  {
    hide Trimmed, NalusFrom, NextStart;
    var next := NextStart(d, from);
    var here := Trimmed(d[from..next]);
    NalusFromUnfold(d, from);
    if nal == here {
      assert here[0] == d[from..next][0] == d[from];
      assert IdrAt(d, from - 3);
    } else {
      IdrSource(d, next + 3, nal);
    }
  }

  /** The client's scan and the server's splitter agree on whether a stream holds an IDR picture. */
  lemma {:induction false} IdrScanAgrees(d: bytes)
    ensures (exists q: nat :: IdrAt(d, q)) <==> exists nal :: nal in Nalus(d) && NalType(nal) == IDR
  {
    hide NalusFrom, NextStart, NalType;
    var first := NextStart(d, 0);
    NextStartIsFirst(d, 0);
    if q: nat :| IdrAt(d, q) {
      if q == first {
        IdrFirst(d, q);
        assert NalusFrom(d, first + 3)[0] in Nalus(d);
      } else {
        StartsDoNotOverlap(d, first, q);
        IdrFound(d, first + 3, q);
      }
    }
    if nal :| nal in Nalus(d) && NalType(nal) == IDR {
      IdrSource(d, first + 3, nal);
    }
  }
}
