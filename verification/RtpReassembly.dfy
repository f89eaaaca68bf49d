/** What the client's depacketizer makes of the payloads the server's packetizer sends. */
module RtpReassembly {
  import opened Bytes
  import opened AnnexB
  import opened RtpPacketizer
  import opened RtpReceiver

  /** The payloads handled one after the other. */
  function Fold(b: Body, payloads: seq<bytes>): Body
    decreases |payloads|
  {
    if payloads == [] then b else Fold(Depacketize(b, payloads[0]), payloads[1..])
  }

  lemma {:induction false} FoldConcat(b: Body, ps: seq<bytes>, qs: seq<bytes>)
    ensures Fold(b, ps + qs) == Fold(Fold(b, ps), qs)
    decreases |ps|
  {
    hide Depacketize;
    if ps == [] {
      assert ps + qs == qs;
    } else {
      FoldConcat(Depacketize(b, ps[0]), ps[1..], qs);
      assert (ps + qs)[1..] == ps[1..] + qs;
    }
  }

  lemma FoldOne(b: Body, p: bytes)
    ensures Fold(b, [p]) == Depacketize(b, p)
  {
    hide Depacketize;
  }

  /** Once damaged, a frame stays damaged. */
  lemma {:induction false} DamageStays(b: Body, ps: seq<bytes>)
    requires b.damaged
    ensures Fold(b, ps).damaged
    decreases |ps|
  {
    hide Depacketize;
    if ps != [] {
      DamageStaysOnce(b, ps[0]);
      DamageStays(Depacketize(b, ps[0]), ps[1..]);
    }
  }

  lemma DamageStaysOnce(b: Body, p: bytes)
    requires b.damaged
    ensures Depacketize(b, p).damaged
  {
  }

  // ----- one NAL unit

  lemma DepacketizeFu(nal: bytes, offset: nat, size: nat, b: Body)
    requires 1 <= offset && 0 < size && offset + size <= |nal|
    ensures var r := Depacketize(b, FuPayload(nal, offset, size)); var chunk := nal[offset..offset + size];
      if offset == 1 then r == Body(b.payload + START_CODE + [nal[0]] + chunk, b.damaged, offset + size != |nal|)
      else if b.fuInProgress then r == Body(b.payload + chunk, b.damaged, offset + size != |nal|)
      else r == b.Damage()
  {
    hide FuPayload, StartBit, EndBit;
    FuPayloadFields(nal, offset, size);
  }

  lemma {:induction false} FuRest(nal: bytes, capacity: nat, offset: nat, b: Body)
    requires capacity > 0 && 1 < offset < |nal| && b.fuInProgress
    ensures Fold(b, FuPayloads(nal, capacity, offset)) == Body(b.payload + nal[offset..], b.damaged, false)
    decreases |nal| - offset
  {
    hide Depacketize, FuPayload;
    var size := Min(capacity, |nal| - offset);
    var fu, rest := FuPayload(nal, offset, size), FuPayloads(nal, capacity, offset + size);
    DepacketizeFu(nal, offset, size, b);
    var next := Depacketize(b, fu);
    assert ([fu] + rest)[1..] == rest;
    if offset + size < |nal| {
      FuRest(nal, capacity, offset + size, next);
      assert nal[offset..] == nal[offset..offset + size] + nal[offset + size..];
      assert next.payload + nal[offset + size..] == b.payload + nal[offset..];
    } else {
      assert nal[offset..] == nal[offset..offset + size];
    }
  }

  /** The fragments of a NAL unit restore it, header byte included, whatever came before. */
  lemma FuWhole(nal: bytes, max: nat, b: Body)
    requires 2 < max < |nal|
    ensures Fold(b, FuPayloads(nal, max - 2, 1)) == Body(b.payload + START_CODE + nal, b.damaged, false)
  {
    hide Depacketize, FuPayload;
    var size := max - 2;
    var fu, rest := FuPayload(nal, 1, size), FuPayloads(nal, size, 1 + size);
    DepacketizeFu(nal, 1, size, b);
    var next := Depacketize(b, fu);
    assert ([fu] + rest)[1..] == rest;
    FuRest(nal, size, 1 + size, next);
    assert nal == [nal[0]] + nal[1..1 + size] + nal[1 + size..];
    assert next.payload + nal[1 + size..] == b.payload + START_CODE + nal;
  }

  /** A NAL unit sent whole must have one of the types 1 to 23; a fragmented one may have any. */
  predicate Carried(nal: bytes, max: nat) {
    |nal| <= max ==> 0 < NalType(nal) < 24
  }

  lemma CarriedNal(nal: bytes, max: nat, b: Body)
    requires max > 2 && nal != [] && Carried(nal, max)
    ensures Fold(b, NalPayloads(nal, max)) == Body(b.payload + START_CODE + nal, b.damaged, false)
  {
    if |nal| <= max {
      FoldOne(b, nal);
    } else {
      hide FuPayloads, Depacketize;
      FuWhole(nal, max, b);
    }
  }

  /** Any other NAL unit sent whole is noticed, or comes out shorter than it went in. */
  lemma UncarriedNal(nal: bytes, max: nat, b: Body)
    requires max > 2 && nal != [] && !Carried(nal, max)
    ensures var r := Fold(b, NalPayloads(nal, max)); r.damaged || |r.payload| < |b.payload| + 4 + |nal|
  {
    FoldOne(b, nal);
  }

  // ----- one frame

  ghost predicate AllCarried(nals: seq<bytes>, max: nat) {
    forall nal :: nal in nals ==> nal != [] && Carried(nal, max)
  }

  lemma {:induction false} CarriedNals(nals: seq<bytes>, max: nat, b: Body)
    requires max > 2 && AllCarried(nals, max)
    ensures Fold(b, Payloads(nals, max)) == Body(b.payload + Join(nals), b.damaged, nals == [] && b.fuInProgress)
  {
    hide Carried, NalPayloads, Fold, Join;
    if nals == [] {
      JoinedNothing(b.payload);
      FoldNothing(b);
    } else {
      JoinedOn(b.payload, nals);
      assert nals[0] in nals && forall nal :: nal in nals[1..] ==> nal in nals;
      CarriedNal(nals[0], max, b);
      var next := Fold(b, NalPayloads(nals[0], max));
      CarriedNals(nals[1..], max, next);
      FoldConcat(b, NalPayloads(nals[0], max), Payloads(nals[1..], max));
    }
  }

  lemma JoinedNothing(s: bytes)
    ensures s + Join([]) == s
  {
  }

  lemma JoinedOn(s: bytes, nals: seq<bytes>)
    requires nals != []
    ensures s + Join(nals) == s + START_CODE + nals[0] + Join(nals[1..])
  {
    assert s + (START_CODE + nals[0] + Join(nals[1..])) == s + START_CODE + nals[0] + Join(nals[1..]);
  }

  lemma FoldNothing(b: Body)
    ensures Fold(b, []) == b
  {
  }

  lemma {:induction false} NeverLonger(nals: seq<bytes>, max: nat, b: Body)
    requires max > 2 && forall nal :: nal in nals ==> nal != []
    ensures var r := Fold(b, Payloads(nals, max)); r.damaged || |r.payload| <= |b.payload| + |Join(nals)|
    ensures var r := Fold(b, Payloads(nals, max));
      !AllCarried(nals, max) ==> r.damaged || |r.payload| < |b.payload| + |Join(nals)|
  {
    hide Carried, NalPayloads, Fold;
    if nals == [] {
      FoldNothing(b);
    } else {
      assert nals[0] in nals && forall nal :: nal in nals[1..] ==> nal in nals;
      var next := Fold(b, NalPayloads(nals[0], max));
      FoldConcat(b, NalPayloads(nals[0], max), Payloads(nals[1..], max));
      if next.damaged {
        DamageStays(next, Payloads(nals[1..], max));
      } else {
        NeverLonger(nals[1..], max, next);
        if Carried(nals[0], max) {
          CarriedNal(nals[0], max, b);
        } else {
          UncarriedNal(nals[0], max, b);
        }
      }
    }
  }

  /** All payloads in order restore the frame's NAL units exactly when every NAL unit sent whole has a type from 1 to
      23. */
  lemma RestoredExactly(nals: seq<bytes>, max: nat)
    requires max > 2 && nals != [] && forall nal :: nal in nals ==> nal != []
    ensures var r := Fold(EMPTY_BODY, Payloads(nals, max));
      (!r.damaged && !r.fuInProgress && r.payload == Join(nals)) <==> AllCarried(nals, max)
  {
    hide Carried, Payloads, Fold;
    if AllCarried(nals, max) {
      CarriedNals(nals, max, EMPTY_BODY);
      assert [] + Join(nals) == Join(nals);
    } else {
      NeverLonger(nals, max, EMPTY_BODY);
    }
  }

  /** The payloads from some point on restore a suffix of the NAL units, when that point is where a NAL unit
      begins; otherwise the first of them, a fragment without its beginning, damages the frame. */
  lemma {:induction false} SuffixRestored(nals: seq<bytes>, max: nat, from: nat) returns (i: nat)
    requires max > 2 && AllCarried(nals, max) && from < |Payloads(nals, max)|
    ensures i < |nals|
    ensures var r := Fold(EMPTY_BODY, Payloads(nals, max)[from..]);
      !r.damaged ==> from == |Payloads(nals[..i], max)| && r == Body(Join(nals[i..]), false, false)
  {
    hide Carried, NalPayloads, Fold;
    assert nals[0] in nals && forall nal :: nal in nals[1..] ==> nal in nals;
    var here, rest := NalPayloads(nals[0], max), Payloads(nals[1..], max);
    var ps := Payloads(nals, max);
    if from >= |here| {
      var j := SuffixRestored(nals[1..], max, from - |here|);
      i := j + 1;
      assert ps[from..] == rest[from - |here|..];
      assert nals[..i][1..] == nals[1..][..j] && nals[i..] == nals[1..][j..];
    } else if from == 0 {
      i := 0;
      CarriedNals(nals, max, EMPTY_BODY);
      assert ps[0..] == ps && nals[0..] == nals && nals[..0] == [] && [] + Join(nals) == Join(nals);
    } else {
      i := 0;
      BrokenFragment(nals[0], max, from);
      assert ps[from] == here[from];
      FoldHead(EMPTY_BODY, ps[from..]);
      DamageStays(Depacketize(EMPTY_BODY, here[from]), ps[from..][1..]);
    }
  }

  lemma FoldHead(b: Body, ps: seq<bytes>)
    requires ps != []
    ensures Fold(b, ps) == Fold(Depacketize(b, ps[0]), ps[1..])
  {
    hide Depacketize;
  }

  lemma BrokenFragment(nal: bytes, max: nat, k: nat)
    requires max > 2 && 0 < k < |NalPayloads(nal, max)|
    ensures Depacketize(EMPTY_BODY, NalPayloads(nal, max)[k]).damaged
  {
    hide FuPayloads;
    FragmentsShape(nal, max);
  }
}
