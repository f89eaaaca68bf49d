/** XOR recovery in an assembly, for any tiling of a frame into fragments. */
module UdpRecovery {
  import opened Bytes
  import opened Protocol
  import opened Fec
  import opened UdpClientState
  import opened UdpClientSpec

  /** Slot `i` of the assembly holds fragment `i` of the frame. */
  ghost predicate SlotHolds(payload: bytes, cuts: seq<nat>, a: Assembly, i: nat)
    requires Tiling(cuts, |payload|) && a.WellFormed() && i + 1 < |cuts| == |a.received| + 1 && |a.payload| == |payload|
  {
    && a.offsets[i] == cuts[i]
    && a.sizes[i] == cuts[i + 1] - cuts[i]
    && Fec.Fragment(a.payload, cuts, i) == Fec.Fragment(payload, cuts, i)
  }

  /** The assembly has the frame's layout, and every received slot holds its fragment. */
  ghost predicate Holds(payload: bytes, cuts: seq<nat>, a: Assembly)
    requires Tiling(cuts, |payload|) && a.WellFormed()
  {
    && |a.received| + 1 == |cuts|
    && |a.payload| == |payload|
    && forall i: nat :: i < |a.received| && a.received[i] ==> SlotHolds(payload, cuts, a, i)
  }

  /** Every slot but `missing` is received and holds its fragment. */
  ghost predicate AllBut(payload: bytes, cuts: seq<nat>, a: Assembly, missing: nat)
    requires Tiling(cuts, |payload|) && a.WellFormed()
  {
    && Holds(payload, cuts, a)
    && missing < |a.received|
    && forall i: nat :: i < |a.received| ==> a.received[i] == (i != missing)
  }

  lemma SlotSlice(payload: bytes, cuts: seq<nat>, a: Assembly, i: nat)
    requires Tiling(cuts, |payload|) && a.WellFormed() && Holds(payload, cuts, a) && i < |a.received| && a.received[i]
    ensures a.offsets[i] == cuts[i] && a.offsets[i] + a.sizes[i] == cuts[i + 1] <= |a.payload|
    ensures a.payload[a.offsets[i]..a.offsets[i] + a.sizes[i]] == Fec.Fragment(payload, cuts, i)
  {
    hide CountTrue;
    assert SlotHolds(payload, cuts, a, i);
  }

  // ----- writing one slot

  /** Writing fragment `k` into its range fills slot `k` and disturbs no other. */
  lemma SplicedFillsSlot(payload: bytes, cuts: seq<nat>, a: Assembly, r: Assembly, k: nat)
    requires Tiling(cuts, |payload|) && a.WellFormed() && r.WellFormed() && Holds(payload, cuts, a)
    requires k < |a.received| == |r.received|
    requires r.payload == Spliced(a.payload, cuts[k], Fec.Fragment(payload, cuts, k))
    requires r.received == a.received[k := true]
    requires r.offsets == a.offsets[k := cuts[k]] && r.sizes == a.sizes[k := cuts[k + 1] - cuts[k]]
    ensures Holds(payload, cuts, r)
  {
    hide CountTrue, Spliced;
    SplicedFragment(a.payload, cuts, k, Fec.Fragment(payload, cuts, k));
    forall i: nat | i < |r.received| && r.received[i]
      ensures SlotHolds(payload, cuts, r, i)
    {
      if i != k {
        assert SlotHolds(payload, cuts, a, i);
      }
    }
  }

  // ----- the one missing slot

  /** All fragments with an index below `k`, but for the missing one. */
  ghost function FragmentsBut(payload: bytes, cuts: seq<nat>, missing: nat, k: nat): seq<bytes>
    requires Tiling(cuts, |payload|) && missing + 1 < |cuts| && k < |cuts|
  {
    if k <= missing then Fragments(payload, cuts, 0, k)
    else Fragments(payload, cuts, 0, missing) + Fragments(payload, cuts, missing + 1, k)
  }

  lemma FragmentsButStep(payload: bytes, cuts: seq<nat>, missing: nat, k: nat)
    requires Tiling(cuts, |payload|) && missing + 1 < |cuts| && k + 1 < |cuts|
    ensures FragmentsBut(payload, cuts, missing, 0) == []
    ensures FragmentsBut(payload, cuts, missing, k + 1) ==
      if k == missing then FragmentsBut(payload, cuts, missing, k)
      else FragmentsBut(payload, cuts, missing, k) + [Fec.Fragment(payload, cuts, k)]
  {
    if k < missing {
      assert Fragments(payload, cuts, 0, k + 1) == Fragments(payload, cuts, 0, k) + [Fec.Fragment(payload, cuts, k)];
    } else if k == missing {
      assert Fragments(payload, cuts, missing + 1, k + 1) == [];
    } else {
      assert Fragments(payload, cuts, missing + 1, k + 1) ==
        Fragments(payload, cuts, missing + 1, k) + [Fec.Fragment(payload, cuts, k)];
    }
  }

  lemma SlicesStayInRange(payload: bytes, cuts: seq<nat>, a: Assembly, k: nat)
    requires Tiling(cuts, |payload|) && a.WellFormed() && Holds(payload, cuts, a) && k <= |a.received|
    ensures SlicesInRange(a, k)
  {
    hide CountTrue, Holds;
    forall i: nat | i < k && a.received[i]
      ensures a.offsets[i] + a.sizes[i] <= |a.payload|
    {
      SlotSlice(payload, cuts, a, i);
    }
  }

  lemma {:induction false} SlicesAreFragments(payload: bytes, cuts: seq<nat>, a: Assembly, missing: nat, k: nat)
    requires Tiling(cuts, |payload|) && a.WellFormed() && AllBut(payload, cuts, a, missing) && k <= |a.received|
    ensures SlicesInRange(a, k) && ReceivedSlices(a, k) == FragmentsBut(payload, cuts, missing, k)
  {
    hide CountTrue, SlotHolds, FragmentsBut;
    SlicesStayInRange(payload, cuts, a, k);
    if k == 0 {
      FragmentsButStep(payload, cuts, missing, 0);
    } else {
      SlicesAreFragments(payload, cuts, a, missing, k - 1);
      FragmentsButStep(payload, cuts, missing, k - 1);
      if k - 1 != missing {
        SlotSlice(payload, cuts, a, k - 1);
      }
    }
  }

  /** The range inferred for the one missing fragment is its true range. */
  lemma InferredRange(payload: bytes, cuts: seq<nat>, a: Assembly, missing: nat)
    requires Tiling(cuts, |payload|) && |payload| < U32 && a.WellFormed() && AllBut(payload, cuts, a, missing)
    ensures InferredOffset(a, missing) == cuts[missing]
    ensures InferredSize(a, missing) == Some(cuts[missing + 1] - cuts[missing])
  {
    hide CountTrue, SlotHolds;
    if missing > 0 {
      SlotSlice(payload, cuts, a, missing - 1);
    }
    if missing + 1 < |a.received| {
      SlotSlice(payload, cuts, a, missing + 1);
    }
  }

  lemma OneMissing(flags: seq<bool>)
    ensures |Missing(flags)| == 1 ==>
      var k := Missing(flags)[0]; k < |flags| && forall i: nat :: i < |flags| ==> flags[i] == (i != k)
  {
    hide Missing;
    if |Missing(flags)| == 1 {
      var m := Missing(flags);
      MissingIsExact(flags);
      assert m[0] in m;
      forall i: nat | i < |flags| && !flags[i]
        ensures i == m[0]
      {
        assert i in m;
      }
    }
  }

  lemma ParityLongEnough(payload: bytes, cuts: seq<nat>, i: nat)
    requires Tiling(cuts, |payload|) && i + 1 < |cuts|
    ensures cuts[i + 1] - cuts[i] <= |Parity(payload, cuts)|
  {
    ParityRecovers(payload, cuts, i);
  }

  /** With the frame's parity at hand, an assembly is recoverable exactly when one fragment is missing and
      that fragment is not empty. */
  lemma RecoveryIsPossible(cfg: ClientConfig, payload: bytes, cuts: seq<nat>, a: Assembly)
    requires Tiling(cuts, |payload|) && |payload| < U32 && a.WellFormed() && Holds(payload, cuts, a)
    requires a.hasFec ==> a.fecPayload == Parity(payload, cuts)
    ensures Recoverable(cfg, a) <==>
      && cfg.fecEnabled && a.hasFec && a.fecTimestamp != 0
      && exists missing: nat :: AllBut(payload, cuts, a, missing) && cuts[missing] < cuts[missing + 1]
  {
    hide CountTrue, Missing, SlotHolds, SlicesInRange, Parity;
    OneMissing(a.received);
    if |Missing(a.received)| == 1 {
      var missing := Missing(a.received)[0];
      InferredRange(payload, cuts, a, missing);
      SlicesStayInRange(payload, cuts, a, |a.received|);
      ParityLongEnough(payload, cuts, missing);
      assert AllBut(payload, cuts, a, missing);
      forall other: nat | AllBut(payload, cuts, a, other)
        ensures other == missing
      {
        assert !a.received[other];
      }
    } else if missing: nat :| AllBut(payload, cuts, a, missing) {
      OnlyOneMissing(a.received, missing);
    }
  }

  lemma FirstTwo(m: seq<nat>)
    requires |m| > 1 && forall i, j :: 0 <= i < j < |m| ==> m[i] < m[j]
    ensures m[0] in m && m[1] in m && m[0] != m[1]
  {
  }

  lemma OnlyOneMissing(flags: seq<bool>, missing: nat)
    requires missing < |flags| && forall i: nat :: i < |flags| ==> flags[i] == (i != missing)
    ensures |Missing(flags)| == 1
  {
    hide Missing;
    var m := Missing(flags);
    MissingIsExact(flags);
    assert missing in m;
    if |m| > 1 {
      FirstTwo(m);
    }
  }

  /** On the arrays alone, whatever they hold: an assembly is recoverable exactly when there is a parity, one fragment
      is missing, its place between the ones around it is not empty and within payload and parity, and every other
      fragment is within the payload. Offsets and sizes are 32-bit numbers. */
  lemma RecoverableExactly(cfg: ClientConfig, a: Assembly)
    requires a.WellFormed()
    ensures Recoverable(cfg, a) <==>
      && cfg.fecEnabled && a.hasFec && a.fecTimestamp != 0
      && (forall i :: 0 <= i < |a.received| && a.received[i] ==> a.offsets[i] + a.sizes[i] <= |a.payload|)
      && exists k: nat :: MissingAlone(a, k) && PlaceFits(a, k)
  {
    hide CountTrue, Missing;
    OneMissing(a.received);
    if |Missing(a.received)| == 1 {
      var missing := Missing(a.received)[0];
      assert MissingAlone(a, missing);
      forall k: nat | MissingAlone(a, k)
        ensures k == missing
      {
        assert !a.received[k];
      }
    } else if k: nat :| MissingAlone(a, k) {
      OnlyOneMissing(a.received, k);
    }
  }

  ghost predicate MissingAlone(a: Assembly, k: nat) {
    k < |a.received| && forall i: nat :: i < |a.received| ==> a.received[i] == (i != k)
  }

  ghost predicate PlaceFits(a: Assembly, k: nat)
    requires a.WellFormed() && k < |a.received|
  {
    var start := if k == 0 then 0 else (a.offsets[k - 1] + a.sizes[k - 1]) % 0x1_0000_0000;
    var size :=
      if k + 1 < |a.received| then a.offsets[k + 1] - start
      else if start <= |a.payload| then (|a.payload| - start) % 0x1_0000_0000
      else 0;
    0 < size <= |a.fecPayload| && start + size <= |a.payload|
  }

  /** Recovery writes the lost bytes into their true range and changes nothing else: the payload is whole again. */
  lemma RecoveryIsExact(cfg: ClientConfig, payload: bytes, cuts: seq<nat>, a: Assembly)
    requires Tiling(cuts, |payload|) && |payload| < U32 && a.WellFormed() && Holds(payload, cuts, a)
    requires a.fecPayload == Parity(payload, cuts) && Recoverable(cfg, a)
    ensures var missing := Missing(a.received)[0];
      var r := Recovered(cfg, a);
      && missing < |a.received|
      && r.payload == Spliced(a.payload, cuts[missing], Fec.Fragment(payload, cuts, missing))
      && Holds(payload, cuts, r) && r.payload == payload
  {
    hide CountTrue, Missing, SlotHolds, SlicesInRange, Parity, Spliced, XorFold, ReceivedSlices, FragmentsBut,
        InferredOffset, InferredSize;
    OneMissing(a.received);
    var missing := Missing(a.received)[0];
    InferredRange(payload, cuts, a, missing);
    SlicesAreFragments(payload, cuts, a, missing, |a.received|);
    LostFragment(payload, cuts, missing);
    var r := Recovered(cfg, a);
    SplicedFillsSlot(payload, cuts, a, r, missing);
    CompleteIsWhole(payload, cuts, r);
  }

  lemma LostFragment(payload: bytes, cuts: seq<nat>, missing: nat)
    requires Tiling(cuts, |payload|) && missing + 1 < |cuts|
    ensures var lost := Fec.Fragment(payload, cuts, missing);
      var found := XorFold(Parity(payload, cuts), FragmentsBut(payload, cuts, missing, |cuts| - 1));
      |lost| <= |found| && found[..|lost|] == lost
  {
    ParityRecovers(payload, cuts, missing);
  }

  /** A complete assembly that holds fragments of the frame holds the frame. */
  lemma CompleteIsWhole(payload: bytes, cuts: seq<nat>, a: Assembly)
    requires Tiling(cuts, |payload|) && a.WellFormed() && Holds(payload, cuts, a) && a.Complete()
    ensures a.payload == payload
  {
    hide CountTrue;
    AllReceived(a.received);
    forall i: nat | i + 1 < |cuts|
      ensures Fec.Fragment(a.payload, cuts, i) == Fec.Fragment(payload, cuts, i)
    {
      assert SlotHolds(payload, cuts, a, i);
    }
    AgreeOnFragments(a.payload, payload, cuts);
  }
}
