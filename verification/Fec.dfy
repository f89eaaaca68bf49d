/** Tilings of a frame payload into fragments, the XOR parity of a tiling, and what the parity recovers. */
module Fec {
  import opened Bytes

  // ----- tilings

  /** `cuts[i]..cuts[i + 1]` is the range of fragment `i`; together the ranges cover `0..length` in order. */
  ghost predicate Tiling(cuts: seq<nat>, length: nat) {
    && |cuts| >= 2
    && cuts[0] == 0
    && cuts[|cuts| - 1] == length
    && (forall i, j :: 0 <= i <= j < |cuts| ==> cuts[i] <= cuts[j])
  }

  ghost predicate NonEmptyFragments(cuts: seq<nat>) {
    forall i, j :: 0 <= i < j < |cuts| ==> cuts[i] < cuts[j]
  }

  ghost function Fragment(payload: bytes, cuts: seq<nat>, i: nat): (f: bytes)
    requires Tiling(cuts, |payload|) && i + 1 < |cuts|
    ensures |f| == cuts[i + 1] - cuts[i]
  {
    payload[cuts[i]..cuts[i + 1]]
  }

  /** Fragments `from .. to`. */
  ghost function Fragments(payload: bytes, cuts: seq<nat>, from: nat, to: nat): (fs: seq<bytes>)
    requires Tiling(cuts, |payload|) && from <= to < |cuts|
    ensures |fs| == to - from
  {
    seq(to - from, k requires 0 <= k < to - from => Fragment(payload, cuts, from + k))
  }

  /** Every position of a tiled payload lies in one of its fragments. */
  lemma {:induction false} FragmentHolding(cuts: seq<nat>, length: nat, position: nat) returns (i: nat)
    requires Tiling(cuts, length) && position < length
    ensures i + 1 < |cuts| && cuts[i] <= position < cuts[i + 1]
  {
    i := 0;
    while cuts[i + 1] <= position
      invariant i + 1 < |cuts| && cuts[i] <= position
      decreases |cuts| - i
    {
      i := i + 1;
    }
  }

  /** Two payloads that agree on every fragment of a tiling are equal. */
  lemma AgreeOnFragments(a: bytes, b: bytes, cuts: seq<nat>)
    requires |a| == |b| && Tiling(cuts, |a|)
    requires forall i: nat :: i + 1 < |cuts| ==> Fragment(a, cuts, i) == Fragment(b, cuts, i)
    ensures a == b
  {
    forall p | 0 <= p < |a|
      ensures a[p] == b[p]
    {
      var i := FragmentHolding(cuts, |a|, p);
      assert Fragment(a, cuts, i)[p - cuts[i]] == Fragment(b, cuts, i)[p - cuts[i]];
    }
  }

  /** Writing one fragment leaves every other fragment as it was. */
  lemma SplicedFragment(payload: bytes, cuts: seq<nat>, i: nat, data: bytes)
    requires Tiling(cuts, |payload|) && i + 1 < |cuts| && |data| == cuts[i + 1] - cuts[i]
    ensures var p := Spliced(payload, cuts[i], data);
      && Fragment(p, cuts, i) == data
      && forall k: nat :: k + 1 < |cuts| && k != i ==> Fragment(p, cuts, k) == Fragment(payload, cuts, k)
  {
    var p := Spliced(payload, cuts[i], data);
    forall k: nat | k + 1 < |cuts| && k != i
      ensures Fragment(p, cuts, k) == Fragment(payload, cuts, k)
    {
      assert if k < i then cuts[k + 1] <= cuts[i] else cuts[i + 1] <= cuts[k];
      forall q | cuts[k] <= q < cuts[k + 1]
        ensures p[q] == payload[q]
      {
      }
    }
  }

  // ----- the XOR of several fragments

  /** `start` with every string of `fs` XORed into it, in order. */
  function XorFold(start: bytes, fs: seq<bytes>): (r: bytes)
    ensures |r| >= |start|
  {
    if fs == [] then start else Xor(XorFold(start, fs[..|fs| - 1]), fs[|fs| - 1])
  }

  /** Byte `j` of the XOR of all of `fs`. */
  function XorAllAt(fs: seq<bytes>, j: nat): byte {
    if fs == [] then 0 else XorByte(XorAllAt(fs[..|fs| - 1], j), At(fs[|fs| - 1], j))
  }

  lemma {:induction false} XorFoldAt(start: bytes, fs: seq<bytes>, j: nat)
    ensures At(XorFold(start, fs), j) == XorByte(At(start, j), XorAllAt(fs, j))
  {
    if fs == [] {
      XorByteLaws(At(start, j), 0, 0);
    } else {
      var init, last := fs[..|fs| - 1], fs[|fs| - 1];
      XorFoldAt(start, init, j);
      XorAt(XorFold(start, init), last, j);
      XorByteLaws(At(start, j), XorAllAt(init, j), At(last, j));
    }
  }

  lemma {:induction false} XorAllAtConcat(a: seq<bytes>, b: seq<bytes>, j: nat)
    ensures XorAllAt(a + b, j) == XorByte(XorAllAt(a, j), XorAllAt(b, j))
  {
    if b == [] {
      assert a + b == a;
      XorByteLaws(XorAllAt(a, j), 0, 0);
    } else {
      assert (a + b)[..|a + b| - 1] == a + b[..|b| - 1];
      XorAllAtConcat(a, b[..|b| - 1], j);
      XorByteLaws(XorAllAt(a, j), XorAllAt(b[..|b| - 1], j), At(b[|b| - 1], j));
    }
  }

  /** The longest fragment bounds the length of the fold. */
  lemma {:induction false} XorFoldLength(start: bytes, fs: seq<bytes>)
    ensures forall k :: 0 <= k < |fs| ==> |fs[k]| <= |XorFold(start, fs)|
  {
    if fs != [] {
      XorFoldLength(start, fs[..|fs| - 1]);
    }
  }

  /** What the sender's fold over all fragments yields. */
  ghost function Parity(payload: bytes, cuts: seq<nat>): (p: bytes)
    requires Tiling(cuts, |payload|)
  {
    XorFold([], Fragments(payload, cuts, 0, |cuts| - 1))
  }

  /** XORing every fragment but one out of the parity leaves that one, zero-padded. */
  lemma ParityRecovers(payload: bytes, cuts: seq<nat>, missing: nat)
    requires Tiling(cuts, |payload|) && missing + 1 < |cuts|
    ensures var others := Fragments(payload, cuts, 0, missing) + Fragments(payload, cuts, missing + 1, |cuts| - 1);
      var lost := Fragment(payload, cuts, missing);
      var found := XorFold(Parity(payload, cuts), others);
      |lost| <= |Parity(payload, cuts)| <= |found| && found[..|lost|] == lost
  {
    var before := Fragments(payload, cuts, 0, missing);
    var after := Fragments(payload, cuts, missing + 1, |cuts| - 1);
    var lost := Fragment(payload, cuts, missing);
    var all := Fragments(payload, cuts, 0, |cuts| - 1);
    var parity := Parity(payload, cuts);
    var found := XorFold(parity, before + after);
    assert all == before + [lost] + after;
    XorFoldLength([], all);
    assert all[missing] == lost;
    forall j | 0 <= j < |lost|
      ensures found[j] == lost[j]
    {
      RecoveredByte(before, lost, after, j);
    }
  }

  lemma RecoveredByte(before: seq<bytes>, lost: bytes, after: seq<bytes>, j: nat)
    ensures At(XorFold(XorFold([], before + [lost] + after), before + after), j) == At(lost, j)
  {
    var all := before + [lost] + after;
    var b, l, a := XorAllAt(before, j), At(lost, j), XorAllAt(after, j);
    XorFoldAt([], all, j);
    XorFoldAt(XorFold([], all), before + after, j);
    XorAllAtConcat(before + [lost], after, j);
    assert (before + [lost])[..|before|] == before;
    XorAllAtConcat(before, after, j);
    assert XorByte(0, XorByte(XorByte(b, l), a)) == XorByte(XorByte(b, l), a) by {
      XorByteLaws(0, XorByte(XorByte(b, l), a), 0);
      XorByteLaws(XorByte(XorByte(b, l), a), 0, 0);
    }
    XorCancel(b, l, a);
  }

  lemma XorCancel(b: byte, l: byte, a: byte)
    ensures XorByte(XorByte(XorByte(b, l), a), XorByte(b, a)) == l
  {
    var ba := XorByte(b, a);
    XorByteLaws(b, l, 0);              // b^l == l^b
    XorByteLaws(l, b, a);              // (l^b)^a == l^(b^a)
    XorByteLaws(l, ba, ba);            // (l^ba)^ba == l^(ba^ba)
    XorByteLaws(ba, 0, 0);
    XorByteLaws(l, 0, 0);
  }
}
