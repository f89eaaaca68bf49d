/** Byte strings, the integer codecs of the wire formats, and zero-padded XOR. */
module Bytes {

  newtype byte = b: int | 0 <= b < 256
  type bytes = seq<byte>

  const U16: nat := 0x1_0000
  type u16 = n: nat | n < U16

  const U32: nat := 0x1_0000_0000
  const U64: nat := 0x1_0000_0000_0000_0000

  const NS_PER_MS: nat := 1_000_000

  function Min(a: nat, b: nat): nat {
    if a <= b then a else b
  }

  function Max(a: nat, b: nat): nat {
    if a >= b then a else b
  }

  lemma {:induction false} MulMonotone(i: nat, j: nat, c: nat)
    requires i <= j
    ensures i * c <= j * c
    decreases j - i
  {
    if i < j {
      MulMonotone(i + 1, j, c);
      MulStep(i, c);
    }
  }

  lemma MulStep(i: nat, c: nat)
    ensures (i + 1) * c == i * c + c
  {
  }

  // ----- integers on the wire

  function Pow256(width: nat): (p: nat)
    ensures p >= 1
  {
    if width == 0 then 1 else 256 * Pow256(width - 1)
  }

  lemma Pow256Values()
    ensures Pow256(1) == 0x100 && Pow256(2) == U16 && Pow256(4) == U32 && Pow256(8) == U64
  {
    assert Pow256(3) == 0x100_0000;
    assert Pow256(5) == 0x100_0000_0000;
    assert Pow256(6) == 0x1_0000_0000_0000;
    assert Pow256(7) == 0x100_0000_0000_0000;
  }

  /** What a C++ cast to `std::uint8_t` leaves of `v`. */
  function LowByte(v: nat): byte {
    (v % 256) as byte
  }

  /** `width` bytes of `v`, least significant first (the packed structs of the UDP and TCP protocol). */
  function LittleEndian(v: nat, width: nat): (s: bytes)
    ensures |s| == width
  {
    if width == 0 then [] else [LowByte(v)] + LittleEndian(v / 256, width - 1)
  }

  function FromLittleEndian(s: bytes): nat {
    if s == [] then 0 else s[0] as nat + 256 * FromLittleEndian(s[1..])
  }

  /** `width` bytes of `v`, most significant first (network order, used by RTP). */
  function BigEndian(v: nat, width: nat): (s: bytes)
    ensures |s| == width
  {
    if width == 0 then [] else BigEndian(v / 256, width - 1) + [LowByte(v)]
  }

  function FromBigEndian(s: bytes): nat {
    if s == [] then 0 else 256 * FromBigEndian(s[..|s| - 1]) + s[|s| - 1] as nat
  }

  lemma {:induction false} LittleEndianRoundTrip(v: nat, width: nat)
    requires v < Pow256(width)
    ensures FromLittleEndian(LittleEndian(v, width)) == v
  {
    if width > 0 {
      LittleEndianRoundTrip(v / 256, width - 1);
      assert LittleEndian(v, width)[1..] == LittleEndian(v / 256, width - 1);
    }
  }

  lemma {:induction false} BigEndianRoundTrip(v: nat, width: nat)
    requires v < Pow256(width)
    ensures FromBigEndian(BigEndian(v, width)) == v
  {
    if width > 0 {
      BigEndianRoundTrip(v / 256, width - 1);
      assert BigEndian(v, width)[..width - 1] == BigEndian(v / 256, width - 1);
    }
  }

  lemma {:induction false} FromLittleEndianBound(s: bytes)
    ensures FromLittleEndian(s) < Pow256(|s|)
  {
    if s != [] {
      FromLittleEndianBound(s[1..]);
    }
  }

  lemma {:induction false} FromBigEndianBound(s: bytes)
    ensures FromBigEndian(s) < Pow256(|s|)
  {
    if s != [] {
      FromBigEndianBound(s[..|s| - 1]);
    }
  }

  /** Byte `k` has the weight 256^k, counted from the front or from the back. */
  lemma {:induction false} LittleEndianDigit(v: nat, width: nat, k: nat)
    requires k < width
    ensures LittleEndian(v, width)[k] as nat == v / Pow256(k) % 256
  {
    if k > 0 {
      LittleEndianDigit(v / 256, width - 1, k - 1);
      DivTwice(v, 256, Pow256(k - 1));
    }
  }

  lemma {:induction false} BigEndianDigit(v: nat, width: nat, k: nat)
    requires k < width
    ensures BigEndian(v, width)[width - 1 - k] as nat == v / Pow256(k) % 256
  {
    if k > 0 {
      BigEndianDigit(v / 256, width - 1, k - 1);
      DivTwice(v, 256, Pow256(k - 1));
    }
  }

  lemma DivTwice(v: nat, b: nat, d: nat)
    requires b > 0 && d > 0
    ensures v / b / d == v / (b * d)
  {
    var w, s := v / b, v % b;
    var q, r := w / d, w % d;
    DivParts(v, b);
    DivParts(w, d);
    Regrouped(b, d, q, r);
    MulLess(b, r, d, s);
    assert v == b * d * q + (b * r + s);
    DivExact(b * d, q, b * r + s);
  }

  lemma DivParts(v: nat, b: nat)
    requires b > 0
    ensures v == b * (v / b) + v % b
  {
  }

  lemma Regrouped(b: nat, d: nat, q: nat, r: nat)
    ensures b * (d * q + r) == b * d * q + b * r
  {
  }

  lemma MulLess(b: nat, r: nat, d: nat, s: nat)
    requires r < d && s < b
    ensures b * r + s < b * d
  {
    MulMonotone(r + 1, d, b);
  }

  lemma ModExact(d: nat, q: nat, r: nat)
    requires r < d
    ensures (d * q + r) % d == r
  {
    DivExact(d, q, r);
    DivParts(d * q + r, d);
  }

  lemma DivExact(d: nat, q: nat, r: nat)
    requires r < d
    ensures (d * q + r) / d == q
  {
    var p := (d * q + r) / d;
    assert d * q + r == d * p + (d * q + r) % d;
    if p < q {
      MulMonotone(p + 1, q, d);
    } else if q < p {
      MulMonotone(q + 1, p, d);
    }
  }

  // ----- exclusive or

  function Pow2(n: nat): (p: nat)
    ensures p >= 1
  {
    if n == 0 then 1 else 2 * Pow2(n - 1)
  }

  function XorDigit(a: nat, b: nat): nat {
    if a % 2 == b % 2 then 0 else 1
  }

  /** The exclusive or of the `n` lowest binary digits of `a` and `b`. */
  function XorDigits(a: nat, b: nat, n: nat): (r: nat)
    ensures r < Pow2(n)
  {
    if n == 0 then 0 else XorDigit(a, b) + 2 * XorDigits(a / 2, b / 2, n - 1)
  }

  function XorByte(a: byte, b: byte): byte {
    assert Pow2(4) == 16 && Pow2(8) == 256;
    XorDigits(a as nat, b as nat, 8) as byte
  }

  lemma XorHalves(a: nat, b: nat, n: nat)
    requires n > 0
    ensures XorDigits(a, b, n) % 2 == XorDigit(a, b) && XorDigits(a, b, n) / 2 == XorDigits(a / 2, b / 2, n - 1)
  {
  }

  lemma {:induction false} XorDigitsLaws(a: nat, b: nat, n: nat)
    ensures XorDigits(a, b, n) == XorDigits(b, a, n)
    ensures XorDigits(a, a, n) == 0
    ensures a < Pow2(n) ==> XorDigits(a, 0, n) == a
  {
    if n > 0 {
      XorDigitsLaws(a / 2, b / 2, n - 1);
    }
  }

  lemma {:induction false} XorDigitsAssociate(a: nat, b: nat, c: nat, n: nat)
    ensures XorDigits(XorDigits(a, b, n), c, n) == XorDigits(a, XorDigits(b, c, n), n)
  {
    if n > 0 {
      XorDigitsAssociate(a / 2, b / 2, c / 2, n - 1);
      XorHalves(a, b, n);
      XorHalves(b, c, n);
      XorDigitAssociates(XorDigits(a, b, n), a, b, XorDigits(b, c, n), c);
    }
  }

  lemma XorDigitAssociates(x: nat, a: nat, b: nat, y: nat, c: nat)
    requires x % 2 == XorDigit(a, b) && y % 2 == XorDigit(b, c)
    ensures XorDigit(x, c) == XorDigit(a, y)
  {
  }

  lemma XorByteLaws(a: byte, b: byte, c: byte)
    ensures XorByte(a, b) == XorByte(b, a)
    ensures XorByte(XorByte(a, b), c) == XorByte(a, XorByte(b, c))
    ensures XorByte(a, a) == 0
    ensures XorByte(a, 0) == a
  {
    hide XorDigits;
    assert Pow2(4) == 16 && Pow2(8) == 256;
    XorDigitsLaws(a as nat, b as nat, 8);
    XorDigitsAssociate(a as nat, b as nat, c as nat, 8);
  }

  lemma DigitOfHalf(v: nat, k: nat)
    ensures k > 0 ==> v / Pow2(k) == v / 2 / Pow2(k - 1)
    ensures v / Pow2(0) == v
  {
    if k > 0 {
      DivTwice(v, 2, Pow2(k - 1));
    }
  }

  lemma {:induction false} XorDigitAt(a: nat, b: nat, n: nat, k: nat)
    requires k < n
    ensures XorDigits(a, b, n) / Pow2(k) % 2 == if a / Pow2(k) % 2 == b / Pow2(k) % 2 then 0 else 1
  {
    hide XorDigits, Pow2;
    XorHalves(a, b, n);
    DigitOfHalf(a, k);
    DigitOfHalf(b, k);
    DigitOfHalf(XorDigits(a, b, n), k);
    if k > 0 {
      XorDigitAt(a / 2, b / 2, n - 1, k - 1);
    }
  }

  /** Each bit of the exclusive or is set exactly when the two bits differ. */
  lemma XorByteBits(a: byte, b: byte, k: nat)
    requires k < 8
    ensures XorByte(a, b) as nat / Pow2(k) % 2 == if a as nat / Pow2(k) % 2 == b as nat / Pow2(k) % 2 then 0 else 1
  {
    hide XorDigits, Pow2;
    XorDigitAt(a as nat, b as nat, 8, k);
  }

  /** Byte `j` of `s`, or 0 past its end. */
  function At(s: bytes, j: nat): byte {
    if j < |s| then s[j] else 0
  }

  /** The XOR of two byte strings, the shorter one padded with zeros. */
  function Xor(a: bytes, b: bytes): (r: bytes)
    ensures |r| == Max(|a|, |b|)
  {
    seq(Max(|a|, |b|), j requires 0 <= j => XorByte(At(a, j), At(b, j)))
  }

  lemma XorAt(a: bytes, b: bytes, j: nat)
    ensures At(Xor(a, b), j) == XorByte(At(a, j), At(b, j))
  {
    XorByteLaws(0, 0, 0);
  }

  /** `target[i] ^= source[i]`, growing `target` with zeros first when it is the shorter one. */
  method XorInto(target: bytes, source: bytes) returns (result: bytes)
    ensures result == Xor(target, source)
  {
    result := target;
    if |result| < |source| {
      result := result + seq(|source| - |result|, _ => 0 as byte);
    }
    for index := 0 to |source|
      invariant |result| == Max(|target|, |source|)
      invariant forall j :: 0 <= j < index ==> result[j] == XorByte(At(target, j), At(source, j))
      invariant forall j :: index <= j < |result| ==> result[j] == At(target, j)
    {
      result := result[index := XorByte(result[index], source[index])];
    }
    forall j | |source| <= j < |result|
      ensures result[j] == XorByte(At(target, j), At(source, j))
    {
      XorByteLaws(result[j], 0, 0);
    }
  }

  // ----- copying

  /** `s` with the bytes from `at` on replaced by `t`. */
  function Spliced(s: bytes, at: nat, t: bytes): (r: bytes)
    requires at + |t| <= |s|
    ensures |r| == |s|
  {
    s[..at] + t + s[at + |t|..]
  }

  /** `memcpy` or `std::copy` of `source` to `at`. */
  method CopyInto(buffer: array<byte>, at: nat, source: bytes)
    requires at + |source| <= buffer.Length
    modifies buffer
    ensures buffer[..] == Spliced(old(buffer[..]), at, source)
  {
    for i := 0 to |source|
      invariant forall k :: 0 <= k < i ==> buffer[at + k] == source[k]
      invariant forall k :: 0 <= k < buffer.Length && !(at <= k < at + i) ==> buffer[k] == old(buffer[k])
    {
      buffer[at + i] := source[i];
    }
  }

  /** A buffer that held `before` and whose first bytes are now `done`. */
  ghost predicate Filled(now: bytes, before: bytes, done: bytes) {
    |done| <= |before| && now == done + before[|done|..]
  }

  lemma FilledFurther(now: bytes, before: bytes, done: bytes, more: bytes)
    requires Filled(now, before, done) && |done| + |more| <= |before|
    ensures |now| == |before| && Filled(Spliced(now, |done|, more), before, done + more)
  {
    assert (done + more) + before[|done| + |more|..] == done + more + now[|done| + |more|..];
  }

  lemma FilledNothing(before: bytes)
    ensures Filled(before, before, [])
  {
  }

  lemma FilledBeginning(now: bytes, before: bytes, done: bytes)
    requires Filled(now, before, done)
    ensures |now| == |before| && now[..|done|] == done
  {
  }

  lemma FilledWhole(now: bytes, before: bytes, done: bytes)
    requires Filled(now, before, done) && |done| == |before|
    ensures now == done
  {
  }
}
