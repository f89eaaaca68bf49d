/** YUYV 4:2:2 to planar I420: the vectorised conversion and the scalar one. */
module Yuyv {
  import opened Bytes

  const NEON_PIXELS: nat := 16

  // ----- the planes

  /** Where row `row` begins when every row takes `size` bytes. */
  function RowOffset(row: nat, size: nat): nat {
    row * size
  }

  /** The bytes of row `row`, two for each pixel. */
  function Line(src: bytes, width: nat, row: nat): (line: bytes)
    requires RowOffset(row + 1, 2 * width) <= |src|
    ensures |line| == 2 * width
  {
    RowFits(row, width);
    src[RowOffset(row, 2 * width)..RowOffset(row, 2 * width) + 2 * width]
  }

  lemma RowFits(row: nat, width: nat)
    ensures RowOffset(row + 1, 2 * width) == RowOffset(row, 2 * width) + 2 * width
  {
    MulStep(row, 2 * width);
  }

  /** Every other byte: the luma of `n` pixels. */
  function Luma(line: bytes, n: nat): (y: bytes)
    requires 2 * n <= |line|
    ensures |y| == n
  {
    seq(n, c requires 0 <= c < n => line[2 * c])
  }

  /** Every fourth byte from `shift` on, 1 for U and 3 for V: the chroma of `n` pixel pairs. */
  function Chroma(line: bytes, n: nat, shift: nat): (c: bytes)
    requires 4 * n <= |line| && shift < 4
    ensures |c| == n
  {
    seq(n, c requires 0 <= c < n => line[4 * c + shift])
  }

  /** The luma of the first `rows` rows, one after the other. */
  function LumaRows(src: bytes, width: nat, rows: nat): (y: bytes)
    requires RowOffset(rows, 2 * width) <= |src|
    ensures |y| == RowOffset(rows, width)
  {
    if rows == 0 then []
    else
      RowFits(rows - 1, width);
      LumaRows(src, width, rows - 1) + Luma(Line(src, width, rows - 1), width)
  }

  lemma RowInside(src: bytes, width: nat, height: nat, row: nat)
    requires RowOffset(height, 2 * width) <= |src| && row < height
    ensures RowOffset(row, 2 * width) + 2 * width == RowOffset(row + 1, 2 * width) <= |src|
  {
    MulMonotone(row + 1, height, 2 * width);
    MulStep(row, 2 * width);
  }

  /** Two rows share a line of chroma, taken from the upper one: the lines of the first `pairs` pairs. */
  function ChromaRows(src: bytes, width: nat, height: nat, pairs: nat, shift: nat): (c: bytes)
    requires RowOffset(height, 2 * width) <= |src| && pairs <= (height + 1) / 2 && width % 2 == 0 && shift < 4
    ensures |c| == RowOffset(pairs, width / 2)
  {
    if pairs == 0 then []
    else
      RowInside(src, width, height, 2 * (pairs - 1));
      ChromaRows(src, width, height, pairs - 1, shift) + Chroma(Line(src, width, 2 * (pairs - 1)), width / 2, shift)
  }

  /** Where each luma sample comes from. */
  lemma {:induction false} LumaAt(src: bytes, width: nat, rows: nat, row: nat, col: nat)
    requires RowOffset(rows, 2 * width) <= |src| && row < rows && col < width
    ensures RowOffset(row, width) + col < |LumaRows(src, width, rows)| && RowOffset(row, 2 * width) + 2 * col < |src|
    ensures LumaRows(src, width, rows)[RowOffset(row, width) + col] == src[RowOffset(row, 2 * width) + 2 * col]
  {
    hide Luma, Line;
    RowInside(src, width, rows, row);
    RowFits(rows - 1, width);
    var before := LumaRows(src, width, rows - 1);
    var y := LumaRows(src, width, rows);
    if row == rows - 1 {
      LumaOfLine(src, width, row, col);
      assert y[|before| + col] == Luma(Line(src, width, row), width)[col];
    } else {
      LumaAt(src, width, rows - 1, row, col);
    }
  }

  lemma LumaOfLine(src: bytes, width: nat, row: nat, col: nat)
    requires RowOffset(row + 1, 2 * width) <= |src| && col < width
    ensures RowOffset(row, 2 * width) + 2 * col < |src|
    ensures Luma(Line(src, width, row), width)[col] == src[RowOffset(row, 2 * width) + 2 * col]
  {
    RowFits(row, width);
  }

  /** Where each chroma sample comes from. */
  lemma {:induction false} ChromaAt(src: bytes, width: nat, height: nat, pairs: nat, shift: nat, pair: nat, col: nat)
    requires RowOffset(height, 2 * width) <= |src| && pairs <= (height + 1) / 2 && width % 2 == 0 && shift < 4
    requires pair < pairs && col < width / 2
    ensures RowOffset(pair, width / 2) + col < |ChromaRows(src, width, height, pairs, shift)|
    ensures RowOffset(2 * pair, 2 * width) + 4 * col + shift < |src|
    ensures ChromaRows(src, width, height, pairs, shift)[RowOffset(pair, width / 2) + col]
            == src[RowOffset(2 * pair, 2 * width) + 4 * col + shift]
  {
    hide Chroma, Line;
    RowInside(src, width, height, 2 * pair);
    RowInside(src, width, height, 2 * (pairs - 1));
    var before := ChromaRows(src, width, height, pairs - 1, shift);
    var c := ChromaRows(src, width, height, pairs, shift);
    if pair == pairs - 1 {
      ChromaOfLine(src, width, 2 * pair, shift, col);
      assert c[|before| + col] == Chroma(Line(src, width, 2 * pair), width / 2, shift)[col];
    } else {
      ChromaAt(src, width, height, pairs - 1, shift, pair, col);
    }
  }

  lemma ChromaOfLine(src: bytes, width: nat, row: nat, shift: nat, col: nat)
    requires RowOffset(row + 1, 2 * width) <= |src| && width % 2 == 0 && shift < 4 && col < width / 2
    ensures RowOffset(row, 2 * width) + 4 * col + shift < |src|
    ensures Chroma(Line(src, width, row), width / 2, shift)[col] == src[RowOffset(row, 2 * width) + 4 * col + shift]
  {
    RowFits(row, width);
  }

  // ----- vectors

  /** `vld2q_u8`: the even and the odd bytes. */
  function Deinterleave(block: bytes): (r: (bytes, bytes))
    requires |block| == 32
    ensures |r.0| == |r.1| == 16
  {
    (seq(16, i requires 0 <= i < 16 => block[2 * i]), seq(16, i requires 0 <= i < 16 => block[2 * i + 1]))
  }

  /** `vuzp_u8`: the elements of both at even and at odd places. */
  function Unzip(a: bytes, b: bytes): (r: (bytes, bytes))
    requires |a| == |b| == 8
    ensures |r.0| == |r.1| == 8
  {
    var s := a + b;
    (seq(8, i requires 0 <= i < 8 => s[2 * i]), seq(8, i requires 0 <= i < 8 => s[2 * i + 1]))
  }

  lemma VectorsMeanPlanes(block: bytes)
    requires |block| == 32
    ensures Deinterleave(block).0 == Luma(block, 16)
    ensures var odd := Deinterleave(block).1;
      Unzip(odd[..8], odd[8..]).0 == Chroma(block, 8, 1) && Unzip(odd[..8], odd[8..]).1 == Chroma(block, 8, 3)
  {
    var odd := Deinterleave(block).1;
    assert odd[..8] + odd[8..] == odd;
    var r := Unzip(odd[..8], odd[8..]);
    forall i | 0 <= i < 8
      ensures r.0[i] == Chroma(block, 8, 1)[i] && r.1[i] == Chroma(block, 8, 3)[i]
    {
      assert r.0[i] == odd[2 * i] && r.1[i] == odd[2 * i + 1];
    }
  }

  lemma LumaSlice(line: bytes, pairs: nat, from: nat, to: nat)
    requires |line| == 4 * pairs && from <= to <= pairs
    ensures Luma(line[4 * from..4 * to], 2 * (to - from)) == Luma(line, 2 * pairs)[2 * from..2 * to]
  {
  }

  lemma ChromaSlice(line: bytes, pairs: nat, from: nat, to: nat, shift: nat)
    requires |line| == 4 * pairs && from <= to <= pairs && shift < 4
    ensures Chroma(line[4 * from..4 * to], to - from, shift) == Chroma(line, pairs, shift)[from..to]
  {
  }

  lemma SliceOfLine(src: bytes, p: nat, n: nat, i: nat, j: nat)
    requires i <= j <= n && p + n <= |src|
    ensures src[p..p + n][i..j] == src[p + i..p + j]
  {
    var a, b := src[p..p + n][i..j], src[p + i..p + j];
    forall k | 0 <= k < j - i
      ensures a[k] == b[k]
    {
    }
  }

  /** A stretch written behind the stretches before it. */
  lemma SplicedOn(s: bytes, at: nat, whole: bytes, i: nat, j: nat)
    requires i <= j <= |whole| && at + |whole| <= |s|
    ensures Spliced(Spliced(s, at, whole[..i]), at + i, whole[i..j]) == Spliced(s, at, whole[..j])
  {
  }

  lemma SplicedNone(s: bytes, at: nat, whole: bytes)
    requires at <= |s|
    ensures Spliced(s, at, whole[..0]) == s && whole[..|whole|] == whole
  {
  }

  // ----- the vectorised conversion

  /** Sixteen pixels of an even row. */
  method NeonBlock(src: bytes, p: nat, y: array<byte>, yAt: nat, u: array<byte>, v: array<byte>, cAt: nat)
    requires p + 32 <= |src| && yAt + 16 <= y.Length && cAt + 8 <= u.Length && cAt + 8 <= v.Length
    requires y != u && y != v && u != v
    modifies y, u, v
    ensures y[..] == Spliced(old(y[..]), yAt, Luma(src[p..p + 32], 16))
    ensures u[..] == Spliced(old(u[..]), cAt, Chroma(src[p..p + 32], 8, 1))
    ensures v[..] == Spliced(old(v[..]), cAt, Chroma(src[p..p + 32], 8, 3))
  {
    hide Luma, Chroma, Deinterleave, Unzip, Spliced;
    VectorsMeanPlanes(src[p..p + 32]);
    var yuyv := Deinterleave(src[p..p + 32]);
    CopyInto(y, yAt, yuyv.0);
    var uzp := Unzip(yuyv.1[..8], yuyv.1[8..]);
    CopyInto(u, cAt, uzp.0);
    CopyInto(v, cAt, uzp.1);
  }

  /** Two pixels of an even row. */
  method PixelPair(src: bytes, p: nat, y: array<byte>, yAt: nat, u: array<byte>, v: array<byte>, cAt: nat)
    requires p + 4 <= |src| && yAt + 2 <= y.Length && cAt < u.Length && cAt < v.Length
    requires y != u && y != v && u != v
    modifies y, u, v
    ensures y[..] == Spliced(old(y[..]), yAt, Luma(src[p..p + 4], 2))
    ensures u[..] == Spliced(old(u[..]), cAt, Chroma(src[p..p + 4], 1, 1))
    ensures v[..] == Spliced(old(v[..]), cAt, Chroma(src[p..p + 4], 1, 3))
  {
    LumaPair(src, p, y, yAt);
    u[cAt] := src[p + 1];
    v[cAt] := src[p + 3];
  }

  method LumaPair(src: bytes, p: nat, y: array<byte>, yAt: nat)
    requires p + 4 <= |src| && yAt + 2 <= y.Length
    modifies y
    ensures y[..] == Spliced(old(y[..]), yAt, Luma(src[p..p + 4], 2))
  {
    y[yAt] := src[p];
    y[yAt + 1] := src[p + 2];
  }

  /** The planes with the first `done` pixel pairs of a row written. */
  ghost predicate RowUpTo(line: bytes, pairs: nat, done: nat, y: bytes, y0: bytes, yAt: nat, u: bytes, u0: bytes,
      v: bytes, v0: bytes, cAt: nat)
    requires |line| == 4 * pairs && done <= pairs && yAt + 2 * pairs <= |y0| && cAt + pairs <= |u0|
    requires cAt + pairs <= |v0|
  {
    && y == Spliced(y0, yAt, Luma(line, 2 * pairs)[..2 * done])
    && u == Spliced(u0, cAt, Chroma(line, pairs, 1)[..done]) && v == Spliced(v0, cAt, Chroma(line, pairs, 3)[..done])
  }

  lemma RowStarts(line: bytes, pairs: nat, y0: bytes, yAt: nat, u0: bytes, v0: bytes, cAt: nat)
    requires |line| == 4 * pairs && yAt + 2 * pairs <= |y0| && cAt + pairs <= |u0| && cAt + pairs <= |v0|
    ensures RowUpTo(line, pairs, 0, y0, y0, yAt, u0, u0, v0, v0, cAt)
  {
    hide Spliced, Luma, Chroma;
    SplicedNone(y0, yAt, Luma(line, 2 * pairs));
    SplicedNone(u0, cAt, Chroma(line, pairs, 1));
    SplicedNone(v0, cAt, Chroma(line, pairs, 3));
  }

  lemma RowGrows(line: bytes, pairs: nat, done: nat, next: nat, y: bytes, y0: bytes, yAt: nat, u: bytes, u0: bytes,
      v: bytes, v0: bytes, cAt: nat)
    requires |line| == 4 * pairs && done <= next <= pairs
    requires yAt + 2 * pairs <= |y0| && cAt + pairs <= |u0| && cAt + pairs <= |v0|
    requires RowUpTo(line, pairs, done, y, y0, yAt, u, u0, v, v0, cAt)
    ensures var part := line[4 * done..4 * next];
      && |y| == |y0| && |u| == |u0| && |v| == |v0|
      && RowUpTo(line, pairs, next, Spliced(y, yAt + 2 * done, Luma(part, 2 * (next - done))), y0, yAt,
                 Spliced(u, cAt + done, Chroma(part, next - done, 1)), u0,
                 Spliced(v, cAt + done, Chroma(part, next - done, 3)), v0, cAt)
  {
    hide Spliced, Luma, Chroma;
    LumaSlice(line, pairs, done, next);
    ChromaSlice(line, pairs, done, next, 1);
    ChromaSlice(line, pairs, done, next, 3);
    SplicedOn(y0, yAt, Luma(line, 2 * pairs), 2 * done, 2 * next);
    SplicedOn(u0, cAt, Chroma(line, pairs, 1), done, next);
    SplicedOn(v0, cAt, Chroma(line, pairs, 3), done, next);
  }

  /** A whole row written. */
  ghost predicate RowDone(line: bytes, pairs: nat, y: bytes, y0: bytes, yAt: nat, u: bytes, u0: bytes, v: bytes,
      v0: bytes, cAt: nat)
    requires |line| == 4 * pairs && yAt + 2 * pairs <= |y0| && cAt + pairs <= |u0| && cAt + pairs <= |v0|
  {
    && y == Spliced(y0, yAt, Luma(line, 2 * pairs))
    && u == Spliced(u0, cAt, Chroma(line, pairs, 1)) && v == Spliced(v0, cAt, Chroma(line, pairs, 3))
  }

  lemma RowEnds(line: bytes, pairs: nat, y: bytes, y0: bytes, yAt: nat, u: bytes, u0: bytes, v: bytes, v0: bytes,
      cAt: nat)
    requires |line| == 4 * pairs && yAt + 2 * pairs <= |y0| && cAt + pairs <= |u0| && cAt + pairs <= |v0|
    requires RowUpTo(line, pairs, pairs, y, y0, yAt, u, u0, v, v0, cAt)
    ensures RowDone(line, pairs, y, y0, yAt, u, u0, v, v0, cAt)
  {
    hide Spliced, Luma, Chroma;
    SplicedNone(y0, yAt, Luma(line, 2 * pairs));
    SplicedNone(u0, cAt, Chroma(line, pairs, 1));
    SplicedNone(v0, cAt, Chroma(line, pairs, 3));
  }

  /** An even row: whole vectors, then pairs. */
  method NeonEvenRow(src: bytes, p: nat, width: nat, ghost pairs: nat, y: array<byte>, yAt: nat, u: array<byte>,
      v: array<byte>, cAt: nat)
    requires width == 2 * pairs && p + 4 * pairs <= |src|
    requires yAt + 2 * pairs <= y.Length && cAt + pairs <= u.Length && cAt + pairs <= v.Length
    requires y != u && y != v && u != v
    modifies y, u, v
    ensures RowDone(src[p..p + 4 * pairs], pairs, y[..], old(y[..]), yAt, u[..], old(u[..]), v[..], old(v[..]), cAt)
  {
    hide Luma, Chroma, Spliced, RowUpTo, RowDone;
    var alignedWidth := width / NEON_PIXELS * NEON_PIXELS;
    ghost var y0, u0, v0, line := y[..], u[..], v[..], src[p..p + 4 * pairs];
    RowStarts(line, pairs, y0, yAt, u0, v0, cAt);
    var col := 0;
    ghost var done := 0;
    while col < alignedWidth
      invariant done <= pairs && col == 2 * done <= alignedWidth && done % 8 == 0
      invariant RowUpTo(line, pairs, done, y[..], y0, yAt, u[..], u0, v[..], v0, cAt)
    {
      RowGrows(line, pairs, done, done + 8, y[..], y0, yAt, u[..], u0, v[..], v0, cAt);
      SliceOfLine(src, p, 4 * pairs, 4 * done, 4 * (done + 8));
      NeonBlock(src, p + col * 2, y, yAt + col, u, v, cAt + col / 2);
      col, done := col + NEON_PIXELS, done + 8;
    }
    while col < width
      invariant done <= pairs && col == 2 * done
      invariant RowUpTo(line, pairs, done, y[..], y0, yAt, u[..], u0, v[..], v0, cAt)
    {
      RowGrows(line, pairs, done, done + 1, y[..], y0, yAt, u[..], u0, v[..], v0, cAt);
      SliceOfLine(src, p, 4 * pairs, 4 * done, 4 * (done + 1));
      PixelPair(src, p + col * 2, y, yAt + col, u, v, cAt + col / 2);
      col, done := col + 2, done + 1;
    }
    RowEnds(line, pairs, y[..], y0, yAt, u[..], u0, v[..], v0, cAt);
  }

  lemma LumaGrows(line: bytes, pairs: nat, done: nat, next: nat, y0: bytes, yAt: nat)
    requires |line| == 4 * pairs && done <= next <= pairs && yAt + 2 * pairs <= |y0|
    ensures var y := Spliced(y0, yAt, Luma(line, 2 * pairs)[..2 * done]);
      Spliced(y, yAt + 2 * done, Luma(line[4 * done..4 * next], 2 * (next - done))) ==
        Spliced(y0, yAt, Luma(line, 2 * pairs)[..2 * next])
  {
    hide Spliced, Luma;
    LumaSlice(line, pairs, done, next);
    SplicedOn(y0, yAt, Luma(line, 2 * pairs), 2 * done, 2 * next);
  }

  /** An odd row: its luma only. */
  method NeonOddRow(src: bytes, p: nat, width: nat, ghost pairs: nat, y: array<byte>, yAt: nat)
    requires width == 2 * pairs && p + 4 * pairs <= |src| && yAt + 2 * pairs <= y.Length
    modifies y
    ensures y[..] == Spliced(old(y[..]), yAt, Luma(src[p..p + 4 * pairs], 2 * pairs))
  {
    hide Luma, Spliced;
    var alignedWidth := width / NEON_PIXELS * NEON_PIXELS;
    ghost var y0, line := y[..], src[p..p + 4 * pairs];
    SplicedNone(y0, yAt, Luma(line, 2 * pairs));
    var col := 0;
    ghost var done := 0;
    while col < alignedWidth
      invariant done <= pairs && col == 2 * done <= alignedWidth && done % 8 == 0
      invariant y[..] == Spliced(y0, yAt, Luma(line, 2 * pairs)[..2 * done])
    {
      LumaGrows(line, pairs, done, done + 8, y0, yAt);
      SliceOfLine(src, p, 4 * pairs, 4 * done, 4 * (done + 8));
      NeonLuma(src, p + col * 2, y, yAt + col);
      col, done := col + NEON_PIXELS, done + 8;
    }
    while col < width
      invariant done <= pairs && col == 2 * done
      invariant y[..] == Spliced(y0, yAt, Luma(line, 2 * pairs)[..2 * done])
    {
      LumaGrows(line, pairs, done, done + 1, y0, yAt);
      SliceOfLine(src, p, 4 * pairs, 4 * done, 4 * (done + 1));
      LumaPair(src, p + col * 2, y, yAt + col);
      col, done := col + 2, done + 1;
    }
  }

  /** Sixteen pixels of an odd row. */
  method NeonLuma(src: bytes, p: nat, y: array<byte>, yAt: nat)
    requires p + 32 <= |src| && yAt + 16 <= y.Length
    modifies y
    ensures y[..] == Spliced(old(y[..]), yAt, Luma(src[p..p + 32], 16))
  {
    hide Luma, Chroma, Deinterleave, Unzip, Spliced;
    VectorsMeanPlanes(src[p..p + 32]);
    CopyInto(y, yAt, Deinterleave(src[p..p + 32]).0);
  }

  // ----- whole pictures

  /** The planes with `rows` rows of luma and `pairs` lines of chroma written. */
  ghost predicate Converted(src: bytes, width: nat, height: nat, rows: nat, pairs: nat, y: bytes, y0: bytes, u: bytes,
      u0: bytes, v: bytes, v0: bytes)
    requires width % 2 == 0 && RowOffset(height, 2 * width) <= |src| && rows <= height && pairs <= (height + 1) / 2
  {
    RowsInside(src, width, height, rows);
    && Filled(y, y0, LumaRows(src, width, rows))
    && Filled(u, u0, ChromaRows(src, width, height, pairs, 1))
    && Filled(v, v0, ChromaRows(src, width, height, pairs, 3))
  }

  lemma RowsInside(src: bytes, width: nat, height: nat, rows: nat)
    requires RowOffset(height, 2 * width) <= |src| && rows <= height
    ensures RowOffset(rows, 2 * width) <= |src|
  {
    MulMonotone(rows, height, 2 * width);
  }

  lemma NothingConverted(src: bytes, width: nat, height: nat, y0: bytes, u0: bytes, v0: bytes)
    requires width % 2 == 0 && RowOffset(height, 2 * width) <= |src|
    ensures RowOffset(0, width) == 0 && Converted(src, width, height, 0, 0, y0, y0, u0, u0, v0, v0)
  {
  }

  /** The offsets of a row and of its line of chroma. */
  lemma OffsetsInside(width: nat, pairs: nat, height: nat, row: nat, yLength: nat, uLength: nat, vLength: nat)
    requires width == 2 * pairs && row < height && RowOffset(height, width) <= yLength
    requires RowOffset((height + 1) / 2, pairs) <= uLength && RowOffset((height + 1) / 2, pairs) <= vLength
    ensures RowOffset(row + 1, width) == RowOffset(row, width) + 2 * pairs <= yLength
    ensures RowOffset(row / 2, pairs) + pairs <= uLength && RowOffset(row / 2, pairs) + pairs <= vLength
  {
    OneMore(row, height, width);
    assert row / 2 < (height + 1) / 2;
    OneMore(row / 2, (height + 1) / 2, pairs);
  }

  lemma OneMore(i: nat, n: nat, size: nat)
    requires i < n
    ensures i * size + size == (i + 1) * size <= n * size
  {
    MulMonotone(i + 1, n, size);
    MulStep(i, size);
  }

  lemma LumaRowsStep(src: bytes, width: nat, pairs: nat, row: nat, p: nat)
    requires width == 2 * pairs && p == RowOffset(row, 2 * width) && p + 4 * pairs <= |src|
    ensures RowOffset(row + 1, 2 * width) <= |src| && p <= |src|
    ensures LumaRows(src, width, row + 1) == LumaRows(src, width, row) + Luma(src[p..p + 4 * pairs], 2 * pairs)
  {
    hide Luma;
    RowFits(row, width);
  }

  lemma LumaRowConverted(src: bytes, width: nat, pairs: nat, row: nat, p: nat, at: nat, y: bytes, y0: bytes)
    requires width == 2 * pairs && p == RowOffset(row, 2 * width) && p + 4 * pairs <= |src|
    requires at == RowOffset(row, width)
    requires Filled(y, y0, LumaRows(src, width, row)) && at + 2 * pairs <= |y0| && |y| == |y0|
    ensures RowOffset(row + 1, 2 * width) <= |src|
    ensures Filled(Spliced(y, at, Luma(src[p..p + 4 * pairs], 2 * pairs)), y0, LumaRows(src, width, row + 1))
  {
    hide RowOffset, Filled, Spliced, Luma, LumaRows;
    LumaRowsStep(src, width, pairs, row, p);
    FilledFurther(y, y0, LumaRows(src, width, row), Luma(src[p..p + 4 * pairs], 2 * pairs));
  }

  lemma ChromaRowsStep(src: bytes, width: nat, pairs: nat, height: nat, row: nat, p: nat, shift: nat)
    requires width == 2 * pairs && RowOffset(height, 2 * width) <= |src| && row < height && row % 2 == 0 && shift < 4
    requires p == RowOffset(row, 2 * width) && p + 4 * pairs <= |src|
    ensures ChromaRows(src, width, height, row / 2 + 1, shift)
            == ChromaRows(src, width, height, row / 2, shift) + Chroma(src[p..p + 4 * pairs], pairs, shift)
  {
    hide Chroma;
    RowInside(src, width, height, row);
    assert 2 * (row / 2 + 1 - 1) == row;
  }

  lemma ChromaRowConverted(src: bytes, width: nat, pairs: nat, height: nat, row: nat, p: nat, shift: nat, at: nat,
      c: bytes, c0: bytes)
    requires width == 2 * pairs && RowOffset(height, 2 * width) <= |src| && row < height && row % 2 == 0 && shift < 4
    requires p == RowOffset(row, 2 * width) && p + 4 * pairs <= |src| && at == RowOffset(row / 2, pairs)
    requires Filled(c, c0, ChromaRows(src, width, height, row / 2, shift)) && at + pairs <= |c0| && |c| == |c0|
    ensures Filled(Spliced(c, at, Chroma(src[p..p + 4 * pairs], pairs, shift)), c0,
      ChromaRows(src, width, height, row / 2 + 1, shift))
  {
    hide RowOffset, Filled, Spliced, Chroma, ChromaRows;
    ChromaRowsStep(src, width, pairs, height, row, p, shift);
    FilledFurther(c, c0, ChromaRows(src, width, height, row / 2, shift), Chroma(src[p..p + 4 * pairs], pairs, shift));
  }

  /** An even row, luma and chroma. */
  lemma EvenRowConverted(src: bytes, width: nat, pairs: nat, height: nat, row: nat, p: nat, yAt: nat, cAt: nat,
      y: bytes, y1: bytes, y0: bytes, u: bytes, u1: bytes, u0: bytes, v: bytes, v1: bytes, v0: bytes)
    requires width == 2 * pairs && RowOffset(height, 2 * width) <= |src| && row < height && row % 2 == 0
    requires p == RowOffset(row, 2 * width) && p + 4 * pairs <= |src| && yAt == RowOffset(row, width)
    requires cAt == RowOffset(row / 2, pairs)
    requires |y| == |y0| && |u| == |u0| && |v| == |v0| && yAt + 2 * pairs <= |y| && cAt + pairs <= |u|
    requires cAt + pairs <= |v|
    requires Converted(src, width, height, row, row / 2, y, y0, u, u0, v, v0)
    requires RowDone(src[p..p + 4 * pairs], pairs, y1, y, yAt, u1, u, v1, v, cAt)
    ensures Converted(src, width, height, row + 1, row / 2 + 1, y1, y0, u1, u0, v1, v0)
  {
    hide RowOffset, Filled, Spliced, Chroma, ChromaRows, Luma, LumaRows;
    LumaRowConverted(src, width, pairs, row, p, yAt, y, y0);
    ChromaRowConverted(src, width, pairs, height, row, p, 1, cAt, u, u0);
    ChromaRowConverted(src, width, pairs, height, row, p, 3, cAt, v, v0);
  }

  /** The luma of one more row. */
  lemma NextLumaConverted(src: bytes, width: nat, pairs: nat, height: nat, row: nat, lines: nat, p: nat, yAt: nat,
      y: bytes, y1: bytes, y0: bytes, u: bytes, u0: bytes, v: bytes, v0: bytes)
    requires width == 2 * pairs && RowOffset(height, 2 * width) <= |src| && row < height && lines <= (height + 1) / 2
    requires p == RowOffset(row, 2 * width) && p + 4 * pairs <= |src| && yAt == RowOffset(row, width)
    requires |y| == |y0| && yAt + 2 * pairs <= |y| && y1 == Spliced(y, yAt, Luma(src[p..p + 4 * pairs], 2 * pairs))
    requires Converted(src, width, height, row, lines, y, y0, u, u0, v, v0)
    ensures Converted(src, width, height, row + 1, lines, y1, y0, u, u0, v, v0)
  {
    hide RowOffset, Filled, Spliced, Chroma, ChromaRows, Luma, LumaRows;
    LumaRowConverted(src, width, pairs, row, p, yAt, y, y0);
  }

  /** One more line of chroma. */
  lemma NextChromaConverted(src: bytes, width: nat, pairs: nat, height: nat, rows: nat, row: nat, p: nat, cAt: nat,
      y: bytes, y0: bytes, u: bytes, u1: bytes, u0: bytes, v: bytes, v1: bytes, v0: bytes)
    requires width == 2 * pairs && RowOffset(height, 2 * width) <= |src| && row < height && row % 2 == 0
    requires rows <= height
    requires p == RowOffset(row, 2 * width) && p + 4 * pairs <= |src| && cAt == RowOffset(row / 2, pairs)
    requires |u| == |u0| && |v| == |v0| && cAt + pairs <= |u| && cAt + pairs <= |v|
    requires Converted(src, width, height, rows, row / 2, y, y0, u, u0, v, v0)
    requires u1 == Spliced(u, cAt, Chroma(src[p..p + 4 * pairs], pairs, 1))
    requires v1 == Spliced(v, cAt, Chroma(src[p..p + 4 * pairs], pairs, 3))
    ensures Converted(src, width, height, rows, row / 2 + 1, y, y0, u1, u0, v1, v0)
  {
    hide RowOffset, Filled, Spliced, Chroma, ChromaRows, Luma, LumaRows;
    ChromaRowConverted(src, width, pairs, height, row, p, 1, cAt, u, u0);
    ChromaRowConverted(src, width, pairs, height, row, p, 3, cAt, v, v0);
  }

  lemma ConvertedAll(src: bytes, width: nat, height: nat, y: bytes, y0: bytes, u: bytes, u0: bytes, v: bytes, v0: bytes)
    requires width % 2 == 0 && RowOffset(height, 2 * width) <= |src|
    requires Converted(src, width, height, height, (height + 1) / 2, y, y0, u, u0, v, v0)
    ensures Filled(y, y0, LumaRows(src, width, height))
    ensures Filled(u, u0, ChromaRows(src, width, height, (height + 1) / 2, 1))
    ensures Filled(v, v0, ChromaRows(src, width, height, (height + 1) / 2, 3))
  {
  }

  /** Two rows at a time, the last one alone when the height is odd. */
  method ConvertYuyv422ToI420Neon(src: bytes, y: array<byte>, u: array<byte>, v: array<byte>, width: nat, height: nat)
    requires width % 2 == 0 && RowOffset(height, 2 * width) <= |src| && y != u && y != v && u != v
    requires RowOffset(height, width) <= y.Length
    requires RowOffset((height + 1) / 2, width / 2) <= u.Length && RowOffset((height + 1) / 2, width / 2) <= v.Length
    modifies y, u, v
    ensures Filled(y[..], old(y[..]), LumaRows(src, width, height))
    ensures Filled(u[..], old(u[..]), ChromaRows(src, width, height, (height + 1) / 2, 1))
    ensures Filled(v[..], old(v[..]), ChromaRows(src, width, height, (height + 1) / 2, 3))
  {
    hide RowOffset, Luma, Chroma, Spliced, Filled, LumaRows, ChromaRows, Line, Converted, RowDone;
    ghost var y0, u0, v0 := y[..], u[..], v[..];
    var pairs := width / 2;
    var row := 0;
    NothingConverted(src, width, height, y0, u0, v0);
    while row < height
      invariant row <= height + 1 && row % 2 == 0
      invariant Converted(src, width, height, if row <= height then row else height, row / 2,
                          y[..], y0, u[..], u0, v[..], v0)
    {
      NeonRows(src, y, y0, u, u0, v, v0, width, pairs, height, row);
      row := row + 2;
    }
    ConvertedAll(src, width, height, y[..], y0, u[..], u0, v[..], v0);
  }

  /** The body of the loop: an even row, and the odd row below it if there is one. */
  method NeonRows(src: bytes, y: array<byte>, ghost y0: bytes, u: array<byte>, ghost u0: bytes, v: array<byte>,
      ghost v0: bytes, width: nat, pairs: nat, height: nat, row: nat)
    requires width == 2 * pairs && RowOffset(height, 2 * width) <= |src| && y != u && y != v && u != v
    requires |y0| == y.Length && |u0| == u.Length && |v0| == v.Length
    requires RowOffset(height, width) <= y.Length && RowOffset((height + 1) / 2, pairs) <= u.Length
    requires RowOffset((height + 1) / 2, pairs) <= v.Length
    requires row < height && row % 2 == 0
    requires Converted(src, width, height, row, row / 2, y[..], y0, u[..], u0, v[..], v0)
    modifies y, u, v
    ensures Converted(src, width, height, if row + 2 <= height then row + 2 else height, row / 2 + 1,
                      y[..], y0, u[..], u0, v[..], v0)
  {
    hide RowOffset, Luma, Chroma, Spliced, Filled, LumaRows, ChromaRows, Line, Converted, RowDone;
    RowInside(src, width, height, row);
    OffsetsInside(width, pairs, height, row, y.Length, u.Length, v.Length);
    var p, yAt, cAt := RowOffset(row, 2 * width), RowOffset(row, width), RowOffset(row / 2, pairs);
    ghost var yb, ub, vb := y[..], u[..], v[..];
    NeonEvenRow(src, p, width, pairs, y, yAt, u, v, cAt);
    EvenRowConverted(src, width, pairs, height, row, p, yAt, cAt, yb, y[..], y0, ub, u[..], u0, vb, v[..], v0);
    if row + 1 < height {
      RowInside(src, width, height, row + 1);
      OffsetsInside(width, pairs, height, row + 1, y.Length, u.Length, v.Length);
      p, yAt := RowOffset(row + 1, 2 * width), RowOffset(row + 1, width);
      yb := y[..];
      NeonOddRow(src, p, width, pairs, y, yAt);
      NextLumaConverted(src, width, pairs, height, row + 1, row / 2 + 1, p, yAt, yb, y[..], y0, u[..], u0, v[..], v0);
    }
  }

  // ----- the scalar conversion

  /** All luma first, then the chroma of every other row. */
  method ConvertYuyv422ToI420Scalar(src: bytes, y: array<byte>, u: array<byte>, v: array<byte>, width: nat, height: nat)
    requires width % 2 == 0 && RowOffset(height, 2 * width) <= |src| && y != u && y != v && u != v
    requires RowOffset(height, width) <= y.Length
    requires RowOffset((height + 1) / 2, width / 2) <= u.Length && RowOffset((height + 1) / 2, width / 2) <= v.Length
    modifies y, u, v
    ensures Filled(y[..], old(y[..]), LumaRows(src, width, height))
    ensures Filled(u[..], old(u[..]), ChromaRows(src, width, height, (height + 1) / 2, 1))
    ensures Filled(v[..], old(v[..]), ChromaRows(src, width, height, (height + 1) / 2, 3))
  {
    hide RowOffset, Luma, Chroma, Spliced, Filled, LumaRows, ChromaRows, Line, Converted;
    ghost var y0, u0, v0 := y[..], u[..], v[..];
    var pairs := width / 2;
    NothingConverted(src, width, height, y0, u0, v0);
    var yIndex := 0;
    for row := 0 to height
      invariant yIndex == RowOffset(row, width)
      invariant Converted(src, width, height, row, 0, y[..], y0, u[..], u0, v[..], v0)
    {
      RowInside(src, width, height, row);
      OffsetsInside(width, pairs, height, row, y.Length, u.Length, v.Length);
      ghost var yb, at := y[..], yIndex;
      yIndex := ScalarLumaRow(src, RowOffset(row, 2 * width), width, pairs, y, yIndex);
      NextLumaConverted(src, width, pairs, height, row, 0, RowOffset(row, 2 * width), at,
                        yb, y[..], y0, u[..], u0, v[..], v0);
    }
    var row := 0;
    while row < height
      invariant row <= height + 1 && row % 2 == 0
      invariant Converted(src, width, height, height, row / 2, y[..], y0, u[..], u0, v[..], v0)
    {
      RowInside(src, width, height, row);
      OffsetsInside(width, pairs, height, row, y.Length, u.Length, v.Length);
      ghost var ub, vb := u[..], v[..];
      var uvRow := RowOffset(row / 2, pairs);
      ScalarChromaRow(src, RowOffset(row, 2 * width), width, pairs, u, v, uvRow);
      NextChromaConverted(src, width, pairs, height, height, row, RowOffset(row, 2 * width), uvRow,
                          y[..], y0, ub, u[..], u0, vb, v[..], v0);
      row := row + 2;
    }
    ConvertedAll(src, width, height, y[..], y0, u[..], u0, v[..], v0);
  }

  method ScalarLumaRow(src: bytes, p: nat, width: nat, ghost pairs: nat, y: array<byte>, yIndex: nat)
      returns (next: nat)
    requires width == 2 * pairs && p + 4 * pairs <= |src| && yIndex + 2 * pairs <= y.Length
    modifies y
    ensures next == yIndex + width
    ensures y[..] == Spliced(old(y[..]), yIndex, Luma(src[p..p + 4 * pairs], 2 * pairs))
  {
    hide Luma, Spliced;
    ghost var y0, line := y[..], src[p..p + 4 * pairs];
    SplicedNone(y0, yIndex, Luma(line, 2 * pairs));
    next := yIndex;
    var col := 0;
    ghost var done := 0;
    while col < width
      invariant done <= pairs && col == 2 * done && next == yIndex + col
      invariant y[..] == Spliced(y0, yIndex, Luma(line, 2 * pairs)[..2 * done])
    {
      LumaGrows(line, pairs, done, done + 1, y0, yIndex);
      SliceOfLine(src, p, 4 * pairs, 4 * done, 4 * (done + 1));
      LumaPair(src, p + col * 2, y, next);
      next := next + 2;
      col, done := col + 2, done + 1;
    }
  }

  method ScalarChromaRow(src: bytes, p: nat, width: nat, ghost pairs: nat, u: array<byte>, v: array<byte>, uvRow: nat)
    requires width == 2 * pairs && p + 4 * pairs <= |src| && u != v
    requires uvRow + pairs <= u.Length && uvRow + pairs <= v.Length
    modifies u, v
    ensures u[..] == Spliced(old(u[..]), uvRow, Chroma(src[p..p + 4 * pairs], pairs, 1))
    ensures v[..] == Spliced(old(v[..]), uvRow, Chroma(src[p..p + 4 * pairs], pairs, 3))
  {
    hide Chroma, Spliced;
    ghost var u0, v0, line := u[..], v[..], src[p..p + 4 * pairs];
    SplicedNone(u0, uvRow, Chroma(line, pairs, 1));
    SplicedNone(v0, uvRow, Chroma(line, pairs, 3));
    var col := 0;
    ghost var done := 0;
    while col < width
      invariant done <= pairs && col == 2 * done
      invariant u[..] == Spliced(u0, uvRow, Chroma(line, pairs, 1)[..done])
      invariant v[..] == Spliced(v0, uvRow, Chroma(line, pairs, 3)[..done])
    {
      var offset := p + col * 2;
      SliceOfLine(src, p, 4 * pairs, 4 * done, 4 * (done + 1));
      ChromaSlice(line, pairs, done, done + 1, 1);
      ChromaSlice(line, pairs, done, done + 1, 3);
      SplicedOn(u0, uvRow, Chroma(line, pairs, 1), done, done + 1);
      SplicedOn(v0, uvRow, Chroma(line, pairs, 3), done, done + 1);
      ChromaSample(src, offset, u, v, uvRow + col / 2);
      col, done := col + 2, done + 1;
    }
  }

  method ChromaSample(src: bytes, offset: nat, u: array<byte>, v: array<byte>, at: nat)
    requires offset + 4 <= |src| && at < u.Length && at < v.Length && u != v
    modifies u, v
    ensures u[..] == Spliced(old(u[..]), at, Chroma(src[offset..offset + 4], 1, 1))
    ensures v[..] == Spliced(old(v[..]), at, Chroma(src[offset..offset + 4], 1, 3))
  {
    u[at] := src[offset + 1];
    v[at] := src[offset + 3];
  }
}
