/** Software conversion of a planar YV12 image (V plane, then U plane) to NV21
    (V and U bytes interleaved and packed). */
module Yv12Converter {
  import opened Align
  import GrallocLayout

  type byte = bv8

  /** Image geometry in 32-bit words: `stride` is the image's `w`, `width` is `w - horiz_padding`. Products of two
      words are cut to one. */
  datatype Geometry = Geometry(stride: nat, width: nat, height: nat) {
    ghost predicate Valid() {
      width <= stride < U32 && height < U32
    }

    /** No size is cut. */
    predicate Exact() {
      stride * height < U32 && ChromaWidth() * height < U32
    }

    function LumaSize(): nat {
      stride * height % U32
    }

    function ChromaWidth(): nat {
      AlignUp(stride / 2, 16)
    }

    function ChromaSize(): nat {
      ChromaWidth() * height % U32 / 2
    }

    function ChromaPadding(): nat
      requires Valid()
    {
      ChromaWidth() - width / 2
    }
  }

  /** Where the `k`-th visible chroma sample sits inside a source plane. */
  function RowIndex(half: nat, cWidth: nat, k: nat): nat
    requires half > 0
  {
    k / half * cWidth + k % half
  }

  /** The places of all visible chroma samples, in reading order. */
  ghost function RowIndices(width: nat, height: nat, cWidth: nat): seq<nat> {
    if width < 2 then [] else
    seq(height / 2 * (width / 2), k requires k >= 0 => RowIndex(width / 2, cWidth, k))
  }

  /** The places of the first `n` samples of a plane, in memory order. */
  ghost function FlatIndices(n: nat): seq<nat> {
    seq(n, k requires k >= 0 => k)
  }

  /** The first `n` places of `idx` lie inside both planes, the V plane at `v` and the U plane at `u`. */
  ghost predicate InPlanes(size: nat, v: nat, u: nat, idx: seq<nat>, n: nat) {
    n <= |idx| && forall k | 0 <= k < n :: v + idx[k] < size && u + idx[k] < size
  }

  /** Byte `p` once the first `n` chroma pairs selected by `idx` are packed from `v` on, V before U. */
  ghost function PackedByte(image: seq<byte>, was: seq<byte>, v: nat, u: nat, idx: seq<nat>, n: nat, p: nat): byte
    requires InPlanes(|image|, v, u, idx, n) && p < |was|
  {
    if p < v || p >= v + 2 * n then was[p]
    else
      var k := (p - v) / 2;
      image[(if (p - v) % 2 == 0 then v else u) + idx[k]]
  }

  /** One more pair changes two bytes. */
  lemma OneMorePair(image: seq<byte>, was: seq<byte>, v: nat, u: nat, idx: seq<nat>, n: nat, p: nat)
    requires InPlanes(|image|, v, u, idx, n + 1) && p < |was|
    ensures PackedByte(image, was, v, u, idx, n + 1, p) ==
              if p == v + 2 * n then image[v + idx[n]]
              else if p == v + 2 * n + 1 then image[u + idx[n]]
              else PackedByte(image, was, v, u, idx, n, p)
  {
    if v <= p {
      assert (p - v) / 2 == n <==> p == v + 2 * n || p == v + 2 * n + 1;
    }
  }

  ghost function Packed(image: seq<byte>, was: seq<byte>, v: nat, u: nat, idx: seq<nat>): (now: seq<byte>)
    requires InPlanes(|image|, v, u, idx, |idx|)
    ensures |now| == |was|
  {
    seq(|was|, p requires 0 <= p < |was| => PackedByte(image, was, v, u, idx, |idx|, p))
  }

  // ----- the four-counter loop as a machine

  datatype Counters = Counters(r1: nat, r2: nat, i: nat, j: nat)

  /** `x + 1` in 32 bits. */
  function Next(x: nat): nat {
    if x + 1 == U32 then 0 else x + 1
  }

  /** One turn of the loop, with counters of 32 bits. */
  function Step(width: nat, c: Counters): Counters {
    if c.j == width then c.(j := 0, r2 := Next(c.r2))
    else
      var (r2, j) := if c.j + 1 == width then (Next(c.r2), 1) else (c.r2, Next(Next(c.j)));
      if Next(c.i) == width / 2 then Counters(Next(c.r1), r2, 0, j) else Counters(c.r1, r2, Next(c.i), j)
  }

  function After(width: nat, n: nat): Counters {
    if n == 0 then Counters(0, 0, 0, 0) else Step(width, After(width, n - 1))
  }

  ghost predicate ExitsAt(width: nat, height: nat, n: nat) {
    After(width, n).r1 >= height / 2
  }

  ghost predicate LoopExits(width: nat, height: nat) {
    exists n: nat :: ExitsAt(width, height, n)
  }

  /** The loop exits without having read a column outside the plane's `cWidth`. */
  ghost predicate ExitsInside(width: nat, height: nat, cWidth: nat) {
    exists n: nat :: ExitsAt(width, height, n) && forall m: nat :: m < n ==> After(width, m).i < cWidth
  }

  /** How many samples the loop takes for one row: a counter that never meets zero must wrap to get there. */
  function RowLength(width: nat): nat {
    if width < 2 then U32 else width / 2
  }

  /** The next byte written is twice the number of samples read. */
  ghost predicate InStep(width: nat, c: Counters) {
    && c.i < width / 2
    && c.j <= width
    && c.r2 * width + c.j == 2 * (c.r1 * (width / 2) + c.i)
  }

  /** The destination row never runs ahead of the source row. */
  lemma RowsInStep(width: nat, c: Counters)
    requires width >= 2 && InStep(width, c)
    ensures c.r2 <= c.r1
  {
    if c.r2 > c.r1 {
      MulMono(c.r1 + 1, c.r2, width);
      NextRow(c.r1, width);
      MulMono(2 * (width / 2), width, c.r1);
      Associate(2, width / 2, c.r1);
      Commute(width / 2, c.r1);
      Commute(c.r1, width);
      assert false;
    }
  }

  /** A turn on which no counter wraps. */
  function PlainStep(width: nat, c: Counters): Counters {
    if c.j == width then c.(j := 0, r2 := c.r2 + 1)
    else
      var (r2, j) := if c.j + 1 == width then (c.r2 + 1, 1) else (c.r2, c.j + 2);
      if c.i + 1 == width / 2 then Counters(c.r1 + 1, r2, 0, j) else Counters(c.r1, r2, c.i + 1, j)
  }

  lemma StepIsPlain(width: nat, c: Counters)
    requires 2 <= width < U32 && c.r1 + 1 < U32 && InStep(width, c)
    ensures Step(width, c) == PlainStep(width, c)
  {
    RowsInStep(width, c);
  }

  lemma PlainStepInStep(width: nat, c: Counters)
    requires width >= 2 && InStep(width, c)
    ensures InStep(width, PlainStep(width, c))
  {
    NextRow(c.r2, width);
    NextRow(c.r1, width / 2);
  }

  lemma StepKeepsInStep(width: nat, c: Counters)
    requires 2 <= width < U32 && c.r1 + 1 < U32 && InStep(width, c)
    ensures InStep(width, Step(width, c))
  {
    StepIsPlain(width, c);
    PlainStepInStep(width, c);
  }

  ghost predicate InRow(width: nat, c: Counters) {
    c.i < RowLength(width) && c.j <= width
  }

  lemma StepStaysInRow(width: nat, c: Counters)
    requires 0 < width < U32 && c.r1 + 1 < U32 && InRow(width, c)
    ensures InRow(width, Step(width, c))
    ensures var d := Step(width, c);
            if d.r1 == c.r1 then d.i > c.i || (d.i == c.i && c.j == width && d.j == 0)
            else d.r1 == c.r1 + 1 && d.i == 0 && c.i == RowLength(width) - 1
  {
  }

  /** A loop over at least one column leaves every row it enters. */
  lemma {:induction false} RowEnds(width: nat, n: nat) returns (m: nat)
    requires 0 < width < U32 && After(width, n).r1 + 1 < U32 && InRow(width, After(width, n))
    ensures InRow(width, After(width, m)) && After(width, m).r1 == After(width, n).r1 + 1
    decreases RowLength(width) - After(width, n).i, if After(width, n).j == width then 1 else 0
  {
    var c := After(width, n);
    StepStaysInRow(width, c);
    var d := After(width, n + 1);
    assert d == Step(width, c);
    if d.r1 == c.r1 {
      m := RowEnds(width, n + 1);
    } else {
      m := n + 1;
    }
  }

  lemma {:induction false} ReachesRow(width: nat, row: nat) returns (n: nat)
    requires 0 < width < U32 && row < U32
    ensures InRow(width, After(width, n)) && After(width, n).r1 == row
  {
    if row == 0 {
      n := 0;
    } else {
      var p := ReachesRow(width, row - 1);
      n := RowEnds(width, p);
    }
  }

  lemma {:induction false} EmptyStaysInFirstRow(n: nat)
    ensures After(0, n).r1 == 0 && After(0, n).j == 0
  {
    if n > 0 {
      EmptyStaysInFirstRow(n - 1);
    }
  }

  /** The padded loop ends exactly for images at least one pixel wide or less than two high. */
  lemma LoopExitsIff(width: nat, height: nat)
    requires width < U32 && height < U32
    ensures LoopExits(width, height) <==> width > 0 || height < 2
  {
    if height < 2 {
      assert ExitsAt(width, height, 0);
    } else if width > 0 {
      var n := ReachesRow(width, height / 2);
      assert ExitsAt(width, height, n);
    } else if n: nat :| ExitsAt(width, height, n) {
      EmptyStaysInFirstRow(n);
      assert false;
    }
  }

  lemma {:induction false} WideStaysInside(width: nat, height: nat, n: nat)
    requires 2 <= width < U32 && height < U32
    requires forall m: nat :: m < n ==> !ExitsAt(width, height, m)
    ensures InRow(width, After(width, n))
  {
    if n > 0 {
      WideStaysInside(width, height, n - 1);
      assert !ExitsAt(width, height, n - 1);
      StepStaysInRow(width, After(width, n - 1));
    }
  }

  /** In a single column the first row is left only after the column counter has run through its whole range. */
  lemma {:induction false} NarrowRunsOut(width: nat, cWidth: nat, n: nat)
    requires width < 2 && cWidth < U32
    requires forall m: nat :: m < n ==> After(width, m).i < cWidth
    ensures After(width, n).r1 == 0
  {
    if n > 0 {
      NarrowRunsOut(width, cWidth, n - 1);
      assert After(width, n - 1).i < cWidth;
    }
  }

  lemma {:induction false} FirstExit(width: nat, height: nat, n: nat) returns (first: nat)
    requires ExitsAt(width, height, n)
    ensures ExitsAt(width, height, first) && forall m: nat :: m < first ==> !ExitsAt(width, height, m)
    decreases n
  {
    if m: nat :| m < n && ExitsAt(width, height, m) {
      first := FirstExit(width, height, m);
    } else {
      first := n;
    }
  }

  /** It ends without leaving the plane exactly for images at least two pixels wide or less than two high. */
  lemma ExitsInsideIff(width: nat, height: nat, cWidth: nat)
    requires width / 2 <= cWidth < U32 && width < U32 && height < U32
    ensures ExitsInside(width, height, cWidth) <==> width >= 2 || height < 2
  {
    if height < 2 {
      assert ExitsAt(width, height, 0);
    } else if width >= 2 {
      var n := ReachesRow(width, height / 2);
      n := FirstExit(width, height, n);
      forall m: nat | m < n
        ensures After(width, m).i < cWidth
      {
        WideStaysInside(width, height, m);
      }
    } else if n: nat :| ExitsAt(width, height, n) && forall m: nat :: m < n ==> After(width, m).i < cWidth {
      NarrowRunsOut(width, cWidth, n);
      assert false;
    }
  }

  // ----- geometry facts

  /** A plane of `n` times 32 bytes, and `odd` times 16 more for an odd height. */
  lemma PlaneSize(size: nat, n: nat, odd: nat)
    requires size == 32 * n + 16 * odd
    ensures size / 2 % 8 == 0 && size / 2 == 16 * n + 8 * odd
  {
    assert size / 2 == 8 * (2 * n + odd);
  }

  lemma PlaneFacts(q: nat, h: nat, size: nat)
    requires size == (16 * q) * h
    ensures size / 2 % 8 == 0 && h / 2 * (16 * q) <= size / 2
    ensures h % 2 == 0 ==> h / 2 * (16 * q) == size / 2
  {
    var k := h / 2;
    Commute(16 * q, h);
    EvenRows(q, k);
    if h % 2 == 1 {
      NextRow(2 * k, 16 * q);
    }
    PlaneSize(size, k * q, if h % 2 == 1 then q else 0);
    MulMono(0, k, q);
  }

  lemma EvenRows(q: nat, k: nat)
    ensures (2 * k) * (16 * q) == 32 * (k * q) && k * (16 * q) == 16 * (k * q)
  {
    Associate(k, 16, q);
    Commute(k, 16);
    Associate(16, k, q);
    Associate(2, k, 16 * q);
  }

  lemma HalfCovered(stride: nat, width: nat, cWidth: nat)
    requires width <= stride && cWidth == AlignUp(stride / 2, 16)
    ensures width / 2 <= cWidth
  {
    LeastMultiple(stride / 2, 16);
  }

  /** A chroma plane holds the rows of half the image, and its size is a multiple of eight. */
  lemma GeometryFacts(g: Geometry)
    requires g.Valid() && g.Exact()
    ensures g.width / 2 <= g.ChromaWidth()
    ensures g.ChromaSize() % 8 == 0
    ensures g.height / 2 * g.ChromaWidth() <= g.ChromaSize()
    ensures g.height % 2 == 0 ==> g.height / 2 * g.ChromaWidth() == g.ChromaSize()
  {
    var q, size := (g.stride / 2 + 15) / 16, g.ChromaWidth() * g.height;
    HalfCovered(g.stride, g.width, g.ChromaWidth());
    QuotientIs(size, U32, 0, size);
    Commute(q, 16);
    PlaneFacts(q, g.height, size);
  }

  /** Sizes of images accepted by the blitter are not cut. */
  lemma NoWrap(g: Geometry)
    requires g.stride <= 4096 && g.height <= 4096
    ensures g.Exact()
  {
    MulMono(g.stride, 4096, g.height);
    MulMono(g.ChromaWidth(), 2048, g.height);
  }

  /** The converter finds the planes where the allocator's layout of the format puts them, for every geometry. */
  lemma PlanesAgree(g: Geometry)
    requires g.Valid()
    ensures var p := GrallocLayout.PlaneInfo(GrallocLayout.Yv12, g.stride, g.height, GrallocLayout.Bits32);
            && p.y == 0 && p.ystride == g.stride && p.cstride == g.ChromaWidth() && p.step == 1
            && p.cr == g.LumaSize() && p.cb == g.LumaSize() + g.ChromaSize()
  {
    WrapIs(g.stride * g.height);
    WrapIs(g.ChromaWidth() * g.height);
  }

  lemma WrapIs(x: nat)
    ensures GrallocLayout.Wrap(x, GrallocLayout.Bits32) == x % U32
  {
    if x < U32 {
      QuotientIs(x, U32, 0, x);
    }
  }

  /** Luma pixel `c` of row `r` is the source's. */
  ghost predicate ShowsPixel(stride: nat, image: seq<byte>, now: seq<byte>, r: nat, c: nat) {
    var p := r * stride + c;
    p < |image| && p < |now| && now[p] == image[p]
  }

  ghost predicate ShowsLuma(g: Geometry, image: seq<byte>, now: seq<byte>) {
    forall r: nat, c: nat | r < g.height && c < g.width :: ShowsPixel(g.stride, image, now, r, c)
  }

  lemma PixelInside(g: Geometry, r: nat, c: nat)
    requires g.Valid() && g.Exact() && r < g.height && c < g.width
    ensures r * g.stride + c < g.LumaSize()
  {
    var size := g.stride * g.height;
    QuotientIs(size, U32, 0, size);
    MulMono(r + 1, g.height, g.stride);
    NextRow(r, g.stride);
    Commute(g.height, g.stride);
  }

  lemma LumaShows(g: Geometry, image: seq<byte>, now: seq<byte>)
    requires g.Valid() && g.Exact() && g.LumaSize() <= |image| && g.LumaSize() <= |now|
    requires forall p | 0 <= p < g.LumaSize() :: now[p] == image[p]
    ensures ShowsLuma(g, image, now)
  {
    forall r: nat, c: nat | r < g.height && c < g.width
      ensures ShowsPixel(g.stride, image, now, r, c)
    {
      PixelInside(g, r, c);
    }
  }

  lemma RowIndexAt(width: nat, height: nat, cWidth: nat, r: nat, i: nat)
    requires i < width / 2 <= cWidth && r < height / 2
    ensures var k := r * (width / 2) + i;
            && k < |RowIndices(width, height, cWidth)|
            && RowIndices(width, height, cWidth)[k] == r * cWidth + i
            && k <= r * cWidth + i < height / 2 * cWidth
  {
    var half := width / 2;
    QuotientIs(r * half + i, half, r, i);
    MulMono(r + 1, height / 2, half);
    MulMono(r + 1, height / 2, cWidth);
    NextRow(r, half);
    NextRow(r, cWidth);
    MulMono(half, cWidth, r);
    Commute(half, r);
    Commute(cWidth, r);
  }

  lemma RowIndicesInPlanes(width: nat, height: nat, cWidth: nat, cSize: nat, y: nat, size: nat)
    requires width / 2 <= cWidth && height / 2 * cWidth <= cSize && y + 2 * cSize <= size
    ensures var idx := RowIndices(width, height, cWidth); InPlanes(size, y, y + cSize, idx, |idx|)
  {
    var idx, half := RowIndices(width, height, cWidth), width / 2;
    forall k | 0 <= k < |idx|
      ensures idx[k] < cSize
    {
      DivMod(k, half);
      RowOf(k, half, height / 2);
      RowIndexAt(width, height, cWidth, k / half, k % half);
    }
  }

  lemma RowOf(k: nat, half: nat, rows: nat)
    requires half > 0 && k < rows * half
    ensures k / half < rows
  {
    if k / half >= rows {
      MulMono(rows, k / half, half);
      DivMod(k, half);
      assert false;
    }
  }

  // ----- the three interleaving loops

  /** `dst` holds the first `n` chroma pairs and is unchanged elsewhere. */
  ghost predicate Holds(dst: array<byte>, image: seq<byte>, was: seq<byte>, v: nat, u: nat, idx: seq<nat>, n: nat)
    reads dst
  {
    && InPlanes(|image|, v, u, idx, n)
    && dst.Length == |was|
    && forall p | 0 <= p < dst.Length :: dst[p] == PackedByte(image, was, v, u, idx, n, p)
  }

  /** Writes one V and one U byte at the loop's destination cursor and advances that cursor; a pair
      may straddle two destination rows. */
  method PutPair(width: nat, cWidth: nat, cSize: nat, y: nat, src: array<byte>, dst: array<byte>,
                 r1: nat, r2: nat, i: nat, j: nat,
                 ghost image: seq<byte>, ghost was: seq<byte>, ghost idx: seq<nat>, ghost n: nat)
    returns (r2': nat, j': nat)
    requires src != dst && src[..] == image && j < width && width >= 2
    requires InPlanes(|image|, y, y + cSize, idx, n + 1) && idx[n] == r1 * cWidth + i
    requires r2 * width + j == 2 * n && y + 2 * n + 1 < dst.Length
    requires Holds(dst, image, was, y, y + cSize, idx, n)
    modifies dst
    ensures (r2', j') == if j + 1 == width then (r2 + 1, 1) else (r2, j + 2)
    ensures Holds(dst, image, was, y, y + cSize, idx, n + 1)
  {
    NextRow(r2, width);
    r2', j' := r2, j;
    if j + 1 == width {
      dst[y + r2' * width + j'] := src[y + r1 * cWidth + i];
      r2' := r2' + 1;
      dst[y + r2' * width] := src[y + r1 * cWidth + i + cSize];
      j' := 1;
    } else {
      dst[y + r2' * width + j'] := src[y + r1 * cWidth + i];
      dst[y + r2' * width + j' + 1] := src[y + r1 * cWidth + i + cSize];
      j' := j' + 2;
    }
    forall p | 0 <= p < dst.Length
      ensures dst[p] == PackedByte(image, was, y, y + cSize, idx, n + 1, p)
    {
      OneMorePair(image, was, y, y + cSize, idx, n, p);
    }
  }

  /** The padded loop: r1 is the source row, r2 the destination row. */
  method InterleavePadded(width: nat, height: nat, cWidth: nat, cSize: nat, y: nat, src: array<byte>, dst: array<byte>)
    requires (width >= 2 || height < 2) && width < U32 && height < U32
    requires width / 2 <= cWidth && height / 2 * cWidth <= cSize
    requires src != dst && y + 2 * cSize <= src.Length && y + 2 * cSize <= dst.Length
    modifies dst
    ensures var idx := RowIndices(width, height, cWidth);
            Holds(dst, src[..], old(dst[..]), y, y + cSize, idx, |idx|)
  {
    ghost var image, was, idx := src[..], dst[..], RowIndices(width, height, cWidth);
    RowIndicesInPlanes(width, height, cWidth, cSize, y, |image|);
    var r1, r2, i, j := 0, 0, 0, 0;
    ghost var steps, n := 0, 0;
    while r1 < height / 2
      invariant Counters(r1, r2, i, j) == After(width, steps)
      invariant n == r1 * (width / 2) + i
      invariant width >= 2 ==> InStep(width, Counters(r1, r2, i, j))
      invariant r1 <= height / 2 && (r1 == height / 2 ==> i == 0)
      invariant Holds(dst, image, was, y, y + cSize, idx, n)
      decreases height / 2 - r1, width / 2 - i, if j == width then 1 else 0
    {
      PlainStepInStep(width, Counters(r1, r2, i, j));
      StepIsPlain(width, Counters(r1, r2, i, j));
      steps := steps + 1;
      if j == width {
        j := 0;
        r2 := r2 + 1;
        continue;
      }
      RowIndexAt(width, height, cWidth, r1, i);
      r2, j := PutPair(width, cWidth, cSize, y, src, dst, r1, r2, i, j, image, was, idx, n);
      n := n + 1;
      i := i + 1;
      if i == width / 2 {
        NextRow(r1, width / 2);
        i := 0;
        r1 := r1 + 1;
      }
    }
  }

  /** The scalar loop used when the planes carry no padding. */
  method InterleaveScalar(cSize: nat, y: nat, src: array<byte>, dst: array<byte>)
    requires src != dst && y + 2 * cSize <= src.Length && y + 2 * cSize <= dst.Length
    modifies dst
    ensures Holds(dst, src[..], old(dst[..]), y, y + cSize, FlatIndices(cSize), cSize)
  {
    ghost var image, was, idx := src[..], dst[..], FlatIndices(cSize);
    for i := 0 to cSize
      invariant Holds(dst, image, was, y, y + cSize, idx, i)
    {
      dst[y + i * 2] := src[y + i];
      dst[y + i * 2 + 1] := src[y + i + cSize];
      forall p | 0 <= p < dst.Length
        ensures dst[p] == PackedByte(image, was, y, y + cSize, idx, i + 1, p)
      {
        OneMorePair(image, was, y, y + cSize, idx, i, p);
      }
    }
  }

  /** One `vld1`, `vld1`, `vst2`: eight bytes of each plane are stored interleaved. */
  method InterleaveEight(src: array<byte>, t2: nat, t3: nat, dst: array<byte>, t1: nat)
    requires src != dst && t2 + 8 <= src.Length && t3 + 8 <= src.Length && t1 + 16 <= dst.Length
    modifies dst
    ensures forall p | 0 <= p < dst.Length ::
              dst[p] == if p < t1 || p >= t1 + 16 then old(dst[p])
                        else src[(if (p - t1) % 2 == 0 then t2 else t3) + (p - t1) / 2]
  {
    for k := 0 to 8
      invariant forall p | 0 <= p < dst.Length ::
                  dst[p] == if p < t1 || p >= t1 + 2 * k then old(dst[p])
                            else src[(if (p - t1) % 2 == 0 then t2 else t3) + (p - t1) / 2]
    {
      dst[t1 + 2 * k] := src[t2 + k];
      dst[t1 + 2 * k + 1] := src[t3 + k];
    }
  }

  /** One pass of the eight-lane loop adds eight pairs. */
  lemma EightMorePairs(image: seq<byte>, was: seq<byte>, v: nat, u: nat, n: nat, b: nat, p: nat)
    requires 8 * b + 8 <= n && v + n <= |image| && u + n <= |image| && p < |was|
    ensures PackedByte(image, was, v, u, FlatIndices(n), 8 * (b + 1), p) ==
              if p < v + 16 * b || p >= v + 16 * b + 16 then PackedByte(image, was, v, u, FlatIndices(n), 8 * b, p)
              else image[(if (p - (v + 16 * b)) % 2 == 0 then v + 8 * b else u + 8 * b) + (p - (v + 16 * b)) / 2]
  {
    if v <= p {
      var q := p - (v + 16 * b);
      assert (p - v) / 2 == 8 * b + q / 2 && (p - v) % 2 == q % 2;
    }
  }

  /** The eight-lane loop. It leaves nothing over only because a plane's size is a multiple of eight. */
  method InterleaveLanes(cSize: nat, y: nat, src: array<byte>, dst: array<byte>)
    requires cSize % 8 == 0
    requires src != dst && y + 2 * cSize <= src.Length && y + 2 * cSize <= dst.Length
    modifies dst
    ensures Holds(dst, src[..], old(dst[..]), y, y + cSize, FlatIndices(cSize), cSize)
  {
    ghost var image, was, idx := src[..], dst[..], FlatIndices(cSize);
    for b := 0 to cSize / 8
      invariant Holds(dst, image, was, y, y + cSize, idx, 8 * b)
    {
      InterleaveEight(src, y + 8 * b, y + cSize + 8 * b, dst, y + 16 * b);
      forall p | 0 <= p < dst.Length
        ensures dst[p] == PackedByte(image, was, y, y + cSize, idx, 8 * (b + 1), p)
      {
        EightMorePairs(image, was, y, y + cSize, cSize, b, p);
      }
    }
  }

  /** Without padding, packing row by row and interleaving flat select the same samples. */
  lemma RowsAreFlat(width: nat, height: nat)
    ensures RowIndices(width, height, width / 2) == FlatIndices(height / 2 * (width / 2))
  {
    var half := width / 2;
    if half > 0 {
      forall k | 0 <= k < height / 2 * half
        ensures RowIndex(half, half, k) == k
      {
        DivMod(k, half);
      }
    }
  }

  /** Without padding and with an even height, so that a plane is exactly its visible rows, the padded
      loop would fill the buffer exactly as the fast paths do. */
  lemma FastEqualsPadded(g: Geometry, image: seq<byte>, was: seq<byte>)
    requires g.Valid() && g.Exact() && g.height % 2 == 0 && g.ChromaPadding() == 0
    requires g.LumaSize() + 2 * g.ChromaSize() <= |image|
    ensures var y, u := g.LumaSize(), g.LumaSize() + g.ChromaSize();
            var rows, flat := RowIndices(g.width, g.height, g.ChromaWidth()), FlatIndices(g.ChromaSize());
            && InPlanes(|image|, y, u, rows, |rows|) && InPlanes(|image|, y, u, flat, |flat|)
            && Packed(image, was, y, u, rows) == Packed(image, was, y, u, flat)
  {
    GeometryFacts(g);
    RowsAreFlat(g.width, g.height);
  }

  /** The visible chroma sample of row `r` and column `i` sits, V before U, at its packed place. */
  ghost predicate ShowsPair(width: nat, cWidth: nat, y: nat, u: nat, image: seq<byte>, now: seq<byte>, r: nat, i: nat) {
    var k, s := r * (width / 2) + i, r * cWidth + i;
    && y + 2 * k + 1 < |now|
    && y + s < |image| && u + s < |image|
    && now[y + 2 * k] == image[y + s]
    && now[y + 2 * k + 1] == image[u + s]
  }

  ghost predicate ShowsPairs(width: nat, height: nat, cWidth: nat, y: nat, u: nat, image: seq<byte>, now: seq<byte>) {
    forall r, i | 0 <= r < height / 2 && 0 <= i < width / 2 :: ShowsPair(width, cWidth, y, u, image, now, r, i)
  }

  lemma PairAt(image: seq<byte>, was: seq<byte>, now: seq<byte>, v: nat, u: nat, idx: seq<nat>, n: nat, k: nat)
    requires InPlanes(|image|, v, u, idx, n) && k < n && |now| == |was| && v + 2 * n <= |now|
    requires forall p | 0 <= p < |now| :: now[p] == PackedByte(image, was, v, u, idx, n, p)
    ensures v + idx[k] < |image| && u + idx[k] < |image|
    ensures now[v + 2 * k] == image[v + idx[k]] && now[v + 2 * k + 1] == image[u + idx[k]]
  {
  }

  lemma RowsShowPairs(width: nat, height: nat, cWidth: nat, v: nat, u: nat,
                        image: seq<byte>, was: seq<byte>, now: seq<byte>)
    requires width / 2 <= cWidth
    requires var idx := RowIndices(width, height, cWidth);
             && InPlanes(|image|, v, u, idx, |idx|) && |now| == |was| && v + 2 * |idx| <= |now|
             && forall p | 0 <= p < |now| :: now[p] == PackedByte(image, was, v, u, idx, |idx|, p)
    ensures ShowsPairs(width, height, cWidth, v, u, image, now)
  {
    var idx := RowIndices(width, height, cWidth);
    forall r: nat, i: nat | r < height / 2 && i < width / 2
      ensures ShowsPair(width, cWidth, v, u, image, now, r, i)
    {
      RowIndexAt(width, height, cWidth, r, i);
      PairAt(image, was, now, v, u, idx, |idx|, r * (width / 2) + i);
    }
  }

  lemma FlatShowsPairs(width: nat, height: nat, n: nat, v: nat, u: nat,
                        image: seq<byte>, was: seq<byte>, now: seq<byte>)
    requires height / 2 * (width / 2) <= n
    requires InPlanes(|image|, v, u, FlatIndices(n), n) && |now| == |was| && v + 2 * n <= |now|
    requires forall p | 0 <= p < |now| :: now[p] == PackedByte(image, was, v, u, FlatIndices(n), n, p)
    ensures ShowsPairs(width, height, width / 2, v, u, image, now)
  {
    forall r: nat, i: nat | r < height / 2 && i < width / 2
      ensures ShowsPair(width, width / 2, v, u, image, now, r, i)
    {
      RowIndexAt(width, height, width / 2, r, i);
      PairAt(image, was, now, v, u, FlatIndices(n), n, r * (width / 2) + i);
    }
  }

  method CopyLuma(src: array<byte>, dst: array<byte>, y: nat)
    requires src != dst && y <= src.Length && y <= dst.Length
    modifies dst
    ensures forall p | 0 <= p < dst.Length :: dst[p] == if p < y then src[p] else old(dst[p])
  {
    forall p | 0 <= p < y {
      dst[p] := src[p];
    }
  }

  /** The chroma part of the conversion. When the padded loop runs, the bytes after the packed chroma
      stay as they were. */
  method ConvertChroma(g: Geometry, src: array<byte>, dst: array<byte>, lanes: bool, y: nat, cWidth: nat, cSize: nat)
    requires g.Valid() && (g.width / 2 < cWidth ==> g.width >= 2 || g.height < 2)
    requires g.width / 2 <= cWidth && g.height / 2 * cWidth <= cSize && cSize % 8 == 0
    requires src != dst && y + 2 * cSize <= src.Length && y + 2 * cSize <= dst.Length
    modifies dst
    ensures forall p | 0 <= p < y :: dst[p] == old(dst[p])
    ensures ShowsPairs(g.width, g.height, cWidth, y, y + cSize, src[..], dst[..])
    ensures g.width / 2 < cWidth ==>
              forall p | y + 2 * |RowIndices(g.width, g.height, cWidth)| <= p < dst.Length :: dst[p] == old(dst[p])
  {
    ghost var image, was := src[..], dst[..];
    if g.width / 2 == cWidth {
      if lanes {
        InterleaveLanes(cSize, y, src, dst);
      } else {
        InterleaveScalar(cSize, y, src, dst);
      }
      FlatShowsPairs(g.width, g.height, cSize, y, y + cSize, image, was, dst[..]);
    } else {
      InterleavePadded(g.width, g.height, cWidth, cSize, y, src, dst);
      RowsFitPlane(g.width, g.height, cWidth);
      RowsShowPairs(g.width, g.height, cWidth, y, y + cSize, image, was, dst[..]);
    }
  }

  /** `convertYV12toYCrCb420SP`. `lanes` selects the eight-lane build of the fast path. */
  method Convert(g: Geometry, src: array?<byte>, dst: array?<byte>, lanes: bool) returns (status: int)
    requires g.Valid() && g.Exact()
    requires g.width / 2 < g.ChromaWidth() ==> g.width >= 2 || g.height < 2
    requires src != null && dst != null ==>
               && src != dst
               && g.LumaSize() + 2 * g.ChromaSize() <= src.Length
               && g.LumaSize() + 2 * g.ChromaSize() <= dst.Length
    modifies dst
    ensures status == if src == null || dst == null then -1 else 0
    ensures status == 0 ==> ShowsLuma(g, src[..], dst[..])
    ensures status == 0 ==> forall p | 0 <= p < g.LumaSize() :: dst[p] == src[p]
    ensures status == 0 ==> ShowsPairs(g.width, g.height, g.ChromaWidth(), g.LumaSize(),
                                       g.LumaSize() + g.ChromaSize(), src[..], dst[..])
    ensures status == 0 && g.ChromaPadding() > 0 ==>
              forall p | g.LumaSize() + 2 * |RowIndices(g.width, g.height, g.ChromaWidth())| <= p < dst.Length ::
                dst[p] == old(dst[p])
    ensures status != 0 && dst != null ==> dst[..] == old(dst[..])
  {
    if src == null || dst == null {
      return -1;
    }
    GeometryFacts(g);
    var y, cWidth, cSize := g.LumaSize(), g.ChromaWidth(), g.ChromaSize();
    CopyLuma(src, dst, y);
    ConvertChroma(g, src, dst, lanes, y, cWidth, cSize);
    LumaShows(g, src[..], dst[..]);
    status := 0;
  }

  lemma RowsFitPlane(width: nat, height: nat, cWidth: nat)
    requires width / 2 <= cWidth
    ensures |RowIndices(width, height, cWidth)| <= height / 2 * cWidth
  {
    MulMono(width / 2, cWidth, height / 2);
    Commute(height / 2, width / 2);
    Commute(height / 2, cWidth);
  }
}
