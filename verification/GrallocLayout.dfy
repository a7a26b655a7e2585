/** Buffer sizes and plane layouts of the linear YUV formats and of compressed (UBWC) RGB buffers.
    The allocation size and the plane offsets come from different functions of gr_utils.cpp. */
module GrallocLayout {
  import opened Align

  datatype Format = YCbCr420Sp | YCrCb420Sp | YCbCr422Sp | YCrCb422Sp | P010 | Nv21Zsl | Adreno | Yv12

  /** How far unsigned sums and products can be trusted: `Bits32` is the source's `unsigned int`. */
  datatype Word = Bits32 | Unbounded

  const PAGE: nat := 4096

  function Wrap(x: nat, word: Word): nat {
    if word.Unbounded? || x < U32 then x else x % U32
  }

  function Times(a: nat, b: nat, word: Word): nat {
    Wrap(a * b, word)
  }

  function Pages(x: nat): (r: nat)
    ensures x <= r < x + PAGE
  {
    LeastMultiple(x, PAGE);
    AlignUp(x, PAGE)
  }

  /** `ALIGN(x, SIZE_4K)`. */
  function Paged(x: nat, word: Word): nat {
    Wrap(Pages(Wrap(x, word)), word)
  }

  // ----- allocation

  function AlignedWidth(f: Format, w: nat, gpuAlign: nat): nat
    requires gpuAlign > 0
  {
    match f
    case YCbCr420Sp | YCrCb420Sp => AlignUp(w, gpuAlign)
    case Adreno => AlignUp(w, 32)
    case Yv12 | YCbCr422Sp | YCrCb422Sp | P010 => AlignUp(w, 16)
    case Nv21Zsl => AlignUp(w, 64)
  }

  function AlignedHeight(f: Format, h: nat): nat {
    if f.Nv21Zsl? then AlignUp(h, 64) else h
  }

  /** The chroma area that two of the formats compute on its own. */
  function ChromaArea(f: Format, w: nat, h: nat, aw: nat, ah: nat, word: Word): nat {
    match f
    case Adreno => Times(AlignUp(w / 2, 32), AlignUp(h / 2, 32), word)
    case Yv12 => Times(AlignUp(aw / 2, 16), ah / 2, word)
    case _ => 0
  }

  /** The bytes asked for before rounding to pages; an unsigned sum may as well wrap once, at its end. */
  function Requested(f: Format, area: nat, chroma: nat): nat {
    match f
    case YCbCr420Sp | YCrCb420Sp => area + area / 2 + 1
    case P010 => area * 2 + area + 1
    case YCbCr422Sp | YCrCb422Sp => area * 2
    case Nv21Zsl => area + area / 2
    case Adreno => area
    case Yv12 => area + chroma * 2
  }

  /** The bytes for one layer before the final data alignment. */
  function RawSize(f: Format, area: nat, chroma: nat, word: Word): nat {
    var pages := Paged(Requested(f, area, chroma), word);
    if f.Adreno? then Wrap(pages + Paged(2 * chroma, word), word) else pages
  }

  /** `GetSize`; zero is the source's refusal. */
  function GetSize(f: Format, w: nat, h: nat, aw: nat, ah: nat, dataAlign: nat, layers: nat, word: Word): nat
    requires dataAlign > 0
  {
    if f.Yv12? && (w % 2 == 1 || h % 2 == 1) then 0
    else if Is422(f) && w % 2 == 1 then 0
    else
      var raw := RawSize(f, Times(aw, ah, word), ChromaArea(f, w, h, aw, ah, word), word);
      Times(Wrap(AlignUp(raw, dataAlign), word), layers, word)
  }

  // ----- planes

  datatype Planes = Planes(y: nat, cb: nat, cr: nat, ystride: nat, cstride: nat, step: nat)

  /** `GetYuvSPPlaneInfo`, relative to the buffer's base. */
  function SpPlanes(width: nat, height: nat, bpp: nat, word: Word): Planes {
    var ystride := Times(width, bpp, word);
    var chroma := Times(ystride, height, word);
    Planes(0, chroma, chroma + 1, ystride, ystride, 2 * bpp)
  }

  function SwapChroma(p: Planes): Planes {
    p.(cb := p.cr, cr := p.cb)
  }

  /** `GetYUVPlaneInfo` on a handle of `width` by `height`, the aligned dimensions. */
  function PlaneInfo(f: Format, width: nat, height: nat, word: Word): Planes {
    match f
    case YCbCr420Sp | YCbCr422Sp => SpPlanes(width, height, 1, word)
    case P010 => SpPlanes(width, height, 2, word)
    case YCrCb420Sp | YCrCb422Sp | Adreno | Nv21Zsl => SwapChroma(SpPlanes(width, height, 1, word))
    case Yv12 =>
      var cstride := AlignUp(width / 2, 16);
      var luma := Times(width, height, word);
      Planes(0, luma + Times(cstride, height, word) / 2, luma, width, cstride, 1)
  }

  // ----- what the planes are for

  /** One sample of an image. */
  datatype Sample = Y(row: nat, col: nat) | Cb(row: nat, col: nat) | Cr(row: nat, col: nat)

  function SampleBytes(f: Format): nat {
    if f.P010? then 2 else 1
  }

  /** The bytes of `n` adjacent samples. */
  function Bytes(f: Format, n: nat): nat {
    if f.P010? then 2 * n else n
  }

  predicate Is422(f: Format) {
    f.YCbCr422Sp? || f.YCrCb422Sp?
  }

  function ChromaRows(f: Format, h: nat): nat {
    if Is422(f) then h else (h + 1) / 2
  }

  predicate InImage(f: Format, w: nat, h: nat, s: Sample) {
    if s.Y? then s.row < h && s.col < w else s.row < ChromaRows(f, h) && s.col < (w + 1) / 2
  }

  function Address(f: Format, p: Planes, s: Sample): nat {
    match s
    case Y(r, c) => p.y + Span(r, p.ystride) + Bytes(f, c)
    case Cb(r, c) => p.cb + Span(r, p.cstride) + Span(c, p.step)
    case Cr(r, c) => p.cr + Span(r, p.cstride) + Span(c, p.step)
  }

  ghost predicate SamplesInside(f: Format, w: nat, h: nat, p: Planes, size: nat) {
    forall s | InImage(f, w, h, s) :: Address(f, p, s) + SampleBytes(f) <= size
  }

  predicate Apart(x: nat, y: nat, n: nat) {
    x + n <= y || y + n <= x
  }

  ghost predicate SamplesApart(f: Format, w: nat, h: nat, p: Planes) {
    forall s, t | InImage(f, w, h, s) && InImage(f, w, h, t) && s != t ::
      Apart(Address(f, p, s), Address(f, p, t), SampleBytes(f))
  }

  // ----- no wrap when the size itself fits

  lemma RawSizeNoWrap(f: Format, area: nat, chroma: nat)
    requires RawSize(f, area, chroma, Unbounded) < U32
    ensures RawSize(f, area, chroma, Bits32) == RawSize(f, area, chroma, Unbounded)
    ensures area <= RawSize(f, area, chroma, Unbounded)
    ensures f.Adreno? || f.Yv12? ==> 2 * chroma <= RawSize(f, area, chroma, Unbounded)
    ensures f.P010? ==> 2 * area <= RawSize(f, area, chroma, Unbounded)
  {
    PagedNoWrap(Requested(f, area, chroma));
    if f.Adreno? {
      PagedNoWrap(2 * chroma);
    }
  }

  lemma PagedNoWrap(x: nat)
    requires Paged(x, Unbounded) < U32
    ensures x <= Paged(x, Unbounded) == Paged(x, Bits32)
  {
  }

  lemma LayersNoWrap(raw: nat, dataAlign: nat, layers: nat)
    requires dataAlign > 0 && layers > 0
    requires Times(AlignUp(raw, dataAlign), layers, Unbounded) < U32
    ensures raw <= Times(AlignUp(raw, dataAlign), layers, Unbounded)
    ensures AlignUp(raw, dataAlign) < U32
  {
    LeastMultiple(raw, dataAlign);
    MulMono(1, layers, AlignUp(raw, dataAlign));
    Commute(layers, AlignUp(raw, dataAlign));
  }

  /** A size below 4 GiB is computed without a wrap on the way. */
  lemma GetSizeNoWrap(f: Format, w: nat, h: nat, aw: nat, ah: nat, dataAlign: nat, layers: nat)
    requires dataAlign > 0 && layers > 0 && (Is422(f) || f.Yv12? ==> w % 2 == 0) && (f.Yv12? ==> h % 2 == 0)
    requires GetSize(f, w, h, aw, ah, dataAlign, layers, Unbounded) < U32
    ensures var size := GetSize(f, w, h, aw, ah, dataAlign, layers, Unbounded);
            && GetSize(f, w, h, aw, ah, dataAlign, layers, Bits32) == size
            && RawSize(f, aw * ah, ChromaArea(f, w, h, aw, ah, Unbounded), Unbounded) <= size
  {
    var area, chroma := Times(aw, ah, Unbounded), ChromaArea(f, w, h, aw, ah, Unbounded);
    LayersNoWrap(RawSize(f, area, chroma, Unbounded), dataAlign, layers);
    RawSizeNoWrap(f, area, chroma);
  }

  /** A product with an even factor is twice the product with its half. */
  lemma HalfProduct(a: nat, b: nat)
    requires b % 2 == 0
    ensures a * b == 2 * (a * (b / 2))
  {
    Twice(a, b / 2);
  }

  lemma Twice(a: nat, k: nat)
    ensures a * (2 * k) == 2 * (a * k) && (2 * a) * k == 2 * (a * k)
  {
  }

  lemma StrideTimes(b: nat, aw: nat, rows: nat)
    requires 1 <= b <= 2
    ensures (aw * b) * rows == b * (aw * rows)
  {
    Twice(aw, rows);
  }

  lemma SpPlanesExact(f: Format, aw: nat, ah: nat, area: nat, chroma: nat)
    requires !f.Yv12? && ah > 0 && area == aw * ah && RawSize(f, area, chroma, Unbounded) < U32
    ensures PlaneInfo(f, aw, ah, Bits32) == PlaneInfo(f, aw, ah, Unbounded)
  {
    RawSizeNoWrap(f, area, chroma);
    StrideTimes(SampleBytes(f), aw, ah);
    SpPlanesNoWrap(aw, ah, SampleBytes(f));
  }

  lemma SpPlanesNoWrap(width: nat, height: nat, bpp: nat)
    requires height > 0 && (width * bpp) * height < U32
    ensures SpPlanes(width, height, bpp, Bits32) == SpPlanes(width, height, bpp, Unbounded)
  {
    MulMono(1, height, width * bpp);
    Commute(height, width * bpp);
  }

  lemma Yv12PlanesExact(aw: nat, ah: nat, area: nat, chroma: nat)
    requires ah % 2 == 0 && area == aw * ah && chroma == AlignUp(aw / 2, 16) * (ah / 2)
    requires RawSize(Yv12, area, chroma, Unbounded) < U32
    ensures PlaneInfo(Yv12, aw, ah, Bits32) == PlaneInfo(Yv12, aw, ah, Unbounded)
  {
    RawSizeNoWrap(Yv12, area, chroma);
    HalfProduct(AlignUp(aw / 2, 16), ah);
  }

  // ----- rows

  lemma RowEnd(stride: nat, rows: nat, r: nat, x: nat)
    requires r < rows && x <= stride
    ensures Span(r, stride) + x <= Span(rows, stride)
  {
    SpanMono(r + 1, rows, stride);
  }

  lemma PositionsDiffer(stride: nat, r: nat, x: nat, q: nat, y: nat)
    requires x < stride && y < stride && (r != q || x != y)
    ensures Span(r, stride) + x != Span(q, stride) + y
  {
    if r < q {
      RowEnd(stride, q, r, x + 1);
    } else if q < r {
      RowEnd(stride, r, q, y + 1);
    }
  }

  // ----- the two shapes of a layout

  /** Chroma pairs starting at `chroma`, with luma's stride. */
  predicate Pairs(f: Format, p: Planes, chroma: nat) {
    && p.y == 0 && p.cstride == p.ystride && p.step == 2 * SampleBytes(f)
    && ((p.cb == chroma && p.cr == chroma + 1) || (p.cb == chroma + 1 && p.cr == chroma))
  }

  /** Chroma pairs behind luma, rows wide enough for the image. */
  predicate Behind(f: Format, p: Planes, w: nat, h: nat, chroma: nat) {
    && Pairs(f, p, chroma)
    && Bytes(f, w) <= p.ystride && 2 * Bytes(f, (w + 1) / 2) <= p.ystride
    && Span(h, p.ystride) <= chroma
  }

  /** The same, ending by `end`. */
  predicate SemiPlanar(f: Format, p: Planes, w: nat, h: nat, chroma: nat, end: nat) {
    Behind(f, p, w, h, chroma) && chroma + Span(ChromaRows(f, h), p.ystride) <= end
  }

  /** Luma, then red difference, then blue difference. */
  predicate Planar(p: Planes, w: nat, h: nat, end: nat) {
    && p.y == 0 && p.step == 1 && w <= p.ystride && (w + 1) / 2 <= p.cstride
    && Span(h, p.ystride) <= p.cr && p.cr + Span((h + 1) / 2, p.cstride) <= p.cb
    && p.cb + Span((h + 1) / 2, p.cstride) <= end
  }

  lemma SpInside(f: Format, p: Planes, w: nat, h: nat, chroma: nat, end: nat, s: Sample)
    requires SemiPlanar(f, p, w, h, chroma, end) && InImage(f, w, h, s)
    ensures Address(f, p, s) + SampleBytes(f) <= end
  {
    if s.Y? {
      RowEnd(p.ystride, h, s.row, Bytes(f, s.col) + SampleBytes(f));
    } else {
      SpanIs(s.col, p.step);
      RowEnd(p.ystride, ChromaRows(f, h), s.row, Span(s.col, p.step) + 1 + SampleBytes(f));
    }
  }

  lemma PlanarInside(p: Planes, w: nat, h: nat, end: nat, s: Sample)
    requires Planar(p, w, h, end) && InImage(Yv12, w, h, s)
    ensures Address(Yv12, p, s) + 1 <= end
    ensures s.Y? ==> Address(Yv12, p, s) < p.cr
    ensures s.Cr? ==> p.cr <= Address(Yv12, p, s) < p.cb
    ensures s.Cb? ==> p.cb <= Address(Yv12, p, s)
  {
    if s.Y? {
      RowEnd(p.ystride, h, s.row, s.col + 1);
    } else {
      SpanIs(s.col, 1);
      RowEnd(p.cstride, (h + 1) / 2, s.row, s.col + 1);
    }
  }

  lemma SpApart(f: Format, p: Planes, w: nat, h: nat, chroma: nat, end: nat, s: Sample, t: Sample)
    requires SemiPlanar(f, p, w, h, chroma, end) && !f.P010?
    requires InImage(f, w, h, s) && InImage(f, w, h, t) && s != t
    ensures Address(f, p, s) != Address(f, p, t)
  {
    if s.Y? && t.Y? {
      PositionsDiffer(p.ystride, s.row, s.col, t.row, t.col);
    } else if s.Y? {
      LumaBelow(f, p, w, h, chroma, s);
    } else if t.Y? {
      LumaBelow(f, p, w, h, chroma, t);
    } else {
      SpAddress(f, p, s, chroma);
      SpAddress(f, p, t, chroma);
      SlotsDiffer(p, s, t, (w + 1) / 2, chroma, Address(f, p, s), Address(f, p, t));
    }
  }

  lemma SpAddress(f: Format, p: Planes, s: Sample, chroma: nat)
    requires !s.Y? && p.cstride == p.ystride && p.step == 2
    requires (p.cb == chroma && p.cr == chroma + 1) || (p.cb == chroma + 1 && p.cr == chroma)
    ensures Address(f, p, s) == chroma + Span(s.row, p.ystride) + Slot(p, s)
  {
    SpanIs(s.col, 2);
  }

  lemma SlotsDiffer(p: Planes, s: Sample, t: Sample, cols: nat, chroma: nat, x: nat, y: nat)
    requires !s.Y? && !t.Y? && s != t && p.cb != p.cr && 2 * cols <= p.ystride && s.col < cols && t.col < cols
    requires x == chroma + Span(s.row, p.ystride) + Slot(p, s) && y == chroma + Span(t.row, p.ystride) + Slot(p, t)
    ensures x != y
  {
    PositionsDiffer(p.ystride, s.row, Slot(p, s), t.row, Slot(p, t));
  }

  /** Where a chroma sample lies in its row of pairs. */
  function Slot(p: Planes, s: Sample): nat
    requires !s.Y?
  {
    2 * s.col + if (s.Cb? && p.cb > p.cr) || (s.Cr? && p.cr > p.cb) then 1 else 0
  }

  lemma PlanarApart(p: Planes, w: nat, h: nat, end: nat, s: Sample, t: Sample)
    requires Planar(p, w, h, end) && InImage(Yv12, w, h, s) && InImage(Yv12, w, h, t) && s != t
    ensures Address(Yv12, p, s) != Address(Yv12, p, t)
  {
    if s.Y? && t.Y? {
      PositionsDiffer(p.ystride, s.row, s.col, t.row, t.col);
    } else if (s.Cb? && t.Cb?) || (s.Cr? && t.Cr?) {
      SpanIs(s.col, 1);
      SpanIs(t.col, 1);
      PositionsDiffer(p.cstride, s.row, s.col, t.row, t.col);
    } else {
      PlanarInside(p, w, h, end, s);
      PlanarInside(p, w, h, end, t);
    }
  }

  /** In P010 the red-difference samples start one byte, half a sample, behind the blue-difference ones. */
  lemma P010Overlaps(w: nat, h: nat, p: Planes)
    requires w > 0 && h > 0 && p.cr == p.cb + 1
    ensures !SamplesApart(P010, w, h, p)
  {
    var s, t := Cb(0, 0), Cr(0, 0);
    assert InImage(P010, w, h, s) && InImage(P010, w, h, t);
    assert !Apart(Address(P010, p, s), Address(P010, p, t), 2);
  }

  // ----- the source's layouts have these shapes

  lemma AtLeast(x: nat, a: nat)
    requires a > 0
    ensures x <= AlignUp(x, a)
  {
    LeastMultiple(x, a);
  }

  lemma AtMost(x: nat, a: nat, m: nat)
    requires a > 0 && x <= m && m % a == 0
    ensures AlignUp(x, a) <= m
  {
    LeastMultiple(x, a);
  }

  lemma AdrenoPadding(w: nat, h: nat)
    requires w % 2 == 0
    ensures AlignUp(w, 32) <= 2 * AlignUp(w / 2, 32) && h / 2 <= AlignUp(h / 2, 32)
  {
    AtLeast(w / 2, 32);
    AtLeast(h / 2, 32);
    AtMost(w, 32, 2 * ((w / 2 + 31) / 32 * 32));
  }

  lemma AlignedWidthCovers(f: Format, w: nat, gpuAlign: nat)
    requires gpuAlign > 0
    ensures w <= AlignedWidth(f, w, gpuAlign)
  {
    match f
    case YCbCr420Sp | YCrCb420Sp => AtLeast(w, gpuAlign);
    case Adreno => AtLeast(w, 32);
    case Yv12 | YCbCr422Sp | YCrCb422Sp | P010 => AtLeast(w, 16);
    case Nv21Zsl => AtLeast(w, 64);
  }

  /** `x` is `w` rounded up to a multiple of `align`, and no further. */
  predicate PaddedTo(w: nat, x: nat, align: nat)
    requires align > 0
  {
    x % align == 0 && w <= x < w + align
  }

  /** Which padding each format gets, and no more: the GPU's, 16, 32 or 64 pixels in width, and 64 rows for one format
      only. */
  lemma PaddedExactly(f: Format, w: nat, h: nat, gpuAlign: nat)
    requires gpuAlign > 0
    ensures f.YCbCr420Sp? || f.YCrCb420Sp? ==> PaddedTo(w, AlignedWidth(f, w, gpuAlign), gpuAlign)
    ensures f.Yv12? || Is422(f) || f.P010? ==> PaddedTo(w, AlignedWidth(f, w, gpuAlign), 16)
    ensures f.Adreno? ==> PaddedTo(w, AlignedWidth(f, w, gpuAlign), 32)
    ensures f.Nv21Zsl? ==> PaddedTo(w, AlignedWidth(f, w, gpuAlign), 64) && PaddedTo(h, AlignedHeight(f, h), 64)
    ensures !f.Nv21Zsl? ==> AlignedHeight(f, h) == h
  {
    var align := match f
      case YCbCr420Sp | YCrCb420Sp => gpuAlign
      case Adreno => 32
      case Nv21Zsl => 64
      case _ => 16;
    LeastMultiple(w, align);
    LeastMultiple(h, 64);
  }

  lemma AlignedHeightCovers(f: Format, h: nat)
    requires h % 2 == 0
    ensures h <= AlignedHeight(f, h) && AlignedHeight(f, h) % 2 == 0
  {
    AtLeast(h, 64);
    EvenMultiple((h + 63) / 64, AlignUp(h, 64));
  }

  lemma EvenMultiple(q: nat, x: nat)
    requires x == q * 64
    ensures x % 2 == 0
  {
    QuotientIs(x, 2, 32 * q, 0);
  }

  /** Dimensions padded as the plane layout needs them. */
  predicate Padded(f: Format, w: nat, h: nat, aw: nat, ah: nat) {
    && 0 < w <= aw && 0 < h <= ah && w % 2 == 0 && h % 2 == 0 && ah % 2 == 0 && (f.Yv12? ==> ah == h)
    && (f.Adreno? ==> aw <= 2 * AlignUp(w / 2, 32) && ah / 2 <= AlignUp(h / 2, 32))
  }

  lemma RowsTimes(aw: nat, rows: nat, x: nat, y: nat)
    requires aw <= 2 * x && rows <= y
    ensures aw * rows <= 2 * (x * y)
  {
    MulMono(aw, 2 * x, rows);
    Twice(x, rows);
    MulMono(rows, y, x);
    Commute(x, y);
    Commute(x, rows);
  }

  /** The semi-planar sizes have room for `ah` rows of luma and the chroma rows behind them. */
  lemma SpRoom(f: Format, w: nat, h: nat, aw: nat, ah: nat, area: nat, chroma: nat)
    requires !f.Yv12? && area == aw * ah && Padded(f, w, h, aw, ah)
    requires f.Adreno? ==> chroma == AlignUp(w / 2, 32) * AlignUp(h / 2, 32)
    ensures var half := aw * (ah / 2);
            area == 2 * half && Bytes(f, area) + Bytes(f, if Is422(f) then area else half)
            <= RawSize(f, area, chroma, Unbounded)
  {
    HalfProduct(aw, ah);
    if f.Adreno? {
      RowsTimes(aw, ah / 2, AlignUp(w / 2, 32), AlignUp(h / 2, 32));
    }
  }

  lemma SpanOf(f: Format, n: nat, aw: nat)
    ensures Span(n, Bytes(f, aw)) == Bytes(f, aw * n)
  {
    SpanIs(n, Bytes(f, aw));
    Commute(n, aw);
    Commute(n, 2 * aw);
    Twice(aw, n);
  }

  lemma SpPlanesAre(f: Format, aw: nat, ah: nat, area: nat)
    requires !f.Yv12? && area == aw * ah
    ensures var p, chroma := PlaneInfo(f, aw, ah, Unbounded), Bytes(f, area);
            && Pairs(f, p, chroma) && p.ystride == Bytes(f, aw)
            && (BlueFirst(f) <==> p.cr == p.cb + 1)
  {
    StrideTimes(SampleBytes(f), aw, ah);
  }

  /** Room for the padded rows is room for the rows of the image. */
  lemma SpRows(f: Format, h: nat, aw: nat, ah: nat, area: nat, half: nat, end: nat)
    requires h <= ah && h % 2 == 0 && ah % 2 == 0 && area == aw * ah && half == aw * (ah / 2)
    requires Bytes(f, area) + Bytes(f, if Is422(f) then area else half) <= end
    ensures Span(h, Bytes(f, aw)) <= Bytes(f, area)
    ensures Bytes(f, area) + Span(ChromaRows(f, h), Bytes(f, aw)) <= end
  {
    SpanOf(f, ah, aw);
    SpanOf(f, ah / 2, aw);
    SpanMono(h, ah, Bytes(f, aw));
    SpanMono(h / 2, ah / 2, Bytes(f, aw));
  }

  lemma SpShape(f: Format, p: Planes, w: nat, h: nat, aw: nat, ah: nat, area: nat, half: nat, end: nat)
    requires Pairs(f, p, Bytes(f, area)) && p.ystride == Bytes(f, aw) && w <= aw && w % 2 == 0
    requires h <= ah && h % 2 == 0 && ah % 2 == 0 && area == aw * ah && half == aw * (ah / 2)
    requires Bytes(f, area) + Bytes(f, if Is422(f) then area else half) <= end
    ensures SemiPlanar(f, p, w, h, Bytes(f, area), end)
  {
    SpRows(f, h, aw, ah, area, half, end);
    SpWide(f, p, w, h, aw, Bytes(f, area), end);
  }

  lemma SpWide(f: Format, p: Planes, w: nat, h: nat, aw: nat, chroma: nat, end: nat)
    requires Pairs(f, p, chroma) && p.ystride == Bytes(f, aw) && w <= aw && w % 2 == 0
    requires Span(h, p.ystride) <= chroma && chroma + Span(ChromaRows(f, h), p.ystride) <= end
    ensures SemiPlanar(f, p, w, h, chroma, end)
  {
  }

  lemma Yv12PlanesAre(aw: nat, h: nat, cstride: nat, area: nat, chroma: nat)
    requires h % 2 == 0 && cstride == AlignUp(aw / 2, 16) && area == aw * h && chroma == cstride * (h / 2)
    ensures PlaneInfo(Yv12, aw, h, Unbounded) == Planes(0, area + chroma, area, aw, cstride, 1)
  {
    HalfProduct(cstride, h);
  }

  lemma PlanarRows(w: nat, h: nat, aw: nat, cstride: nat, area: nat, chroma: nat, end: nat)
    requires h % 2 == 0 && w % 2 == 0 && w <= aw && aw / 2 <= cstride
    requires area == aw * h && chroma == cstride * (h / 2) && area + 2 * chroma <= end
    ensures Planar(Planes(0, area + chroma, area, aw, cstride, 1), w, h, end)
  {
    SpanIs(h, aw);
    Commute(h, aw);
    SpanIs(h / 2, cstride);
    Commute(h / 2, cstride);
  }

  lemma Yv12Shape(w: nat, h: nat, aw: nat, area: nat, chroma: nat, end: nat)
    requires Padded(Yv12, w, h, aw, h) && area == aw * h && chroma == AlignUp(aw / 2, 16) * (h / 2)
    requires RawSize(Yv12, area, chroma, Unbounded) <= end
    ensures Planar(PlaneInfo(Yv12, aw, h, Unbounded), w, h, end)
  {
    var cstride := AlignUp(aw / 2, 16);
    AtLeast(aw / 2, 16);
    Yv12PlanesAre(aw, h, cstride, area, chroma);
    PlanarRows(w, h, aw, cstride, area, chroma, end);
  }

  // ----- main results

  /** The formats named YCbCr put the blue difference first, YCrCb, NV21 and YV12 the red difference. */
  predicate BlueFirst(f: Format) {
    f.YCbCr420Sp? || f.YCbCr422Sp? || f.P010?
  }

  /** What the layout promises of every sample. */
  ghost predicate LaidOut(f: Format, w: nat, h: nat, p: Planes, size: nat) {
    && SamplesInside(f, w, h, p, size)
    && (if BlueFirst(f) then p.cb < p.cr else p.cr < p.cb)
    && (SamplesApart(f, w, h, p) <==> !f.P010?)
  }

  lemma SpLaidOut(f: Format, p: Planes, w: nat, h: nat, chroma: nat, size: nat)
    requires w > 0 && h > 0 && !f.Yv12? && SemiPlanar(f, p, w, h, chroma, size) && (BlueFirst(f) <==> p.cr == p.cb + 1)
    ensures LaidOut(f, w, h, p, size)
  {
    forall s | InImage(f, w, h, s)
      ensures Address(f, p, s) + SampleBytes(f) <= size
    {
      SpInside(f, p, w, h, chroma, size, s);
    }
    if f.P010? {
      P010Overlaps(w, h, p);
    } else {
      forall s, t | InImage(f, w, h, s) && InImage(f, w, h, t) && s != t
        ensures Apart(Address(f, p, s), Address(f, p, t), SampleBytes(f))
      {
        SpApart(f, p, w, h, chroma, size, s, t);
      }
    }
  }

  lemma PlanarLaidOut(p: Planes, w: nat, h: nat, size: nat)
    requires w > 0 && h > 0 && Planar(p, w, h, size)
    ensures LaidOut(Yv12, w, h, p, size)
  {
    PlanarInside(p, w, h, size, Cr(0, 0));
    forall s | InImage(Yv12, w, h, s)
      ensures Address(Yv12, p, s) + SampleBytes(Yv12) <= size
    {
      PlanarInside(p, w, h, size, s);
    }
    forall s, t | InImage(Yv12, w, h, s) && InImage(Yv12, w, h, t) && s != t
      ensures Apart(Address(Yv12, p, s), Address(Yv12, p, t), SampleBytes(Yv12))
    {
      PlanarApart(p, w, h, size, s, t);
    }
  }

  /** Where the last padded row of the last plane ends. */
  function LayoutEnd(f: Format, p: Planes, ah: nat): nat {
    if f.Yv12? then p.cb + Span(ah / 2, p.cstride)
    else (if p.cb < p.cr then p.cb else p.cr) + Span(if Is422(f) then ah else ah / 2, p.cstride)
  }

  /** Nothing more is allocated than the planes need: outside the Adreno format, whose chroma is padded on its own, the
      layout ends on the last page. */
  lemma SizeTight(f: Format, aw: nat, ah: nat, area: nat, chroma: nat)
    requires !f.Adreno? && ah % 2 == 0 && area == aw * ah
    requires f.Yv12? ==> chroma == AlignUp(aw / 2, 16) * (ah / 2)
    ensures var end := LayoutEnd(f, PlaneInfo(f, aw, ah, Unbounded), ah);
            end <= RawSize(f, area, chroma, Unbounded) <= end + PAGE
  {
    HalfProduct(aw, ah);
    if f.Yv12? {
      var cstride := AlignUp(aw / 2, 16);
      Yv12PlanesAre(aw, ah, cstride, area, chroma);
      SpanIs(ah / 2, cstride);
      Commute(ah / 2, cstride);
    } else {
      SpPlanesAre(f, aw, ah, area);
      SpanOf(f, ah, aw);
      SpanOf(f, ah / 2, aw);
      TightPages(f, area, aw * (ah / 2));
    }
  }

  lemma TightPages(f: Format, area: nat, half: nat)
    requires !f.Adreno? && !f.Yv12? && area == 2 * half
    ensures var end := Bytes(f, area) + Bytes(f, if Is422(f) then area else half);
            end <= RawSize(f, area, 0, Unbounded) <= end + PAGE
  {
  }

  /** The Adreno format takes whole pages for luma and for two chroma samples per pair of padded dimensions. */
  lemma AdrenoTight(w: nat, h: nat, area: nat, chroma: nat)
    requires chroma == AlignUp(w / 2, 32) * AlignUp(h / 2, 32)
    ensures area + 2 * chroma <= RawSize(Adreno, area, chroma, Unbounded) < area + 2 * chroma + 2 * PAGE
  {
  }

  /** A size of zero, which is how an image is refused, is given exactly for odd dimensions of the formats that cannot
      have them. */
  lemma RefusedIff(f: Format, w: nat, h: nat, aw: nat, ah: nat, dataAlign: nat, layers: nat)
    requires aw > 0 && ah > 0 && dataAlign > 0 && layers > 0
    ensures GetSize(f, w, h, aw, ah, dataAlign, layers, Unbounded) == 0
            <==> (f.Yv12? && (w % 2 == 1 || h % 2 == 1)) || (Is422(f) && w % 2 == 1)
  {
    var raw := RawSize(f, aw * ah, ChromaArea(f, w, h, aw, ah, Unbounded), Unbounded);
    MulMono(1, ah, aw);
    Commute(ah, aw);
    assert raw > 0;
    LeastMultiple(raw, dataAlign);
    MulMono(1, layers, AlignUp(raw, dataAlign));
    Commute(layers, AlignUp(raw, dataAlign));
  }

  lemma SizeHolds(f: Format, w: nat, h: nat, aw: nat, ah: nat, area: nat, chroma: nat, size: nat)
    requires Padded(f, w, h, aw, ah) && area == aw * ah && chroma == ChromaArea(f, w, h, aw, ah, Unbounded)
    requires RawSize(f, area, chroma, Unbounded) <= size < U32
    ensures LaidOut(f, w, h, PlaneInfo(f, aw, ah, Bits32), size)
  {
    if f.Yv12? {
      Yv12PlanesExact(aw, ah, area, chroma);
      Yv12Shape(w, h, aw, area, chroma, size);
      PlanarLaidOut(PlaneInfo(f, aw, ah, Unbounded), w, h, size);
    } else {
      SpPlanesExact(f, aw, ah, area, chroma);
      var p := PlaneInfo(f, aw, ah, Unbounded);
      SpRoom(f, w, h, aw, ah, area, chroma);
      SpPlanesAre(f, aw, ah, area);
      SpShape(f, p, w, h, aw, ah, area, aw * (ah / 2), size);
      SpLaidOut(f, p, w, h, Bytes(f, area), size);
    }
  }

  lemma PaddedSizeHolds(f: Format, w: nat, h: nat, aw: nat, ah: nat, dataAlign: nat, layers: nat)
    requires dataAlign > 0 && layers > 0 && Padded(f, w, h, aw, ah)
    requires GetSize(f, w, h, aw, ah, dataAlign, layers, Unbounded) < U32
    ensures LaidOut(f, w, h, PlaneInfo(f, aw, ah, Bits32), GetSize(f, w, h, aw, ah, dataAlign, layers, Bits32))
  {
    var size, chroma := GetSize(f, w, h, aw, ah, dataAlign, layers, Bits32), ChromaArea(f, w, h, aw, ah, Unbounded);
    GetSizeNoWrap(f, w, h, aw, ah, dataAlign, layers);
    SizeHolds(f, w, h, aw, ah, aw * ah, chroma, size);
  }

  /** For even dimensions whose size fits 32 bits, the planes that `GetYUVPlaneInfo` hands out lie inside what
      `GetSize` allocated, sample by sample, and no two samples share a byte except in P010. */
  lemma EvenImagesLaidOut(f: Format, w: nat, h: nat, gpuAlign: nat, dataAlign: nat, layers: nat)
    requires gpuAlign > 0 && dataAlign > 0 && layers > 0
    requires w > 0 && h > 0 && w % 2 == 0 && h % 2 == 0
    requires GetSize(f, w, h, AlignedWidth(f, w, gpuAlign), AlignedHeight(f, h), dataAlign, layers, Unbounded) < U32
    ensures var aw, ah := AlignedWidth(f, w, gpuAlign), AlignedHeight(f, h);
            LaidOut(f, w, h, PlaneInfo(f, aw, ah, Bits32), GetSize(f, w, h, aw, ah, dataAlign, layers, Bits32))
  {
    AlignedWidthCovers(f, w, gpuAlign);
    AlignedHeightCovers(f, h);
    AdrenoPadding(w, h);
    PaddedSizeHolds(f, w, h, AlignedWidth(f, w, gpuAlign), AlignedHeight(f, h), dataAlign, layers);
  }

  // ----- odd heights

  /** Where the last chroma pair of a semi-planar layout ends. */
  function LastPairEnd(stride: nat, cols: nat, rows: nat, chroma: nat): nat
    requires rows > 0
  {
    chroma + Span(rows - 1, stride) + 2 * cols
  }

  /** The samples fit exactly when the last chroma pair does. */
  lemma InsideIffLastPair(f: Format, p: Planes, w: nat, h: nat, cols: nat, rows: nat, chroma: nat, size: nat)
    requires w > 0 && h > 0 && !f.P010? && Behind(f, p, w, h, chroma) && cols == (w + 1) / 2 && rows == ChromaRows(f, h)
    ensures SamplesInside(f, w, h, p, size) <==> LastPairEnd(p.ystride, cols, rows, chroma) <= size
  {
    var last := if p.cb < p.cr then Cr(rows - 1, cols - 1) else Cb(rows - 1, cols - 1);
    SpAddress(f, p, last, chroma);
    assert InImage(f, w, h, last);
    if LastPairEnd(p.ystride, cols, rows, chroma) <= size {
      forall s | InImage(f, w, h, s)
        ensures Address(f, p, s) + SampleBytes(f) <= size
      {
        BelowLastPair(f, p, w, h, cols, rows, chroma, s);
      }
    }
  }

  lemma BelowLastPair(f: Format, p: Planes, w: nat, h: nat, cols: nat, rows: nat, chroma: nat, s: Sample)
    requires h > 0 && !f.P010? && Behind(f, p, w, h, chroma) && cols == (w + 1) / 2 && rows == ChromaRows(f, h)
    requires InImage(f, w, h, s)
    ensures Address(f, p, s) + 1 <= LastPairEnd(p.ystride, cols, rows, chroma)
  {
    if s.Y? {
      LumaBelow(f, p, w, h, chroma, s);
    } else {
      SpAddress(f, p, s, chroma);
      PairBelow(p, s, rows - 1, cols);
    }
  }

  lemma LumaBelow(f: Format, p: Planes, w: nat, h: nat, chroma: nat, s: Sample)
    requires s.Y? && s.row < h && s.col < w <= p.ystride && p.y == 0 && Span(h, p.ystride) <= chroma && !f.P010?
    ensures Address(f, p, s) < chroma
  {
    RowEnd(p.ystride, h, s.row, s.col + 1);
  }

  lemma PairBelow(p: Planes, s: Sample, last: nat, cols: nat)
    requires !s.Y? && s.row <= last && s.col < cols && 2 * cols <= p.ystride
    ensures Span(s.row, p.ystride) + Slot(p, s) + 1 <= Span(last, p.ystride) + 2 * cols
  {
    if s.row < last {
      RowEnd(p.ystride, last, s.row, Slot(p, s) + 1);
    }
  }

  /** Rounding `x + 1` up to a multiple of `d`. */
  lemma NextMultiple(x: nat, d: nat)
    requires d > 0
    ensures AlignUp(x + 1, d) == x - x % d + d
  {
    DivMod(x, d);
    NextRow(x / d, d);
    QuotientIs(x + d, d, x / d + 1, x % d);
  }

  /** Rounding to pages first does not change rounding to whole multiples of a page. */
  lemma PagesFirst(x: nat, k: nat)
    requires k > 0
    ensures AlignUp(Pages(x), k * PAGE) == AlignUp(x, k * PAGE)
  {
    DividesInto(x, PAGE, k);
    SameMultiple(x, Pages(x), k * PAGE);
  }

  /** The end of the last chroma pair, measured against the bytes requested. */
  lemma LastPairAt(h: nat, aw: nat, cols: nat, area: nat)
    requires h > 0 && area == aw * h && 2 * cols <= aw
    ensures var end, requested := LastPairEnd(aw, cols, (h + 1) / 2, area), area + area / 2;
            if h % 2 == 0 then end <= requested else end == requested + 2 * cols - aw / 2
  {
    var rows := (h - 1) / 2;
    SpanIs(rows, aw);
    HalfArea(aw, h, rows, area, rows * aw);
  }

  lemma HalfArea(aw: nat, h: nat, rows: nat, area: nat, half: nat)
    requires h > 0 && rows == (h - 1) / 2 && area == aw * h && half == rows * aw
    ensures area == if h % 2 == 0 then 2 * half + 2 * aw else 2 * half + aw
  {
    Commute(rows, aw);
    Twice(aw, rows);
    Distribute(aw, 2 * rows, if h % 2 == 0 then 2 else 1);
  }

  /** One layer of a 4:2:0 semi-planar buffer: the multiple of the data alignment after the requested bytes. */
  function LayerSize(area: nat, dataAlign: nat): nat
    requires dataAlign > 0
  {
    var requested := area + area / 2;
    requested - requested % dataAlign + dataAlign
  }

  lemma SpSize(f: Format, w: nat, h: nat, aw: nat, area: nat, k: nat, layers: nat)
    requires (f.YCbCr420Sp? || f.YCrCb420Sp?) && area == aw * h && k > 0
    ensures GetSize(f, w, h, aw, h, k * PAGE, layers, Unbounded) == LayerSize(area, k * PAGE) * layers
  {
    var requested := area + area / 2;
    RawOrdinary(f, area);
    PagesFirst(requested + 1, k);
    NextMultiple(requested, k * PAGE);
  }

  lemma RawOrdinary(f: Format, area: nat)
    requires f.YCbCr420Sp? || f.YCrCb420Sp?
    ensures RawSize(f, area, 0, Unbounded) == Pages(area + area / 2 + 1)
  {
  }

  /** A second layer is always room enough for the half row. */
  lemma SecondLayer(requested: nat, layer: nat, layers: nat, extra: nat)
    requires requested < layer && extra <= requested && layers > 1
    ensures requested + extra <= layer * layers
  {
    MulMono(2, layers, layer);
    Commute(layers, layer);
  }

  lemma RoomIff(f: Format, p: Planes, w: nat, h: nat, aw: nat, area: nat, dataAlign: nat, layers: nat)
    requires (f.YCbCr420Sp? || f.YCrCb420Sp?) && w > 0 && h > 0 && w <= aw && 2 * ((w + 1) / 2) <= aw
    requires area == aw * h && p.ystride == aw && dataAlign > 0 && layers > 0
    requires Behind(f, p, w, h, area)
    ensures SamplesInside(f, w, h, p, LayerSize(area, dataAlign) * layers)
            <==> HasRoom(w, h, aw, area, dataAlign, layers)
  {
    var cols, requested, layer := (w + 1) / 2, area + area / 2, LayerSize(area, dataAlign);
    MulMono(1, h, aw);
    Commute(h, aw);
    LastPairAt(h, aw, cols, area);
    InsideIffLastPair(f, p, w, h, cols, (h + 1) / 2, area, layer * layers);
    if layers > 1 {
      SecondLayer(requested, layer, layers, aw);
    }
  }

  /** The height is even, or the half row that an odd height adds fits what the size was rounded up to. */
  predicate HasRoom(w: nat, h: nat, aw: nat, area: nat, dataAlign: nat, layers: nat)
    requires dataAlign > 0
  {
    h % 2 == 0 || layers > 1 || (area + area / 2) % dataAlign + 2 * ((w + 1) / 2) - aw / 2 <= dataAlign
  }

  /** For any height, the samples of a 4:2:0 semi-planar image lie inside its allocation exactly when the height is
      even, there is a second layer to run into, or the half row that an odd height adds still fits what the size was
      rounded up to. Every data alignment is a whole number of pages. */
  lemma FitsIffRoom(f: Format, w: nat, h: nat, aw: nat, area: nat, k: nat, layers: nat)
    requires (f.YCbCr420Sp? || f.YCrCb420Sp?) && w > 0 && h > 0 && w <= aw && 2 * ((w + 1) / 2) <= aw && area == aw * h
    requires k > 0 && layers > 0 && GetSize(f, w, h, aw, h, k * PAGE, layers, Unbounded) < U32
    ensures SamplesInside(f, w, h, PlaneInfo(f, aw, h, Bits32), GetSize(f, w, h, aw, h, k * PAGE, layers, Bits32))
            <==> HasRoom(w, h, aw, area, k * PAGE, layers)
  {
    SpSize(f, w, h, aw, area, k, layers);
    GetSizeNoWrap(f, w, h, aw, h, k * PAGE, layers);
    OddShape(f, w, h, aw, area);
    RoomIff(f, PlaneInfo(f, aw, h, Bits32), w, h, aw, area, k * PAGE, layers);
  }

  lemma OddShape(f: Format, w: nat, h: nat, aw: nat, area: nat)
    requires (f.YCbCr420Sp? || f.YCrCb420Sp?) && w > 0 && h > 0 && w <= aw && 2 * ((w + 1) / 2) <= aw
    requires area == aw * h && RawSize(f, area, 0, Unbounded) < U32
    ensures var p := PlaneInfo(f, aw, h, Bits32);
            p.ystride == aw && Behind(f, p, w, h, area)
  {
    SpPlanesExact(f, aw, h, area, 0);
    SpPlanesAre(f, aw, h, area);
    SpanOf(f, h, aw);
  }

  /** A 96 by 199 image does not fit: its last chroma row runs 32 bytes past the buffer. */
  lemma OddHeightOverruns()
    ensures !SamplesInside(YCbCr420Sp, 96, 199, PlaneInfo(YCbCr420Sp, 96, 199, Bits32),
                           GetSize(YCbCr420Sp, 96, 199, 96, 199, PAGE, 1, Bits32))
  {
    assert LayerSize(96 * 199, PAGE) == 28672;
    SpSize(YCbCr420Sp, 96, 199, 96, 96 * 199, 1, 1);
    FitsIffRoom(YCbCr420Sp, 96, 199, 96, 96 * 199, 1, 1);
  }

  // ----- compressed RGB

  /** `GetRgbUBwcMetaBufferSize` for two or four bytes per pixel: blocks of 16 by 4 pixels. */
  function MetaWidth(w: nat): nat {
    AlignUp((w + 15) / 16, 64)
  }

  function MetaHeight(h: nat): nat {
    AlignUp((h + 3) / 4, 16)
  }

  function MetaSize(w: nat, h: nat, word: Word): nat {
    Paged(MetaWidth(w) * MetaHeight(h), word)
  }

  /** `GetUBwcSize` for the RGB formats. */
  function UbwcSize(w: nat, h: nat, aw: nat, ah: nat, bpp: nat, word: Word): nat {
    Wrap(Times(Times(aw, ah, word), bpp, word) + MetaSize(w, h, word), word)
  }

  /** Pixels and metadata as `GetSize` rounds and multiplies them. */
  function Rounded(pixels: nat, meta: nat, dataAlign: nat, layers: nat, word: Word): nat
    requires dataAlign > 0
  {
    Times(Wrap(AlignUp(Wrap(pixels + meta, word), dataAlign), word), layers, word)
  }

  /** What `GetSize` makes of a compressed RGB buffer. */
  function UbwcAllocation(w: nat, h: nat, aw: nat, ah: nat, bpp: nat, dataAlign: nat, layers: nat, word: Word): nat
    requires dataAlign > 0
  {
    Rounded(Times(Times(aw, ah, word), bpp, word), MetaSize(w, h, word), dataAlign, layers, word)
  }

  /** The metadata dimensions only depend on the 1024 columns and 64 rows a size falls into. */
  lemma MetaWidthIs(w: nat)
    ensures 16 * MetaWidth(w) == AlignUp(w, 1024)
  {
    BlocksAlign(w, 16, 64);
  }

  lemma MetaHeightIs(h: nat)
    ensures 4 * MetaHeight(h) == AlignUp(h, 64)
  {
    BlocksAlign(h, 4, 16);
  }

  /** Rounding up to blocks of `k` and then to `m` blocks is rounding up to `k * m`. */
  lemma BlocksAlign(x: nat, k: nat, m: nat)
    requires k > 0 && m > 0
    ensures k * AlignUp((x + k - 1) / k, m) == AlignUp(x, k * m)
  {
    var y := (x + k - 1) / k;
    var z := (y + m - 1) / m;
    var r, t := (x + k - 1) % k, (y + m - 1) % m;
    BlockSum(x, k, m, y, z, r, t);
    BlockRest(k, m, t, r);
    QuotientIs(x + k * m - 1, k * m, z, k * t + r);
    BlockProduct(k, m, z);
  }

  lemma BlockSum(x: nat, k: nat, m: nat, y: nat, z: nat, r: nat, t: nat)
    requires k > 0 && m > 0
    requires y == (x + k - 1) / k && r == (x + k - 1) % k && z == (y + m - 1) / m && t == (y + m - 1) % m
    ensures x + k * m - 1 == z * (k * m) + (k * t + r)
  {
    DivMod(x + k - 1, k);
    DivMod(y + m - 1, m);
    Commute(y, k);
    Distribute(k, y, m - 1);
    Distribute(k, z * m, t);
    Distribute(k, m - 1, 1);
    BlockProduct(k, m, z);
  }

  lemma BlockRest(k: nat, m: nat, t: nat, r: nat)
    requires t < m && r < k
    ensures 0 <= k * t + r < k * m
  {
    MulMono(t + 1, m, k);
    Commute(t + 1, k);
    Commute(m, k);
    Distribute(k, t, 1);
    MulMono(0, t, k);
    Commute(t, k);
  }

  lemma BlockProduct(k: nat, m: nat, z: nat)
    ensures k * (z * m) == z * (k * m)
  {
    Associate(k, z, m);
    Commute(k, z);
    Associate(z, k, m);
  }

  lemma SameMultiple(x: nat, y: nat, a: nat)
    requires a > 0 && x <= y <= AlignUp(x, a)
    ensures AlignUp(y, a) == AlignUp(x, a)
  {
    LeastMultiple(x, a);
    LeastMultiple(y, a);
  }

  lemma SameMultipleIff(x: nat, y: nat, a: nat)
    requires a > 0 && x <= y
    ensures AlignUp(y, a) == AlignUp(x, a) <==> y <= AlignUp(x, a)
  {
    LeastMultiple(y, a);
    if y <= AlignUp(x, a) {
      SameMultiple(x, y, a);
    }
  }

  /** Padding changes the metadata's dimensions if and only if it leaves the 1024 columns or the 64 rows. */
  lemma MetaAgreesIff(w: nat, h: nat, aw: nat, ah: nat)
    requires w <= aw && h <= ah
    ensures MetaWidth(aw) == MetaWidth(w) <==> aw <= AlignUp(w, 1024)
    ensures MetaHeight(ah) == MetaHeight(h) <==> ah <= AlignUp(h, 64)
  {
    SameMultipleIff(w, aw, 1024);
    SameMultipleIff(h, ah, 64);
    MetaWidthIs(w);
    MetaWidthIs(aw);
    MetaHeightIs(h);
    MetaHeightIs(ah);
  }

  lemma RoundedNoWrap(pixels: nat, meta: nat, dataAlign: nat, layers: nat)
    requires dataAlign > 0 && layers > 0 && Rounded(pixels, meta, dataAlign, layers, Unbounded) < U32
    ensures pixels + meta < U32
    ensures Rounded(pixels, meta, dataAlign, layers, Bits32) == Rounded(pixels, meta, dataAlign, layers, Unbounded)
    ensures pixels + meta <= Rounded(pixels, meta, dataAlign, layers, Bits32)
  {
    LayersNoWrap(pixels + meta, dataAlign, layers);
  }

  lemma MetaNoWrap(w: nat, h: nat)
    requires MetaSize(w, h, Unbounded) < U32
    ensures MetaSize(w, h, Bits32) == MetaSize(w, h, Unbounded)
  {
  }

  lemma PixelsNoWrap(aw: nat, ah: nat, bpp: nat)
    requires bpp > 0 && aw * ah * bpp < U32
    ensures Times(Times(aw, ah, Bits32), bpp, Bits32) == aw * ah * bpp
  {
    AreaBelow(aw * ah, bpp);
  }

  lemma AreaBelow(area: nat, bpp: nat)
    requires bpp > 0
    ensures area <= area * bpp
  {
    MulMono(1, bpp, area);
    Commute(bpp, area);
  }

  /** Metadata sized from the requested dimensions at allocation and, in 32 bits, from the padded dimensions at lock
      agree, and metadata and pixels lie inside the allocation, which is computed without a wrap
      when it fits 32 bits. */
  lemma MetaSizesAgree(w: nat, h: nat, aw: nat, ah: nat, bpp: nat, dataAlign: nat, layers: nat)
    requires w <= aw <= AlignUp(w, 1024) && h <= ah <= AlignUp(h, 64) && bpp > 0 && dataAlign > 0 && layers > 0
    requires UbwcAllocation(w, h, aw, ah, bpp, dataAlign, layers, Unbounded) < U32
    ensures MetaSize(aw, ah, Bits32) == MetaSize(w, h, Bits32) == MetaSize(w, h, Unbounded)
    ensures MetaSize(aw, ah, Bits32) + aw * ah * bpp == UbwcSize(w, h, aw, ah, bpp, Bits32)
    ensures UbwcSize(w, h, aw, ah, bpp, Bits32) <= UbwcAllocation(w, h, aw, ah, bpp, dataAlign, layers, Bits32)
    ensures UbwcAllocation(w, h, aw, ah, bpp, dataAlign, layers, Bits32)
            == UbwcAllocation(w, h, aw, ah, bpp, dataAlign, layers, Unbounded)
  {
    MetaAgreesIff(w, h, aw, ah);
    RoundedNoWrap(aw * ah * bpp, MetaSize(w, h, Unbounded), dataAlign, layers);
    MetaNoWrap(w, h);
    PixelsNoWrap(aw, ah, bpp);
  }

  /** The pixels, which start behind metadata sized from the padded dimensions, end inside one layer's size if and only
      if padding does not enlarge the metadata. */
  lemma PixelsFitIff(w: nat, h: nat, aw: nat, ah: nat, bpp: nat)
    ensures MetaSize(aw, ah, Unbounded) + aw * ah * bpp <= UbwcSize(w, h, aw, ah, bpp, Unbounded)
            <==> MetaSize(aw, ah, Unbounded) <= MetaSize(w, h, Unbounded)
  {
  }

  /** The default padding to 32 pixels stays within those limits. */
  lemma DefaultPaddingAgrees(w: nat, h: nat)
    ensures w <= AlignUp(w, 32) <= AlignUp(w, 1024) && h <= AlignUp(h, 32) <= AlignUp(h, 64)
    ensures MetaSize(AlignUp(w, 32), AlignUp(h, 32), Bits32) == MetaSize(w, h, Bits32)
  {
    DividesInto(w, 32, 32);
    DividesInto(h, 32, 2);
    MetaAgreesIff(w, h, AlignUp(w, 32), AlignUp(h, 32));
  }

  lemma DividesInto(x: nat, a: nat, k: nat)
    requires a > 0 && k > 0
    ensures x <= AlignUp(x, a) <= AlignUp(x, k * a)
  {
    LeastMultiple(x, a);
    LeastMultiple(x, k * a);
    var q := (x + k * a - 1) / (k * a);
    Associate(q, k, a);
    QuotientIs(AlignUp(x, k * a), a, q * k, 0);
  }
}
