/** Row-wise conversion of semi-planar YUV buffers between the Android layout (pitch aligned to 16)
    and the C2D layout (pitch aligned to 32). */
module StrideConverter {
  import opened Align
  import opened Wrappers

  type byte = bv8

  const COPYBIT_SUCCESS := 0
  const COPYBIT_FAILURE := -1

  /** `copyInfo`: geometry, pitches and second-plane offsets of one conversion. */
  datatype CopyInfo = CopyInfo(width: nat, height: nat, srcStride: nat, dstStride: nat, srcPlane1: nat, dstPlane1: nat)

  // ----- copying rows

  /** `rows` rows of `len` bytes at pitch `stride` from `off` lie inside `size` bytes. */
  predicate RowsFit(size: nat, off: nat, rows: nat, len: nat, stride: nat) {
    rows > 0 ==> off + Span(rows - 1, stride) + len <= size
  }

  lemma PrefixFits(size: nat, off: nat, fewer: nat, rows: nat, len: nat, stride: nat)
    requires RowsFit(size, off, rows, len, stride) && fewer <= rows
    ensures RowsFit(size, off, fewer, len, stride)
  {
    if 0 < fewer < rows {
      SpanMono(fewer - 1 + 1, rows - 1, stride);
    }
  }

  /** Byte `p` of the destination after the first `rows` rows have been copied in order: the last row
      that covers it decides. */
  ghost function ByteAfter(d: seq<byte>, s: seq<byte>, dOff: nat, sOff: nat, rows: nat, len: nat,
                           dStride: nat, sStride: nat, p: nat): byte
    requires RowsFit(|s|, sOff, rows, len, sStride) && p < |d|
  {
    if rows == 0 then d[p]
    else
      var at, from := dOff + Span(rows - 1, dStride), sOff + Span(rows - 1, sStride);
      if at <= p < at + len then s[from + (p - at)]
      else
        PrefixFits(|s|, sOff, rows - 1, rows, len, sStride);
        ByteAfter(d, s, dOff, sOff, rows - 1, len, dStride, sStride, p)
  }

  ghost function CopyRows(d: seq<byte>, s: seq<byte>, dOff: nat, sOff: nat, rows: nat, len: nat,
                          dStride: nat, sStride: nat): (r: seq<byte>)
    requires RowsFit(|s|, sOff, rows, len, sStride)
    ensures |r| == |d|
  {
    seq(|d|, p requires 0 <= p < |d| => ByteAfter(d, s, dOff, sOff, rows, len, dStride, sStride, p))
  }

  /** Bytes before the first row and after the last are left alone. */
  lemma {:induction false} ByteOutside(d: seq<byte>, s: seq<byte>, dOff: nat, sOff: nat, rows: nat, len: nat,
                                       dStride: nat, sStride: nat, p: nat)
    requires RowsFit(|s|, sOff, rows, len, sStride)
    requires p < |d| && (p < dOff || rows == 0 || p >= dOff + Span(rows - 1, dStride) + len)
    ensures ByteAfter(d, s, dOff, sOff, rows, len, dStride, sStride, p) == d[p]
  {
    if rows > 0 {
      PrefixFits(|s|, sOff, rows - 1, rows, len, sStride);
      ByteOutside(d, s, dOff, sOff, rows - 1, len, dStride, sStride, p);
    }
  }

  /** After all rows are copied, each row holds its source bytes up to the destination pitch: what a
      longer copy spilled into the next row has been overwritten. The last row keeps its spill. */
  lemma {:induction false} ByteInRow(d: seq<byte>, s: seq<byte>, dOff: nat, sOff: nat, rows: nat, len: nat,
                                     dStride: nat, sStride: nat, r: nat, x: nat)
    requires RowsFit(|d|, dOff, rows, len, dStride) && RowsFit(|s|, sOff, rows, len, sStride)
    requires r < rows && x < len && (x < dStride || r == rows - 1)
    ensures dOff + Span(r, dStride) + x < |d| && sOff + Span(r, sStride) + x < |s|
    ensures ByteAfter(d, s, dOff, sOff, rows, len, dStride, sStride, dOff + Span(r, dStride) + x)
            == s[sOff + Span(r, sStride) + x]
  {
    if r < rows - 1 {
      PrefixFits(|d|, dOff, rows - 1, rows, len, dStride);
      PrefixFits(|s|, sOff, rows - 1, rows, len, sStride);
      ByteInRow(d, s, dOff, sOff, rows - 1, len, dStride, sStride, r, x);
      SpanMono(r + 1, rows - 1, dStride);
    }
  }

  /** One plane's copy loop, moving both row pointers by their pitch. */
  method CopyPlane(src: array<byte>, dst: array<byte>, dOff: nat, sOff: nat, rows: nat, len: nat,
                   dStride: nat, sStride: nat)
    requires src != dst
    requires RowsFit(dst.Length, dOff, rows, len, dStride) && RowsFit(src.Length, sOff, rows, len, sStride)
    modifies dst
    ensures dst[..] == CopyRows(old(dst[..]), src[..], dOff, sOff, rows, len, dStride, sStride)
  {
    ghost var d, s := dst[..], src[..];
    var sp, dp := sOff, dOff;
    for i := 0 to rows
      invariant sp == sOff + Span(i, sStride) && dp == dOff + Span(i, dStride)
      invariant RowsFit(|s|, sOff, i, len, sStride)
      invariant forall p | 0 <= p < |d| :: dst[p] == ByteAfter(d, s, dOff, sOff, i, len, dStride, sStride, p)
    {
      PrefixFits(|d|, dOff, i + 1, rows, len, dStride);
      PrefixFits(|s|, sOff, i + 1, rows, len, sStride);
      Memcpy(src, sp, dst, dp, len);
      sp := sp + sStride;
      dp := dp + dStride;
    }
  }

  method Memcpy(src: array<byte>, from: nat, dst: array<byte>, at: nat, len: nat)
    requires src != dst && from + len <= src.Length && at + len <= dst.Length
    modifies dst
    ensures forall p | 0 <= p < dst.Length ::
              dst[p] == if at <= p < at + len then src[from + (p - at)] else old(dst[p])
  {
    forall k | 0 <= k < len {
      dst[at + k] := src[from + k];
    }
  }

  // ----- one conversion

  /** Everything a conversion reads and writes lies inside its buffers. */
  ghost predicate Fits(i: CopyInfo, s: nat, d: nat) {
    && RowsFit(s, 0, i.height, i.width, i.srcStride)
    && RowsFit(d, 0, i.height, i.width, i.dstStride)
    && RowsFit(s, i.srcPlane1, i.height / 2, i.srcStride, i.srcStride)
    && RowsFit(d, i.dstPlane1, i.height / 2, i.srcStride, i.dstStride)
  }

  /** The destination after the luma rows and then the interleaved chroma rows have been copied. A
      luma row is `width` bytes, a chroma row is the whole source pitch. */
  ghost function Converted(i: CopyInfo, s: seq<byte>, d: seq<byte>): (r: seq<byte>)
    requires Fits(i, |s|, |d|)
    ensures |r| == |d|
  {
    CopyRows(CopyRows(d, s, 0, 0, i.height, i.width, i.dstStride, i.srcStride),
             s, i.dstPlane1, i.srcPlane1, i.height / 2, i.srcStride, i.dstStride, i.srcStride)
  }

  /** `copy_source_to_destination` */
  method CopySourceToDestination(src: array?<byte>, dst: array?<byte>, i: CopyInfo) returns (status: int)
    requires src != null && dst != null ==> src != dst && Fits(i, src.Length, dst.Length)
    modifies dst
    ensures status == if src == null || dst == null then COPYBIT_FAILURE else 0
    ensures status == 0 ==> dst[..] == Converted(i, src[..], old(dst[..]))
    ensures status != 0 && dst != null ==> dst[..] == old(dst[..])
  {
    if src == null || dst == null {
      return COPYBIT_FAILURE;
    }
    CopyPlane(src, dst, 0, 0, i.height, i.width, i.dstStride, i.srcStride);
    CopyPlane(src, dst, i.dstPlane1, i.srcPlane1, i.height / 2, i.srcStride, i.dstStride, i.srcStride);
    status := 0;
  }

  /** A converted image shows the source's luma pixels. */
  lemma ConvertedLuma(i: CopyInfo, s: seq<byte>, d: seq<byte>, r: nat, x: nat)
    requires Fits(i, |s|, |d|) && r < i.height && x < i.width <= i.dstStride
    requires Span(i.height, i.dstStride) <= i.dstPlane1
    ensures Span(r, i.dstStride) + x < |d| && Span(r, i.srcStride) + x < |s|
    ensures Converted(i, s, d)[Span(r, i.dstStride) + x] == s[Span(r, i.srcStride) + x]
  {
    var luma, p := CopyRows(d, s, 0, 0, i.height, i.width, i.dstStride, i.srcStride), Span(r, i.dstStride) + x;
    ByteInRow(d, s, 0, 0, i.height, i.width, i.dstStride, i.srcStride, r, x);
    assert p < i.dstPlane1 by {
      SpanMono(r + 1, i.height, i.dstStride);
    }
    BeforeChroma(i, s, luma, p);
  }

  lemma BeforeChroma(i: CopyInfo, s: seq<byte>, luma: seq<byte>, p: nat)
    requires Fits(i, |s|, |luma|) && p < |luma| && p < i.dstPlane1
    ensures CopyRows(luma, s, i.dstPlane1, i.srcPlane1, i.height / 2, i.srcStride, i.dstStride, i.srcStride)[p]
            == luma[p]
  {
    ByteOutside(luma, s, i.dstPlane1, i.srcPlane1, i.height / 2, i.srcStride, i.dstStride, i.srcStride, p);
  }

  /** A converted image shows the source's chroma rows up to the smaller pitch. */
  lemma ConvertedChroma(i: CopyInfo, s: seq<byte>, d: seq<byte>, r: nat, x: nat)
    requires Fits(i, |s|, |d|) && r < i.height / 2 && x < i.srcStride && x < i.dstStride
    ensures i.dstPlane1 + Span(r, i.dstStride) + x < |d| && i.srcPlane1 + Span(r, i.srcStride) + x < |s|
    ensures Converted(i, s, d)[i.dstPlane1 + Span(r, i.dstStride) + x] == s[i.srcPlane1 + Span(r, i.srcStride) + x]
  {
    var luma := CopyRows(d, s, 0, 0, i.height, i.width, i.dstStride, i.srcStride);
    ByteInRow(luma, s, i.dstPlane1, i.srcPlane1, i.height / 2, i.srcStride, i.dstStride, i.srcStride, r, x);
  }

  // ----- the two directions

  datatype Format = YCbCr420Sp | YCrCb420Sp | Nv12Encodeable | OtherFormat

  predicate Supported(f: Format) {
    f != OtherFormat
  }

  /** Chroma starts right after luma, or at the next 2 KiB boundary for the encoder format. */
  function Plane1Offset(f: Format, stride: nat, height: nat): nat {
    if f == Nv12Encodeable then AlignUp(Span(height, stride), 2048) else Span(height, stride)
  }

  function ToC2dInfo(f: Format, handleWidth: nat, w: nat, h: nat): CopyInfo {
    var s, d := AlignUp(handleWidth, 16), AlignUp(w, 32);
    CopyInfo(w, h, s, d, Plane1Offset(f, s, h), Plane1Offset(f, d, h))
  }

  function ToAndroidInfo(f: Format, w: nat, h: nat): CopyInfo {
    var s, d := AlignUp(w, 32), AlignUp(w, 16);
    CopyInfo(w, h, s, d, Plane1Offset(f, s, h), Plane1Offset(f, d, h))
  }

  /** Chroma starts at the first multiple of 2048 at or behind the luma rows in the encoder format, and right behind
      them in the others. */
  lemma PlaneOffsetIs(f: Format, stride: nat, height: nat)
    ensures f != Nv12Encodeable ==> Plane1Offset(f, stride, height) == height * stride
    ensures f == Nv12Encodeable ==>
              var offset := Plane1Offset(f, stride, height);
              && offset % 2048 == 0 && height * stride <= offset
              && forall m: nat | m % 2048 == 0 && height * stride <= m :: offset <= m
  {
    SpanIs(height, stride);
    LeastMultiple(height * stride, 2048);
  }

  /** `yuvPlaneInfo`: how the C2D surfaces of an image are laid out. */
  datatype YuvPlaneInfo = YuvPlaneInfo(yStride: nat, plane1Stride: nat, plane1Offset: nat)

  /** The layouts C2D knows; the tiled one is never converted. */
  datatype C2dFormat = Linear(f: Format) | Tiled

  /** `calculate_yuv_offset_and_stride`; none stands for its refusal. */
  function CalculateYuvOffsetAndStride(width: nat, height: nat, format: C2dFormat): Option<YuvPlaneInfo> {
    match format
    case Tiled =>
      var alignedWidth := AlignUp(width, 128);
      Some(YuvPlaneInfo(alignedWidth, alignedWidth, AlignUp(alignedWidth * AlignUp(height, 32), 8192)))
    case Linear(f) =>
      var alignedWidth := AlignUp(width, 32);
      var luma := alignedWidth * height;
      match f
      case OtherFormat => None
      case Nv12Encodeable => Some(YuvPlaneInfo(alignedWidth, alignedWidth, AlignUp(luma, 2048)))
      case _ => Some(YuvPlaneInfo(alignedWidth, alignedWidth, luma))
  }

  /** A converted image is laid out as C2D expects it, and the way back reads it from there. */
  lemma LaidOutForC2d(f: Format, handleWidth: nat, w: nat, h: nat)
    ensures CalculateYuvOffsetAndStride(w, h, Linear(f)).Some? <==> Supported(f)
    ensures Supported(f) ==>
              var c2d := CalculateYuvOffsetAndStride(w, h, Linear(f)).value;
              var there, back := ToC2dInfo(f, handleWidth, w, h), ToAndroidInfo(f, w, h);
              && there.dstStride == back.srcStride == c2d.yStride == c2d.plane1Stride
              && there.dstPlane1 == back.srcPlane1 == c2d.plane1Offset
  {
    SpanIs(h, AlignUp(w, 32));
    Commute(h, AlignUp(w, 32));
  }

  /** The Android side of a conversion, for the width a buffer was allocated with. */
  lemma LaidOutForAndroid(f: Format, handleWidth: nat, w: nat, h: nat)
    ensures var there, back := ToC2dInfo(f, handleWidth, w, h), ToAndroidInfo(f, w, h);
            && there.srcStride % 16 == 0 && handleWidth <= there.srcStride < handleWidth + 16
            && back.dstStride % 16 == 0 && w <= back.dstStride < w + 16
            && there.srcPlane1 == Plane1Offset(f, there.srcStride, h)
            && back.dstPlane1 == Plane1Offset(f, back.dstStride, h)
            && there.width == back.width == w && there.height == back.height == h
  {
    LeastMultiple(handleWidth, 16);
    LeastMultiple(w, 16);
  }

  /** `convert_yuv_android_to_yuv_c2d` */
  method AndroidToC2d(src: array?<byte>, handleWidth: nat, dst: array?<byte>, w: nat, h: nat, f: Format)
    returns (status: int)
    requires Supported(f) && src != null && dst != null ==>
               src != dst && Fits(ToC2dInfo(f, handleWidth, w, h), src.Length, dst.Length)
    modifies dst
    ensures status == if Supported(f) && src != null && dst != null then COPYBIT_SUCCESS else COPYBIT_FAILURE
    ensures status == 0 ==> dst[..] == Converted(ToC2dInfo(f, handleWidth, w, h), src[..], old(dst[..]))
    ensures status != 0 && dst != null ==> dst[..] == old(dst[..])
  {
    if !Supported(f) {
      return -1;
    }
    status := CopySourceToDestination(src, dst, ToC2dInfo(f, handleWidth, w, h));
  }

  /** `convert_yuv_c2d_to_yuv_android` */
  method C2dToAndroid(src: array?<byte>, dst: array?<byte>, w: nat, h: nat, f: Format) returns (status: int)
    requires Supported(f) && src != null && dst != null ==>
               src != dst && Fits(ToAndroidInfo(f, w, h), src.Length, dst.Length)
    modifies dst
    ensures status == if Supported(f) && src != null && dst != null then COPYBIT_SUCCESS else COPYBIT_FAILURE
    ensures status == 0 ==> dst[..] == Converted(ToAndroidInfo(f, w, h), src[..], old(dst[..]))
    ensures status != 0 && dst != null ==> dst[..] == old(dst[..])
  {
    if !Supported(f) {
      return COPYBIT_FAILURE;
    }
    status := CopySourceToDestination(src, dst, ToAndroidInfo(f, w, h));
  }

  /** `a` and `b` agree on byte `x` of row `r`. */
  ghost predicate SameByte(a: seq<byte>, b: seq<byte>, off: nat, stride: nat, r: nat, x: nat) {
    var p := off + Span(r, stride) + x;
    p < |a| && p < |b| && a[p] == b[p]
  }

  ghost predicate SameRows(a: seq<byte>, b: seq<byte>, off: nat, rows: nat, len: nat, stride: nat) {
    forall r: nat, x: nat | r < rows && x < len :: SameByte(a, b, off, stride, r, x)
  }

  lemma RoundTripLuma(there: CopyInfo, back: CopyInfo, a: seq<byte>, c0: seq<byte>, b0: seq<byte>)
    requires Fits(there, |a|, |c0|) && Fits(back, |c0|, |b0|)
    requires Inverse(there, back)
    ensures SameRows(a, Converted(back, Converted(there, a, c0), b0), 0, back.height, back.width, back.dstStride)
  {
    var c := Converted(there, a, c0);
    forall r: nat, x: nat | r < back.height && x < back.width
      ensures SameByte(a, Converted(back, c, b0), 0, back.dstStride, r, x)
    {
      ConvertedLuma(there, a, c0, r, x);
      ConvertedLuma(back, c, b0, r, x);
    }
  }

  lemma RoundTripChroma(there: CopyInfo, back: CopyInfo, a: seq<byte>, c0: seq<byte>, b0: seq<byte>)
    requires Fits(there, |a|, |c0|) && Fits(back, |c0|, |b0|)
    requires Inverse(there, back)
    ensures SameRows(a, Converted(back, Converted(there, a, c0), b0),
                     back.dstPlane1, back.height / 2, back.dstStride, back.dstStride)
  {
    var c := Converted(there, a, c0);
    forall r: nat, x: nat | r < back.height / 2 && x < back.dstStride
      ensures SameByte(a, Converted(back, c, b0), back.dstPlane1, back.dstStride, r, x)
    {
      ConvertedChroma(there, a, c0, r, x);
      ConvertedChroma(back, c, b0, r, x);
    }
  }

  /** `back` undoes `there`: source and destination swapped, with a wider pitch in between. */
  ghost predicate Inverse(there: CopyInfo, back: CopyInfo) {
    && back == CopyInfo(there.width, there.height, there.dstStride, there.srcStride, there.dstPlane1, there.srcPlane1)
    && there.width <= there.srcStride <= there.dstStride
    && Span(there.height, there.dstStride) <= there.dstPlane1
    && Span(there.height, there.srcStride) <= there.srcPlane1
  }

  lemma DirectionsInverse(f: Format, handleWidth: nat, w: nat, h: nat)
    requires AlignUp(handleWidth, 16) == AlignUp(w, 16)
    ensures Inverse(ToC2dInfo(f, handleWidth, w, h), ToAndroidInfo(f, w, h))
  {
    Pitches(w);
  }

  /** Converting to C2D and back keeps every visible luma byte and every byte of every chroma row,
      although the way back writes chroma rows longer than its pitch. */
  lemma RoundTrip(f: Format, handleWidth: nat, w: nat, h: nat, a: seq<byte>, c0: seq<byte>, b0: seq<byte>)
    requires Supported(f) && AlignUp(handleWidth, 16) == AlignUp(w, 16)
    requires Fits(ToC2dInfo(f, handleWidth, w, h), |a|, |c0|)
    requires Fits(ToAndroidInfo(f, w, h), |c0|, |b0|)
    ensures
      var pitch := AlignUp(w, 16);
      var b := Converted(ToAndroidInfo(f, w, h), Converted(ToC2dInfo(f, handleWidth, w, h), a, c0), b0);
      && SameRows(a, b, 0, h, w, pitch)
      && SameRows(a, b, Plane1Offset(f, pitch, h), h / 2, pitch, pitch)
  {
    var there, back := ToC2dInfo(f, handleWidth, w, h), ToAndroidInfo(f, w, h);
    DirectionsInverse(f, handleWidth, w, h);
    RoundTripLuma(there, back, a, c0, b0);
    RoundTripChroma(there, back, a, c0, b0);
  }

  // ----- buffer sizes

  /** `get_size`: the size of the temporary C2D buffer. */
  function C2dSize(f: Format, w: nat, h: nat): nat {
    var alignedW := AlignUp(w, 32);
    var chroma := Span(h / 2, AlignUp(alignedW / 2, 32)) * 2;
    if Supported(f) then AlignUp(Plane1Offset(f, alignedW, h) + chroma, 4096) else 0
  }

  /** Size of a semi-planar 4:2:0 buffer as the allocator rounds it. */
  function AndroidSpSize(pitch: nat, h: nat): nat {
    var luma := Span(h, pitch);
    AlignUp(luma + luma / 2 + 1, 4096)
  }

  lemma {:induction false} SpanOfSixteens(q: nat, r: nat)
    ensures Span(r, 16 * q) == 16 * Span(r, q)
  {
    if r > 0 {
      SpanOfSixteens(q, r - 1);
    }
  }

  lemma {:induction false} SpanHalves(step: nat, n: nat)
    ensures Span(n, step) == 2 * Span(n / 2, step) + if n % 2 == 1 then step else 0
  {
    if n >= 2 {
      SpanHalves(step, n - 2);
      assert n / 2 == (n - 2) / 2 + 1;
      assert Span(n, step) == Span(n - 1, step) + step == Span(n - 2, step) + 2 * step;
    }
  }

  lemma RowsEnd(size: nat, off: nat, rows: nat, len: nat, stride: nat, spill: nat)
    requires off + Span(rows, stride) + spill <= size && len <= stride + spill
    ensures RowsFit(size, off, rows, len, stride)
  {
  }

  lemma Pitches(w: nat)
    ensures w <= AlignUp(w, 16) <= AlignUp(w, 32) <= AlignUp(w, 16) + 16
  {
    var b := (w + 31) / 32;
    QuotientIs(w + 15, 16, if w + 16 <= 32 * b then 2 * b - 1 else 2 * b,
               if w + 16 <= 32 * b then w + 31 - 32 * b else w + 15 - 32 * b);
  }

  /** Everything that a conversion writes lies inside `size` bytes. */
  predicate WritesFit(i: CopyInfo, size: nat) {
    && RowsFit(size, 0, i.height, i.width, i.dstStride)
    && RowsFit(size, i.dstPlane1, i.height / 2, i.srcStride, i.dstStride)
  }

  /** `need_temp_buffer` for the YUV formats: only then is an image converted. */
  predicate NeedsTemp(handleWidth: nat) {
    handleWidth % 32 != 0
  }

  /** What the half-pitch rounding of `get_size` adds to `h / 2` chroma rows. */
  function RowExtra(w: nat, h: nat): nat {
    if AlignUp(w, 32) % 64 == 32 then 32 * (h / 2) else 0
  }

  /** What rounding `x` up to whole pages adds. */
  function PageRest(x: nat): nat {
    (4096 - x % 4096) % 4096
  }

  lemma PageRestIs(x: nat)
    ensures AlignUp(x, 4096) == x + PageRest(x)
  {
  }

  lemma {:induction false} SpanPlus(n: nat, step: nat, more: nat)
    ensures Span(n, step + more) == Span(n, step) + Span(n, more)
  {
    if n > 0 {
      SpanPlus(n - 1, step, more);
    }
  }

  /** Twice the rounded half of a pitch of `q` times 32. */
  lemma HalfPitch(q: nat, half: nat)
    requires half == AlignUp(16 * q, 32)
    ensures 2 * half == 32 * q + 32 * (q % 2)
  {
    QuotientIs(16 * q + 31, 32, q / 2 + q % 2, if q % 2 == 1 then 15 else 31);
  }

  lemma {:induction false} SpanOfTwo(n: nat, step: nat)
    ensures Span(n, 2 * step) == 2 * Span(n, step)
  {
    if n > 0 {
      SpanOfTwo(n - 1, step);
    }
  }

  /** The chroma part of the size in closed form. */
  lemma ChromaRoom(q: nat, half: nat, rows: nat)
    requires half == AlignUp(16 * q, 32)
    ensures 2 * Span(rows, half) == Span(rows, 32 * q) + if q % 2 == 1 then 32 * rows else 0
  {
    var more := 32 * (q % 2);
    HalfPitch(q, half);
    SpanOfTwo(rows, half);
    SpanPlus(rows, 32 * q, more);
    SpanIs(rows, more);
  }

  lemma C2dSizeIs(f: Format, w: nat, h: nat, pitch: nat, used: nat)
    requires Supported(f) && pitch == AlignUp(w, 32) && used == Plane1Offset(f, pitch, h) + Span(h / 2, pitch)
    ensures C2dSize(f, w, h) == used + RowExtra(w, h) + PageRest(used + RowExtra(w, h))
  {
    var q := (w + 31) / 32;
    PitchIs(q, pitch);
    ChromaRoom(q, AlignUp(pitch / 2, 32), h / 2);
    PageRestIs(used + RowExtra(w, h));
  }

  lemma PitchIs(q: nat, pitch: nat)
    requires pitch == q * 32
    ensures pitch == 32 * q && pitch / 2 == 16 * q && (pitch % 64 == 32 <==> q % 2 == 1)
  {
  }

  /** Chroma rows are copied at the length of the handle's pitch. What is written on the way to C2D fits the temporary
      buffer if and only if the handle's pitch exceeds the image's by no more than the 32 bytes a row that rounding the
      half pitch may add and the rest of the last page. */
  lemma C2dFitsIff(f: Format, handleWidth: nat, w: nat, h: nat, pitch: nat, used: nat)
    requires Supported(f) && pitch == AlignUp(w, 32) && used == Plane1Offset(f, pitch, h) + Span(h / 2, pitch)
    ensures WritesFit(ToC2dInfo(f, handleWidth, w, h), C2dSize(f, w, h))
            <==> h < 2 || AlignUp(handleWidth, 16) <= pitch + RowExtra(w, h) + PageRest(used + RowExtra(w, h))
  {
    C2dInfoIs(f, handleWidth, w, h, pitch, ToC2dInfo(f, handleWidth, w, h));
    LumaFirst(f, pitch, h);
    C2dSizeIs(f, w, h, pitch, used);
    FitsIff(ToC2dInfo(f, handleWidth, w, h), C2dSize(f, w, h), RowExtra(w, h) + PageRest(used + RowExtra(w, h)));
  }

  lemma C2dInfoIs(f: Format, handleWidth: nat, w: nat, h: nat, pitch: nat, i: CopyInfo)
    requires pitch == AlignUp(w, 32) && i == ToC2dInfo(f, handleWidth, w, h)
    ensures i.width == w <= i.dstStride == pitch && i.height == h && i.srcStride == AlignUp(handleWidth, 16)
    ensures i.dstPlane1 == Plane1Offset(f, pitch, h)
  {
    Pitches(w);
  }

  lemma LumaFirst(f: Format, pitch: nat, h: nat)
    ensures Span(h, pitch) <= Plane1Offset(f, pitch, h)
  {
    LeastMultiple(Span(h, pitch), 2048);
  }

  /** Writes fit exactly when the length of a chroma row exceeds the pitch by no more than is spare behind the rows. */
  lemma FitsIff(i: CopyInfo, size: nat, spare: nat)
    requires i.width <= i.dstStride && Span(i.height, i.dstStride) <= i.dstPlane1
    requires size == i.dstPlane1 + Span(i.height / 2, i.dstStride) + spare
    ensures WritesFit(i, size) <==> i.height < 2 || i.srcStride <= i.dstStride + spare
  {
    RowsEnd(size, 0, i.height, i.width, i.dstStride, 0);
  }

  /** In particular a handle as wide as its image is always converted inside the buffer. */
  lemma C2dBufferSuffices(f: Format, handleWidth: nat, w: nat, h: nat)
    requires Supported(f) && AlignUp(handleWidth, 16) <= AlignUp(w, 32)
    ensures WritesFit(ToC2dInfo(f, handleWidth, w, h), C2dSize(f, w, h))
  {
    var pitch := AlignUp(w, 32);
    C2dFitsIff(f, handleWidth, w, h, pitch, Plane1Offset(f, pitch, h) + Span(h / 2, pitch));
  }

  /** A 32 by 2 image out of a buffer that is 4080 pixels wide is converted and does not fit. */
  lemma WideHandleOverruns(i: CopyInfo, size: nat)
    requires i == ToC2dInfo(YCbCr420Sp, 4080, 32, 2) && size == C2dSize(YCbCr420Sp, 32, 2)
    ensures NeedsTemp(4080) && !WritesFit(i, size)
  {
    SmallSize();
    FirstRowOverruns(i, size);
  }

  lemma FirstRowOverruns(i: CopyInfo, size: nat)
    requires i.height > 1 && i.dstPlane1 + i.srcStride > size
    ensures !WritesFit(i, size)
  {
  }

  lemma SmallSize()
    ensures C2dSize(YCbCr420Sp, 32, 2) == 4096
    ensures ToC2dInfo(YCbCr420Sp, 4080, 32, 2) == CopyInfo(32, 2, 4080, 32, 8160, 64)
  {
  }

  /** A multiple of a page above a multiple of eight, or of sixteen, is the next such multiple or more. */
  lemma PageRoom(n: nat, size: nat)
    requires size % 4096 == 0 && size >= 8 * n + 1
    ensures size >= 8 * n + if n % 2 == 0 then 16 else 8
  {
    var k := size / 4096;
    assert size == 4096 * k && 512 * k >= n + 1;
    if n % 2 == 0 {
      var m := n / 2;
      assert n == 2 * m && 256 * k >= m + 1;
    }
  }

  lemma {:induction false} SpanWider(rows: nat, pitch: nat, wider: nat)
    requires pitch <= wider
    ensures Span(rows, pitch) <= Span(rows, wider)
  {
    if rows > 0 {
      SpanWider(rows - 1, pitch, wider);
    }
  }

  lemma SizeMono(pitch: nat, wider: nat, h: nat)
    requires pitch <= wider
    ensures AndroidSpSize(pitch, h) <= AndroidSpSize(wider, h)
  {
    SpanWider(h, pitch, wider);
  }

  lemma RoundedRoom(luma: nat, half: nat, extra: nat)
    requires luma == 32 * half + 16 * extra
    ensures luma + 16 * half + 16 <= AlignUp(luma + luma / 2 + 1, 4096)
  {
    var n := 6 * half + 3 * extra;
    assert luma / 2 == 16 * half + 8 * extra;
    assert n % 2 == 0 <==> extra % 2 == 0;
    LeastMultiple(8 * n + 1, 4096);
    PageRoom(n, AlignUp(8 * n + 1, 4096));
  }

  lemma SpRoom(q: nat, h: nat, pitch: nat)
    requires pitch == 16 * q
    ensures Span(h, pitch) + Span(h / 2, pitch) + 16 <= AndroidSpSize(pitch, h)
  {
    SpanOfSixteens(q, h);
    SpanOfSixteens(q, h / 2);
    SpanHalves(q, h);
    RoundedRoom(Span(h, pitch), Span(h / 2, q), if h % 2 == 1 then q else 0);
  }

  lemma SpillFits(i: CopyInfo, size: nat)
    requires i.width <= i.dstStride && i.srcStride <= i.dstStride + 16 && i.dstPlane1 == Span(i.height, i.dstStride)
    requires i.dstPlane1 + Span(i.height / 2, i.dstStride) + 16 <= size
    ensures WritesFit(i, size)
  {
    RowsEnd(size, 0, i.height, i.width, i.dstStride, 0);
    RowsEnd(size, i.dstPlane1, i.height / 2, i.srcStride, i.dstStride, 16);
  }

  /** The byte added before rounding an Android semi-planar buffer to whole pages always leaves room for the last chroma
      row's spill, at most sixteen bytes, on the way back, however much wider than the image the buffer is. */
  lemma AndroidBufferSuffices(f: Format, aw: nat, w: nat, h: nat)
    requires (f == YCbCr420Sp || f == YCrCb420Sp) && AlignUp(w, 16) <= aw
    ensures WritesFit(ToAndroidInfo(f, w, h), AndroidSpSize(aw, h))
  {
    Pitches(w);
    AndroidRoom(aw, w, h, AlignUp(w, 16));
    SpillFits(ToAndroidInfo(f, w, h), AndroidSpSize(aw, h));
  }

  lemma AndroidRoom(aw: nat, w: nat, h: nat, pitch: nat)
    requires pitch == AlignUp(w, 16) <= aw
    ensures Span(h, pitch) + Span(h / 2, pitch) + 16 <= AndroidSpSize(aw, h)
  {
    SizeMono(pitch, aw, h);
    SpRoom((w + 15) / 16, h, pitch);
  }
}
