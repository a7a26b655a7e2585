/** Clipping, scaling, rotating and flipping of blit rectangles (`set_rects`). */
module CopybitRects {
  import opened Align

  datatype Rect = Rect(l: int, t: int, r: int, b: int) {
    predicate NonEmpty() {
      b > t && r > l
    }

    predicate Contains(x: int, y: int) {
      l <= x < r && t <= y < b
    }

    predicate Within(o: Rect) {
      o.l <= l && r <= o.r && o.t <= t && b <= o.b
    }
  }

  /** A rectangle of a kernel request: unsigned corner and size. */
  datatype MdpRect = MdpRect(x: nat, y: nat, w: nat, h: nat) {
    predicate Contains(px: int, py: int) {
      x <= px < x + w && y <= py < y + h
    }
  }

  datatype Transform = Transform(rot90: bool, flipH: bool, flipV: bool)

  function Max(a: int, b: int): int { if a > b then a else b }

  function Min(a: int, b: int): int { if a < b then a else b }

  function Intersect(a: Rect, b: Rect): Rect {
    Rect(Max(a.l, b.l), Max(a.t, b.t), Min(a.r, b.r), Min(a.b, b.b))
  }

  lemma IntersectIsMeet(a: Rect, b: Rect, x: int, y: int)
    ensures Intersect(a, b).Contains(x, y) <==> a.Contains(x, y) && b.Contains(x, y)
  {
  }

  /** Conversion to a 32-bit unsigned value. */
  function Unsigned(x: int): nat {
    if 0 <= x < U32 then x else x % U32
  }

  /** 32-bit unsigned multiplication. */
  function Times(a: nat, b: nat): nat {
    Unsigned(a * b)
  }

  function Over(p: nat, d: nat): nat
    requires d > 0
  {
    p / d
  }

  /** One operand of `MULDIV`. */
  function Scale(a: nat, mul: int, div: int): nat
    requires Unsigned(div) > 0
  {
    if mul != div then Over(Times(Unsigned(mul), a), Unsigned(div)) else a
  }

  /** Offset and size, along both source axes, of what a clip selects. */
  datatype Selection = Selection(dx: nat, dy: nat, w: nat, h: nat)

  /** The clip's offset and size along the source's axes, still in destination pixels. */
  function Offsets(f: Transform, dst: Rect, clip: Rect): Selection {
    if f.rot90 then
      Selection(Unsigned(clip.t - dst.t), Unsigned(dst.r - clip.r),
                Unsigned(clip.b - clip.t), Unsigned(clip.r - clip.l))
    else
      Selection(Unsigned(clip.l - dst.l), Unsigned(clip.t - dst.t),
                Unsigned(clip.r - clip.l), Unsigned(clip.b - clip.t))
  }

  /** The destination's extents along the source's axes. */
  function Extents(f: Transform, dst: Rect): (int, int) {
    if f.rot90 then (dst.b - dst.t, dst.r - dst.l) else (dst.r - dst.l, dst.b - dst.t)
  }

  function Scaled(k: Selection, src: Rect, W: int, H: int): Selection
    requires Unsigned(W) > 0 && Unsigned(H) > 0
  {
    var mx, my := src.r - src.l, src.b - src.t;
    Selection(Scale(k.dx, mx, W), Scale(k.dy, my, H), Scale(k.w, mx, W), Scale(k.h, my, H))
  }

  /** Where `n` pixels, `s` pixels into a source axis from `base` to `end`, end up. */
  function Place(base: int, end: int, s: nat, n: nat, flip: bool): nat {
    var at := Unsigned(s + base);
    if flip then Unsigned(base + end - (at + n)) else at
  }

  /** Flips happen in the destination, so a rotation swaps their axes. */
  function Placed(f: Transform, src: Rect, k: Selection): MdpRect {
    MdpRect(Place(src.l, src.r, k.dx, k.w, if f.rot90 then f.flipV else f.flipH),
            Place(src.t, src.b, k.dy, k.h, if f.rot90 then f.flipH else f.flipV), k.w, k.h)
  }

  function Selected(f: Transform, dst: Rect, src: Rect, clip: Rect): Selection
    requires Unsigned(dst.r - dst.l) > 0 && Unsigned(dst.b - dst.t) > 0
  {
    var (W, H) := Extents(f, dst);
    Scaled(Offsets(f, dst, clip), src, W, H)
  }

  function SourceRect(f: Transform, dst: Rect, src: Rect, clip: Rect): MdpRect
    requires Unsigned(dst.r - dst.l) > 0 && Unsigned(dst.b - dst.t) > 0
  {
    Placed(f, src, Selected(f, dst, src, clip))
  }

  predicate Int32(x: int) {
    -0x8000_0000 <= x < 0x8000_0000
  }

  /** Both extents are representable, as the source's signed subtractions demand. */
  predicate Sized(r: Rect) {
    Int32(r.l) && Int32(r.t) && Int32(r.r) && Int32(r.b) && Int32(r.r - r.l) && Int32(r.b - r.t)
  }

  predicate Upright(r: Rect) {
    r.l <= r.r && r.t <= r.b
  }

  /** An upright rectangle with no negative corner. */
  predicate Proper(r: Rect) {
    Sized(r) && 0 <= r.l && 0 <= r.t && Upright(r)
  }

  method MulDiv(a: nat, b: nat, mul: int, div: int) returns (a': nat, b': nat)
    requires Unsigned(div) > 0
    ensures a' == Scale(a, mul, div) && b' == Scale(b, mul, div)
  {
    a', b' := a, b;
    if mul != div {
      a' := Over(Times(Unsigned(mul), a), Unsigned(div));
      b' := Over(Times(Unsigned(mul), b), Unsigned(div));
    }
  }

  /** `set_rects`, filling the request's two rectangles step by step. */
  method SetRects(f: Transform, dst: Rect, src: Rect, scissor: Rect)
    returns (ok: bool, dstRect: MdpRect, srcRect: MdpRect)
    requires Sized(dst)
    ensures ok == Intersect(scissor, dst).NonEmpty()
    ensures ok ==> Unsigned(dst.r - dst.l) > 0 && Unsigned(dst.b - dst.t) > 0
    ensures ok ==> srcRect == SourceRect(f, dst, src, Intersect(scissor, dst))
    ensures ok ==> var clip := Intersect(scissor, dst);
                   dstRect == MdpRect(Unsigned(clip.l), Unsigned(clip.t), clip.r - clip.l, clip.b - clip.t)
  {
    dstRect, srcRect := MdpRect(0, 0, 0, 0), MdpRect(0, 0, 0, 0);
    var clip := Intersect(scissor, dst);
    ok := clip.NonEmpty();
    if !ok {
      return;
    }
    dstRect := MdpRect(Unsigned(clip.l), Unsigned(clip.t), clip.r - clip.l, clip.b - clip.t);
    var k := ScaleClip(f, dst, src, clip);
    srcRect := PlaceSource(f, src, k);
  }

  /** The scaling part of `set_rects`. */
  method ScaleClip(f: Transform, dst: Rect, src: Rect, clip: Rect) returns (k: Selection)
    requires Unsigned(dst.r - dst.l) > 0 && Unsigned(dst.b - dst.t) > 0
    ensures k == Selected(f, dst, src, clip)
  {
    var W, H, deltaX, deltaY, w, h;
    if f.rot90 {
      deltaX, deltaY := Unsigned(clip.t - dst.t), Unsigned(dst.r - clip.r);
      w, h := Unsigned(clip.b - clip.t), Unsigned(clip.r - clip.l);
      W, H := dst.b - dst.t, dst.r - dst.l;
    } else {
      deltaX, deltaY := Unsigned(clip.l - dst.l), Unsigned(clip.t - dst.t);
      w, h := Unsigned(clip.r - clip.l), Unsigned(clip.b - clip.t);
      W, H := dst.r - dst.l, dst.b - dst.t;
    }
    ghost var o := Selection(deltaX, deltaY, w, h);
    assert o == Offsets(f, dst, clip) && (W, H) == Extents(f, dst);
    deltaX, w := MulDiv(deltaX, w, src.r - src.l, W);
    deltaY, h := MulDiv(deltaY, h, src.b - src.t, H);
    k := Selection(deltaX, deltaY, w, h);
    assert k == Scaled(o, src, W, H);
  }

  /** The placing and flipping part of `set_rects`. */
  method PlaceSource(f: Transform, src: Rect, k: Selection) returns (e: MdpRect)
    ensures e == Placed(f, src, k)
  {
    var x, y := Unsigned(k.dx + src.l), Unsigned(k.dy + src.t);
    if f.flipV {
      if f.rot90 {
        x := Unsigned(src.l + src.r - (x + k.w));
      } else {
        y := Unsigned(src.t + src.b - (y + k.h));
      }
    }
    if f.flipH {
      if f.rot90 {
        y := Unsigned(src.t + src.b - (y + k.h));
      } else {
        x := Unsigned(src.l + src.r - (x + k.w));
      }
    }
    e := MdpRect(x, y, k.w, k.h);
  }

  // ----- one axis

  lemma DivSum(p: nat, q: nat, d: nat)
    requires d > 0
    ensures p / d + q / d <= (p + q) / d <= p / d + q / d + 1
  {
    var a, b, r, s := p / d, q / d, p % d, q % d;
    DivMod(p, d);
    DivMod(q, d);
    NextRow(a + b, d);
    Distribute(d, a, b);
    Commute(d, a);
    Commute(d, b);
    Commute(d, a + b);
    if r + s < d {
      QuotientIs(p + q, d, a + b, r + s);
    } else {
      QuotientIs(p + q, d, a + b + 1, r + s - d);
    }
  }

  lemma DivMono(p: nat, q: nat, d: nat)
    requires d > 0 && p <= q
    ensures p / d <= q / d
  {
    DivSum(p, q - p, d);
  }

  lemma ProductOver(m: nat, d: nat)
    requires d > 0
    ensures m * d / d == m
  {
    QuotientIs(m * d, d, m, 0);
  }

  /** The exact scaled offset, rounded down. */
  function Floor(a: nat, mul: nat, full: nat): nat
    requires full > 0
  {
    mul * a / full
  }

  lemma FloorFacts(a: nat, b: nat, mul: nat, full: nat)
    requires full > 0 && a + b <= full
    ensures Floor(a, mul, full) + Floor(b, mul, full) <= Floor(a + b, mul, full)
    ensures Floor(a + b, mul, full) <= Floor(a, mul, full) + Floor(b, mul, full) + 1
    ensures Floor(a + b, mul, full) <= mul
  {
    Distribute(mul, a, b);
    DivSum(mul * a, mul * b, full);
    MulMono(a + b, full, mul);
    Commute(a + b, mul);
    Commute(full, mul);
    DivMono(mul * (a + b), mul * full, full);
    ProductOver(mul, full);
  }

  lemma ScaleAtMostFloor(a: nat, mul: nat, full: nat)
    requires 0 < full < 0x8000_0000 && mul < 0x8000_0000 && a <= full
    ensures Scale(a, mul, full) <= Floor(a, mul, full)
  {
    if mul == full {
      Commute(mul, a);
      ProductOver(a, full);
    } else {
      DivMono(Times(mul, a), mul * a, full);
    }
  }

  /** The product for `a` is computed without a wrap, or not computed at all. */
  predicate Fits(a: nat, mul: nat, full: nat) {
    mul == full || mul * a < U32
  }

  /** Scaling is exact, rounded down, exactly when its product fits 32 bits. */
  lemma ScaleIsFloorIff(a: nat, mul: nat, full: nat)
    requires 0 < full < 0x8000_0000 && mul < 0x8000_0000 && a <= full
    ensures Scale(a, mul, full) == Floor(a, mul, full) <==> Fits(a, mul, full)
  {
    if mul == full {
      Commute(mul, a);
      ProductOver(a, full);
    } else if mul * a >= U32 {
      WrapLoses(mul * a, full);
    }
  }

  lemma WrapLoses(p: nat, full: nat)
    requires 0 < full < U32 <= p
    ensures Unsigned(p) / full < p / full
  {
    assert Unsigned(p) <= p - U32;
    DivMono(Unsigned(p), p - full, full);
    DivSum(p - full, full, full);
    ProductOver(1, full);
  }

  /** A clip covering the whole destination selects the whole source axis exactly when nothing is
      scaled or the product of the extents fits 32 bits. */
  lemma FullAxisIff(mul: nat, full: nat)
    requires 0 < full < 0x8000_0000 && mul < 0x8000_0000
    ensures Scale(full, mul, full) == mul <==> Fits(full, mul, full)
  {
    ProductOver(mul, full);
    ScaleIsFloorIff(full, mul, full);
  }

  /** Scaled offset and size still fit the source axis, even when the products wrap. */
  lemma ScaledInside(mul: nat, full: nat, delta: nat, len: nat)
    requires 0 < full < 0x8000_0000 && mul < 0x8000_0000 && delta + len <= full
    ensures Scale(delta, mul, full) + Scale(len, mul, full) <= mul
  {
    FloorFacts(delta, len, mul, full);
    ScaleAtMostFloor(delta, mul, full);
    ScaleAtMostFloor(len, mul, full);
  }

  /** Adding the products of two neighbouring intervals carries nothing out of 32 bits. */
  predicate NoCarry(mul: nat, full: nat, delta: nat, len: nat) {
    mul == full || (mul * delta) % U32 + (mul * len) % U32 < U32
  }

  lemma ModSum(p: nat, q: nat)
    ensures (p + q) % U32 == if p % U32 + q % U32 < U32 then p % U32 + q % U32 else p % U32 + q % U32 - U32
  {
  }

  lemma CarryLoses(p: nat, q: nat, full: nat)
    requires p < U32 && q < U32 && U32 <= p + q && 0 < 2 * full < U32
    ensures (p + q - U32) / full < p / full + q / full
  {
    DivSum(p, q, full);
    DivMono(p + q - U32, p + q - 2 * full, full);
    DivSum(p + q - 2 * full, 2 * full, full);
    ProductOver(2, full);
  }

  /** Scaling loses at most one pixel between neighbouring intervals exactly when their products add up without a
      carry. */
  lemma ScaledFollowsIff(mul: nat, full: nat, delta: nat, len: nat)
    requires 0 < full < 0x8000_0000 && mul < 0x8000_0000 && delta + len <= full
    ensures 0 <= Scale(delta + len, mul, full) - (Scale(delta, mul, full) + Scale(len, mul, full)) <= 1
            <==> NoCarry(mul, full, delta, len)
  {
    if mul != full {
      var p, q := mul * delta, mul * len;
      Distribute(mul, delta, len);
      ModSum(p, q);
      UnsignedIs(p);
      UnsignedIs(q);
      UnsignedIs(p + q);
      if p % U32 + q % U32 < U32 {
        DivSum(p % U32, q % U32, full);
      } else {
        CarryLoses(p % U32, q % U32, full);
      }
    }
  }

  lemma UnsignedIs(x: nat)
    ensures Unsigned(x) == x % U32
  {
  }

  // ----- selections

  ghost predicate BlitOk(dst: Rect, src: Rect, clip: Rect) {
    Sized(dst) && Proper(src) && clip.NonEmpty() && clip.Within(dst)
  }

  /** The clip's offsets, as plain numbers. */
  lemma OffsetsFit(f: Transform, dst: Rect, src: Rect, clip: Rect)
    requires BlitOk(dst, src, clip)
    ensures var k, (W, H) := Offsets(f, dst, clip), Extents(f, dst);
            && 0 < W < 0x8000_0000 && k.dx + k.w <= W
            && 0 < H < 0x8000_0000 && k.dy + k.h <= H
    ensures f.rot90 ==>
              Offsets(f, dst, clip) == Selection(clip.t - dst.t, dst.r - clip.r, clip.b - clip.t, clip.r - clip.l)
    ensures !f.rot90 ==>
              Offsets(f, dst, clip) == Selection(clip.l - dst.l, clip.t - dst.t, clip.r - clip.l, clip.b - clip.t)
  {
  }

  lemma SelectedFits(f: Transform, dst: Rect, src: Rect, clip: Rect)
    requires BlitOk(dst, src, clip)
    ensures var k := Selected(f, dst, src, clip); src.l + k.dx + k.w <= src.r && src.t + k.dy + k.h <= src.b
  {
    OffsetsFit(f, dst, src, clip);
    var o := Offsets(f, dst, clip);
    var (W, H) := Extents(f, dst);
    ScaledInside(src.r - src.l, W, o.dx, o.w);
    ScaledInside(src.b - src.t, H, o.dy, o.h);
  }

  /** Placing a selection that fits the source, as plain numbers. */
  lemma PlacedIs(f: Transform, src: Rect, k: Selection)
    requires Proper(src) && src.l + k.dx + k.w <= src.r && src.t + k.dy + k.h <= src.b
    ensures var x := if (if f.rot90 then f.flipV else f.flipH) then src.r - k.dx - k.w else src.l + k.dx;
            var y := if (if f.rot90 then f.flipH else f.flipV) then src.b - k.dy - k.h else src.t + k.dy;
            Placed(f, src, k) == MdpRect(x, y, k.w, k.h)
  {
  }

  // ----- rectangles

  /** For all eight transforms and any scaling the selected rectangle lies inside the source. */
  lemma SourceRectInside(f: Transform, dst: Rect, src: Rect, clip: Rect)
    requires BlitOk(dst, src, clip)
    ensures var s := SourceRect(f, dst, src, clip);
            src.l <= s.x && s.x + s.w <= src.r && src.t <= s.y && s.y + s.h <= src.b
  {
    SelectedFits(f, dst, src, clip);
    PlacedIs(f, src, Selected(f, dst, src, clip));
  }

  /** Where a source pixel is shown when nothing is scaled: rotated a quarter turn clockwise first,
      then flipped within the destination. */
  function Shown(f: Transform, dst: Rect, src: Rect, x: int, y: int): (int, int) {
    var W, H := dst.r - dst.l, dst.b - dst.t;
    var (u, v) := if f.rot90 then (W - 1 - (y - src.t), x - src.l) else (x - src.l, y - src.t);
    (dst.l + if f.flipH then W - 1 - u else u, dst.t + if f.flipV then H - 1 - v else v)
  }

  predicate Unscaled(f: Transform, dst: Rect, src: Rect) {
    Extents(f, dst) == (src.r - src.l, src.b - src.t)
  }

  lemma PlacedIsPreimage(f: Transform, dst: Rect, src: Rect, clip: Rect, k: Selection, x: int, y: int)
    requires BlitOk(dst, src, clip) && Unscaled(f, dst, src)
    requires k == if f.rot90 then Selection(clip.t - dst.t, dst.r - clip.r, clip.b - clip.t, clip.r - clip.l)
                  else Selection(clip.l - dst.l, clip.t - dst.t, clip.r - clip.l, clip.b - clip.t)
    requires src.Contains(x, y)
    ensures var (X, Y) := Shown(f, dst, src, x, y);
            && dst.Contains(X, Y)
            && (Placed(f, src, k).Contains(x, y) <==> clip.Contains(X, Y))
  {
    PlacedIs(f, src, k);
  }

  /** Without scaling, for all eight transforms, the selected rectangle is exactly the set of source
      pixels that are shown inside the clip. */
  lemma SourceRectIsPreimage(f: Transform, dst: Rect, src: Rect, clip: Rect, x: int, y: int)
    requires BlitOk(dst, src, clip) && Unscaled(f, dst, src)
    requires src.Contains(x, y)
    ensures var (X, Y) := Shown(f, dst, src, x, y);
            && dst.Contains(X, Y)
            && (SourceRect(f, dst, src, clip).Contains(x, y) <==> clip.Contains(X, Y))
  {
    OffsetsFit(f, dst, src, clip);
    PlacedIsPreimage(f, dst, src, clip, Offsets(f, dst, clip), x, y);
  }

  // ----- exactness

  /** What a clip selects when every offset and size is scaled exactly and rounded down. */
  function ExactSelection(k: Selection, src: Rect, W: nat, H: nat): Selection
    requires W > 0 && H > 0 && Upright(src)
  {
    var mx, my := src.r - src.l, src.b - src.t;
    Selection(Floor(k.dx, mx, W), Floor(k.dy, my, H), Floor(k.w, mx, W), Floor(k.h, my, H))
  }

  predicate AllFit(k: Selection, src: Rect, W: nat, H: nat)
    requires Upright(src)
  {
    var mx, my := src.r - src.l, src.b - src.t;
    Fits(k.dx, mx, W) && Fits(k.dy, my, H) && Fits(k.w, mx, W) && Fits(k.h, my, H)
  }

  /** For all eight transforms the selection is the exact one exactly when the four products fit 32 bits. */
  lemma SelectedExactIff(f: Transform, dst: Rect, src: Rect, clip: Rect)
    requires BlitOk(dst, src, clip)
    ensures var (W, H) := Extents(f, dst);
            && W > 0 && H > 0
            && (Selected(f, dst, src, clip) == ExactSelection(Offsets(f, dst, clip), src, W, H)
                <==> AllFit(Offsets(f, dst, clip), src, W, H))
  {
    OffsetsFit(f, dst, src, clip);
    var k := Offsets(f, dst, clip);
    var (W, H) := Extents(f, dst);
    ScaleIsFloorIff(k.dx, src.r - src.l, W);
    ScaleIsFloorIff(k.w, src.r - src.l, W);
    ScaleIsFloorIff(k.dy, src.b - src.t, H);
    ScaleIsFloorIff(k.h, src.b - src.t, H);
  }

  /** Both scaled extents fit 32 bits when multiplied. */
  predicate NoWrap(f: Transform, dst: Rect, src: Rect) {
    var (W, H) := Extents(f, dst);
    (src.r - src.l) * W < U32 && (src.b - src.t) * H < U32
  }

  /** A clip equal to the destination selects the whole source rectangle, for all eight transforms. */
  lemma WholeDestination(f: Transform, dst: Rect, src: Rect)
    requires BlitOk(dst, src, dst) && NoWrap(f, dst, src)
    ensures SourceRect(f, dst, src, dst) == MdpRect(src.l, src.t, src.r - src.l, src.b - src.t)
  {
    OffsetsFit(f, dst, src, dst);
    var (W, H) := Extents(f, dst);
    FullAxisIff(src.r - src.l, W);
    FullAxisIff(src.b - src.t, H);
    ScaleZero(src.r - src.l, W);
    ScaleZero(src.b - src.t, H);
    PlacedIs(f, src, Selected(f, dst, src, dst));
  }

  lemma ScaleZero(mul: nat, full: nat)
    requires 0 < full < 0x8000_0000 && mul < 0x8000_0000
    ensures Scale(0, mul, full) == 0
  {
  }

  // ----- neighbours

  /** An interval at `b` continues one at `a`, never overlapping it and at most one pixel further; a flip turns the
      order around. */
  predicate Follows(flip: bool, a: nat, m: nat, b: nat, n: nat) {
    if flip then 0 <= a - (b + n) <= 1 else 0 <= b - (a + m) <= 1
  }

  predicate FollowsX(f: Transform, a: MdpRect, b: MdpRect) {
    a.y == b.y && a.h == b.h && Follows(if f.rot90 then f.flipV else f.flipH, a.x, a.w, b.x, b.w)
  }

  predicate FollowsY(f: Transform, a: MdpRect, b: MdpRect) {
    a.x == b.x && a.w == b.w && Follows(if f.rot90 then f.flipH else f.flipV, a.y, a.h, b.y, b.h)
  }

  /** What is shown left and right of a vertical edge are neighbours in the source; a rotation counts from the right. */
  predicate ColumnsMeet(f: Transform, left: MdpRect, right: MdpRect) {
    if f.rot90 then FollowsY(f, right, left) else FollowsX(f, left, right)
  }

  /** What is shown above and below a horizontal edge are neighbours in the source. */
  predicate RowsMeet(f: Transform, top: MdpRect, bottom: MdpRect) {
    if f.rot90 then FollowsX(f, top, bottom) else FollowsY(f, top, bottom)
  }

  lemma PlacedFollows(f: Transform, src: Rect, k: Selection, m: Selection)
    requires Proper(src)
    requires src.l + k.dx + k.w <= src.r && src.t + k.dy + k.h <= src.b
    requires src.l + m.dx + m.w <= src.r && src.t + m.dy + m.h <= src.b
    ensures k.dy == m.dy && k.h == m.h ==>
              (FollowsX(f, Placed(f, src, k), Placed(f, src, m)) <==> 0 <= m.dx - (k.dx + k.w) <= 1)
    ensures k.dx == m.dx && k.w == m.w ==>
              (FollowsY(f, Placed(f, src, k), Placed(f, src, m)) <==> 0 <= m.dy - (k.dy + k.h) <= 1)
  {
    PlacedIs(f, src, k);
    PlacedIs(f, src, m);
  }

  /** Clips that meet along the source's x axis. */
  lemma SelectedFollowsX(f: Transform, dst: Rect, src: Rect, a: Rect, b: Rect)
    requires BlitOk(dst, src, a) && BlitOk(dst, src, b)
    requires var k, m := Offsets(f, dst, a), Offsets(f, dst, b); m.dx == k.dx + k.w && m.dy == k.dy && m.h == k.h
    ensures var k := Offsets(f, dst, a);
            FollowsX(f, SourceRect(f, dst, src, a), SourceRect(f, dst, src, b))
            <==> NoCarry(src.r - src.l, Extents(f, dst).0, k.dx, k.w)
  {
    OffsetsFit(f, dst, src, a);
    var o := Offsets(f, dst, a);
    ScaledFollowsIff(src.r - src.l, Extents(f, dst).0, o.dx, o.w);
    SelectedFits(f, dst, src, a);
    SelectedFits(f, dst, src, b);
    PlacedFollows(f, src, Selected(f, dst, src, a), Selected(f, dst, src, b));
  }

  lemma SelectedFollowsY(f: Transform, dst: Rect, src: Rect, a: Rect, b: Rect)
    requires BlitOk(dst, src, a) && BlitOk(dst, src, b)
    requires var k, m := Offsets(f, dst, a), Offsets(f, dst, b); m.dy == k.dy + k.h && m.dx == k.dx && m.w == k.w
    ensures var k := Offsets(f, dst, a);
            FollowsY(f, SourceRect(f, dst, src, a), SourceRect(f, dst, src, b))
            <==> NoCarry(src.b - src.t, Extents(f, dst).1, k.dy, k.h)
  {
    OffsetsFit(f, dst, src, a);
    var o := Offsets(f, dst, a);
    ScaledFollowsIff(src.b - src.t, Extents(f, dst).1, o.dy, o.h);
    SelectedFits(f, dst, src, a);
    SelectedFits(f, dst, src, b);
    PlacedFollows(f, src, Selected(f, dst, src, a), Selected(f, dst, src, b));
  }

  /** Two clips sharing a vertical edge select source rectangles that sit side by side, equal on one axis and on the
      other never overlapping and at most one pixel apart, exactly when the products up to the edge add up without a
      carry. */
  lemma NeighbourColumns(f: Transform, dst: Rect, src: Rect, left: Rect, right: Rect)
    requires BlitOk(dst, src, left) && BlitOk(dst, src, right)
    requires left.r == right.l && left.t == right.t && left.b == right.b
    ensures ColumnsMeet(f, SourceRect(f, dst, src, left), SourceRect(f, dst, src, right))
            <==> if f.rot90 then NoCarry(src.b - src.t, dst.r - dst.l, dst.r - right.r, right.r - right.l)
                 else NoCarry(src.r - src.l, dst.r - dst.l, left.l - dst.l, left.r - left.l)
  {
    OffsetsFit(f, dst, src, left);
    OffsetsFit(f, dst, src, right);
    if f.rot90 {
      SelectedFollowsY(f, dst, src, right, left);
    } else {
      SelectedFollowsX(f, dst, src, left, right);
    }
  }

  /** The same for two clips sharing a horizontal edge. */
  lemma NeighbourRows(f: Transform, dst: Rect, src: Rect, top: Rect, bottom: Rect)
    requires BlitOk(dst, src, top) && BlitOk(dst, src, bottom)
    requires top.b == bottom.t && top.l == bottom.l && top.r == bottom.r
    ensures RowsMeet(f, SourceRect(f, dst, src, top), SourceRect(f, dst, src, bottom))
            <==> NoCarry(if f.rot90 then src.r - src.l else src.b - src.t, dst.b - dst.t, top.t - dst.t, top.b - top.t)
  {
    OffsetsFit(f, dst, src, top);
    OffsetsFit(f, dst, src, bottom);
    if f.rot90 {
      SelectedFollowsX(f, dst, src, top, bottom);
    } else {
      SelectedFollowsY(f, dst, src, top, bottom);
    }
  }

  /** Products of the whole extents that fit 32 bits rule out a carry between any two clips. */
  lemma NoWrapNoCarry(mul: nat, full: nat, delta: nat, len: nat)
    requires mul * full < U32 && delta + len <= full
    ensures NoCarry(mul, full, delta, len)
  {
    Distribute(mul, delta, len);
    MulMono(delta + len, full, mul);
    Commute(delta + len, mul);
    Commute(full, mul);
    MulMono(0, len, mul);
    MulMono(0, delta, mul);
    Commute(len, mul);
    Commute(delta, mul);
  }

  /** When the extents' products fit 32 bits, clips that share a vertical edge always select neighbours. */
  lemma NeighbourColumnsMeet(f: Transform, dst: Rect, src: Rect, left: Rect, right: Rect)
    requires BlitOk(dst, src, left) && BlitOk(dst, src, right) && NoWrap(f, dst, src)
    requires left.r == right.l && left.t == right.t && left.b == right.b
    ensures ColumnsMeet(f, SourceRect(f, dst, src, left), SourceRect(f, dst, src, right))
  {
    if f.rot90 {
      NoWrapNoCarry(src.b - src.t, dst.r - dst.l, dst.r - right.r, right.r - right.l);
    } else {
      NoWrapNoCarry(src.r - src.l, dst.r - dst.l, left.l - dst.l, left.r - left.l);
    }
    NeighbourColumns(f, dst, src, left, right);
  }

  /** The same for a horizontal edge. */
  lemma NeighbourRowsMeet(f: Transform, dst: Rect, src: Rect, top: Rect, bottom: Rect)
    requires BlitOk(dst, src, top) && BlitOk(dst, src, bottom) && NoWrap(f, dst, src)
    requires top.b == bottom.t && top.l == bottom.l && top.r == bottom.r
    ensures RowsMeet(f, SourceRect(f, dst, src, top), SourceRect(f, dst, src, bottom))
  {
    NoWrapNoCarry(if f.rot90 then src.r - src.l else src.b - src.t, dst.b - dst.t, top.t - dst.t, top.b - top.t);
    NeighbourRows(f, dst, src, top, bottom);
  }
}
