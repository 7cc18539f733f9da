/** Cropping and scaling geometry of the bttv driver (bttv-driver.c). Vertical positions count
    field lines times two. Masking with a power-of-two mask is written as rounding down. */
module BttvCrop {
  import opened Bytes

  datatype Rect = Rect(left: int, top: int, width: int, height: int) {
    function Right(): int { left + width }
    function Bottom(): int { top + height }
  }

  datatype Crop = Crop(rect: Rect, minWidth: int, minHeight: int, maxWidth: int, maxHeight: int)

  datatype Norm = Norm(bounds: Rect, defrect: Rect, pixelaspect: (int, int))

  /** Hardware limits MAX_HDELAY and MAX_HACTIVE, which the driver takes from its private header. */
  datatype Limits = Limits(maxHdelay: int, maxHactive: int)

  const MIN_VDELAY := 2

  function Cropcap(minhdelayx1: int, hdelayx1: int, swidth: int, totalwidth: int, sqwidth: int,
                   vdelay: int, sheight: int, videostart0: int): Norm
  {
    Norm(Rect(minhdelayx1, videostart0 * 2 - vdelay + MIN_VDELAY,
              totalwidth - minhdelayx1 - 4, sheight + vdelay - MIN_VDELAY),
         Rect(hdelayx1, videostart0 * 2, swidth, sheight), (totalwidth, sqwidth))
  }

  const PAL := Cropcap(68, 186, 924, 1135, 944, 0x20, 576, 23)

  const NORMS: seq<Norm> := [
    PAL.(bounds := PAL.bounds.(height := (576 + 2) + 0x20 - 2)),                // PAL
    Cropcap(68, 128, 768, 910, 780, 0x1a, 480, 23),                             // NTSC
    Cropcap(68, 186, 924, 1135, 944, 0x20, 576, 23),                            // SECAM
    Cropcap(68, 130, (640 * 910 + 780 / 2) / 780, 910, 780, 0x1a, 576, 23),     // PAL-Nc
    Cropcap(68, 135, (640 * 910 + 780 / 2) / 780, 910, 780, 0x1a, 480, 23),     // PAL-M
    Cropcap(68, 186, (768 * 1135 + 944 / 2) / 944, 1135, 944, 0x20, 576, 23),   // PAL-N
    Cropcap(68, 135, (640 * 910 + 780 / 2) / 780, 910, 780, 0x16, 480, 23),     // NTSC-JP
    Cropcap(68, 186, 924, 1135, 944, 0x1a, 480, 23)]                            // PAL-60

  /** Pixel alignments in use: none, 2 or 4. */
  predicate IsUnit(u: int) {
    u == 1 || u == 2 || u == 4
  }

  /** x with the bits below the unit cleared. */
  function RoundDown(x: int, unit: int): int
    requires IsUnit(unit)
  {
    if unit == 4 then x / 4 * 4 else if unit == 2 then x / 2 * 2 else x
  }

  predicate Aligned(x: int, unit: int)
    requires IsUnit(unit)
  {
    RoundDown(x, unit) == x
  }

  /** The kernel's clamp(): the upper limit wins when the limits cross. */
  function Clamp(x: int, lo: int, hi: int): int {
    Min(Max(x, lo), hi)
  }

  function Dist(a: int, b: int): nat {
    if a < b then b - a else a - b
  }

  /** r lies between lo and hi, and nothing there is closer to x. */
  ghost predicate Nearest(r: int, x: int, lo: int, hi: int) {
    lo <= r <= hi && forall y :: lo <= y <= hi ==> Dist(r, x) <= Dist(y, x)
  }

  /** The same among even numbers. */
  ghost predicate NearestEven(r: int, x: int, lo: int, hi: int) {
    lo <= r <= hi && r % 2 == 0 && forall y :: lo <= y <= hi && y % 2 == 0 ==> Dist(r, x) <= Dist(y, x)
  }

  function CalcLimits(r: Rect): Crop {
    Crop(r, 48, 32, RoundDown(r.width, 4), r.height)
  }

  // ---------------------------------------------------------------- what a good window is

  predicate Within(r: Rect, b: Rect) {
    b.left <= r.left && b.top <= r.top && r.Right() <= b.Right() && r.Bottom() <= b.Bottom()
  }

  /** Inside the bounds, at least 48 x 32, on even lines, with scaling limits that belong to it. */
  predicate CropOk(c: Crop, b: Rect) {
    && Within(c.rect, b)
    && c.rect.width >= 48 && c.rect.height >= 32
    && c.rect.top % 2 == 0 && c.rect.height % 2 == 0
    && c.minWidth == 48 <= c.maxWidth <= c.rect.width < c.maxWidth + 4 && c.maxWidth % 4 == 0
    && c.minHeight == 32 <= c.maxHeight == c.rect.height
  }

  predicate NormOk(n: Norm) {
    var b := n.bounds;
    && b.left == 68 && b.width >= 48 && b.height >= 128
    && b.top >= 0 && b.top % 2 == 0 && b.height % 2 == 0
    && CropOk(CalcLimits(n.defrect), b)
  }

  predicate LimitsOk(l: Limits) {
    l.maxHdelay >= 68 && l.maxHactive >= 48
  }

  /** Norms made from a delay, a width and a line count that fit, possibly with two more lines. */
  lemma CropcapIsOk(hdelay: int, swidth: int, totalwidth: int, sqwidth: int, vdelay: int, sheight: int)
    requires 68 <= hdelay && 48 <= swidth && hdelay + swidth <= totalwidth - 4
    requires 2 <= vdelay <= 48 && vdelay % 2 == 0 && sheight >= 128 && sheight % 2 == 0
    ensures var n := Cropcap(68, hdelay, swidth, totalwidth, sqwidth, vdelay, sheight, 23);
            NormOk(n) && NormOk(n.(bounds := n.bounds.(height := n.bounds.height + 2)))
  {
  }

  lemma NormsAreOk(i: nat)
    requires i < |NORMS|
    ensures NormOk(NORMS[i])
  {
    hide NormOk;
    var w, v := (640 * 910 + 780 / 2) / 780, (768 * 1135 + 944 / 2) / 944;
    CropcapIsOk(186, 924, 1135, 944, 0x20, 576);
    CropcapIsOk(128, 768, 910, 780, 0x1a, 480);
    CropcapIsOk(130, w, 910, 780, 0x1a, 576);
    CropcapIsOk(135, w, 910, 780, 0x1a, 480);
    CropcapIsOk(186, v, 1135, 944, 0x20, 576);
    CropcapIsOk(135, w, 910, 780, 0x16, 480);
    CropcapIsOk(186, 924, 1135, 944, 0x1a, 480);
    assert i == 0 || i == 1 || i == 2 || i == 3 || i == 4 || i == 5 || i == 6 || i == 7;
  }

  // ---------------------------------------------------------------- VIDIOC_S_CROP

  predicate CropFits(b: Rect, vbiEnd: int) {
    Max(b.top, vbiEnd) + 32 < b.Bottom()
  }

  function RequestedCrop(l: Limits, b: Rect, vbiEnd: int, r: Rect): Crop {
    var left := Min(Clamp(r.left, b.left, b.Right() - 48), l.maxHdelay);
    var top := RoundDown(Clamp(r.top, Max(b.top, vbiEnd), b.Bottom() - 32) + 1, 2);
    CalcLimits(Rect(left, top, Clamp(r.width, 48, b.Right() - left),
                    RoundDown(Clamp(r.height, 32, b.Bottom() - top) + 1, 2)))
  }

  /** An accepted S_CROP installs a good window below the VBI lines; a request that already is one
      is installed unchanged. */
  lemma RequestedCropIsOk(l: Limits, n: Norm, vbiEnd: int, r: Rect)
    requires LimitsOk(l) && NormOk(n) && CropFits(n.bounds, vbiEnd)
    ensures var c := RequestedCrop(l, n.bounds, vbiEnd, r);
            CropOk(c, n.bounds) && c.rect.top >= vbiEnd && c.rect.left <= l.maxHdelay
    ensures CropOk(CalcLimits(r), n.bounds) && r.top >= vbiEnd && r.left <= l.maxHdelay ==>
              RequestedCrop(l, n.bounds, vbiEnd, r) == CalcLimits(r)
  {
  }

  /** Each edge and each extent goes to the admissible value nearest to the one requested. */
  lemma RequestedCropIsNearest(l: Limits, n: Norm, vbiEnd: int, r: Rect)
    requires LimitsOk(l) && NormOk(n) && CropFits(n.bounds, vbiEnd)
    ensures var b, c := n.bounds, RequestedCrop(l, n.bounds, vbiEnd, r).rect;
            && Nearest(c.left, r.left, b.left, Min(b.Right() - 48, l.maxHdelay))
            && Nearest(c.width, r.width, 48, b.Right() - c.left)
            && NearestEven(c.top, r.top, Max(b.top, vbiEnd), b.Bottom() - 32)
            && NearestEven(c.height, r.height, 32, b.Bottom() - c.top)
  {
    var b, c := n.bounds, RequestedCrop(l, n.bounds, vbiEnd, r).rect;
    var bTop := Max(b.top, vbiEnd);
    RequestedCropIsOk(l, n, vbiEnd, r);
    hide Nearest, NearestEven, RoundDown, Within;
    ClampIsNearest(r.left, b.left, Min(b.Right() - 48, l.maxHdelay));
    ClampIsNearest(r.width, 48, b.Right() - c.left);
    RoundsToEven(r.top, bTop, b.Bottom() - 32);
    RoundsToEven(r.height, 32, b.Bottom() - c.top);
  }

  lemma ClampIsNearest(x: int, lo: int, hi: int)
    requires lo <= hi
    ensures Nearest(Clamp(x, lo, hi), x, lo, hi)
  {
  }

  lemma RoundsToEven(x: int, lo: int, hi: int)
    requires lo <= hi && hi % 2 == 0
    ensures NearestEven(RoundDown(Clamp(x, lo, hi) + 1, 2), x, lo, hi)
  {
  }

  // ---------------------------------------------------------------- scaled image size

  function FrameHeight(height: int, single: bool): int {
    if single then height * 2 else height
  }

  /** bttv_crop_adjust, horizontally: left edge and width. */
  function AdjustedColumns(l: Limits, c: Crop, b: Rect, width: int): (int, int) {
    if width < c.minWidth then (c.rect.left, width * 16)
    else if width > c.maxWidth then (Min(c.rect.left, Min(b.Right() - width, l.maxHdelay)), width)
    else (c.rect.left, c.rect.width)
  }

  /** bttv_crop_adjust, vertically: top line and height. */
  function AdjustedLines(c: Crop, b: Rect, height: int, single: bool): (int, int) {
    if height < c.minHeight then (c.rect.top, height * 16)
    else if FrameHeight(height, single) > c.maxHeight then
      var h := RoundDown(FrameHeight(height, single) + 1, 2);
      (Min(c.rect.top, b.Bottom() - h), h)
    else (c.rect.top, c.rect.height)
  }

  function Adjusted(l: Limits, c: Crop, b: Rect, width: int, height: int, single: bool): Crop {
    var (left, w) := AdjustedColumns(l, c, b, width);
    var (top, h) := AdjustedLines(c, b, height, single);
    CalcLimits(Rect(left, top, w, h))
  }

  /** The lines left for video below the VBI lines. */
  function VideoLines(b: Rect, vbiEnd: int): int {
    b.height - Max(vbiEnd - b.top, 0)
  }

  /** A size request; widths are rounded to multiples of unit after adding bias. */
  datatype Request = Request(width: int, height: int, single: bool, unit: int, bias: int)

  predicate RequestOk(q: Request) {
    IsUnit(q.unit) && 0 <= q.bias < q.unit
  }

  function SizedWidth(q: Request, lo: int, hi: int): int
    requires RequestOk(q)
  {
    RoundDown(Clamp(q.width, RoundDown(lo + q.unit - 1, q.unit), RoundDown(hi, q.unit)) + q.bias, q.unit)
  }

  function SizedHeight(q: Request, lo: int, hi: int): int {
    Clamp(q.height, lo, if q.single then hi / 2 else hi)
  }

  /** Image size and crop window when the window may follow the size. */
  function AdjustedSize(l: Limits, c: Crop, b: Rect, vbiEnd: int, q: Request): (int, int, Crop)
    requires RequestOk(q)
  {
    var width := SizedWidth(q, 48, Min(b.width, l.maxHactive));
    var height := SizedHeight(q, 32, VideoLines(b, vbiEnd));
    var c1 := Adjusted(l, c, b, width, height, q.single);
    (width, height, if vbiEnd > c1.rect.top then c1.(rect := c1.rect.(top := vbiEnd)) else c1)
  }

  /** Against an aligned bound a: rounding down stays above it, and below it if within one unit. */
  lemma RoundDownFacts(x: int, u: int, a: int)
    requires IsUnit(u) && Aligned(a, u)
    ensures RoundDown(x, u) <= x && Aligned(RoundDown(x, u), u)
    ensures a <= x ==> a <= RoundDown(x, u)
    ensures x < a + u ==> RoundDown(x, u) <= a
  {
    if u == 4 {
      Fours(x, a / 4);
    } else if u == 2 {
      Twos(x, a / 2);
    }
  }

  lemma Fours(x: int, i: int)
    ensures var y := x / 4 * 4;
            && y <= x && y / 4 * 4 == y
            && (4 * i <= x ==> 4 * i <= y) && (x < 4 * i + 4 ==> y <= 4 * i)
  {
    var q := x / 4;
    assert 4 * q <= x < 4 * q + 4;
    assert (4 * q) / 4 == q;
  }

  lemma Twos(x: int, i: int)
    ensures var y := x / 2 * 2;
            && y <= x && y / 2 * 2 == y
            && (2 * i <= x ==> 2 * i <= y) && (x < 2 * i + 2 ==> y <= 2 * i)
  {
    var q := x / 2;
    assert 2 * q <= x < 2 * q + 2;
    assert (2 * q) / 2 == q;
  }

  lemma FourIsEven(x: int)
    requires x % 4 == 0
    ensures x / 2 == 2 * (x / 4) && x / 4 * 4 == x
  {
  }

  lemma MultipleOfFour(x: int, u: int)
    requires IsUnit(u) && x % 4 == 0
    ensures Aligned(x, u)
  {
    FourIsEven(x);
  }

  lemma SizedWidthInRange(q: Request, lo: int, hi: int)
    requires RequestOk(q) && lo % 4 == 0 && lo <= hi
    ensures lo <= SizedWidth(q, lo, hi) <= hi && Aligned(SizedWidth(q, lo, hi), q.unit)
  {
    hide RoundDown;
    var u := q.unit;
    var top := RoundDown(hi, u);
    MultipleOfFour(lo, u);
    RoundDownFacts(lo + u - 1, u, lo);
    RoundDownFacts(hi, u, lo);
    var w := Clamp(q.width, lo, top);
    RoundDownFacts(w + q.bias, u, lo);
    RoundDownFacts(w + q.bias, u, top);
  }

  /** The width is the requested one plus the bias, rounded down to the unit, as far as the limits
      allow. In particular a width that is aligned and within the limits is not changed. */
  lemma SizedWidthNearest(q: Request, lo: int, hi: int)
    requires RequestOk(q) && lo % 4 == 0 && lo <= hi
    ensures var r := SizedWidth(q, lo, hi);
            && (q.width <= lo ==> r == lo)
            && (q.width >= hi ==> r <= hi < r + q.unit)
            && (lo <= q.width <= hi ==>
                  r <= q.width + q.bias < r + q.unit || r <= q.width <= hi < r + q.unit)
            && (lo <= q.width <= hi && Aligned(q.width, q.unit) ==> r == q.width)
  {
    hide RoundDown;
    var u := q.unit;
    var top := RoundDown(hi, u);
    MultipleOfFour(lo, u);
    RoundDownFacts(lo + u - 1, u, lo);
    RoundDownFacts(hi, u, lo);
    RoundDownWithin(hi, u);
    var w := Clamp(q.width, lo, top);
    RoundDownWithin(w + q.bias, u);
    RoundDownFacts(w + q.bias, u, lo);
    RoundDownFacts(w + q.bias, u, top);
    if Aligned(q.width, u) {
      RoundDownFacts(w + q.bias, u, q.width);
      RoundDownFacts(hi, u, q.width);
    }
  }

  lemma RoundDownWithin(x: int, u: int)
    requires IsUnit(u)
    ensures RoundDown(x, u) <= x < RoundDown(x, u) + u
  {
  }

  /** The height is the admissible one nearest to the request; single fields have half the lines. */
  lemma SizedHeightNearest(q: Request, lo: int, hi: int)
    requires lo <= if q.single then hi / 2 else hi
    ensures Nearest(SizedHeight(q, lo, hi), q.height, lo, if q.single then hi / 2 else hi)
  {
    ClampIsNearest(q.height, lo, if q.single then hi / 2 else hi);
  }

  lemma ColumnsStayOk(l: Limits, n: Norm, c: Crop, width: int)
    requires LimitsOk(l) && NormOk(n) && CropOk(c, n.bounds) && 48 <= width <= n.bounds.width
    ensures var (left, w) := AdjustedColumns(l, c, n.bounds, width);
            n.bounds.left <= left && left + w <= n.bounds.Right() && w >= 48 && width <= w
  {
  }

  /** The window grows only when the image is larger, to the image's size (rounded up to an even
      height), and moves up or left only as far as the bounds and MAX_HDELAY make it. */
  lemma AdjustedMovesLittle(l: Limits, n: Norm, c: Crop, width: int, height: int, single: bool)
    requires LimitsOk(l) && NormOk(n) && CropOk(c, n.bounds) && 48 <= width <= n.bounds.width && 32 <= height
    ensures var (left, w) := AdjustedColumns(l, c, n.bounds, width);
            && (if width <= c.maxWidth then (left, w) == (c.rect.left, c.rect.width) else w == width && left <= l.maxHdelay)
            && left <= c.rect.left && (left < c.rect.left ==> left + w == n.bounds.Right() || left == l.maxHdelay)
    ensures var (top, h) := AdjustedLines(c, n.bounds, height, single);
            var frame := FrameHeight(height, single);
            && (if frame <= c.maxHeight then (top, h) == (c.rect.top, c.rect.height) else frame <= h <= frame + 1)
            && h % 2 == 0 && top <= c.rect.top && (top < c.rect.top ==> top + h == n.bounds.Bottom())
  {
  }

  /** Below the smallest image the window shrinks to the largest scale factor, 16:1. */
  lemma ScalesAtMostSixteen(l: Limits, c: Crop, b: Rect, width: int, height: int, single: bool)
    requires CropOk(c, b)
    ensures width < 48 ==> AdjustedColumns(l, c, b, width) == (c.rect.left, 16 * width)
    ensures height < 32 ==> AdjustedLines(c, b, height, single) == (c.rect.top, 16 * height)
  {
  }

  /** Where limit_scaled_size leaves the window vertically. */
  function FinalTop(c: Crop, b: Rect, vbiEnd: int, q: Request): int {
    Max(AdjustedLines(c, b, SizedHeight(q, 32, VideoLines(b, vbiEnd)), q.single).0, vbiEnd)
  }

  lemma AdjustedSizeShape(l: Limits, c: Crop, b: Rect, vbiEnd: int, q: Request)
    requires RequestOk(q)
    ensures var width := SizedWidth(q, 48, Min(b.width, l.maxHactive));
            var height := SizedHeight(q, 32, VideoLines(b, vbiEnd));
            var (left, w) := AdjustedColumns(l, c, b, width);
            var h := AdjustedLines(c, b, height, q.single).1;
            AdjustedSize(l, c, b, vbiEnd, q) == (width, height, CalcLimits(Rect(left, FinalTop(c, b, vbiEnd, q), w, h)))
  {
  }

  lemma LinesExactly(n: Norm, c: Crop, vbiEnd: int, q: Request)
    requires NormOk(n) && CropOk(c, n.bounds) && VideoLines(n.bounds, vbiEnd) >= 32
    ensures var b := n.bounds;
            var h := AdjustedLines(c, b, SizedHeight(q, 32, VideoLines(b, vbiEnd)), q.single).1;
            var top := FinalTop(c, b, vbiEnd, q);
            (b.top <= top && top + h <= b.Bottom() && h >= 32 && top % 2 == 0 && h % 2 == 0)
            <==> WindowSurvives(c, b, vbiEnd, q)
  {
  }

  /** When the adjusted window is a good one, told from the state before the call. A single-field
      image needs 64 lines below the VBI lines. If the window has to grow, it is moved to fit, which
      works unless it ends up at an odd vbiEnd; if not, it keeps its height and is pushed down to
      vbiEnd, so the VBI lines must already be above it or leave room for it at an even line. */
  predicate WindowSurvives(c: Crop, b: Rect, vbiEnd: int, q: Request) {
    var lines := VideoLines(b, vbiEnd);
    var frame := FrameHeight(SizedHeight(q, 32, lines), q.single);
    && (q.single ==> lines >= 64)
    && if frame > c.rect.height
       then vbiEnd % 2 == 0 || vbiEnd <= Min(c.rect.top, b.Bottom() - RoundDown(frame + 1, 2))
       else vbiEnd <= c.rect.top || (vbiEnd % 2 == 0 && vbiEnd + c.rect.height <= b.Bottom())
  }

  lemma AdjustedSizeExactly(l: Limits, n: Norm, c: Crop, vbiEnd: int, q: Request)
    requires LimitsOk(l) && NormOk(n) && RequestOk(q) && CropOk(c, n.bounds)
    requires VideoLines(n.bounds, vbiEnd) >= 32
    ensures CropOk(AdjustedSize(l, c, n.bounds, vbiEnd, q).2, n.bounds) <==> WindowSurvives(c, n.bounds, vbiEnd, q)
  {
    hide SizedWidth, SizedHeight, AdjustedColumns, AdjustedLines, AdjustedSize, WindowSurvives, FinalTop;
    var b := n.bounds;
    var width := SizedWidth(q, 48, Min(b.width, l.maxHactive));
    SizedWidthInRange(q, 48, Min(b.width, l.maxHactive));
    ColumnsStayOk(l, n, c, width);
    LinesExactly(n, c, vbiEnd, q);
    AdjustedSizeShape(l, c, b, vbiEnd, q);
  }

  /** Under the driver's own assumptions the window stays good and the image fits in it. */
  lemma AdjustedSizeIsOk(l: Limits, n: Norm, c: Crop, vbiEnd: int, q: Request)
    requires LimitsOk(l) && NormOk(n) && RequestOk(q) && CropOk(c, n.bounds)
    requires VideoLines(n.bounds, vbiEnd) >= if q.single then 64 else 32
    requires vbiEnd % 2 == 0 && vbiEnd <= c.rect.top
    ensures var (width, height, c') := AdjustedSize(l, c, n.bounds, vbiEnd, q);
            && CropOk(c', n.bounds) && c'.rect.top >= vbiEnd
            && 48 <= width <= c'.rect.width && Aligned(width, q.unit)
            && (q.unit == 4 ==> width <= c'.maxWidth)
            && 32 <= height && FrameHeight(height, q.single) <= c'.maxHeight
  {
    hide SizedWidth, AdjustedColumns, AdjustedLines, AdjustedSize, WindowSurvives, RoundDown;
    var b := n.bounds;
    var width := SizedWidth(q, 48, Min(b.width, l.maxHactive));
    var height := SizedHeight(q, 32, VideoLines(b, vbiEnd));
    SizedWidthInRange(q, 48, Min(b.width, l.maxHactive));
    ColumnsStayOk(l, n, c, width);
    AdjustedMovesLittle(l, n, c, width, height, q.single);
    AdjustedSizeShape(l, c, b, vbiEnd, q);
    SurvivesBelowVbi(c, b, vbiEnd, q);
    AdjustedSizeExactly(l, n, c, vbiEnd, q);
    FitsWidth(AdjustedSize(l, c, b, vbiEnd, q).2, width, q.unit);
  }

  lemma SurvivesBelowVbi(c: Crop, b: Rect, vbiEnd: int, q: Request)
    requires VideoLines(b, vbiEnd) >= if q.single then 64 else 32
    requires vbiEnd % 2 == 0 && vbiEnd <= c.rect.top
    ensures WindowSurvives(c, b, vbiEnd, q)
  {
  }

  lemma FitsWidth(c: Crop, width: int, unit: int)
    requires IsUnit(unit) && c == CalcLimits(c.rect) && width <= c.rect.width && Aligned(width, unit)
    ensures unit == 4 ==> width <= c.maxWidth
  {
  }

  /** A pixel format's size request: widths are rounded to the nearest multiple of four. */
  function Pixels(width: int, height: int, single: bool): Request {
    Request(width, height, single, 4, 2)
  }

  /** The size that the current window allows. */
  function Tried(c: Crop, q: Request): Request
    requires RequestOk(q)
  {
    Pixels(SizedWidth(q, c.minWidth, c.maxWidth), SizedHeight(q, c.minHeight, c.maxHeight), q.single)
  }

  /** Room for the 64 lines that the lowest single-field image takes. */
  predicate FieldFits(b: Rect, vbiEnd: int) {
    VideoLines(b, vbiEnd) >= 64 && (vbiEnd % 2 == 0 || vbiEnd + 64 <= b.Bottom())
  }

  lemma TriedColumns(l: Limits, n: Norm, c: Crop, q: Request)
    requires LimitsOk(l) && NormOk(n) && CropOk(c, n.bounds) && q.unit == 4 && q.bias == 2
    ensures var width := SizedWidth(Tried(c, q), 48, Min(n.bounds.width, l.maxHactive));
            AdjustedColumns(l, c, n.bounds, width) == (c.rect.left, c.rect.width)
  {
    hide RoundDown;
    var w, hi := SizedWidth(q, 48, c.maxWidth), Min(n.bounds.width, l.maxHactive);
    SizedWidthInRange(q, 48, c.maxWidth);
    var width := SizedWidth(Tried(c, q), 48, hi);
    SizedWidthInRange(Tried(c, q), 48, hi);
    var top := RoundDown(hi, 4);
    MultipleOfFour(48, 4);
    RoundDownFacts(48 + 4 - 1, 4, 48);
    RoundDownFacts(hi, 4, 48);
    RoundDownFacts(Clamp(w, 48, top) + 2, 4, Clamp(w, 48, top));
  }

  lemma TriedLines(n: Norm, c: Crop, vbiEnd: int, q: Request)
    requires NormOk(n) && CropOk(c, n.bounds) && RequestOk(q) && vbiEnd <= c.rect.top
    ensures var b := n.bounds;
            var lines := VideoLines(b, vbiEnd);
            var q1 := Tried(c, q);
            var h := AdjustedLines(c, b, SizedHeight(q1, 32, lines), q.single).1;
            var low := q.single && c.rect.height < 64;
            && lines >= 32
            && (h == c.rect.height <==> !low)
            && (!low ==> FinalTop(c, b, vbiEnd, q1) == c.rect.top)
            && (WindowSurvives(c, b, vbiEnd, q1) <==> (low ==> FieldFits(b, vbiEnd)))
  {
    hide SizedWidth;
  }

  lemma SameLimits(c: Crop, b: Rect)
    requires CropOk(c, b)
    ensures CalcLimits(c.rect) == c
  {
    RoundDownFacts(c.rect.width, 4, c.maxWidth);
  }

  /** Setting a capture format first fits the size to the window and then adjusts the window to the
      fitted size. So the window stays as it is, except that a window of less than 64 lines is made
      higher for a single-field image, and stays good then exactly if there is room for that. */
  lemma TriedSizeExactly(l: Limits, n: Norm, c: Crop, vbiEnd: int, q: Request)
    requires LimitsOk(l) && NormOk(n) && CropOk(c, n.bounds) && vbiEnd <= c.rect.top
    requires q.unit == 4 && q.bias == 2
    ensures var c' := AdjustedSize(l, c, n.bounds, vbiEnd, Tried(c, q)).2;
            var low := q.single && c.rect.height < 64;
            && VideoLines(n.bounds, vbiEnd) >= 32
            && (c' == c <==> !low)
            && (CropOk(c', n.bounds) <==> (low ==> FieldFits(n.bounds, vbiEnd)))
  {
    hide SizedWidth, SizedHeight, AdjustedColumns, AdjustedLines, AdjustedSize, WindowSurvives, FinalTop, FieldFits;
    var q1 := Tried(c, q);
    TriedColumns(l, n, c, q);
    TriedLines(n, c, vbiEnd, q);
    AdjustedSizeShape(l, c, n.bounds, vbiEnd, q1);
    AdjustedSizeExactly(l, n, c, vbiEnd, q1);
    SameLimits(c, n.bounds);
  }

  /** Even when the window leaves the picture the top line stays between the bounds' top and the end of the VBI lines or the
      bounds' bottom, which is all the scan-line split needs. */
  lemma AdjustedTopInBounds(l: Limits, n: Norm, c: Crop, vbiEnd: int, q: Request)
    requires NormOk(n) && RequestOk(q) && VideoLines(n.bounds, vbiEnd) >= 32
    requires n.bounds.top <= c.rect.top <= n.bounds.Bottom() && vbiEnd <= n.bounds.Bottom()
    ensures n.bounds.top <= AdjustedSize(l, c, n.bounds, vbiEnd, q).2.rect.top <= n.bounds.Bottom()
    ensures AdjustedSize(l, c, n.bounds, vbiEnd, q).2.rect.top >= vbiEnd
  {
  }
}
