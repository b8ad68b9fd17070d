/** Rectangles in virtual-screen coordinates and the placement formulas the
    window manager hands to `SetWindowPos`.

    A scale factor is an integer percentage: 80 for "resize to 80%", 100 for
    fullscreen, the digits the user typed for a custom action. */
module Geometry {

  /** Left, top, right and bottom edges, as `GetWindowRect` and `GetMonitorInfo` report them. */
  datatype Rect = Rect(left: int, top: int, right: int, bottom: int)

  /** What `GetMonitorInfo` reports: the full bounds, the work area without the taskbar, and flags. */
  datatype MonitorInfo = MonitorInfo(monitor: Rect, work: Rect, flags: int)

  /** The four numbers passed to `SetWindowPos`: position and size. */
  datatype Placement = Placement(x: int, y: int, width: int, height: int)

  predicate WellFormed(r: Rect) {
    r.left <= r.right && r.top <= r.bottom
  }

  function Width(r: Rect): int {
    r.right - r.left
  }

  function Height(r: Rect): int {
    r.bottom - r.top
  }

  /** The rectangle a window occupies once placed. */
  function PlacementRect(p: Placement): Rect {
    Rect(p.x, p.y, p.x + p.width, p.y + p.height)
  }

  /** The open-interval overlap test: rectangles that only share an edge do not intersect. */
  predicate RectsIntersect(a: Rect, b: Rect) {
    !(a.left >= b.right || a.right <= b.left || a.top >= b.bottom || a.bottom <= b.top)
  }

  /** The unit pixel with top-left corner (x, y) lies inside r. */
  predicate CoversPixel(r: Rect, x: int, y: int) {
    r.left <= x < r.right && r.top <= y < r.bottom
  }

  lemma IntersectSymmetric(a: Rect, b: Rect)
    ensures RectsIntersect(a, b) == RectsIntersect(b, a)
  {
  }

  /** Two rectangles side by side, sharing the line x == 100, do not intersect. */
  lemma EdgeTouchingDoesNotIntersect()
    ensures !RectsIntersect(Rect(0, 0, 100, 100), Rect(100, 0, 200, 100))
  {
  }

  /** For rectangles of positive area the edge test means exactly "some pixel lies in both". */
  lemma IntersectIffSharedPixel(a: Rect, b: Rect)
    requires a.left < a.right && a.top < a.bottom && b.left < b.right && b.top < b.bottom
    ensures RectsIntersect(a, b) <==> exists x, y :: CoversPixel(a, x, y) && CoversPixel(b, x, y)
  {
    if RectsIntersect(a, b) {
      var x := if a.left < b.left then b.left else a.left;
      var y := if a.top < b.top then b.top else a.top;
      assert CoversPixel(a, x, y) && CoversPixel(b, x, y);
    }
  }

  /** A zero-width rectangle strictly inside another still intersects it: the test
      compares edges only, so it holds no pixel yet counts as overlapping. */
  lemma DegenerateRectCanIntersect()
    ensures RectsIntersect(Rect(5, 0, 5, 10), Rect(0, 0, 10, 10))
    ensures !exists x, y :: CoversPixel(Rect(5, 0, 5, 10), x, y)
  {
  }

  /** Python's `int()` of the exact quotient n / d: truncation toward zero. */
  function TruncDiv(n: int, d: int): (q: int)
    requires d > 0
    ensures n >= 0 ==> 0 <= q && q * d <= n < q * d + d
    ensures n < 0 ==> q <= 0 && n <= q * d && q * d < n + d
  {
    if n >= 0 then n / d
    else
      var t := (-n) / d;
      assert t * d <= -n < t * d + d;
      -t
  }

  /** `int(length * scale)` with `scale == percent / 100`. */
  function ScaledLength(length: int, percent: nat): (r: int)
    ensures length >= 0 ==> 0 <= r && r * 100 <= length * percent < r * 100 + 100
  {
    TruncDiv(length * percent, 100)
  }

  /** Centres a window of the given size in the work area: the offset is half the
      leftover space, rounded down (the source's `// 2`). */
  function Centre(work: Rect, width: int, height: int): (p: Placement)
    ensures p.width == width && p.height == height
    ensures 0 <= (work.right - (p.x + width)) - (p.x - work.left) <= 1
    ensures 0 <= (work.bottom - (p.y + height)) - (p.y - work.top) <= 1
  {
    Placement(work.left + (Width(work) - width) / 2, work.top + (Height(work) - height) / 2, width, height)
  }

  /** The resize: the work area scaled by `percent` and centred in it. */
  function ScaledPlacement(work: Rect, percent: nat): (p: Placement)
    ensures p.width == ScaledLength(Width(work), percent) && p.height == ScaledLength(Height(work), percent)
    ensures 0 <= (work.right - (p.x + p.width)) - (p.x - work.left) <= 1
    ensures 0 <= (work.bottom - (p.y + p.height)) - (p.y - work.top) <= 1
  {
    Centre(work, ScaledLength(Width(work), percent), ScaledLength(Height(work), percent))
  }

  /** Centre without resizing: the window keeps its current width and height. */
  function CenteredPlacement(work: Rect, window: Rect): (p: Placement)
    ensures p.width == Width(window) && p.height == Height(window)
    ensures 0 <= (work.right - (p.x + p.width)) - (p.x - work.left) <= 1
    ensures 0 <= (work.bottom - (p.y + p.height)) - (p.y - work.top) <= 1
  {
    Centre(work, Width(window), Height(window))
  }

  lemma ScaledLengthBounds(length: int, percent: nat)
    requires length >= 0 && percent <= 100
    ensures 0 <= ScaledLength(length, percent) <= length
  {
    var r := ScaledLength(length, percent);
    assert length * percent <= length * 100 by {
      assert length * (100 - percent) >= 0;
    }
    assert r * 100 <= length * 100;
  }

  /** Scale 100 reproduces the work area exactly, whatever its shape. */
  lemma FullScaleIsWorkArea(work: Rect)
    ensures ScaledPlacement(work, 100) == Placement(work.left, work.top, Width(work), Height(work))
    ensures PlacementRect(ScaledPlacement(work, 100)) == work
  {
  }

  /** A scale of at most 100% keeps the window inside the work area, with left and
      right margins (and top and bottom margins) differing by at most one pixel. */
  lemma ScaledInsideWorkArea(work: Rect, percent: nat)
    requires WellFormed(work) && 0 < percent <= 100
    ensures var p := ScaledPlacement(work, percent);
      && 0 <= p.width <= Width(work) && 0 <= p.height <= Height(work)
      && work.left <= p.x && p.x + p.width <= work.right
      && work.top <= p.y && p.y + p.height <= work.bottom
      && 0 <= (work.right - (p.x + p.width)) - (p.x - work.left) <= 1
      && 0 <= (work.bottom - (p.y + p.height)) - (p.y - work.top) <= 1
  {
    ScaledLengthBounds(Width(work), percent);
    ScaledLengthBounds(Height(work), percent);
  }

  /** Scales above 100% are not clamped: the window then covers the whole work area. */
  lemma OversizedCoversWorkArea(work: Rect, percent: nat)
    requires WellFormed(work) && percent >= 100
    ensures var p := ScaledPlacement(work, percent);
      && p.x <= work.left && work.right <= p.x + p.width
      && p.y <= work.top && work.bottom <= p.y + p.height
  {
  }

  /** Centring a window that already has the scaled size lands exactly where the resize puts it. */
  lemma CenterAfterResizeIsNoOp(work: Rect, percent: nat)
    ensures var p := ScaledPlacement(work, percent);
      CenteredPlacement(work, PlacementRect(p)) == p
  {
  }

  /** Centring twice is centring once. */
  lemma CenterIdempotent(work: Rect, window: Rect)
    ensures var p := CenteredPlacement(work, window);
      CenteredPlacement(work, PlacementRect(p)) == p
  {
  }
}
