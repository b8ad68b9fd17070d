/** The actions a hotkey can be bound to, and the window-transform ones as the
    `SetWindowPos` call they issue on the foreground window. */
module Actions {
  import opened Wrappers
  import opened Geometry

  /** The callbacks the registry stores: the four predefined shortcuts, one
      resize closure per custom action, and the two minimize-sequence triggers. */
  datatype Action =
    | ResizeTo80
    | Fullscreen
    | CenterWindow
    | ResizeTo60
    | CustomResize(percent: nat)
    | StartMinimizeSequence
    | CompleteMinimizeSequence

  /** The scale a resizing action passes to `_resize_window`, as a percentage. */
  function ResizePercent(a: Action): (r: Option<nat>)
    ensures r.None? <==> a == CenterWindow || a == StartMinimizeSequence || a == CompleteMinimizeSequence
    ensures a.CustomResize? ==> r == Some(a.percent)
    ensures r.Some? && !a.CustomResize? ==> 60 <= r.value <= 100
    ensures a == ResizeTo80 ==> r == Some(80)
    ensures a == ResizeTo60 ==> r == Some(60)
    ensures a == Fullscreen ==> r == Some(100)
  {
    match a
    case ResizeTo80 => Some(80)
    case Fullscreen => Some(100)
    case ResizeTo60 => Some(60)
    case CustomResize(p) => Some(p)
    case _ => None
  }

  /** What a window-transform action does to the foreground window: the placement
      it passes to `SetWindowPos`, or None when nothing is moved. `foreground` is
      what `GetForegroundWindow` returned (0 when there is none), `window` that
      window's current rectangle and `info` its monitor. */
  function Perform(a: Action, foreground: int, window: Rect, info: MonitorInfo): (c: Option<Placement>)
    ensures c.Some? <==> foreground != 0 && (ResizePercent(a).Some? || a == CenterWindow)
    ensures c.Some? ==>
      c.value == (if a == CenterWindow then CenteredPlacement(info.work, window)
        else ScaledPlacement(info.work, ResizePercent(a).value))
    ensures c.Some? && a == CenterWindow ==>
      c.value.width == Width(window) && c.value.height == Height(window)
    ensures c.Some? && a != CenterWindow ==>
      var p := ResizePercent(a).value;
      WellFormed(info.work) && 0 < p <= 100 ==>
        info.work.left <= c.value.x && c.value.x + c.value.width <= info.work.right &&
        info.work.top <= c.value.y && c.value.y + c.value.height <= info.work.bottom
  {
    if foreground == 0 then
      None
    else if a == CenterWindow then
      Some(CenteredPlacement(info.work, window))
    else match ResizePercent(a)
      case Some(p) =>
        var r := ScaledPlacement(info.work, p);
        assert WellFormed(info.work) && 0 < p <= 100 ==>
          info.work.left <= r.x && r.x + r.width <= info.work.right &&
          info.work.top <= r.y && r.y + r.height <= info.work.bottom
        by {
          if WellFormed(info.work) && 0 < p <= 100 {
            ScaledInsideWorkArea(info.work, p);
          }
        }
        Some(r)
      case None => None
  }

  /** `fullscreen` gives the foreground window exactly the work area of its monitor. */
  lemma FullscreenFillsWorkArea(foreground: int, window: Rect, info: MonitorInfo)
    requires foreground != 0
    ensures Perform(Fullscreen, foreground, window, info) == Some(Placement(info.work.left, info.work.top, Width(info.work), Height(info.work)))
  {
  }
}
