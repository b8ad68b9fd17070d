/** "Minimize everything on this monitor": the filter applied to the enumerated
    top-level windows, and the two-key sequence (ctrl+shift+h, then ctrl+shift+m
    within two seconds) that triggers it. */
module Minimize {
  import opened Geometry

  /** What the window enumeration reports for one top-level window. */
  datatype Window = Window(hwnd: int, visible: bool, rect: Rect)

  /** The handler's test: visible, not the application's own window, and overlapping
      the monitor's full bounds (which include the taskbar). */
  predicate Qualifies(w: Window, own: int, monitor: Rect) {
    w.visible && w.hwnd != own && RectsIntersect(w.rect, monitor)
  }

  /** The handles minimised, in enumeration order. */
  function Targets(windows: seq<Window>, own: int, monitor: Rect): (r: seq<int>)
    ensures |r| <= |windows|
    ensures forall h :: h in r ==>
      exists i :: 0 <= i < |windows| && windows[i].hwnd == h && Qualifies(windows[i], own, monitor)
  {
    if windows == [] then []
    else
      var w := windows[|windows| - 1];
      assert forall i :: 0 <= i < |windows| - 1 ==> windows[..|windows| - 1][i] == windows[i];
      Targets(windows[..|windows| - 1], own, monitor) + (if Qualifies(w, own, monitor) then [w.hwnd] else [])
  }

  /** Exactly the qualifying windows are minimised; no other handle is touched. */
  lemma {:induction false} TargetsExactly(windows: seq<Window>, own: int, monitor: Rect, h: int)
    ensures h in Targets(windows, own, monitor) <==>
      exists i :: 0 <= i < |windows| && windows[i].hwnd == h && Qualifies(windows[i], own, monitor)
  {
    if windows != [] {
      var n := |windows| - 1;
      var prefix := windows[..n];
      TargetsExactly(prefix, own, monitor, h);
      if exists i :: 0 <= i < n && prefix[i].hwnd == h && Qualifies(prefix[i], own, monitor) {
        var i :| 0 <= i < n && prefix[i].hwnd == h && Qualifies(prefix[i], own, monitor);
        assert windows[i] == prefix[i];
      }
      if exists i :: 0 <= i < |windows| && windows[i].hwnd == h && Qualifies(windows[i], own, monitor) {
        var i :| 0 <= i < |windows| && windows[i].hwnd == h && Qualifies(windows[i], own, monitor);
        if i < n {
          assert prefix[i] == windows[i];
        }
      }
    }
  }

  /** The window whose handle is `own` (the source's `self.hwnd`) is never minimised. */
  lemma OwnWindowSpared(windows: seq<Window>, own: int, monitor: Rect)
    ensures own !in Targets(windows, own, monitor)
  {
  }

  /** The test uses the full monitor bounds, not the work area: a window lying only
      over the taskbar strip is minimised too. */
  lemma TaskbarWindowMinimized()
    ensures var info := MonitorInfo(Rect(0, 0, 1920, 1080), Rect(0, 0, 1920, 1040), 1);
      var w := Window(7, true, Rect(0, 1040, 100, 1080));
      && !RectsIntersect(w.rect, info.work)
      && Targets([w], 1, info.monitor) == [7]
  {
  }

  /** `_minimize_all_windows_on_current_desktop`: walks the windows in enumeration
      order and minimises each qualifying one. `info` is the monitor under the
      cursor, `own` the application's window handle. */
  method MinimizeAllOnMonitor(windows: seq<Window>, own: int, info: MonitorInfo) returns (minimized: seq<int>)
    ensures minimized == Targets(windows, own, info.monitor)
  {
    var monitorRect := info.monitor;
    minimized := [];
    for i := 0 to |windows|
      invariant minimized == Targets(windows[..i], own, monitorRect)
    {
      var w := windows[i];
      assert windows[..i + 1][..i] == windows[..i];
      if w.visible && w.hwnd != own && RectsIntersect(w.rect, monitorRect) {
        minimized := minimized + [w.hwnd];
      }
    }
    assert windows[..|windows|] == windows;
  }

  /** The longest gap, in milliseconds, between the two keys of the sequence. */
  const SequenceWindowMs: int := 2000

  /** What pressing the second key of the sequence did. */
  datatype Completion = NotStarted | Completed | TimedOut

  /** The two fields the application keeps for the minimize sequence. */
  class MinimizeSequence {
    var started: bool
    var startTime: int

    constructor()
      ensures !started && startTime == 0
    {
      started := false;
      startTime := 0;
    }

    /** `_start_minimize_sequence`: arms the sequence at `now`, even when it was armed already. */
    method Start(now: int)
      modifies this
      ensures started && startTime == now
    {
      started := true;
      startTime := now;
    }

    /** `_complete_minimize_sequence`: fires when armed and at most two seconds have
        passed, and disarms in every case. */
    method Complete(now: int, windows: seq<Window>, own: int, info: MonitorInfo) returns (outcome: Completion, minimized: seq<int>)
      modifies this
      ensures outcome == if !old(started) then NotStarted
        else if now - old(startTime) <= SequenceWindowMs then Completed else TimedOut
      ensures minimized == if outcome == Completed then Targets(windows, own, info.monitor) else []
      ensures !started && startTime == old(startTime)
    {
      minimized := [];
      if started {
        var elapsed := now - startTime;
        if elapsed <= SequenceWindowMs {
          minimized := MinimizeAllOnMonitor(windows, own, info);
          outcome := Completed;
        } else {
          outcome := TimedOut;
        }
      } else {
        outcome := NotStarted;
      }
      started := false;
    }
  }

  /** The sequence on one monitor: second key after 1.9 s fires, pressing it again
      does nothing, after 2.1 s it times out, at exactly 2 s it still fires. */
  method SequenceScenario(windows: seq<Window>, own: int, info: MonitorInfo)
    returns (first: Completion, again: Completion, late: Completion, boundary: Completion)
    ensures first == Completed && again == NotStarted && late == TimedOut && boundary == Completed
  {
    var s := new MinimizeSequence();
    var minimized: seq<int>;
    s.Start(0);
    first, minimized := s.Complete(1900, windows, own, info);
    again, minimized := s.Complete(1950, windows, own, info);
    s.Start(5000);
    late, minimized := s.Complete(7100, windows, own, info);
    s.Start(8000);
    boundary, minimized := s.Complete(10000, windows, own, info);
  }
}
