/**
 The double-click camera switch installed on the canvas by the scene builder.

 Every click compares the time elapsed since the last recorded click with a
 500 ms window. A slower click is only recorded; a faster one forgets the
 recorded click and swaps the active camera between the MMD camera and the
 arc-rotate camera. The click timestamp is an abstract integer number of
 milliseconds.
 */
module CameraToggle {

  /** Largest gap, in milliseconds, between two clicks that still form a double click. */
  const DoubleClickWindow: int := 500

  /** The camera the scene renders through. `Other` is any camera that is neither
      of the two the toggle knows about (for example one installed by a WebXR session). */
  datatype Cam = MmdCamera | ArcRotateCamera | Other(name: string)

  /** The value of `lastClickTime`: a timestamp, or `-Infinity` ("no pending click"). */
  datatype Stamp = Never | At(ms: int)

  /** An integer extended with positive infinity: the part of the JavaScript number
      line the guard can reach. */
  datatype Ext = Finite(v: int) | PosInfinity

  /** The state the click handler closes over, together with the scene's active camera. */
  datatype Toggle = Toggle(last: Stamp, active: Cam)

  /** The state right after the handler is installed: no click recorded yet. */
  function Start(active: Cam): Toggle {
    Toggle(Never, active)
  }

  /** `currentTime - lastClickTime`, where subtracting `-Infinity` gives `+Infinity`. */
  function Elapsed(now: int, last: Stamp): Ext {
    match last
    case Never => PosInfinity
    case At(t) => Finite(now - t)
  }

  /** `limit < e` on extended integers. */
  predicate Exceeds(e: Ext, limit: int) {
    match e
    case PosInfinity => true
    case Finite(v) => limit < v
  }

  /** The conditional on the active camera: the MMD camera gives way to the
      arc-rotate camera, and every other camera to the MMD camera. */
  function Swap(c: Cam): Cam {
    if c == MmdCamera then ArcRotateCamera else MmdCamera
  }

  /** A click at `now` completes a double click: some earlier click is recorded
      and at most `DoubleClickWindow` milliseconds have passed since it. */
  predicate IsDoubleClick(last: Stamp, now: int) {
    last.At? && now - last.ms <= DoubleClickWindow
  }

  /** One click event. */
  function Click(s: Toggle, now: int): (s': Toggle)
    ensures IsDoubleClick(s.last, now) ==> s'.last == Never && s'.active == Swap(s.active)
    ensures !IsDoubleClick(s.last, now) ==> s'.last == At(now) && s'.active == s.active
  {
    if Exceeds(Elapsed(now, s.last), DoubleClickWindow) then
      Toggle(At(now), s.active)
    else
      Toggle(Never, Swap(s.active))
  }

  /** Whether a click at `now` swaps the camera. */
  predicate Toggles(s: Toggle, now: int) {
    Click(s, now).active != s.active
  }

  /** The state after a sequence of clicks, in order. */
  function Run(s: Toggle, clicks: seq<int>): Toggle
    decreases |clicks|
  {
    if |clicks| == 0 then s else Run(Click(s, clicks[0]), clicks[1..])
  }

  /** How many of a sequence of clicks swap the camera. */
  function ToggleCount(s: Toggle, clicks: seq<int>): nat
    decreases |clicks|
  {
    if |clicks| == 0 then 0
    else (if Toggles(s, clicks[0]) then 1 else 0) + ToggleCount(Click(s, clicks[0]), clicks[1..])
  }

  /** `c` swapped `n` times. */
  function SwapTimes(c: Cam, n: nat): Cam
    decreases n
  {
    if n == 0 then c else SwapTimes(Swap(c), n - 1)
  }

  /** A click swaps the camera exactly when it completes a double click. */
  lemma TogglesIffDoubleClick(s: Toggle, now: int)
    ensures Toggles(s, now) <==> IsDoubleClick(s.last, now)
  {
  }

  /** The first click after installation never swaps the camera; it is only recorded. */
  lemma FirstClickOnlyRecords(active: Cam, now: int)
    ensures Click(Start(active), now) == Toggle(At(now), active)
    ensures !Toggles(Start(active), now)
  {
  }

  /** A click more than 500 ms after the recorded one is recorded and leaves the camera alone. */
  lemma SlowClickOnlyRecords(s: Toggle, now: int)
    requires s.last.At? && now - s.last.ms > DoubleClickWindow
    ensures Click(s, now) == Toggle(At(now), s.active)
  {
  }

  /** A click 500 ms or less after the recorded one, including exactly 500 ms,
      swaps the camera and forgets the recorded click. */
  lemma QuickClickSwaps(s: Toggle, now: int)
    requires s.last.At? && now - s.last.ms <= DoubleClickWindow
    ensures Click(s, now) == Toggle(Never, Swap(s.active))
  {
  }

  /** Right after a swap, the next click never swaps again: a third quick click
      starts a new pair instead of completing a triple. */
  lemma NoSwapAfterSwap(s: Toggle, first: int, second: int)
    requires Toggles(s, first)
    ensures !Toggles(Click(s, first), second)
    ensures Click(Click(s, first), second) == Toggle(At(second), Swap(s.active))
  {
  }

  /** The swap exchanges the two known cameras, sends any other camera to the MMD
      camera, and undoes itself on the two known cameras. */
  lemma SwapExchanges(c: Cam)
    ensures Swap(c) == MmdCamera || Swap(c) == ArcRotateCamera
    ensures c == MmdCamera ==> Swap(c) == ArcRotateCamera
    ensures c != MmdCamera ==> Swap(c) == MmdCamera
    ensures (c == MmdCamera || c == ArcRotateCamera) ==> Swap(Swap(c)) == c
  {
  }

  /** The active camera after a run is the starting camera swapped once per toggling click. */
  lemma {:induction false} RunActive(s: Toggle, clicks: seq<int>)
    ensures Run(s, clicks).active == SwapTimes(s.active, ToggleCount(s, clicks))
    decreases |clicks|
  {
    if |clicks| > 0 {
      var s' := Click(s, clicks[0]);
      RunActive(s', clicks[1..]);
      if Toggles(s, clicks[0]) {
        assert s'.active == Swap(s.active);
      } else {
        assert s'.active == s.active;
      }
    }
  }

  /** On the two known cameras, an even number of swaps is the identity and an odd number is one swap. */
  lemma {:induction false} SwapTimesParity(c: Cam, n: nat)
    requires c == MmdCamera || c == ArcRotateCamera
    ensures SwapTimes(c, n) == if n % 2 == 0 then c else Swap(c)
    decreases n
  {
    if n > 0 {
      SwapTimesParity(Swap(c), n - 1);
    }
  }

  /** No two consecutive clicks both swap, so at most half the clicks swap (plus one
      if a click was already pending when the run began). */
  lemma {:induction false} ToggleCountBound(s: Toggle, clicks: seq<int>)
    ensures 2 * ToggleCount(s, clicks) <= |clicks| + (if s.last.At? then 1 else 0)
    decreases |clicks|
  {
    if |clicks| > 0 {
      ToggleCountBound(Click(s, clicks[0]), clicks[1..]);
    }
  }

  /** Two clicks 400 ms apart swap the camera; two clicks 600 ms apart do not;
      three clicks at 0, 300 and 600 ms swap exactly once. */
  lemma ClickExamples(active: Cam)
    ensures ToggleCount(Start(active), [0, 400]) == 1
    ensures Run(Start(active), [0, 400]).active == Swap(active)
    ensures ToggleCount(Start(active), [0, 600]) == 0
    ensures Run(Start(active), [0, 600]).active == active
    ensures ToggleCount(Start(active), [0, 300, 600]) == 1
    ensures Run(Start(active), [0, 300, 600]) == Toggle(At(600), Swap(active))
  {
    assert [0, 400][1..] == [400];
    assert [0, 600][1..] == [600];
    assert [0, 300, 600][1..] == [300, 600];
    assert [300, 600][1..] == [600];
  }
}
