/**
 * The globe's interaction state (src/components/Globe.tsx): the rotation pair
 * [yaw, pitch] that auto-rotation and dragging update, the auto-rotate flag, and
 * the projection scale that the wheel zooms. Drawing is not modelled; the base
 * radius, which the source derives from the canvas size, is a parameter.
 */
module GlobeView {
  import opened Wrappers

  /** Degrees of yaw added by each auto-rotate tick. */
  const RotationSpeed: real := 0.35
  /** Degrees of rotation per pixel of drag. */
  const Sensitivity: real := 0.4
  /** Pitch is kept within [-PitchLimit, PitchLimit]. */
  const PitchLimit: real := 90.0
  /** Wheel factors: scrolling down zooms out, anything else zooms in. */
  const ZoomOutFactor: real := 0.92
  const ZoomInFactor: real := 1.08
  /** The scale is kept within [MinZoom * radius, MaxZoom * radius]. */
  const MinZoom: real := 0.5
  const MaxZoom: real := 2.5

  /** Math.max(lo, Math.min(hi, v)). */
  function Clamp(lo: real, hi: real, v: real): (r: real)
    ensures lo <= hi ==> lo <= r <= hi
    ensures lo <= v <= hi ==> r == v
    ensures lo <= hi && v < lo ==> r == lo
    ensures lo <= hi && hi < v ==> r == hi
    ensures hi < lo ==> r == lo
  {
    var m := if hi < v then hi else v;
    if lo < m then m else lo
  }

  /** What mousedown captures: the pointer position and a copy of the rotation. */
  datatype DragStart = DragStart(x: real, y: real, yaw: real, pitch: real)

  /** Yaw during a drag: the starting yaw plus the horizontal displacement times the sensitivity. */
  function DragYaw(s: DragStart, x: real): (yaw: real)
    ensures x == s.x ==> yaw == s.yaw
    ensures x > s.x ==> yaw > s.yaw
    ensures x < s.x ==> yaw < s.yaw
  {
    s.yaw + (x - s.x) * Sensitivity
  }

  /** Pitch during a drag: the starting pitch minus the vertical displacement, clamped. */
  function DragPitch(s: DragStart, y: real): (pitch: real)
    ensures -PitchLimit <= pitch <= PitchLimit
    ensures -PitchLimit <= s.pitch <= PitchLimit && y == s.y ==> pitch == s.pitch
  {
    Clamp(-PitchLimit, PitchLimit, s.pitch - (y - s.y) * Sensitivity)
  }

  /** A large enough upward drag pins the pitch at 90 degrees, a downward one at -90. */
  lemma DragPitchSaturates(s: DragStart, y: real)
    ensures y <= s.y - (PitchLimit - s.pitch) / Sensitivity ==> DragPitch(s, y) == PitchLimit
    ensures y >= s.y + (PitchLimit + s.pitch) / Sensitivity ==> DragPitch(s, y) == -PitchLimit
  {
  }

  /** The scale after one wheel event. */
  function ZoomedScale(scale: real, deltaY: real, radius: real): (r: real)
    ensures 0.0 <= radius ==> MinZoom * radius <= r <= MaxZoom * radius
    ensures radius < 0.0 ==> r == MinZoom * radius
    ensures 0.0 <= radius && MinZoom * radius <= scale <= MaxZoom * radius ==>
      (deltaY > 0.0 ==> r <= scale) && (deltaY <= 0.0 ==> r >= scale)
  {
    var factor := if deltaY > 0.0 then ZoomOutFactor else ZoomInFactor;
    Clamp(radius * MinZoom, radius * MaxZoom, scale * factor)
  }

  class Globe {
    /** The base radius the projection starts at. */
    const radius: real
    /** rotation[0] and rotation[1]. */
    var yaw: real
    var pitch: real
    /** projection.scale(). */
    var scale: real
    var autoRotate: bool
    /** The snapshot of the latest mousedown, while its mousemove listener is registered. */
    var drag: Option<DragStart>
    /** Mouseup listeners registered, one per mousedown since the last mouseup. */
    var upHandlers: nat
    /** The 10 ms timers that will set autoRotate back to true, not yet fired. */
    var pendingResumes: nat

    ghost predicate Valid()
      reads this
    {
      -PitchLimit <= pitch <= PitchLimit &&
      (0.0 <= radius ==> MinZoom * radius <= scale <= MaxZoom * radius) &&
      (drag.Some? <==> upHandlers > 0) &&
      (drag.Some? ==> -PitchLimit <= drag.value.pitch <= PitchLimit)
    }

    constructor (r: real)
      ensures Valid()
      ensures radius == r && scale == r
      ensures yaw == 0.0 && pitch == 0.0 && autoRotate
      ensures drag == None && upHandlers == 0 && pendingResumes == 0
    {
      radius := r;
      yaw, pitch := 0.0, 0.0;
      scale := r;
      autoRotate := true;
      drag := None;
      upHandlers, pendingResumes := 0, 0;
    }

    /** rotate: one frame of the rotation timer. */
    method Tick()
      requires Valid()
      modifies this
      ensures Valid()
      ensures yaw == if old(autoRotate) then old(yaw) + RotationSpeed else old(yaw)
      ensures pitch == old(pitch) && scale == old(scale) && autoRotate == old(autoRotate)
      ensures drag == old(drag) && upHandlers == old(upHandlers) && pendingResumes == old(pendingResumes)
    {
      if autoRotate {
        yaw := yaw + RotationSpeed;
      }
    }

    /** handleMouseDown: stop auto-rotation, snapshot pointer and rotation, listen for moves and the release. */
    method MouseDown(x: real, y: real)
      requires Valid()
      modifies this
      ensures Valid()
      ensures !autoRotate
      ensures drag == Some(DragStart(x, y, old(yaw), old(pitch)))
      ensures upHandlers == old(upHandlers) + 1
      ensures yaw == old(yaw) && pitch == old(pitch) && scale == old(scale)
      ensures pendingResumes == old(pendingResumes)
    {
      autoRotate := false;
      drag := Some(DragStart(x, y, yaw, pitch));
      upHandlers := upHandlers + 1;
    }

    /**
     * handleMouseMove: the rotation is recomputed from the drag-start snapshot,
     * never from the current rotation. When mousedown has fired more than once
     * without a mouseup, the handlers run in registration order and the latest
     * snapshot's handler writes last, which is the one kept here.
     */
    method MouseMove(x: real, y: real)
      requires Valid()
      modifies this
      ensures Valid()
      ensures old(drag).Some? ==> yaw == DragYaw(old(drag).value, x) && pitch == DragPitch(old(drag).value, y)
      ensures old(drag).None? ==> yaw == old(yaw) && pitch == old(pitch)
      ensures scale == old(scale) && autoRotate == old(autoRotate) && drag == old(drag)
      ensures upHandlers == old(upHandlers) && pendingResumes == old(pendingResumes)
    {
      if drag.Some? {
        var start := drag.value;
        var dx := x - start.x;
        var dy := y - start.y;
        yaw := start.yaw + dx * Sensitivity;
        pitch := start.pitch - dy * Sensitivity;
        pitch := Clamp(-PitchLimit, PitchLimit, pitch);
      }
    }

    /** handleMouseUp: every registered release handler removes its listeners and schedules a resume. */
    method MouseUp()
      requires Valid()
      modifies this
      ensures Valid()
      ensures drag == None && upHandlers == 0
      ensures pendingResumes == old(pendingResumes) + old(upHandlers)
      ensures yaw == old(yaw) && pitch == old(pitch) && scale == old(scale) && autoRotate == old(autoRotate)
    {
      pendingResumes := pendingResumes + upHandlers;
      upHandlers := 0;
      drag := None;
    }

    /** A 10 ms resume timer fires. */
    method Resume()
      requires Valid() && pendingResumes > 0
      modifies this
      ensures Valid()
      ensures autoRotate && pendingResumes == old(pendingResumes) - 1
      ensures yaw == old(yaw) && pitch == old(pitch) && scale == old(scale)
      ensures drag == old(drag) && upHandlers == old(upHandlers)
    {
      autoRotate := true;
      pendingResumes := pendingResumes - 1;
    }

    /** handleWheel: zoom by a fixed factor, clamped to [0.5 r, 2.5 r]. */
    method Wheel(deltaY: real)
      requires Valid()
      modifies this
      ensures Valid()
      ensures scale == ZoomedScale(old(scale), deltaY, radius)
      ensures yaw == old(yaw) && pitch == old(pitch) && autoRotate == old(autoRotate)
      ensures drag == old(drag) && upHandlers == old(upHandlers) && pendingResumes == old(pendingResumes)
    {
      var factor := if deltaY > 0.0 then ZoomOutFactor else ZoomInFactor;
      var newRadius := Clamp(radius * MinZoom, radius * MaxZoom, scale * factor);
      scale := newRadius;
    }
  }
}
