/**
 * scripts/game/Camera.py: the game camera, a position and a zoom scale
 * with one "changed" flag each, which the engine reads to decide what to
 * redraw. `glob.delta_time` (the frame time) is a parameter.
 */
module Cameras {

  /** The scale `set_scale(s)` leaves behind: unchanged for the current value, otherwise `s` clamped to at least 1. */
  function ClampedScale(current: real, s: real): real {
    if s == current then current
    else if s >= 1.0 then s
    else 1.0
  }

  /**
   * A scale that changes is at least 1; a scale of at least 1 stays so;
   * setting the same scale twice is the same as once.
   */
  lemma ClampedScaleFacts(current: real, s: real)
    ensures ClampedScale(current, s) != current ==> ClampedScale(current, s) >= 1.0
    ensures current >= 1.0 ==> ClampedScale(current, s) >= 1.0
    ensures ClampedScale(ClampedScale(current, s), s) == ClampedScale(current, s)
    ensures s >= 1.0 ==> ClampedScale(current, s) == s
  {
  }

  /** `move_pos(values)` on a position: each coordinate moves by its velocity times the frame time. */
  function Moved(pos: seq<real>, values: (real, real), deltaTime: real): (r: seq<real>)
    requires |pos| == 2
    ensures |r| == 2
  {
    [pos[0] + values.0 * deltaTime, pos[1] + values.1 * deltaTime]
  }

  /** Moving by the opposite velocity over the same frame time comes back to the start. */
  lemma MovedUndo(pos: seq<real>, values: (real, real), deltaTime: real)
    requires |pos| == 2
    ensures Moved(Moved(pos, values, deltaTime), (-values.0, -values.1), deltaTime) == pos
  {
    var back := Moved(Moved(pos, values, deltaTime), (-values.0, -values.1), deltaTime);
    assert back[0] == pos[0] && back[1] == pos[1];
  }

  /** Two moves over the same frame time add their velocities. */
  lemma MovedCompose(pos: seq<real>, a: (real, real), b: (real, real), deltaTime: real)
    requires |pos| == 2
    ensures Moved(Moved(pos, a, deltaTime), b, deltaTime) == Moved(pos, (a.0 + b.0, a.1 + b.1), deltaTime)
  {
    var twice := Moved(Moved(pos, a, deltaTime), b, deltaTime);
    var once := Moved(pos, (a.0 + b.0, a.1 + b.1), deltaTime);
    assert twice[0] == once[0] && twice[1] == once[1];
  }

  class Camera {
    var pos: seq<real>        // the list `[x, y]`
    var scale: real
    var scaleChanged: bool
    var posChanged: bool

    ghost predicate Valid()
      reads this
    {
      |pos| == 2
    }

    /** `Camera(pos, scale)`: a copy of the position, the scale as given (not clamped), both flags down. */
    constructor (pos: (real, real), scale: real)
      ensures Valid()
      ensures this.pos == [pos.0, pos.1] && this.scale == scale
      ensures !scaleChanged && !posChanged
    {
      this.pos := [pos.0, pos.1];
      this.scale := scale;
      scaleChanged := false;
      posChanged := false;
    }

    /** `move_pos(values)`: a zero velocity changes nothing; any other moves both coordinates and raises the flag. */
    method MovePos(values: (real, real), deltaTime: real)
      requires Valid()
      modifies this`pos, this`posChanged
      ensures Valid()
      ensures values == (0.0, 0.0) ==> pos == old(pos) && posChanged == old(posChanged)
      ensures values != (0.0, 0.0) ==> pos == Moved(old(pos), values, deltaTime) && posChanged
    {
      if values.0 != 0.0 || values.1 != 0.0 {
        pos := pos[0 := pos[0] + values.0 * deltaTime];
        pos := pos[1 := pos[1] + values.1 * deltaTime];
        posChanged := true;
      }
    }

    /**
     * `set_pos(pos)` with the tuple its signature asks for: a tuple never
     * equals the stored list, so the position is always replaced and the
     * flag raised.
     */
    method SetPos(p: (real, real))
      modifies this`pos, this`posChanged
      ensures Valid()
      ensures pos == [p.0, p.1] && posChanged
    {
      pos := [p.0, p.1];
      posChanged := true;
    }

    /** `set_scale(s)`: a new value is clamped to at least 1 and raises the flag; the current value changes nothing. */
    method SetScale(s: real)
      modifies this`scale, this`scaleChanged
      ensures scale == ClampedScale(old(scale), s)
      ensures scaleChanged == (old(scaleChanged) || s != old(scale))
    {
      if s != scale {
        if s >= 1.0 {
          scale := s;
        } else {
          scale := 1.0;
        }
        scaleChanged := true;
      }
    }

    /** `adjust_scale(rate)`: `set_scale` of the scale plus the rate times the frame time. */
    method AdjustScale(rate: real, deltaTime: real)
      modifies this`scale, this`scaleChanged
      ensures scale == ClampedScale(old(scale), old(scale) + rate * deltaTime)
      ensures old(scale) >= 1.0 ==> scale >= 1.0
      ensures scaleChanged == (old(scaleChanged) || old(scale) + rate * deltaTime != old(scale))
    {
      SetScale(scale + rate * deltaTime);
      ClampedScaleFacts(old(scale), old(scale) + rate * deltaTime);
    }
  }
}
