/** What the throttled `mousemove` handler asks of each dot: a quick push away from a nearby
    pointer, an elastic return once the pointer is far, or nothing. The tween library is
    modelled by the tween it is asked to run; how the offsets then move over time is not. */
module Repulsion {
  import opened JsNumbers
  import opened GridBuilder

  /** The easing curves the handler names: `power2.out` and `elastic.out(amplitude, period)`. */
  datatype Ease = Power2Out | ElasticOut(amplitude: real, period: real)

  /** A tween of a dot's offsets towards `(xOffset, yOffset)`, over `duration` seconds. */
  datatype Tween = Tween(xOffset: real, yOffset: real, duration: real, ease: Ease)

  /** Duration of the push, in seconds. */
  const RepelDuration: real := 0.3

  /** `elastic.out(1, 0.3)`, the ease of the return. */
  const RelaxEase: Ease := ElasticOut(1.0, 0.3)

  /** `dist` is `Math.sqrt(dx * dx + dy * dy)`: the square root is an input, described by its square. */
  predicate IsDistance(dist: real, dx: real, dy: real)
  {
    0.0 <= dist && dist * dist == dx * dx + dy * dy
  }

  /** `shockStrength * (proximity - dist) / proximity`: the push grows linearly as the pointer nears. */
  function Push(strength: real, proximity: real, dist: real): (push: real)
    requires 0.0 <= dist < proximity
    ensures push * proximity == strength * (proximity - dist)
  {
    strength * ((proximity - dist) / proximity)
  }

  /** The offset the push aims at: `-cos(angle) * push, -sin(angle) * push` with
      `angle = atan2(dy, dx)`. For `dist > 0` the cosine and sine are `dx / dist` and `dy / dist`;
      `atan2(0, 0)` is 0, so a dot right under the pointer is pushed to the left. */
  function PushTarget(dx: real, dy: real, dist: real, push: real): (target: (real, real))
    requires IsDistance(dist, dx, dy)
  {
    if dist == 0.0 then (-push, 0.0) else (-(dx / dist) * push, -(dy / dist) * push)
  }

  /** The tween the handler requests for `dot`, with the pointer at `(mx, my)` and `dist` its
      distance from the dot's base position; `None` when it requests nothing. */
  function Respond(dot: Dot, mx: real, my: real, dist: real, proximity: real, strength: real,
                   returnDuration: real): Option<Tween>
    requires IsDistance(dist, mx - dot.cx, my - dot.cy)
  {
    if dist < proximity then
      var target := PushTarget(mx - dot.cx, my - dot.cy, dist, Push(strength, proximity, dist));
      Some(Tween(target.0, target.1, RepelDuration, Power2Out))
    else if dot.xOffset != 0.0 || dot.yOffset != 0.0 then
      Some(Tween(0.0, 0.0, returnDuration, RelaxEase))
    else
      None
  }

  /** `overwrite: "auto"`: both tweens animate the same two offsets, so a new request replaces
      the dot's running tween; no request leaves it running. */
  function Overwrite(current: Option<Tween>, request: Option<Tween>): (running: Option<Tween>)
    ensures request.Some? ==> running == request
    ensures request.None? ==> running == current
  {
    if request.Some? then request else current
  }

  /** The tween running after `requests` reach a dot one after another, starting from `current`. */
  function OverwriteAll(current: Option<Tween>, requests: seq<Option<Tween>>): Option<Tween>
  {
    if requests == [] then current
    else Overwrite(OverwriteAll(current, requests[..|requests| - 1]), requests[|requests| - 1])
  }

  /** The latest request wins: once a move has requested `r`, later moves that request nothing
      leave `r` running, whatever ran before. */
  lemma {:induction false} LatestRequestWins(current: Option<Tween>, before: seq<Option<Tween>>,
                                             r: Option<Tween>, after: seq<Option<Tween>>)
    requires r.Some?
    requires forall j :: 0 <= j < |after| ==> after[j].None?
    ensures OverwriteAll(current, before + [r] + after) == r
  {
    var s := before + [r] + after;
    if after == [] {
      assert s[..|s| - 1] == before && s[|s| - 1] == r;
    } else {
      var rest := after[..|after| - 1];
      assert s[..|s| - 1] == before + [r] + rest && s[|s| - 1] == after[|after| - 1];
      LatestRequestWins(current, before, r, rest);
    }
  }

  /** Moves that request nothing leave the running tween as it was. */
  lemma {:induction false} NoRequestKeeps(current: Option<Tween>, requests: seq<Option<Tween>>)
    requires forall j :: 0 <= j < |requests| ==> requests[j].None?
    ensures OverwriteAll(current, requests) == current
  {
    if requests != [] {
      NoRequestKeeps(current, requests[..|requests| - 1]);
    }
  }

  // ----- the push -----

  /** The handler's test `dist < proximity` against the draw loop's `dsq <= proximity * proximity`:
      with `dsq` the square of `dist`, the strict test holds exactly when the radius is positive
      and `dsq` is below its square. */
  lemma InsideBySquares(dist: real, dsq: real, proximity: real)
    requires 0.0 <= dist && dist * dist == dsq
    ensures dist < proximity <==> 0.0 < proximity && dsq < proximity * proximity
  {
    if dist < proximity {
      SquareLess(dist, proximity);
    } else if 0.0 < proximity {
      if proximity < dist {
        SquareLess(proximity, dist);
      }
    }
  }

  /** A positive strength pushes every dot inside the radius, by at most the strength, and by
      all of it when the pointer is on the dot. */
  lemma PushRange(strength: real, proximity: real, dist: real)
    requires 0.0 <= dist < proximity && 0.0 < strength
    ensures 0.0 < Push(strength, proximity, dist) <= strength
    ensures dist == 0.0 ==> Push(strength, proximity, dist) == strength
  {
    var f := (proximity - dist) / proximity;
    assert f * proximity == proximity - dist;
    assert 0.0 < f <= 1.0 by {
      if f <= 0.0 {
        MulSign(-f, proximity);
      }
      if f > 1.0 {
        MulSign(f - 1.0, proximity);
        MulDistributes(f, 1.0, proximity);
      }
    }
    MulSign(f, strength);
    MulSign(1.0 - f, strength);
    MulDistributes(1.0, f, strength);
  }

  /** The closer dot is pushed at least as far. */
  lemma PushMonotone(strength: real, proximity: real, near: real, far: real)
    requires 0.0 <= near <= far < proximity && 0.0 <= strength
    ensures Push(strength, proximity, far) <= Push(strength, proximity, near)
  {
    var fn, ff := (proximity - near) / proximity, (proximity - far) / proximity;
    assert fn * proximity == proximity - near;
    assert ff * proximity == proximity - far;
    MulDistributes(fn, ff, proximity);
    assert fn - ff >= 0.0 by {
      if fn - ff < 0.0 {
        MulSign(ff - fn, proximity);
        MulDistributes(ff, fn, proximity);
      }
    }
    MulDistributes(fn, ff, strength);
    if strength > 0.0 {
      MulSign(fn - ff, strength);
    }
  }

  /** The direction `(dx, dy) / dist` is a unit vector. */
  lemma UnitDirection(dx: real, dy: real, dist: real)
    requires IsDistance(dist, dx, dy) && dist > 0.0
    ensures (dx / dist) * (dx / dist) + (dy / dist) * (dy / dist) == 1.0
  {
    var ux, uy := dx / dist, dy / dist;
    calc {
      (ux * ux + uy * uy) * (dist * dist);
    ==
      ux * ux * (dist * dist) + uy * uy * (dist * dist);
    == { ScaleSquare(ux, dist, dx); ScaleSquare(uy, dist, dy); }
      dx * dx + dy * dy;
    ==
      dist * dist;
    }
    CancelSquare(ux * ux + uy * uy, dist);
  }

  /** The push target lies `push` away from the dot's base, straight away from the pointer: its
      length is `|push|` and its product with the vector from the dot to the pointer is
      `-push * dist`. A dot right under the pointer goes `push` to the left. */
  lemma PushTargetAway(dx: real, dy: real, dist: real, push: real)
    requires IsDistance(dist, dx, dy)
    ensures var t := PushTarget(dx, dy, dist, push);
      && t.0 * t.0 + t.1 * t.1 == push * push
      && t.0 * dx + t.1 * dy == -(push * dist)
      && (dist == 0.0 ==> t == (-push, 0.0))
  {
    var t := PushTarget(dx, dy, dist, push);
    if dist > 0.0 {
      var ux, uy := dx / dist, dy / dist;
      assert ux * dist == dx && uy * dist == dy;
      calc {
        t.0 * t.0 + t.1 * t.1;
      ==
        (ux * ux + uy * uy) * (push * push);
      == { UnitDirection(dx, dy, dist); }
        push * push;
      }
      calc {
        t.0 * dx + t.1 * dy;
      ==
        -(push * ux) * (ux * dist) - (push * uy) * (uy * dist);
      ==
        -(push * dist) * (ux * ux + uy * uy);
      == { UnitDirection(dx, dy, dist); }
        -(push * dist);
      }
    } else {
      SquaresZero(dx, dy);
    }
  }

  // ----- the three regimes -----

  /** The three regimes: inside the radius the dot is pushed, for 0.3 s with `power2.out`, to the
      push target for its distance; outside it a dot with an offset is sent home with the elastic
      ease over `returnDuration`; a dot at rest outside the radius gets nothing. */
  lemma RespondRegimes(dot: Dot, mx: real, my: real, dist: real, proximity: real, strength: real,
                       returnDuration: real)
    requires IsDistance(dist, mx - dot.cx, my - dot.cy)
    ensures var r := Respond(dot, mx, my, dist, proximity, strength, returnDuration);
      && (dist < proximity <==> r.Some? && r.value.ease == Power2Out)
      && (dist < proximity ==>
            && r.value.duration == RepelDuration
            && (r.value.xOffset, r.value.yOffset)
               == PushTarget(mx - dot.cx, my - dot.cy, dist, Push(strength, proximity, dist)))
      && (!(dist < proximity) && (dot.xOffset != 0.0 || dot.yOffset != 0.0) <==>
            r == Some(Tween(0.0, 0.0, returnDuration, RelaxEase)))
      && (r.None? <==> !(dist < proximity) && dot.xOffset == 0.0 && dot.yOffset == 0.0)
  {
  }

  /** A finished return leaves the dot at rest, and a pointer that stays far then requests nothing:
      the return does not repeat once the dot is home. */
  lemma SettledStaysSettled(dot: Dot, mx: real, my: real, dist: real, proximity: real, strength: real,
                            returnDuration: real)
    requires IsDistance(dist, mx - dot.cx, my - dot.cy) && !(dist < proximity)
    ensures var r := Respond(dot, mx, my, dist, proximity, strength, returnDuration);
      var home := dot.(xOffset := if r.Some? then r.value.xOffset else dot.xOffset,
                       yOffset := if r.Some? then r.value.yOffset else dot.yOffset);
      Respond(home, mx, my, dist, proximity, strength, returnDuration).None?
  {
  }

  /** Two concrete moves with the component's defaults (radius 200, strength 20, return 1 s). */
  lemma Examples()
    ensures Respond(Dot(100.0, 100.0, 0.0, 0.0, false), 100.0, 100.0, 0.0, 200.0, 20.0, 1.0)
         == Some(Tween(-20.0, 0.0, 0.3, Power2Out))
    ensures Respond(Dot(100.0, 100.0, 0.0, 0.0, false), 200.0, 100.0, 100.0, 200.0, 20.0, 1.0)
         == Some(Tween(-10.0, 0.0, 0.3, Power2Out))
    ensures Respond(Dot(100.0, 100.0, 3.0, 0.0, false), 400.0, 100.0, 300.0, 200.0, 20.0, 1.0)
         == Some(Tween(0.0, 0.0, 1.0, ElasticOut(1.0, 0.3)))
    ensures Respond(Dot(100.0, 100.0, 0.0, 0.0, false), 400.0, 100.0, 300.0, 200.0, 20.0, 1.0) == None
  {
  }
}
