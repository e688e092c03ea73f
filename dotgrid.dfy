/** The state of one mounted DotGrid component: its props, the dots of the current grid, the
    tween last requested for each dot, the pointer position in the component's own coordinates,
    and the two throttles that guard the window listeners. Each method is one event the
    component reacts to; the browser supplies what the model cannot compute (the clock, the
    wrapper's size and position, square roots) as parameters. */
module DotGridEngine {
  import opened JsNumbers
  import opened Throttling
  import opened ColorModel
  import opened GridBuilder
  import opened Repulsion

  /** A point in the wrapper's coordinates. */
  datatype Point = Point(x: real, y: real)

  /** The part of `getBoundingClientRect()` the move handler reads. */
  datatype Rect = Rect(left: real, top: real)

  /** One dot as painted: the circle path translated to `(x, y)` and filled with `fill`. */
  datatype Circle = Circle(x: real, y: real, radius: real, fill: Fill)

  /** The pointer in the wrapper's coordinates: `clientX - rect.left`, `clientY - rect.top`. */
  function ToLocal(clientX: real, clientY: real, rect: Rect): (p: Point)
    ensures p.x + rect.left == clientX && p.y + rect.top == clientY
  {
    Point(clientX - rect.left, clientY - rect.top)
  }

  class Engine {
    const dotSize: real
    const gap: real
    const baseColor: string
    const activeColor: string
    const proximity: real
    const shockStrength: real
    const returnDuration: real
    const baseRgb: Rgb
    const activeRgb: Rgb
    const moveThrottle: Throttle
    const resizeThrottle: Throttle

    var dots: seq<Dot>
    var tweens: seq<Option<Tween>>
    var pointer: Point

    ghost predicate Valid()
      reads this
    {
      && gap != 0.0
      && |tweens| == |dots|
      && baseRgb == HexToRgb(baseColor)
      && activeRgb == HexToRgb(activeColor)
      && moveThrottle.limit == MoveLimit
      && resizeThrottle.limit == ResizeLimit
      && moveThrottle != resizeThrottle
    }

    /** `dists` holds, for every dot, the distance from `p` to the dot's base position. */
    ghost predicate DistancesFrom(p: Point, dists: seq<real>)
      reads this
    {
      && |dists| == |dots|
      && forall i :: 0 <= i < |dots| ==> IsDistance(dists[i], p.x - dots[i].cx, p.y - dots[i].cy)
    }

    /** Mounting: the props are fixed, the pointer starts at the origin, both throttles have never
        fired, and the grid is built once for the wrapper's current size. */
    constructor (dotSize: real, gap: real, baseColor: string, activeColor: string, proximity: real,
                 shockStrength: real, returnDuration: real, width: real, height: real)
      requires gap != 0.0
      ensures Valid()
      ensures this.dotSize == dotSize && this.gap == gap && this.proximity == proximity
      ensures this.shockStrength == shockStrength && this.returnDuration == returnDuration
      ensures this.baseColor == baseColor && this.activeColor == activeColor
      ensures fresh(moveThrottle) && fresh(resizeThrottle)
      ensures moveThrottle.lastCall == 0.0 && resizeThrottle.lastCall == 0.0
      ensures dots == Grid(width, height, gap)
      ensures forall i :: 0 <= i < |tweens| ==> tweens[i] == None
      ensures pointer == Point(0.0, 0.0)
    {
      this.dotSize := dotSize;
      this.gap := gap;
      this.baseColor := baseColor;
      this.activeColor := activeColor;
      this.proximity := proximity;
      this.shockStrength := shockStrength;
      this.returnDuration := returnDuration;
      baseRgb := HexToRgb(baseColor);
      activeRgb := HexToRgb(activeColor);
      moveThrottle := new Throttle(MoveLimit);
      resizeThrottle := new Throttle(ResizeLimit);
      dots := [];
      tweens := [];
      pointer := Point(0.0, 0.0);
      new;
      BuildGrid(width, height);
    }

    /** `buildGrid`: replaces the dots by a fresh grid for a wrapper of the given size, row by row.
        The new dots have no tweens; the old tweens drive dots that are no longer drawn. */
    method BuildGrid(width: real, height: real)
      requires Valid()
      modifies this
      ensures Valid()
      ensures dots == Grid(width, height, gap)
      ensures forall i :: 0 <= i < |tweens| ==> tweens[i] == None
      ensures pointer == old(pointer)
    {
      var rows := Cells(height, gap);
      var built: seq<Dot> := [];
      var y := 0;
      while y <= rows
        invariant 0 <= y <= Count(height, gap)
        invariant built == Rows(width, height, gap, y)
        invariant unchanged(this)
      {
        var row := BuildRow(width, height, y);
        built := built + row;
        y := y + 1;
      }
      dots := built;
      tweens := seq(|built|, _ => None);
    }

    /** The inner loop of `buildGrid`: the dots of row `y`, left to right, `gap` apart from the
        left margin. */
    method BuildRow(width: real, height: real, y: int) returns (row: seq<Dot>)
      requires gap != 0.0
      ensures row == Row(width, height, gap, y)
    {
      var cols := Cells(width, gap);
      var startX, startY := Start(width, gap), Start(height, gap);
      row := [];
      var x := 0;
      while x <= cols
        invariant 0 <= x <= Count(width, gap)
        invariant |row| == x
        invariant forall j :: 0 <= j < x ==> row[j] == DotAt(width, height, gap, j, y)
      {
        row := row + [Dot(startX + x as real * gap, startY + y as real * gap, 0.0, 0.0, false)];
        x := x + 1;
      }
      assert |row| == |Row(width, height, gap, y)|;
    }

    /** `onMove`: records the pointer and asks each dot for the tween `Respond` picks, which
        replaces the dot's running tween. `dists` are the distances from the new pointer. */
    method OnMove(clientX: real, clientY: real, rect: Rect, dists: seq<real>)
      requires Valid() && DistancesFrom(ToLocal(clientX, clientY, rect), dists)
      modifies this
      ensures Valid()
      ensures dots == old(dots) && pointer == ToLocal(clientX, clientY, rect)
      ensures forall i :: 0 <= i < |dots| ==>
        tweens[i] == Overwrite(old(tweens)[i], Respond(dots[i], pointer.x, pointer.y, dists[i],
                                                         proximity, shockStrength, returnDuration))
    {
      pointer := ToLocal(clientX, clientY, rect);
      var next := tweens;
      var i := 0;
      while i < |dots|
        invariant 0 <= i <= |dots| == |next|
        invariant forall j :: 0 <= j < i ==>
          next[j] == Overwrite(tweens[j], Respond(dots[j], pointer.x, pointer.y, dists[j],
                                                  proximity, shockStrength, returnDuration))
        invariant forall j :: i <= j < |dots| ==> next[j] == tweens[j]
      {
        var request := Respond(dots[i], pointer.x, pointer.y, dists[i], proximity, shockStrength, returnDuration);
        next := next[i := Overwrite(next[i], request)];
        i := i + 1;
      }
      tweens := next;
    }

    /** The `mousemove` listener: the throttle decides, at time `now`, whether `onMove` runs. */
    method HandleMouseMove(now: real, clientX: real, clientY: real, rect: Rect, dists: seq<real>)
      returns (handled: bool)
      requires Valid() && DistancesFrom(ToLocal(clientX, clientY, rect), dists)
      modifies this, moveThrottle
      ensures Valid() && dots == old(dots)
      ensures handled <==> now - old(moveThrottle.lastCall) >= MoveLimit
      ensures moveThrottle.lastCall == if handled then now else old(moveThrottle.lastCall)
      ensures handled ==> pointer == ToLocal(clientX, clientY, rect)
      ensures handled ==> forall i :: 0 <= i < |dots| ==>
        tweens[i] == Overwrite(old(tweens)[i], Respond(dots[i], pointer.x, pointer.y, dists[i],
                                                         proximity, shockStrength, returnDuration))
      ensures !handled ==> pointer == old(pointer) && tweens == old(tweens)
    {
      handled := moveThrottle.Call(now);
      if handled {
        OnMove(clientX, clientY, rect, dists);
      }
    }

    /** The `resize` listener: the throttle decides, at time `now`, whether the grid is rebuilt
        for the wrapper's new size. */
    method HandleResize(now: real, width: real, height: real) returns (rebuilt: bool)
      requires Valid()
      modifies this, resizeThrottle
      ensures Valid() && pointer == old(pointer)
      ensures rebuilt <==> now - old(resizeThrottle.lastCall) >= ResizeLimit
      ensures resizeThrottle.lastCall == if rebuilt then now else old(resizeThrottle.lastCall)
      ensures rebuilt ==> dots == Grid(width, height, gap)
      ensures rebuilt ==> forall i :: 0 <= i < |tweens| ==> tweens[i] == None
      ensures !rebuilt ==> dots == old(dots) && tweens == old(tweens)
    {
      rebuilt := resizeThrottle.Call(now);
      if rebuilt {
        BuildGrid(width, height);
      }
    }

    /** gsap moves dot `i` part of the way along its running tween: the dot's offsets take the
        values `(x, y)` the animation has reached, and the tween keeps running. The easing curve
        that decides those values is not modelled, so they are parameters. */
    method Advance(i: nat, x: real, y: real)
      requires Valid() && i < |dots| && tweens[i].Some?
      modifies this
      ensures Valid() && pointer == old(pointer) && tweens == old(tweens)
      ensures dots == old(dots)[i := old(dots)[i].(xOffset := x, yOffset := y)]
    {
      dots := dots[i := dots[i].(xOffset := x, yOffset := y)];
    }

    /** The tween of dot `i` reaches its end: the dot's offsets take the tween's target values and
        the dot has no running tween. */
    method FinishTween(i: nat)
      requires Valid() && i < |dots| && tweens[i].Some?
      modifies this
      ensures Valid() && pointer == old(pointer)
      ensures dots == old(dots)[i := old(dots)[i].(xOffset := old(tweens)[i].value.xOffset,
                                                   yOffset := old(tweens)[i].value.yOffset)]
      ensures tweens == old(tweens)[i := None]
    {
      var t := tweens[i].value;
      dots := dots[i := dots[i].(xOffset := t.xOffset, yOffset := t.yOffset)];
      tweens := tweens[i := None];
    }

    /** How `draw` paints one dot: the circle of radius `dotSize / 2` at the dot's base position
        plus its offset, filled by the distance from `p` to the dot's base position. */
    function Paint(d: Dot, p: Point, dist: real): Circle
      requires IsDistance(dist, p.x - d.cx, p.y - d.cy)
    {
      Circle(RenderX(d), RenderY(d), dotSize / 2.0,
             DotFill(baseColor, baseRgb, activeRgb, proximity,
                     (p.x - d.cx) * (p.x - d.cx) + (p.y - d.cy) * (p.y - d.cy), dist))
    }

    /** One frame of `draw`: every dot, in order, painted for the current pointer. */
    method Draw(dists: seq<real>) returns (frame: seq<Circle>)
      requires Valid() && DistancesFrom(pointer, dists)
      ensures |frame| == |dots|
      ensures forall i :: 0 <= i < |dots| ==> frame[i] == Paint(dots[i], pointer, dists[i])
    {
      frame := [];
      var i := 0;
      while i < |dots|
        invariant 0 <= i <= |dots| && |frame| == i
        invariant forall j :: 0 <= j < i ==> frame[j] == Paint(dots[j], pointer, dists[j])
      {
        frame := frame + [Paint(dots[i], pointer, dists[i])];
        i := i + 1;
      }
    }

    /** With a positive radius, every dot the move handler pushes is drawn in a blended colour;
        the only blended dots it leaves alone lie exactly on the radius. */
    lemma PushedDotsAreLit(d: Dot, p: Point, dist: real)
      requires IsDistance(dist, p.x - d.cx, p.y - d.cy) && 0.0 < proximity
      ensures var pushed := Respond(d, p.x, p.y, dist, proximity, shockStrength, returnDuration);
        var lit := Paint(d, p, dist).fill.Blended?;
        && (pushed.Some? && pushed.value.ease == Power2Out ==> lit)
        && (lit && !(pushed.Some? && pushed.value.ease == Power2Out) <==> dist == proximity)
    {
      var dsq := (p.x - d.cx) * (p.x - d.cx) + (p.y - d.cy) * (p.y - d.cy);
      RespondRegimes(d, p.x, p.y, dist, proximity, shockStrength, returnDuration);
      DotFillRegimes(baseColor, baseRgb, activeRgb, proximity, dsq, dist);
      RootAtMost(dist, proximity);
    }
  }
}
