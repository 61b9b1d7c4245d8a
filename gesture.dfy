/**
 * The `GesturePassword` component of lib/GesturePassword.js: its layout
 * fields, its React state and its gesture fields, and the handlers that
 * update them in place. Each handler is proved to have the effect the
 * corresponding function of module `GestureState` states.
 */
module Gesture {
  import opened Geometry
  import opened Layout
  import opened Digits
  import opened GestureState

  class GesturePassword {
    /** The `padding` and `scale` props. */
    const padding: real
    const scale: real

    /** What the measure callback stores. */
    var contentSize: real
    var offset: Position
    var origin: Position
    var pointRadius: real

    /** `state.points` and `state.lines`. */
    var points: seq<Point>
    var lines: seq<Line>

    /** `_path`, `_currentPoint` and `_currentLine` (by position, as in `Session`), and `_timer` (pending or not). */
    var path: seq<nat>
    var currentPoint: Option<nat>
    var currentLine: Option<nat>
    var timerPending: bool

    /** Between a pointer-down and its pointer-up; the pan responder sends moves only then. */
    ghost var tracking: bool

    /** The gesture state held in the fields. */
    ghost function State(): Session
      reads this
    {
      Session(points, lines, path, currentPoint, currentLine)
    }

    ghost predicate Valid()
      reads this
    {
      scale != 0.0 && (timerPending ==> !tracking) && Inv(State(), tracking)
    }

    constructor (padding: real, scale: real)
      requires scale != 0.0
      ensures Valid() && !tracking && !timerPending
      ensures this.padding == padding && this.scale == scale
      ensures State() == Session([], [], [], None, None)
    {
      this.padding := padding;
      this.scale := scale;
      contentSize, pointRadius := 0.0, 0.0;
      offset, origin := Position(0.0, 0.0), Position(0.0, 0.0);
      points, lines, path := [], [], [];
      currentPoint, currentLine, timerPending := None, None, false;
      tracking := false;
    }

    /** `_getPoint`: the first point under `position`, none before layout. */
    function GetPoint(position: Position): Option<nat>
      reads this
    {
      FindPoint(points, position, pointRadius)
    }

    /** The body of the measure callback in `_onLayout`, ending with `_initPoints`. */
    method OnLayout(m: Measure)
      requires Valid()
      modifies this`contentSize, this`offset, this`origin, this`pointRadius, this`points
      ensures Valid()
      ensures Frame(contentSize, offset, origin, pointRadius) == Measured(m, padding, scale)
      ensures State() == old(State()).(points := GridPoints(Measured(m, padding, scale)))
    {
      if m.width >= m.height {
        contentSize := m.height - padding * 2.0;
        offset := Position((m.width - m.height) / 2.0 + padding, padding);
      } else {
        contentSize := m.width - padding * 2.0;
        offset := Position(padding, (m.height - m.width) / 2.0 + padding);
      }
      origin := Position(m.pageX, m.pageY);
      pointRadius := contentSize / scale;
      InitPoints();
      RelaidInv(old(State()), tracking, Measured(m, padding, scale));
    }

    /** `_initPoints`: builds the nine points of the grid, all inactive. */
    method InitPoints()
      modifies this`points
      ensures points == GridPoints(Frame(contentSize, offset, origin, pointRadius))
    {
      ghost var f := Frame(contentSize, offset, origin, pointRadius);
      var built: seq<Point> := [];
      var distance := (contentSize - pointRadius * 2.0) / 2.0;
      for i := 0 to PointCount
        invariant |built| == i
        invariant forall k :: 0 <= k < i ==> built[k] == GridPoint(f, k)
      {
        var left := offset.x + (i % 3) as real * distance;
        var top := offset.y + (i / 3) as real * distance;
        var point := Point(i, left, top, Position(origin.x + left + pointRadius, origin.y + top + pointRadius), false);
        assert distance == Spacing(f) && point == GridPoint(f, i);
        built := built + [point];
      }
      points := built;
    }

    /** `_addPath`: appends `index` unless the path already holds it. */
    method AddPath(index: nat)
      modifies this`path
      ensures path == if index in old(path) then old(path) else old(path) + [index]
    {
      if index in path {
        return;
      }
      path := path + [index];
    }

    /** `_activePoint`: marks point `i` active. */
    method ActivePoint(i: nat)
      requires i < |points|
      modifies this`points
      ensures points == Activated(old(points), i)
    {
      points := points[i := points[i].(active := true)];
    }

    /** `_addLine`: appends a line to the drawn lines. */
    method AddLine(line: Line)
      modifies this`lines
      ensures lines == old(lines) + [line]
    {
      lines := lines + [line];
    }

    /** `_updateLine`: moves both ends of the line `_currentLine` refers to. */
    method UpdateLine(start: Position, end: Position)
      requires currentLine.Some?
      modifies this`lines
      ensures currentLine.value < |old(lines)| ==> lines == old(lines)[currentLine.value := Line(start, end)]
      ensures currentLine.value >= |old(lines)| ==> lines == old(lines)
    {
      if currentLine.value < |lines| {
        lines := lines[currentLine.value := Line(start, end)];
      }
    }

    /** `_clearTimer`: cancels a pending reset. */
    method ClearTimer()
      modifies this`timerPending
      ensures !timerPending
    {
      timerPending := false;
    }

    /** `_reset`: the state `Cleared` describes. */
    method Reset()
      modifies this`points, this`lines, this`path, this`currentPoint, this`currentLine
      ensures points == Deactivated(old(points)) && lines == [] && path == []
      ensures currentPoint == None && currentLine == None
    {
      points := Deactivated(points);
      lines := [];
      currentLine := None;
      currentPoint := None;
      path := [];
    }

    /** `_onStart`: cancel the pending reset, reset, and visit the point under the pointer, if any. */
    method OnStart(position: Position)
      requires Valid()
      modifies this`points, this`lines, this`path, this`currentPoint, this`currentLine,
               this`timerPending, this`tracking
      ensures Valid() && tracking && !timerPending
      ensures State() == Started(old(State()), old(GetPoint(position)))
    {
      ghost var s, wasTracking, hit := State(), tracking, GetPoint(position);
      ClearTimer();
      Reset();
      tracking := true;
      assert State() == Cleared(s);
      StartedInv(s, wasTracking, hit);
      ClearedBlank(s);
      FindPointReadsOrigins(points, s.points, position, pointRadius);
      var point := GetPoint(position);
      assert point == hit;
      if point.Some? {
        VisitFirst(s, point.value);
      }
      assert State() == Started(s, hit);
    }

    /** The end of `_onStart` on a hit on point `p`: `p` is visited, active and current. */
    method VisitFirst(ghost s: Session, p: nat)
      requires State() == Cleared(s) && p < |points| && points[p].index == p
      modifies this`points, this`path, this`currentPoint
      ensures State() == Started(s, Some(p))
    {
      AddPath(points[p].index);
      ActivePoint(p);
      currentPoint := Some(p);
    }

    /** `_onMove`: the `if (point)` block on a hit, then the current line is pulled to the pointer. */
    method OnMove(position: Position)
      requires Valid() && tracking
      modifies this`points, this`lines, this`path, this`currentPoint, this`currentLine
      ensures Valid() && tracking
      ensures State() == Moved(old(State()), old(GetPoint(position)), position)
    {
      ghost var s := State();
      var point := GetPoint(position);
      if point.Some? {
        Pass(point.value, position);
      }
      if currentLine.Some? {
        PullLine(position);
      }
      if point.Some? && point.value !in s.path {
        VisitedTrails(s, point.value, position);
      } else if s.currentLine.Some? || point.Some? {
        TrailedIdempotent(s, position);
      }
      MovedInv(s, point, position);
    }

    /**
     * The `if (point)` block of `_onMove`, for a hit on point `p`: an
     * unvisited `p` is visited; a visited one leaves a current line, started
     * at the current point if there was none.
     */
    method Pass(p: nat, position: Position)
      requires Valid() && tracking && p < |points|
      modifies this`points, this`lines, this`path, this`currentPoint, this`currentLine
      ensures Valid() && tracking && currentLine.Some?
      ensures p in old(path) ==>
                State() == if old(currentLine).None? then Trailed(old(State()), position) else old(State())
      ensures p !in old(path) ==> State() == Visited(old(State()), p, position)
    {
      ghost var s := State();
      var point := Some(p);
      if currentLine.None? {
        BeginLine(p, position);
      }
      assert currentLine.Some? && currentLine.value == |lines| - 1;
      assert points[p].index == p && currentPoint.Some? && currentPoint.value < |points|;
      if currentPoint != point && points[p].index !in path {
        EnterPoint(p, position);
      }
      if p !in s.path {
        assert State() == Visited(s, p, position);
        VisitedInv(s, p, position);
      } else if s.currentLine.None? {
        assert State() == Trailed(s, position);
        TrailedInv(s, position);
      } else {
        assert State() == s;
      }
    }

    /** The last step of `_onMove`: the current line runs from the current point's centre to the pointer. */
    method PullLine(position: Position)
      requires Valid() && tracking && currentLine.Some?
      modifies this`lines
      ensures Valid() && tracking
      ensures State() == Trailed(old(State()), position)
    {
      UpdateLine(points[currentPoint.value].origin, position);
      TrailedInv(old(State()), position);
    }

    /**
     * The first branch of `_onMove`: a hit on point `p` with no current line
     * starts a line from `p`'s centre to the pointer; with no current point
     * either, `p` becomes active, visited and current.
     */
    method BeginLine(p: nat, position: Position)
      requires Valid() && tracking && currentLine.None? && p < |points|
      modifies this`points, this`lines, this`path, this`currentPoint, this`currentLine
      ensures Valid() && tracking
      ensures currentLine == Some(0) && lines == [Line(points[p].origin, position)]
      ensures old(currentPoint).None? ==> State() == Visited(old(State()), p, position)
      ensures old(currentPoint).Some? ==>
                path == old(path) && currentPoint == old(currentPoint) && points == old(points)
    {
      var point := points[p];
      AddLine(Line(point.origin, position));
      currentLine := Some(|lines| - 1);
      if currentPoint.None? {
        ActivePoint(p);
        AddPath(point.index);
        currentPoint := Some(p);
        VisitedInv(old(State()), p, position);
      }
    }

    /**
     * The second branch of `_onMove`: point `p`, unvisited and not current,
     * becomes active, visited and current; the current line is fixed between
     * the old current point's centre and `p`'s, and a new line starts at `p`.
     */
    method EnterPoint(p: nat, position: Position)
      requires currentLine.Some? && currentLine.value == |lines| - 1
      requires currentPoint.Some? && currentPoint.value < |points|
      requires p < |points| && points[p].index == p && currentPoint != Some(p) && p !in path
      modifies this`points, this`lines, this`path, this`currentPoint, this`currentLine
      ensures State() == Visited(old(State()), p, position)
    {
      var point := points[p];
      ActivePoint(p);
      AddPath(point.index);
      UpdateLine(points[currentPoint.value].origin, point.origin);
      assert lines == old(lines[..|lines| - 1]) + [Line(old(points)[old(currentPoint).value].origin, point.origin)];
      AddLine(Line(point.origin, position));
      currentLine := Some(|lines| - 1);
      currentPoint := Some(p);
    }

    /**
     * `_onFinish`: with an empty path, nothing; otherwise the trailing line
     * is popped, the path is reported as a digit string, and a reset is
     * scheduled.
     */
    method OnFinish() returns (password: Option<string>)
      requires Valid() && tracking
      modifies this`lines, this`timerPending, this`tracking
      ensures Valid() && !tracking
      ensures State() == Finished(old(State()))
      ensures AllDigits(old(path)) && password == Password(old(State()))
      ensures timerPending <==> old(path) != []
    {
      FinishedInv(State());
      InvDigits(State(), true);
      tracking := false;
      if |path| == 0 {
        return None;
      }
      if |lines| > 0 {
        lines := lines[..|lines| - 1];
      }
      password := Some(Join(path));
      timerPending := true;
    }

    /** The `clearDuration` timeout fires: the scheduled `_reset` runs, if it is still pending. */
    method ClearDelayElapsed()
      requires Valid()
      modifies this`points, this`lines, this`path, this`currentPoint, this`currentLine, this`timerPending
      ensures Valid() && !timerPending
      ensures State() == if old(timerPending) then Cleared(old(State())) else old(State())
    {
      if timerPending {
        timerPending := false;
        ClearedInv(State(), tracking);
        Reset();
      }
    }
  }
}
