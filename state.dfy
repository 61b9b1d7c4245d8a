/**
 * The gesture state of lib/GesturePassword.js as a value, and what each
 * gesture event does to it.
 *
 * A pointer-down, a stream of pointer moves and a pointer-up turn into an
 * ordered, duplicate-free path of point indices, a list of connecting lines
 * whose last one trails the pointer, and an `active` flag per point.
 * Finishing reports the path as a digit string. The functions here state the
 * effect of each event; the `GesturePassword` class of module `Gesture` is
 * proved to have exactly these effects.
 */
module GestureState {
  import opened Geometry
  import opened Layout
  import opened Digits

  datatype Option<T> = None | Some(value: T)

  /** A drawn segment, in absolute page coordinates. */
  datatype Line = Line(start: Position, end: Position)

  /**
   * `state.points`, `state.lines`, `_path`, `_currentPoint` (by its position
   * in `points`) and `_currentLine` (by the position in `lines` of the line
   * it refers to). `_onFinish` pops that line without clearing the
   * reference; from then on the position is `|lines|`, past the end, and
   * writes through it change nothing that is drawn.
   */
  datatype Session = Session(points: seq<Point>, lines: seq<Line>, path: seq<nat>,
                             currentPoint: Option<nat>, currentLine: Option<nat>)

  /**
   * `points.find(point => isInPoint(position, point.origin, radius))`: the
   * position in `points` of the first point whose circle contains `position`.
   */
  function FindPoint(points: seq<Point>, position: Position, radius: real): (hit: Option<nat>)
    ensures hit.Some? ==> hit.value < |points| && IsInPoint(position, points[hit.value].origin, radius)
    ensures hit.Some? ==> forall j :: 0 <= j < hit.value ==> !IsInPoint(position, points[j].origin, radius)
    ensures hit.None? <==> forall j :: 0 <= j < |points| ==> !IsInPoint(position, points[j].origin, radius)
  {
    if |points| == 0 then None
    else if IsInPoint(position, points[0].origin, radius) then Some(0)
    else
      match FindPoint(points[1..], position, radius)
      case None => None
      case Some(k) => Some(k + 1)
  }

  /** Two point lists with the same centres, whatever their `active` flags. */
  ghost predicate SameOrigins(ps: seq<Point>, qs: seq<Point>)
  {
    |ps| == |qs| && forall i :: 0 <= i < |ps| ==> ps[i].origin == qs[i].origin
  }

  /** The hit test looks only at the centres, not at which points are active. */
  lemma FindPointReadsOrigins(ps: seq<Point>, qs: seq<Point>, position: Position, radius: real)
    requires SameOrigins(ps, qs)
    ensures FindPoint(ps, position, radius) == FindPoint(qs, position, radius)
  {
  }

  /**
   * On a laid-out grid whose points are two radii apart, a pointer at the
   * centre of point `i` selects point `i`.
   */
  lemma CentreSelectsPoint(f: Frame, i: nat)
    requires i < PointCount
    requires f.radius > 0.0 && Spacing(f) >= 2.0 * f.radius
    ensures FindPoint(GridPoints(f), GridPoint(f, i).origin, f.radius) == Some(i)
  {
    var points, centre := GridPoints(f), GridPoint(f, i).origin;
    CentreIsInside(centre, f.radius);
    assert IsInPoint(centre, points[i].origin, f.radius);
    var hit := FindPoint(points, centre, f.radius);
    if hit.value != i {
      PointsDisjoint(f, i, hit.value, centre);
      assert false;
    }
  }

  /** The left edge of every grid point's circle is at or right of the content square's left edge. */
  lemma GridLeftEdge(f: Frame, j: nat)
    requires j < PointCount && Spacing(f) >= 0.0
    ensures GridPoint(f, j).origin.x - f.radius >= f.origin.x + f.offset.x
  {
    var c := Column(j) as real;
    MulLeft(Spacing(f), 0.0, c);
  }

  /** A pointer left of the content square, in the padding or the margin, selects no point. */
  lemma LeftMarginMisses(f: Frame, location: Position)
    requires Spacing(f) >= 0.0
    requires location.x <= f.origin.x + f.offset.x
    ensures FindPoint(GridPoints(f), location, f.radius) == None
  {
    var points := GridPoints(f);
    forall j | 0 <= j < |points|
      ensures !IsInPoint(location, points[j].origin, f.radius)
    {
      GridLeftEdge(f, j);
      if IsInPoint(location, points[j].origin, f.radius) {
        InsideBoundsAxes(location, points[j].origin, f.radius);
      }
    }
  }

  /** The points with every `active` flag cleared, as `_reset` leaves them. */
  function Deactivated(points: seq<Point>): (cleared: seq<Point>)
    ensures |cleared| == |points|
    ensures forall i :: 0 <= i < |points| ==> cleared[i] == points[i].(active := false)
  {
    seq(|points|, i requires 0 <= i < |points| => points[i].(active := false))
  }

  /** The points with point `i` marked active, as `_activePoint` leaves them. */
  function Activated(points: seq<Point>, i: nat): seq<Point>
    requires i < |points|
  {
    points[i := points[i].(active := true)]
  }

  /** Every visited index names a point. */
  predicate WellIndexed(s: Session)
  {
    forall k :: 0 <= k < |s.path| ==> s.path[k] < |s.points|
  }

  /**
   * What holds of the gesture state between events. `tracking` is true
   * between a pointer-down and its pointer-up. While tracking, a current
   * line is the last of `lines` and trails the pointer, so there is one
   * line per visited point; once the pointer is up that line is gone and
   * there is one line fewer than visited points.
   */
  predicate Inv(s: Session, tracking: bool)
  {
    (|s.points| == 0 || |s.points| == PointCount) &&
    (forall i :: 0 <= i < |s.points| ==> s.points[i].index == i) &&
    WellIndexed(s) &&
    NoDuplicates(s.path) &&
    (forall i :: 0 <= i < |s.points| && s.points[i].active ==> i in s.path) &&
    (s.currentPoint.Some? <==> s.path != []) &&
    (s.currentPoint.Some? ==> s.currentPoint.value == s.path[|s.path| - 1]) &&
    (s.currentLine.Some? ==> s.currentPoint.Some?) &&
    (tracking && s.currentLine.Some? ==> s.currentLine.value == |s.lines| - 1 && |s.lines| == |s.path|) &&
    (tracking && s.currentLine.None? ==> s.lines == [] && |s.path| <= 1) &&
    (!tracking ==> |s.lines| == (if s.path == [] then 0 else |s.path| - 1)) &&
    (!tracking && s.currentLine.Some? ==> s.currentLine.value == |s.lines|)
  }

  /** The lines that join two visited points: all but the one trailing the pointer. */
  function Anchored(s: Session): seq<Line>
  {
    if s.currentLine.Some? && s.currentLine.value < |s.lines| then s.lines[..|s.lines| - 1] else s.lines
  }

  /** The centre of the current point. */
  function CurrentOrigin(s: Session): Position
    requires s.currentPoint.Some? && s.currentPoint.value < |s.points|
  {
    s.points[s.currentPoint.value].origin
  }

  /**
   * What is drawn shows the path: every visited point is active, and the
   * anchored lines join the centres of consecutive visited points.
   */
  predicate Drawn(s: Session)
    requires WellIndexed(s)
  {
    Marked(s) && Connected(s)
  }

  /** Every visited point is active. */
  predicate Marked(s: Session)
    requires WellIndexed(s)
  {
    forall k :: 0 <= k < |s.path| ==> s.points[s.path[k]].active
  }

  /** The anchored lines join the centres of consecutive visited points. */
  predicate Connected(s: Session)
    requires WellIndexed(s)
  {
    var anchored := Anchored(s);
    forall k :: 0 <= k < |anchored| && k + 1 < |s.path| ==>
      anchored[k] == Line(s.points[s.path[k]].origin, s.points[s.path[k + 1]].origin)
  }

  /** `_reset`: every point inactive, no lines, no path, no current point or line. */
  function Cleared(s: Session): Session
  {
    Session(Deactivated(s.points), [], [], None, None)
  }

  /**
   * The effect of `_onStart` when the hit test finds `hit`: the state is
   * cleared and, on a hit, that point alone is the path, active and current.
   */
  function Started(s: Session, hit: Option<nat>): Session
    requires hit.Some? ==> hit.value < |s.points|
  {
    var cleared := Cleared(s);
    match hit
    case None => cleared
    case Some(p) => cleared.(points := Activated(cleared.points, p), path := [p], currentPoint := hit)
  }

  /**
   * The trailing line runs from the current point's centre to the pointer;
   * the anchored lines stay.
   */
  function Trailed(s: Session, position: Position): Session
    requires s.currentPoint.Some? && s.currentPoint.value < |s.points|
  {
    var anchored := Anchored(s);
    s.(lines := anchored + [Line(CurrentOrigin(s), position)], currentLine := Some(|anchored|))
  }

  /**
   * Point `p`, not yet on the path, is visited: it becomes active, visited
   * and current; the trailing line is fixed between the previous current
   * point, if any, and `p`; a new trailing line runs from `p` to the pointer.
   */
  function Visited(s: Session, p: nat, position: Position): Session
    requires p < |s.points|
    requires s.currentPoint.Some? ==> s.currentPoint.value < |s.points|
  {
    var anchored, centre := Anchored(s), s.points[p].origin;
    if s.currentPoint.None? then
      s.(points := Activated(s.points, p), path := [p], currentPoint := Some(p),
         lines := [Line(centre, position)], currentLine := Some(0))
    else
      s.(points := Activated(s.points, p), path := s.path + [p], currentPoint := Some(p),
         lines := anchored + [Line(CurrentOrigin(s), centre), Line(centre, position)],
         currentLine := Some(|anchored| + 1))
  }

  /**
   * The effect of `_onMove` at `position` when the hit test finds `hit`.
   * A miss only pulls the current line, if any, to the pointer. A hit on a
   * visited point (re)starts the trailing line at the current point. A hit
   * on an unvisited point visits it.
   */
  function Moved(s: Session, hit: Option<nat>, position: Position): Session
    requires Inv(s, true)
    requires hit.Some? ==> hit.value < |s.points|
  {
    match hit
    case None => if s.currentLine.None? then s else Trailed(s, position)
    case Some(p) => if p in s.path then Trailed(s, position) else Visited(s, p, position)
  }

  /** The effect of `_onFinish`: with a non-empty path the trailing line is dropped. */
  function Finished(s: Session): Session
  {
    if s.path == [] then s else s.(lines := Anchored(s))
  }

  /** What `_onFinish` reports: nothing for an empty path, else the path's digits. */
  function Password(s: Session): Option<string>
    requires AllDigits(s.path)
  {
    if s.path == [] then None else Some(Join(s.path))
  }

  /** After `_reset` the invariant holds, pointer up or down. */
  lemma ClearedInv(s: Session, tracking: bool)
    requires Inv(s, tracking)
    ensures Inv(Cleared(s), true) && Inv(Cleared(s), false)
  {
  }

  /** `_reset` leaves no point active and keeps the centres. */
  lemma ClearedBlank(s: Session)
    ensures SameOrigins(Cleared(s).points, s.points)
    ensures forall i :: 0 <= i < |s.points| ==> !Cleared(s).points[i].active
  {
  }

  /**
   * A new layout replaces the points by a fresh grid and keeps the
   * invariant; with no gesture in progress nothing is drawn over it.
   */
  lemma RelaidInv(s: Session, tracking: bool, f: Frame)
    requires Inv(s, tracking)
    ensures var t := s.(points := GridPoints(f));
            Inv(t, tracking) && (s.path == [] ==> Drawn(t))
  {
  }

  /** After a pointer-down the invariant holds with the pointer down. */
  lemma StartedInv(s: Session, tracking: bool, hit: Option<nat>)
    requires Inv(s, tracking)
    requires hit.Some? ==> hit.value < |s.points|
    ensures Inv(Started(s, hit), true)
  {
    var t := Started(s, hit);
    assert forall i :: 0 <= i < |t.points| && t.points[i].active ==> hit == Some(i);
  }

  /**
   * After a pointer-down no line is drawn, the path is the hit point alone
   * (empty on a miss), and exactly that point is active.
   */
  lemma StartedEffect(s: Session, hit: Option<nat>)
    requires hit.Some? ==> hit.value < |s.points|
    ensures var t := Started(s, hit);
            t.lines == [] && t.currentLine.None? && t.currentPoint == hit &&
            t.path == (if hit.Some? then [hit.value] else []) &&
            SameOrigins(t.points, s.points) &&
            (forall i :: 0 <= i < |t.points| ==> (t.points[i].active <==> hit == Some(i))) &&
            WellIndexed(t) && Drawn(t)
  {
  }

  /** Pulling the trailing line keeps the invariant. */
  lemma TrailedInv(s: Session, position: Position)
    requires Inv(s, true) && s.currentPoint.Some?
    ensures Inv(Trailed(s, position), true)
  {
  }

  /**
   * Pulling the trailing line changes only that line: the path, the points,
   * the current point and the anchored lines stay, and so does what is drawn.
   */
  lemma TrailedKeeps(s: Session, position: Position)
    requires Inv(s, true) && s.currentPoint.Some?
    ensures var t := Trailed(s, position);
            t.points == s.points && t.path == s.path && t.currentPoint == s.currentPoint &&
            Anchored(t) == Anchored(s) && (Drawn(s) ==> Drawn(t))
  {
    var t := Trailed(s, position);
    assert t.lines[..|t.lines| - 1] == Anchored(s);
  }

  /** Pulling the trailing line to the same position twice is pulling it once. */
  lemma TrailedIdempotent(s: Session, position: Position)
    requires Inv(s, true) && s.currentPoint.Some?
    ensures Trailed(Trailed(s, position), position) == Trailed(s, position)
  {
    TrailedKeeps(s, position);
  }

  /** A visit leaves the trailing line at the pointer already: pulling it changes nothing. */
  lemma VisitedTrails(s: Session, p: nat, position: Position)
    requires Inv(s, true) && p < |s.points| && p !in s.path
    ensures Trailed(Visited(s, p, position), position) == Visited(s, p, position)
  {
    var t := Visited(s, p, position);
    assert Anchored(t) == t.lines[..|t.lines| - 1];
  }

  /** Visiting a point keeps the invariant. */
  lemma VisitedInv(s: Session, p: nat, position: Position)
    requires Inv(s, true) && p < |s.points| && p !in s.path
    ensures Inv(Visited(s, p, position), true)
  {
    var t := Visited(s, p, position);
    AppendFresh(s.path, p);
    assert s.currentPoint.None? ==> s.path == [];
    forall i | 0 <= i < |t.points| && t.points[i].active
      ensures i in t.path
    {
      if i != p {
        assert s.points[i].active;
      }
    }
  }

  /** Visiting a point keeps the centres, and a drawing that shows the path keeps showing it. */
  lemma VisitedDrawn(s: Session, p: nat, position: Position)
    requires Inv(s, true) && p < |s.points| && p !in s.path
    ensures var t := Visited(s, p, position);
            SameOrigins(t.points, s.points) && WellIndexed(t) && (Drawn(s) ==> Drawn(t))
  {
    VisitedMarked(s, p, position);
    VisitedConnected(s, p, position);
  }

  lemma VisitedMarked(s: Session, p: nat, position: Position)
    requires Inv(s, true) && p < |s.points| && p !in s.path
    ensures var t := Visited(s, p, position);
            WellIndexed(t) && (Marked(s) ==> Marked(t))
  {
    var t := Visited(s, p, position);
    if Marked(s) {
      forall k | 0 <= k < |t.path|
        ensures t.points[t.path[k]].active
      {
        if k < |s.path| {
          assert s.points[s.path[k]].active;
        }
      }
    }
  }

  lemma VisitedConnected(s: Session, p: nat, position: Position)
    requires Inv(s, true) && p < |s.points| && p !in s.path
    ensures var t := Visited(s, p, position);
            WellIndexed(t) && (Connected(s) ==> Connected(t))
  {
    var t := Visited(s, p, position);
    if Connected(s) && s.currentPoint.Some? {
      assert Anchored(t) == Anchored(s) + [Line(CurrentOrigin(s), s.points[p].origin)];
    }
  }

  /** A pointer move keeps the invariant. */
  lemma MovedInv(s: Session, hit: Option<nat>, position: Position)
    requires Inv(s, true)
    requires hit.Some? ==> hit.value < |s.points|
    ensures Inv(Moved(s, hit, position), true)
  {
    match hit
    case None =>
      if s.currentLine.Some? {
        TrailedInv(s, position);
      }
    case Some(p) =>
      if p in s.path {
        TrailedInv(s, position);
      } else {
        VisitedInv(s, p, position);
      }
  }

  /** A pointer move keeps the centres, and a drawing that shows the path keeps showing it. */
  lemma MovedDrawn(s: Session, hit: Option<nat>, position: Position)
    requires Inv(s, true)
    requires hit.Some? ==> hit.value < |s.points|
    ensures var t := Moved(s, hit, position);
            SameOrigins(t.points, s.points) && WellIndexed(t) && (Drawn(s) ==> Drawn(t))
  {
    match hit
    case None =>
      if s.currentLine.Some? {
        TrailedKeeps(s, position);
      }
    case Some(p) =>
      if p in s.path {
        TrailedKeeps(s, position);
      } else {
        VisitedDrawn(s, p, position);
      }
  }

  /**
   * After a move, a current line trails the pointer from the current point's
   * centre, and there is a current line unless there was none and the move
   * hit nothing, in which case nothing changed.
   */
  lemma MovedTrailing(s: Session, hit: Option<nat>, position: Position)
    requires Inv(s, true)
    requires hit.Some? ==> hit.value < |s.points|
    ensures var t := Moved(s, hit, position);
            (t.currentLine.Some? ==>
               t.currentPoint.Some? && t.currentPoint.value < |t.points| &&
               t.lines == Anchored(t) + [Line(CurrentOrigin(t), position)]) &&
            (t.currentLine.None? <==> s.currentLine.None? && hit.None?) &&
            (t.currentLine.None? ==> t == s)
  {
    MovedInv(s, hit, position);
  }

  /**
   * A move extends the path by the hit point exactly when that point is not
   * yet on it; the point then becomes active and current, and the line from
   * the previous current point to it is anchored. Otherwise the path, the
   * points, the current point and the anchored lines stay as they were.
   */
  lemma MovedPath(s: Session, hit: Option<nat>, position: Position)
    requires Inv(s, true)
    requires hit.Some? ==> hit.value < |s.points|
    ensures var t := Moved(s, hit, position);
            s.path <= t.path &&
            (t.path != s.path <==> hit.Some? && hit.value !in s.path)
    ensures var t := Moved(s, hit, position);
            t.path != s.path ==>
              t.path == s.path + [hit.value] && t.currentPoint == hit &&
              t.points == Activated(s.points, hit.value) &&
              Anchored(t) == Anchored(s) +
                (if s.path == [] then [] else [Line(CurrentOrigin(s), s.points[hit.value].origin)])
    ensures var t := Moved(s, hit, position);
            t.path == s.path ==>
              t.points == s.points && t.currentPoint == s.currentPoint && Anchored(t) == Anchored(s)
  {
    var t := Moved(s, hit, position);
    if hit.Some? && hit.value !in s.path && s.currentPoint.Some? {
      assert t.lines[..|t.lines| - 1] == Anchored(s) + [Line(CurrentOrigin(s), s.points[hit.value].origin)];
    } else if t.path == s.path && (hit.Some? || s.currentLine.Some?) {
      TrailedKeeps(s, position);
    }
  }

  /** A pointer-up leaves a state that satisfies the invariant with the pointer up. */
  lemma FinishedInv(s: Session)
    requires Inv(s, true)
    ensures Inv(Finished(s), false)
  {
  }

  /**
   * A pointer-up keeps the path and the points and drops the trailing line,
   * so that exactly the anchored lines remain.
   */
  lemma FinishedEffect(s: Session)
    requires Inv(s, true)
    ensures var t := Finished(s);
            t.path == s.path && t.points == s.points &&
            t.lines == Anchored(s) && Anchored(t) == Anchored(s) && (Drawn(s) ==> Drawn(t))
  {
  }

  /** The visited indices are digits, and there are at most nine of them. */
  lemma InvDigits(s: Session, tracking: bool)
    requires Inv(s, tracking)
    ensures AllDigits(s.path) && |s.path| <= PointCount
  {
    DistinctBelowBound(s.path, |s.points|);
  }

  /**
   * The password of a state that satisfies the invariant is present exactly
   * when the path is not empty; it has one digit per visited point, at most
   * nine and none repeated, and parses back to the path.
   */
  lemma PasswordDigits(s: Session, tracking: bool)
    requires Inv(s, tracking)
    ensures AllDigits(s.path)
    ensures Password(s).Some? <==> s.path != []
    ensures Password(s).Some? ==>
              var password := Password(s).value;
              1 <= |password| <= PointCount && NoDuplicates(password) && Parse(password) == s.path
  {
    InvDigits(s, tracking);
    if s.path != [] {
      JoinDistinct(s.path);
      ParseJoin(s.path);
    }
  }

  /** The effect of a stream of pointer moves, each hit-tested with `radius`. */
  function MoveAll(s: Session, radius: real, positions: seq<Position>): (t: Session)
    requires Inv(s, true)
    ensures Inv(t, true)
    decreases |positions|
  {
    if positions == [] then s
    else
      var hit := FindPoint(s.points, positions[0], radius);
      MovedInv(s, hit, positions[0]);
      MoveAll(Moved(s, hit, positions[0]), radius, positions[1..])
  }

  /**
   * Over a stream of moves the path only grows, the centres do not change,
   * and a drawing that shows the path keeps showing it.
   */
  lemma {:induction false} MoveAllGrowsPath(s: Session, radius: real, positions: seq<Position>)
    requires Inv(s, true)
    ensures var t := MoveAll(s, radius, positions);
            s.path <= t.path && SameOrigins(t.points, s.points) && (Drawn(s) ==> Drawn(t))
    decreases |positions|
  {
    if positions != [] {
      var hit := FindPoint(s.points, positions[0], radius);
      var next := Moved(s, hit, positions[0]);
      MovedInv(s, hit, positions[0]);
      MovedDrawn(s, hit, positions[0]);
      MovedPath(s, hit, positions[0]);
      MoveAllGrowsPath(next, radius, positions[1..]);
    }
  }

  /**
   * A whole gesture: a pointer-down at `down`, pointer moves at `moves` and
   * a pointer-up. Yields the final state and the reported password.
   */
  function Gesture(s: Session, tracking: bool, radius: real, down: Position, moves: seq<Position>): (Session, Option<string>)
    requires Inv(s, tracking)
  {
    var hit := FindPoint(s.points, down, radius);
    StartedInv(s, tracking, hit);
    var drawn := MoveAll(Started(s, hit), radius, moves);
    InvDigits(drawn, true);
    (Finished(drawn), Password(drawn))
  }

  /**
   * After a whole gesture the state satisfies the invariant with the pointer
   * up and shows the path; the password is the final path's digits, absent
   * only if the path is empty, and starts with the point under the
   * pointer-down when there is one.
   */
  lemma GestureOutcome(s: Session, tracking: bool, radius: real, down: Position, moves: seq<Position>)
    requires Inv(s, tracking)
    ensures var (t, password) := Gesture(s, tracking, radius, down, moves);
            Inv(t, false) && Drawn(t) && AllDigits(t.path) &&
            password == Password(t) &&
            (password.None? <==> t.path == []) &&
            (password.Some? ==> Parse(password.value) == t.path && NoDuplicates(password.value)) &&
            (FindPoint(s.points, down, radius).Some? ==>
               password.Some? && password.value[0] == Digit(FindPoint(s.points, down, radius).value))
  {
    var hit := FindPoint(s.points, down, radius);
    StartedInv(s, tracking, hit);
    StartedEffect(s, hit);
    var started := Started(s, hit);
    var drawn := MoveAll(started, radius, moves);
    MoveAllGrowsPath(started, radius, moves);
    FinishedInv(drawn);
    FinishedEffect(drawn);
    PasswordDigits(drawn, true);
    PasswordDigits(Finished(drawn), false);
  }

  /** What the hit test finds for each of `positions`, in order. */
  function Hits(points: seq<Point>, radius: real, positions: seq<Position>): (hits: seq<Option<nat>>)
    ensures |hits| == |positions|
    ensures forall k :: 0 <= k < |positions| ==> hits[k] == FindPoint(points, positions[k], radius)
  {
    if positions == [] then [] else [FindPoint(points, positions[0], radius)] + Hits(points, radius, positions[1..])
  }

  /** The hits of a stream of moves depend only on the centres. */
  lemma HitsReadOrigins(ps: seq<Point>, qs: seq<Point>, radius: real, positions: seq<Position>)
    requires SameOrigins(ps, qs)
    ensures Hits(ps, radius, positions) == Hits(qs, radius, positions)
  {
    forall k | 0 <= k < |positions|
      ensures Hits(ps, radius, positions)[k] == Hits(qs, radius, positions)[k]
    {
      FindPointReadsOrigins(ps, qs, positions[k], radius);
    }
  }

  /**
   * The path a stream of hits leaves, starting from `path`: a hit on a point
   * not yet on the path appends it; a miss or a hit on a visited point
   * changes nothing.
   */
  function Extend(path: seq<nat>, hits: seq<Option<nat>>): seq<nat>
    decreases |hits|
  {
    if hits == [] then path
    else
      var next := if hits[0].Some? && hits[0].value !in path then path + [hits[0].value] else path;
      Extend(next, hits[1..])
  }

  /**
   * Extending keeps the path as a prefix, adds no duplicate, adds only hit
   * points, and leaves every hit point on the path.
   */
  lemma {:induction false} ExtendDistinct(path: seq<nat>, hits: seq<Option<nat>>)
    requires NoDuplicates(path)
    ensures var e := Extend(path, hits);
            path <= e && NoDuplicates(e) &&
            (forall x :: x in e ==> x in path || Some(x) in hits) &&
            (forall k :: 0 <= k < |hits| && hits[k].Some? ==> hits[k].value in e)
    decreases |hits|
  {
    if hits != [] {
      var next := if hits[0].Some? && hits[0].value !in path then path + [hits[0].value] else path;
      if next != path {
        AppendFresh(path, hits[0].value);
      }
      ExtendDistinct(next, hits[1..]);
      var e := Extend(path, hits);
      assert e == Extend(next, hits[1..]) && next <= e;
      forall k | 0 <= k < |hits| && hits[k].Some?
        ensures hits[k].value in e
      {
        if k == 0 {
          assert hits[0].value in next;
        } else {
          assert hits[k] == hits[1..][k - 1];
        }
      }
      forall x | x in e
        ensures x in path || Some(x) in hits
      {
        if x !in next {
          assert Some(x) in hits[1..];
        }
      }
    }
  }

  /** Hits that miss or land on visited points leave the path as it is. */
  lemma {:induction false} ExtendStays(path: seq<nat>, hits: seq<Option<nat>>)
    requires forall k :: 0 <= k < |hits| && hits[k].Some? ==> hits[k].value in path
    ensures Extend(path, hits) == path
    decreases |hits|
  {
    if hits != [] {
      ExtendStays(path, hits[1..]);
    }
  }

  /** Any stream of moves leaves the path `Extend` gives for the stream's hits. */
  lemma {:induction false} MoveAllPath(s: Session, radius: real, positions: seq<Position>)
    requires Inv(s, true)
    ensures MoveAll(s, radius, positions).path == Extend(s.path, Hits(s.points, radius, positions))
    decreases |positions|
  {
    if positions != [] {
      var hit := FindPoint(s.points, positions[0], radius);
      var t := Moved(s, hit, positions[0]);
      MovedInv(s, hit, positions[0]);
      MovedDrawn(s, hit, positions[0]);
      MovedPath(s, hit, positions[0]);
      HitsReadOrigins(t.points, s.points, radius, positions[1..]);
      assert Hits(s.points, radius, positions)[1..] == Hits(s.points, radius, positions[1..]);
      MoveAllPath(t, radius, positions[1..]);
    }
  }

  /**
   * A whole gesture reports the path that `Extend` gives: the point under
   * the pointer-down, if any, then every point a move hits that is not yet
   * on the path, in order. Misses and repeated hits add nothing.
   */
  lemma GestureExtends(s: Session, tracking: bool, radius: real, down: Position, moves: seq<Position>)
    requires Inv(s, tracking)
    ensures var hit := FindPoint(s.points, down, radius);
            var path := Extend(if hit.Some? then [hit.value] else [], Hits(s.points, radius, moves));
            var (t, password) := Gesture(s, tracking, radius, down, moves);
            t.path == path && AllDigits(path) &&
            password == (if path == [] then None else Some(Join(path)))
  {
    var hit := FindPoint(s.points, down, radius);
    StartedInv(s, tracking, hit);
    StartedEffect(s, hit);
    var started := Started(s, hit);
    HitsReadOrigins(started.points, s.points, radius, moves);
    MoveAllPath(started, radius, moves);
    var drawn := MoveAll(started, radius, moves);
    FinishedEffect(drawn);
    InvDigits(drawn, true);
  }

  /**
   * A gesture that goes down on a point and then only misses or passes
   * over that point again reports that point alone.
   */
  lemma SinglePointReported(s: Session, tracking: bool, radius: real, down: Position, moves: seq<Position>, p: nat)
    requires Inv(s, tracking) && FindPoint(s.points, down, radius) == Some(p)
    requires forall k :: 0 <= k < |moves| ==> FindPoint(s.points, moves[k], radius).None? || FindPoint(s.points, moves[k], radius) == Some(p)
    ensures AllDigits([p]) && Gesture(s, tracking, radius, down, moves).1 == Some(Join([p]))
  {
    GestureExtends(s, tracking, radius, down, moves);
    ExtendStays([p], Hits(s.points, radius, moves));
  }

  /**
   * Moves that each hit a point not visited before, and not hit by an
   * earlier move, append exactly those points to the path, in order.
   */
  lemma {:induction false} MoveAllVisits(s: Session, radius: real, moves: seq<Position>, hits: seq<nat>)
    requires Inv(s, true) && |moves| == |hits|
    requires forall k :: 0 <= k < |moves| ==> FindPoint(s.points, moves[k], radius) == Some(hits[k])
    requires NoDuplicates(s.path + hits)
    ensures MoveAll(s, radius, moves).path == s.path + hits
    decreases |moves|
  {
    if moves != [] {
      var hit := FindPoint(s.points, moves[0], radius);
      var t := Moved(s, hit, moves[0]);
      MovedInv(s, hit, moves[0]);
      MovedDrawn(s, hit, moves[0]);
      MovedPath(s, hit, moves[0]);
      ShiftFresh(s.path, hits);
      assert t.path == s.path + [hits[0]];
      forall k | 0 <= k < |moves[1..]|
        ensures FindPoint(t.points, moves[1..][k], radius) == Some(hits[1..][k])
      {
        FindPointReadsOrigins(t.points, s.points, moves[k + 1], radius);
      }
      MoveAllVisits(t, radius, moves[1..], hits[1..]);
    }
  }

  /**
   * A gesture whose pointer-down and moves at `positions` each hit the
   * points of a duplicate-free `path`, in order, reports `path` as the
   * password.
   */
  lemma GestureReports(s: Session, tracking: bool, radius: real, positions: seq<Position>, path: seq<nat>)
    requires Inv(s, tracking) && |positions| == |path| && path != []
    requires forall k :: 0 <= k < |path| ==> FindPoint(s.points, positions[k], radius) == Some(path[k])
    requires NoDuplicates(path)
    ensures AllDigits(path) && Gesture(s, tracking, radius, positions[0], positions[1..]).1 == Some(Join(path))
  {
    var first, moves, hits := path[0], positions[1..], path[1..];
    StartedInv(s, tracking, Some(first));
    StartedEffect(s, Some(first));
    var t := Started(s, Some(first));
    forall k | 0 <= k < |moves|
      ensures FindPoint(t.points, moves[k], radius) == Some(hits[k])
    {
      FindPointReadsOrigins(t.points, s.points, moves[k], radius);
    }
    assert t.path + hits == path;
    MoveAllVisits(t, radius, moves, hits);
  }

  /** A pad just laid out in frame `f`, before any gesture: the grid and nothing drawn. */
  function Idle(f: Frame): (s: Session)
    ensures Inv(s, false) && s.points == GridPoints(f) && s.path == [] && s.lines == []
  {
    RelaidInv(Session([], [], [], None, None), false, f);
    Session(GridPoints(f), [], [], None, None)
  }

  /** The centres of the points `path` names, in order. */
  function Centres(f: Frame, path: seq<nat>): (c: seq<Position>)
    requires forall k :: 0 <= k < |path| ==> path[k] < PointCount
    ensures |c| == |path| && forall k :: 0 <= k < |path| ==> c[k] == GridPoint(f, path[k]).origin
  {
    if path == [] then [] else [GridPoint(f, path[0]).origin] + Centres(f, path[1..])
  }

  /**
   * With the default props, in a container whose shorter side exceeds twice
   * the padding, a pointer at the centre of a point selects that point.
   */
  lemma DefaultCentresSelect(m: Measure, path: seq<nat>)
    requires Min(m.width, m.height) > 2.0 * DefaultPadding
    requires forall k :: 0 <= k < |path| ==> path[k] < PointCount
    ensures var f := Measured(m, DefaultPadding, DefaultScale);
            var centres := Centres(f, path);
            forall k :: 0 <= k < |path| ==> FindPoint(GridPoints(f), centres[k], f.radius) == Some(path[k])
  {
    var f := Measured(m, DefaultPadding, DefaultScale);
    DefaultsSeparate(m);
    forall k | 0 <= k < |path|
      ensures FindPoint(GridPoints(f), Centres(f, path)[k], f.radius) == Some(path[k])
    {
      CentreSelectsPoint(f, path[k]);
    }
  }

  /**
   * On a pad laid out with the default props in a container whose shorter
   * side exceeds twice the padding, a gesture that goes down on the centre
   * of the first point of a duplicate-free `path`, moves over the centres of
   * the others in order and goes up, reports exactly `path`.
   */
  lemma TracedPathReported(m: Measure, path: seq<nat>)
    requires Min(m.width, m.height) > 2.0 * DefaultPadding
    requires path != [] && NoDuplicates(path)
    requires forall k :: 0 <= k < |path| ==> path[k] < PointCount
    ensures var f := Measured(m, DefaultPadding, DefaultScale);
            var centres := Centres(f, path);
            AllDigits(path) &&
            Gesture(Idle(f), false, f.radius, centres[0], centres[1..]).1 == Some(Join(path))
  {
    var f := Measured(m, DefaultPadding, DefaultScale);
    DefaultCentresSelect(m, path);
    GestureReports(Idle(f), false, f.radius, Centres(f, path), path);
  }

  /**
   * For instance: down on the centre of point 4, over the centres of 0 and 8,
   * and up, reports "408".
   */
  lemma FourZeroEight(m: Measure)
    requires Min(m.width, m.height) > 2.0 * DefaultPadding
    ensures var f := Measured(m, DefaultPadding, DefaultScale);
            var centres := Centres(f, [4, 0, 8]);
            Gesture(Idle(f), false, f.radius, centres[0], centres[1..]).1 == Some("408")
  {
    TracedPathReported(m, [4, 0, 8]);
    JoinThree(4, 0, 8);
  }

  /**
   * Down on the centre of point 1 of a pad laid out with the default props,
   * back over that centre `n` times, and up, reports "1".
   */
  lemma OneOverAndOver(m: Measure, n: nat)
    requires Min(m.width, m.height) > 2.0 * DefaultPadding
    ensures var f := Measured(m, DefaultPadding, DefaultScale);
            var centre := GridPoint(f, 1).origin;
            Gesture(Idle(f), false, f.radius, centre, seq(n, k => centre)).1 == Some("1")
  {
    var f := Measured(m, DefaultPadding, DefaultScale);
    DefaultsSeparate(m);
    CentreSelectsPoint(f, 1);
    SinglePointReported(Idle(f), false, f.radius, GridPoint(f, 1).origin, seq(n, k => GridPoint(f, 1).origin), 1);
    assert Join([1]) == [Digit(1)];
  }
}
