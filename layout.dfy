/**
 * Grid layout of the gesture pad: the arithmetic of the `ref.measure`
 * callback in `_onLayout` and of `_initPoints` (lib/GesturePassword.js).
 *
 * The container is measured as a width, a height and an absolute page
 * position. A square content area is cut from it, centred along the longer
 * side, and the nine points are laid out on a 3 x 3 grid inside that square.
 */
module Layout {
  import opened Geometry

  /** The number of points on the pad. */
  const PointCount: nat := 9

  /**
   * One grid point: its index 0..8, its top-left corner relative to the
   * container, its centre in absolute page coordinates, and whether the
   * current gesture has visited it.
   */
  datatype Point = Point(index: nat, left: real, top: real, origin: Position, active: bool)

  /** The defaults of the `padding` and `scale` props. */
  const DefaultPadding: real := 8.0
  const DefaultScale: real := 10.0

  /** What `ref.measure` reports about the container. */
  datatype Measure = Measure(width: real, height: real, pageX: real, pageY: real)

  /**
   * What the measure callback derives: `_contentSize`, `_offset` (of the
   * content square inside the container), `_origin` (the container's page
   * position) and `_pointRadius`.
   */
  datatype Frame = Frame(contentSize: real, offset: Position, origin: Position, radius: real)

  function Min(a: real, b: real): real
  {
    if a <= b then a else b
  }

  /**
   * The measure callback: the content square is the shorter side less the
   * padding at both ends; it is centred along both axes of the container,
   * so the padding is the offset along the shorter side; the radius is the
   * content size divided by `scale`.
   */
  function Measured(m: Measure, padding: real, scale: real): (f: Frame)
    requires scale != 0.0
    ensures f.contentSize + 2.0 * padding == Min(m.width, m.height)
    ensures 2.0 * f.offset.x + f.contentSize == m.width
    ensures 2.0 * f.offset.y + f.contentSize == m.height
    ensures m.width >= m.height ==> f.offset.y == padding
    ensures m.width < m.height ==> f.offset.x == padding
    ensures f.origin == Position(m.pageX, m.pageY)
    ensures f.radius * scale == f.contentSize
  {
    var origin := Position(m.pageX, m.pageY);
    if m.width >= m.height then
      var contentSize := m.height - padding * 2.0;
      Frame(contentSize, Position((m.width - m.height) / 2.0 + padding, padding), origin, contentSize / scale)
    else
      var contentSize := m.width - padding * 2.0;
      Frame(contentSize, Position(padding, (m.height - m.width) / 2.0 + padding), origin, contentSize / scale)
  }

  /** The distance between neighbouring points, left corner to left corner. */
  function Spacing(f: Frame): real
  {
    (f.contentSize - f.radius * 2.0) / 2.0
  }

  /** Column 0..2 of point `i`. */
  function Column(i: nat): nat
  {
    i % 3
  }

  /** Row 0..2 of point `i`. */
  function Row(i: nat): nat
  {
    i / 3
  }

  /** Point `i` of the grid laid out in frame `f`, not yet visited. */
  function GridPoint(f: Frame, i: nat): Point
    requires i < PointCount
  {
    var left := f.offset.x + Column(i) as real * Spacing(f);
    var top := f.offset.y + Row(i) as real * Spacing(f);
    Point(i, left, top, Position(f.origin.x + left + f.radius, f.origin.y + top + f.radius), false)
  }

  /** The nine points `_initPoints` builds, in index order. */
  function GridPoints(f: Frame): (points: seq<Point>)
    ensures |points| == PointCount
    ensures forall i :: 0 <= i < |points| ==> points[i].index == i && !points[i].active
  {
    seq(PointCount, i requires 0 <= i < PointCount => GridPoint(f, i))
  }

  /**
   * The grid fills the content square exactly: the first row and column
   * touch its top and left edges, the last ones its bottom and right edges.
   */
  lemma GridSpansContent(f: Frame)
    ensures GridPoint(f, 0).left == f.offset.x && GridPoint(f, 0).top == f.offset.y
    ensures GridPoint(f, 8).left + 2.0 * f.radius == f.offset.x + f.contentSize
    ensures GridPoint(f, 8).top + 2.0 * f.radius == f.offset.y + f.contentSize
  {
  }

  /**
   * In a square container of side `side`, the radius is `(side - 2 padding) / scale`
   * and point 0 is centred one padding plus one radius from the container's corner.
   */
  lemma SquareContainer(side: real, pageX: real, pageY: real, padding: real, scale: real)
    requires scale != 0.0
    ensures var f := Measured(Measure(side, side, pageX, pageY), padding, scale);
            f.radius == (side - 2.0 * padding) / scale &&
            GridPoint(f, 0).origin == Position(pageX + padding + f.radius, pageY + padding + f.radius)
  {
  }

  /**
   * With a positive content size and a `scale` of at least 6 (the default is
   * 10) the points have a positive radius and are at least two radii apart.
   */
  lemma SeparatedWhenScaleAtLeastSix(m: Measure, padding: real, scale: real)
    requires scale >= 6.0
    requires Measured(m, padding, scale).contentSize > 0.0
    ensures var f := Measured(m, padding, scale);
            f.radius > 0.0 && Spacing(f) >= 2.0 * f.radius
  {
    var f := Measured(m, padding, scale);
    assert f.radius > 0.0 by {
      if f.radius <= 0.0 {
        MulLeft(scale, f.radius, 0.0);
        assert false;
      }
    }
    MulLeft(f.radius, 6.0, scale);
  }

  /**
   * With the default props, a container whose shorter side exceeds twice the
   * padding gets points of positive radius, at least two radii apart.
   */
  lemma DefaultsSeparate(m: Measure)
    requires Min(m.width, m.height) > 2.0 * DefaultPadding
    ensures var f := Measured(m, DefaultPadding, DefaultScale);
            f.radius > 0.0 && Spacing(f) >= 2.0 * f.radius
  {
    SeparatedWhenScaleAtLeastSix(m, DefaultPadding, DefaultScale);
  }

  /** Two points in different columns are at least one spacing apart horizontally. */
  lemma ColumnsApart(f: Frame, i: nat, j: nat)
    requires i < PointCount && j < PointCount && Column(i) < Column(j)
    requires Spacing(f) >= 0.0
    ensures GridPoint(f, j).origin.x - GridPoint(f, i).origin.x >= Spacing(f)
  {
    var d := Spacing(f);
    var ci, cj := Column(i) as real, Column(j) as real;
    assert cj * d - ci * d == (cj - ci) * d;
    MulLeft(d, 1.0, cj - ci);
  }

  /** Two points in different rows are at least one spacing apart vertically. */
  lemma RowsApart(f: Frame, i: nat, j: nat)
    requires i < PointCount && j < PointCount && Row(i) < Row(j)
    requires Spacing(f) >= 0.0
    ensures GridPoint(f, j).origin.y - GridPoint(f, i).origin.y >= Spacing(f)
  {
    var d := Spacing(f);
    var ri, rj := Row(i) as real, Row(j) as real;
    assert rj * d - ri * d == (rj - ri) * d;
    MulLeft(d, 1.0, rj - ri);
  }

  /**
   * When points are at least two radii apart no location is inside two of
   * them, so the point a position selects does not depend on search order.
   */
  lemma PointsDisjoint(f: Frame, i: nat, j: nat, location: Position)
    requires i < PointCount && j < PointCount && i != j
    requires Spacing(f) >= 2.0 * f.radius
    ensures !(IsInPoint(location, GridPoint(f, i).origin, f.radius) &&
              IsInPoint(location, GridPoint(f, j).origin, f.radius))
  {
    var r := f.radius;
    if IsInPoint(location, GridPoint(f, i).origin, r) && IsInPoint(location, GridPoint(f, j).origin, r) {
      InsideBoundsAxes(location, GridPoint(f, i).origin, r);
      InsideBoundsAxes(location, GridPoint(f, j).origin, r);
      assert i == 3 * Row(i) + Column(i) && j == 3 * Row(j) + Column(j);
      if Column(i) < Column(j) {
        ColumnsApart(f, i, j);
      } else if Column(j) < Column(i) {
        ColumnsApart(f, j, i);
      } else if Row(i) < Row(j) {
        RowsApart(f, i, j);
      } else {
        RowsApart(f, j, i);
      }
    }
  }
}
