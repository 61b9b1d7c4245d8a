# Gesture password pad, modelled in Dafny

This project models the core of `react-native-simple-gesture-password`. The `GesturePassword` component draws a 3 x 3 grid of points. The user draws a password by pressing a point and dragging across others. Each point under the pointer is visited once and marked active, and lines join consecutive visited points. One more line trails the pointer. When the pointer goes up, the visited indices are reported as a digit string (`onChange(this._path.join(''))`), and a reset is scheduled.

The model has five modules:

- `Geometry` (geometry.dfy) covers the hit test of lib/utils.js. `getDistance` takes a square root, so the model works with the squared distance. `IsDistance` states what the root is. The lemmas prove that the sqrt-free `IsInPoint` agrees with `radius > getDistance(location, origin)`.
- `Layout` (layout.dfy) holds the arithmetic of the `ref.measure` callback in `_onLayout` and of `_initPoints`. These are the content square, its centring offset, the point radius and the nine point centres. It also holds the default `padding` and `scale` props.
- `Digits` (digits.dfy) covers the password string. `Join` is `path.join('')` for indices below ten, and `Parse` reads such a string back.
- `GestureState` (state.dfy) holds the gesture state as a value: `state.points`, `state.lines`, `_path`, `_currentPoint` and `_currentLine`.
  - One function per event states that event's effect: `Cleared`, `Started`, `Moved` (through `Trailed` and `Visited`) and `Finished`. `Password` is what a pointer-up reports.
  - `Inv` is the invariant kept between events: a duplicate-free path, the relation between the line count and the path length, and the current point as the last visited one.
  - `Drawn` says the drawing shows the path: visited points are active, and the anchored lines join consecutive visited centres.
  - `Gesture` composes a pointer-down, a stream of moves and a pointer-up.
- `Gesture` (gesture.dfy) holds the component itself, as class `GesturePassword`.
  - Its fields are the measured layout, the React state, the gesture fields and whether a reset is pending.
  - Its methods are the event handlers and the helpers they call, and each updates the fields in place as the source does.
  - Each handler is proved to keep `Valid()` and to leave exactly the state the matching `GestureState` function describes.

Points are identified by their index in `state.points`. `_currentPoint` is the index of the current point. `_currentLine` is the position in `lines` of the line object it refers to. `_onFinish` pops that line without clearing the reference. From then on the position is `|lines|`, so later writes through the reference change nothing that is drawn.

## Model

| member | source | states |
|---|---|---|
| Geometry.SquaredDistance | lib/utils.js:6-8 | The squared distance is never negative, and it is zero exactly when the two positions coincide. |
| Geometry.DistanceSymmetric | lib/utils.js:6-8 | The distance between two positions does not depend on the order of the arguments. |
| Geometry.DistanceUnique | lib/utils.js:7 | The non-negative root that `getDistance` returns is unique. |
| Geometry.DistanceZero | lib/utils.js:6-8 | The distance is zero exactly when the two positions are the same. |
| Geometry.IsDistance | lib/utils.js:6-8 | `getDistance(a, b)` is the non-negative number whose square is the squared distance. |
| Geometry.IsInPoint | lib/utils.js:16-18 | `isInPoint` in sqrt-free form: the radius is positive and the squared distance is below the squared radius. |
| Geometry.InPointIffCloserThanRadius | lib/utils.js:16-18 | `IsInPoint` (radius positive, squared distance below squared radius) holds exactly when `radius > getDistance(location, origin)`. |
| Geometry.BoundaryIsOutside | lib/utils.js:17 | The test is strict: a location exactly one radius from the centre is not inside. |
| Geometry.CentreIsInside | lib/utils.js:16-18 | A point's centre is inside it exactly when the radius is positive. |
| Geometry.EmptyWhenRadiusNotPositive | lib/utils.js:16-18 | With a radius of zero or less, no location is inside. |
| Geometry.RadiusMonotone | lib/utils.js:16-18 | A location inside at some radius is inside at every larger radius. |
| Geometry.InsideBoundsAxes | lib/utils.js:16-18 | A location inside a point is less than one radius from its centre along each axis. |
| Layout.Measured | lib/GesturePassword.js:43-64 | The content size is the shorter side less the padding at both ends. The content square is centred on both axes, so the offset along the shorter side is the padding. The origin is the container's page position. The radius times `scale` is the content size. |
| Layout.GridPoint | lib/GesturePassword.js:159-169 | Point `i` sits `i % 3` spacings right of the offset and `i / 3` (rounded down) spacings below it. Its centre is the page origin plus that corner plus one radius on each axis, and it is inactive. |
| Layout.GridPoints | lib/GesturePassword.js:153-171 | `_initPoints` builds nine points; point `i` has index `i` and is inactive. |
| Layout.GridSpansContent | lib/GesturePassword.js:157-168 | Point 0's circle touches the content square's top and left edges, and point 8's circle touches its bottom and right edges. |
| Layout.SquareContainer | lib/GesturePassword.js:43-64 | In a square container the radius is `(side - 2 padding) / scale`, and point 0's centre is one padding plus one radius from the container's corner. |
| Layout.SeparatedWhenScaleAtLeastSix | lib/GesturePassword.js:157-160 | With a positive content size and `scale >= 6`, the radius is positive and neighbouring points are at least two radii apart. |
| Layout.DefaultsSeparate | lib/GesturePassword.js:9-16 | With the default `padding` 8 and `scale` 10, and a container whose shorter side exceeds 16, the radius is positive and points are at least two radii apart. |
| Layout.ColumnsApart | lib/GesturePassword.js:159 | Points in different columns are at least one spacing apart horizontally. |
| Layout.RowsApart | lib/GesturePassword.js:160 | Points in different rows are at least one spacing apart vertically. |
| Layout.PointsDisjoint | lib/GesturePassword.js:157-168 | When points are two radii apart, no location is inside two of them. |
| Digits.AppendFresh | lib/GesturePassword.js:198-203 | Appending an index that is not yet on a duplicate-free path keeps it duplicate-free. |
| Digits.Join | lib/GesturePassword.js:146 | `path.join('')` for indices below ten has one character per index, and that character is the index's decimal digit. |
| Digits.JoinThree | lib/GesturePassword.js:146 | A three-point path joins to its three digits, in order. |
| Digits.Parse | lib/GesturePassword.js:146 | Reading a digit string gives one index below ten per character. |
| Digits.ParseJoin | lib/GesturePassword.js:146 | Parsing the reported password gives back the path. |
| Digits.JoinParse | lib/GesturePassword.js:146 | Every digit string is the password of the path it parses to. |
| Digits.JoinInjective | lib/GesturePassword.js:146 | Different paths give different passwords. |
| Digits.JoinDistinct | lib/GesturePassword.js:146 | A path that repeats no index gives a password that repeats no character. |
| Digits.DistinctBelowBound | lib/GesturePassword.js:198-203 | A duplicate-free path of indices below `n` has at most `n` entries. |
| GestureState.FindPoint | lib/GesturePassword.js:181-183 | `_getPoint` returns the lowest index whose circle strictly contains the position, and none exactly when no circle does. In particular it returns none before layout, when there are no points. |
| GestureState.FindPointReadsOrigins | lib/GesturePassword.js:181-183 | The hit test depends only on the centres, not on the `active` flags. |
| GestureState.CentreSelectsPoint | lib/GesturePassword.js:181-183 | On a grid whose points are two radii apart, a pointer at point `i`'s centre selects point `i`. |
| GestureState.LeftMarginMisses | lib/GesturePassword.js:181-183 | A pointer left of the content square selects no point. |
| GestureState.Activated | lib/GesturePassword.js:185-190 | `_activePoint` sets the `active` flag of that one point and leaves the others. |
| GestureState.Cleared | lib/GesturePassword.js:223-236 | `_reset` leaves every point inactive, no lines, an empty path, and no current point or line. |
| GestureState.Started | lib/GesturePassword.js:70-85 | `_onStart` resets. On a hit, that point alone is then the path, active and current. |
| GestureState.Trailed | lib/GesturePassword.js:128-130 | The trailing line runs from the current point's centre to the pointer, after the anchored lines. |
| GestureState.Visited | lib/GesturePassword.js:95-126 | Entering an unvisited point makes it active, appended and current. With a previous current point, the trailing line is fixed from that point's centre to the new one. A new trailing line runs from the new centre to the pointer. |
| GestureState.Moved | lib/GesturePassword.js:87-131 | `_onMove`, by case. A miss pulls the current line, if there is one. A hit on a visited point pulls or starts the trailing line. A hit on an unvisited point visits it. |
| GestureState.Finished | lib/GesturePassword.js:133-144 | `_onFinish` leaves an empty path's state alone. Otherwise it drops the trailing line. |
| GestureState.Password | lib/GesturePassword.js:135-146 | Nothing is reported for an empty path. Otherwise the path's digits are reported. |
| GestureState.Deactivated | lib/GesturePassword.js:224-228 | `_reset` keeps every point and clears its `active` flag. |
| GestureState.ClearedInv | lib/GesturePassword.js:223-236 | The state `_reset` leaves satisfies the invariant, with the pointer down or up. |
| GestureState.ClearedBlank | lib/GesturePassword.js:224-228 | After `_reset` no point is active, and the centres are unchanged. |
| GestureState.RelaidInv | lib/GesturePassword.js:172-174 | Replacing the points with a fresh grid keeps the invariant. With an empty path, the drawing still shows the path. |
| GestureState.StartedInv | lib/GesturePassword.js:70-85 | After a pointer-down the invariant holds with the pointer down. |
| GestureState.StartedEffect | lib/GesturePassword.js:70-85 | After a pointer-down no line is drawn and there is no current line. The path is the hit point alone (empty on a miss), that point is current, and exactly that point is active. The centres are unchanged. |
| GestureState.TrailedInv | lib/GesturePassword.js:128-130 | Pulling the trailing line to the pointer keeps the invariant. |
| GestureState.TrailedKeeps | lib/GesturePassword.js:128-130 | Pulling the trailing line changes only that line: the path, the points, the current point and the anchored lines stay. |
| GestureState.TrailedIdempotent | lib/GesturePassword.js:128-130 | Pulling the trailing line to the same position twice is the same as pulling it once. |
| GestureState.VisitedTrails | lib/GesturePassword.js:114-130 | Entering a point already leaves the trailing line at the pointer, so the final `_updateLine` of `_onMove` changes nothing. |
| GestureState.VisitedInv | lib/GesturePassword.js:114-126 | Entering an unvisited point keeps the invariant, including a duplicate-free path. |
| GestureState.VisitedDrawn | lib/GesturePassword.js:114-126 | Entering a point keeps the centres. A drawing that showed the path keeps showing it. |
| GestureState.VisitedMarked | lib/GesturePassword.js:114-116 | After entering a point, every visited point is still active. |
| GestureState.VisitedConnected | lib/GesturePassword.js:117-125 | After entering a point, the anchored lines still join consecutive visited centres. |
| GestureState.MovedInv | lib/GesturePassword.js:87-131 | A pointer move keeps the invariant. |
| GestureState.MovedDrawn | lib/GesturePassword.js:87-131 | A pointer move keeps the centres. A drawing that showed the path keeps showing it. |
| GestureState.MovedTrailing | lib/GesturePassword.js:93-130 | After a move, a current line runs from the current point's centre to the pointer. There is a current line unless there was none and the move hit nothing, and then the move changed nothing. |
| GestureState.MovedPath | lib/GesturePassword.js:93-127 | A move extends the path by the hit point exactly when that point is not yet on it. The point then becomes active and current, and the line from the previous current point's centre to its centre is anchored. Otherwise the path, the points, the current point and the anchored lines stay. |
| GestureState.FinishedInv | lib/GesturePassword.js:133-144 | After a pointer-up the invariant holds with the pointer up: one line fewer than visited points. |
| GestureState.FinishedEffect | lib/GesturePassword.js:139-144 | A pointer-up keeps the path and points, drops the trailing line, and leaves exactly the anchored lines. |
| GestureState.InvDigits | lib/GesturePassword.js:198-203 | Under the invariant, every visited index is a digit and the path has at most nine entries. |
| GestureState.PasswordDigits | lib/GesturePassword.js:133-146 | A password is reported exactly when the path is not empty. It has one digit per visited point, between one and nine of them, none repeated, and it parses back to the path. |
| GestureState.MoveAll | lib/GesturePassword.js:87-131 | Any stream of moves keeps the invariant. |
| GestureState.MoveAllGrowsPath | lib/GesturePassword.js:87-131 | Over a stream of moves the path only grows and the centres stay. A drawing that showed the path keeps showing it. |
| GestureState.Hits | lib/GesturePassword.js:92 | The hit test's result for each move of a stream, in order. |
| GestureState.HitsReadOrigins | lib/GesturePassword.js:181-183 | The hits of a stream depend only on the centres, not on the `active` flags. |
| GestureState.Extend | lib/GesturePassword.js:93-127 | The reference for the path a stream of hits leaves: a hit on a point not yet on the path appends it, and a miss or a repeated hit adds nothing. |
| GestureState.ExtendDistinct | lib/GesturePassword.js:198-203 | Extending a duplicate-free path keeps the old path as a prefix and adds no duplicate. It adds only hit points, and every hit point ends up on the path. |
| GestureState.ExtendStays | lib/GesturePassword.js:114 | Misses and hits on visited points leave the path as it is. |
| GestureState.MoveAllPath | lib/GesturePassword.js:87-131 | Any stream of moves, with misses and repeated hits, leaves exactly the path `Extend` gives for the stream's hits. |
| GestureState.MoveAllVisits | lib/GesturePassword.js:93-127 | Moves that each hit a fresh point append exactly those points to the path, in order. |
| GestureState.GestureOutcome | lib/GesturePassword.js:70-148 | After a whole gesture, the invariant holds with the pointer up and the drawing shows the path. The password is the path's digits, absent only for an empty path, and free of repeats. It starts with the point under the pointer-down, if there is one. |
| GestureState.Gesture | lib/GesturePassword.js:70-148 | A whole gesture: `Started` at the pointer-down's hit, `Moved` for each move in turn, then `Finished`, reporting `Password` of the drawn state. |
| GestureState.GestureExtends | lib/GesturePassword.js:70-148 | After any gesture, the path is `Extend` of the pointer-down's hit (if any) by the moves' hits. The report is nothing when that path is empty and its digits otherwise. |
| GestureState.SinglePointReported | lib/GesturePassword.js:70-148 | A gesture that goes down on a point, then only misses or passes over that point again, reports that point alone. |
| GestureState.GestureReports | lib/GesturePassword.js:70-148 | A gesture whose down and moves hit the points of a duplicate-free path, in order, reports that path's digits. |
| GestureState.Idle | lib/GesturePassword.js:153-175 | A pad just laid out, before any gesture, satisfies the invariant: the grid, no path and no lines. |
| GestureState.Centres | lib/GesturePassword.js:165-168 | The centres of the points a path names, in order. |
| GestureState.DefaultCentresSelect | lib/GesturePassword.js:181-183 | With the default props, a pointer at any point's centre selects that point. |
| GestureState.TracedPathReported | lib/GesturePassword.js:70-148 | With the default props, tracing the centres of any duplicate-free sequence of points reports exactly that sequence as the password. |
| GestureState.FourZeroEight | lib/GesturePassword.js:146 | With the default props, down on point 4, over points 0 and 8, then up, reports "408". |
| GestureState.OneOverAndOver | lib/GesturePassword.js:70-148 | With the default props, down on point 1's centre, back over it any number of times, then up, reports "1". |
| Gesture.GesturePassword.constructor | lib/GesturePassword.js:18-34 | The component starts with no points, no lines, an empty path, no current point or line, and no pending reset. |
| Gesture.GesturePassword.GetPoint | lib/GesturePassword.js:181-183 | `_getPoint` is `FindPoint` over `state.points` with the stored radius. |
| Gesture.GesturePassword.OnLayout | lib/GesturePassword.js:43-66 | The measured frame is `Measured` of the container and the props. The points become the fresh grid, and the rest of the gesture state is unchanged. |
| Gesture.GesturePassword.InitPoints | lib/GesturePassword.js:153-175 | The loop leaves `state.points` equal to the grid of the current frame. |
| Gesture.GesturePassword.AddPath | lib/GesturePassword.js:198-203 | `_addPath` appends the index unless it is already on the path. |
| Gesture.GesturePassword.ActivePoint | lib/GesturePassword.js:185-190 | `_activePoint` marks that one point active. |
| Gesture.GesturePassword.AddLine | lib/GesturePassword.js:192-196 | `_addLine` appends the line. |
| Gesture.GesturePassword.UpdateLine | lib/GesturePassword.js:205-211 | `_updateLine` moves both ends of the line `_currentLine` refers to. Once that line has been popped, it changes nothing drawn. |
| Gesture.GesturePassword.ClearTimer | lib/GesturePassword.js:213-218 | `_clearTimer` cancels a pending reset. |
| Gesture.GesturePassword.Reset | lib/GesturePassword.js:223-236 | `_reset` deactivates every point, empties lines and path, and clears the current point and line. |
| Gesture.GesturePassword.OnStart | lib/GesturePassword.js:70-85 | `_onStart` cancels the timer and leaves `Started` of the old state and the old hit. It keeps the invariant. |
| Gesture.GesturePassword.VisitFirst | lib/GesturePassword.js:82-84 | On a hit, after the reset, the hit point alone is visited, active and current. |
| Gesture.GesturePassword.OnMove | lib/GesturePassword.js:87-131 | `_onMove` leaves `Moved` of the old state, the old hit and the position. It keeps the invariant. |
| Gesture.GesturePassword.Pass | lib/GesturePassword.js:93-127 | On a hit, an unvisited point is visited. On a visited one, a trailing line is started if there was none, and otherwise nothing changes. |
| Gesture.GesturePassword.PullLine | lib/GesturePassword.js:128-130 | The trailing line runs from the current point's centre to the pointer. |
| Gesture.GesturePassword.BeginLine | lib/GesturePassword.js:95-109 | With no current line, a line from the hit point's centre to the pointer becomes current. With no current point, the hit point is also visited. |
| Gesture.GesturePassword.EnterPoint | lib/GesturePassword.js:114-126 | Entering an unvisited point that is not the current one has four effects. The point becomes active and is appended to the path. The current line is snapped between the old and new centres. A new line from the new centre becomes current, and the point becomes the current point. |
| Gesture.GesturePassword.OnFinish | lib/GesturePassword.js:133-148 | An empty path leaves everything as it was and reports nothing. Otherwise the trailing line is popped, the path's digits are reported, and a reset is pending. |
| Gesture.GesturePassword.ClearDelayElapsed | lib/GesturePassword.js:147 | When the scheduled timeout fires and the reset is still pending, the state is `Cleared`. Otherwise it is unchanged. |

## Left out

- `getLineTransform` (lib/utils.js:25-41) is left out. It is trigonometry on floats and is used only for rendering.
- lib/Point.js, lib/Line.js, `_renderPoints`, `_renderLines` and `render` are left out. They build views and decide nothing about the gesture.
- The PanResponder wiring is not modelled. Its effect is that moves and the pointer-up arrive only between a pointer-down and its pointer-up.
- Gesture.GesturePassword.OnMove: requires the ghost `tracking` flag, which stands for that PanResponder protocol.
- Gesture.GesturePassword.OnFinish: also requires the ghost `tracking` flag.
- `ref.measure` runs asynchronously. The model takes the measured values as the `Measure` argument of `OnLayout`. The `if (ref)` guard and the unused `x`/`y` are not modelled.
- Real time is not modelled. `setTimeout`, `clearTimeout`, `clearDuration` and `componentWillUnmount` become a pending flag. `ClearDelayElapsed` is the moment the timeout fires.
- React `setState` batching and re-rendering are not modelled. Functional updates are applied immediately, in order.
- `onChange` is not called. `OnFinish` returns the password instead, `None` where the source does not call `onChange`.
- `Math.sqrt` and floating-point rounding are not modelled. Coordinates are exact reals, and the hit test compares squared distances.
- Layout.Measured: requires `scale != 0`. In the source a zero `scale` divides the content size by zero, and the model does not represent that.
- Gesture.GesturePassword.constructor: requires `scale != 0`. In the source a zero `scale` makes the radius infinite or NaN, and the model does not represent that.
- The `inActiveColor`, `activeColor` and `lineWidth` props only style the rendering and are left out.
- example/App.js is the host application and is not part of this model.
- Object identity is replaced by positions in `points` and `lines`, which matches the source while the layout stays the same.
- Gesture.GesturePassword.OnLayout: a layout that fires during a gesture differs from the source. `_initPoints` builds new point objects, but `_currentPoint` still holds the old one. The source therefore keeps drawing the lines at lib/GesturePassword.js:117 and :129 from the old layout's centre. The model's current point is an index, so it draws them from the new grid's centre at that index. The path, the hit tests and the `active` flags agree.
