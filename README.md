# gym-gridverse geometry kernel and grid container in Dafny

This project models the discrete geometry kernel of gym-gridverse and the
grid container built on it. Modules:

- `Geometry` (geometry.dfy) has the immutable value types and their algebra.
  - `Position` has add, subtract, rotation by an orientation and the Manhattan distance.
  - `Orientation` (N, S, E, W) has its displacement and its left, right and back turns.
  - `Area` keeps its inclusive `ys` and `xs` ranges. It has its bounds, dimensions and corners, containment, translation and rotation about the origin. It lists its positions, its border and its inside.
  - `Pose` gives absolute positions and areas (rotate first, translate second).
  - There are two enumerators: the Manhattan ring `ManhattanBoundary` and the anti-diagonal sweep `DiagonalStrides`.
- `Info` (info.dfy) has the `Grid` class and the `Agent` class.
  - `Grid` is a class over a two-dimensional array of cells. Its abstract value `Contents()` is the matrix of its rows.
  - Functions on matrices specify what the grid's methods compute: `Update` (set), `SwapCells`, `Slice` (sub-grid) and `Rotated` (numpy's `rot90` by the viewer's orientation).
  - `Agent` holds a position, an orientation and a held object.
- `Cells` (cells.dfy) has the grid objects as an opaque datatype with a transparency flag.
- `Results` (results.dfy) has the failure values.
- `Seqs` (seqs.dfy) has integer ranges and facts about duplicate-free sequences.

Failures are values, not exceptions. `Result` is `Ok(value)` or `Err(error)`. The
errors are `InvalidRange`, `OutOfBounds`, `ShapeMismatch` and `NotFound`. The
source raises `ValueError` for the first, second and fourth. It raises
`TypeError` or `ValueError` (from numpy) for the third.

Behaviour of the code that the model keeps:

- An `Area` stores its `ys` and `xs` pairs as given. Its bounds are their
  min and max, as in the source. Only `NewArea`, the source's constructor,
  refuses decreasing ranges. Every area the kernel builds is well-formed.
- A grid with no rows or no columns cannot build its own area: `Area((0, -1), ...)`
  raises. So listing its positions fails, and so do `__eq__` on two such
  grids of equal shape, `get_position` and `from_objects([[]])`. The model
  returns `Err(InvalidRange)` in each case.
- `change_orientation` also fails on a grid with no rows or no columns, but
  the error depends on the turned shape. When the turned matrix has no rows
  (no rows under N or S, no columns under E or W), `from_objects` refuses it
  as not two-dimensional, so the model returns `Err(ShapeMismatch)`.
  Otherwise its rows are empty and the model returns `Err(InvalidRange)`. In
  the source a grid with no rows stores a one-dimensional array, so
  `np.rot90` already raises `ValueError` before `from_objects` runs.
- `from_objects` refuses a matrix with no rows or with rows of different
  lengths. These are `ShapeMismatch`.
- `get_manhattan_boundary` asserts `distance > 0`. The model makes this a
  precondition.
- `__getitem__` and `__setitem__` do no bounds check. The model requires an
  in-bounds position. `__setitem__` builds a `TypeError` but never raises it.
  Dafny's types make that check unnecessary.
- The sub-grid's source position is `pos_to + area.top_left`. The Agent's
  front position uses `Orientation.N.as_position()`. info.py imports
  `DeltaPosition`, calls `Position.add` and calls `as_delta_position`. None of
  these exist in geometry.py. The model uses what they evidently stand for.

`rotate_back` does not undo a rotation. Rotating by N and then by
`N.rotate_back()` is rotating by S (`RotateBackIsNotInverse`,
`RotateAreaBack`). The inverse is `Inverse`, which maps N to N, S to S, E to W
and W to E (`RotateInverse`, `RotateArea`).

## Model

| member | source | states |
|---|---|---|
| `Geometry.NewArea` | gym_gridverse/geometry.py:24-36 | construction fails with InvalidRange exactly when `ys` or `xs` decreases; otherwise the bounds are the given ends and height = ymax-ymin+1, width = xmax-xmin+1 |
| `Geometry.Area.YMin` | gym_gridverse/geometry.py:38-41 | `ymin` is the smaller of the two row ends, whichever order they were given in |
| `Geometry.Area.YMax` | gym_gridverse/geometry.py:42-45 | `ymax` is the larger of the two row ends |
| `Geometry.Area.XMin` | gym_gridverse/geometry.py:46-49 | `xmin` is the smaller of the two column ends |
| `Geometry.Area.XMax` | gym_gridverse/geometry.py:50-53 | `xmax` is the larger of the two column ends |
| `Geometry.Area.TopLeft` | gym_gridverse/geometry.py:62-65 | the top-left corner is in the area, and no position of the area is above or left of it |
| `Geometry.Area.TopRight` | gym_gridverse/geometry.py:66-69 | the top-right corner is in the area, and no position of the area is above or right of it |
| `Geometry.Area.BottomLeft` | gym_gridverse/geometry.py:70-73 | the bottom-left corner is in the area, and no position of the area is below or left of it |
| `Geometry.Area.BottomRight` | gym_gridverse/geometry.py:74-77 | the bottom-right corner is in the area, and no position of the area is below or right of it |
| `Geometry.Area.Positions` | gym_gridverse/geometry.py:78-85 | `positions()` has height·width elements and holds exactly the contained positions |
| `Geometry.Area.PositionsBorder` | gym_gridverse/geometry.py:87-101 | `positions_border()` has 2·width + 2·(height-2) elements (2·width for a single row), all of them in the area |
| `Geometry.Area.PositionsInside` | gym_gridverse/geometry.py:103-110 | `positions_inside()` has (height-2)·(width-2) elements when both are at least 3, all of them in the area |
| `Geometry.Area.Contains` | gym_gridverse/geometry.py:112-117 | a position is contained iff its offset from the top-left corner is below the height and the width |
| `Geometry.Area.Height` | gym_gridverse/geometry.py:38-56 | the height of any area is at least 1 |
| `Geometry.Area.Width` | gym_gridverse/geometry.py:46-60 | the width of any area is at least 1 |
| `Geometry.Area.Translate` | gym_gridverse/geometry.py:119-124 | a translated area is well-formed |
| `Geometry.Area.Rotate` | gym_gridverse/geometry.py:126-142 | a rotated area is well-formed |
| `Geometry.ProductLength` | gym_gridverse/geometry.py:78-85 | the nested comprehension over ys and xs has \|ys\|·\|xs\| elements |
| `Geometry.ProductMember` | gym_gridverse/geometry.py:78-85 | a position is in the comprehension iff its row is in ys and its column in xs |
| `Geometry.ProductAt` | gym_gridverse/geometry.py:78-85 | the pair (ys[i], xs[j]) is at index i·\|xs\|+j |
| `Geometry.ProductRowMajor` | gym_gridverse/geometry.py:78-85 | increasing ys and xs give a strictly row-major sequence |
| `Geometry.AreaPositions` | gym_gridverse/geometry.py:78-85 | `positions()` has height·width elements, holds exactly the contained positions, and is strictly row-major, hence duplicate-free |
| `Geometry.AreaPositionAt` | gym_gridverse/geometry.py:78-85 | the position at row offset dy and column offset dx is at index dy·width+dx |
| `Geometry.BorderInsideMembers` | gym_gridverse/geometry.py:87-117 | `positions_inside()` holds exactly the positions with ymin<y<ymax and xmin<x<xmax; `positions_border()` holds exactly the contained positions on the first or last row or column |
| `Geometry.BorderInsidePartition` | gym_gridverse/geometry.py:78-110 | with height and width at least 2, border and inside are duplicate-free and disjoint, and together they are a permutation of `positions()` |
| `Geometry.BorderRepeatsSingleRow` | gym_gridverse/geometry.py:87-101 | with a single row the border has 2·width elements and repeats its first one, so it is not duplicate-free |
| `Geometry.BorderRepeatsSingleColumn` | gym_gridverse/geometry.py:87-101 | with a single column and at least three rows the border has 2·height-2 elements and lists (ymin+1, xmin) at indices 2 and 3, so it is not duplicate-free |
| `Geometry.TranslateArea` | gym_gridverse/geometry.py:112-124 | translation shifts the bounds by d, keeps height and width, and `translate(d).contains(p+d) == contains(p)` |
| `Geometry.RotateContains` | gym_gridverse/geometry.py:126-142 | `rotate(o).contains(p.rotate(o)) == contains(p)` for every area, orientation and position |
| `Geometry.RotateArea` | gym_gridverse/geometry.py:126-142 | E and W swap height and width, N and S keep them; for a well-formed area N is the identity, S∘S, E then W and W then E restore it, and so does rotating by `Inverse(o)` |
| `Geometry.RotateAreaBack` | gym_gridverse/geometry.py:126-142 | rotating by N and then by N's back orientation equals rotating by S, which moves a concrete area |
| `Geometry.Position.Add` | gym_gridverse/geometry.py:159-165 | subtracting the offset from the sum gives the position back, and subtracting the position gives the offset |
| `Geometry.Position.Sub` | gym_gridverse/geometry.py:167-173 | the difference is (0,0) exactly when the two positions are equal |
| `Geometry.Position.Rotate` | gym_gridverse/geometry.py:192-209 | a rotated offset keeps its Manhattan length, and only (0,0) rotates to (0,0) |
| `Geometry.Orientation.AsPosition` | gym_gridverse/geometry.py:236-249 | `as_position(d)` moves along one axis only, by \|d\| steps |
| `Geometry.Orientation.RotateLeft` | gym_gridverse/geometry.py:261-269 | turning left is three clockwise quarter turns from the current heading |
| `Geometry.Orientation.RotateRight` | gym_gridverse/geometry.py:271-279 | turning right is one clockwise quarter turn |
| `Geometry.Orientation.RotateBack` | gym_gridverse/geometry.py:281-289 | turning back is two quarter turns and never gives the same orientation |
| `Geometry.AddSubInverse` | gym_gridverse/geometry.py:159-173 | subtracting an offset undoes adding it, and the other way round |
| `Geometry.ManhattanDistance` | gym_gridverse/geometry.py:211-216 | the distance is zero exactly between equal positions |
| `Geometry.ManhattanInvariance` | gym_gridverse/geometry.py:159-216 | the distance is symmetric and does not change under a common translation or rotation |
| `Geometry.RotateInverse` | gym_gridverse/geometry.py:192-209 | rotating by `o` and then by `Inverse(o)` (and the other way) is the identity; E then W, W then E, and S twice are identities |
| `Geometry.RotateComposition` | gym_gridverse/geometry.py:192-209 | N is the identity; rotating by `o.rotate_right()`, `o.rotate_left()` or `o.rotate_back()` is rotating by `o` and then by E, W or S |
| `Geometry.RotateBackIsNotInverse` | gym_gridverse/geometry.py:192-209 | rotating (1,0) by N and then by N's back orientation gives (-1,0), not (1,0) |
| `Geometry.AsPositionGeometry` | gym_gridverse/geometry.py:236-249 | `as_position(d)` is at Manhattan distance \|d\| from the origin, is N's displacement rotated by the orientation, and N's unit step is (-1,0) |
| `Geometry.OrientationAlgebra` | gym_gridverse/geometry.py:261-289 | `rotate_left` and `rotate_right` are mutual inverses, two of either are `rotate_back`, and `rotate_back` is an involution |
| `Geometry.Pose.AbsolutePosition` | gym_gridverse/geometry.py:297-299 | the absolute position determines the relative one: subtract the pose's position and rotate by `Inverse(orientation)` |
| `Geometry.Pose.FrontPosition` | gym_gridverse/geometry.py:301-303 | the front position is the pose's position plus the orientation's unit displacement |
| `Geometry.Pose.AbsoluteArea` | gym_gridverse/geometry.py:305-313 | the absolute area is well-formed, and its height is the relative area's width for E and W and its height for N and S |
| `Geometry.PoseDistance` | gym_gridverse/geometry.py:297-303 | an offset placed by a pose keeps its Manhattan length, so the front position is a neighbour of the pose's position |
| `Geometry.PoseConsistency` | gym_gridverse/geometry.py:297-313 | `absolute_area(a).contains(absolute_position(p)) == a.contains(p)`; the offset (0,0) is the pose's position; the absolute area is rotate-then-translate |
| `Geometry.ManhattanBoundary` | gym_gridverse/geometry.py:316-361 | the boundary at distance d has 4·d positions |
| `Geometry.BoundaryDistance` | gym_gridverse/geometry.py:316-361 | every boundary position is at Manhattan distance exactly d from the centre |
| `Geometry.BoundaryVertices` | gym_gridverse/geometry.py:339-361 | the boundary starts at (c.y-d, c.x) and reaches the right, bottom and left vertices at indices d, 2d and 3d |
| `Geometry.BoundarySteps` | gym_gridverse/geometry.py:343-361 | consecutive boundary positions, and the last and the first, are one diagonal step apart (a closed clockwise walk) |
| `Geometry.BoundaryExact` | gym_gridverse/geometry.py:316-361 | the boundary is duplicate-free and holds every position at distance d, so it is exactly the diamond |
| `Geometry.StrideCandidate` | gym_gridverse/geometry.py:376-388 | the k-th candidate of stride s lies on anti-diagonal s at offset k: (ymax-y)+(xmax-x) = s for NW, (ymax-y)+(x-xmin) = s for NE |
| `Geometry.CandidatesOrdered` | gym_gridverse/geometry.py:376-388 | the candidates of strides 0..n-1 have stride index below n and come in strictly increasing (stride, offset) order |
| `Geometry.CandidatesCover` | gym_gridverse/geometry.py:376-388 | every position whose offset lies within its stride, and whose stride is below n, is among the candidates |
| `Geometry.FilterMembers` | gym_gridverse/geometry.py:393 | filtering by `area.contains` keeps exactly the candidates the area contains |
| `Geometry.FilterOrdered` | gym_gridverse/geometry.py:393 | filtering keeps the candidates' stride order |
| `Geometry.DiagonalStrides` | gym_gridverse/geometry.py:372-393 | the sweep emits exactly the positions of the area |
| `Geometry.CandidatesCoverArea` | gym_gridverse/geometry.py:376-388 | every position of the area is among the candidates of height+width+1 strides |
| `Geometry.DiagonalStridesExact` | gym_gridverse/geometry.py:372-393 | `diagonal_strides` emits only positions of the area, every one of them exactly once (a permutation of `positions()`, height·width in all), in non-decreasing stride index |
| `Cells.TransparencyFlags` | tests/test_grid_objects.py:121-262 | Hidden and Wall block sight, Floor does not, and a door does exactly when it is not open |
| `Info.Grid.constructor` | gym_gridverse/info.py:30-41 | a new grid has shape (height, width) and every cell is Floor |
| `Info.Grid.FromObjects` | gym_gridverse/info.py:51-67 | a matrix with no rows or ragged rows is refused (ShapeMismatch); empty rows fail (InvalidRange); otherwise a fresh grid of the matrix's shape whose cells are the matrix's cells |
| `Info.Grid.Equals` | gym_gridverse/info.py:69-80 | different shapes are unequal; equal shapes with no cells fail; otherwise the grids are equal iff every cell is |
| `Info.Grid.Contains` | gym_gridverse/info.py:87-90 | a grid with no rows or no columns contains no position |
| `Info.Grid.FullArea` | gym_gridverse/info.py:82-90 | the area exists iff the grid has rows and columns; it is ((0,h-1),(0,w-1)), and it contains a position iff `position in grid` |
| `Info.Grid.Positions` | gym_gridverse/info.py:98-100 | the grid's positions are the full area's `positions()`, h·w of them in row-major order, are exactly those in the grid |
| `Info.Grid.PositionsBorder` | gym_gridverse/info.py:102-104 | the border positions are the full area's `positions_border()`, and they are exactly the grid positions on the first or last row or column |
| `Info.Grid.PositionsInside` | gym_gridverse/info.py:106-108 | the inside positions are the full area's `positions_inside()`, and they are exactly those strictly inside the first and last rows and columns |
| `Info.Grid.GetPosition` | gym_gridverse/info.py:110-115 | returns the first position in row-major order holding the object; fails with NotFound iff no cell holds it (InvalidRange for a grid without cells) |
| `Info.Grid.Get` | gym_gridverse/info.py:121-123 | the cell at an in-bounds position is the matrix entry at that row and column |
| `Info.Grid.Set` | gym_gridverse/info.py:125-130 | after setting, the grid's matrix is the old one with that one entry replaced |
| `Info.UpdateGet` | gym_gridverse/info.py:121-130 | a get after a set at the same position returns the new cell; every other cell and the shape are unchanged |
| `Info.Grid.Swap` | gym_gridverse/info.py:92-136 | fails with OutOfBounds, changing nothing, if either position is outside the grid; otherwise the grid becomes `SwapCells` of the old one |
| `Info.SwapExchanges` | gym_gridverse/info.py:132-136 | a swap exchanges the two cells and leaves every other cell and the shape unchanged |
| `Info.SwapTwice` | gym_gridverse/info.py:132-136 | swapping the same two positions twice restores the grid |
| `Info.Slice` | gym_gridverse/info.py:138-157 | the sub-grid of an area has the area's height and width |
| `Info.SliceAt` | gym_gridverse/info.py:138-157 | the sub-grid's cell at p is the grid's cell at p + top_left when that is in the grid, else Hidden (which blocks sight); p + top_left lies in the area |
| `Info.SliceFull` | gym_gridverse/info.py:138-157 | slicing a matrix at its full area gives it back |
| `Info.Grid.Subgrid` | gym_gridverse/info.py:138-157 | returns a fresh grid of shape (area.height, area.width) whose matrix is `Slice` of this grid's; the receiver is not modified |
| `Info.SubgridOfFullArea` | gym_gridverse/info.py:138-157 | `subgrid(grid.area)` reproduces the grid |
| `Info.Rotated` | gym_gridverse/info.py:177-185 | E and W turn an h×w matrix into a w×h one; N and S keep the shape |
| `Info.RotatedExample` | gym_gridverse/info.py:159-176 | for E the grid AB/CD becomes BD/AC |
| `Info.RotatedQuarterTurns` | gym_gridverse/info.py:177-183 | S is two single quarter turns (E), and W is three |
| `Info.RotatedInverses` | gym_gridverse/info.py:177-185 | N is the identity; S twice, E then W, and W then E restore the matrix |
| `Info.Grid.ChangeOrientation` | gym_gridverse/info.py:159-185 | succeeds iff the grid has cells; fails with ShapeMismatch when the turned matrix has no rows and with InvalidRange otherwise; on success returns a fresh grid with a fresh array, of the turned shape, whose matrix is `Rotated` of this grid's; the receiver is not modified |
| `Info.Agent.constructor` | gym_gridverse/info.py:199-218 | the agent has the given position and orientation and holds the given object, or NoneObject when none is given |
| `Info.Agent.PositionRelative` | gym_gridverse/info.py:238-243 | the agent-relative position equals the pose's absolute position: position + d.rotate(orientation) |
| `Info.Agent.PositionInFront` | gym_gridverse/info.py:245-247 | the position in front is the position plus the orientation's unit displacement |
| `Info.Agent.GetPovArea` | gym_gridverse/info.py:249-257 | the point-of-view area is the pose's absolute area (rotate then translate) and contains the agent-relative position of exactly the offsets the relative area contains |

## Left out

- Visibility algorithms (full, partial, minigrid-style, raytracing, stochastic) are not part of this model. Their source is not among the modelled files, and the stochastic one draws random numbers.
- The grid-object catalogue is not part of this model: registration and type indices, colours, `blocks`, `can_be_picked_up`, `as_array`, actuation, stepping and the factory. Cells are an opaque datatype with only the transparency flag the container's callers rely on.
- `Grid.object_types` is left out. It collects the Python classes of the cells, and the model has no class objects.
- `Grid.get_position` compares by identity (`is`). Cells are values in this model, so it compares by equality.
- `Orientation.as_radians` and `Position.euclidean_distance` are left out because they use floating point.
- `Position.from_position_or_tuple`, `astuple`, `__iter__`, `__radd__`, `__rsub__` and tuple comparison in `__eq__` are left out. They convert between tuples and positions, and the model only has positions.
- Agent's position setter and `Agent.__eq__` are left out. The setter only converts a tuple, and equality compares the three fields.
- `cached_property` memoisation, numpy storage and `deepcopy` are not modelled. Cells are values, so a copy and the original cannot be told apart.
- Area position enumerations are sequences, not lazy generators.
- `Info.Grid.constructor`: takes natural dimensions only. The source also accepts negative ones and then builds an empty array whose recorded shape is negative.
- `Info.Grid.Subgrid` and `Info.Grid.FromObjects` write the fresh grid's array directly rather than through `__setitem__`. The effect is the same.
- The environment loop (minigrid_env.py) and the observation container are not part of this model. They only delegate to injected callables or hold two fields.
