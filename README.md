# Half-plane vertex walk of `plot_convex_set_2`

This project models the polygon-vertex walker of `plots/plot_convex_set_2.py`
in the pyopt repository, over exact reals. The walker takes a system of
inequalities `A x <= b` in the plane and works as follows:

- It normalises every row.
- It starts at row 0 and, `n` times, ranks the other rows by the wrapped angle
  between their normals and the normal of the current row.
- It picks the nearest row on the negative side and on the positive side
  (`find_max_neg_min_pos`).
- It intersects the three lines pairwise (`intersection`, a 2×2 solve with a
  determinant cut-off of 1e-6).
- It extends the vertex list, guarded by the orientation test `ccw`, and moves
  on to the positive-side neighbour.

`plot_convex_set` first appends one row per optional bounding-box value. The
model covers that augmentation too.

Modules:

- `Wrappers`: `Option` for a missing intersection point and `Result` for the
  exceptions.
- `Errors`: the five ways the code stops without a result.
- `Planar`: points, half-planes, `Ccw`, Cramer's rule, `Intersection`, and the
  feasibility predicate `Feasible` (`A_k . p <= b_k` for every row, as in
  `plot_convex_set/plot_convex_set_1.py` lines 18-19).
- `Angular`: the wrap `((d + 180) % 360) - 180`, `Angles`, numpy's
  `argmax`/`argmin`, and `FindMaxNegMinPos`.
- `VertexWalk`: normalisation, neighbour selection in row numbers, one step of
  the loop, and the walk.
  - The functions `Step` and `Walk` are the specification.
  - The methods `SelectNeighbours`, `Advance`, `WalkRows` and `FindVertices`
    are the loop itself, proved equal to it.
- `BoundingBox`: the methods `CollectBoundRows` (the appends of lines
  117-130), `AugmentConstraints` (lines 114-136) and `ConvexSetNodes` (line 138).

`arctan2` and `np.linalg.norm` are parameters:

- `heading: Point -> real` is the direction of a normal in degrees.
- `norm: Point -> real` is a positive scale for each row.

The walk depends on `heading` only through the wrapped differences. `norm`
only has to be positive for normalisation to keep the feasible region.

Walk specification: the neighbour rule depends only on the current row. So
`Walk` looks up the choice for row `i` in `NeighbourTable`, the rule evaluated
at every row. `WalkRows` computes it afresh at each visited row, as the loop
does, and proves that it gets the table entry.

Behaviour of the code that the model keeps:

- The wrap lands in `[-180, 180)`.
- `ccw` on a missing point raises a `TypeError`, modelled as the failure
  `MissingPoint`. This happens on a later step where `pb` exists but `pa` or
  `pc` is `None`.
- With no rows the loop does not run and the result is empty.
- A zero row is not rejected by the code, which then divides by a zero norm.
  In the model a positive norm is a precondition.

## Model

| member | source | states |
|---|---|---|
| Planar.Ccw | plots/plot_convex_set_2.py:23-27 | exactly the strict test `(c.y-a.y)*(b.x-a.x) > (b.y-a.y)*(c.x-a.x)`; a triangle passing it has three distinct corners |
| Planar.CcwIsPositiveArea | plots/plot_convex_set_2.py:23-27 | `ccw(a, b, c)` holds iff the signed area of a, b, c is positive; with b and c swapped, iff it is negative |
| Planar.CcwAsymmetric | plots/plot_convex_set_2.py:23-27 | `ccw(a, b, c)` and `ccw(a, c, b)` are never both true |
| Planar.CcwCollinear | plots/plot_convex_set_2.py:23-27 | for c on the line through a and b, neither `ccw(a, b, c)` nor `ccw(a, c, b)` holds |
| Planar.CcwRotate | plots/plot_convex_set_2.py:23-27 | the test does not depend on which vertex of the triangle is named first |
| Planar.Det | plots/plot_convex_set_2.py:41 | `det(A)` of the matrix with rows n1 and n2: zero when the rows are equal, non-zero only when neither row is zero |
| Planar.Cramer | plots/plot_convex_set_2.py:37-42 | with a non-zero determinant, the solved point lies on both lines (`n1 . p == b1`, `n2 . p == b2`) |
| Planar.OnBothLinesUnique | plots/plot_convex_set_2.py:37-42 | with a non-zero determinant, two points on both lines are equal |
| Planar.Intersection | plots/plot_convex_set_2.py:30-44 | `None` exactly when abs(det) <= 1e-6; otherwise a point on both lines |
| Planar.IntersectionIsOnlyCommonPoint | plots/plot_convex_set_2.py:30-44 | the returned point is the only point on both lines |
| Planar.IntersectionSymmetric | plots/plot_convex_set_2.py:30-44 | swapping the two lines changes neither whether there is a point nor which point |
| Planar.Feasible | plot_convex_set/plot_convex_set_1.py:18-19 | p satisfies `A_k . p <= b_k` for every row k; a system with no rows is satisfied by every point |
| Angular.Wrap | plots/plot_convex_set_2.py:55 | the wrapped value lies in [-180, 180) and differs from the input by a whole number of turns of 360 |
| Angular.WrapUnique | plots/plot_convex_set_2.py:55 | any value in [-180, 180) that differs from d by whole turns is the wrapped value of d |
| Angular.WrapIdempotent | plots/plot_convex_set_2.py:55 | wrapping a wrapped value changes nothing |
| Angular.WrapPeriodic | plots/plot_convex_set_2.py:55 | adding whole turns to a difference does not change its wrapped value |
| Angular.Angles | plots/plot_convex_set_2.py:47-56 | one entry per vector, each in [-180, 180) and equal to heading(current) - heading(vector) up to whole turns |
| Angular.Positions | plots/plot_convex_set_2.py:16-17 | the kept positions in ascending order: each is below the bound and passes the test, and every position that passes is listed |
| Angular.Pick | plots/plot_convex_set_2.py:18-19 | `values[idx]`: one entry per position, the value at that position |
| Angular.ArgMax | plots/plot_convex_set_2.py:18 | a position of a largest entry, with every earlier entry strictly smaller (the first on ties) |
| Angular.ArgMin | plots/plot_convex_set_2.py:19 | a position of a smallest entry, with every earlier entry strictly larger (the first on ties) |
| Angular.MaxNegUnique | plots/plot_convex_set_2.py:14-20 | at most one position satisfies the largest-negative contract |
| Angular.MinPosUnique | plots/plot_convex_set_2.py:14-20 | at most one position satisfies the smallest-positive contract |
| Angular.ArgMaxOverNegatives | plots/plot_convex_set_2.py:16-18 | argmax over the negative entries picks the largest negative value, the lowest position on ties |
| Angular.ArgMinOverPositives | plots/plot_convex_set_2.py:17-19 | argmin over the positive entries picks the smallest positive value, the lowest position on ties |
| Angular.FindMaxNegMinPos | plots/plot_convex_set_2.py:10-20 | fails with `NoNegativeAngle` iff no entry is negative, and with `NoPositiveAngle` iff some entry is negative but none positive; otherwise returns the largest negative and the smallest positive entry (the first on ties, so a zero is never chosen) |
| VertexWalk.Without | plots/plot_convex_set_2.py:77-78 | `np.delete(s, i)`: one entry fewer, entry j coming from position j (below i) or j + 1 |
| VertexWalk.Indices | plots/plot_convex_set_2.py:66 | `np.arange(n)`: n entries, entry k equal to k |
| VertexWalk.Normalize | plots/plot_convex_set_2.py:68-70 | each row and its offset times the row's scale give back the original row and offset |
| VertexWalk.ScaledRowSameHalfPlane | plots/plot_convex_set_2.py:68-70 | dividing a row and its offset by the same positive number keeps the half-plane |
| VertexWalk.NormalizeKeepsFeasible | plots/plot_convex_set_2.py:68-70 | normalisation keeps the set of points satisfying every row |
| VertexWalk.AnglesOfOthers | plots/plot_convex_set_2.py:77-80 | entry j of the angle list is the angle of row `other_indices[j]`, and every other row has an entry |
| VertexWalk.MaxNegInRowNumbers | plots/plot_convex_set_2.py:80-83 | the largest negative angle of the list is the nearest row on the negative side, in row numbers |
| VertexWalk.MinPosInRowNumbers | plots/plot_convex_set_2.py:80-83 | the smallest positive angle of the list is the nearest row on the positive side, in row numbers |
| VertexWalk.SidesInRowNumbers | plots/plot_convex_set_2.py:80-83 | a side of the angle list is empty exactly when no other row lies on that side |
| VertexWalk.SelectionInRowNumbers | plots/plot_convex_set_2.py:80-83 | the selection result, read through `other_indices`, names the nearest rows on each side, or fails exactly when a side is empty |
| VertexWalk.Neighbours | plots/plot_convex_set_2.py:75-83 | the rows it chooses exist, and it fails only with one of the two selection failures |
| VertexWalk.NeighboursNearest | plots/plot_convex_set_2.py:75-83 | the chosen rows differ from i and are the nearest on the negative and positive side, the lowest-numbered on ties; it fails exactly when a side has no row, the negative side checked first |
| VertexWalk.NeighbourTable | plots/plot_convex_set_2.py:75-83 | entry k is the neighbour choice at row k; every chosen row exists and every failure is one of the two selection failures |
| VertexWalk.Emit | plots/plot_convex_set_2.py:92-103 | the first step appends `pc` then `pa`; a later one appends `pa` when `pb` is missing or the triangle `pa, pb, pc` is not counter-clockwise, fails when `ccw` would read a missing point, and raises when it is counter-clockwise |
| VertexWalk.Step | plots/plot_convex_set_2.py:84-105 | a successful step goes on at `min_pos_index`, keeps the old vertices as a prefix and adds two vertices on the first step and one on later steps |
| VertexWalk.Walk | plots/plot_convex_set_2.py:73-105 | `steps` iterations from row i, each a `Step` with the table's choice, stopping at the first failure; a successful walk keeps the vertices it started with as a prefix |
| VertexWalk.WalkUnfold | plots/plot_convex_set_2.py:73-105 | a walk is its first step followed by the rest of the walk from the row that step chose |
| VertexWalk.WalkDone | plots/plot_convex_set_2.py:73-106 | a walk with no iterations left returns the vertices collected so far |
| VertexWalk.WalkStops | plots/plot_convex_set_2.py:73-106 | a walk whose first step fails fails with the same error |
| VertexWalk.WalkLength | plots/plot_convex_set_2.py:73-106 | a successful walk keeps the vertices it started with and adds one per step, plus one for a start from an empty list |
| VertexWalk.WalkFailures | plots/plot_convex_set_2.py:73-106 | the walk fails only for four reasons: no row on the negative side, no row on the positive side, a missing point given to `ccw`, or the raise of line 103 |
| VertexWalk.WalkNeedsThreeRows | plots/plot_convex_set_2.py:75-83 | a walk that takes a step and succeeds needs at least three rows |
| VertexWalk.Vertices | plots/plot_convex_set_2.py:59-106 | the outcome of `find_vertices` on the normalised system, the walk of n iterations from row 0; on success it has n + 1 vertices, none for n = 0 |
| VertexWalk.VerticesShape | plots/plot_convex_set_2.py:59-106 | a successful walk over n > 0 rows returns n + 1 vertices and needs n >= 3; no rows give none |
| VertexWalk.SelectNeighbours | plots/plot_convex_set_2.py:75-83 | the loop's selection computes exactly the neighbour rule of row i |
| VertexWalk.Advance | plots/plot_convex_set_2.py:84-105 | the loop's intersection and emission code computes exactly one step of the walk |
| VertexWalk.Iterate | plots/plot_convex_set_2.py:74-105 | one iteration of the loop body: a failure is the failure of the walk from the current row, and otherwise the walk from the current row equals the walk, one iteration shorter, from the row it moves to |
| VertexWalk.WalkRows | plots/plot_convex_set_2.py:71-106 | the loop over n iterations produces exactly the walk from row 0 with no vertices, neighbours taken from a table that agrees with the neighbour rule at every row |
| VertexWalk.FindVertices | plots/plot_convex_set_2.py:59-106 | `find_vertices` returns n + 1 vertices (none for n = 0) and needs n >= 3 when it succeeds, and it fails only in the four ways of the walk |
| BoundingBox.Stack | plots/plot_convex_set_2.py:135-136 | `np.vstack` of two systems: the lengths add up, the result is well formed when both parts are, and the upper part is kept as a prefix |
| BoundingBox.BoundRow | plots/plot_convex_set_2.py:119-130 | the row one bound adds: one row with the given normal when the bound is given, none otherwise |
| BoundingBox.BoxRows | plots/plot_convex_set_2.py:117-130 | the rows of all bounds: one per given bound, well formed |
| BoundingBox.StackRow | plots/plot_convex_set_2.py:135-136 | row k of a stacked system comes from the upper part below its length, otherwise from the lower part |
| BoundingBox.BoxRowsShape | plots/plot_convex_set_2.py:117-130 | one bound row per given bound, each with an axis direction as its normal |
| BoundingBox.BoxRowsOrder | plots/plot_convex_set_2.py:119-130 | the bound rows come in the order xmin, xmax, ymin, ymax, with normals (-1,0), (1,0), (0,-1), (0,1) and offsets -xmin, xmax, -ymin, ymax |
| BoundingBox.FeasibleStack | plots/plot_convex_set_2.py:135-136 | a point satisfies a stacked system iff it satisfies both parts |
| BoundingBox.BoundRowFeasible | plots/plot_convex_set_2.py:119-130 | a given bound's row holds exactly where `normal . p <= sign * bound`; a missing bound adds nothing |
| BoundingBox.XBoundRowsHold | plots/plot_convex_set_2.py:119-124 | the `xmin` row holds exactly where `xmin <= x`, the `xmax` row exactly where `x <= xmax`; an absent bound adds no row and excludes nothing |
| BoundingBox.YBoundRowsHold | plots/plot_convex_set_2.py:125-130 | the `ymin` row holds exactly where `ymin <= y`, the `ymax` row exactly where `y <= ymax`; an absent bound adds no row and excludes nothing |
| BoundingBox.BoxRowsFeasible | plots/plot_convex_set_2.py:117-130 | the bound rows hold exactly inside the box |
| BoundingBox.CollectBoundRows | plots/plot_convex_set_2.py:117-130 | the appends of the four `if` blocks produce exactly the box rows, one per given bound |
| BoundingBox.AugmentConstraints | plots/plot_convex_set_2.py:114-136 | fails iff no bound is given; otherwise `n + k` rows (k the number of bounds), the first n being `A`/`b` unchanged, and the points it accepts are those of `A x <= b` inside the box |
| BoundingBox.ConvexSetNodes | plots/plot_convex_set_2.py:109-138 | fails with `NoBounds` iff no bound is given; otherwise it is the walk over the normalised augmented system, and a result has n + k + 1 vertices with n + k >= 3 |

## Left out

- Plotting: the matplotlib calls of lines 139-144 and the demonstration at lines 147-154 are not modelled.
- `np.arctan2` (lines 52-53) is transcendental. It is the parameter `heading`, and only the wrap arithmetic of line 55 is modelled.
- `np.linalg.norm` (line 68) needs a square root. It is the parameter `norm`, required to be positive on every row. A zero row, which gives `nan` in the code, is excluded by that precondition.
- Floating point: every quantity is an exact real. Rounding in `inv(A) @ b`, in the division by the norms and in the 1e-6 cut-off is not captured. `inv` is replaced by Cramer's rule, which gives the same point over the reals.
- The shape assertions of lines 36, 40, 63, 65, 79 and 115 are preconditions or follow from the types (`Point` has two entries; `|b| == |A|`).
- Geometric correctness (that the vertices bound the feasible polygon) is not claimed. The code never checks it, and it depends on the ordering that `arctan2` gives.
- `gradient_methods/projection_problem_with_conditional_gradient.py`, `network/geopandas/plot_network.py` and `plot_convex_set/plot_convex_set_3.py` are not part of this model. They are library glue around scipy, networkx, geopandas and pypoman. Of `plot_convex_set/plot_convex_set_1.py` only the feasibility test is used, as `Planar.Feasible`.
- Update in place: the walk's `vertices += [...]` is modelled as reassigning a sequence, since the list has no other alias.
