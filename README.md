# Backdrop generator, modelled in Dafny

`make_backdrop.py` turns a flat picture into a backdrop texture seen from a
fixed camera at (0.5, -2.5, 1) looking at the picture plane y = 0. There are
two modes:

- **Wall mode.** It bends a quadratic Bezier curve with control points
  (0, 0), (0.5, 1) and (1, 0); the curve runs from (0, 0) to (1, 0) and
  peaks at (0.5, 0.5). It measures the curve's length with 50 chords and picks
  parameters along the curve at equal chord-length spacing, each found by
  bisection. Every wall pixel but those of the last column is then filled
  with the source pixel the camera sees at that world point.
- **Floor mode.** It fills a square floor texture the same way, from points
  of the ground plane z = 0.

The model has four modules:

- `Errors` (errors.dfy) holds the faults that end a run:
  - a division by zero;
  - an out-of-range pixel lookup;
  - a bisection that has not met its tolerance within a bound of `fuel`
    passes. Every bisection that would hang ends this way, but so does one
    that only needs more passes, and no contract says when it happens.
- `Geometry` (geometry.dfy) holds points, `bezier` and `project_to_plane`, as pure functions over exact reals.
- `Sampling` (sampling.dfy) holds `curve_length` and the `make_ts` sampler.
  - They are methods with loops, each proved against a recursive
    specification function: `Chords` for the chord sum, `PathLength` for the
    running total.
  - `dist` is a parameter of function type. It is constrained to be
    non-negative, or, for one lemma, Euclidean.
- `Raster` (raster.dfy) holds `color_at_world_pt` and the two fills.
  - Python's `int()` is truncation toward zero.
  - The image library's `getpixel` is modelled on arrays.
  - `make_wall` and `make_floor` are methods that fill a freshly allocated
    `array2` with nested loops.

Errors are values of `Result<T> = Ok(value) | Err(fault)`; the program
itself never catches one.

The model follows what the code does, including where that is easy to misread:

- **Wall width.** It is `int(width * length)`, truncated, not rounded (make_backdrop.py:80).
- **Column and row indices.** They use `int()`, which truncates toward zero, not `floor`.
- **Last wall column.** `make_ts` yields only width - 1 parameters, so the
  last column is never written. It stays transparent, the default fill of
  `Image.new`.
- **Bisection outside its window.** The search only looks inside
  [last_t, last_t + 0.1]. Suppose that even at last_t + 0.1 the running
  total falls short of want_len by more than the tolerance. Then the search
  never meets its tolerance and loops forever; the model gives each
  bisection at most `fuel` passes, so such a search ends as `Unconverged`.
  If the shortfall there is within the tolerance, the search ends near
  last_t + 0.1.
- **Negative pixel indices.** `getpixel` does not reject every index outside
  the image: the image library reads a negative index from the far edge,
  once.
  - Every wall's top row (wz = 1) projects to height exactly 1.
  - That gives row index -1, so the wall's top row shows the source's bottom
    row (`Raster.WallTopRowReadsBottomRow`).
  - For curve points at or behind the picture plane (y >= 0, which holds for
    0 <= t <= 1), the wall's other rows stay inside the image
    (`Raster.WallLowerRowsInRange`).

## Model

| member | source | states |
|---|---|---|
| Geometry.Bezier | make_backdrop.py:13-19 | the quadratic Bezier curve starts at its first control point (t = 0) and ends at its last (t = 1) |
| Geometry.WallCurveIsParabola | make_backdrop.py:10-19 | with BEZIER_POINTS the curve is exactly (t, 2t(1 - t)) for every t |
| Geometry.WallCurveMidpoint | make_backdrop.py:10-19 | with BEZIER_POINTS, curve(0.5) == (0.5, 0.5) |
| Geometry.StraightBezier | make_backdrop.py:13-19 | with the control point halfway between the ends, the curve is the straight segment between them, traversed at constant speed |
| Geometry.ProjectToPlane | make_backdrop.py:61-68 | fails with a division by zero exactly when both points have the same depth y; otherwise the result lies on the plane y = 0, and a point already on the plane comes back unchanged |
| Geometry.ProjectionOnLine | make_backdrop.py:61-68 | the projection lies on the line of sight from the first point through the second |
| Geometry.ProjectionUnique | make_backdrop.py:61-68 | any point of that line on the plane y = 0 is the projection |
| Geometry.ProjectionIdempotent | make_backdrop.py:61-68 | projecting the projection again gives the same point |
| Sampling.ChordsNonNegative | make_backdrop.py:21-35 | with a non-negative distance, the sum of chord lengths is non-negative |
| Sampling.CurveLength | make_backdrop.py:26-35 | the returned total is the sum of the 50 chord lengths between curve(i/50) and curve((i+1)/50), and it is non-negative |
| Sampling.StraightChords | make_backdrop.py:21-35 | for a straight curve and the Euclidean distance, the first k chords add up to k/50 of the distance between the ends, so the estimate is exact at k = 50 |
| Sampling.Bisect | make_backdrop.py:44-55 | the bracket search returns t strictly inside (last_t, last_t + 0.1), its point, the step from last_pt, and a running total within the tolerance of want_len; it fails only as Unconverged; its loop keeps the bracket inside the window and halves it on every pass |
| Sampling.MakeTs | make_backdrop.py:37-59 | fails with a division by zero exactly when npoints == 0, and otherwise only as Unconverged, which needs npoints >= 2 (with npoints 1 or negative no bisection runs and nothing is yielded); on success yields exactly npoints - 1 values (none when npoints <= 1), each strictly inside the window after its predecessor, and leaves every running total within 0.1/npoints of i * length / npoints |
| Sampling.AdvancesIncreasing | make_backdrop.py:41-59 | the values `make_ts` yields are positive and strictly increasing |
| Sampling.AppendAdvances | make_backdrop.py:56-58 | appending a value inside the window after the last one keeps the sequence advancing |
| Sampling.AppendWithinTolerance | make_backdrop.py:56-59 | appending a value whose step meets its target keeps every running total within tolerance |
| Sampling.PathLengthPrefix | make_backdrop.py:57 | later samples never change the running total of earlier ones |
| Raster.Trunc | make_backdrop.py:72-73 | Python's int() on a real: the integer at most 1 away from x, toward zero |
| Raster.TruncMonotone | make_backdrop.py:72-73 | truncation keeps the order of its arguments |
| Raster.TruncInRange | make_backdrop.py:72-73 | a value truncates into [0, n) if and only if it lies in (-1, n) |
| Raster.ScaleIsProduct | make_backdrop.py:72-73 | the scaled coordinate used for pixel indices equals coordinate times image size |
| Raster.ColumnInRange | make_backdrop.py:72 | the column index is inside the image if and only if x * width lies in (-1, width) |
| Raster.RowInRange | make_backdrop.py:73 | the row index is inside the image if and only if z * height lies in (-1, height) |
| Raster.RowFlip | make_backdrop.py:73 | rows are flipped: a higher point never lands on a lower row |
| Raster.TopEdgeRow | make_backdrop.py:73 | height 1 maps to row index -1, just above the image |
| Raster.IndexInBounds | make_backdrop.py:70-74 | a projected point with x and z in [0, 1) gives indices inside the image |
| Raster.GetPixel | make_backdrop.py:74 | getpixel succeeds exactly for indices in [-size, size) on each axis; an in-range index reads that pixel, index -1 reads the last row, anything else is an IndexError |
| Raster.ColorAtWorldPt | make_backdrop.py:70-74 | fails with a division by zero exactly when the point is at the camera's depth; otherwise it is getpixel at the truncated, row-flipped indices of the projection |
| Raster.ColorInRange | make_backdrop.py:70-74 | a point whose projection lies in the unit square shows the pixel at its own column and flipped row |
| Raster.FloorProjectsIntoImage | make_backdrop.py:98-102 | every floor point in [0, 1) x [0, inf) projects into the unit square of the source |
| Raster.FloorSampleOk | make_backdrop.py:98-102 | a floor lookup never fails, unless the source has no rows, in which case it is an IndexError |
| Raster.FloorTargetsExactlyOnce | make_backdrop.py:98-103 | every cell of the square floor is written by exactly one loop pair, the row-flipped one |
| Raster.FloorOrigin | make_backdrop.py:98-102 | loop pair (0, 0) looks up the world origin (0, 0, 0) |
| Raster.MakeFloor | make_backdrop.py:93-104 | the floor is W x W; loop pair (bx, by) writes cell FloorTarget = (bx, W-1-by), which holds the lookup at (bx/W, by/W, 0); cell (bx, W-1-by) holds what the camera sees at (bx/W, by/W, 0); cell (0, W-1) holds loop pair (0, 0)'s lookup, which `Raster.FloorOrigin` shows is world point (0, 0, 0); it fails, with an IndexError, exactly when the source has columns but no rows |
| Raster.WallTopRowReadsBottomRow | make_backdrop.py:86-88 | the wall's top row projects to height 1 and row -1, so it reads the source's bottom row |
| Raster.WallLowerRowsInRange | make_backdrop.py:86-88 | every other wall row, for a curve point at or behind the picture plane, reads a source row above the bottom one |
| Raster.WallWidthBounds | make_backdrop.py:79-82 | for a curve length >= 0, the wall width is the truncation of source width times curve length, not its rounding: the largest whole number not above it |
| Raster.FillWallColumn | make_backdrop.py:86-89 | fills column bx top to bottom with the lookups along the curve at t, leaves every other column as it was, and fails only with a fault some row's lookup raises |
| Raster.MakeWall | make_backdrop.py:76-91 | the wall is int(W * length) x H; a zero width fails with a division by zero; an unconverged bisection needs a width of at least 2, so a 1-pixel wall never fails that way; each of the width - 1 sampled columns holds the lookups along the curve at its parameter; the sampled parameters advance and meet their targets; the last column stays transparent; any other failure of a non-empty wall comes from some lookup along the curve and is returned with the width - 1 sampled parameters, which advance and meet their targets |

## Left out

- The command line, the usage message and `sys.exit` (make_backdrop.py:106-108, 113-116) are left out. They are process plumbing.
- Opening, converting, allocating and saving images (make_backdrop.py:110-111, 118) are left out. The source is an `array2` of RGBA pixels, and a new canvas is a fresh `array2` filled with transparent black.
- IEEE-754 rounding and `sqrt` are left out. Arithmetic is exact over `real`, and `dist` is a parameter that is non-negative (or Euclidean for `Sampling.StraightChords`).
- Sampling.Bisect: termination is not proved, because it depends on the curve's shape and the fixed 0.1 window. Each bisection gets at most `fuel` passes and returns `Unconverged` once they are used up. Every bisection that would hang ends this way, but so does one that only needs more passes; with `fuel` 0, every `make_ts` call with npoints >= 2 fails. No contract says when `Unconverged` happens, only that it needs npoints >= 2 (`Sampling.MakeTs`) or a wall at least 2 pixels wide (`Raster.MakeWall`).
- Sampling.MakeTs: the generator's laziness is not modelled; the method returns all values at once. In the program, `make_wall` writes columns between samples. The only visible difference is which fault is reported first when both a lookup and a bisection would fail.
- Sampling.MakeTs: the values are not shown to lie in (0, 1). The program does not ensure it: each value only advances less than 0.1 past the previous one.
- Sampling.MakeTs: `last_pt` starts at (0, 0), as in the program. This equals curve(0) only for curves that start at the origin, such as the wall curve.
- The dead variable `last_total` (make_backdrop.py:28, 34) is left out.
- Sampling.CurveLength: monotonicity and convergence of the estimate as SEGMENTS grows are not proved. They need the triangle inequality and continuity of the curve, and SEGMENTS is a fixed 50 in the program.
- The end-to-end checkerboard example for a straight wall is not modelled. It rests on pixel values of a particular image, not on the algorithm.
- The variant with `height - idx` rows and a fixed `backdrop.png` output is not part of this model. It is not in make_backdrop.py.
- The rule that a negative index counts from the far edge comes from the image library's `getpixel`. That library is not part of this model, so `Raster.GetPixel` states the rule directly.
- Pixel values are copied as they are. Any mode conversion of the source is outside the model.
