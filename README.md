# LowPolyWater water tile, modelled in Dafny

LowPolyWater is an iOS demo that draws an animated low-poly sea under a boat.
Its one piece of algorithmic code is `WaterPlane.create(withSideLength:segmentCount:)`.
This function builds the mesh of one square water tile. Given a side length `L` and a
segment count `s` (a `UInt16`), it:

- checks that `s * s < 65535`, so that vertex numbers fit the 16-bit index type;
- appends the `(s+1) x (s+1)` grid of vertices `(x L/s - L/2, y L/s - L/2, 0)`, row by row (`y` slowest);
- appends six `UInt16` indices per grid cell, forming two triangles with a fixed winding;
- hands both arrays to SceneKit.

The project models this function and proves what it produces.

- `word16.dfy` (module `Word16`): Swift's `UInt16` as a newtype. Swift traps on overflow
  instead of wrapping. So every addition and multiplication either carries a proof that it
  fits, or is first checked with `AddFits`/`MulFits`, and the trap becomes an outcome.
- `grid.dfy` (module `Grid`): the tile as a specification. `VertexAt(L, s, k)` is the vertex
  at position `k`, and `IndexAt(s, k)` is the index at position `k`. The module also holds
  lemmas on coordinates, index ranges, the corners of each cell and the winding.
- `water_plane.dfy` (module `WaterPlane`): `create` itself, as the method `Create`. Its two
  nested-loop passes are `VertexPass` and `IndexPass`, each proved against `Grid` by loop
  invariants. The module also proves which segment counts trap where, and gives the
  corrected `CreateIntended` (see Findings).
- `tiling.dfy` (module `Tiling`): the triangles tile the square without cracks. A grid edge
  inside the tile belongs to exactly two triangles, an edge on its border to exactly one.
  Each cell's diagonal belongs to exactly that cell's two triangles.

Three points about the code that the model makes explicit:

- The guard reads as if it rejected `s * s >= 65535` through `fatalError`. In fact its
  own `UInt16` product traps for `s >= 256`, and every square that survives the product
  is at most 65025, so the `fatalError` can never run. Counts 148 to 255 pass the guard
  and then trap at line 27.
- The code checks neither `s >= 1` nor the sign of `L`. The model accepts `s = 0`,
  which gives one vertex and no indices, and accepts any real `L`.
- The first triangle of cell `(x, y)` is `(idx + 1, idx + s + 1, idx)` with
  `idx = y (s+1) + x`; the top-right corner `idx + s + 2` belongs only to the second
  triangle `(idx + s + 1, idx + 1, idx + s + 2)`.

## Model

| member | source | states |
|---|---|---|
| `WaterPlane.Create` | LowPolyWater/WaterPlane.swift:15-56 | counts `s >= 256` abort at the guard's multiplication; counts 148 to 255 abort at the capacity hint; the `fatalError` outcome never occurs; every `s <= 147` yields exactly the tile (`IsTile`: `(s+1)^2` vertices, entry `k` is `VertexAt`; `6 s^2` indices, entry `k` is `IndexAt`); `s = 0` yields the single vertex `(-L/2, -L/2, 0)` and no indices |
| `WaterPlane.VertexPass` | LowPolyWater/WaterPlane.swift:21-36 | the vertex loop appends exactly `(s+1)^2` vertices, and vertex `k` is that of grid point `(k mod (s+1), k div (s+1))` |
| `WaterPlane.IndexPass` | LowPolyWater/WaterPlane.swift:38-50 | for `s <= 255` the index loop appends exactly `6 s^2` indices, index `k` is `IndexAt(s, k)`, and none of its `UInt16` operations traps |
| `WaterPlane.CellArithmetic` | LowPolyWater/WaterPlane.swift:40-48 | for a cell `(x, y)` with `s <= 255`, `y * s`, `+ y`, `+ x`, `idx + 1`, `idx + s`, `+ 1` and `+ 2` all fit `UInt16`, and `idx` is the cell's bottom-left vertex `y (s+1) + x` |
| `WaterPlane.VertexCountFits` | LowPolyWater/WaterPlane.swift:40-48 | for `s <= 255` the vertex count `(s+1)^2` is at most 65536, so every vertex number is a `UInt16` |
| `WaterPlane.SquareFits` | LowPolyWater/WaterPlane.swift:17 | the guard's `s * s` does not trap iff `s <= 255` |
| `WaterPlane.GuardNeverFatal` | LowPolyWater/WaterPlane.swift:17-19 | whenever `s * s` does not trap, it is below 65535, so the guard always passes and `fatalError` cannot run |
| `WaterPlane.CapacityFits` | LowPolyWater/WaterPlane.swift:27 | for a count that passed the guard, `s * s * 3` fits `UInt16` iff `s <= 147` |
| `WaterPlane.CapacityTrapsAcceptedCount` | LowPolyWater/WaterPlane.swift:17-27 | 148 passes the guard and then traps at the capacity hint; 147 does not trap |
| `WaterPlane.CreateIntended` | LowPolyWater/WaterPlane.swift:15-56 | with the bound compared in a wider type and no trapping hint: aborts with "too many segments" iff `s >= 256`, and yields exactly the tile for every `s <= 255` |
| `WaterPlane.AppendGridVertex` | LowPolyWater/WaterPlane.swift:31-34 | appending the vertex of grid point `(x, y)` at position `y (s+1) + x` keeps the vertex array a correct prefix |
| `WaterPlane.AppendCell` | LowPolyWater/WaterPlane.swift:42-48 | appending cell `c`'s six indices at position `6c` keeps the index array a correct prefix |
| `Grid.GridIndexInverse` | LowPolyWater/WaterPlane.swift:29-36 | grid point `(x, y)`, `x <= s`, is stored at position `y (s+1) + x`, whose column is `x` and row is `y` |
| `Grid.GridIndexOfPosition` | LowPolyWater/WaterPlane.swift:29-36 | every position below `(s+1)^2` holds a grid point with column and row in `0..s`, and is that point's position |
| `Grid.GridIndexInRange` | LowPolyWater/WaterPlane.swift:29-36 | every grid point with `x, y <= s` is stored below `(s+1)^2` |
| `Grid.VertexAtGridPoint` | LowPolyWater/WaterPlane.swift:21-33 | the vertex of grid point `(x, y)` is `(x L/s - L/2, y L/s - L/2, 0)` |
| `Grid.CoordinateRange` | LowPolyWater/WaterPlane.swift:21-33 | for `s > 0` and `L >= 0`, grid line `i <= s` lies in `[-L/2, L/2]`; line 0 is at `-L/2`, line `s` at `L/2` |
| `Grid.CoordinateExtremes` | LowPolyWater/WaterPlane.swift:21-33 | for `L > 0`, a grid line is at `-L/2` iff it is line 0, and at `L/2` iff it is line `s` |
| `Grid.VertexBounds` | LowPolyWater/WaterPlane.swift:21-36 | for `s > 0` and `L >= 0`, every vertex lies in `[-L/2, L/2]^2` at height 0; the first vertex is `(-L/2, -L/2, 0)` and the last is `(L/2, L/2, 0)` |
| `Grid.CellNumber` | LowPolyWater/WaterPlane.swift:38-40 | cell `(x, y)` is cell number `y s + x < s^2`, with bottom-left corner `y (s+1) + x` |
| `Grid.CellSlot` | LowPolyWater/WaterPlane.swift:38-50 | the six indices of cell `c` sit at positions `6c` to `6c+5`, in the emitted order |
| `Grid.CellCornersInRange` | LowPolyWater/WaterPlane.swift:40-48 | a cell's largest index `idx + s + 2` is below `(s+1)^2`, and equals `(s+1)^2 - 1` for the last cell |
| `Grid.CellCornerPoints` | LowPolyWater/WaterPlane.swift:40-48 | `idx`, `idx+1`, `idx+s+1`, `idx+s+2` are the grid points `(x, y)`, `(x+1, y)`, `(x, y+1)`, `(x+1, y+1)` |
| `Grid.IndexInRange` | LowPolyWater/WaterPlane.swift:40-48 | every emitted index is below the vertex count `(s+1)^2`, and the last one is `(s+1)^2 - 1` |
| `Grid.CellIndicesCorners` | LowPolyWater/WaterPlane.swift:42-48 | the six emitted values, read as two triangles, cover the corners `{idx, idx+1, idx+s+1, idx+s+2}`; they share exactly `{idx+1, idx+s+1}`, and each has three distinct corners |
| `Grid.CellTriangles` | LowPolyWater/WaterPlane.swift:42-48 | the same, for the two triangles of cell `c` as they stand in the index array |
| `Grid.CellWinding` | LowPolyWater/WaterPlane.swift:42-48 | both triangles of a cell run counter-clockwise on the grid with twice-area 1 |
| `Grid.TriangleWinding` | LowPolyWater/WaterPlane.swift:42-48 | every triangle of the index array runs counter-clockwise on the grid, so all face the same way |
| `Tiling.TriangleCell` | LowPolyWater/WaterPlane.swift:38-50 | triangle `t` is half `t mod 2` of cell `t div 2`, with corners (bottom-right, top-left, bottom-left) or (top-left, bottom-right, top-right) |
| `Tiling.HorizontalEdgeAt` | LowPolyWater/WaterPlane.swift:42-48 | triangle `t` has the edge `(x, y)`-`(x+1, y)` iff it is the first triangle of cell `(x, y)` or the second of cell `(x, y-1)` |
| `Tiling.VerticalEdgeAt` | LowPolyWater/WaterPlane.swift:42-48 | triangle `t` has the edge `(x, y)`-`(x, y+1)` iff it is the first triangle of cell `(x, y)` or the second of cell `(x-1, y)` |
| `Tiling.DiagonalEdgeAt` | LowPolyWater/WaterPlane.swift:42-48 | triangle `t` has the diagonal `(x+1, y)`-`(x, y+1)` iff it is one of cell `(x, y)`'s two triangles |
| `Tiling.CrossDiagonalAt` | LowPolyWater/WaterPlane.swift:42-48 | no triangle has the other diagonal `(x, y)`-`(x+1, y+1)` |
| `Tiling.HorizontalEdge` | LowPolyWater/WaterPlane.swift:38-50 | a horizontal grid edge belongs to exactly two triangles inside the tile, and to exactly one on the bottom or top border |
| `Tiling.HorizontalEdgeSet` | LowPolyWater/WaterPlane.swift:38-50 | the set of triangles with a given horizontal edge is exactly the named one or two |
| `Tiling.VerticalEdgeSet` | LowPolyWater/WaterPlane.swift:38-50 | the set of triangles with a given vertical edge is exactly the named one or two |
| `Tiling.VerticalEdge` | LowPolyWater/WaterPlane.swift:38-50 | a vertical grid edge belongs to exactly two triangles inside the tile, and to exactly one on the left or right border |
| `Tiling.DiagonalEdges` | LowPolyWater/WaterPlane.swift:38-50 | a cell's bottom-right to top-left diagonal belongs to exactly its two triangles; its other diagonal belongs to none |

## Left out

- `LowPolyWater/ViewController.swift` is not part of this model. It covers slider actions, shader uniforms, scene, camera and boat set-up, tile placement and animations, all of which run through UIKit and SceneKit objects.
- The `SCNGeometrySource`/`SCNGeometryElement`/`SCNGeometry` construction (lines 52-55) is a foreign SceneKit call. `Create` returns the vertex and index sequences instead.
- `SCNFloat` arithmetic: coordinates are exact reals, so rounding is not modelled.
- `WaterPlane.VertexPass`: with `s = 0` the source divides by zero in floating point (line 21). The single vertex's `x` and `y` are then NaN. Over reals there is no NaN, so the model takes the cell size to be 0 there and gives that vertex `(-L/2, -L/2, 0)`. Every other count is modelled exactly.
- `WaterPlane.Create`: the `s = 0` vertex is modelled as above rather than as NaN.
- The `reserveCapacity` call (line 27) is modelled only for its trapping multiplication. The capacity it requests, `3 s^2`, half of the `6 s^2` indices, has no effect on the result.
- The traps modelled here are those of Swift's overflow-checked arithmetic, which debug (`-Onone`) and release (`-O`) builds keep. A build with `-Ounchecked` removes the checks, and there the overflowing products wrap or are undefined; the model does not cover such builds.
- A trap and `fatalError` both end the process. The model returns them as `Aborted` outcomes naming the cause. The message text is not modelled.
- The vertex loop's `UInt16` counters do no arithmetic that can trap, so `VertexPass` counts with unbounded naturals.
- Repeated calls give identical results, and calls can run concurrently. Both hold for any Dafny method without shared state, so neither is stated separately.
- The bounding-box lemmas (`Grid.CoordinateRange`, `Grid.VertexBounds`) assume `L >= 0`. The source does not check the sign of `L`; for negative `L` the same box holds with its ends swapped.

## Findings

| source | as written | input that shows it | evidently intended | confidence | as-written member | corrected member |
|---|---|---|---|---|---|---|
| LowPolyWater/WaterPlane.swift:27 | the capacity hint `segmentCount * segmentCount * 3` is computed in `UInt16` and traps for every count from 148 to 255, which the guard accepts | `segmentCount = 148`: `148 * 148 = 21904 < 65535` passes the guard, and `21904 * 3 = 65712 > 65535` traps | every count the guard accepts (0 to 255) yields a tile, with the hint computed in a wider type | not executed; high | `WaterPlane.CapacityTrapsAcceptedCount` | `WaterPlane.CreateIntended` |
| LowPolyWater/WaterPlane.swift:17-18 | the bound `segmentCount * segmentCount < 65535` is computed in `UInt16`, so for `s >= 256` the multiplication traps before the comparison, and the `fatalError("Too many segments.")` branch can never run | `segmentCount = 256`: `256 * 256 = 65536` overflows `UInt16` | the guard itself rejects counts whose square reaches 65535, with its own message | not executed; high | `WaterPlane.GuardNeverFatal` | `WaterPlane.CreateIntended` |
