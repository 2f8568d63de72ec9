/**
 * The water tile as a pure specification: which vertex sits at each position
 * of the vertex array and which vertex number sits at each position of the
 * index array, for a tile of side length `L` cut into `s` segments per side.
 *
 * Vertices form an `(s+1) x (s+1)` grid stored row by row (`y` slowest).
 * Each of the `s * s` cells contributes six indices: two triangles.
 */
module Grid {

  /** A vertex position in the tile's local space. */
  datatype Vector3 = Vector3(x: real, y: real, z: real)

  /** Number of vertices: `(s+1)^2`. */
  function VertexCount(s: nat): (r: nat)
  {
    (s + 1) * (s + 1)
  }

  /** Number of indices: six per cell, `s * s` cells. */
  function IndexCount(s: nat): (r: nat)
  {
    6 * (s * s)
  }

  /** Grid column of the vertex at array position `k`. */
  function Column(s: nat, k: nat): (r: nat)
  {
    k % (s + 1)
  }

  /** Grid row of the vertex at array position `k`. */
  function Row(s: nat, k: nat): (r: nat)
  {
    k / (s + 1)
  }

  /** Array position of grid point `(x, y)`: `y * (s+1) + x`. */
  function GridIndex(s: nat, x: nat, y: nat): (r: nat)
  {
    y * (s + 1) + x
  }

  /**
   * The length of one grid step, `L / s`. With no segments there is no step
   * to take: every coordinate is then column or row 0 and the step does not
   * matter, so the model uses 0.
   */
  function CellSize(sideLength: real, s: nat): (r: real)
  {
    if s == 0 then 0.0 else sideLength / s as real
  }

  /** Coordinate of grid line `i` along either axis: `i * L / s - L / 2`. */
  function Coordinate(sideLength: real, s: nat, i: nat): (r: real)
  {
    i as real * CellSize(sideLength, s) - sideLength / 2.0
  }

  /** The vertex stored at array position `k`. */
  function VertexAt(sideLength: real, s: nat, k: nat): (r: Vector3)
  {
    Vector3(Coordinate(sideLength, s, Column(s, k)), Coordinate(sideLength, s, Row(s, k)), 0.0)
  }

  /**
   * The six indices of the cell whose bottom-left corner is vertex `idx`:
   * triangle (bottom-right, top-left, bottom-left), then triangle
   * (top-left, bottom-right, top-right).
   */
  function CellIndices(s: nat, idx: nat): (r: seq<nat>)
  {
    [idx + 1, idx + s + 1, idx, idx + s + 1, idx + 1, idx + s + 2]
  }

  /**
   * The bottom-left corner of cell number `c`, cells numbered row by row:
   * cell `c` is the cell in column `c % s` and row `c / s`.
   */
  function CellBase(s: nat, c: nat): (r: nat)
    requires 0 < s
  {
    GridIndex(s, c % s, c / s)
  }

  /** The index stored at position `k` of the index array: slot `k % 6` of cell `k / 6`. */
  function IndexAt(s: nat, k: nat): (r: nat)
    requires k < IndexCount(s)
  {
    CellIndices(s, CellBase(s, k / 6))[k % 6]
  }

  /** The set of the four corners of the cell with bottom-left corner `idx`. */
  function CornerSet(s: nat, idx: nat): (r: set<nat>)
  {
    {idx, idx + 1, idx + s + 1, idx + s + 2}
  }

  /** The vertices of triangle number `t` (indices `3t`, `3t+1`, `3t+2`). */
  function Triangle(s: nat, t: nat): (r: seq<nat>)
    requires t < 2 * (s * s)
  {
    assert 3 * t + 2 < IndexCount(s);
    [IndexAt(s, 3 * t), IndexAt(s, 3 * t + 1), IndexAt(s, 3 * t + 2)]
  }

  /**
   * Twice the signed area of the triangle `a, b, c` drawn on the integer
   * grid (columns to the right, rows upward): positive iff the vertices are
   * listed counter-clockwise.
   */
  function Orientation(s: nat, a: nat, b: nat, c: nat): (r: int)
  {
    (Column(s, b) - Column(s, a)) * (Row(s, c) - Row(s, a))
    - (Row(s, b) - Row(s, a)) * (Column(s, c) - Column(s, a))
  }

  // ---------------------------------------------------------------------
  // Arithmetic helpers
  // ---------------------------------------------------------------------

  /** Division by `n` undoes `q * n + r` when `r < n`. */
  lemma DivMod(n: nat, q: nat, r: nat)
    requires r < n
    ensures (q * n + r) / n == q
    ensures (q * n + r) % n == r
  {
    var k := q * n + r;
    var q', r' := k / n, k % n;
    assert k == q' * n + r';
    if q' < q {
      MulAtLeast(q - q', n);
    } else if q' > q {
      MulAtLeast(q' - q, n);
    }
  }

  lemma MulAtLeast(a: nat, n: nat)
    requires a >= 1
    ensures a * n >= n
  {
  }

  lemma MulMono(a: nat, b: nat, n: nat)
    requires a <= b
    ensures a * n <= b * n
  {
  }

  /** `a * n < b * n` only when `a < b`. */
  lemma MulLessCancel(a: nat, b: nat, n: nat)
    requires a * n < b * n
    ensures a < b
  {
    if b <= a {
      MulMono(b, a, n);
    }
  }

  /** A cell number below `s * s` splits into a column and a row, both below `s`. */
  lemma CellOf(s: nat, c: nat)
    requires c < s * s
    ensures 0 < s
    ensures c % s < s && c / s < s
    ensures c == (c / s) * s + c % s
  {
    MulLessCancel(c / s, s, s);
  }

  // ---------------------------------------------------------------------
  // The vertex array
  // ---------------------------------------------------------------------

  /** Grid point `(x, y)` is stored at a position whose column is `x` and row is `y`. */
  lemma GridIndexInverse(s: nat, x: nat, y: nat)
    requires x <= s
    ensures Column(s, GridIndex(s, x, y)) == x
    ensures Row(s, GridIndex(s, x, y)) == y
  {
    DivMod(s + 1, y, x);
  }

  /** Every array position is the position of its own grid point, and that point lies on the grid. */
  lemma GridIndexOfPosition(s: nat, k: nat)
    requires k < VertexCount(s)
    ensures Column(s, k) <= s && Row(s, k) <= s
    ensures GridIndex(s, Column(s, k), Row(s, k)) == k
  {
    MulLessCancel(Row(s, k), s + 1, s + 1);
  }

  /** Grid points on the grid are stored inside the vertex array. */
  lemma GridIndexInRange(s: nat, x: nat, y: nat)
    requires x <= s && y <= s
    ensures GridIndex(s, x, y) < VertexCount(s)
  {
    MulMono(y, s, s + 1);
  }

  /** The vertex stored for grid point `(x, y)` is `(x L/s - L/2, y L/s - L/2, 0)`. */
  lemma VertexAtGridPoint(sideLength: real, s: nat, x: nat, y: nat)
    requires x <= s
    ensures VertexAt(sideLength, s, GridIndex(s, x, y))
         == Vector3(x as real * CellSize(sideLength, s) - sideLength / 2.0,
                    y as real * CellSize(sideLength, s) - sideLength / 2.0,
                    0.0)
  {
    GridIndexInverse(s, x, y);
  }

  /** Grid line `i` of `s > 0` lies between `-L/2` and `L/2`; lines 0 and `s` are the two ends. */
  lemma CoordinateRange(sideLength: real, s: nat, i: nat)
    requires 0 < s && i <= s && 0.0 <= sideLength
    ensures -sideLength / 2.0 <= Coordinate(sideLength, s, i) <= sideLength / 2.0
    ensures Coordinate(sideLength, s, 0) == -sideLength / 2.0
    ensures Coordinate(sideLength, s, s) == sideLength / 2.0
  {
    var c := sideLength / s as real;
    assert s as real * c == sideLength;
    assert 0.0 <= c;
    assert i as real * c <= s as real * c by {
      assert (s - i) as real * c >= 0.0;
    }
  }

  /** For a tile of positive size, only lines 0 and `s` reach the ends `-L/2` and `L/2`. */
  lemma CoordinateExtremes(sideLength: real, s: nat, i: nat)
    requires 0 < s && i <= s && 0.0 < sideLength
    ensures Coordinate(sideLength, s, i) == -sideLength / 2.0 <==> i == 0
    ensures Coordinate(sideLength, s, i) == sideLength / 2.0 <==> i == s
  {
    var c := sideLength / s as real;
    assert s as real * c == sideLength;
    assert 0.0 < c;
    if i > 0 {
      assert i as real * c > 0.0;
    }
    if i < s {
      assert (s - i) as real * c > 0.0;
    }
  }

  /**
   * Bounding box: for `s > 0` every vertex lies in `[-L/2, L/2]` on both
   * axes and at height 0, the first vertex is the corner `(-L/2, -L/2)` and
   * the last is the corner `(L/2, L/2)`.
   */
  lemma VertexBounds(sideLength: real, s: nat, k: nat)
    requires 0 < s && k < VertexCount(s) && 0.0 <= sideLength
    ensures -sideLength / 2.0 <= VertexAt(sideLength, s, k).x <= sideLength / 2.0
    ensures -sideLength / 2.0 <= VertexAt(sideLength, s, k).y <= sideLength / 2.0
    ensures VertexAt(sideLength, s, k).z == 0.0
    ensures VertexAt(sideLength, s, 0) == Vector3(-sideLength / 2.0, -sideLength / 2.0, 0.0)
    ensures VertexAt(sideLength, s, VertexCount(s) - 1) == Vector3(sideLength / 2.0, sideLength / 2.0, 0.0)
  {
    GridIndexOfPosition(s, k);
    CoordinateRange(sideLength, s, Column(s, k));
    CoordinateRange(sideLength, s, Row(s, k));
    GridIndexInverse(s, 0, 0);
    assert VertexCount(s) - 1 == GridIndex(s, s, s);
    GridIndexInverse(s, s, s);
  }

  // ---------------------------------------------------------------------
  // The index array
  // ---------------------------------------------------------------------

  /** Cell `(x, y)` is cell number `y s + x`. */
  lemma CellNumber(s: nat, x: nat, y: nat)
    requires x < s && y < s
    ensures y * s + x < s * s
    ensures CellBase(s, y * s + x) == GridIndex(s, x, y)
  {
    MulMono(y, s - 1, s);
    assert (s - 1) * s + s == s * s;
    DivMod(s, y, x);
  }

  /** The six indices of cell `c` sit at positions `6c` to `6c + 5`, in the order of `CellIndices`. */
  lemma CellSlot(s: nat, c: nat, j: nat)
    requires c < s * s && j < 6
    ensures 6 * c + j < IndexCount(s)
    ensures IndexAt(s, 6 * c + j) == CellIndices(s, CellBase(s, c))[j]
  {
    DivMod(6, c, j);
  }

  /**
   * The largest index a cell emits is its top-right corner, `idx + s + 2`,
   * and it is a vertex of the grid: at most `(s+1)^2 - 1`, reached by the
   * last cell.
   */
  lemma CellCornersInRange(s: nat, c: nat)
    requires c < s * s
    ensures CellBase(s, c) + s + 2 < VertexCount(s)
    ensures c == s * s - 1 ==> CellBase(s, c) + s + 2 == VertexCount(s) - 1
  {
    CellOf(s, c);
    var x, y := c % s, c / s;
    assert CellBase(s, c) + s + 2 == GridIndex(s, x + 1, y + 1);
    GridIndexInRange(s, x + 1, y + 1);
    if c == s * s - 1 {
      CellNumber(s, s - 1, s - 1);
      assert (s - 1) * s + (s - 1) == s * s - 1;
    }
  }

  /** Column and row of the four corners of cell `c`. */
  lemma CellCornerPoints(s: nat, c: nat)
    requires c < s * s
    ensures var idx := CellBase(s, c);
      && Column(s, idx) == c % s && Row(s, idx) == c / s
      && Column(s, idx + 1) == c % s + 1 && Row(s, idx + 1) == c / s
      && Column(s, idx + s + 1) == c % s && Row(s, idx + s + 1) == c / s + 1
      && Column(s, idx + s + 2) == c % s + 1 && Row(s, idx + s + 2) == c / s + 1
  {
    CellOf(s, c);
    var x, y := c % s, c / s;
    var idx := GridIndex(s, x, y);
    GridIndexInverse(s, x, y);
    assert idx + 1 == GridIndex(s, x + 1, y);
    GridIndexInverse(s, x + 1, y);
    assert idx + s + 1 == GridIndex(s, x, y + 1);
    GridIndexInverse(s, x, y + 1);
    assert idx + s + 2 == GridIndex(s, x + 1, y + 1);
    GridIndexInverse(s, x + 1, y + 1);
  }

  /** Every index names a vertex: `IndexAt(s, k) < (s+1)^2`, and the last one is `(s+1)^2 - 1`. */
  lemma IndexInRange(s: nat, k: nat)
    requires k < IndexCount(s)
    ensures IndexAt(s, k) < VertexCount(s)
    ensures IndexAt(s, IndexCount(s) - 1) == VertexCount(s) - 1
  {
    DivMod(6, k / 6, k % 6);
    CellSlot(s, k / 6, k % 6);
    CellCornersInRange(s, k / 6);
    var last := s * s - 1;
    CellSlot(s, last, 5);
    CellCornersInRange(s, last);
  }

  /** The two triangles of a cell, as sets of corners, cover the four corners and share the diagonal. */
  lemma CellIndicesCorners(s: nat, idx: nat)
    requires 0 < s
    ensures var cell := CellIndices(s, idx);
      && {cell[0], cell[1], cell[2]} + {cell[3], cell[4], cell[5]} == CornerSet(s, idx)
      && {cell[0], cell[1], cell[2]} * {cell[3], cell[4], cell[5]} == {idx + 1, idx + s + 1}
      && |{cell[0], cell[1], cell[2]}| == 3 && |{cell[3], cell[4], cell[5]}| == 3
  {
  }

  /**
   * The two triangles of cell `c`: together they use exactly the cell's four
   * corners, each has three distinct corners, and they share exactly the
   * diagonal from bottom-right to top-left.
   */
  lemma CellTriangles(s: nat, c: nat)
    requires c < s * s
    ensures 6 * c + 5 < IndexCount(s)
    ensures var first := {IndexAt(s, 6 * c), IndexAt(s, 6 * c + 1), IndexAt(s, 6 * c + 2)};
      var second := {IndexAt(s, 6 * c + 3), IndexAt(s, 6 * c + 4), IndexAt(s, 6 * c + 5)};
      var idx := CellBase(s, c);
      && first + second == CornerSet(s, idx)
      && first * second == {idx + 1, idx + s + 1}
      && |first| == 3 && |second| == 3
  {
    CellOf(s, c);
    CellSlot(s, c, 0);
    CellSlot(s, c, 1);
    CellSlot(s, c, 2);
    CellSlot(s, c, 3);
    CellSlot(s, c, 4);
    CellSlot(s, c, 5);
    CellIndicesCorners(s, CellBase(s, c));
  }

  /** Both triangles of cell `c`, as listed by `CellIndices`, run counter-clockwise. */
  lemma CellWinding(s: nat, c: nat)
    requires c < s * s
    ensures var cell := CellIndices(s, CellBase(s, c));
      && Orientation(s, cell[0], cell[1], cell[2]) == 1
      && Orientation(s, cell[3], cell[4], cell[5]) == 1
  {
    CellCornerPoints(s, c);
    var idx := CellBase(s, c);
    var x, y := c % s, c / s;
    // (bottom-right, top-left, bottom-left)
    assert Orientation(s, idx + 1, idx + s + 1, idx)
        == (x - (x + 1)) * (y - y) - ((y + 1) - y) * (x - (x + 1));
    // (top-left, bottom-right, top-right)
    assert Orientation(s, idx + s + 1, idx + 1, idx + s + 2)
        == ((x + 1) - x) * ((y + 1) - (y + 1)) - (y - (y + 1)) * ((x + 1) - x);
  }

  /**
   * Winding: every triangle of the tile is listed counter-clockwise on the
   * grid (seen from `+z`) and covers half a cell, so all triangles face the
   * same way.
   */
  lemma TriangleWinding(s: nat, t: nat)
    requires t < 2 * (s * s)
    ensures var tri := Triangle(s, t); Orientation(s, tri[0], tri[1], tri[2]) == 1
  {
    var c, j := t / 2, 3 * (t % 2);
    assert 3 * t == 6 * c + j;
    CellSlot(s, c, j);
    CellSlot(s, c, j + 1);
    CellSlot(s, c, j + 2);
    CellWinding(s, c);
  }
}
