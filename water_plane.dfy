/**
 * `WaterPlane.create(withSideLength:segmentCount:)`: the bound guard, the
 * vertex pass, the index pass and the `UInt16` arithmetic on the way.
 *
 * The source builds two arrays by appending inside nested loops; here each
 * pass is a method with a sequence accumulator, proved against the pure
 * description in module `Grid`. Every `UInt16` operation that can trap is
 * either checked first (and the trap modelled as an `Aborted` outcome) or carries a
 * proof that it cannot overflow.
 */
module WaterPlane {
  import opened Word16
  import opened Grid

  /** Why `create` stops without producing any geometry. */
  datatype Abort =
    | SquareOverflow    // `segmentCount * segmentCount` in the guard traps
    | TooManySegments   // the guard's own `fatalError("Too many segments.")`
    | CapacityOverflow  // `segmentCount * segmentCount * 3` for the capacity hint traps

  /** The generated tile: vertex positions and triangle-list indices into them. */
  datatype Mesh = Mesh(vertices: seq<Vector3>, indices: seq<u16>)

  datatype Outcome = Aborted(reason: Abort) | Created(mesh: Mesh)

  /** `m` is exactly the tile of side `sideLength` with `s` segments per side. */
  predicate IsTile(m: Mesh, sideLength: real, s: nat)
  {
    && |m.vertices| == VertexCount(s)
    && (forall k | 0 <= k < |m.vertices| :: m.vertices[k] == VertexAt(sideLength, s, k))
    && |m.indices| == IndexCount(s)
    && (forall k | 0 <= k < |m.indices| :: m.indices[k] as int == IndexAt(s, k))
  }

  // ---------------------------------------------------------------------
  // The two passes
  // ---------------------------------------------------------------------

  /**
   * The vertex pass: rows `y = 0 ... s` outside, columns `x = 0 ... s`
   * inside, one vertex `(x L/s - L/2, y L/s - L/2, 0)` appended per point.
   */
  method VertexPass(sideLength: real, segmentCount: u16) returns (vertices: seq<Vector3>)
    ensures |vertices| == VertexCount(segmentCount as nat)
    ensures forall k | 0 <= k < |vertices| :: vertices[k] == VertexAt(sideLength, segmentCount as nat, k)
  {
    var s := segmentCount as nat;
    var triangleSideLength := CellSize(sideLength, s);
    var offset := sideLength / 2.0;
    vertices := [];
    for y := 0 to s + 1
      invariant |vertices| == GridIndex(s, 0, y)
      invariant VerticesUpTo(sideLength, s, vertices)
    {
      for x := 0 to s + 1
        invariant |vertices| == GridIndex(s, x, y)
        invariant VerticesUpTo(sideLength, s, vertices)
      {
        var vertex := Vector3(x as real * triangleSideLength - offset,
                              y as real * triangleSideLength - offset,
                              0.0);
        AppendGridVertex(sideLength, s, triangleSideLength, offset, vertices, x, y);
        vertices := vertices + [vertex];
      }
      NextRow(s, y);
    }
  }

  /** Every vertex of `vs` is the one the tile has at that position. */
  predicate VerticesUpTo(sideLength: real, s: nat, vs: seq<Vector3>)
  {
    forall k | 0 <= k < |vs| :: vs[k] == VertexAt(sideLength, s, k)
  }

  /** One past the last point of row `y` is the first point of row `y + 1`. */
  lemma NextRow(s: nat, y: nat)
    ensures GridIndex(s, s + 1, y) == GridIndex(s, 0, y + 1)
  {
  }

  /** Appending the vertex of grid point `(x, y)` extends a correct prefix of the vertex array. */
  lemma AppendGridVertex(sideLength: real, s: nat, cellSize: real, offset: real, vs: seq<Vector3>, x: nat, y: nat)
    requires cellSize == CellSize(sideLength, s) && offset == sideLength / 2.0
    requires x <= s && |vs| == GridIndex(s, x, y)
    requires VerticesUpTo(sideLength, s, vs)
    ensures VerticesUpTo(sideLength, s, vs + [Vector3(x as real * cellSize - offset, y as real * cellSize - offset, 0.0)])
  {
    VertexAtGridPoint(sideLength, s, x, y);
  }

  /** With at most 255 segments every vertex number, up to `(s+1)^2 - 1`, is a `UInt16`. */
  lemma VertexCountFits(s: nat)
    requires s <= 255
    ensures VertexCount(s) <= MODULUS
  {
    MulMono(s + 1, 256, s + 1);
    MulMono(s + 1, 256, 256);
  }

  /**
   * The index pass: rows `y < s` outside, columns `x < s` inside; cell
   * `(x, y)` computes its bottom-left vertex `idx = y * s + y + x` and
   * appends `idx+1, idx+s+1, idx, idx+s+1, idx+1, idx+s+2`, all in
   * `UInt16`. None of these additions can trap while `s <= 255`.
   */
  method IndexPass(segmentCount: u16) returns (indices: seq<u16>)
    requires segmentCount <= 255
    ensures |indices| == IndexCount(segmentCount as nat)
    ensures forall k | 0 <= k < |indices| :: indices[k] as int == IndexAt(segmentCount as nat, k)
  {
    var n := segmentCount as nat;
    indices := [];
    for y: u16 := 0 to segmentCount
      invariant y as int * n <= n * n
      invariant |indices| == 6 * (y as int * n)
      invariant forall k | 0 <= k < |indices| :: indices[k] as int == IndexAt(n, k)
    {
      for x: u16 := 0 to segmentCount
        invariant y as int * n + x as int <= n * n
        invariant |indices| == 6 * (y as int * n + x as int)
        invariant forall k | 0 <= k < |indices| :: indices[k] as int == IndexAt(n, k)
      {
        CellArithmetic(segmentCount, x, y);
        var idx := Add(Add(Mul(y, segmentCount), y), x);
        var cell := [Add(idx, 1), Add(Add(idx, segmentCount), 1), idx,
                     Add(Add(idx, segmentCount), 1), Add(idx, 1), Add(Add(idx, segmentCount), 2)];
        AppendCell(n, indices, y as int * n + x as int, cell);
        indices := indices + cell;
      }
      assert y as int * n + n == (y as int + 1) * n;
    }
  }

  /**
   * For a cell `(x, y)` of a tile of at most 255 segments, the `UInt16`
   * expressions of the index pass do not trap and compute the cell's
   * bottom-left vertex `y * s + y + x` and its three other corners.
   */
  lemma CellArithmetic(s: u16, x: u16, y: u16)
    requires s <= 255 && x < s && y < s
    ensures MulFits(y, s)
    ensures AddFits(Mul(y, s), y)
    ensures AddFits(Add(Mul(y, s), y), x)
    ensures var idx := Add(Add(Mul(y, s), y), x);
      && AddFits(idx, 1) && AddFits(idx, s) && AddFits(Add(idx, s), 1) && AddFits(Add(idx, s), 2)
      && y as int * s as int + x as int < s as int * s as int
      && idx as int == CellBase(s as nat, y as int * s as int + x as int)
  {
    var n := s as nat;
    VertexCountFits(n);
    CellNumber(n, x as nat, y as nat);
    CellCornersInRange(n, y as int * n + x as int);
  }

  /** Appending cell `c`'s six indices extends a correct prefix of the index array. */
  lemma AppendCell(s: nat, indices: seq<u16>, c: nat, cell: seq<u16>)
    requires c < s * s && |indices| == 6 * c
    requires forall k | 0 <= k < |indices| :: indices[k] as int == IndexAt(s, k)
    requires |cell| == 6 && forall j | 0 <= j < 6 :: cell[j] as int == CellIndices(s, CellBase(s, c))[j]
    ensures forall k | 0 <= k < |indices + cell| :: (indices + cell)[k] as int == IndexAt(s, k)
  {
    forall k | |indices| <= k < |indices| + 6
      ensures (indices + cell)[k] as int == IndexAt(s, k)
    {
      CellSlot(s, c, k - 6 * c);
    }
  }

  // ---------------------------------------------------------------------
  // `create` as written
  // ---------------------------------------------------------------------

  /**
   * `create` as the source has it. The guard's multiplication traps for
   * `s >= 256`, so its `fatalError` never runs; counts 148 to 255 pass the
   * guard and then trap computing the capacity hint `s * s * 3`; every
   * count up to 147, 0 included, yields exactly the tile.
   */
  method Create(sideLength: real, segmentCount: u16) returns (r: Outcome)
    ensures r == Aborted(SquareOverflow) <==> segmentCount >= 256
    ensures r == Aborted(CapacityOverflow) <==> 148 <= segmentCount < 256
    ensures r.Created? <==> segmentCount < 148
    ensures r.Created? ==> IsTile(r.mesh, sideLength, segmentCount as nat)
    ensures segmentCount == 0 ==> r == Created(Mesh([Vector3(-sideLength / 2.0, -sideLength / 2.0, 0.0)], []))
  {
    SquareFits(segmentCount);
    if !MulFits(segmentCount, segmentCount) {
      return Aborted(SquareOverflow);
    }
    GuardNeverFatal(segmentCount);
    if !(Mul(segmentCount, segmentCount) < 65535) {
      return Aborted(TooManySegments);
    }
    CapacityFits(segmentCount);
    if !MulFits(Mul(segmentCount, segmentCount), 3) {
      return Aborted(CapacityOverflow);
    }
    var vertices := VertexPass(sideLength, segmentCount);
    var indices := IndexPass(segmentCount);
    r := Created(Mesh(vertices, indices));
    if segmentCount == 0 {
      assert vertices == [Vector3(-sideLength / 2.0, -sideLength / 2.0, 0.0)];
    }
  }

  /** The guard's product fits `UInt16` exactly for the counts 0 to 255. */
  lemma SquareFits(s: u16)
    ensures MulFits(s, s) <==> s <= 255
  {
    var n := s as nat;
    if n <= 255 {
      MulMono(n, 255, n);
      MulMono(n, 255, 255);
    } else {
      MulMono(256, n, n);
      MulMono(256, n, 256);
    }
  }

  /**
   * When the guard's product does not trap it is below 65535: no square
   * equals 65535, so the `fatalError` branch is dead.
   */
  lemma GuardNeverFatal(s: u16)
    requires MulFits(s, s)
    ensures Mul(s, s) < 65535
  {
    SquareFits(s);
    MulMono(s as nat, 255, s as nat);
    MulMono(s as nat, 255, 255);
  }

  /** For a count that passed the guard, `s * s * 3` fits `UInt16` exactly when `s <= 147`. */
  lemma CapacityFits(s: u16)
    requires MulFits(s, s)
    ensures MulFits(Mul(s, s), 3) <==> s <= 147
  {
    var n := s as nat;
    if n <= 147 {
      MulMono(n, 147, n);
      MulMono(n, 147, 147);
    } else {
      MulMono(148, n, n);
      MulMono(148, n, 148);
    }
  }

  /** Counts 148 to 255 pass the guard and still trap at the capacity hint; 148 is the first. */
  lemma CapacityTrapsAcceptedCount()
    ensures MulFits(148, 148) && Mul(148, 148) < 65535
    ensures !MulFits(Mul(148, 148), 3)
    ensures MulFits(147, 147) && MulFits(Mul(147, 147), 3)
  {
  }

  // ---------------------------------------------------------------------
  // `create` as evidently intended
  // ---------------------------------------------------------------------

  /**
   * `create` with the bound checked as intended: the square is compared in
   * a wider type, so the guard itself rejects every count whose square
   * reaches 65535, and no capacity hint can trap. Every count the guard
   * accepts, 0 to 255, yields exactly the tile.
   */
  method CreateIntended(sideLength: real, segmentCount: u16) returns (r: Outcome)
    ensures r == Aborted(TooManySegments) <==> segmentCount >= 256
    ensures r.Created? <==> segmentCount <= 255
    ensures r.Created? ==> IsTile(r.mesh, sideLength, segmentCount as nat)
  {
    SquareFits(segmentCount);
    if !(segmentCount as int * segmentCount as int < 65535) {
      return Aborted(TooManySegments);
    }
    var vertices := VertexPass(sideLength, segmentCount);
    var indices := IndexPass(segmentCount);
    r := Created(Mesh(vertices, indices));
  }
}
