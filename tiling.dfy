/**
 * The triangles of a tile fit together without cracks: every edge of the
 * vertex grid inside the tile is an edge of exactly two triangles, every
 * edge on the tile's border of exactly one, and each cell's diagonal from
 * bottom-right to top-left of exactly its own two triangles. The other
 * diagonal is an edge of no triangle, so the two triangles of a cell do
 * not overlap.
 */
module Tiling {
  import opened Grid

  /** Triangle `t` has both vertex `a` and vertex `b` among its corners. */
  predicate HasEdge(s: nat, t: nat, a: nat, b: nat)
    requires t < 2 * (s * s)
  {
    a in Triangle(s, t) && b in Triangle(s, t)
  }

  /** The triangles of the tile that have the segment from `a` to `b` as an edge. */
  function EdgeTriangles(s: nat, a: nat, b: nat): (r: set<nat>)
  {
    set t | 0 <= t < 2 * (s * s) && HasEdge(s, t, a, b)
  }

  /** The number of triangle `h` (0 or 1) of cell `(x, y)`: cells row by row, two triangles each. */
  function TriangleOf(s: nat, x: nat, y: nat, h: nat): (r: nat)
  {
    2 * (y * s + x) + h
  }

  // ---------------------------------------------------------------------
  // Helpers: triangles as grid points
  // ---------------------------------------------------------------------

  /**
   * Triangle `t` is half `h` of cell `(x, y)`: half 0 is
   * (bottom-right, top-left, bottom-left), half 1 is
   * (top-left, bottom-right, top-right).
   */
  lemma TriangleCell(s: nat, t: nat) returns (x: nat, y: nat, h: nat)
    requires t < 2 * (s * s)
    ensures x < s && y < s && h < 2
    ensures t == TriangleOf(s, x, y, h)
    ensures Triangle(s, t) == if h == 0
      then [GridIndex(s, x + 1, y), GridIndex(s, x, y + 1), GridIndex(s, x, y)]
      else [GridIndex(s, x, y + 1), GridIndex(s, x + 1, y), GridIndex(s, x + 1, y + 1)]
  {
    var c := t / 2;
    h := t % 2;
    CellOf(s, c);
    x, y := c % s, c / s;
    CornersOnGrid(s, x, y);
    TriangleSlots(s, t);
  }

  /** The corners of the cell with bottom-left corner `(x, y)`, as array positions. */
  lemma CornersOnGrid(s: nat, x: nat, y: nat)
    ensures GridIndex(s, x, y) + 1 == GridIndex(s, x + 1, y)
    ensures GridIndex(s, x, y) + s + 1 == GridIndex(s, x, y + 1)
    ensures GridIndex(s, x, y) + s + 2 == GridIndex(s, x + 1, y + 1)
  {
    assert (y + 1) * (s + 1) == y * (s + 1) + s + 1;
  }

  /** Triangle `t` is slots `3h` to `3h + 2` of cell `t / 2`, where `h = t % 2`. */
  lemma TriangleSlots(s: nat, t: nat)
    requires t < 2 * (s * s)
    ensures 0 < s
    ensures Triangle(s, t) == if t % 2 == 0
      then [CellBase(s, t / 2) + 1, CellBase(s, t / 2) + s + 1, CellBase(s, t / 2)]
      else [CellBase(s, t / 2) + s + 1, CellBase(s, t / 2) + 1, CellBase(s, t / 2) + s + 2]
  {
    var c, h := t / 2, t % 2;
    CellOf(s, c);
    assert 3 * t == 6 * c + 3 * h;
    CellSlot(s, c, 3 * h);
    CellSlot(s, c, 3 * h + 1);
    CellSlot(s, c, 3 * h + 2);
  }

  /** Two grid points on the grid are stored at the same position only if they are the same point. */
  lemma SamePoint(s: nat, x1: nat, y1: nat, x2: nat, y2: nat)
    requires x1 <= s && x2 <= s
    ensures GridIndex(s, x1, y1) == GridIndex(s, x2, y2) <==> x1 == x2 && y1 == y2
  {
    GridIndexInverse(s, x1, y1);
    GridIndexInverse(s, x2, y2);
  }

  /** Triangle `t` is half `h` of cell `(x, y)` and of no other cell. */
  lemma SameTriangle(s: nat, x1: nat, y1: nat, h1: nat, x2: nat, y2: nat, h2: nat)
    requires x1 < s && x2 < s && h1 < 2 && h2 < 2
    ensures TriangleOf(s, x1, y1, h1) == TriangleOf(s, x2, y2, h2) <==> x1 == x2 && y1 == y2 && h1 == h2
  {
    DivMod(s, y1, x1);
    DivMod(s, y2, x2);
  }

  /** Grid point `(x, y)` is a corner of half `h` of cell `(tx, ty)` iff it is one of that half's three points. */
  lemma InTriangle(s: nat, t: nat, tx: nat, ty: nat, h: nat, x: nat, y: nat)
    requires tx < s && ty < s && h < 2 && x <= s && t < 2 * (s * s)
    requires Triangle(s, t) == if h == 0
      then [GridIndex(s, tx + 1, ty), GridIndex(s, tx, ty + 1), GridIndex(s, tx, ty)]
      else [GridIndex(s, tx, ty + 1), GridIndex(s, tx + 1, ty), GridIndex(s, tx + 1, ty + 1)]
    ensures GridIndex(s, x, y) in Triangle(s, t) <==>
      if h == 0 then (x, y) == (tx + 1, ty) || (x, y) == (tx, ty + 1) || (x, y) == (tx, ty)
      else (x, y) == (tx, ty + 1) || (x, y) == (tx + 1, ty) || (x, y) == (tx + 1, ty + 1)
  {
    SamePoint(s, x, y, tx + 1, ty);
    SamePoint(s, x, y, tx, ty + 1);
    SamePoint(s, x, y, tx, ty);
    SamePoint(s, x, y, tx + 1, ty + 1);
  }

  /** Triangle `h` of cell `(x, y)` is a triangle of the tile. */
  lemma TriangleInRange(s: nat, x: nat, y: nat, h: nat)
    requires x < s && y < s && h < 2
    ensures TriangleOf(s, x, y, h) < 2 * (s * s)
  {
    CellNumber(s, x, y);
  }

  // ---------------------------------------------------------------------
  // Edges, one triangle at a time
  // ---------------------------------------------------------------------

  /** Triangle `t` has the horizontal edge `(x, y)`-`(x+1, y)` iff it is one of the two named. */
  lemma HorizontalEdgeAt(s: nat, x: nat, y: nat, t: nat)
    requires x < s && y <= s && t < 2 * (s * s)
    ensures HasEdge(s, t, GridIndex(s, x, y), GridIndex(s, x + 1, y))
        <==> (y < s && t == TriangleOf(s, x, y, 0)) || (0 < y && t == TriangleOf(s, x, y - 1, 1))
  {
    var tx, ty, h := TriangleCell(s, t);
    InTriangle(s, t, tx, ty, h, x, y);
    InTriangle(s, t, tx, ty, h, x + 1, y);
    SameTriangle(s, tx, ty, h, x, y, 0);
    if 0 < y {
      SameTriangle(s, tx, ty, h, x, y - 1, 1);
    }
  }

  /** Triangle `t` has the vertical edge `(x, y)`-`(x, y+1)` iff it is one of the two named. */
  lemma VerticalEdgeAt(s: nat, x: nat, y: nat, t: nat)
    requires x <= s && y < s && t < 2 * (s * s)
    ensures HasEdge(s, t, GridIndex(s, x, y), GridIndex(s, x, y + 1))
        <==> (x < s && t == TriangleOf(s, x, y, 0)) || (0 < x && t == TriangleOf(s, x - 1, y, 1))
  {
    var tx, ty, h := TriangleCell(s, t);
    InTriangle(s, t, tx, ty, h, x, y);
    InTriangle(s, t, tx, ty, h, x, y + 1);
    if x < s {
      SameTriangle(s, tx, ty, h, x, y, 0);
    }
    if 0 < x {
      SameTriangle(s, tx, ty, h, x - 1, y, 1);
    }
  }

  /** Triangle `t` has the diagonal `(x+1, y)`-`(x, y+1)` of cell `(x, y)` iff it is one of the cell's two. */
  lemma DiagonalEdgeAt(s: nat, x: nat, y: nat, t: nat)
    requires x < s && y < s && t < 2 * (s * s)
    ensures HasEdge(s, t, GridIndex(s, x + 1, y), GridIndex(s, x, y + 1))
        <==> t == TriangleOf(s, x, y, 0) || t == TriangleOf(s, x, y, 1)
  {
    var tx, ty, h := TriangleCell(s, t);
    InTriangle(s, t, tx, ty, h, x + 1, y);
    InTriangle(s, t, tx, ty, h, x, y + 1);
    SameTriangle(s, tx, ty, h, x, y, 0);
    SameTriangle(s, tx, ty, h, x, y, 1);
  }

  /** No triangle has the diagonal `(x, y)`-`(x+1, y+1)` of cell `(x, y)`. */
  lemma CrossDiagonalAt(s: nat, x: nat, y: nat, t: nat)
    requires x < s && y < s && t < 2 * (s * s)
    ensures !HasEdge(s, t, GridIndex(s, x, y), GridIndex(s, x + 1, y + 1))
  {
    var tx, ty, h := TriangleCell(s, t);
    InTriangle(s, t, tx, ty, h, x, y);
    InTriangle(s, t, tx, ty, h, x + 1, y + 1);
  }

  // ---------------------------------------------------------------------
  // Edges over the whole tile
  // ---------------------------------------------------------------------

  /**
   * The horizontal grid edge from `(x, y)` to `(x+1, y)` is the bottom edge
   * of the first triangle of cell `(x, y)` (when row `y` has cells) and the
   * top edge of the second triangle of cell `(x, y-1)` (when there is a row
   * below): two triangles inside the tile, one on its bottom and top border.
   */
  lemma HorizontalEdge(s: nat, x: nat, y: nat)
    requires x < s && y <= s
    ensures var edge := EdgeTriangles(s, GridIndex(s, x, y), GridIndex(s, x + 1, y));
      && edge == (if y < s then {TriangleOf(s, x, y, 0)} else {})
               + (if 0 < y then {TriangleOf(s, x, y - 1, 1)} else {})
      && |edge| == if 0 < y < s then 2 else 1
  {
    var cellAbove: set<nat> := if y < s then {TriangleOf(s, x, y, 0)} else {};
    var cellBelow: set<nat> := if 0 < y then {TriangleOf(s, x, y - 1, 1)} else {};
    HorizontalEdgeSet(s, x, y, cellAbove, cellBelow);
    if y == 0 {
      assert cellAbove + cellBelow == cellAbove;
    } else if y == s {
      assert cellAbove + cellBelow == cellBelow;
    } else {
      OddEvenPair(s, x, y, x, y - 1);
    }
  }

  /** The first triangle of one cell and the second triangle of another are two different triangles. */
  lemma OddEvenPair(s: nat, x1: nat, y1: nat, x2: nat, y2: nat)
    ensures |{TriangleOf(s, x1, y1, 0)} + {TriangleOf(s, x2, y2, 1)}| == 2
  {
    var first, second := TriangleOf(s, x1, y1, 0), TriangleOf(s, x2, y2, 1);
    assert {first} + {second} == {first, second};
  }

  /** The set part of `HorizontalEdge`, with the two candidate sets named. */
  lemma HorizontalEdgeSet(s: nat, x: nat, y: nat, cellAbove: set<nat>, cellBelow: set<nat>)
    requires x < s && y <= s
    requires cellAbove == if y < s then {TriangleOf(s, x, y, 0)} else {}
    requires cellBelow == if 0 < y then {TriangleOf(s, x, y - 1, 1)} else {}
    ensures EdgeTriangles(s, GridIndex(s, x, y), GridIndex(s, x + 1, y)) == cellAbove + cellBelow
  {
    var a, b := GridIndex(s, x, y), GridIndex(s, x + 1, y);
    if y < s {
      TriangleInRange(s, x, y, 0);
    }
    if 0 < y {
      TriangleInRange(s, x, y - 1, 1);
    }
    forall t | 0 <= t < 2 * (s * s)
      ensures HasEdge(s, t, a, b) <==> t in cellAbove + cellBelow
    {
      HorizontalEdgeAt(s, x, y, t);
    }
  }

  /**
   * The vertical grid edge from `(x, y)` to `(x, y+1)` is the left edge of
   * the first triangle of cell `(x, y)` (when column `x` has cells) and the
   * right edge of the second triangle of cell `(x-1, y)` (when there is a
   * column to the left): two triangles inside the tile, one on its left and
   * right border.
   */
  lemma VerticalEdge(s: nat, x: nat, y: nat)
    requires x <= s && y < s
    ensures var edge := EdgeTriangles(s, GridIndex(s, x, y), GridIndex(s, x, y + 1));
      && edge == (if x < s then {TriangleOf(s, x, y, 0)} else {})
               + (if 0 < x then {TriangleOf(s, x - 1, y, 1)} else {})
      && |edge| == if 0 < x < s then 2 else 1
  {
    var cellRight: set<nat> := if x < s then {TriangleOf(s, x, y, 0)} else {};
    var cellLeft: set<nat> := if 0 < x then {TriangleOf(s, x - 1, y, 1)} else {};
    VerticalEdgeSet(s, x, y, cellRight, cellLeft);
    if x == 0 {
      assert cellRight + cellLeft == cellRight;
    } else if x == s {
      assert cellRight + cellLeft == cellLeft;
    } else {
      OddEvenPair(s, x, y, x - 1, y);
    }
  }

  /** The set part of `VerticalEdge`, with the two candidate sets named. */
  lemma VerticalEdgeSet(s: nat, x: nat, y: nat, cellRight: set<nat>, cellLeft: set<nat>)
    requires x <= s && y < s
    requires cellRight == if x < s then {TriangleOf(s, x, y, 0)} else {}
    requires cellLeft == if 0 < x then {TriangleOf(s, x - 1, y, 1)} else {}
    ensures EdgeTriangles(s, GridIndex(s, x, y), GridIndex(s, x, y + 1)) == cellRight + cellLeft
  {
    var a, b := GridIndex(s, x, y), GridIndex(s, x, y + 1);
    if x < s {
      TriangleInRange(s, x, y, 0);
    }
    if 0 < x {
      TriangleInRange(s, x - 1, y, 1);
    }
    forall t | 0 <= t < 2 * (s * s)
      ensures HasEdge(s, t, a, b) <==> t in cellRight + cellLeft
    {
      VerticalEdgeAt(s, x, y, t);
    }
  }

  /**
   * The diagonal of cell `(x, y)` from bottom-right to top-left is shared by
   * exactly the cell's two triangles; the other diagonal, from bottom-left
   * to top-right, is an edge of no triangle.
   */
  lemma DiagonalEdges(s: nat, x: nat, y: nat)
    requires x < s && y < s
    ensures EdgeTriangles(s, GridIndex(s, x + 1, y), GridIndex(s, x, y + 1))
         == {TriangleOf(s, x, y, 0), TriangleOf(s, x, y, 1)}
    ensures EdgeTriangles(s, GridIndex(s, x, y), GridIndex(s, x + 1, y + 1)) == {}
  {
    var a, b := GridIndex(s, x + 1, y), GridIndex(s, x, y + 1);
    var own: set<nat> := {TriangleOf(s, x, y, 0), TriangleOf(s, x, y, 1)};
    TriangleInRange(s, x, y, 1);
    forall t | 0 <= t < 2 * (s * s)
      ensures HasEdge(s, t, a, b) <==> t in own
    {
      DiagonalEdgeAt(s, x, y, t);
    }
    assert EdgeTriangles(s, a, b) == own;
    var c, d := GridIndex(s, x, y), GridIndex(s, x + 1, y + 1);
    forall t | 0 <= t < 2 * (s * s)
      ensures !HasEdge(s, t, c, d)
    {
      CrossDiagonalAt(s, x, y, t);
    }
  }
}
