/**
  The hologram mesh builder: the pixels sampled at the centres of a fixed
  grid of cells become 3D points, and every point is joined to its right,
  below, below-right and below-left neighbours by a line.

  The pixels are an abstract input (one RGBA quadruple per cell); drawing
  the photo into a canvas and reading it back is not part of this model.
*/
module Mesh {

  const GridCols: nat := 30
  const GridRows: nat := 50
  const Cells: nat := GridRows * GridCols

  /** A cell is a point of the mesh when its alpha is above this value. */
  const AlphaThreshold: int := 30

  /** Depth spans [-DepthHalfRange, DepthHalfRange]. */
  const DepthHalfRange: real := 15.0

  newtype Byte = x: int | 0 <= x < 256

  datatype Pixel = Pixel(red: Byte, green: Byte, blue: Byte, alpha: Byte)

  /** The sampled pixels, `GridRows` rows of `GridCols` cells each. */
  type Samples = seq<seq<Pixel>>

  /** The size of the stage the photo is drawn into. */
  datatype Rect = Rect(width: real, height: real)

  /** The (row, column) of a grid cell; the key of the point map. */
  datatype Cell = Cell(r: int, c: int)

  datatype Point = Point(x: real, y: real, z: real, r: int, c: int, brightness: real)

  /** A line of the mesh from `p1` to `p2`, tagged with the row it is revealed at. */
  datatype Edge = Edge(p1: Point, p2: Point, row: int)

  predicate WellFormed(g: Samples)
  {
    |g| == GridRows && forall r :: 0 <= r < |g| ==> |g[r]| == GridCols
  }

  predicate InGrid(k: Cell)
  {
    0 <= k.r < GridRows && 0 <= k.c < GridCols
  }

  /** A cell becomes a point exactly when its sampled alpha exceeds the threshold. */
  predicate ValidCell(g: Samples, k: Cell)
    requires WellFormed(g)
  {
    InGrid(k) && g[k.r][k.c].alpha as int > AlphaThreshold
  }

  function Key(p: Point): Cell
  {
    Cell(p.r, p.c)
  }

  /** The position of a cell in row-major order. */
  function Index(k: Cell): int
  {
    k.r * GridCols + k.c
  }

  function CellAt(n: nat): (k: Cell)
    ensures n < Cells ==> InGrid(k)
    ensures Index(k) == n
  {
    Cell(n / GridCols, n % GridCols)
  }

  lemma CellAtIndex(k: Cell)
    requires InGrid(k)
    ensures Index(k) >= 0 && CellAt(Index(k)) == k
  {
  }

  /** The mean of the three colour channels. */
  function Brightness(p: Pixel): (b: real)
    ensures 0.0 <= b <= 255.0
  {
    (p.red as real + p.green as real + p.blue as real) / 3.0
  }

  /** Depth grows linearly with brightness, from -15 (black) to 15 (white). */
  function Depth(brightness: real): (z: real)
    requires 0.0 <= brightness <= 255.0
    ensures -DepthHalfRange <= z <= DepthHalfRange
    ensures (z + DepthHalfRange) * 255.0 / (2.0 * DepthHalfRange) == brightness
  {
    brightness / 255.0 * 30.0 - 15.0
  }

  lemma DepthMonotone(b1: real, b2: real)
    requires 0.0 <= b1 <= b2 <= 255.0
    ensures Depth(b1) <= Depth(b2)
    ensures Depth(0.0) == -DepthHalfRange && Depth(255.0) == DepthHalfRange
  {
  }

  /** The point a valid cell becomes: centred in its cell, with y pointing up. */
  function MakePoint(g: Samples, rect: Rect, k: Cell): (p: Point)
    requires WellFormed(g) && InGrid(k)
    ensures Key(p) == k && -DepthHalfRange <= p.z <= DepthHalfRange
  {
    var cellW := rect.width / GridCols as real;
    var cellH := rect.height / GridRows as real;
    var brightness := Brightness(g[k.r][k.c]);
    Point(k.c as real * cellW - rect.width / 2.0 + cellW / 2.0,
          -(k.r as real * cellH) + rect.height / 2.0 - cellH / 2.0,
          Depth(brightness),
          k.r, k.c, brightness)
  }

  /** The points of the first `n` cells in row-major order. */
  function PointsUpTo(g: Samples, rect: Rect, n: nat): seq<Point>
    requires WellFormed(g) && n <= Cells
  {
    if n == 0 then []
    else
      var k := CellAt(n - 1);
      PointsUpTo(g, rect, n - 1) + if ValidCell(g, k) then [MakePoint(g, rect, k)] else []
  }

  /** `validPoints`: the valid cells, row by row and left to right within a row. */
  function Points(g: Samples, rect: Rect): seq<Point>
    requires WellFormed(g)
  {
    PointsUpTo(g, rect, Cells)
  }

  /** The map obtained by setting each point under its cell, in list order. */
  function KeyMap(pts: seq<Point>): (m: map<Cell, Point>)
    ensures KeyConsistent(m)
    ensures forall i :: 0 <= i < |pts| ==> Key(pts[i]) in m
  {
    if pts == [] then map[]
    else KeyMap(pts[..|pts| - 1])[Key(pts[|pts| - 1]) := pts[|pts| - 1]]
  }

  /** `pointsMap`. */
  function PointMap(g: Samples, rect: Rect): (m: map<Cell, Point>)
    requires WellFormed(g)
    ensures KeyConsistent(m)
  {
    KeyMap(Points(g, rect))
  }

  /** The line from `p` to the point under cell `k`, if there is one. */
  function MaybeEdge(p: Point, m: map<Cell, Point>, k: Cell): seq<Edge>
  {
    if k in m then [Edge(p, m[k], p.r)] else []
  }

  /** The lines point `p` starts, in the order right, below, below-right, below-left. */
  function NeighbourEdges(p: Point, m: map<Cell, Point>): (es: seq<Edge>)
    ensures |es| <= 4
    ensures forall e :: e in es ==> e.p1 == p && e.row == p.r
  {
    MaybeEdge(p, m, Cell(p.r, p.c + 1))
    + MaybeEdge(p, m, Cell(p.r + 1, p.c))
    + MaybeEdge(p, m, Cell(p.r + 1, p.c + 1))
    + MaybeEdge(p, m, Cell(p.r + 1, p.c - 1))
  }

  /** The lines of all points of `pts`, point by point. */
  function EdgesOf(pts: seq<Point>, m: map<Cell, Point>): (es: seq<Edge>)
    ensures |es| <= 4 * |pts|
  {
    if pts == [] then []
    else EdgesOf(pts[..|pts| - 1], m) + NeighbourEdges(pts[|pts| - 1], m)
  }

  /** `wireframes`: the lines the builder creates, in creation order. */
  function Wireframe(g: Samples, rect: Rect): (lines: seq<Edge>)
    requires WellFormed(g)
    ensures |lines| <= 4 * |Points(g, rect)|
  {
    EdgesOf(Points(g, rect), PointMap(g, rect))
  }

  /** The four directions a line may run in: right, below, below-right, below-left. */
  predicate Adjacent(a: Cell, b: Cell)
  {
    b == Cell(a.r, a.c + 1) || b == Cell(a.r + 1, a.c)
    || b == Cell(a.r + 1, a.c + 1) || b == Cell(a.r + 1, a.c - 1)
  }

  /** Reference definition of a mesh line, independent of the construction order. */
  predicate IsMeshEdge(g: Samples, rect: Rect, e: Edge)
    requires WellFormed(g)
  {
    && ValidCell(g, Key(e.p1)) && ValidCell(g, Key(e.p2))
    && Adjacent(Key(e.p1), Key(e.p2))
    && e.p1 == MakePoint(g, rect, Key(e.p1))
    && e.p2 == MakePoint(g, rect, Key(e.p2))
    && e.row == e.p1.r
  }

  /** Each stored point sits under its own cell. */
  predicate KeyConsistent(m: map<Cell, Point>)
  {
    forall k :: k in m ==> Key(m[k]) == k
  }

  predicate StrictlyRowMajor(pts: seq<Point>)
  {
    forall i, j :: 0 <= i < j < |pts| ==> Index(Key(pts[i])) < Index(Key(pts[j]))
  }

  // ---------------------------------------------------------------------------
  // Points

  lemma {:induction false} PointsUpToMember(g: Samples, rect: Rect, n: nat, p: Point)
    requires WellFormed(g) && n <= Cells
    ensures p in PointsUpTo(g, rect, n) <==>
            ValidCell(g, Key(p)) && Index(Key(p)) < n && p == MakePoint(g, rect, Key(p))
  {
    if n > 0 {
      PointsUpToMember(g, rect, n - 1, p);
      if ValidCell(g, Key(p)) && Index(Key(p)) == n - 1 {
        CellAtIndex(Key(p));
      }
    }
  }

  /** A cell becomes a point iff its alpha exceeds 30; the point is the one `MakePoint` gives. */
  lemma PointsMember(g: Samples, rect: Rect, p: Point)
    requires WellFormed(g)
    ensures p in Points(g, rect) <==>
            InGrid(Key(p)) && g[p.r][p.c].alpha as int > AlphaThreshold
            && p == MakePoint(g, rect, Key(p))
  {
    PointsUpToMember(g, rect, Cells, p);
  }

  lemma {:induction false} PointsUpToOrdered(g: Samples, rect: Rect, n: nat)
    requires WellFormed(g) && n <= Cells
    ensures StrictlyRowMajor(PointsUpTo(g, rect, n))
    ensures forall i :: 0 <= i < |PointsUpTo(g, rect, n)| ==>
              0 <= Index(Key(PointsUpTo(g, rect, n)[i])) < n
  {
    if n > 0 {
      PointsUpToOrdered(g, rect, n - 1);
    }
  }

  /** `validPoints` is in strict row-major order, so it has no repeated cell. */
  lemma PointsRowMajor(g: Samples, rect: Rect)
    requires WellFormed(g)
    ensures StrictlyRowMajor(Points(g, rect))
    ensures forall i, j :: 0 <= i < j < |Points(g, rect)| ==>
              Key(Points(g, rect)[i]) != Key(Points(g, rect)[j])
  {
    PointsUpToOrdered(g, rect, Cells);
  }

  lemma {:induction false} KeyMapOfPointsUpTo(g: Samples, rect: Rect, n: nat, k: Cell)
    requires WellFormed(g) && n <= Cells
    ensures k in KeyMap(PointsUpTo(g, rect, n)) <==> ValidCell(g, k) && 0 <= Index(k) < n
    ensures k in KeyMap(PointsUpTo(g, rect, n)) ==> KeyMap(PointsUpTo(g, rect, n))[k] == MakePoint(g, rect, k)
  {
    if n > 0 {
      var prev := PointsUpTo(g, rect, n - 1);
      var cell := CellAt(n - 1);
      KeyMapOfPointsUpTo(g, rect, n - 1, k);
      if InGrid(k) && Index(k) == n - 1 {
        CellAtIndex(k);
        assert k == cell;
      }
      if ValidCell(g, cell) {
        var pts := prev + [MakePoint(g, rect, cell)];
        assert pts[..|pts| - 1] == prev;
        assert KeyMap(PointsUpTo(g, rect, n)) == KeyMap(prev)[cell := MakePoint(g, rect, cell)];
      } else {
        assert PointsUpTo(g, rect, n) == prev;
      }
    }
  }

  /** `pointsMap` holds exactly the valid cells, each under its own (row, column). */
  lemma PointMapAt(g: Samples, rect: Rect, k: Cell)
    requires WellFormed(g)
    ensures k in PointMap(g, rect) <==> ValidCell(g, k)
    ensures k in PointMap(g, rect) ==> PointMap(g, rect)[k] == MakePoint(g, rect, k)
  {
    KeyMapOfPointsUpTo(g, rect, Cells, k);
  }

  // ---------------------------------------------------------------------------
  // Edges

  lemma NeighbourEdgesMember(p: Point, m: map<Cell, Point>, e: Edge)
    requires KeyConsistent(m)
    ensures e in NeighbourEdges(p, m) <==>
            e.p1 == p && e.row == p.r && Key(e.p2) in m && m[Key(e.p2)] == e.p2
            && Adjacent(Key(p), Key(e.p2))
  {
  }

  lemma NeighbourEdgesDistinct(p: Point, m: map<Cell, Point>)
    requires KeyConsistent(m)
    ensures forall i, j :: 0 <= i < j < |NeighbourEdges(p, m)| ==>
              NeighbourEdges(p, m)[i].p2 != NeighbourEdges(p, m)[j].p2
  {
  }

  lemma EdgesOfSplit(pts: seq<Point>, m: map<Cell, Point>)
    requires pts != []
    ensures EdgesOf(pts, m) == EdgesOf(pts[..|pts| - 1], m) + NeighbourEdges(pts[|pts| - 1], m)
  {
  }

  /** The point of `pts` that started line `e`. */
  lemma {:induction false} EdgeSource(pts: seq<Point>, m: map<Cell, Point>, e: Edge) returns (i: nat)
    requires e in EdgesOf(pts, m)
    ensures i < |pts| && e in NeighbourEdges(pts[i], m)
  {
    var init := pts[..|pts| - 1];
    EdgesOfSplit(pts, m);
    if e in EdgesOf(init, m) {
      i := EdgeSource(init, m, e);
      assert pts[i] == init[i];
    } else {
      i := |pts| - 1;
    }
  }

  lemma {:induction false} EdgesOfContains(pts: seq<Point>, m: map<Cell, Point>, i: nat, e: Edge)
    requires i < |pts| && e in NeighbourEdges(pts[i], m)
    ensures e in EdgesOf(pts, m)
  {
    var init := pts[..|pts| - 1];
    EdgesOfSplit(pts, m);
    if i < |pts| - 1 {
      assert init[i] == pts[i];
      EdgesOfContains(init, m, i, e);
    }
  }

  /**
    A line is created exactly between a valid cell and a valid right, below,
    below-right or below-left neighbour; never towards a cell outside the
    grid or an invalid one.
  */
  lemma WireframeEdge(g: Samples, rect: Rect, e: Edge)
    requires WellFormed(g)
    ensures e in Wireframe(g, rect) <==> IsMeshEdge(g, rect, e)
  {
    var pts := Points(g, rect);
    var m := PointMap(g, rect);
    assert KeyConsistent(PointMap(g, rect));
    PointMapAt(g, rect, Key(e.p2));
    if e in Wireframe(g, rect) {
      var i := EdgeSource(pts, m, e);
      NeighbourEdgesMember(pts[i], m, e);
      PointsMember(g, rect, pts[i]);
    }
    if IsMeshEdge(g, rect, e) {
      PointsMember(g, rect, e.p1);
      var i :| 0 <= i < |pts| && pts[i] == e.p1;
      NeighbourEdgesMember(pts[i], m, e);
      EdgesOfContains(pts, m, i, e);
    }
  }

  lemma {:induction false} EdgesOfOrdered(pts: seq<Point>, m: map<Cell, Point>)
    requires KeyConsistent(m) && StrictlyRowMajor(pts)
    ensures forall i, j :: 0 <= i <= j < |EdgesOf(pts, m)| ==>
              Index(Key(EdgesOf(pts, m)[i].p1)) <= Index(Key(EdgesOf(pts, m)[j].p1))
  {
    if pts != [] {
      var init := pts[..|pts| - 1];
      var last := pts[|pts| - 1];
      EdgesOfOrdered(init, m);
      assert pts == init + [last];
      EdgesOfStartBefore(init, last, m);
      NeighbourEdgesDistinct(last, m);
      EdgesOfSplit(pts, m);
    }
  }

  /** The lines started by the points before the last one start before it. */
  lemma EdgesOfStartBefore(init: seq<Point>, last: Point, m: map<Cell, Point>)
    requires StrictlyRowMajor(init + [last])
    ensures forall i :: 0 <= i < |EdgesOf(init, m)| ==> Index(Key(EdgesOf(init, m)[i].p1)) < Index(Key(last))
  {
    var a := EdgesOf(init, m);
    var pts := init + [last];
    forall i | 0 <= i < |a| ensures Index(Key(a[i].p1)) < Index(Key(last)) {
      var q := EdgeSource(init, m, a[i]);
      assert pts[q] == init[q] && pts[|init|] == last;
    }
  }

  lemma {:induction false} EdgesOfDistinct(pts: seq<Point>, m: map<Cell, Point>)
    requires KeyConsistent(m) && StrictlyRowMajor(pts)
    ensures forall i, j :: 0 <= i < j < |EdgesOf(pts, m)| ==>
              (EdgesOf(pts, m)[i].p1, EdgesOf(pts, m)[i].p2) != (EdgesOf(pts, m)[j].p1, EdgesOf(pts, m)[j].p2)
  {
    if pts != [] {
      var init := pts[..|pts| - 1];
      var last := pts[|pts| - 1];
      EdgesOfDistinct(init, m);
      assert pts == init + [last];
      EdgesOfStartBefore(init, last, m);
      NeighbourEdgesDistinct(last, m);
      EdgesOfSplit(pts, m);
      var a := EdgesOf(init, m);
      var b := NeighbourEdges(last, m);
      var es := EdgesOf(pts, m);
      forall i, j | 0 <= i < j < |es| ensures (es[i].p1, es[i].p2) != (es[j].p1, es[j].p2) {
        if j < |a| {
          assert es[i] == a[i] && es[j] == a[j];
        } else if i < |a| {
          assert es[i] == a[i] && es[j] == b[j - |a|];
        } else {
          assert es[i] == b[i - |a|] && es[j] == b[j - |a|];
        }
      }
    }
  }

  /** No ordered pair of points is joined twice. */
  lemma WireframeNoDuplicates(g: Samples, rect: Rect)
    requires WellFormed(g)
    ensures forall i, j :: 0 <= i < j < |Wireframe(g, rect)| ==>
              (Wireframe(g, rect)[i].p1, Wireframe(g, rect)[i].p2) != (Wireframe(g, rect)[j].p1, Wireframe(g, rect)[j].p2)
  {
    assert KeyConsistent(PointMap(g, rect));
    PointsRowMajor(g, rect);
    EdgesOfDistinct(Points(g, rect), PointMap(g, rect));
  }

  /**
    Every line carries the row of its first point, which lies in [0, GridRows),
    and rows never decrease along `wireframes`.
  */
  lemma WireframeRows(g: Samples, rect: Rect)
    requires WellFormed(g)
    ensures forall i :: 0 <= i < |Wireframe(g, rect)| ==>
              Wireframe(g, rect)[i].row == Wireframe(g, rect)[i].p1.r && 0 <= Wireframe(g, rect)[i].row < GridRows
    ensures forall i, j :: 0 <= i <= j < |Wireframe(g, rect)| ==>
              Wireframe(g, rect)[i].row <= Wireframe(g, rect)[j].row
  {
    var w := Wireframe(g, rect);
    assert KeyConsistent(PointMap(g, rect));
    PointsRowMajor(g, rect);
    EdgesOfOrdered(Points(g, rect), PointMap(g, rect));
    forall i | 0 <= i < |w| ensures w[i].row == w[i].p1.r && InGrid(Key(w[i].p1)) {
      assert w[i] in w;
      WireframeEdge(g, rect, w[i]);
    }
  }

  // ---------------------------------------------------------------------------
  // Edge count

  /** The cells a point may be joined to. */
  function NeighbourCells(k: Cell): set<Cell>
  {
    {Cell(k.r, k.c + 1), Cell(k.r + 1, k.c), Cell(k.r + 1, k.c + 1), Cell(k.r + 1, k.c - 1)}
  }

  /** The sum, over the points, of the number of their neighbours that are present. */
  function PresentNeighbours(pts: seq<Point>, m: map<Cell, Point>): nat
  {
    if pts == [] then 0
    else PresentNeighbours(pts[..|pts| - 1], m) + |NeighbourCells(Key(pts[|pts| - 1])) * m.Keys|
  }

  function Singleton(k: Cell, m: map<Cell, Point>): set<Cell>
  {
    if k in m then {k} else {}
  }

  lemma NeighbourEdgesCount(p: Point, m: map<Cell, Point>)
    ensures |NeighbourEdges(p, m)| == |NeighbourCells(Key(p)) * m.Keys|
  {
    var a, b, c, d := Cell(p.r, p.c + 1), Cell(p.r + 1, p.c), Cell(p.r + 1, p.c + 1), Cell(p.r + 1, p.c - 1);
    assert |NeighbourEdges(p, m)|
        == |MaybeEdge(p, m, a)| + |MaybeEdge(p, m, b)| + |MaybeEdge(p, m, c)| + |MaybeEdge(p, m, d)|;
    PresentCellsCount(p, m);
  }

  /** The present neighbour cells are the union of four disjoint, at most one-element sets. */
  lemma PresentCellsCount(p: Point, m: map<Cell, Point>)
    ensures var a, b, c, d := Cell(p.r, p.c + 1), Cell(p.r + 1, p.c), Cell(p.r + 1, p.c + 1), Cell(p.r + 1, p.c - 1);
            |NeighbourCells(Key(p)) * m.Keys|
            == |Singleton(a, m)| + |Singleton(b, m)| + |Singleton(c, m)| + |Singleton(d, m)|
  {
    var a, b, c, d := Cell(p.r, p.c + 1), Cell(p.r + 1, p.c), Cell(p.r + 1, p.c + 1), Cell(p.r + 1, p.c - 1);
    var sa, sb, sc, sd := Singleton(a, m), Singleton(b, m), Singleton(c, m), Singleton(d, m);
    PresentCellsSplit(p, m);
    DisjointUnionCard(sa, sb);
    DisjointUnionCard(sa + sb, sc);
    DisjointUnionCard(sa + sb + sc, sd);
  }

  lemma PresentCellsSplit(p: Point, m: map<Cell, Point>)
    ensures var a, b, c, d := Cell(p.r, p.c + 1), Cell(p.r + 1, p.c), Cell(p.r + 1, p.c + 1), Cell(p.r + 1, p.c - 1);
            NeighbourCells(Key(p)) * m.Keys == Singleton(a, m) + Singleton(b, m) + Singleton(c, m) + Singleton(d, m)
  {
  }

  lemma DisjointUnionCard(x: set<Cell>, y: set<Cell>)
    requires x !! y
    ensures |x + y| == |x| + |y|
  {
  }

  lemma {:induction false} EdgesOfCount(pts: seq<Point>, m: map<Cell, Point>)
    ensures |EdgesOf(pts, m)| == PresentNeighbours(pts, m)
  {
    if pts != [] {
      EdgesOfCount(pts[..|pts| - 1], m);
      NeighbourEdgesCount(pts[|pts| - 1], m);
    }
  }

  /** The number of lines is the sum over the points of their present neighbours. */
  lemma WireframeCount(g: Samples, rect: Rect)
    requires WellFormed(g)
    ensures |Wireframe(g, rect)| == PresentNeighbours(Points(g, rect), PointMap(g, rect))
    ensures |Wireframe(g, rect)| <= 4 * |Points(g, rect)|
  {
    EdgesOfCount(Points(g, rect), PointMap(g, rect));
    PresentNeighboursBound(Points(g, rect), PointMap(g, rect));
  }

  lemma {:induction false} PresentNeighboursBound(pts: seq<Point>, m: map<Cell, Point>)
    ensures PresentNeighbours(pts, m) <= 4 * |pts|
  {
    if pts != [] {
      PresentNeighboursBound(pts[..|pts| - 1], m);
      var k := Key(pts[|pts| - 1]);
      assert NeighbourCells(k) * m.Keys <= NeighbourCells(k);
      SubsetCard(NeighbourCells(k) * m.Keys, NeighbourCells(k));
    }
  }

  lemma SubsetCard(a: set<Cell>, b: set<Cell>)
    requires a <= b
    ensures |a| <= |b|
  {
    assert b == a + (b - a);
  }

  // ---------------------------------------------------------------------------
  // The sampling loops

  /**
    The nested row/column loops of the builder: every cell whose alpha exceeds
    30 is pushed onto `validPoints` and set in `pointsMap` under its cell.
  */
  method SampleGrid(g: Samples, rect: Rect) returns (validPoints: seq<Point>, pointsMap: map<Cell, Point>)
    requires WellFormed(g)
    ensures validPoints == Points(g, rect)
    ensures pointsMap == PointMap(g, rect)
  {
    validPoints := [];
    pointsMap := map[];
    for r := 0 to GridRows
      invariant validPoints == PointsUpTo(g, rect, r * GridCols)
      invariant pointsMap == KeyMap(validPoints)
    {
      validPoints, pointsMap := SampleRow(g, rect, r, validPoints, pointsMap);
    }
  }

  /** The column loop for row `r`: it extends the points and the map by that row's valid cells. */
  method SampleRow(g: Samples, rect: Rect, r: nat, pts: seq<Point>, m: map<Cell, Point>)
    returns (validPoints: seq<Point>, pointsMap: map<Cell, Point>)
    requires WellFormed(g) && r < GridRows
    requires pts == PointsUpTo(g, rect, r * GridCols) && m == KeyMap(pts)
    ensures validPoints == PointsUpTo(g, rect, (r + 1) * GridCols)
    ensures pointsMap == KeyMap(validPoints)
  {
    validPoints, pointsMap := pts, m;
    for c := 0 to GridCols
      invariant validPoints == PointsUpTo(g, rect, r * GridCols + c)
      invariant pointsMap == KeyMap(validPoints)
    {
      var k := Cell(r, c);
      CellAtIndex(k);
      if g[r][c].alpha as int > AlphaThreshold {
        var point := MakePoint(g, rect, k);
        var before := validPoints;
        validPoints := validPoints + [point];
        assert validPoints[..|validPoints| - 1] == before;
        pointsMap := pointsMap[k := point];
      }
    }
  }
}
