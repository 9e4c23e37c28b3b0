/**
 * The square grid the binner lays over a country: the bin size converted from kilometres
 * to metres, the number of rows and columns by ceiling division of the bounding box's
 * extent, and the cells enumerated column by column (x outer, y inner) from the lower-left
 * corner of the box. Coordinates are exact reals rather than IEEE doubles.
 */
module BinGrid {
  import opened Wrappers

  datatype Point = Point(x: real, y: real)

  /** `total_bounds`: (xmin, ymin, xmax, ymax). */
  datatype Bounds = Bounds(xmin: real, ymin: real, xmax: real, ymax: real)

  /** A polygon given by its exterior ring, first vertex not repeated. */
  datatype Polygon = Polygon(ring: seq<Point>)

  /** `int(np.ceil(r))`. */
  function Ceil(r: real): (n: int)
    ensures r <= n as real < r + 1.0
  {
    var f := r.Floor;
    if f as real == r then f else f + 1
  }

  /** How many times `range(n)` runs. */
  function Count(n: int): nat {
    if n < 0 then 0 else n
  }

  /** The grid: lower-left origin, cell side in metres, and the row and column counts. */
  datatype Grid = Grid(xmin: real, ymin: real, side: int, rows: int, cols: int)

  /**
   * The grid for bounds `b` and a bin size in kilometres. The side is the bin size in
   * metres, the counts are the extents divided by the side and rounded up. A bin size of
   * zero fails: the float division gives inf or nan and `int()` raises.
   */
  function MakeGrid(b: Bounds, binSizeKm: int): (r: Result<Grid, string>)
    ensures r.Failure? <==> binSizeKm == 0
    ensures r.Success? ==> r.value.side == binSizeKm * 1000
    ensures r.Success? ==> r.value.xmin == b.xmin && r.value.ymin == b.ymin
    ensures r.Success? ==>
      var s := r.value.side as real;
      (r.value.rows - 1) as real < (b.ymax - b.ymin) / s <= r.value.rows as real
      && (r.value.cols - 1) as real < (b.xmax - b.xmin) / s <= r.value.cols as real
  {
    var s := binSizeKm * 1000;
    if s == 0 then Failure("cannot convert an infinite or NaN bin count to an integer")
    else Success(Grid(b.xmin, b.ymin, s, Ceil((b.ymax - b.ymin) / s as real), Ceil((b.xmax - b.xmin) / s as real)))
  }

  /** Cell (x, y): the square whose corners the loop body lists, counter-clockwise from lower left. */
  function Cell(g: Grid, x: int, y: int): Polygon {
    var s := g.side as real;
    Polygon([Point(x as real * s + g.xmin, y as real * s + g.ymin),
             Point((x + 1) as real * s + g.xmin, y as real * s + g.ymin),
             Point((x + 1) as real * s + g.xmin, (y + 1) as real * s + g.ymin),
             Point(x as real * s + g.xmin, (y + 1) as real * s + g.ymin)])
  }

  /** The first `n` cells of column `x`. */
  function ColumnCells(g: Grid, x: int, n: int): seq<Polygon> {
    if n <= 0 then [] else ColumnCells(g, x, n - 1) + [Cell(g, x, n - 1)]
  }

  /** The cells of the first `n` columns. */
  function CellsUpTo(g: Grid, n: int): seq<Polygon> {
    if n <= 0 then [] else CellsUpTo(g, n - 1) + ColumnCells(g, n - 1, g.rows)
  }

  /** The list the nested loop builds. */
  function GridCells(g: Grid): seq<Polygon> {
    CellsUpTo(g, g.cols)
  }

  /** The nested `for x in range(cols): for y in range(rows)` loop appending each cell. */
  method BuildCells(g: Grid) returns (cells: seq<Polygon>)
    ensures cells == GridCells(g)
  {
    cells := [];
    var x := 0;
    while x < g.cols
      invariant 0 <= x <= Count(g.cols)
      invariant cells == CellsUpTo(g, x)
    {
      var y := 0;
      while y < g.rows
        invariant 0 <= y <= Count(g.rows)
        invariant cells == CellsUpTo(g, x) + ColumnCells(g, x, y)
      {
        cells := cells + [Cell(g, x, y)];
        y := y + 1;
      }
      x := x + 1;
    }
  }

  lemma {:induction false} ColumnCellsAt(g: Grid, x: int, n: int, y: int)
    requires 0 <= y < n
    ensures |ColumnCells(g, x, n)| == n && ColumnCells(g, x, n)[y] == Cell(g, x, y)
  {
    if y < n - 1 {
      ColumnCellsAt(g, x, n - 1, y);
    } else if n > 1 {
      ColumnCellsAt(g, x, n - 1, 0);
    }
  }

  lemma {:induction false} ColumnCellsLength(g: Grid, x: int, n: int)
    ensures |ColumnCells(g, x, n)| == Count(n)
  {
    if n > 0 {
      ColumnCellsLength(g, x, n - 1);
    }
  }

  lemma MulMono(a: int, b: int, r: nat)
    requires a <= b
    ensures a * r <= b * r
  {
  }

  /** The grid has exactly rows times columns cells (none when either count is not positive). */
  lemma {:induction false} GridSize(g: Grid, n: int)
    ensures |CellsUpTo(g, n)| == Count(n) * Count(g.rows)
  {
    if n > 0 {
      GridSize(g, n - 1);
      ColumnCellsLength(g, n - 1, g.rows);
      assert Count(n) * Count(g.rows) == (n - 1) * Count(g.rows) + Count(g.rows);
    }
  }

  /** Column-major enumeration: cell (x, y) sits at position x * rows + y. */
  lemma {:induction false} GridIndex(g: Grid, n: int, x: int, y: int)
    requires 0 <= x < n && 0 <= y < g.rows
    ensures x * g.rows + y < |CellsUpTo(g, n)| && CellsUpTo(g, n)[x * g.rows + y] == Cell(g, x, y)
  {
    GridSize(g, n);
    GridSize(g, n - 1);
    ColumnCellsAt(g, n - 1, g.rows, y);
    MulMono(x + 1, n, g.rows);
    if x < n - 1 {
      MulMono(x + 1, n - 1, g.rows);
      GridIndex(g, n - 1, x, y);
    } else {
      assert x * g.rows + y == |CellsUpTo(g, n - 1)| + y;
    }
  }

  /** Position of a point within the half-open square of a cell. */
  predicate InCell(c: Polygon, p: Point)
    requires |c.ring| == 4
  {
    c.ring[0].x <= p.x < c.ring[2].x && c.ring[0].y <= p.y < c.ring[2].y
  }

  /** Coordinate `v` lies in step `k` of length `s` counted from `origin`. */
  predicate InStep(v: real, origin: real, s: real, k: int) {
    k as real * s + origin <= v < (k + 1) as real * s + origin
  }

  /** Multiplying by a positive factor keeps a non-strict order. */
  lemma MulLe(a: real, b: real, s: real)
    requires a <= b && s > 0.0
    ensures a * s <= b * s
  {
    assert b * s - a * s == (b - a) * s;
  }

  /** Multiplying by a positive factor keeps a strict order. */
  lemma MulLt(a: real, b: real, s: real)
    requires a < b && s > 0.0
    ensures a * s < b * s
  {
    assert b * s - a * s == (b - a) * s;
  }

  /** A positive factor's products are ordered as the numbers are. */
  lemma LtOfScaled(a: real, b: real, s: real)
    requires s > 0.0 && a * s < b * s
    ensures a < b
  {
    if a >= b {
      MulLe(b, a, s);
    }
  }

  /** Division by a non-zero factor is undone by multiplying by it. */
  lemma DivMul(x: real, s: real)
    requires s != 0.0
    ensures (x / s) * s == x
  {
  }

  /** The quotient of `d` by a positive `s`, handed out as a number whose product with `s` is `d`. */
  lemma Quotient(d: real, s: real) returns (q: real)
    requires s > 0.0
    ensures q * s == d
  {
    q := d / s;
    DivMul(d, s);
  }

  /** Along one axis: a coordinate in [origin, origin + n*s) lies in exactly one of the n steps. */
  lemma StepOf(v: real, origin: real, s: real, n: int) returns (k: int)
    requires s > 0.0 && origin <= v < origin + n as real * s
    ensures 0 <= k < n && InStep(v, origin, s, k)
    ensures forall j: int :: InStep(v, origin, s, j) ==> j == k
  {
    var d, top := v - origin, n as real;
    assert 0.0 <= d < top * s;
    var q := Quotient(d, s);
    k := q.Floor;
    var lo, hi := k as real, (k + 1) as real;
    Bracket(q, s, d, lo, hi, top);
    forall j: int | InStep(v, origin, s, j) ensures j == k {
      BracketsOverlap(d, s, j as real, (j + 1) as real, lo, hi);
    }
  }

  /**
   * Scaling `lo <= q < hi` by a positive `s` brackets `d == q * s`; when `d` also lies in
   * [0, top * s), the bracket overlaps [0, top).
   */
  lemma Bracket(q: real, s: real, d: real, lo: real, hi: real, top: real)
    requires s > 0.0 && q * s == d && lo <= q < hi && 0.0 <= d < top * s
    ensures lo * s <= d < hi * s && 0.0 < hi && lo < top
  {
    MulLe(lo, q, s);
    MulLt(q, hi, s);
    LtOfScaled(0.0, hi, s);
    LtOfScaled(lo, top, s);
  }

  /** Two brackets of a positive side that both contain the offset `d` overlap. */
  lemma BracketsOverlap(d: real, s: real, alo: real, ahi: real, blo: real, bhi: real)
    requires s > 0.0
    requires alo * s <= d < ahi * s
    requires blo * s <= d < bhi * s
    ensures alo < bhi && blo < ahi
  {
    LtOfScaled(alo, bhi, s);
    LtOfScaled(blo, ahi, s);
  }

  /** A point is in a cell when each coordinate lies in the cell's step along its axis. */
  lemma InCellSteps(g: Grid, x: int, y: int, p: Point)
    requires g.side > 0
    ensures InCell(Cell(g, x, y), p) <==> InStep(p.x, g.xmin, g.side as real, x) && InStep(p.y, g.ymin, g.side as real, y)
  {
    var s := g.side as real;
    var r := Cell(g, x, y).ring;
    assert r[0] == Point(x as real * s + g.xmin, y as real * s + g.ymin);
    assert r[2] == Point((x + 1) as real * s + g.xmin, (y + 1) as real * s + g.ymin);
  }

  /**
   * With a positive side, the cells tile the rectangle of `cols` by `rows` cells anchored
   * at the grid's origin: every point of it lies in exactly one cell.
   */
  lemma CellsTile(g: Grid, p: Point) returns (x: int, y: int)
    requires g.side > 0
    requires g.xmin <= p.x < g.xmin + g.cols as real * g.side as real
    requires g.ymin <= p.y < g.ymin + g.rows as real * g.side as real
    ensures 0 <= x < g.cols && 0 <= y < g.rows && InCell(Cell(g, x, y), p)
    ensures forall i: int, j: int :: InCell(Cell(g, i, j), p) ==> i == x && j == y
  {
    var s := g.side as real;
    x := StepOf(p.x, g.xmin, s, g.cols);
    y := StepOf(p.y, g.ymin, s, g.rows);
    InCellSteps(g, x, y, p);
    forall i: int, j: int | InCell(Cell(g, i, j), p) ensures i == x && j == y {
      InCellSteps(g, i, j, p);
    }
  }

  /**
   * When both extents and the bin size are positive, the grid has at least one row and
   * column and its rectangle contains the whole bounding box.
   */
  lemma GridCoversBounds(b: Bounds, binSizeKm: int)
    requires binSizeKm > 0 && b.xmin < b.xmax && b.ymin < b.ymax
    ensures MakeGrid(b, binSizeKm).Success?
    ensures var g := MakeGrid(b, binSizeKm).value;
      g.rows >= 1 && g.cols >= 1
      && b.xmax <= g.xmin + g.cols as real * g.side as real
      && b.ymax <= g.ymin + g.rows as real * g.side as real
  {
    var g := MakeGrid(b, binSizeKm).value;
    var s := g.side as real;
    assert s > 0.0;
    var w, h := b.xmax - b.xmin, b.ymax - b.ymin;
    ExtentFits(w, s, g.cols);
    ExtentFits(h, s, g.rows);
  }

  /** A positive extent divided by a positive side and rounded up to `n` gives `n >= 1` steps covering it. */
  lemma ExtentFits(w: real, s: real, n: int)
    requires w > 0.0 && s > 0.0 && w / s <= n as real
    ensures n >= 1 && w <= n as real * s
  {
    DivMul(w, s);
    assert w / s > 0.0 by {
      if w / s <= 0.0 {
        MulLe(w / s, 0.0, s);
      }
    }
    MulLe(w / s, n as real, s);
  }

  /** A negative bin size gives non-positive counts, so the loops run zero times. */
  lemma NegativeBinSizeGivesNoCells(b: Bounds, binSizeKm: int)
    requires binSizeKm < 0 && b.xmin <= b.xmax && b.ymin <= b.ymax
    ensures MakeGrid(b, binSizeKm).Success? && GridCells(MakeGrid(b, binSizeKm).value) == []
  {
    var g := MakeGrid(b, binSizeKm).value;
    var s := g.side as real;
    DivNegative(b.xmax - b.xmin, s);
  }

  /** A non-negative extent divided by a negative side is not positive. */
  lemma DivNegative(w: real, s: real)
    requires w >= 0.0 && s < 0.0
    ensures w / s <= 0.0
  {
    DivMul(w, s);
    assert (w / s) * -s == -w;
  }

  /** Every cell is a square whose side is the bin size in metres. */
  lemma CellIsSquare(g: Grid, x: int, y: int)
    ensures var r := Cell(g, x, y).ring;
      |r| == 4
      && r[1].x - r[0].x == r[2].y - r[1].y == r[2].x - r[3].x == r[3].y - r[0].y == g.side as real
      && r[0].y == r[1].y && r[1].x == r[2].x && r[2].y == r[3].y && r[3].x == r[0].x
  {
  }
}
