/** Where the marks go. One mark is centred on the canvas; several are laid
    out on the grid `Grid.DetermineGrid` picks, inside a margin of a tenth of
    each side, one mark centred in each cell and pulled back onto the canvas
    where it would stick out. */
module Placement {
  import opened Arith
  import Grid

  /** Fraction of each side kept free as a margin. */
  const MarginRatio: real := 0.10

  /** Top-left corner of a mark, in canvas pixels. */
  datatype Point = Point(x: int, y: int)

  /** `x` puts a run of `len` pixels in the middle of `extent` pixels,
      rounding toward the start when the leftover is odd. */
  predicate IsCentred(x: int, extent: int, len: int) {
    2 * x + len == extent || 2 * x + len == extent - 1
  }

  /** `(extent - len) // 2`. */
  function Centre(extent: int, len: int): (x: int)
    ensures IsCentred(x, extent, len)
  {
    (extent - len) / 2
  }

  function Margin(extent: nat): real {
    extent as real * MarginRatio
  }

  /** `max(0, extent - 2 * margin)`: the part of the side between margins. */
  function Usable(extent: nat): (u: real)
    ensures u == 0.8 * extent as real
    ensures u == 0.0 <==> extent == 0
  {
    MaxR(0.0, extent as real - 2.0 * Margin(extent))
  }

  function CellSize(extent: nat, cells: nat): (c: real)
    requires cells >= 1
    ensures c >= 0.0
    ensures c * cells as real == Usable(extent)
  {
    Usable(extent) / cells as real
  }

  /** Where the mark in cell `k` would start if it were centred in the cell. */
  function CellCentred(extent: nat, cells: nat, k: nat, len: nat): real
    requires cells >= 1
  {
    Margin(extent) + k as real * CellSize(extent, cells)
      + (CellSize(extent, cells) - len as real) / 2.0
  }

  /** `int(max(0, min(v, hi)))`: the coordinate pulled back onto the canvas. */
  function Clamped(v: real, hi: int): (n: int)
    ensures 0 <= n <= Max(0, hi)
    ensures 0.0 <= v <= hi as real ==> n == v.Floor
    ensures v < 0.0 ==> n == 0
    ensures hi as real < v ==> n == Max(0, hi)
  {
    Trunc(MaxR(0.0, MinR(v, hi as real)))
  }

  /** Coordinate along one side of the mark in cell `k` of `cells`. */
  function AxisPos(extent: nat, cells: nat, k: nat, len: nat): int
    requires cells >= 1
  {
    Clamped(CellCentred(extent, cells, k, len), extent - len)
  }

  /** The top-left corners of `count` marks of `lw` x `lh` pixels on a
      `w` x `h` canvas, in row-major order. */
  function CalculatePositions(w: nat, h: nat, count: int, lw: nat, lh: nat): (r: seq<Point>)
    ensures count <= 1 || w == 0 || h == 0 ==>
      |r| == 1 && IsCentred(r[0].x, w, lw) && IsCentred(r[0].y, h, lh)
    ensures count > 1 ==> (|r| == 1 <==> w == 0 || h == 0)
    ensures count > 1 && w > 0 && h > 0 ==>
      && |r| == count
      && forall i :: 0 <= i < |r| ==>
           0 <= r[i].x <= Max(0, w - lw) && 0 <= r[i].y <= Max(0, h - lh)
  {
    if count <= 1 then [Point(Centre(w, lw), Centre(h, lh))]
    else
      var g := Grid.DetermineGrid(count, w, h);
      if Usable(w) == 0.0 || Usable(h) == 0.0 then [Point(Centre(w, lw), Centre(h, lh))]
      else GridPositions(w, h, count, g.cols, g.rows, lw, lh)
  }

  /** Mark `i` of `count` in column `i % cols` and row `i / cols`. */
  function GridPositions(w: nat, h: nat, count: nat, cols: nat, rows: nat, lw: nat, lh: nat)
    : (r: seq<Point>)
    requires cols >= 1 && rows >= 1
    ensures |r| == count
    ensures forall i :: 0 <= i < |r| ==>
      0 <= r[i].x <= Max(0, w - lw) && 0 <= r[i].y <= Max(0, h - lh)
  {
    seq(count, i requires 0 <= i < count => MarkAt(w, h, cols, rows, lw, lh, i))
  }

  /** Where mark `i` goes: in column `i % cols` and row `i / cols`. */
  function MarkAt(w: nat, h: nat, cols: nat, rows: nat, lw: nat, lh: nat, i: nat): (p: Point)
    requires cols >= 1 && rows >= 1
    ensures 0 <= p.x <= Max(0, w - lw) && 0 <= p.y <= Max(0, h - lh)
  {
    Point(AxisPos(w, cols, i % cols, lw), AxisPos(h, rows, i / cols, lh))
  }

  /** When the layer fits a cell, mark `i` is exactly the rounded-down
      centred start of its cell on both axes: the clamp changes nothing. */
  lemma MarkAtCentred(w: nat, h: nat, cols: nat, rows: nat, lw: nat, lh: nat, i: nat)
    requires cols >= 1 && rows >= 1 && w > 0 && h > 0 && i / cols < rows
    requires lw as real <= CellSize(w, cols) && lh as real <= CellSize(h, rows)
    ensures MarkAt(w, h, cols, rows, lw, lh, i) ==
      Point(CellCentred(w, cols, i % cols, lw).Floor, CellCentred(h, rows, i / cols, lh).Floor)
  {
    CentredStartOnCanvas(w, cols, i % cols, lw);
    CentredStartOnCanvas(h, rows, i / cols, lh);
  }

  /** The mark with index `i` sits in column `i % cols` and row `i / cols`
      of the chosen grid. */
  lemma PositionOfIndex(w: nat, h: nat, count: int, lw: nat, lh: nat, i: nat)
    requires count > 1 && w > 0 && h > 0 && i < count
    ensures var g := Grid.DetermineGrid(count, w, h);
      && i % g.cols < g.cols && i / g.cols < g.rows
      && CalculatePositions(w, h, count, lw, lh)[i] == MarkAt(w, h, g.cols, g.rows, lw, lh, i)
  {
    Grid.CellInGrid(count, w, h, i);
  }

  /** On a 100 x 100 canvas a single 150 x 150 layer is centred at
      (-25, -25), partly off the canvas. */
  lemma OversizedSingleMark()
    ensures CalculatePositions(100, 100, 1, 150, 150) == [Point(-25, -25)]
  {
  }

  // ---------------------------------------------------------- no overlap

  /** While the mark fits in its cell, the cell-centred start already lies on
      the canvas, so the clamp leaves it alone. */
  lemma CentredStartOnCanvas(extent: nat, cells: nat, k: nat, len: nat)
    requires extent > 0 && cells >= 1 && k < cells
    requires len as real <= CellSize(extent, cells)
    ensures 0.0 <= CellCentred(extent, cells, k, len) <= (extent - len) as real
  {
    CentredStartFrom(extent, cells, k, len);
    CentredStartTo(extent, cells, k, len);
  }

  lemma CentredStartFrom(extent: nat, cells: nat, k: nat, len: nat)
    requires extent > 0 && cells >= 1 && k < cells
    requires len as real <= CellSize(extent, cells)
    ensures 0.0 <= CellCentred(extent, cells, k, len)
  {
    var c := CellSize(extent, cells);
    ScaleMonotone(0.0, k as real, c);
    assert CellCentred(extent, cells, k, len) == Margin(extent) + k as real * c + (c - len as real) / 2.0;
  }

  lemma CentredStartTo(extent: nat, cells: nat, k: nat, len: nat)
    requires extent > 0 && cells >= 1 && k < cells
    requires len as real <= CellSize(extent, cells)
    ensures CellCentred(extent, cells, k, len) <= (extent - len) as real
  {
    var c := CellSize(extent, cells);
    ScaleMonotone(k as real, (cells - 1) as real, c);
    LessOne(cells as real, c);
    CentredBound(Margin(extent), k as real * c, c, Usable(extent), len as real, extent as real);
  }

  lemma LessOne(a: real, c: real)
    ensures (a - 1.0) * c == c * a - c
  {
  }

  /** The arithmetic of the centred bound, with the products named. */
  lemma CentredBound(m: real, kc: real, c: real, u: real, len: real, e: real)
    requires m == 0.1 * e && u == 0.8 * e && e >= 0.0
    requires kc <= u - c && len <= c
    ensures m + kc + (c - len) / 2.0 <= e - len
  {
  }

  /** Consecutive cells start a whole cell apart. */
  lemma CellStep(extent: nat, cells: nat, k1: nat, k2: nat, len: nat)
    requires cells >= 1 && k1 < k2
    ensures CellCentred(extent, cells, k2, len) - CellCentred(extent, cells, k1, len)
      >= CellSize(extent, cells)
  {
    var c := CellSize(extent, cells);
    ScaleMonotone((k1 + 1) as real, k2 as real, c);
    assert k2 as real * c - k1 as real * c >= c;
  }

  lemma FloorGap(a: real, b: real, len: int)
    requires a + len as real <= b
    ensures a.Floor + len <= b.Floor
  {
    FloorShift(a, len);
    FloorMonotone(a + len as real, b);
  }

  /** Along one side, marks in different cells do not overlap as long as a
      mark is no longer than a cell. */
  lemma AxisSeparated(extent: nat, cells: nat, k1: nat, k2: nat, len: nat)
    requires extent > 0 && cells >= 1 && k1 < k2 < cells
    requires len as real <= CellSize(extent, cells)
    ensures AxisPos(extent, cells, k1, len) + len <= AxisPos(extent, cells, k2, len)
  {
    var a := CellCentred(extent, cells, k1, len);
    var b := CellCentred(extent, cells, k2, len);
    CentredStartOnCanvas(extent, cells, k1, len);
    CentredStartOnCanvas(extent, cells, k2, len);
    CellStep(extent, cells, k1, k2, len);
    FloorGap(a, b, len);
  }

  /** Two marks of `lw` x `lh` pixels at `p` and `q` share no pixel. */
  predicate Apart(p: Point, q: Point, lw: int, lh: int) {
    p.x + lw <= q.x || q.x + lw <= p.x || p.y + lh <= q.y || q.y + lh <= p.y
  }

  /** When the layer fits in a grid cell, no two marks overlap. */
  lemma MarksDisjoint(w: nat, h: nat, count: int, lw: nat, lh: nat, i: nat, j: nat)
    requires count > 1 && w > 0 && h > 0 && i < count && j < count && i != j
    requires var g := Grid.DetermineGrid(count, w, h);
      lw as real <= CellSize(w, g.cols) && lh as real <= CellSize(h, g.rows)
    ensures var r := CalculatePositions(w, h, count, lw, lh);
      Apart(r[i], r[j], lw, lh)
  {
    var g := Grid.DetermineGrid(count, w, h);
    PositionOfIndex(w, h, count, lw, lh, i);
    PositionOfIndex(w, h, count, lw, lh, j);
    IndicesApart(w, h, g.cols, g.rows, lw, lh, i, j);
  }

  /** Marks `i` and `j` of a grid whose cells hold the layer are apart. */
  lemma IndicesApart(w: nat, h: nat, cols: nat, rows: nat, lw: nat, lh: nat, i: nat, j: nat)
    requires w > 0 && h > 0 && cols >= 1 && rows >= 1 && i != j && i / cols < rows && j / cols < rows
    requires lw as real <= CellSize(w, cols) && lh as real <= CellSize(h, rows)
    ensures Apart(MarkAt(w, h, cols, rows, lw, lh, i), MarkAt(w, h, cols, rows, lw, lh, j), lw, lh)
  {
    var ci, ri, cj, rj := i % cols, i / cols, j % cols, j / cols;
    CellsApart(w, h, cols, rows, lw, lh, i, j, ci, ri, cj, rj);
  }

  lemma CellsApart(w: nat, h: nat, cols: nat, rows: nat, lw: nat, lh: nat, i: nat, j: nat,
                   ci: nat, ri: nat, cj: nat, rj: nat)
    requires w > 0 && h > 0 && cols >= 1 && i != j
    requires ci == i % cols && ri == i / cols && cj == j % cols && rj == j / cols
    requires ri < rows && rj < rows
    requires lw as real <= CellSize(w, cols) && lh as real <= CellSize(h, rows)
    ensures Apart(Point(AxisPos(w, cols, ci, lw), AxisPos(h, rows, ri, lh)),
                  Point(AxisPos(w, cols, cj, lw), AxisPos(h, rows, rj, lh)), lw, lh)
  {
    DistinctCells(i, j, cols);
    ApartInGrid(w, h, cols, rows, lw, lh, ci, ri, cj, rj);
  }

  lemma DistinctCells(i: nat, j: nat, cols: nat)
    requires cols >= 1 && i != j
    ensures i % cols != j % cols || i / cols != j / cols
  {
    assert i == (i / cols) * cols + i % cols && j == (j / cols) * cols + j % cols;
  }

  lemma ApartInGrid(w: nat, h: nat, cols: nat, rows: nat, lw: nat, lh: nat,
                    ci: nat, ri: nat, cj: nat, rj: nat)
    requires w > 0 && h > 0 && ci < cols && cj < cols && ri < rows && rj < rows
    requires ci != cj || ri != rj
    requires lw as real <= CellSize(w, cols) && lh as real <= CellSize(h, rows)
    ensures Apart(Point(AxisPos(w, cols, ci, lw), AxisPos(h, rows, ri, lh)),
                  Point(AxisPos(w, cols, cj, lw), AxisPos(h, rows, rj, lh)), lw, lh)
  {
    if ci < cj {
      AxisSeparated(w, cols, ci, cj, lw);
    } else if cj < ci {
      AxisSeparated(w, cols, cj, ci, lw);
    } else if ri < rj {
      AxisSeparated(h, rows, ri, rj, lh);
    } else {
      AxisSeparated(h, rows, rj, ri, lh);
    }
  }
}
