/** Choice of the rows x columns grid for several marks: every column count
    from 1 to `count` is scored by how far the grid's shape is from the
    canvas's aspect ratio, then by how many cells stay empty, and the first
    best one wins. */
module Grid {
  import opened Arith

  datatype Shape = Shape(rows: int, cols: int)

  /** The ranking key of one candidate, compared lexicographically the way
      Python compares the tuple `(score, area_over)`. */
  datatype Key = Key(score: real, waste: int)

  predicate KeyLess(a: Key, b: Key) {
    a.score < b.score || (a.score == b.score && a.waste < b.waste)
  }

  /** The aspect ratio the grid should approach: width over height, or 1 for
      a canvas without height. */
  function Target(w: nat, h: nat): (t: real)
    ensures t >= 0.0
    ensures h == 0 ==> t == 1.0
    ensures h > 0 ==> t * h as real == w as real
  {
    if h == 0 then 1.0 else w as real / h as real
  }

  /** Rows needed to hold `count` marks in `cols` columns. */
  function RowsFor(count: nat, cols: nat): (rows: nat)
    requires cols >= 1
    ensures rows * cols >= count
    ensures rows == 0 || (rows - 1) * cols < count
  {
    CeilDiv(count, cols)
  }

  function KeyOf(count: nat, cols: nat, target: real): Key
    requires count >= 1 && cols >= 1
  {
    var rows := RowsFor(count, cols);
    Key(AbsR(cols as real / rows as real - target), rows * cols - count)
  }

  /** `c` is the first column count in [1, n] whose key is minimal: nothing
      in range beats it and everything before it is strictly worse. */
  ghost predicate IsFirstBest(count: nat, target: real, c: nat, n: nat) {
    && count >= 1
    && 1 <= c <= n
    && (forall k :: 1 <= k <= n ==> !KeyLess(KeyOf(count, k, target), KeyOf(count, c, target)))
    && (forall k :: 1 <= k < c ==> KeyLess(KeyOf(count, c, target), KeyOf(count, k, target)))
  }

  /** The scan over 1..n: a later candidate replaces the best so far only if
      its key is strictly smaller. */
  function BestCols(count: nat, target: real, n: nat): (c: nat)
    requires count >= 1 && 1 <= n
    ensures IsFirstBest(count, target, c, n)
  {
    if n == 1 then 1
    else
      var b := BestCols(count, target, n - 1);
      if KeyLess(KeyOf(count, n, target), KeyOf(count, b, target)) then n else b
  }

  /** The first minimum is unique, so any column count with that property is
      the one the scan returns. */
  lemma FirstBestUnique(count: nat, target: real, c: nat, d: nat, n: nat)
    requires IsFirstBest(count, target, c, n) && IsFirstBest(count, target, d, n)
    ensures c == d
  {
    var kc, kd := KeyOf(count, c, target), KeyOf(count, d, target);
  }

  lemma BestColsIff(count: nat, target: real, c: nat, n: nat)
    requires count >= 1 && 1 <= n
    ensures BestCols(count, target, n) == c <==> IsFirstBest(count, target, c, n)
  {
    if IsFirstBest(count, target, c, n) {
      FirstBestUnique(count, target, c, BestCols(count, target, n), n);
    }
  }

  /** Canvases of the same proportions aim at the same aspect ratio. */
  lemma SameAspectSameTarget(w1: nat, h1: nat, w2: nat, h2: nat)
    requires h1 > 0 && h2 > 0 && w1 * h2 == w2 * h1
    ensures Target(w1, h1) == Target(w2, h2)
  {
    var t1, t2 := Target(w1, h1), Target(w2, h2);
    assert (w1 * h2) as real == w1 as real * h2 as real;
    assert (w2 * h1) as real == w2 as real * h1 as real;
    assert t1 * h1 as real * h2 as real == t2 * h2 as real * h1 as real;
  }

  /** `(rows, cols)` for `count` marks on a `w` x `h` canvas. */
  function DetermineGrid(count: int, w: nat, h: nat): (g: Shape)
    ensures count <= 1 ==> g == Shape(1, 1)
    ensures count > 1 ==>
      && 1 <= g.cols <= count
      && 1 <= g.rows
      && g.rows == RowsFor(count, g.cols)
  {
    if count <= 1 then Shape(1, 1)
    else
      var cols := BestCols(count, Target(w, h), count);
      Shape(RowsFor(count, cols), cols)
  }

  /** The grid depends on the canvas only through its proportions: two
      canvases with the same width-to-height ratio get the same grid. */
  lemma SameAspectSameGrid(count: int, w1: nat, h1: nat, w2: nat, h2: nat)
    requires (h1 == 0 && h2 == 0) || (h1 > 0 && h2 > 0 && w1 * h2 == w2 * h1)
    ensures DetermineGrid(count, w1, h1) == DetermineGrid(count, w2, h2)
  {
    if h1 > 0 {
      SameAspectSameTarget(w1, h1, w2, h2);
    }
  }

  /** The chosen grid has a cell for every mark, and its last row is not
      empty. */
  lemma GridHoldsMarks(count: int, w: nat, h: nat)
    requires count > 1
    ensures var g := DetermineGrid(count, w, h);
      g.rows * g.cols >= count && (g.rows - 1) * g.cols < count
  {
  }

  /** For several marks the chosen column count is the first one whose
      (score, waste) key is minimal over 1..count, and it is the only one
      with that property. */
  lemma GridIsFirstBest(count: int, w: nat, h: nat, c: nat)
    requires count > 1
    ensures DetermineGrid(count, w, h).cols == c <==> IsFirstBest(count, Target(w, h), c, count)
  {
    BestColsIff(count, Target(w, h), c, count);
  }

  /** Every column count's grid has room for all marks and fewer than `cols`
      empty cells, so the waste term is always in [0, cols). */
  lemma WasteBounds(count: nat, cols: nat, target: real)
    requires count >= 1 && cols >= 1
    ensures 0 <= KeyOf(count, cols, target).waste < cols
  {
  }

  /** A mark with index `i < count` lands in row `i / cols`, which exists. */
  lemma CellInGrid(count: int, w: nat, h: nat, i: nat)
    requires count > 1 && i < count
    ensures var g := DetermineGrid(count, w, h);
      i / g.cols < g.rows && i % g.cols < g.cols
  {
    var g := DetermineGrid(count, w, h);
    GridHoldsMarks(count, w, h);
    var r := i / g.cols;
    assert r * g.cols <= i;
    if r >= g.rows {
      MulMonotone(g.rows, r, g.cols);
      assert false;
    }
  }

  /** A 4000 x 3000 canvas with four marks gets two rows of three columns:
      1.5 is closer to 4/3 than the square grid's 1. */
  lemma FourMarksOnLandscape()
    ensures DetermineGrid(4, 4000, 3000) == Shape(2, 3)
  {
    var t := Target(4000, 3000);
    LandscapeKeys();
    assert BestCols(4, t, 1) == 1;
    assert BestCols(4, t, 2) == 2;
    assert BestCols(4, t, 3) == 3;
    assert BestCols(4, t, 4) == 3;
  }

  lemma LandscapeKeys()
    ensures var t := Target(4000, 3000);
      && KeyOf(4, 1, t) == Key(13.0 / 12.0, 0)
      && KeyOf(4, 2, t) == Key(1.0 / 3.0, 0)
      && KeyOf(4, 3, t) == Key(1.0 / 6.0, 2)
      && KeyOf(4, 4, t) == Key(8.0 / 3.0, 0)
  {
    assert Target(4000, 3000) == 4.0 / 3.0;
    LandscapeKey(1, 4, 13.0 / 12.0);
    LandscapeKey(2, 2, 1.0 / 3.0);
    LandscapeKey(3, 2, 1.0 / 6.0);
    LandscapeKey(4, 1, 8.0 / 3.0);
  }

  lemma LandscapeKey(cols: nat, rows: nat, score: real)
    requires 1 <= cols <= 4 && rows == RowsFor(4, cols)
    requires score == AbsR(cols as real / rows as real - 4.0 / 3.0)
    ensures KeyOf(4, cols, 4.0 / 3.0) == Key(score, rows * cols - 4)
  {
  }
}
