/** The Filler grid as a value: `g[w][h]` is the colour index of column `w`,
    row `h`, exactly as the board array is indexed. */
module Grids {
  import opened Colors

  datatype Cell = Cell(w: int, h: int)

  type Grid = seq<seq<int>>

  predicate IsGrid(g: Grid, width: int, height: int) {
    |g| == width && forall w :: 0 <= w < width ==> |g[w]| == height
  }

  predicate InGrid(g: Grid, c: Cell) {
    0 <= c.w < |g| && 0 <= c.h < |g[c.w]|
  }

  function At(g: Grid, c: Cell): int
    requires InGrid(g, c)
  {
    g[c.w][c.h]
  }

  /** Every cell holds one of the six colours. */
  predicate InPalette(g: Grid) {
    forall w, h :: 0 <= w < |g| && 0 <= h < |g[w]| ==> IsColor(g[w][h])
  }

  /** Orthogonal neighbours. */
  predicate Adjacent(x: Cell, y: Cell) {
    (x.w == y.w && (x.h - y.h == 1 || y.h - x.h == 1)) ||
    (x.h == y.h && (x.w - y.w == 1 || y.w - x.w == 1))
  }

  /** Player 1 owns the bottom-left corner, player 2 the top-right one. */
  function Anchor(width: int, height: int, p1Turn: bool): Cell {
    if p1Turn then Cell(0, height - 1) else Cell(width - 1, 0)
  }

  /** All cells of a `width` x `height` board. */
  function AllCells(width: nat, height: nat): set<Cell> {
    set w, h | 0 <= w < width && 0 <= h < height :: Cell(w, h)
  }

  /** The distinct colours present on the grid. */
  function ColorsOf(g: Grid): set<int> {
    set w, h | 0 <= w < |g| && 0 <= h < |g[w]| :: g[w][h]
  }

  /** What a freshly filled board guarantees: colours in range, distinct
      anchors, and each anchor differing from its two neighbours. */
  predicate Sane(g: Grid, width: int, height: int)
    requires width >= 2 && height >= 2
  {
    IsGrid(g, width, height) && InPalette(g) &&
    g[0][height - 1] != g[width - 1][0] &&
    g[0][height - 2] != g[0][height - 1] &&
    g[1][height - 1] != g[0][height - 1] &&
    g[width - 2][0] != g[width - 1][0] &&
    g[width - 1][1] != g[width - 1][0]
  }

  function Column(w: int, height: nat): set<Cell> {
    set h | 0 <= h < height :: Cell(w, h)
  }

  lemma {:induction false} ColumnSize(w: int, height: nat)
    ensures |Column(w, height)| == height
  {
    if height > 0 {
      ColumnSize(w, height - 1);
      assert Column(w, height) == Column(w, height - 1) + {Cell(w, height - 1)};
    }
  }

  /** The board's columns: the first `width - 1` of them and the last one. */
  lemma AllCellsSplit(width: nat, height: nat)
    requires width > 0
    ensures AllCells(width, height) == AllCells(width - 1, height) + Column(width - 1, height)
    ensures AllCells(width - 1, height) !! Column(width - 1, height)
  {
  }

  lemma MulStep(a: int, b: int)
    ensures a * b == (a - 1) * b + b
  {
  }

  /** The board has exactly `width * height` cells. */
  lemma {:induction false} AllCellsSize(width: nat, height: nat)
    ensures |AllCells(width, height)| == width * height
  {
    if width > 0 {
      AllCellsSize(width - 1, height);
      ColumnSize(width - 1, height);
      AllCellsSplit(width, height);
      MulStep(width, height);
    }
  }
  /** The cells of colour `c`. */
  function ColorClass(g: Grid, width: nat, height: nat, c: int): set<Cell>
    requires IsGrid(g, width, height)
  {
    set w, h | 0 <= w < width && 0 <= h < height && g[w][h] == c :: Cell(w, h)
  }

  lemma ColorClassMember(g: Grid, width: nat, height: nat, c: int, x: Cell)
    requires IsGrid(g, width, height)
    ensures x in ColorClass(g, width, height, c) <==>
      0 <= x.w < width && 0 <= x.h < height && g[x.w][x.h] == c
  {
    if 0 <= x.w < width && 0 <= x.h < height && g[x.w][x.h] == c {
      assert x == Cell(x.w, x.h);
    }
  }

  /** The cells of two different colours together number at most the
      cells of the board. */
  lemma ClassesFit(g: Grid, width: nat, height: nat, c1: int, c2: int)
    requires IsGrid(g, width, height) && c1 != c2
    ensures |ColorClass(g, width, height, c1)| + |ColorClass(g, width, height, c2)| <= width * height
  {
    var A, B, C := ColorClass(g, width, height, c1), ColorClass(g, width, height, c2), AllCells(width, height);
    assert A !! B;
    assert A + B <= C;
    assert C == (A + B) + (C - (A + B));
    AllCellsSize(width, height);
  }

  /** A `width` x `height` grid of zeros, the visit mask after a reset. */
  function Zeros(width: nat, height: nat): (g: Grid)
    ensures IsGrid(g, width, height)
    ensures forall i, j :: 0 <= i < width && 0 <= j < height ==> g[i][j] == 0
  {
    seq(width, _ => seq(height, _ => 0))
  }

  /** The cells a row-major scan (rows outer, columns inner) has passed
      before it reaches column `w` of row `h`. */
  function Scanned(width: nat, h: nat, w: nat): set<Cell> {
    set i, j | 0 <= i < width && 0 <= j <= h && (j < h || i < w) :: Cell(i, j)
  }

  lemma ScannedNext(width: nat, h: nat, w: nat)
    requires w < width
    ensures Cell(w, h) !in Scanned(width, h, w)
    ensures Scanned(width, h, w + 1) == Scanned(width, h, w) + {Cell(w, h)}
  {
  }

  lemma ScannedRow(width: nat, h: nat)
    ensures Scanned(width, h, width) == Scanned(width, h + 1, 0)
  {
  }

  /** A completed scan has passed every cell. */
  lemma ScannedAll(width: nat, height: nat)
    ensures Scanned(width, height, 0) == AllCells(width, height)
  {
  }

  /** The colours of the cells of `S`. */
  function ColorsAt(g: Grid, S: set<Cell>): set<int> {
    set c | c in S && InGrid(g, c) :: At(g, c)
  }

  lemma ColorsAtAdd(g: Grid, S: set<Cell>, c: Cell)
    requires InGrid(g, c)
    ensures ColorsAt(g, S + {c}) == ColorsAt(g, S) + {At(g, c)}
  {
  }

  lemma ColorsAtAll(g: Grid, width: nat, height: nat)
    requires IsGrid(g, width, height)
    ensures ColorsAt(g, AllCells(width, height)) == ColorsOf(g)
  {
    forall k | k in ColorsOf(g)
      ensures k in ColorsAt(g, AllCells(width, height))
    {
      var w, h :| 0 <= w < |g| && 0 <= h < |g[w]| && g[w][h] == k;
      assert Cell(w, h) in AllCells(width, height);
    }
  }
}
