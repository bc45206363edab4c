/** The live board: the colour grid updated in place by the recursive flood
    fill, the visit mask it marks, and the two players' scores. */
module BoardEngine {
  import opened Colors
  import opened Grids
  import opened Flood
  import opened Walk

  /** The visit-mask value of the player to move: 1 for player 1, 2 for player 2. */
  function Mark(p1Turn: bool): int {
    if p1Turn then 1 else 2
  }

  /** Row `h` of the text form, up to column `w`: one letter per cell. */
  function Row(g: Grid, width: nat, height: nat, h: nat, w: nat): string
    requires IsGrid(g, width, height) && InPalette(g) && h < height && w <= width
  {
    if w == 0 then "" else Row(g, width, height, h, w - 1) + Palette[g[w - 1][h]]
  }

  /** The first `h` rows of the text form, each ended by a newline. */
  function Rows(g: Grid, width: nat, height: nat, h: nat): string
    requires IsGrid(g, width, height) && InPalette(g) && h <= height
  {
    if h == 0 then "" else Rows(g, width, height, h - 1) + Row(g, width, height, h - 1, width) + "\n"
  }

  /** Appending the letter of cell (w, h) to the text so far extends row `h` by one cell. */
  lemma RowAppend(g: Grid, width: nat, height: nat, h: nat, w: nat)
    requires IsGrid(g, width, height) && InPalette(g) && h < height && w < width
    ensures Rows(g, width, height, h) + Row(g, width, height, h, w + 1) ==
            Rows(g, width, height, h) + Row(g, width, height, h, w) + Palette[g[w][h]]
  {
  }

  lemma {:induction false} RowShape(g: Grid, width: nat, height: nat, h: nat, w: nat)
    requires IsGrid(g, width, height) && InPalette(g) && h < height && w <= width
    ensures |Row(g, width, height, h, w)| == w
    ensures forall i :: 0 <= i < w ==> Row(g, width, height, h, w)[i] == Palette[g[i][h]][0]
  {
    if w > 0 {
      RowShape(g, width, height, h, w - 1);
      PaletteRoundTrip(g[w - 1][h]);
    }
  }

  /** Where line `j` of the text form starts: each line holds `width`
      letters and a newline. */
  function LineStart(width: nat, j: nat): nat {
    if j == 0 then 0 else LineStart(width, j - 1) + width + 1
  }

  lemma {:induction false} LineStartIsProduct(width: nat, j: nat)
    ensures LineStart(width, j) == j * (width + 1)
  {
    if j > 0 {
      LineStartIsProduct(width, j - 1);
      assert j * (width + 1) == (j - 1) * (width + 1) + width + 1;
    }
  }

  /** Every position of an earlier line comes before a later line starts. */
  lemma {:induction false} LineBefore(width: nat, j: nat, k: nat)
    requires j < k
    ensures LineStart(width, j) + width < LineStart(width, k)
  {
    if j < k - 1 {
      LineBefore(width, j, k - 1);
    }
  }

  lemma {:induction false} RowsLength(g: Grid, width: nat, height: nat, h: nat)
    requires IsGrid(g, width, height) && InPalette(g) && h <= height
    ensures |Rows(g, width, height, h)| == LineStart(width, h)
  {
    if h > 0 {
      RowsLength(g, width, height, h - 1);
      RowShape(g, width, height, h - 1, width);
    }
  }

  /** Line `j` of the first `h` rows is row `j` followed by a newline. */
  lemma {:induction false} RowsLine(g: Grid, width: nat, height: nat, h: nat, j: nat, i: nat)
    requires IsGrid(g, width, height) && InPalette(g) && j < h <= height && i <= width
    ensures LineStart(width, j) + i < |Rows(g, width, height, h)| && |Row(g, width, height, j, width)| == width
    ensures Rows(g, width, height, h)[LineStart(width, j) + i] == (Row(g, width, height, j, width) + "\n")[i]
  {
    RowsLength(g, width, height, h - 1);
    RowShape(g, width, height, h - 1, width);
    RowShape(g, width, height, j, width);
    var p, r := Rows(g, width, height, h - 1), Row(g, width, height, h - 1, width);
    assert Rows(g, width, height, h) == p + (r + "\n");
    if j < h - 1 {
      LineBefore(width, j, h - 1);
      RowsLine(g, width, height, h - 1, j, i);
    }
  }

  /** The text form has `h` lines of `width` letters: the letter of cell
      (i, j) at position i of line j, and a newline at the end of each line. */
  lemma RowsShape(g: Grid, width: nat, height: nat, h: nat)
    requires IsGrid(g, width, height) && InPalette(g) && h <= height
    ensures |Rows(g, width, height, h)| == LineStart(width, h)
    ensures forall j, i :: 0 <= j < h && 0 <= i < width ==>
      LineStart(width, j) + i < |Rows(g, width, height, h)| &&
      Rows(g, width, height, h)[LineStart(width, j) + i] == Palette[g[i][j]][0]
    ensures forall j :: 0 <= j < h ==>
      LineStart(width, j) + width < |Rows(g, width, height, h)| &&
      Rows(g, width, height, h)[LineStart(width, j) + width] == '\n'
  {
    RowsLength(g, width, height, h);
    forall j, i | 0 <= j < h && 0 <= i < width
      ensures LineStart(width, j) + i < |Rows(g, width, height, h)|
      ensures Rows(g, width, height, h)[LineStart(width, j) + i] == Palette[g[i][j]][0]
    {
      RowsLetter(g, width, height, h, j, i);
    }
    forall j | 0 <= j < h
      ensures LineStart(width, j) + width < |Rows(g, width, height, h)|
      ensures Rows(g, width, height, h)[LineStart(width, j) + width] == '\n'
    {
      RowsLine(g, width, height, h, j, width);
    }
  }

  /** The letter of cell (i, j) sits at position i of line j. */
  lemma RowsLetter(g: Grid, width: nat, height: nat, h: nat, j: nat, i: nat)
    requires IsGrid(g, width, height) && InPalette(g) && j < h <= height && i < width
    ensures LineStart(width, j) + i < |Rows(g, width, height, h)|
    ensures Rows(g, width, height, h)[LineStart(width, j) + i] == Palette[g[i][j]][0]
  {
    RowsLine(g, width, height, h, j, i);
    RowShape(g, width, height, j, width);
  }

  /** The whole text form holds `height * (width + 1)` characters. */
  lemma TextLength(g: Grid, width: nat, height: nat)
    requires IsGrid(g, width, height) && InPalette(g)
    ensures |Rows(g, width, height, height)| == height * (width + 1)
  {
    RowsLength(g, width, height, height);
    LineStartIsProduct(width, height);
  }

  /** A random source stands in for its draws: a finite stream of colours
      that holds two different values, so every redraw loop can end. */
  predicate IsDraws(r: seq<int>) {
    (forall i :: 0 <= i < |r| ==> IsColor(r[i])) &&
    exists p, q :: 0 <= p < |r| && 0 <= q < |r| && r[p] != r[q]
  }

  /** Successive whole-board draws, from the `k`th on, of which one has
      distinct anchors, so the refill recursion can end. */
  predicate IsFills(fills: seq<Grid>, width: nat, height: nat, k: nat)
    requires width >= 1 && height >= 1
  {
    (forall j :: 0 <= j < |fills| ==> IsGrid(fills[j], width, height) && InPalette(fills[j])) &&
    exists j :: k <= j < |fills| && fills[j][0][height - 1] != fills[j][width - 1][0]
  }

  /** From `s0` to `s1` only cell `c` of the colour grid may change, it
      ends as a colour, and it ends different from cell `a`. */
  ghost predicate Redrawn(s0: State, s1: State, width: int, height: int, c: Cell, a: Cell) {
    IsGrid(s0.cells, width, height) && IsGrid(s1.cells, width, height) && s1.marks == s0.marks &&
    InGrid(s1.cells, c) && InGrid(s1.cells, a) &&
    IsColor(At(s1.cells, c)) && At(s1.cells, c) != At(s1.cells, a) &&
    forall i, j :: 0 <= i < width && 0 <= j < height && (i != c.w || j != c.h) ==> s1.cells[i][j] == s0.cells[i][j]
  }

  /** The four redraws after a fill with distinct anchors keep the colours
      and the anchors; on any board but 2 x 2 they leave each anchor
      different from both its neighbours. */
  lemma RedrawsSane(s0: State, s1: State, s2: State, s3: State, s4: State, width: int, height: int)
    requires width >= 2 && height >= 2
    requires IsGrid(s0.cells, width, height) && InPalette(s0.cells)
    requires s0.cells[0][height - 1] != s0.cells[width - 1][0]
    requires Redrawn(s0, s1, width, height, Cell(0, height - 2), Cell(0, height - 1))
    requires Redrawn(s1, s2, width, height, Cell(1, height - 1), Cell(0, height - 1))
    requires Redrawn(s2, s3, width, height, Cell(width - 2, 0), Cell(width - 1, 0))
    requires Redrawn(s3, s4, width, height, Cell(width - 1, 1), Cell(width - 1, 0))
    ensures s4.marks == s0.marks && IsGrid(s4.cells, width, height) && InPalette(s4.cells)
    ensures s4.cells[0][height - 1] != s4.cells[width - 1][0]
    ensures !(width == 2 && height == 2) ==> Sane(s4.cells, width, height)
  {
  }

  class Board {
    const width: int
    const height: int
    var board: array2<int>
    const visited: array2<int>
    var colorMap: map<int, string>
    var p1Score: int
    var p2Score: int
    /** The visit mask and the colour grid as values. */
    ghost var contents: State

    /** Dimensions of the two arrays. */
    ghost predicate Shaped()
      reads this
    {
      board != visited && width >= 1 && height >= 1 &&
      board.Length0 == width && board.Length1 == height &&
      visited.Length0 == width && visited.Length1 == height
    }

    /** The colour grid as a value. */
    ghost function Cells(): Grid
      reads this
    {
      contents.cells
    }

    /** The arrays hold `contents`, and the board is at least 2 x 2. */
    ghost predicate Consistent()
      reads this, board, visited
    {
      Holds(contents) && width >= 2 && height >= 2
    }

    /** A board between moves: consistent, every cell one of the six colours,
        and the colour map is the palette. */
    ghost predicate Valid()
      reads this, board, visited
    {
      Consistent() && InPalette(Cells()) && colorMap == Palette
    }

    /** The arrays hold exactly the grids of `s`. */
    ghost predicate Holds(s: State)
      reads this, board, visited
    {
      Shaped() && IsGrid(s.cells, width, height) && IsGrid(s.marks, width, height) &&
      (forall i, j {:trigger board[i, j]} :: 0 <= i < width && 0 <= j < height ==> board[i, j] == s.cells[i][j]) &&
      (forall i, j {:trigger visited[i, j]} :: 0 <= i < width && 0 <= j < height ==> visited[i, j] == s.marks[i][j])
    }

    /** `mv` is the move the walk's arguments describe on this board. */
    ghost predicate Describes(mv: Move, targetColor: string, originalColor: string, p1Turn: bool)
      reads this
    {
      mv.width == width && mv.height == height && mv.o == ColorToInt(originalColor) &&
      mv.t == ColorToInt(targetColor) && mv.m == Mark(p1Turn)
    }

    /** The walk's invariants in state `s`: the arrays hold `s`, unmarked
        cells keep their pre-move colour, and marked cells are absorbed. */
    ghost predicate Walking(mv: Move, s: State)
      reads this, board, visited
    {
      Holds(s) && Untouched(mv, s) && Sound(mv, s)
    }

    /** Writes one cell of the colour grid or of the visit mask. */
    method Store(arr: array2<int>, w: int, h: int, val: int, ghost s: State)
      requires Holds(s) && (arr == board || arr == visited)
      requires 0 <= w < width && 0 <= h < height
      modifies arr
      ensures arr == board ==> Holds(State(s.marks, Put(s.cells, Cell(w, h), val)))
      ensures arr == visited ==> Holds(State(Put(s.marks, Cell(w, h), val), s.cells))
    {
      arr[w, h] := val;
    }

    /** One call of the recursive walk at cell (w, h): the four guards,
        then the visit of an unmarked cell of an accepted colour. */
    method UpdateHelper(targetColor: string, originalColor: string, p1Turn: bool, w: int, h: int,
                        newBoard: array2<int>, checkTargets: bool, ghost mv: Move, ghost s: State)
      returns (ghost s': State)
      requires Walking(mv, s) && newBoard == board && Describes(mv, targetColor, originalColor, p1Turn) && Admissible(mv, s, checkTargets, Cell(w, h))
      modifies board, visited
      decreases AllCells(width, height) - MarksOf(s.marks, mv.m), 1
      ensures Walking(mv, s') && Grows(mv, s, s') && NewClosed(mv, s, s')
      ensures Accepts(mv.g0, mv.o, mv.t, checkTargets, Cell(w, h)) ==> Marked(s'.marks, mv.m, Cell(w, h))
    {
      s' := s;
      GrowsRefl(mv, s);
      NewClosedRefl(mv, s);
      if w < 0 || w >= width || h < 0 || h >= height {
        return; // out of bounds
      }
      MarksOfMember(s.marks, mv.m, Cell(w, h));
      assert KeptAt(mv, s, Cell(w, h));
      if (p1Turn && visited[w, h] == 1) || (!p1Turn && visited[w, h] == 2) {
        return; // already visited
      }
      if board[w, h] != ColorToInt(originalColor) && board[w, h] != ColorToInt(targetColor) {
        return; // colour not applicable
      }
      if checkTargets && board[w, h] != ColorToInt(targetColor) {
        return; // not a target
      }
      s' := Visit(targetColor, originalColor, p1Turn, w, h, newBoard, checkTargets, mv, s);
    }

    /** The visit of an absorbed, unmarked cell: mark it, spread through
        target cells, spread through original-colour cells unless only
        targets are wanted, and repaint it last. */
    method Visit(targetColor: string, originalColor: string, p1Turn: bool, w: int, h: int,
                 newBoard: array2<int>, checkTargets: bool, ghost mv: Move, ghost s: State)
      returns (ghost s': State)
      requires Walking(mv, s) && newBoard == board && Describes(mv, targetColor, originalColor, p1Turn)
      requires InBoard(mv, Cell(w, h)) && At(s.marks, Cell(w, h)) != mv.m
      requires Accepts(mv.g0, mv.o, mv.t, checkTargets, Cell(w, h))
      requires Absorbed(mv.g0, mv.a, mv.o, mv.t, Cell(w, h))
      modifies board, visited
      decreases AllCells(width, height) - MarksOf(s.marks, mv.m), 0
      ensures Walking(mv, s') && Grows(mv, s, s') && NewClosed(mv, s, s')
      ensures Marked(s'.marks, mv.m, Cell(w, h))
    {
      ghost var x := Cell(w, h);
      assert KeptAt(mv, s, x);
      MarkCell(mv, s, x);
      Store(visited, w, h, if p1Turn then 1 else 2, s);
      ghost var s1 := MarkAt(mv, s, x);

      ghost var s2 := s1;
      if board[w, h] == ColorToInt(targetColor) {
        s2 := Spread(targetColor, originalColor, p1Turn, w, h, newBoard, true, mv, s1);
      } else {
        GrowsRefl(mv, s1);
        NewClosedRefl(mv, s1);
      }
      GrowsKeepsMarked(mv, s1, s2, x);

      ghost var s3 := s2;
      if !checkTargets && board[w, h] == ColorToInt(originalColor) {
        GrowsShrinks(mv, s1, s2);
        s3 := Spread(targetColor, originalColor, p1Turn, w, h, newBoard, false, mv, s2);
        Advance(mv, s1, s2, s3);
        GrowsKeepsMarked(mv, s2, s3, x);
      } else {
        GrowsRefl(mv, s2);
      }
      NeighboursClosed(mv, x, s2, s3);

      Store(newBoard, w, h, ColorToInt(targetColor), s3);
      FinishCell(mv, s, s3, x);
      s' := PaintAt(mv, s3, x);
    }

    /** The four recursive calls of one phase from the marked cell (w, h),
        in the walk's order: up, right, left, down. The first two are made
        here, the last two by `SpreadRest`. */
    method Spread(targetColor: string, originalColor: string, p1Turn: bool, w: int, h: int,
                  newBoard: array2<int>, checkTargets: bool, ghost mv: Move, ghost s: State)
      returns (ghost s': State)
      requires Walking(mv, s) && newBoard == board && Describes(mv, targetColor, originalColor, p1Turn)
      requires InBoard(mv, Cell(w, h)) && Marked(s.marks, mv.m, Cell(w, h))
      requires Absorbed(mv.g0, mv.a, mv.o, mv.t, Cell(w, h))
      requires if checkTargets then At(mv.g0, Cell(w, h)) == mv.t else At(mv.g0, Cell(w, h)) == mv.o
      modifies board, visited
      decreases AllCells(width, height) - MarksOf(s.marks, mv.m), 3
      ensures Walking(mv, s') && Grows(mv, s, s') && NewClosed(mv, s, s')
      ensures NeighboursIn(mv, checkTargets, Cell(w, h), s')
    {
      ghost var x := Cell(w, h);
      NeighbourAdmissible(mv, s, checkTargets, x, Cell(w, h - 1));
      var s1 := UpdateHelper(targetColor, originalColor, p1Turn, w, h - 1, newBoard, checkTargets, mv, s); // up
      GrowsShrinks(mv, s, s1);
      NeighbourAdmissible(mv, s1, checkTargets, x, Cell(w + 1, h));
      var s2 := UpdateHelper(targetColor, originalColor, p1Turn, w + 1, h, newBoard, checkTargets, mv, s1); // right
      Advance(mv, s, s1, s2);
      GrowsKeepsMarked(mv, s1, s2, Cell(w, h - 1));
      GrowsKeepsMarked(mv, s, s2, x);
      s' := SpreadRest(targetColor, originalColor, p1Turn, w, h, newBoard, checkTargets, mv, s2);
      Advance(mv, s, s2, s');
    }

    /** The last two calls of a phase, left and down, once up and right
        are done. */
    method SpreadRest(targetColor: string, originalColor: string, p1Turn: bool, w: int, h: int,
                      newBoard: array2<int>, checkTargets: bool, ghost mv: Move, ghost s: State)
      returns (ghost s': State)
      requires Walking(mv, s) && newBoard == board && Describes(mv, targetColor, originalColor, p1Turn)
      requires InBoard(mv, Cell(w, h)) && Marked(s.marks, mv.m, Cell(w, h))
      requires Absorbed(mv.g0, mv.a, mv.o, mv.t, Cell(w, h))
      requires if checkTargets then At(mv.g0, Cell(w, h)) == mv.t else At(mv.g0, Cell(w, h)) == mv.o
      requires Accepts(mv.g0, mv.o, mv.t, checkTargets, Cell(w, h - 1)) ==> Marked(s.marks, mv.m, Cell(w, h - 1))
      requires Accepts(mv.g0, mv.o, mv.t, checkTargets, Cell(w + 1, h)) ==> Marked(s.marks, mv.m, Cell(w + 1, h))
      modifies board, visited
      decreases AllCells(width, height) - MarksOf(s.marks, mv.m), 2
      ensures Walking(mv, s') && Grows(mv, s, s') && NewClosed(mv, s, s')
      ensures NeighboursIn(mv, checkTargets, Cell(w, h), s')
    {
      ghost var x := Cell(w, h);
      NeighbourAdmissible(mv, s, checkTargets, x, Cell(w - 1, h));
      var s1 := UpdateHelper(targetColor, originalColor, p1Turn, w - 1, h, newBoard, checkTargets, mv, s); // left
      GrowsShrinks(mv, s, s1);
      NeighbourAdmissible(mv, s1, checkTargets, x, Cell(w, h + 1));
      s' := UpdateHelper(targetColor, originalColor, p1Turn, w, h + 1, newBoard, checkTargets, mv, s1); // down
      Advance(mv, s, s1, s');
      GrowsRefl(mv, s);
      NeighboursCollected(mv, checkTargets, w, h, s, s, s1, s');
    }

    /** Resets the visit mask to 0 everywhere, row by row. */
    method SetVisited()
      requires Holds(contents)
      modifies this, visited
      ensures board == old(board)
      ensures Holds(contents) && contents == State(Zeros(width, height), old(contents.cells))
      ensures colorMap == old(colorMap) && p1Score == old(p1Score) && p2Score == old(p2Score)
    {
      for w := 0 to width
        modifies visited
        invariant forall i, j {:trigger visited[i, j]} :: 0 <= i < w && 0 <= j < height ==> visited[i, j] == 0
      {
        for h := 0 to height
          modifies visited
          invariant forall i, j {:trigger visited[i, j]} :: 0 <= i < w && 0 <= j < height ==> visited[i, j] == 0
          invariant forall j :: 0 <= j < h ==> visited[w, j] == 0
        {
          visited[w, h] := 0;
        }
      }
      contents := State(Zeros(width, height), contents.cells);
    }

    /** Enters the six palette entries into the colour map. */
    method SetColorMap()
      modifies this
      ensures colorMap == old(colorMap) + Palette
      ensures board == old(board)
      ensures contents == old(contents) && p1Score == old(p1Score) && p2Score == old(p2Score)
    {
      ghost var m := colorMap;
      colorMap := colorMap[0 := "R"];
      colorMap := colorMap[1 := "G"];
      colorMap := colorMap[2 := "Y"];
      colorMap := colorMap[3 := "B"];
      colorMap := colorMap[4 := "P"];
      colorMap := colorMap[5 := "X"];
      PalettePuts(m);
    }

    /** Player 1's score, or player 2's. */
    function Score(p1: bool): int
      reads this
    {
      if p1 then p1Score else p2Score
    }

    /** The move the player to move makes by choosing `entry`. */
    ghost function MoveOf(entry: string, p1Turn: bool): Move
      requires Consistent()
      reads this, board, visited
    {
      Move(Cells(), width, height, Anchor(width, height, p1Turn),
           At(Cells(), Anchor(width, height, p1Turn)), ColorToInt(entry), Mark(p1Turn))
    }

    /** One move: reset the mask, run the walk from the mover's anchor,
        then recount the mover's score from the mask. */
    method UpdateBoard(entry: string, p1Turn: bool)
      requires Valid()
      modifies this, board, visited
      ensures colorMap == old(colorMap)
      ensures board == old(board)
      ensures Consistent() && (IsColor(ColorToInt(entry)) ==> Valid())
      ensures Cells() == Fill(old(Cells()), Anchor(width, height, p1Turn), ColorToInt(entry))
      ensures MarksOf(contents.marks, Mark(p1Turn)) == FillSet(old(Cells()), Anchor(width, height, p1Turn), ColorToInt(entry))
      ensures Score(p1Turn) == |FillSet(old(Cells()), Anchor(width, height, p1Turn), ColorToInt(entry))|
      ensures 1 <= Score(p1Turn) <= width * height
      ensures Score(!p1Turn) == old(Score(!p1Turn))
    {
      ghost var mv := MoveOf(entry, p1Turn);
      SetVisited();
      var newBoard := board;
      ghost var s1 := FloodFromAnchor(entry, p1Turn, newBoard, mv);
      board := newBoard;
      contents := s1;
      FillShape(mv.g0, width, height, mv.a, mv.t);
      CountScore(p1Turn);
      FillSetSize(mv.g0, width, height, mv.a, mv.t);
    }

    /** The mover's score reset to 0, then the walk started at the mover's
        anchor with the anchor's colour as the original colour: it marks
        exactly the flood and repaints exactly the flood. */
    method FloodFromAnchor(entry: string, p1Turn: bool, newBoard: array2<int>, ghost mv: Move)
      returns (ghost s1: State)
      requires Valid() && contents.marks == Zeros(width, height) && newBoard == board
      requires mv == MoveOf(entry, p1Turn)
      modifies this, board, visited
      ensures board == old(board) && colorMap == old(colorMap) && contents == old(contents)
      ensures Holds(s1) && s1.cells == Fill(mv.g0, mv.a, mv.t)
      ensures MarksOf(s1.marks, mv.m) == FillSet(mv.g0, mv.a, mv.t)
      ensures Score(p1Turn) == 0 && Score(!p1Turn) == old(Score(!p1Turn))
    {
      StartWalk(mv, entry, p1Turn);
      ghost var s0 := contents;
      var originalColor: int;
      if p1Turn {
        p1Score := 0;
        originalColor := board[0, height - 1];
        s1 := UpdateHelper(entry, colorMap[originalColor], p1Turn, 0, height - 1, newBoard, false, mv, contents);
      } else {
        p2Score := 0;
        originalColor := board[width - 1, 0];
        s1 := UpdateHelper(entry, colorMap[originalColor], p1Turn, width - 1, 0, newBoard, false, mv, contents);
      }
      WalkResult(mv, s0, s1);
    }

    /** Adds one point to the mover's score for each cell the mask gives
        the mover, scanning row by row. */
    method CountScore(p1Turn: bool)
      requires Holds(contents)
      modifies this
      ensures board == old(board) && colorMap == old(colorMap) && contents == old(contents)
      ensures Score(p1Turn) == old(Score(p1Turn)) + |MarksOf(contents.marks, Mark(p1Turn))|
      ensures Score(!p1Turn) == old(Score(!p1Turn))
    {
      ghost var v, m := contents.marks, Mark(p1Turn);
      var count := 0;
      for h := 0 to height
        modifies {}
        invariant count == ScanCount(v, m, width, height, h, 0)
      {
        for w := 0 to width
          modifies {}
          invariant count == ScanCount(v, m, width, height, h, w)
        {
          if p1Turn {
            if visited[w, h] == 1 {
              count := count + 1;
            }
          } else {
            if visited[w, h] == 2 {
              count := count + 1;
            }
          }
        }
      }
      ScanCountAll(v, m, width, height);
      if p1Turn {
        p1Score := p1Score + count;
      } else {
        p2Score := p2Score + count;
      }
    }

    /** Before the walk: the mask just reset, the colours those of the
        board before the move, and every invariant of the walk in place. */
    lemma StartWalk(mv: Move, entry: string, p1Turn: bool)
      requires Valid() && contents.marks == Zeros(width, height)
      requires mv == Move(Cells(), width, height, Anchor(width, height, p1Turn),
                          At(Cells(), Anchor(width, height, p1Turn)), ColorToInt(entry), Mark(p1Turn))
      ensures At(Cells(), mv.a) in colorMap && Describes(mv, entry, colorMap[At(Cells(), mv.a)], p1Turn)
      ensures Untouched(mv, contents) && Sound(mv, contents) && MarksOf(contents.marks, mv.m) == {}
      ensures Admissible(mv, contents, false, mv.a)
    {
      PaletteRoundTrip(mv.o);
      StartState(mv);
      AnchorAbsorbed(mv.g0, mv.a, mv.t);
    }

    /** Whether at most two distinct colours remain, found by collecting
        the colours of all cells in a set. */
    method CheckGameOver() returns (r: bool)
      requires Consistent()
      ensures r <==> |ColorsOf(Cells())| <= 2
    {
      var temp: set<int> := {};
      for h := 0 to height
        invariant temp == ColorsAt(Cells(), Scanned(width, h, 0))
      {
        for w := 0 to width
          invariant temp == ColorsAt(Cells(), Scanned(width, h, w))
        {
          ScannedNext(width, h, w);
          ColorsAtAdd(Cells(), Scanned(width, h, w), Cell(w, h));
          if board[w, h] !in temp {
            temp := temp + {board[w, h]};
          }
        }
        ScannedRow(width, h);
      }
      ScannedAll(width, height);
      ColorsAtAll(Cells(), width, height);
      if |temp| > 2 {
        return false;
      }
      return true;
    }

    /** The text form: each row's letters followed by a newline. */
    method ToString() returns (r: string)
      requires Valid()
      ensures r == Rows(Cells(), width, height, height)
      ensures |r| == height * (width + 1)
    {
      var sb := "";
      for h := 0 to height
        invariant sb == Rows(Cells(), width, height, h)
      {
        for w := 0 to width
          invariant sb == Rows(Cells(), width, height, h) + Row(Cells(), width, height, h, w)
        {
          RowAppend(Cells(), width, height, h, w);
          sb := sb + colorMap[board[w, h]];
        }
        sb := sb + "\n";
      }
      r := sb;
      TextLength(Cells(), width, height);
    }

    /** The colour of cell (w, h). */
    function GetPos(w: int, h: int): (r: int)
      requires Consistent() && 0 <= w < width && 0 <= h < height
      reads this, board, visited
      ensures r == Cells()[w][h]
    {
      board[w, h]
    }

    /** Fills the colour grid from the `k`th whole-board draw, starting over
        with the next draw while the two anchors agree, then redraws each
        anchor's two neighbours until they differ from it. */
    method FillBoard(fills: seq<Grid>, k: nat, r1: seq<int>, r2: seq<int>, r3: seq<int>, r4: seq<int>)
      requires Consistent() && IsFills(fills, width, height, k)
      requires IsDraws(r1) && IsDraws(r2) && IsDraws(r3) && IsDraws(r4)
      modifies this, board
      decreases |fills| - k
      ensures board == old(board)
      ensures colorMap == old(colorMap) && p1Score == old(p1Score) && p2Score == old(p2Score)
      ensures Consistent() && InPalette(Cells())
      ensures Cells()[0][height - 1] != Cells()[width - 1][0]
      ensures !(width == 2 && height == 2) ==> Sane(Cells(), width, height)
    {
      LoadGrid(fills[k]);
      if board[0, height - 1] == board[width - 1, 0] {
        FillBoard(fills, k + 1, r1, r2, r3, r4);
      }
      RedrawNeighbours(r1, r2, r3, r4);
    }

    /** Redraws each anchor's two neighbours, in turn, until it differs
        from the anchor. */
    method RedrawNeighbours(r1: seq<int>, r2: seq<int>, r3: seq<int>, r4: seq<int>)
      requires Consistent() && InPalette(Cells()) && Cells()[0][height - 1] != Cells()[width - 1][0]
      requires IsDraws(r1) && IsDraws(r2) && IsDraws(r3) && IsDraws(r4)
      modifies this, board
      ensures board == old(board)
      ensures colorMap == old(colorMap) && p1Score == old(p1Score) && p2Score == old(p2Score)
      ensures Consistent() && InPalette(Cells()) && contents.marks == old(contents.marks)
      ensures Cells()[0][height - 1] != Cells()[width - 1][0]
      ensures !(width == 2 && height == 2) ==> Sane(Cells(), width, height)
    {
      ghost var s0 := contents;
      Redraw(0, height - 2, 0, height - 1, r1);
      ghost var s1 := contents;
      Redraw(1, height - 1, 0, height - 1, r2);
      ghost var s2 := contents;
      Redraw(width - 2, 0, width - 1, 0, r3);
      ghost var s3 := contents;
      Redraw(width - 1, 1, width - 1, 0, r4);
      RedrawsSane(s0, s1, s2, s3, contents, width, height);
    }

    /** Copies the draw `g` into the colour grid, row by row. */
    method LoadGrid(g: Grid)
      requires Consistent() && IsGrid(g, width, height)
      modifies this, board
      ensures board == old(board)
      ensures colorMap == old(colorMap) && p1Score == old(p1Score) && p2Score == old(p2Score)
      ensures contents == State(old(contents.marks), g) && Consistent()
    {
      for h := 0 to height
        modifies board
        invariant forall i, j {:trigger board[i, j]} :: 0 <= i < width && 0 <= j < h ==> board[i, j] == g[i][j]
      {
        for w := 0 to width
          modifies board
          invariant forall i, j {:trigger board[i, j]} :: 0 <= i < width && 0 <= j < h ==> board[i, j] == g[i][j]
          invariant forall i :: 0 <= i < w ==> board[i, h] == g[i][h]
        {
          board[w, h] := g[w][h];
        }
      }
      contents := State(contents.marks, g);
    }

    /** Redraws cell (cw, ch) from the stream `r` while it has the colour
        of cell (aw, ah). */
    method Redraw(cw: int, ch: int, aw: int, ah: int, r: seq<int>)
      requires Consistent() && InPalette(Cells()) && IsDraws(r)
      requires 0 <= cw < width && 0 <= ch < height && 0 <= aw < width && 0 <= ah < height
      requires cw != aw || ch != ah
      modifies this, board
      ensures board == old(board)
      ensures colorMap == old(colorMap) && p1Score == old(p1Score) && p2Score == old(p2Score)
      ensures Consistent() && InPalette(Cells())
      ensures Redrawn(old(contents), contents, width, height, Cell(cw, ch), Cell(aw, ah))
    {
      ghost var s0, c := contents, board[aw, ah];
      var i := 0;
      while board[cw, ch] == board[aw, ah]
        invariant board == old(board) && colorMap == old(colorMap) && p1Score == old(p1Score) && p2Score == old(p2Score)
        invariant Holds(contents) && InPalette(contents.cells) && contents.marks == s0.marks
        invariant 0 <= i <= |r| && board[aw, ah] == c
        invariant forall i, j :: 0 <= i < width && 0 <= j < height && (i != cw || j != ch) ==>
          contents.cells[i][j] == s0.cells[i][j]
        invariant board[cw, ch] == c ==> exists j :: i <= j < |r| && r[j] != c
        decreases |r| - i
      {
        Store(board, cw, ch, r[i], contents);
        contents := contents.(cells := Put(contents.cells, Cell(cw, ch), r[i]));
        i := i + 1;
      }
    }

    /** A `w` x `h` board: filled from the draws, the mask reset, the
        colour map set, and both scores 1 (each player owns the anchor). */
    constructor (w: int, h: int, fills: seq<Grid>, r1: seq<int>, r2: seq<int>, r3: seq<int>, r4: seq<int>)
      requires w >= 2 && h >= 2 && IsFills(fills, w, h, 0)
      requires IsDraws(r1) && IsDraws(r2) && IsDraws(r3) && IsDraws(r4)
      ensures width == w && height == h && Valid() && fresh(board) && fresh(visited)
      ensures p1Score == 1 && p2Score == 1
      ensures contents.marks == Zeros(w, h)
      ensures Cells()[0][h - 1] != Cells()[w - 1][0]
      ensures !(w == 2 && h == 2) ==> Sane(Cells(), w, h)
    {
      width := w;
      height := h;
      board := new int[w, h]((_, _) => 0);
      visited := new int[w, h]((_, _) => 0);
      colorMap := map[];
      p1Score := 1;
      p2Score := 1;
      contents := State(Zeros(w, h), Zeros(w, h));
      new;
      FillBoard(fills, 0, r1, r2, r3, r4);
      SetVisited();
      SetColorMap();
    }
  }
}
