/** Facts about the states the recursive walk passes through, stated on
    values. A `Move` holds what stays fixed during one move; a `State` is
    the visit mask and the colour grid at one point of the walk. */
module Walk {
  import opened Colors
  import opened Grids
  import opened Flood

  /** The pre-move grid `g0` (`width` x `height`), the mover's anchor `a`,
      the original colour `o`, the target colour `t` and the mover's mark `m`. */
  datatype Move = Move(g0: Grid, width: nat, height: nat, a: Cell, o: int, t: int, m: int)

  /** The visit mask and the colour grid as values. */
  datatype State = State(marks: Grid, cells: Grid)

  predicate InBoard(mv: Move, c: Cell) {
    0 <= c.w < mv.width && 0 <= c.h < mv.height
  }

  /** The pre-move grid and both grids of `s` have the board's dimensions. */
  predicate Shape(mv: Move, s: State) {
    IsGrid(mv.g0, mv.width, mv.height) &&
    IsGrid(s.marks, mv.width, mv.height) && IsGrid(s.cells, mv.width, mv.height)
  }

  /** `g` with cell `c` set to `val`. */
  function Put(g: Grid, c: Cell, val: int): (r: Grid)
    requires InGrid(g, c)
    ensures |r| == |g| && forall i :: 0 <= i < |g| ==> |r[i]| == |g[i]|
    ensures forall i, j :: 0 <= i < |g| && 0 <= j < |g[i]| ==>
      r[i][j] == if i == c.w && j == c.h then val else g[i][j]
  {
    g[c.w := g[c.w][c.h := val]]
  }

  /** The state after the walk marks cell `c`. */
  function MarkAt(mv: Move, s: State, c: Cell): State
    requires InGrid(s.marks, c)
  {
    State(Put(s.marks, c, mv.m), s.cells)
  }

  /** The state after the walk repaints cell `c` to the target colour. */
  function PaintAt(mv: Move, s: State, c: Cell): State
    requires InGrid(s.cells, c)
  {
    State(s.marks, Put(s.cells, c, mv.t))
  }

  /** The cells the mask `v` marks `m`. */
  function MarksOf(v: Grid, m: int): set<Cell> {
    set i, j | 0 <= i < |v| && 0 <= j < |v[i]| && v[i][j] == m :: Cell(i, j)
  }

  /** Cell `c` of mask `v` holds mark `m`. */
  predicate Marked(v: Grid, m: int, c: Cell) {
    InGrid(v, c) && At(v, c) == m
  }

  lemma MarksOfMember(v: Grid, m: int, c: Cell)
    ensures c in MarksOf(v, m) <==> Marked(v, m, c)
  {
    assert c == Cell(c.w, c.h);
  }

  /** Marking one unmarked cell adds exactly that cell. */
  lemma PutMarks(v: Grid, c: Cell, m: int)
    requires InGrid(v, c) && At(v, c) != m
    ensures c !in MarksOf(v, m)
    ensures MarksOf(Put(v, c, m), m) == MarksOf(v, m) + {c}
  {
    MarksOfMember(v, m, c);
    var r := Put(v, c, m);
    forall d
      ensures d in MarksOf(r, m) <==> d in MarksOf(v, m) + {c}
    {
      MarksOfMember(v, m, d);
      MarksOfMember(r, m, d);
    }
  }

  /** At cell `c`, from `s0` to `s1`: either left alone, or newly marked and
      repainted to the target colour. */
  predicate GrowsAt(mv: Move, s0: State, s1: State, c: Cell)
    requires Shape(mv, s0) && Shape(mv, s1) && InBoard(mv, c)
  {
    (At(s1.marks, c) == At(s0.marks, c) && At(s1.cells, c) == At(s0.cells, c)) ||
    (At(s0.marks, c) != mv.m && At(s1.marks, c) == mv.m && At(s1.cells, c) == mv.t)
  }

  /** From `s0` to `s1` every cell grows as `GrowsAt` says. */
  ghost predicate Grows(mv: Move, s0: State, s1: State) {
    Shape(mv, s0) && Shape(mv, s1) &&
    forall c {:trigger GrowsAt(mv, s0, s1, c)} :: InBoard(mv, c) ==> GrowsAt(mv, s0, s1, c)
  }

  lemma GrowsRefl(mv: Move, s: State)
    requires Shape(mv, s)
    ensures Grows(mv, s, s)
  {
    forall c | InBoard(mv, c)
      ensures GrowsAt(mv, s, s, c)
    {
    }
  }

  lemma GrowsTrans(mv: Move, s0: State, s1: State, s2: State)
    requires Grows(mv, s0, s1) && Grows(mv, s1, s2)
    ensures Grows(mv, s0, s2)
  {
    forall c | InBoard(mv, c)
      ensures GrowsAt(mv, s0, s2, c)
    {
      assert GrowsAt(mv, s0, s1, c) && GrowsAt(mv, s1, s2, c);
    }
  }

  /** Growth keeps a marked cell marked and its colour unchanged. */
  lemma GrowsKeepsMarked(mv: Move, s0: State, s1: State, c: Cell)
    requires Grows(mv, s0, s1)
    ensures Marked(s0.marks, mv.m, c) ==>
      Marked(s1.marks, mv.m, c) && At(s1.cells, c) == At(s0.cells, c)
  {
    if Marked(s0.marks, mv.m, c) {
      assert GrowsAt(mv, s0, s1, c);
    }
  }

  /** Growth never unmarks a cell. */
  lemma GrowsMarks(mv: Move, s0: State, s1: State)
    requires Grows(mv, s0, s1)
    ensures MarksOf(s0.marks, mv.m) <= MarksOf(s1.marks, mv.m)
  {
    forall c | c in MarksOf(s0.marks, mv.m)
      ensures c in MarksOf(s1.marks, mv.m)
    {
      MarksOfMember(s0.marks, mv.m, c);
      MarksOfMember(s1.marks, mv.m, c);
      GrowsKeepsMarked(mv, s0, s1, c);
    }
  }

  /** Growth leaves no more cells unmarked. */
  lemma GrowsShrinks(mv: Move, s0: State, s1: State)
    requires Grows(mv, s0, s1)
    ensures AllCells(mv.width, mv.height) - MarksOf(s1.marks, mv.m) <=
            AllCells(mv.width, mv.height) - MarksOf(s0.marks, mv.m)
  {
    GrowsMarks(mv, s0, s1);
  }

  /** Every cell marked between `s0` and `s1` is closed in the marks of `s1`. */
  ghost predicate NewClosed(mv: Move, s0: State, s1: State) {
    forall c {:trigger ClosedIn(mv.g0, mv.o, mv.t, c, MarksOf(s1.marks, mv.m))} ::
      c in MarksOf(s1.marks, mv.m) && c !in MarksOf(s0.marks, mv.m) ==>
      ClosedIn(mv.g0, mv.o, mv.t, c, MarksOf(s1.marks, mv.m))
  }

  lemma NewClosedRefl(mv: Move, s: State)
    ensures NewClosed(mv, s, s)
  {
  }

  lemma NewClosedTrans(mv: Move, s0: State, s1: State, s2: State)
    requires Grows(mv, s0, s1) && Grows(mv, s1, s2)
    requires NewClosed(mv, s0, s1) && NewClosed(mv, s1, s2)
    ensures NewClosed(mv, s0, s2)
  {
    GrowsMarks(mv, s0, s1);
    GrowsMarks(mv, s1, s2);
    var S1, S2 := MarksOf(s1.marks, mv.m), MarksOf(s2.marks, mv.m);
    forall c | c in S2 && c !in MarksOf(s0.marks, mv.m)
      ensures ClosedIn(mv.g0, mv.o, mv.t, c, S2)
    {
      if c in S1 {
        assert ClosedIn(mv.g0, mv.o, mv.t, c, S1);
      }
    }
  }

  /** Chaining one more call of the walk onto the calls since `s0`. */
  lemma Advance(mv: Move, s0: State, s1: State, s2: State)
    requires Grows(mv, s0, s1) && NewClosed(mv, s0, s1)
    requires Grows(mv, s1, s2) && NewClosed(mv, s1, s2)
    ensures Grows(mv, s0, s2) && NewClosed(mv, s0, s2)
    ensures AllCells(mv.width, mv.height) - MarksOf(s2.marks, mv.m) <=
            AllCells(mv.width, mv.height) - MarksOf(s0.marks, mv.m)
  {
    GrowsTrans(mv, s0, s1, s2);
    NewClosedTrans(mv, s0, s1, s2);
    GrowsShrinks(mv, s0, s2);
  }

  /** Every neighbour of `x` the walk accepts in this phase is marked in `s`. */
  predicate NeighboursIn(mv: Move, checkTargets: bool, x: Cell, s: State) {
    (Accepts(mv.g0, mv.o, mv.t, checkTargets, Cell(x.w, x.h - 1)) ==> Marked(s.marks, mv.m, Cell(x.w, x.h - 1))) &&
    (Accepts(mv.g0, mv.o, mv.t, checkTargets, Cell(x.w + 1, x.h)) ==> Marked(s.marks, mv.m, Cell(x.w + 1, x.h))) &&
    (Accepts(mv.g0, mv.o, mv.t, checkTargets, Cell(x.w - 1, x.h)) ==> Marked(s.marks, mv.m, Cell(x.w - 1, x.h))) &&
    (Accepts(mv.g0, mv.o, mv.t, checkTargets, Cell(x.w, x.h + 1)) ==> Marked(s.marks, mv.m, Cell(x.w, x.h + 1)))
  }

  /** Growth keeps the neighbours of `x` marked. */
  lemma NeighboursGrow(mv: Move, checkTargets: bool, x: Cell, s0: State, s1: State)
    requires Grows(mv, s0, s1) && NeighboursIn(mv, checkTargets, x, s0)
    ensures NeighboursIn(mv, checkTargets, x, s1)
  {
    GrowsKeepsMarked(mv, s0, s1, Cell(x.w, x.h - 1));
    GrowsKeepsMarked(mv, s0, s1, Cell(x.w + 1, x.h));
    GrowsKeepsMarked(mv, s0, s1, Cell(x.w - 1, x.h));
    GrowsKeepsMarked(mv, s0, s1, Cell(x.w, x.h + 1));
  }

  /** The walk may enter a neighbour of an absorbed cell of the phase's colour. */
  lemma NeighbourAdmissible(mv: Move, s: State, checkTargets: bool, x: Cell, y: Cell)
    requires Shape(mv, s) && InGrid(mv.g0, x) && Absorbed(mv.g0, mv.a, mv.o, mv.t, x)
    requires if checkTargets then At(mv.g0, x) == mv.t else At(mv.g0, x) == mv.o
    requires Adjacent(x, y)
    ensures Admissible(mv, s, checkTargets, y)
  {
    if InBoard(mv, y) && Accepts(mv.g0, mv.o, mv.t, checkTargets, y) {
      AcceptedNeighbour(mv.g0, mv.a, mv.o, mv.t, checkTargets, x, y);
    }
  }

  /** The four neighbours of (w, h) explored in turn (up, right, left, down)
      and each marked when accepted stay marked in the last state. */
  lemma NeighboursCollected(mv: Move, checkTargets: bool, w: int, h: int, s1: State, s2: State, s3: State, s4: State)
    requires Grows(mv, s1, s2) && Grows(mv, s2, s3) && Grows(mv, s3, s4)
    requires Accepts(mv.g0, mv.o, mv.t, checkTargets, Cell(w, h - 1)) ==> Marked(s1.marks, mv.m, Cell(w, h - 1))
    requires Accepts(mv.g0, mv.o, mv.t, checkTargets, Cell(w + 1, h)) ==> Marked(s2.marks, mv.m, Cell(w + 1, h))
    requires Accepts(mv.g0, mv.o, mv.t, checkTargets, Cell(w - 1, h)) ==> Marked(s3.marks, mv.m, Cell(w - 1, h))
    requires Accepts(mv.g0, mv.o, mv.t, checkTargets, Cell(w, h + 1)) ==> Marked(s4.marks, mv.m, Cell(w, h + 1))
    ensures NeighboursIn(mv, checkTargets, Cell(w, h), s4)
  {
    GrowsTrans(mv, s2, s3, s4);
    GrowsTrans(mv, s1, s2, s4);
    GrowsKeepsMarked(mv, s1, s4, Cell(w, h - 1));
    GrowsKeepsMarked(mv, s2, s4, Cell(w + 1, h));
    GrowsKeepsMarked(mv, s3, s4, Cell(w - 1, h));
  }

  /** A cell of the original or the target colour whose neighbours are marked
      in the phases that match its colour is closed in the marks. */
  lemma NeighboursClosed(mv: Move, x: Cell, s0: State, s: State)
    requires InGrid(mv.g0, x) && (At(mv.g0, x) == mv.o || At(mv.g0, x) == mv.t)
    requires Grows(mv, s0, s)
    requires At(mv.g0, x) == mv.t ==> NeighboursIn(mv, true, x, s0)
    requires At(mv.g0, x) != mv.t ==> NeighboursIn(mv, false, x, s)
    ensures ClosedIn(mv.g0, mv.o, mv.t, x, MarksOf(s.marks, mv.m))
  {
    if At(mv.g0, x) == mv.t {
      NeighboursGrow(mv, true, x, s0, s);
    }
    forall y | Step(mv.g0, mv.o, mv.t, x, y)
      ensures y in MarksOf(s.marks, mv.m)
    {
      assert y == Cell(x.w, x.h - 1) || y == Cell(x.w + 1, x.h) ||
             y == Cell(x.w - 1, x.h) || y == Cell(x.w, x.h + 1);
      MarksOfMember(s.marks, mv.m, y);
    }
  }

  /** Cell `c`, unless marked, still holds its pre-move colour. */
  predicate KeptAt(mv: Move, s: State, c: Cell)
    requires Shape(mv, s) && InBoard(mv, c)
  {
    At(s.marks, c) != mv.m ==> At(s.cells, c) == At(mv.g0, c)
  }

  /** Unmarked cells still hold their pre-move colour. */
  ghost predicate Untouched(mv: Move, s: State) {
    Shape(mv, s) &&
    forall c {:trigger KeptAt(mv, s, c)} :: InBoard(mv, c) ==> KeptAt(mv, s, c)
  }

  /** Every marked cell is absorbed by the move. */
  ghost predicate Sound(mv: Move, s: State) {
    forall c {:trigger Absorbed(mv.g0, mv.a, mv.o, mv.t, c)} ::
      c in MarksOf(s.marks, mv.m) ==> Absorbed(mv.g0, mv.a, mv.o, mv.t, c)
  }

  /** The walk may enter `c`: if it is in range, unmarked and accepted in
      this phase, it is absorbed. */
  ghost predicate Admissible(mv: Move, s: State, checkTargets: bool, c: Cell)
    requires Shape(mv, s)
  {
    InBoard(mv, c) && At(s.marks, c) != mv.m && Accepts(mv.g0, mv.o, mv.t, checkTargets, c) ==>
    Absorbed(mv.g0, mv.a, mv.o, mv.t, c)
  }

  /** Marking an absorbed cell keeps both invariants and adds exactly that cell. */
  lemma MarkCell(mv: Move, s: State, x: Cell)
    requires Untouched(mv, s) && Sound(mv, s)
    requires InBoard(mv, x) && At(s.marks, x) != mv.m && Absorbed(mv.g0, mv.a, mv.o, mv.t, x)
    ensures Untouched(mv, MarkAt(mv, s, x)) && Sound(mv, MarkAt(mv, s, x))
    ensures MarksOf(MarkAt(mv, s, x).marks, mv.m) == MarksOf(s.marks, mv.m) + {x}
    ensures x !in MarksOf(s.marks, mv.m)
    ensures AllCells(mv.width, mv.height) - MarksOf(MarkAt(mv, s, x).marks, mv.m) <
            AllCells(mv.width, mv.height) - MarksOf(s.marks, mv.m)
  {
    PutMarks(s.marks, x, mv.m);
    assert x in AllCells(mv.width, mv.height);
    forall c | InBoard(mv, c)
      ensures KeptAt(mv, MarkAt(mv, s, x), c)
    {
      assert KeptAt(mv, s, c);
    }
  }

  /** Closing a call of the walk at `x`: `x` was marked in `s0`, its
      neighbours were explored up to `s2`, and `x` is repainted last. */
  lemma FinishCell(mv: Move, s0: State, s2: State, x: Cell)
    requires Shape(mv, s0) && InBoard(mv, x) && At(s0.marks, x) != mv.m
    requires Grows(mv, MarkAt(mv, s0, x), s2) && NewClosed(mv, MarkAt(mv, s0, x), s2)
    requires ClosedIn(mv.g0, mv.o, mv.t, x, MarksOf(s2.marks, mv.m))
    requires Untouched(mv, s2)
    ensures Grows(mv, s0, PaintAt(mv, s2, x))
    ensures NewClosed(mv, s0, PaintAt(mv, s2, x))
    ensures Untouched(mv, PaintAt(mv, s2, x))
  {
    var s1, s3 := MarkAt(mv, s0, x), PaintAt(mv, s2, x);
    PutMarks(s0.marks, x, mv.m);
    GrowsMarks(mv, s1, s2);
    forall c | c in MarksOf(s2.marks, mv.m) && c !in MarksOf(s0.marks, mv.m)
      ensures ClosedIn(mv.g0, mv.o, mv.t, c, MarksOf(s2.marks, mv.m))
    {
      if c != x {
        assert c !in MarksOf(s1.marks, mv.m);
      }
    }
    forall c | InBoard(mv, c)
      ensures GrowsAt(mv, s0, s3, c)
    {
      assert GrowsAt(mv, s1, s2, c);
    }
    forall c | InBoard(mv, c)
      ensures KeptAt(mv, s3, c)
    {
      assert KeptAt(mv, s2, c);
      if c == x {
        GrowsKeepsMarked(mv, s1, s2, x);
      }
    }
  }
  /** A freshly reset mask marks nothing, so every invariant of the walk
      holds before it starts. */
  lemma StartState(mv: Move)
    requires IsGrid(mv.g0, mv.width, mv.height) && mv.m != 0
    ensures MarksOf(Zeros(mv.width, mv.height), mv.m) == {}
    ensures Untouched(mv, State(Zeros(mv.width, mv.height), mv.g0))
    ensures Sound(mv, State(Zeros(mv.width, mv.height), mv.g0))
  {
    var s := State(Zeros(mv.width, mv.height), mv.g0);
    forall c | c in MarksOf(s.marks, mv.m)
      ensures false
    {
      MarksOfMember(s.marks, mv.m, c);
    }
    forall c | InBoard(mv, c)
      ensures KeptAt(mv, s, c)
    {
    }
  }

  /** The walk's outcome. Started on the pre-move grid with nothing marked,
      a walk that keeps its invariants and marks the anchor has marked
      exactly the flood and repainted exactly the flood. */
  lemma WalkResult(mv: Move, s0: State, s1: State)
    requires Shape(mv, s0) && s0.cells == mv.g0 && MarksOf(s0.marks, mv.m) == {}
    requires InGrid(mv.g0, mv.a) && mv.o == At(mv.g0, mv.a)
    requires Grows(mv, s0, s1) && NewClosed(mv, s0, s1) && Sound(mv, s1)
    requires Marked(s1.marks, mv.m, mv.a)
    ensures MarksOf(s1.marks, mv.m) == FillSet(mv.g0, mv.a, mv.t)
    ensures s1.cells == Fill(mv.g0, mv.a, mv.t)
  {
    var S := MarksOf(s1.marks, mv.m);
    MarksOfMember(s1.marks, mv.m, mv.a);
    forall x | x in S
      ensures ClosedIn(mv.g0, mv.o, mv.t, x, S)
    {
    }
    FillSetCharacterized(mv.g0, mv.a, mv.t, S);
    var F := Fill(mv.g0, mv.a, mv.t);
    forall w | 0 <= w < mv.width
      ensures s1.cells[w] == F[w]
    {
      forall h | 0 <= h < mv.height
        ensures s1.cells[w][h] == F[w][h]
      {
        var c := Cell(w, h);
        assert GrowsAt(mv, s0, s1, c);
        MarksOfMember(s0.marks, mv.m, c);
        MarksOfMember(s1.marks, mv.m, c);
        FillSetMember(mv.g0, mv.a, mv.t, c);
      }
    }
  }

  /** One more cell of a row-major scan: the scanned marks grow by that
      cell exactly when it is marked. */
  lemma MarksScannedNext(v: Grid, m: int, width: nat, height: nat, h: nat, w: nat)
    requires IsGrid(v, width, height) && h < height && w < width
    ensures |MarksOf(v, m) * Scanned(width, h, w + 1)| ==
            |MarksOf(v, m) * Scanned(width, h, w)| + (if v[w][h] == m then 1 else 0)
  {
    ScannedNext(width, h, w);
    MarksOfMember(v, m, Cell(w, h));
    var A, B := MarksOf(v, m) * Scanned(width, h, w), MarksOf(v, m) * Scanned(width, h, w + 1);
    if v[w][h] == m {
      assert B == A + {Cell(w, h)};
    } else {
      assert B == A;
    }
  }

  /** A completed scan has counted every marked cell. */
  lemma MarksScannedAll(v: Grid, m: int, width: nat, height: nat)
    requires IsGrid(v, width, height)
    ensures MarksOf(v, m) * Scanned(width, height, 0) == MarksOf(v, m)
  {
    ScannedAll(width, height);
  }

  /** The number of cells marked `m` that a row-major scan of `v` has
      passed before column `w` of row `h`. */
  function ScanCount(v: Grid, m: int, width: nat, height: nat, h: nat, w: nat): nat
    requires IsGrid(v, width, height) && h <= height && w <= width && (h < height || w == 0)
    decreases h, w
  {
    if w > 0 then ScanCount(v, m, width, height, h, w - 1) + (if v[w - 1][h] == m then 1 else 0)
    else if h > 0 then ScanCount(v, m, width, height, h - 1, width)
    else 0
  }

  /** The scan count is the number of marked cells among those scanned. */
  lemma {:induction false} ScanCountIsMarks(v: Grid, m: int, width: nat, height: nat, h: nat, w: nat)
    requires IsGrid(v, width, height) && h <= height && w <= width && (h < height || w == 0)
    ensures ScanCount(v, m, width, height, h, w) == |MarksOf(v, m) * Scanned(width, h, w)|
    decreases h, w
  {
    if w > 0 {
      ScanCountIsMarks(v, m, width, height, h, w - 1);
      MarksScannedNext(v, m, width, height, h, w - 1);
    } else if h > 0 {
      ScanCountIsMarks(v, m, width, height, h - 1, width);
      ScannedRow(width, h - 1);
    } else {
      assert Scanned(width, 0, 0) == {};
    }
  }

  /** A whole scan counts every marked cell. */
  lemma ScanCountAll(v: Grid, m: int, width: nat, height: nat)
    requires IsGrid(v, width, height)
    ensures ScanCount(v, m, width, height, height, 0) == |MarksOf(v, m)|
  {
    ScanCountIsMarks(v, m, width, height, height, 0);
    MarksScannedAll(v, m, width, height);
  }
}
