/** The region-growth rule stated on values.

    A move by the player whose anchor is `a` (of colour `o`) to target `t`
    absorbs every cell reachable from `a` by a fill path: a path of adjacent
    cells that first runs through cells of colour `o` and then through cells
    of colour `t`: each step either enters a `t`-coloured cell or moves
    from an `o`-coloured cell to another `o`-coloured cell. */
module Flood {
  import opened Colors
  import opened Grids

  /** One step the flood may take from `x` to `y`: a target cell is always
      entered, an original-colour cell only from another original-colour cell. */
  predicate Step(g: Grid, o: int, t: int, x: Cell, y: Cell) {
    InGrid(g, y) && Adjacent(x, y) &&
    (At(g, y) == t || (InGrid(g, x) && At(g, x) == o && At(g, y) == o))
  }

  predicate IsFillPath(g: Grid, a: Cell, o: int, t: int, p: seq<Cell>) {
    |p| > 0 && p[0] == a && InGrid(g, a) && At(g, a) == o &&
    forall i :: 0 <= i < |p| - 1 ==> StepAt(g, o, t, p, i)
  }

  predicate StepAt(g: Grid, o: int, t: int, p: seq<Cell>, i: int)
    requires 0 <= i < |p| - 1
  {
    Step(g, o, t, p[i], p[i + 1])
  }

  /** What the walk accepts at `y`: in the target phase only target cells,
      otherwise cells of the original or the target colour. */
  predicate Accepts(g: Grid, o: int, t: int, checkTargets: bool, y: Cell) {
    InGrid(g, y) && (At(g, y) == t || (!checkTargets && At(g, y) == o))
  }

  ghost predicate Absorbed(g: Grid, a: Cell, o: int, t: int, x: Cell) {
    exists p :: IsFillPath(g, a, o, t, p) && p[|p| - 1] == x
  }

  /** `S` contains every cell the flood may step to from `x`. */
  ghost predicate ClosedIn(g: Grid, o: int, t: int, x: Cell, S: set<Cell>) {
    forall y :: Step(g, o, t, x, y) ==> y in S
  }

  /** The cells a move to `t` absorbs. */
  ghost function FillSet(g: Grid, a: Cell, t: int): set<Cell>
    requires InGrid(g, a)
  {
    set w, h | 0 <= w < |g| && 0 <= h < |g[w]| && Absorbed(g, a, At(g, a), t, Cell(w, h)) :: Cell(w, h)
  }

  /** The grid after the move: absorbed cells repainted to `t`, all others kept. */
  ghost function Fill(g: Grid, a: Cell, t: int): Grid
    requires InGrid(g, a)
  {
    seq(|g|, w requires 0 <= w < |g| =>
      seq(|g[w]|, h requires 0 <= h < |g[w]| =>
        if Cell(w, h) in FillSet(g, a, t) then t else g[w][h]))
  }

  lemma FillSetMember(g: Grid, a: Cell, t: int, c: Cell)
    requires InGrid(g, a)
    ensures c in FillSet(g, a, t) <==> InGrid(g, c) && Absorbed(g, a, At(g, a), t, c)
  {
    assert c == Cell(c.w, c.h);
  }

  /** The anchor is always absorbed. */
  lemma AnchorAbsorbed(g: Grid, a: Cell, t: int)
    requires InGrid(g, a)
    ensures Absorbed(g, a, At(g, a), t, a)
  {
    assert IsFillPath(g, a, At(g, a), t, [a]);
  }

  /** The flood is closed under steps. */
  lemma AbsorbedStep(g: Grid, a: Cell, o: int, t: int, x: Cell, y: Cell)
    requires Absorbed(g, a, o, t, x)
    requires Step(g, o, t, x, y)
    ensures Absorbed(g, a, o, t, y)
  {
    var p :| IsFillPath(g, a, o, t, p) && p[|p| - 1] == x;
    var q := p + [y];
    forall i | 0 <= i < |q| - 1
      ensures StepAt(g, o, t, q, i)
    {
      if i < |p| - 1 {
        assert StepAt(g, o, t, p, i);
      }
    }
    assert IsFillPath(g, a, o, t, q);
  }

  /** A neighbour the walk accepts from an absorbed cell whose colour matches
      the phase (target phase from a target cell, first phase from an
      original-colour cell) is absorbed too. */
  lemma AcceptedNeighbour(g: Grid, a: Cell, o: int, t: int, checkTargets: bool, x: Cell, y: Cell)
    requires Absorbed(g, a, o, t, x) && InGrid(g, x)
    requires if checkTargets then At(g, x) == t else At(g, x) == o
    requires Adjacent(x, y) && Accepts(g, o, t, checkTargets, y)
    ensures Absorbed(g, a, o, t, y)
  {
    AbsorbedStep(g, a, o, t, x, y);
  }

  /** Only cells of the original or the target colour are absorbed. */
  lemma AbsorbedColor(g: Grid, a: Cell, o: int, t: int, x: Cell)
    requires Absorbed(g, a, o, t, x)
    ensures InGrid(g, x)
    ensures At(g, x) == o || At(g, x) == t
  {
    var p :| IsFillPath(g, a, o, t, p) && p[|p| - 1] == x;
    if |p| > 1 {
      assert StepAt(g, o, t, p, |p| - 2);
    }
  }

  /** Every cell of a fill path lies in any set that holds the anchor
      and is closed under steps. */
  lemma {:induction false} PathInside(g: Grid, a: Cell, o: int, t: int, p: seq<Cell>, S: set<Cell>)
    requires IsFillPath(g, a, o, t, p)
    requires a in S
    requires forall x :: x in S ==> ClosedIn(g, o, t, x, S)
    ensures p[|p| - 1] in S
  {
    if |p| > 1 {
      var q := p[..|p| - 1];
      forall i | 0 <= i < |q| - 1
        ensures StepAt(g, o, t, q, i)
      {
        assert StepAt(g, o, t, p, i);
      }
      assert IsFillPath(g, a, o, t, q);
      PathInside(g, a, o, t, q, S);
      assert StepAt(g, o, t, p, |p| - 2);
    }
  }

  /** A set holding the anchor and closed under steps contains the whole flood. */
  lemma ClosedContainsFill(g: Grid, a: Cell, o: int, t: int, S: set<Cell>)
    requires a in S
    requires forall x :: x in S ==> ClosedIn(g, o, t, x, S)
    ensures forall x :: Absorbed(g, a, o, t, x) ==> x in S
  {
    forall x | Absorbed(g, a, o, t, x)
      ensures x in S
    {
      var p :| IsFillPath(g, a, o, t, p) && p[|p| - 1] == x;
      PathInside(g, a, o, t, p, S);
    }
  }

  /** The flood is the least set that holds the anchor and is closed under
      steps: a set of absorbed cells with those two properties is exactly it. */
  lemma FillSetCharacterized(g: Grid, a: Cell, t: int, S: set<Cell>)
    requires InGrid(g, a)
    requires a in S
    requires forall x :: x in S ==> Absorbed(g, a, At(g, a), t, x)
    requires forall x :: x in S ==> ClosedIn(g, At(g, a), t, x, S)
    ensures S == FillSet(g, a, t)
  {
    ClosedContainsFill(g, a, At(g, a), t, S);
    forall x | x in S
      ensures x in FillSet(g, a, t)
    {
      AbsorbedColor(g, a, At(g, a), t, x);
    }
  }

  /** The mover's new territory holds between 1 and width * height cells. */
  lemma FillSetSize(g: Grid, width: nat, height: nat, a: Cell, t: int)
    requires IsGrid(g, width, height)
    requires InGrid(g, a)
    ensures a in FillSet(g, a, t)
    ensures 1 <= |FillSet(g, a, t)| <= width * height
  {
    AnchorAbsorbed(g, a, t);
    FillSetMember(g, a, t, a);
    var F, A := FillSet(g, a, t), AllCells(width, height);
    assert F <= A;
    assert A == F + (A - F);
    AllCellsSize(width, height);
  }

  /** Cell by cell: an absorbed cell takes the target colour, any other
      cell keeps its colour. */
  lemma FillAt(g: Grid, a: Cell, t: int, c: Cell)
    requires InGrid(g, a) && InGrid(g, c)
    ensures |Fill(g, a, t)| == |g| && |Fill(g, a, t)[c.w]| == |g[c.w]|
    ensures At(Fill(g, a, t), c) == if Absorbed(g, a, At(g, a), t, c) then t else At(g, c)
  {
    FillSetMember(g, a, t, c);
  }

  /** The move keeps the board's shape and, for a palette target, its palette. */
  lemma FillShape(g: Grid, width: int, height: int, a: Cell, t: int)
    requires IsGrid(g, width, height) && InGrid(g, a)
    ensures IsGrid(Fill(g, a, t), width, height)
    ensures InPalette(g) && IsColor(t) ==> InPalette(Fill(g, a, t))
  {
  }

  /** Choosing the mover's own colour changes nothing. */
  lemma FillOwnColorIsNoop(g: Grid, a: Cell)
    requires InGrid(g, a)
    ensures Fill(g, a, At(g, a)) == g
  {
    var t := At(g, a);
    var r := Fill(g, a, t);
    forall w | 0 <= w < |g|
      ensures r[w] == g[w]
    {
      forall h | 0 <= h < |g[w]|
        ensures r[w][h] == g[w][h]
      {
        FillAt(g, a, t, Cell(w, h));
        if Absorbed(g, a, t, t, Cell(w, h)) {
          AbsorbedColor(g, a, t, t, Cell(w, h));
        }
      }
    }
  }

  /** A cell of a third colour (neither the mover's nor the target) is never
      absorbed and keeps its colour. */
  lemma FillSparesOtherColors(g: Grid, a: Cell, t: int, c: Cell)
    requires InGrid(g, a) && InGrid(g, c)
    requires At(g, c) != At(g, a) && At(g, c) != t
    ensures c !in FillSet(g, a, t)
    ensures At(Fill(g, a, t), c) == At(g, c)
  {
    FillAt(g, a, t, c);
    FillSetMember(g, a, t, c);
    if Absorbed(g, a, At(g, a), t, c) {
      AbsorbedColor(g, a, At(g, a), t, c);
    }
  }

  /** After a move the mover's anchor has the target colour. */
  lemma FillRepaintsAnchor(g: Grid, a: Cell, t: int)
    requires InGrid(g, a)
    ensures At(Fill(g, a, t), a) == t
  {
    AnchorAbsorbed(g, a, t);
    FillAt(g, a, t, a);
  }

  /** Every absorbed cell ends up with the target colour, so the absorbed
      set lies within the target's colour class after the move. */
  lemma FillSetInClass(g: Grid, width: nat, height: nat, a: Cell, t: int)
    requires IsGrid(g, width, height) && InGrid(g, a)
    ensures IsGrid(Fill(g, a, t), width, height)
    ensures FillSet(g, a, t) <= ColorClass(Fill(g, a, t), width, height, t)
    ensures |FillSet(g, a, t)| <= |ColorClass(Fill(g, a, t), width, height, t)|
  {
    FillShape(g, width, height, a, t);
    forall c | c in FillSet(g, a, t)
      ensures c in ColorClass(Fill(g, a, t), width, height, t)
    {
      FillSetMember(g, a, t, c);
      FillAt(g, a, t, c);
      ColorClassMember(Fill(g, a, t), width, height, t, c);
    }
    var S, C := FillSet(g, a, t), ColorClass(Fill(g, a, t), width, height, t);
    assert C == S + (C - S);
  }

  /** A move leaves the cells of a colour that is neither the anchor's nor
      the target exactly as they were. */
  lemma FillKeepsClass(g: Grid, width: nat, height: nat, a: Cell, t: int, q: int)
    requires IsGrid(g, width, height) && InGrid(g, a)
    requires q != At(g, a) && q != t
    ensures IsGrid(Fill(g, a, t), width, height)
    ensures ColorClass(Fill(g, a, t), width, height, q) == ColorClass(g, width, height, q)
  {
    FillShape(g, width, height, a, t);
    forall c | c in ColorClass(Fill(g, a, t), width, height, q)
      ensures c in ColorClass(g, width, height, q)
    {
      ColorClassMember(Fill(g, a, t), width, height, q, c);
      FillAt(g, a, t, c);
      ColorClassMember(g, width, height, q, c);
    }
    forall c | c in ColorClass(g, width, height, q)
      ensures c in ColorClass(Fill(g, a, t), width, height, q)
    {
      ColorClassMember(g, width, height, q, c);
      FillSparesOtherColors(g, a, t, c);
      ColorClassMember(Fill(g, a, t), width, height, q, c);
    }
  }
}
