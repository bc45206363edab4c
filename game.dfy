/** The turn-taking rules of a Filler game: the colours the player to move
    may choose, the reading of an answer, and one turn. */
module GameRules {
  import opened Colors
  import opened Grids
  import opened Flood
  import opened BoardEngine

  /** The letters left once the two anchor colours are taken away. */
  lemma AvailableLetters(a: int, b: int)
    requires IsColor(a) && IsColor(b)
    ensures (Palette - {a, b}).Values == Palette.Values - {Palette[a], Palette[b]}
  {
    var m := Palette - {a, b};
    forall s | s in m.Values
      ensures s !in {Palette[a], Palette[b]}
    {
      var i :| i in m && m[i] == s;
      if s == Palette[a] {
        PaletteInjective(i, a);
      }
      if s == Palette[b] {
        PaletteInjective(i, b);
      }
    }
    forall s | s in Palette.Values - {Palette[a], Palette[b]}
      ensures s in m.Values
    {
      var i :| i in Palette && Palette[i] == s;
      assert i in m;
    }
  }

  /** Two different anchor colours leave four colours and four letters. */
  lemma AvailableCount(a: int, b: int)
    requires IsColor(a) && IsColor(b) && a != b
    ensures |(Palette - {a, b}).Keys| == 4 && |(Palette - {a, b}).Values| == 4
  {
    PaletteLetters();
    AvailableLetters(a, b);
    assert (Palette - {a, b}).Keys == Palette.Keys - {a, b};
    PaletteRoundTrip(a);
    PaletteRoundTrip(b);
    if Palette[a] == Palette[b] {
      PaletteInjective(a, b);
    }
  }

  /** An available letter names a colour other than both anchor colours. */
  lemma AvailableColor(a: int, b: int, e: string)
    requires IsColor(a) && IsColor(b) && e in (Palette - {a, b}).Values
    ensures IsColor(ColorToInt(e)) && ColorToInt(e) != a && ColorToInt(e) != b
  {
    AvailableLetters(a, b);
    PaletteLetters();
  }

  /** Re-entering the palette into a map with no other keys and removing the
      anchor colours gives the same map whatever the map held before. */
  lemma AvailableFromScratch(m: map<int, string>, a: int, b: int)
    requires m.Keys <= Palette.Keys
    ensures (m + Palette) - {a, b} == Palette - {a, b}
  {
  }

  /** A move to a colour the opponent's anchor does not have repaints the
      mover's anchor to that colour and leaves the opponent's anchor alone. */
  lemma MoveKeepsAnchorsApart(g: Grid, width: int, height: int, p1: bool, t: int)
    requires width >= 2 && height >= 2 && IsGrid(g, width, height)
    requires At(g, Anchor(width, height, true)) != At(g, Anchor(width, height, false))
    requires t != At(g, Anchor(width, height, !p1))
    ensures IsGrid(Fill(g, Anchor(width, height, p1), t), width, height)
    ensures At(Fill(g, Anchor(width, height, p1), t), Anchor(width, height, p1)) == t
    ensures At(Fill(g, Anchor(width, height, p1), t), Anchor(width, height, !p1)) == At(g, Anchor(width, height, !p1))
  {
    var a, b := Anchor(width, height, p1), Anchor(width, height, !p1);
    FillShape(g, width, height, a, t);
    FillRepaintsAnchor(g, a, t);
    FillSparesOtherColors(g, a, t, b);
  }

  /** A move to a non-colour leaves the mover's anchor holding it, so the
      grid is no longer within the palette. */
  lemma QuitPaintsOffPalette(g: Grid, a: Cell, t: int)
    requires InGrid(g, a) && !IsColor(t)
    ensures At(Fill(g, a, t), a) == t
    ensures !InPalette(Fill(g, a, t))
  {
    FillRepaintsAnchor(g, a, t);
    FillAt(g, a, t, a);
  }

  /** The scores a game keeps between turns: each player holds at least
      its anchor and at most the cells of its anchor's colour. */
  predicate ScoresFit(g: Grid, width: nat, height: nat, s1: int, s2: int)
    requires IsGrid(g, width, height) && width >= 1 && height >= 1
  {
    1 <= s1 <= |ColorClass(g, width, height, At(g, Anchor(width, height, true)))| &&
    1 <= s2 <= |ColorClass(g, width, height, At(g, Anchor(width, height, false)))|
  }

  /** Each player starts with a score of 1, its anchor. */
  lemma StartScoresFit(g: Grid, width: nat, height: nat)
    requires IsGrid(g, width, height) && width >= 1 && height >= 1
    ensures ScoresFit(g, width, height, 1, 1)
  {
    var a, b := Anchor(width, height, true), Anchor(width, height, false);
    ColorClassMember(g, width, height, At(g, a), a);
    ColorClassMember(g, width, height, At(g, b), b);
  }

  /** With the anchors apart, the two scores together never exceed the
      number of cells. */
  lemma ScoresFitBound(g: Grid, width: nat, height: nat, s1: int, s2: int)
    requires IsGrid(g, width, height) && width >= 1 && height >= 1
    requires At(g, Anchor(width, height, true)) != At(g, Anchor(width, height, false))
    requires ScoresFit(g, width, height, s1, s2)
    ensures s1 + s2 <= width * height
  {
    ClassesFit(g, width, height, At(g, Anchor(width, height, true)), At(g, Anchor(width, height, false)));
  }

  /** A move to a colour the opponent's anchor does not have keeps the
      scores fitting: the mover's new score is the absorbed set, which now
      has the mover's colour, and the opponent's colour class is untouched. */
  lemma MoveKeepsScoresFit(g: Grid, width: nat, height: nat, p1: bool, t: int, s1: int, s2: int, n1: int, n2: int)
    requires width >= 2 && height >= 2 && IsGrid(g, width, height)
    requires At(g, Anchor(width, height, true)) != At(g, Anchor(width, height, false))
    requires t != At(g, Anchor(width, height, !p1))
    requires ScoresFit(g, width, height, s1, s2)
    requires p1 ==> n1 == |FillSet(g, Anchor(width, height, p1), t)| && n2 == s2
    requires !p1 ==> n2 == |FillSet(g, Anchor(width, height, p1), t)| && n1 == s1
    ensures IsGrid(Fill(g, Anchor(width, height, p1), t), width, height)
    ensures ScoresFit(Fill(g, Anchor(width, height, p1), t), width, height, n1, n2)
  {
    var a, b := Anchor(width, height, p1), Anchor(width, height, !p1);
    MoveKeepsAnchorsApart(g, width, height, p1, t);
    FillSetInClass(g, width, height, a, t);
    FillSetSize(g, width, height, a, t);
    FillKeepsClass(g, width, height, a, t, At(g, b));
  }

  /** What one answer means: quit, an available colour, or neither. */
  datatype Input = Quit | Chosen(entry: string) | Rejected

  class Game {
    const board: Board
    var colorsAvailable: map<int, string>
    var p1Turn: bool
    var entry: string

    /** The colour of player 1's anchor (`p1`) or player 2's. */
    ghost function AnchorColor(p1: bool): int
      requires board.Consistent()
      reads board, board.board, board.visited
    {
      At(board.Cells(), Anchor(board.width, board.height, p1))
    }

    /** Between turns: a valid board whose anchors differ, the colours on
        offer are all but the two anchor colours, and the scores fit. */
    ghost predicate Valid()
      reads this, board, board.board, board.visited
    {
      board.Valid() && AnchorColor(true) != AnchorColor(false) &&
      colorsAvailable == Palette - {AnchorColor(true), AnchorColor(false)} &&
      ScoresFit(board.Cells(), board.width, board.height, board.p1Score, board.p2Score)
    }

    /** Between turns each score is at least 1 and the two together are at
        most the number of cells. */
    lemma ScoreConservation()
      requires Valid()
      ensures 1 <= board.p1Score && 1 <= board.p2Score
      ensures board.p1Score + board.p2Score <= board.width * board.height
    {
      ScoresFitBound(board.Cells(), board.width, board.height, board.p1Score, board.p2Score);
    }

    /** Enters all six colours and removes both anchor colours. */
    method FillColorsAvailable()
      requires board.Consistent()
      modifies this
      ensures colorsAvailable == (old(colorsAvailable) + Palette) - {AnchorColor(true), AnchorColor(false)}
      ensures p1Turn == old(p1Turn) && entry == old(entry)
    {
      PalettePuts(colorsAvailable);
      colorsAvailable := colorsAvailable[0 := "R"][1 := "G"][2 := "Y"][3 := "B"][4 := "P"][5 := "X"];
      colorsAvailable := colorsAvailable - {board.GetPos(0, board.height - 1)};
      colorsAvailable := colorsAvailable - {board.GetPos(board.width - 1, 0)};
    }

    /** The letters on offer. */
    function GetAvailableColors(): (r: set<string>)
      reads this`colorsAvailable
      ensures forall k :: k in colorsAvailable ==> colorsAvailable[k] in r
      ensures forall s :: s in r ==> exists k :: k in colorsAvailable && colorsAvailable[k] == s
    {
      set k | k in colorsAvailable :: colorsAvailable[k]
    }

    /** Between turns exactly four letters are on offer: those of the
        colours neither anchor has. */
    lemma AvailableColors()
      requires Valid()
      ensures GetAvailableColors() == Palette.Values - {Palette[AnchorColor(true)], Palette[AnchorColor(false)]}
      ensures |GetAvailableColors()| == 4
    {
      AvailableLetters(AnchorColor(true), AnchorColor(false));
      AvailableCount(AnchorColor(true), AnchorColor(false));
    }

    /** One answer, upper-cased: "Q" quits, an available letter is chosen,
        anything else is turned down. */
    function Classify(line: string): (r: Input)
      reads this`colorsAvailable
      ensures r == Quit <==> ToUpper(line) == "Q"
      ensures r.Chosen? <==> ToUpper(line) != "Q" && ToUpper(line) in GetAvailableColors()
      ensures r.Chosen? ==> r.entry == ToUpper(line)
    {
      var e := ToUpper(line);
      if e == "Q" then Quit
      else if e in colorsAvailable.Values then Chosen(e)
      else Rejected
    }

    /** A chosen answer is a colour neither anchor has. */
    lemma ChosenIsFresh(line: string)
      requires Valid() && Classify(line).Chosen?
      ensures IsColor(ColorToInt(Classify(line).entry))
      ensures ColorToInt(Classify(line).entry) != AnchorColor(true)
      ensures ColorToInt(Classify(line).entry) != AnchorColor(false)
    {
      AvailableColor(AnchorColor(true), AnchorColor(false), Classify(line).entry);
    }

    /** What a sequence of answers decides: the first answer that is not
        turned down, or `Rejected` when every answer is. */
    function Answer(lines: seq<string>): (r: Input)
      reads this`colorsAvailable
      decreases |lines|
      ensures r.Chosen? ==> r.entry in GetAvailableColors() && r.entry != "Q"
    {
      if lines == [] then Rejected
      else if !Classify(lines[0]).Rejected? then Classify(lines[0])
      else Answer(lines[1..])
    }

    /** Answer `k` is the first of `lines` that is not turned down. */
    ghost predicate AnsweredBy(lines: seq<string>, k: int)
      reads this`colorsAvailable
    {
      0 <= k < |lines| && !Classify(lines[k]).Rejected? &&
      forall j :: 0 <= j < k ==> Classify(lines[j]).Rejected?
    }

    /** The decision is `Rejected` exactly when every answer is turned down,
        and otherwise the meaning of the first answer that is not. */
    lemma {:induction false} AnswerIsFirst(lines: seq<string>)
      ensures Answer(lines).Rejected? <==> forall k :: 0 <= k < |lines| ==> Classify(lines[k]).Rejected?
      ensures !Answer(lines).Rejected? ==> exists k :: AnsweredBy(lines, k) && Answer(lines) == Classify(lines[k])
      decreases |lines|
    {
      if lines != [] && Classify(lines[0]).Rejected? {
        var rest := lines[1..];
        AnswerIsFirst(rest);
        forall k | 0 <= k < |rest|
          ensures rest[k] == lines[k + 1]
        {
        }
        if !Answer(rest).Rejected? {
          var k :| AnsweredBy(rest, k) && Answer(rest) == Classify(rest[k]);
          assert AnsweredBy(lines, k + 1) by {
            forall j | 0 <= j < k + 1
              ensures Classify(lines[j]).Rejected?
            {
              if j > 0 {
                assert lines[j] == rest[j - 1];
              }
            }
          }
        } else {
          forall k | 0 <= k < |lines|
            ensures Classify(lines[k]).Rejected?
          {
            if k > 0 {
              assert lines[k] == rest[k - 1];
            }
          }
        }
      } else if lines != [] {
        assert AnsweredBy(lines, 0);
      }
    }

    /** Reads answers from `lines` until one quits or is available, keeping
        the last one read, upper-cased, in `entry`. Running out of answers
        gives `Rejected`. */
    method AskInput(lines: seq<string>) returns (r: Input)
      modifies this
      ensures colorsAvailable == old(colorsAvailable) && p1Turn == old(p1Turn)
      ensures r == Answer(lines)
      ensures r == Quit ==> entry == "Q"
      ensures r.Chosen? ==> entry == r.entry
    {
      entry := "";
      var i := 0;
      while i < |lines|
        invariant 0 <= i <= |lines|
        invariant colorsAvailable == old(colorsAvailable) && p1Turn == old(p1Turn)
        invariant Answer(lines) == Answer(lines[i..])
      {
        assert lines[i..][1..] == lines[i + 1..];
        entry := ToUpper(lines[i]);
        if entry == "Q" {
          return Quit;
        }
        if entry in colorsAvailable.Values {
          return Chosen(entry);
        }
        i := i + 1;
      }
      return Rejected;
    }

    /** The move of a turn: the board's update with the chosen colour. It
        keeps the board valid, the anchors apart and the scores fitting. */
    method Move()
      requires Valid() && entry in GetAvailableColors()
      modifies board, board.board, board.visited
      ensures board.Valid() && AnchorColor(true) != AnchorColor(false)
      ensures ScoresFit(board.Cells(), board.width, board.height, board.p1Score, board.p2Score)
      ensures board.Cells() == Fill(old(board.Cells()), Anchor(board.width, board.height, p1Turn), ColorToInt(entry))
      ensures AnchorColor(p1Turn) == ColorToInt(entry)
      ensures AnchorColor(!p1Turn) == old(AnchorColor(!p1Turn))
      ensures board.Score(p1Turn) == |FillSet(old(board.Cells()), Anchor(board.width, board.height, p1Turn), ColorToInt(entry))|
      ensures board.Score(!p1Turn) == old(board.Score(!p1Turn))
    {
      ghost var s, s1, s2 := board.contents, board.p1Score, board.p2Score;
      AvailableColor(AnchorColor(true), AnchorColor(false), entry);
      board.UpdateBoard(entry, p1Turn);
      MoveKeepsScoresFit(s.cells, board.width, board.height, p1Turn, ColorToInt(entry), s1, s2, board.p1Score, board.p2Score);
      MoveKeepsAnchorsApart(s.cells, board.width, board.height, p1Turn, ColorToInt(entry));
    }

    /** After the move: the turn passes to the other player and the colours
        on offer are recomputed from the new anchors. */
    method HandOver()
      requires board.Valid() && AnchorColor(true) != AnchorColor(false)
      requires ScoresFit(board.Cells(), board.width, board.height, board.p1Score, board.p2Score)
      requires colorsAvailable.Keys <= Palette.Keys
      modifies this
      ensures Valid() && p1Turn == !old(p1Turn) && entry == old(entry)
    {
      p1Turn := !p1Turn;
      FillColorsAvailable();
      AvailableFromScratch(old(colorsAvailable), AnchorColor(true), AnchorColor(false));
    }

    /** One turn with the chosen colour `entry`: the move, the hand-over to
        the other player, the new offer and the game-over test. */
    method Turn() returns (gameOver: bool)
      requires Valid() && entry in GetAvailableColors()
      modifies this, board, board.board, board.visited
      ensures Valid() && p1Turn == !old(p1Turn) && entry == old(entry)
      ensures board.Cells() == Fill(old(board.Cells()), Anchor(board.width, board.height, old(p1Turn)), ColorToInt(entry))
      ensures AnchorColor(old(p1Turn)) == ColorToInt(entry)
      ensures AnchorColor(p1Turn) == old(AnchorColor(!p1Turn))
      ensures board.Score(old(p1Turn)) == |FillSet(old(board.Cells()), Anchor(board.width, board.height, old(p1Turn)), ColorToInt(entry))|
      ensures board.Score(p1Turn) == old(board.Score(!p1Turn))
      ensures gameOver <==> |ColorsOf(board.Cells())| <= 2
    {
      ghost var g0 := board.Cells();
      Move();
      ghost var g1, n1, n2 := board.Cells(), board.p1Score, board.p2Score;
      HandOver();
      gameOver := board.CheckGameOver();
      assert board.Cells() == g1 && board.p1Score == n1 && board.p2Score == n2;
    }

    /** The start of a round as `run` performs it: the answer is read and
        the move is made with it whatever it was, so quitting paints the
        mover's region with the colour index -1, which is no colour at all. */
    method RoundAsWritten(lines: seq<string>)
      requires Valid()
      modifies this, board, board.board, board.visited
      ensures board.Consistent() && p1Turn == !old(p1Turn)
      ensures old(Answer(lines)) == Quit ==> AnchorColor(old(p1Turn)) == -1 && !board.Valid()
    {
      ghost var s := board.contents;
      var r := AskInput(lines);
      board.UpdateBoard(entry, p1Turn);
      if r == Quit {
        QuitPaintsOffPalette(s.cells, Anchor(board.width, board.height, p1Turn), ColorToInt(entry));
      }
      p1Turn := !p1Turn;
    }

    /** One round of the game: ask for an answer, then either stop (on
        quitting or running out of answers) or play the turn. */
    method Round(lines: seq<string>) returns (over: bool)
      requires Valid()
      modifies this, board, board.board, board.visited
      ensures Valid()
      ensures !old(Answer(lines)).Chosen? ==>
        over && board.Cells() == old(board.Cells()) && p1Turn == old(p1Turn) &&
        board.p1Score == old(board.p1Score) && board.p2Score == old(board.p2Score)
      ensures old(Answer(lines)) == Quit ==> entry == "Q"
      ensures old(Answer(lines)).Chosen? ==>
        p1Turn == !old(p1Turn) && entry == old(Answer(lines)).entry &&
        board.Cells() == Fill(old(board.Cells()), Anchor(board.width, board.height, old(p1Turn)), ColorToInt(old(Answer(lines)).entry)) &&
        board.Score(old(p1Turn)) == |FillSet(old(board.Cells()), Anchor(board.width, board.height, old(p1Turn)), ColorToInt(old(Answer(lines)).entry))| &&
        board.Score(p1Turn) == old(board.Score(!p1Turn)) &&
        (over <==> |ColorsOf(board.Cells())| <= 2)
    {
      var r := AskInput(lines);
      if !r.Chosen? {
        return true;
      }
      over := Turn();
    }

    /** A game over `b`, player 1 to move, with the colours on offer filled in. */
    constructor (b: Board)
      requires b.Valid() && At(b.Cells(), Anchor(b.width, b.height, true)) != At(b.Cells(), Anchor(b.width, b.height, false))
      requires b.p1Score == 1 && b.p2Score == 1
      ensures board == b && Valid() && p1Turn && entry == ""
    {
      board := b;
      colorsAvailable := map[];
      p1Turn := true;
      entry := "";
      new;
      FillColorsAvailable();
      StartScoresFit(b.Cells(), b.width, b.height);
    }
  }
}
