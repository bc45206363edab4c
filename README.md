# Filler: the region-growth engine and the turn rules

Filler is a two-player game on a `width` x `height` grid of six colours
(`R G Y B P X`, indices 0..5). Player 1 owns the bottom-left corner
`board[0][height-1]` and player 2 owns the top-right corner `board[width-1][0]`.
On a turn, the player to move names a colour. Their region is then flooded
from their corner: the walk spreads through the cells of the corner's
original colour. Once it meets a cell of the chosen colour, it spreads from
there through chosen-colour cells only. Every absorbed cell is marked in a
visit mask and repainted to the chosen colour. The mover's score is the
number of marked cells. A player may not choose either corner's current
colour. The game ends once at most two colours remain on the board.

The model has six modules:

- `Colors` (`colors.dfy`): the colour palette, the letter-to-index
  conversion and the upper-casing of an input line.
- `Grids` (`grids.dfy`): the grid as a value `g[w][h]`, the player anchors,
  and the sanity conditions of a freshly drawn board.
- `Flood` (`flood.dfy`): the flood stated without any walk. A cell is
  absorbed when a path of adjacent cells leads to it from the anchor. The
  path first runs through cells of the anchor's colour and then through
  cells of the target colour. `FillSet` is the set of absorbed cells.
  `Fill` is the grid after the move.
- `Walk` (`walk.dfy`): the invariants of the recursive walk over snapshots
  `State(marks, cells)` of the two arrays, and the scan-order count of
  marked cells.
- `BoardEngine` (`board.dfy`): class `Board` over two `array2<int>`. It
  holds the recursive walk (`UpdateHelper`), the move (`UpdateBoard`), the
  game-over test, the text form, and the board fill driven by supplied
  draws.
- `GameRules` (`game.dfy`): class `Game`. It holds the available-colour map,
  the input acceptance, and one turn and one round of the game loop.

Several facts are proved about the walk:

- The walk marks exactly `FillSet` of the grid as it was before the move.
- Its in-place repaint (`newBoard` is the same array as `board`) leaves
  exactly `Fill`.
- It never reads outside the grid.
- It terminates, because every visit marks a cell that was unmarked.

A ghost field `contents` mirrors both arrays, so that every method can
state the new state of the board as a value.

## Model

The table lists the members whose contracts state a property. The
definitions those contracts are written in have no row of their own: the
predicates and specification functions such as `Grids.Sane`,
`Grids.ColorClass`, `Flood.FillSet`, `Flood.Fill`, `BoardEngine.Rows` and
`GameRules.ScoresFit`, and the class
predicates `Consistent`, `Valid` and `Walking`.

| member | source | states |
|---|---|---|
| Colors.ColorToInt | Board.java:135-151 | the result is in -1..5; a non-negative result is the palette index whose letter is the entry; the result is -1 exactly when the entry is not one of the six letters |
| Colors.PaletteRoundTrip | Board.java:37-44 | converting the letter of colour i back gives i, for every i in 0..5, and each letter is a single character |
| Colors.PaletteInjective | Board.java:37-44 | two colours with the same letter are the same colour |
| Colors.PaletteLetters | Board.java:37-44 | the colour map has exactly the keys 0..5 and the six distinct letters R, G, Y, B, P, X |
| Colors.PalettePuts | Board.java:38-43 | the six puts leave any map overridden by the palette, whatever it held before |
| Colors.ToUpper | Game.java:65 | the upper-cased line has the same length, and each character is the upper case of the input's character at that position |
| Flood.FillSetMember | Board.java:56-80 | a cell is in the absorbed set exactly when it is on the grid and reachable from the anchor by a fill path |
| Flood.AnchorAbsorbed | Board.java:90-97 | the mover's anchor is always absorbed |
| Flood.AbsorbedStep | Board.java:68-80 | the absorbed set is closed under the steps the walk takes: a target cell next to an absorbed cell, or an original-colour cell next to an absorbed original-colour cell |
| Flood.AcceptedNeighbour | Board.java:59-80 | a neighbour the walk accepts in the current phase, seen from an absorbed cell of that phase's colour, is absorbed |
| Flood.AbsorbedColor | Board.java:59-64 | only cells of the original or the target colour are absorbed |
| Flood.PathInside | Board.java:56-80 | every fill path stays within any set that holds the anchor and is closed under steps |
| Flood.ClosedContainsFill | Board.java:56-80 | every set that holds the anchor and is closed under steps contains all absorbed cells |
| Flood.FillSetCharacterized | Board.java:51-83 | a set of absorbed cells that holds the anchor and is closed under steps is exactly the absorbed set |
| Flood.FillSetSize | Board.java:87-114 | the anchor is absorbed, so the mover's territory has between 1 and width * height cells |
| Flood.FillAt | Board.java:82-88 | after the move, an absorbed cell has the target colour and every other cell keeps its colour |
| Flood.FillShape | Board.java:82-100 | the move keeps the grid's dimensions, and a palette target keeps every cell in the palette |
| Flood.FillOwnColorIsNoop | Board.java:59-82 | choosing the anchor's own colour changes no cell |
| Flood.FillSparesOtherColors | Board.java:59-61 | a cell of a third colour is never absorbed and keeps its colour |
| Flood.FillSetInClass | Board.java:66-82 | every absorbed cell ends with the target colour, so the absorbed set lies within the target's colour class and is no larger than it |
| Flood.FillKeepsClass | Board.java:59-61 | a move leaves the cells of any colour other than the anchor's and the target's exactly as they were |
| Flood.FillRepaintsAnchor | Board.java:90-98 | after the move, the mover's anchor has the target colour |
| Grids.AllCellsSize | Board.java:102-103 | the board has exactly width * height cells |
| Grids.ColorsAtAll | Board.java:120-126 | the colours of all cells of the board are the colours present on the grid |
| Grids.ClassesFit | Board.java:102-114 | the cells of two different colours together number at most width * height |
| Walk.GrowsTrans | Board.java:69-79 | growth is transitive: across two successive calls, every cell either keeps its mark and colour or is newly marked and painted the target |
| Walk.NewClosedTrans | Board.java:69-79 | the cells newly marked by two successive calls have all their accepted neighbours marked in the end |
| Walk.NeighboursCollected | Board.java:69-79 | after the four calls up, right, left and down, every accepted neighbour of the cell is marked |
| Walk.MarkCell | Board.java:66 | marking an absorbed, unmarked cell keeps the walk's invariants |
| Walk.FinishCell | Board.java:66-82 | once a cell's neighbours are handled, repainting it to the target keeps the walk's invariants and closes the cell |
| Walk.StartState | Board.java:87-88 | with the mask reset and the grid that of the move, the walk's invariants hold and nothing is marked |
| Walk.WalkResult | Board.java:51-100 | a walk that started from a reset mask and marked the anchor ends with the marks equal to the absorbed set and the cells equal to the filled grid |
| Walk.MarksScannedAll | Board.java:102-114 | a full row-major scan passes every marked cell |
| Walk.ScanCountIsMarks | Board.java:102-114 | the count a row-major scan has reached equals the number of marked cells it has passed |
| Walk.ScanCountAll | Board.java:102-114 | the completed scan count equals the number of marked cells |
| BoardEngine.RowShape | Board.java:205-207 | the letters of one row appear in column order, one character per cell |
| BoardEngine.LineStartIsProduct | Board.java:202-211 | line j of the text starts at position j * (width + 1) |
| BoardEngine.RowsLength | Board.java:202-211 | the first h lines of text end where line h would start |
| BoardEngine.TextLength | Board.java:202-211 | the text form of the whole board holds height * (width + 1) characters |
| BoardEngine.RowsShape | Board.java:202-211 | the first h lines end where line h would start. The letter of cell (i, j) is at position `LineStart(width, j) + i`, and a newline is at `LineStart(width, j) + width`, where line j starts at j * (width + 1) |
| BoardEngine.RedrawsSane | Board.java:159-173 | the four redraws keep every mark and every cell in the palette, keep the anchors apart, and for boards larger than 2 x 2 leave the board sane: each anchor differs from its two neighbours |
| BoardEngine.Board.UpdateHelper | Board.java:51-83 | one call at (w, h) either returns at a guard or visits the cell. The walk's invariants are kept, marks only grow, and newly marked cells are closed under steps. An accepted cell ends up marked |
| BoardEngine.Board.Store | Board.java:66-82 | writing one cell of the board or of the mask updates the same cell of the mirrored snapshot and nothing else |
| BoardEngine.Board.Visit | Board.java:66-82 | the cell ends up marked, the walk's invariants are kept, and only newly marked cells are repainted |
| BoardEngine.Board.Spread | Board.java:69-79 | after the four calls of one phase, every neighbour accepted in that phase is marked, and the walk's invariants are kept |
| BoardEngine.Board.SpreadRest | Board.java:71-72 | given the first two neighbours handled, the left and down calls leave every neighbour accepted in the phase marked |
| BoardEngine.Board.SetVisited | Board.java:46-49 | the mask is all zeros, and the colours, the colour map and the scores are unchanged |
| BoardEngine.Board.SetColorMap | Board.java:37-44 | the colour map becomes the old map overridden by the palette, and nothing else changes |
| BoardEngine.Board.UpdateBoard | Board.java:85-115 | the new grid is the fill of the old grid from the mover's anchor. The mover's marks are exactly the absorbed set, and the mover's score is its size, between 1 and width * height. The other player's score is unchanged, the board stays the same array, and a palette target keeps the board valid |
| BoardEngine.Board.FloodFromAnchor | Board.java:90-98 | the mover's score becomes 0, and the walk from the mover's anchor marks exactly the absorbed set and repaints exactly it |
| BoardEngine.Board.CountScore | Board.java:102-114 | the mover's score grows by the number of cells marked for the mover; the other score and the board are unchanged |
| BoardEngine.Board.StartWalk | Board.java:87-93 | right after the mask reset, the walk's preconditions hold at the anchor with the anchor's colour as the original colour |
| BoardEngine.Board.CheckGameOver | Board.java:117-133 | the result is true exactly when the grid holds at most two distinct colours; nothing is changed |
| BoardEngine.Board.ToString | Board.java:202-211 | the result is the rows of letters, each followed by a newline, whose shape `RowsShape` states; it holds height * (width + 1) characters |
| BoardEngine.Board.GetPos | Board.java:184-186 | the result is the colour of cell (w, h) |
| BoardEngine.Board.LoadGrid | Board.java:154-158 | the colour grid becomes the draw, and the mask is unchanged |
| BoardEngine.Board.Redraw | Board.java:162-173 | only the redrawn cell changes; it ends in the palette and differs from its anchor |
| BoardEngine.Board.RedrawNeighbours | Board.java:162-173 | the anchors stay apart, every cell stays in the palette, and on boards larger than 2 x 2 the board ends sane |
| BoardEngine.Board.FillBoard | Board.java:153-174 | the board ends in the palette with distinct anchors, and on boards larger than 2 x 2 it ends sane |
| BoardEngine.Board.constructor | Board.java:26-35 | the board is valid: in the palette, with distinct anchors, sane on boards larger than 2 x 2, a zero mask, the palette as its colour map, and both scores 1 |
| GameRules.AvailableLetters | Game.java:29-30 | the letters left after removing the two anchor colours are the palette's letters minus those two letters |
| GameRules.AvailableCount | Game.java:22-31 | with distinct anchors, exactly four colours and four letters remain available |
| GameRules.AvailableColor | Game.java:73 | an available letter names a colour, and that colour is neither anchor's colour |
| GameRules.AvailableFromScratch | Game.java:22-31 | the available map does not depend on what the map held before, as long as its keys are colours |
| GameRules.MoveKeepsAnchorsApart | Game.java:40-41 | a move to a colour other than the opponent's gives the mover's anchor that colour and leaves the opponent's anchor unchanged, so the anchors stay apart |
| GameRules.StartScoresFit | Board.java:12-13 | the starting scores of 1 each fit: each anchor's colour class holds at least the anchor |
| GameRules.ScoresFitBound | Board.java:102-114 | with the anchors apart, fitting scores add up to at most width * height |
| GameRules.MoveKeepsScoresFit | Game.java:40 | a move to a colour other than the opponent's keeps the scores fitting: the mover's new score is the absorbed set, which then has the mover's anchor colour, and the opponent's colour class and score are unchanged |
| GameRules.QuitPaintsOffPalette | Game.java:39-40 | a move to a non-colour leaves the mover's anchor holding it, so the grid leaves the palette |
| GameRules.Game.FillColorsAvailable | Game.java:22-31 | the map becomes the old map overridden by the palette, without the two anchor colours |
| GameRules.Game.AvailableColors | Game.java:87-89 | the available letters are the palette's letters minus both anchors' letters, four of them |
| GameRules.Game.GetAvailableColors | Game.java:87-89 | the letters on offer are exactly the values of the available map |
| GameRules.Game.ScoreConservation | Game.java:39-43 | between turns each score is at least 1 and the two scores add up to at most width * height |
| GameRules.Game.Classify | Game.java:65-75 | a line is a quit exactly when its upper case is "Q". It is accepted exactly when it is not a quit and its upper case is an available letter. An accepted answer is the upper-cased line |
| GameRules.Game.ChosenIsFresh | Game.java:73-75 | an accepted answer names a colour different from both anchors |
| GameRules.Game.Answer | Game.java:55-78 | an accepted answer is an available letter and not "Q" |
| GameRules.Game.AnswerIsFirst | Game.java:55-78 | the answer is a rejection exactly when every line is rejected; otherwise it is the classification of the first line that is not rejected |
| GameRules.Game.AskInput | Game.java:53-79 | the loop returns the answer of the lines. After a quit the entry is "Q", and after an acceptance it is the chosen letter. The available map and the turn are unchanged |
| GameRules.Game.Move | Game.java:40 | the new grid is the fill from the mover's anchor with the chosen colour. That anchor takes the colour and the other anchor keeps its colour. The mover's score is the absorbed set's size and the other score is unchanged. The board stays valid and the scores fit |
| GameRules.Game.HandOver | Game.java:41-42 | the turn flips and the colours on offer become the palette without the two anchor colours, so the game is valid again |
| GameRules.Game.Turn | Game.java:40-43 | the new grid is the fill from the mover's anchor with the chosen colour. That anchor takes the colour and the other anchor keeps its colour. The mover's score is the absorbed set's size and the other score is unchanged. The turn flips, the available map is recomputed, the game stays valid (so the scores still fit), and the game is over exactly when at most two colours remain |
| GameRules.Game.RoundAsWritten | Game.java:39-41 | reading a quit and then making the move as the loop does paints the mover's anchor with -1, so the board leaves the palette |
| GameRules.Game.Round | Game.java:39-49 | a quit or a rejection ends the game with the grid, both scores and the turn unchanged, and a quit leaves the entry "Q". An accepted colour makes the move: the entry is that colour, the new grid is the fill from the mover's anchor with it, the mover's score is the absorbed set's size and the other score is unchanged, the turn flips, the game stays valid, and the game is over exactly when at most two colours remain |
| GameRules.Game.constructor | Game.java:16-20 | the game keeps the board, player 1 moves first, the entry is empty, the colours on offer are the palette without both anchor colours, and the starting scores fit |

## Left out

- `findBestMove`, the minimax search called from `run`, is not defined in
  the Board.java modelled here, so it is not part of this model.
- Random numbers: every `nextInt(6)` becomes a supplied value.
  - `Board.FillBoard` reads whole-board draws from a sequence `fills` that
    holds a draw with distinct anchors.
  - Each cell redraw reads from a stream that holds two different colours.
    This makes the loops end for certain, where the source only ends almost
    surely.
  - Each redraw reads its stream from the start, while the source draws
    fresh numbers on each pass.
- Console output is not modelled: the banner, the board print, `printScores`,
  `printWinner`, `printColorsAvailable` and the prompts.
- `Game.AskInput`: the `Scanner` is replaced by a parameter, the sequence of
  input lines. Running out of lines gives `Rejected`, where the source would
  throw. Closing the scanner is not modelled.
- `Game.Round` models one pass of the `run` loop. The loop itself, which never
  ends except through game over, is not modelled.
- The no-argument constructors `Board()` (a 5 x 5 board) and `Game()` are not
  modelled separately. They are special cases of `Board(w, h)` and
  `Game(Board)`.
- Boards narrower or lower than 2 are excluded by the constructor's
  precondition, because `fillBoard` indexes `height - 2` and `width - 2`.
- `BoardEngine.Board.FillBoard`: on a 2 x 2 board it does not promise `Sane`.
  There the first and third redraw loops rewrite the same cell, and so do
  the second and fourth, so a later loop can undo an earlier one.
- `BoardEngine.Board.UpdateBoard` is split into `FloodFromAnchor` and
  `CountScore`. `CountScore` counts into a local and then adds the count to
  the score field, where the source increments the field in the loop. The
  resulting value is the same.
- `BoardEngine.Board.UpdateHelper` is split into `Visit` (lines 66-82) and
  `Spread` (the four calls of one phase). `Spread` makes the up and right
  calls and leaves the left and down calls to `SpreadRest`. `Store` is the single array write
  of lines 66 and 82.
- `BoardEngine.Board.UpdateHelper`: the Java walk nests one call per absorbed
  cell, so on a large board it can throw `StackOverflowError`. The model's
  recursion has no depth limit, so it always completes.
- `GameRules.Game.Turn` is split into `Move` (Game.java:40) and `HandOver`
  (Game.java:41-42), followed by the game-over test.
- `GameRules.Game.constructor` asks for a board whose scores are both 1.
  `Game(Board)` takes any board, but every board comes from the `Board`
  constructor, which leaves both scores at 1 (Board.java:12-13).
- `BoardEngine.Board.FillBoard` is split into `LoadGrid` (lines 154-158) and
  `RedrawNeighbours` (lines 162-173), with `Redraw` as one of its loops.
- `Colors.ToUpper` upper-cases only ASCII letters. Java's `toUpperCase` also
  maps other letters, some of them to two characters.
- `GameRules.Game.FillColorsAvailable` writes the six puts as one chained
  map update.
- `getWidth` and `getHeight` are read as the fields `width` and `height`.
- Java's `HashMap` and `HashSet` become Dafny `map` and `set`. Their
  iteration order matters only to the printing.
- The boxed `Integer` arrays become `int` arrays. The comparisons in
  `updateHelper` and `updateBoard` (Board.java:56, 59, 62, 68, 75, 105, 109)
  set an `Integer` against an `int`, so Java unboxes and compares values.
  The comparisons in `fillBoard` (Board.java:159, 162, 165, 168, 171) set two
  `Integer` elements against each other with `==`, which compares references.
  Their elements come from autoboxing `nextInt(6)`, and Java's boxing cache
  (section 5.1.7 of the Java Language Specification) returns one shared object
  for every value from -128 to 127. So for the colours 0 to 5 the two
  comparisons agree, and the model compares values throughout.

## Findings

| source | as written | input that shows it | evidently intended | confidence | as-written member | corrected member |
|---|---|---|---|---|---|---|
| Game.java:39-43 | after `askInput` returns on a quit, `run` still calls `updateBoard("Q", p1Turn)`. `colorToInt("Q")` is -1, so the mover's whole region is painted -1, and the loop goes on to the next round. Unless the game is then over, that next pass reads from the `Scanner` that `askInput` closed on the quit (Game.java:69), which throws | the input line `q` | a quit ends the game without making a move | not executed | GameRules.Game.RoundAsWritten | GameRules.Game.Round |
