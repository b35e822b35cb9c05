# Piezas in Dafny

Piezas is a small Connect-Four-like game on a vertical board of
`BOARD_ROWS` = 3 rows and `BOARD_COLS` = 4 columns. Row 0 is the bottom.
A piece dropped into a column falls onto the lowest blank cell. Players X
and O alternate, and X moves first. When every cell holds a piece, the
player whose longest run of adjacent pieces is longer wins. A run lies in a
single row or a single column; diagonals do not count. Equal runs are a
tie.

This project models the class `Piezas` of `Piezas.cpp` and the unit tests
in `PiezasTest.cpp`:

- `pieces.dfy` (module `Pieces`) holds the `Piece` enumeration
  (`X`, `O`, `Blank`, `Invalid`), the board dimensions and the turn toggle.
- `runs.dfy` (module `Runs`) defines the run-length arithmetic of the
  scoring loops. `TrailingRun(s, n, p)` is the run of `p` that ends at
  position `n`, and `LongestRun(s, n, p)` is the longest run of `p` in the
  first `n` cells. The lemmas prove that `LongestRun` is the length of the
  longest run.
- `grid.dfy` (module `Grid`) describes board values (`seq<seq<Piece>>`).
  It covers gravity (`Settled`), where a drop lands (`LandingRow`), the
  board after a drop (`Drop`), each player's score (`HighScore`) and the
  result (`Outcome`).
- `piezas.dfy` (module `Board`) is the class itself. It has a 2-D array
  `board` and a field `turn`. The methods change them in place, and every
  method is proved against the functions of `Grid`.
- `scenarios.dfy` (module `Scenarios`) writes each unit test as client
  code. Its `ensures` clauses are the test's assertions, proved from the
  class contracts.

## Model

| member | source | states |
|---|---|---|
| Board.Piezas.constructor | Piezas.cpp:24-39 | the new board has the class's dimensions, every cell blank, and it is X's turn |
| Board.Piezas.Reset | Piezas.cpp:45-57 | every cell of the same grid becomes blank; the turn and the dimensions are unchanged |
| Board.Piezas.DropPiece | Piezas.cpp:67-104 | out-of-range column: `Invalid`; full column: `Blank`; in both cases board and turn unchanged. Otherwise the new board is `Drop` of the old one with the old turn's piece, that piece is returned and the turn toggles. Gravity and the absence of `Invalid` cells are preserved. The final `return Blank` is unreachable |
| Board.Piezas.PieceAt | Piezas.cpp:110-120 | `Invalid` exactly when a coordinate is out of range, otherwise the stored cell |
| Board.Piezas.GameState | Piezas.cpp:131-250 | the result is `Outcome` of the board; it is `Invalid` exactly when some cell is blank |
| Board.Piezas.ScoreRows | Piezas.cpp:146-194 | the row scan leaves each player's longest run over all rows |
| Board.Piezas.ScoreRow | Piezas.cpp:155-191 | scanning one row raises each high score to that player's longest run in the row |
| Board.Piezas.ScoreColumns | Piezas.cpp:197-238 | continuing from the row results, the column scan leaves the larger of those and each player's longest run over all columns |
| Board.Piezas.ScoreColumn | Piezas.cpp:199-235 | scanning one column raises each high score to that player's longest run in the column |
| Runs.TrailingRunIsMaximalRun | Piezas.cpp:162-181 | the running score of a player is the length of the run of their pieces ending at the current cell, and that run cannot be extended to the left |
| Runs.LongestRunIsUpperBound | Piezas.cpp:183-190 | no run of a player inside the scanned prefix is longer than the high score kept |
| Runs.LongestRunIsAttained | Piezas.cpp:183-190 | the high score kept is the length of some run actually present |
| Runs.LongestRunIsLongest | Piezas.cpp:127-129 | `LongestRun` is exactly the length of the longest run of a piece in a line |
| Grid.LandingRowRests | Piezas.cpp:81-87 | on a settled board the scan stops at the one blank cell of the column that rests on the floor or on a piece |
| Grid.FullColumnHasNoRoom | Piezas.cpp:75-79 | on a settled board a column whose top cell is taken is full, so the top-cell test is the whole fullness test |
| Grid.DropKeepsWellFormed | Piezas.cpp:81-99 | a drop keeps gravity and the absence of `Invalid` cells, and it raises the column's stack by one |
| Grid.RowsHighIsMax | Piezas.cpp:153-194 | the value of the row scan bounds every row's longest run and equals one of them |
| Grid.ColumnsHighIsMax | Piezas.cpp:197-238 | the value of the column scan bounds every column's longest run and equals one of them |
| Grid.HighScoreIsLongestRun | Piezas.cpp:122-129 | a player's score is the length of their longest run in any row or column: such a run exists and none is longer |
| Grid.OutcomeIsX | Piezas.cpp:240-243 | on a full board X wins exactly when X has a run longer than every run of O |
| Grid.OutcomeIsO | Piezas.cpp:244-247 | on a full board O wins exactly when O has a run longer than every run of X |
| Grid.OutcomeIsTie | Piezas.cpp:249 | on a full board the game is a tie exactly when both players' longest runs have the same length |
| Scenarios.ResetNewBoard | PiezasTest.cpp:27-40 | after a reset every cell of the board reads as `Blank` |
| Scenarios.ResetKeepsTurn | Piezas.cpp:45-57 | a reset does not hand the turn back to X: after X's move and a reset, O moves next |
| Scenarios.DropPieceBoundaries | PiezasTest.cpp:42-51 | drops into columns -1 and 4 give `Invalid`; drops into columns 0, 3 and 2 give X, O, X |
| Scenarios.DropPieceContents | PiezasTest.cpp:53-84 | a column-by-column fill returns the players in alternation (`placed`), `pieceAt` reads back each piece where it landed (`seen == placed`), and afterwards one drop into every column returns `Blank` |
| Scenarios.DropIntoFullColumns | PiezasTest.cpp:76-83 | on a full board a drop into each column returns `Blank` |
| Scenarios.FillStep | Piezas.cpp:81-98 | move `k` of a column-major fill lands at its cell and is made by the `k`-th player in alternation |
| Scenarios.PieceAtBoundaries | PiezasTest.cpp:86-101 | the six out-of-range coordinates read `Invalid` and the four corners do not |
| Scenarios.PieceAtContents | PiezasTest.cpp:103-124 | a new board reads blank at (0,0) and (0,1); three drops into column 0 stack X, O, X while column 1 stays blank |
| Scenarios.GameStateInvalid | PiezasTest.cpp:126-139 | `gameState` is `Invalid` on a new board and on a board whose last column is empty |
| Scenarios.RowFillStep | Piezas.cpp:81-98 | move `k` of a row-major fill lands at its cell and is made by the `k`-th player in alternation |
| Scenarios.RowMajorStep | PiezasTest.cpp:148-163 | one more move of a row-major fill adds exactly one piece, the mover's, at its cell |
| Scenarios.ColumnMajorStep | PiezasTest.cpp:58-74 | one more move of a column-major fill adds exactly one piece, the mover's, at its cell |
| Scenarios.MoverAlternates | PiezasTest.cpp:66-73 | consecutive moves are made by different players |
| Scenarios.RowMajorFillIsTieBoard | PiezasTest.cpp:148-163 | filling the board row by row alternately leaves X O X O in every row |
| Scenarios.TieBoardIsTie | PiezasTest.cpp:164-165 | on that board both players' longest runs are three long, so the result is a tie |
| Scenarios.StateOf | Piezas.cpp:131-250 | `gameState` of an object holding board value `g` is `Outcome(g)` |
| Scenarios.GameStateTie | PiezasTest.cpp:141-166 | after the row-by-row fill both players made the same number of moves and `gameState` is `Blank` |
| Scenarios.WinTraceStep | PiezasTest.cpp:168-238 | each move of the winning game fills the lowest blank cell of its column and no other cell |
| Scenarios.WinStep | PiezasTest.cpp:185-231 | each accepted drop of the winning game returns its mover and adds the expected piece |
| Scenarios.WinRefuse | PiezasTest.cpp:185-231 | a drop of the winning game into a column already full returns `Blank` and changes nothing |
| Scenarios.WinRefusals | PiezasTest.cpp:180-231 | the full columns a player tries before the accepted drop (X scanning left to right at moves 5 and 9, O at moves 6, 8, 10 and 12) are retried the stated number of times, and every try returns `Blank` with board and turn unchanged |
| Scenarios.WinScansAreRefused | PiezasTest.cpp:177-231 | each column scanned before a move of the winning game is already full at that point |
| Scenarios.WinBoardIsWon | PiezasTest.cpp:240-243 | on the final board X's longest run is 4 and O's is 3, so X wins |
| Scenarios.GameWin | PiezasTest.cpp:168-244 | the traced game refuses 21 drops, all with `Blank`, and `gameState` returns X |

## Left out

- The header `Piezas.h` is not part of this model. The `Piece`
  enumeration and the dimensions 3 and 4 are declared here, as the code and
  the board diagram at Piezas.cpp:11-16 use them.
- The doc comment at Piezas.cpp:65 says that a drop that cannot be placed
  loses the player's turn. The code does not toggle the turn on those
  paths, and the model follows the code: see `Board.Piezas.DropPiece`.
- The board is a `vector<vector<Piece>>` that the constructor grows with
  `push_back`. It is modelled as a fixed `array2` created with its final
  size.
- All console output is left out. In `Piezas.cpp` it is commented out.
  The live tracing in the `gameWin` test (PiezasTest.cpp:189, 205, 225)
  only prints and changes no state.
- The two scans of `gameState` stay in one method in the C++. In the
  model they are split into `ScoreRows`/`ScoreRow` and
  `ScoreColumns`/`ScoreColumn` so that each proof stays small. The scan
  state is reset at the start of every line in the source, so the split
  changes nothing.
- The integer scores are `int` in C++ and never exceed 4. Overflow cannot
  happen, and the model uses unbounded `nat`.
- Scenarios.GameWin: the test's search loops are not modelled as loops.
  They are replaced by the sequence of drops they make, worked out by hand
  and written as the tables `WIN_MOVES` and `WIN_SCANS`. The model proves
  that this sequence gives `Blank` for every refused drop and ends with X
  winning. It does not prove that the loops make exactly these drops.
- Scenarios.GameWin: the test's branch `else if(BOARD_ROWS < BOARD_COLS)`
  (PiezasTest.cpp:240-244) repeats the first condition and can never run.
  Only the X branch is modelled.
- The `sanityCheck` and `constructor` tests (PiezasTest.cpp:17-25) assert
  nothing. The constructor's contract covers the second one.
- The gtest fixture and the test runner are left out.
