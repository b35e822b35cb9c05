/** The unit tests of the Piezas board, as client code whose expected
    results are proved from the contracts of the class. */
module Scenarios {
  import opened Pieces
  import opened Grid
  import opened Board

  /** Drops into columns -1 and `BOARD_COLS` are refused with `Invalid`
      without using up X's turn; drops into the first, the last and the
      middle column are accepted, alternating X, O, X. */
  method DropPieceBoundaries() returns (below: Piece, beyond: Piece, first: Piece, last: Piece, middle: Piece)
    ensures below == Invalid && beyond == Invalid
    ensures first == X && last == O && middle == X
  {
    var game := new Piezas();
    below := game.DropPiece(-1);
    beyond := game.DropPiece(BOARD_COLS);
    first := game.DropPiece(0);
    last := game.DropPiece(BOARD_COLS - 1);
    middle := game.DropPiece(BOARD_COLS / 2);
  }

  /** The player who makes move `k` (counting from 0) when X starts. */
  function Mover(k: nat): Piece {
    if k % 2 == 0 then X else O
  }

  /** Consecutive moves are made by different players. */
  lemma MoverAlternates(k: nat)
    ensures Mover(k + 1) == Toggle(Mover(k))
  {
  }

  /** Cell (`r`, `c`) after the first `k` moves of a column-major fill:
      column 0 bottom to top, then column 1, and so on. */
  function ColumnMajor(k: nat, r: nat, c: nat): Piece {
    if c * BOARD_ROWS + r < k then Mover(c * BOARD_ROWS + r) else Blank
  }

  /** `game` is as the first `k` moves of a column-major fill leave it. */
  ghost predicate ColumnFillPosition(game: Piezas, k: nat)
    reads game, game.board
  {
    game.Valid() && game.turn == Mover(k) &&
    forall i, j :: 0 <= i < BOARD_ROWS && 0 <= j < BOARD_COLS ==> game.board[i, j] == ColumnMajor(k, i, j)
  }

  /** Move `k` of a column-major fill lands at row `row` of column `col` and
      is made by `Mover(k)`. */
  method FillStep(game: Piezas, col: nat, row: nat) returns (r: Piece)
    requires col < BOARD_COLS && row < BOARD_ROWS && ColumnFillPosition(game, col * BOARD_ROWS + row)
    modifies game, game.board
    ensures ColumnFillPosition(game, col * BOARD_ROWS + row + 1) && game.board == old(game.board)
    ensures r == Mover(col * BOARD_ROWS + row) && game.turn == Toggle(r)
  {
    ColumnMajorStep(col * BOARD_ROWS + row, col * BOARD_ROWS + row + 1, col, row);
    ghost var g := game.Cells();
    LandingRowRests(g, col, row);
    r := game.DropPiece(col);
    MoverAlternates(col * BOARD_ROWS + row);
    assert forall i, j :: 0 <= i < BOARD_ROWS && 0 <= j < BOARD_COLS ==>
             game.board[i, j] == Drop(g, col, r)[i][j];
  }

  /** Move `k` of a column-major fill adds `Mover(k)` at its cell and
      changes no other. */
  lemma ColumnMajorStep(k: nat, next: nat, col: nat, row: nat)
    requires col < BOARD_COLS && row < BOARD_ROWS && k == col * BOARD_ROWS + row && next == k + 1
    ensures forall i, j :: 0 <= i < BOARD_ROWS && 0 <= j < BOARD_COLS ==>
              ColumnMajor(next, i, j) == if i == row && j == col then Mover(k) else ColumnMajor(k, i, j)
  {
  }


  /** Filling the board column by column: every drop returns the player
      whose turn it is (`placed`), `pieceAt` then reads that same piece at
      the cell it landed in (`seen`), the players alternate, and once the
      board is full every drop is refused with `Blank`. */
  method DropPieceContents() returns (placed: seq<Piece>, seen: seq<Piece>, refused: seq<Piece>)
    ensures |placed| == BOARD_ROWS * BOARD_COLS
    ensures forall i :: 0 <= i < |placed| ==> placed[i] == Mover(i)
    ensures seen == placed
    ensures refused == seq(BOARD_COLS, _ => Blank)
  {
    var game := new Piezas();
    var turn := X;
    placed, seen := [], [];
    for col := 0 to BOARD_COLS
      invariant ColumnFillPosition(game, col * BOARD_ROWS) && fresh(game.board)
      invariant turn == game.turn
      invariant |placed| == col * BOARD_ROWS
      invariant forall i :: 0 <= i < |placed| ==> placed[i] == Mover(i)
      invariant seen == placed
    {
      for row := 0 to BOARD_ROWS
        invariant ColumnFillPosition(game, col * BOARD_ROWS + row) && fresh(game.board)
        invariant turn == game.turn
        invariant |placed| == col * BOARD_ROWS + row
        invariant forall i :: 0 <= i < |placed| ==> placed[i] == Mover(i)
        invariant seen == placed
      {
        var r := FillStep(game, col, row);
        assert r == turn;
        placed := placed + [r];
        seen := seen + [game.PieceAt(row, col)];
        turn := if turn == X then O else X;
      }
    }
    refused := DropIntoFullColumns(game);
  }

  /** One drop into each column of a full board, left to right: all are
      refused with `Blank`. */
  method DropIntoFullColumns(game: Piezas) returns (refused: seq<Piece>)
    requires game.Valid()
    requires forall i, j :: 0 <= i < BOARD_ROWS && 0 <= j < BOARD_COLS ==> game.board[i, j] != Blank
    modifies game, game.board
    ensures refused == seq(BOARD_COLS, _ => Blank)
  {
    refused := [];
    for col := 0 to BOARD_COLS
      invariant game.Valid() && game.board == old(game.board)
      invariant forall i, j :: 0 <= i < BOARD_ROWS && 0 <= j < BOARD_COLS ==> game.board[i, j] != Blank
      invariant refused == seq(col, _ => Blank)
    {
      var r := game.DropPiece(col);
      refused := refused + [r];
    }
  }

  /** Resetting a new board leaves every cell blank. */
  method ResetNewBoard() returns (cells: seq<Piece>)
    ensures |cells| == BOARD_ROWS * BOARD_COLS
    ensures forall i :: 0 <= i < |cells| ==> cells[i] == Blank
  {
    var game := new Piezas();
    game.Reset();
    cells := [];
    for row := 0 to BOARD_ROWS
      invariant |cells| == row * BOARD_COLS
      invariant forall i :: 0 <= i < |cells| ==> cells[i] == Blank
    {
      for col := 0 to BOARD_COLS
        invariant |cells| == row * BOARD_COLS + col
        invariant forall i :: 0 <= i < |cells| ==> cells[i] == Blank
      {
        cells := cells + [game.PieceAt(row, col)];
      }
    }
  }

  /** `reset` blanks the board but does not hand the turn back to X: after
      X's first move and a reset, the next piece dropped is O's. */
  method ResetKeepsTurn() returns (first: Piece, cell: Piece, next: Piece)
    ensures first == X && cell == Blank && next == O
  {
    var game := new Piezas();
    first := game.DropPiece(0);
    game.Reset();
    cell := game.PieceAt(0, 0);
    next := game.DropPiece(0);
  }

  /** Coordinates outside the board read as `Invalid`; the four corners of
      a new board read as something else. */
  method PieceAtBoundaries() returns (outside: seq<Piece>, corners: seq<Piece>)
    ensures outside == [Invalid, Invalid, Invalid, Invalid, Invalid, Invalid]
    ensures forall i :: 0 <= i < |corners| ==> corners[i] != Invalid
    ensures |corners| == 4
  {
    var game := new Piezas();
    outside := [game.PieceAt(-1, 0), game.PieceAt(BOARD_ROWS, 0), game.PieceAt(0, -1),
                game.PieceAt(0, BOARD_COLS), game.PieceAt(-1, -1), game.PieceAt(BOARD_ROWS, BOARD_COLS)];
    corners := [game.PieceAt(0, 0), game.PieceAt(BOARD_ROWS - 1, 0), game.PieceAt(0, BOARD_COLS - 1),
                game.PieceAt(BOARD_ROWS - 1, BOARD_COLS - 1)];
  }

  /** Dropping `BOARD_ROWS` pieces into column 0 stacks X, O, X from the
      bottom up and leaves column 1 blank. */
  method PieceAtContents() returns (start: seq<Piece>, column0: seq<Piece>, column1: seq<Piece>)
    ensures start == [Blank, Blank]
    ensures column0 == [X, O, X] && column1 == [Blank, Blank, Blank]
  {
    var game := new Piezas();
    start := [game.PieceAt(0, 0), game.PieceAt(0, 1)];
    var x := true;
    column0, column1 := [], [];
    for i := 0 to BOARD_ROWS
      invariant ColumnFillPosition(game, i) && fresh(game.board)
      invariant x == (game.turn == X)
      invariant |column0| == |column1| == i
      invariant forall r :: 0 <= r < i ==> column0[r] == Mover(r) && column1[r] == Blank
    {
      var _ := FillStep(game, 0, i);
      column0 := column0 + [game.PieceAt(i, 0)];
      column1 := column1 + [game.PieceAt(i, 1)];
      x := !x;
    }
  }

  /** A new board is not over, and neither is one whose last column is still
      empty after filling the rest of the first `BOARD_ROWS - 1` rows. */
  method GameStateInvalid() returns (before: Piece, after: Piece)
    ensures before == Invalid && after == Invalid
  {
    var game := new Piezas();
    before := game.GameState();
    for row := 0 to BOARD_ROWS - 1
      invariant game.Valid() && fresh(game.board)
      invariant forall r, c :: 0 <= r < BOARD_ROWS && c == BOARD_COLS - 1 ==> game.board[r, c] == Blank
    {
      for col := 0 to BOARD_COLS - 1
        invariant game.Valid() && fresh(game.board)
        invariant forall r, c :: 0 <= r < BOARD_ROWS && c == BOARD_COLS - 1 ==> game.board[r, c] == Blank
      {
        var _ := game.DropPiece(col);
      }
    }
    after := game.GameState();
  }

  /** Cell (`r`, `c`) after the first `k` moves of a row-major fill. */
  function RowMajor(k: nat, r: nat, c: nat): Piece {
    if r * BOARD_COLS + c < k then Mover(r * BOARD_COLS + c) else Blank
  }

  /** `game` is as the first `k` moves of a row-major fill leave it. */
  ghost predicate RowFillPosition(game: Piezas, k: nat)
    reads game, game.board
  {
    game.Valid() && game.turn == Mover(k) &&
    forall i, j :: 0 <= i < BOARD_ROWS && 0 <= j < BOARD_COLS ==> game.board[i, j] == RowMajor(k, i, j)
  }

  /** Move `k` of a row-major fill lands at row `row` of column `col` and is
      made by `Mover(k)`. */
  method RowFillStep(game: Piezas, row: nat, col: nat) returns (r: Piece)
    requires col < BOARD_COLS && row < BOARD_ROWS && RowFillPosition(game, row * BOARD_COLS + col)
    modifies game, game.board
    ensures RowFillPosition(game, row * BOARD_COLS + col + 1) && game.board == old(game.board)
    ensures r == Mover(row * BOARD_COLS + col)
  {
    RowMajorStep(row * BOARD_COLS + col, row * BOARD_COLS + col + 1, row, col);
    ghost var g := game.Cells();
    LandingRowRests(g, col, row);
    r := game.DropPiece(col);
    MoverAlternates(row * BOARD_COLS + col);
    assert forall i, j :: 0 <= i < BOARD_ROWS && 0 <= j < BOARD_COLS ==>
             game.board[i, j] == Drop(g, col, r)[i][j];
  }

  /** Move `k` of a row-major fill adds `Mover(k)` at its cell and changes
      no other. */
  lemma RowMajorStep(k: nat, next: nat, row: nat, col: nat)
    requires col < BOARD_COLS && row < BOARD_ROWS && k == row * BOARD_COLS + col && next == k + 1
    ensures forall i, j :: 0 <= i < BOARD_ROWS && 0 <= j < BOARD_COLS ==>
              RowMajor(next, i, j) == if i == row && j == col then Mover(k) else RowMajor(k, i, j)
  {
  }


  /** The board a row-major alternating fill ends with. */
  const TIE_BOARD := [[X, O, X, O], [X, O, X, O], [X, O, X, O]]

  /** A row-major fill of the whole board leaves `TIE_BOARD`. */
  lemma RowMajorFillIsTieBoard()
    ensures forall i, j :: 0 <= i < BOARD_ROWS && 0 <= j < BOARD_COLS ==>
              RowMajor(BOARD_ROWS * BOARD_COLS, i, j) == TIE_BOARD[i][j]
  {
  }

  /** After a row-major fill of the whole board the object holds `TIE_BOARD`. */
  lemma RowFillShowsTieBoard(game: Piezas)
    requires RowFillPosition(game, BOARD_ROWS * BOARD_COLS)
    ensures game.Valid() && Shows(game, TIE_BOARD)
  {
    RowMajorFillIsTieBoard();
  }

  /** Both players' longest runs are the columns, three long: a tie. */
  lemma TieBoardIsTie()
    ensures HighScore(TIE_BOARD, X) == HighScore(TIE_BOARD, O) == 3
    ensures Outcome(TIE_BOARD) == Blank
  {
  }

  /** The object holds exactly board value `g`. */
  ghost predicate Shows(game: Piezas, g: seq<seq<Piece>>)
    reads game, game.board
  {
    game.board.Length0 == BOARD_ROWS && game.board.Length1 == BOARD_COLS && IsGrid(g) &&
    forall i, j :: 0 <= i < BOARD_ROWS && 0 <= j < BOARD_COLS ==> game.board[i, j] == g[i][j]
  }

  /** `gameState` on an object holding board value `g` is the outcome of `g`. */
  method StateOf(game: Piezas, ghost g: seq<seq<Piece>>) returns (result: Piece)
    requires game.Valid() && Shows(game, g)
    ensures result == Outcome(g)
  {
    assert forall i :: 0 <= i < BOARD_ROWS ==> game.Cells()[i] == g[i];
    assert game.Cells() == g;
    result := game.GameState();
  }

  /** Filling the board row by row with alternating players gives each
      player the same number of pieces and ends in a tie: every column is
      a run of one player, and no row holds a run longer than one. */
  method GameStateTie() returns (xScore: nat, yScore: nat, result: Piece)
    ensures xScore == yScore
    ensures result == Blank
  {
    var game := new Piezas();
    xScore, yScore := 0, 0;
    var x := true;
    for row := 0 to BOARD_ROWS
      invariant RowFillPosition(game, row * BOARD_COLS) && fresh(game.board)
      invariant x == (Mover(row * BOARD_COLS) == X)
      invariant xScore == yScore + (if x then 0 else 1)
    {
      for col := 0 to BOARD_COLS
        invariant RowFillPosition(game, row * BOARD_COLS + col) && fresh(game.board)
        invariant x == (Mover(row * BOARD_COLS + col) == X)
        invariant xScore == yScore + (if x then 0 else 1)
      {
        var _ := RowFillStep(game, row, col);
        if x {
          xScore := xScore + 1;
        } else {
          yScore := yScore + 1;
        }
        x := !x;
      }
    }
    assert x;
    RowFillShowsTieBoard(game);
    TieBoardIsTie();
    result := StateOf(game, TIE_BOARD);
  }

  /** The cell each move of the winning-game test fills, in move order:
      (row, column). */
  const WIN_MOVES: seq<(nat, nat)> :=
    [(0, 0), (1, 0), (0, 3), (2, 0), (0, 1), (1, 1), (1, 3), (2, 1), (0, 2), (1, 2), (2, 3), (2, 2)]

  /** The number of the move that fills each cell, indexed by row, then column. */
  const WIN_ORDER: seq<seq<nat>> := [[0, 4, 8, 2], [1, 5, 9, 6], [3, 7, 11, 10]]

  /** Cell (`r`, `c`) after the first `k` moves of the winning-game test. */
  function WinTrace(k: nat, r: nat, c: nat): Piece
    requires r < BOARD_ROWS && c < BOARD_COLS
  {
    if WIN_ORDER[r][c] < k then Mover(WIN_ORDER[r][c]) else Blank
  }

  /** Move `k` fills a cell on the bottom row or above an earlier move's,
      and `WIN_ORDER` numbers that cell `k`. */
  lemma WinMoveLands(k: nat)
    requires k < |WIN_MOVES|
    ensures WIN_MOVES[k].0 < BOARD_ROWS && WIN_MOVES[k].1 < BOARD_COLS
    ensures WIN_ORDER[WIN_MOVES[k].0][WIN_MOVES[k].1] == k
    ensures WIN_MOVES[k].0 == 0 || WIN_ORDER[WIN_MOVES[k].0 - 1][WIN_MOVES[k].1] < k
  {
  }

  /** Every cell is filled by the move `WIN_ORDER` gives it, so no two cells
      by the same move. */
  lemma WinOrderNamesMove(r: nat, c: nat)
    requires r < BOARD_ROWS && c < BOARD_COLS
    ensures WIN_ORDER[r][c] < |WIN_MOVES| && WIN_MOVES[WIN_ORDER[r][c]] == (r, c)
  {
  }

  /** `game` is as the first `k` moves of the winning-game test leave it:
      the board holds their pieces and it is the turn of the next mover. */
  ghost predicate WinPosition(game: Piezas, k: nat)
    reads game, game.board
  {
    game.Valid() && game.turn == Mover(k) &&
    forall i, j :: 0 <= i < BOARD_ROWS && 0 <= j < BOARD_COLS ==> game.board[i, j] == WinTrace(k, i, j)
  }

  /** Move `k` of the winning-game test: the player to move drops into the
      column of `WIN_MOVES[k]` and the piece lands on its cell. */
  method WinStep(game: Piezas, k: nat, row: nat, col: nat) returns (r: Piece)
    requires k < BOARD_ROWS * BOARD_COLS && WIN_MOVES[k] == (row, col) && WinPosition(game, k)
    modifies game, game.board
    ensures WinPosition(game, k + 1) && game.board == old(game.board)
    ensures r == Mover(k)
  {
    WinTraceStep(k, row, col);
    ghost var g := game.Cells();
    assert g[row][col] == WinTrace(k, row, col);
    if row > 0 {
      assert g[row - 1][col] == WinTrace(k, row - 1, col);
    }
    LandingRowRests(g, col, row);
    r := game.DropPiece(col);
    MoverAlternates(k);
    assert forall i, j :: 0 <= i < BOARD_ROWS && 0 <= j < BOARD_COLS ==> game.board[i, j] == Drop(g, col, Mover(k))[i][j];
  }

  /** Move `k` of the winning-game test fills the lowest blank cell of its
      column with `Mover(k)` and changes nothing else. */
  lemma WinTraceStep(k: nat, row: nat, col: nat)
    requires k < BOARD_ROWS * BOARD_COLS && WIN_MOVES[k] == (row, col)
    ensures row < BOARD_ROWS && col < BOARD_COLS
    ensures WinTrace(k, row, col) == Blank && (row == 0 || WinTrace(k, row - 1, col) != Blank)
    ensures forall i, j :: 0 <= i < BOARD_ROWS && 0 <= j < BOARD_COLS ==>
              WinTrace(k + 1, i, j) == if i == row && j == col then Mover(k) else WinTrace(k, i, j)
  {
    WinMoveLands(k);
    forall i, j | 0 <= i < BOARD_ROWS && 0 <= j < BOARD_COLS
      ensures WinTrace(k + 1, i, j) == if i == row && j == col then Mover(k) else WinTrace(k, i, j)
    {
      WinOrderNamesMove(i, j);
    }
  }

  /** A drop of the winning-game test, after its first `k` moves, into a
      column they have filled: it is refused with `Blank`, and neither the
      board nor the turn changes. */
  method WinRefuse(game: Piezas, k: nat, col: nat) returns (r: Piece)
    requires col < BOARD_COLS && WinTrace(k, BOARD_ROWS - 1, col) != Blank && WinPosition(game, k)
    modifies game, game.board
    ensures WinPosition(game, k) && game.board == old(game.board)
    ensures r == Blank
  {
    r := game.DropPiece(col);
  }

  /** `times` drops into each of the first `cols` columns, in order, after
      the first `k` moves of the winning-game test, all of those columns
      being full: every one is refused with `Blank`, and the refusals are
      appended to `earlier`. */
  method WinRefusals(game: Piezas, k: nat, cols: nat, times: nat, earlier: seq<Piece>) returns (rs: seq<Piece>)
    requires cols <= BOARD_COLS && WinPosition(game, k)
    requires forall i :: 0 <= i < |earlier| ==> earlier[i] == Blank
    requires forall r, c :: r == BOARD_ROWS - 1 && 0 <= c < cols ==> WinTrace(k, r, c) != Blank
    modifies game, game.board
    ensures WinPosition(game, k) && game.board == old(game.board)
    ensures |rs| == |earlier| + cols * times
    ensures forall i :: 0 <= i < |rs| ==> rs[i] == Blank
  {
    rs := earlier;
    for c := 0 to cols
      invariant WinPosition(game, k) && game.board == old(game.board)
      invariant |rs| == |earlier| + c * times
      invariant forall i :: 0 <= i < |rs| ==> rs[i] == Blank
    {
      for t := 0 to times
        invariant WinPosition(game, k) && game.board == old(game.board)
        invariant |rs| == |earlier| + c * times + t
        invariant forall i :: 0 <= i < |rs| ==> rs[i] == Blank
      {
        var r := WinRefuse(game, k, c);
        rs := rs + [r];
      }
    }
  }

  /** For each move of the winning-game test, the refused drops that come
      before the accepted one: `times` drops into each of the first `cols`
      columns. */
  const WIN_SCANS: seq<(nat, nat)> :=
    [(0, 0), (0, 0), (0, 0), (0, 0), (1, 1), (1, 3), (0, 0), (1, 3), (2, 1), (2, 3), (0, 0), (2, 3)]

  /** The number of refused drops before move `k`. */
  function RefusalsBefore(k: nat): nat
    requires k <= |WIN_SCANS|
  {
    if k == 0 then 0 else RefusalsBefore(k - 1) + WIN_SCANS[k - 1].0 * WIN_SCANS[k - 1].1
  }

  /** The winning-game test makes 21 refused drops in all. */
  lemma WinRefusalsTotal()
    ensures RefusalsBefore(|WIN_SCANS|) == 21
  {
    assert RefusalsBefore(4) == 0;
    assert RefusalsBefore(6) == 4;
    assert RefusalsBefore(8) == 7;
    assert RefusalsBefore(10) == 15;
  }

  /** Every column scanned before a move is already full at that point. */
  lemma WinScansAreRefused()
    ensures |WIN_SCANS| == |WIN_MOVES| == BOARD_ROWS * BOARD_COLS
    ensures forall k :: 0 <= k < |WIN_SCANS| ==> WIN_SCANS[k].0 <= BOARD_COLS
    ensures forall k, r, c :: 0 <= k < |WIN_SCANS| && r == BOARD_ROWS - 1 && 0 <= c < WIN_SCANS[k].0 ==>
              c < BOARD_COLS && WinTrace(k, r, c) != Blank
  {
  }

  /** The board the winning-game test ends with. */
  const WIN_BOARD := [[X, X, X, X], [O, O, O, X], [O, O, O, X]]

  /** All twelve moves of the winning-game test leave `WIN_BOARD`. */
  lemma WinTraceEndsInWinBoard()
    ensures forall i, j :: 0 <= i < BOARD_ROWS && 0 <= j < BOARD_COLS ==>
              WinTrace(BOARD_ROWS * BOARD_COLS, i, j) == WIN_BOARD[i][j]
  {
  }

  /** After all twelve moves the object holds `WIN_BOARD`. */
  lemma WinPositionShowsWinBoard(game: Piezas)
    requires WinPosition(game, BOARD_ROWS * BOARD_COLS)
    ensures game.Valid() && Shows(game, WIN_BOARD)
  {
    WinTraceEndsInWinBoard();
  }

  /** X's bottom row is four long, O's longest runs only three: X wins. */
  lemma WinBoardIsWon()
    ensures HighScore(WIN_BOARD, X) == 4 && HighScore(WIN_BOARD, O) == 3
    ensures Outcome(WIN_BOARD) == X
  {
  }

  /** The move order of the winning-game test, traced by hand: X alternates
      between scanning columns left to right and right to left for the
      first column that accepts its piece, while O always scans left to
      right, trying each column `BOARD_ROWS` times. The board ends as
      X X X X in row 0 and O O O X in rows 1 and 2, so X's run of four
      beats O's runs of three. All 21 refused drops return `Blank` and
      leave the board and the turn as they were. */
  method GameWin() returns (refused: seq<Piece>, result: Piece)
    ensures |refused| == 21
    ensures forall i :: 0 <= i < |refused| ==> refused[i] == Blank
    ensures result == X
  {
    var game := new Piezas();
    WinScansAreRefused();
    refused := [];
    for k := 0 to BOARD_ROWS * BOARD_COLS
      invariant WinPosition(game, k) && fresh(game.board)
      invariant |refused| == RefusalsBefore(k)
      invariant forall i :: 0 <= i < |refused| ==> refused[i] == Blank
    {
      var (cols, times) := WIN_SCANS[k];
      refused := WinRefusals(game, k, cols, times, refused);
      var (row, col) := WIN_MOVES[k];
      var _ := WinStep(game, k, row, col);
    }
    WinRefusalsTotal();
    WinPositionShowsWinBoard(game);
    WinBoardIsWon();
    result := StateOf(game, WIN_BOARD);
  }
}
