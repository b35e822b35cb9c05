/** The Piezas board: a 2D grid of pieces written in place, and the player
    whose turn it is. */
module Board {
  import opened Pieces
  import opened Runs
  import opened Grid

  class Piezas {
    var board: array2<Piece>
    var turn: Piece

    /** The object invariant: the grid has the class's dimensions, it is
        the turn of X or of O, and the cells obey gravity and never hold
        `Invalid`. */
    ghost predicate Valid()
      reads this, board
    {
      board.Length0 == BOARD_ROWS && board.Length1 == BOARD_COLS &&
      IsPlayer(turn) &&
      WellFormed(Cells())
    }

    /** The board as a value. */
    ghost function Cells(): (g: seq<seq<Piece>>)
      reads this, board
      requires board.Length0 == BOARD_ROWS && board.Length1 == BOARD_COLS
      ensures IsGrid(g)
      ensures forall r, c :: 0 <= r < BOARD_ROWS && 0 <= c < BOARD_COLS ==> g[r][c] == board[r, c]
    {
      var cells := board;
      seq(BOARD_ROWS, r requires 0 <= r < BOARD_ROWS reads cells =>
        seq(BOARD_COLS, c requires 0 <= c < BOARD_COLS reads cells => cells[r, c]))
    }

    /** An empty board on which X moves first. */
    constructor ()
      ensures Valid() && fresh(board)
      ensures turn == X
      ensures forall r, c :: 0 <= r < BOARD_ROWS && 0 <= c < BOARD_COLS ==> board[r, c] == Blank
    {
      board := new Piece[BOARD_ROWS, BOARD_COLS]((r, c) => Blank);
      turn := X;
    }

    /** Blanks every cell of the same grid; the turn is left as it was. */
    method Reset()
      requires Valid()
      modifies board
      ensures Valid() && turn == old(turn)
      ensures forall r, c :: 0 <= r < BOARD_ROWS && 0 <= c < BOARD_COLS ==> board[r, c] == Blank
    {
      for row := 0 to BOARD_ROWS
        invariant forall r, c :: 0 <= r < row && 0 <= c < BOARD_COLS ==> board[r, c] == Blank
      {
        for col := 0 to BOARD_COLS
          invariant forall r, c :: 0 <= r < row && 0 <= c < BOARD_COLS ==> board[r, c] == Blank
          invariant forall c :: 0 <= c < col ==> board[row, c] == Blank
        {
          board[row, col] := Blank;
        }
      }
    }

    /** Drops the current player's piece into `column`. An out-of-range
        column gives `Invalid` and a full column `Blank`, both leaving the
        board and the turn alone; otherwise the piece lands in the lowest
        blank cell of the column, the turn passes to the other player and
        the piece placed is returned. */
    method DropPiece(column: int) returns (r: Piece)
      requires Valid()
      modifies this, board
      ensures Valid() && board == old(board)
      ensures column < 0 || column >= BOARD_COLS ==>
                r == Invalid && turn == old(turn) && unchanged(board)
      ensures 0 <= column < BOARD_COLS && old(board[BOARD_ROWS - 1, column]) != Blank ==>
                r == Blank && turn == old(turn) && unchanged(board)
      ensures 0 <= column < BOARD_COLS && old(board[BOARD_ROWS - 1, column]) == Blank ==>
                r == old(turn) && turn == Toggle(old(turn)) &&
                Cells() == Drop(old(Cells()), column, old(turn))
    {
      if column >= BOARD_COLS || column < 0 {
        return Invalid;
      } else if board[BOARD_ROWS - 1, column] != Blank {
        return Blank;
      }
      ghost var g := Cells();
      for row := 0 to BOARD_ROWS
        invariant forall k :: 0 <= k < row ==> board[k, column] != Blank
      {
        if board[row, column] == Blank {
          assert row == LandingRow(g, column);
          board[row, column] := turn;
          if turn == X {
            turn := O;
          } else {
            turn := X;
          }
          DropKeepsWellFormed(g, column, old(turn));
          assert forall i :: 0 <= i < BOARD_ROWS ==> Cells()[i] == Drop(g, column, old(turn))[i];
          return board[row, column];
        }
      }
      // the top cell is blank, so the scan always stops at a blank cell
      assert false;
      return Blank;
    }

    /** The piece at (`row`, `column`): `Invalid` exactly when either
        coordinate is out of range, else the cell's content, which is then
        never `Invalid`. */
    function PieceAt(row: int, column: int): (r: Piece)
      reads this, board
      requires Valid()
      ensures r == Invalid <==> !(0 <= row < BOARD_ROWS && 0 <= column < BOARD_COLS)
      ensures r != Invalid ==> r == board[row, column]
    {
      if row < 0 || row >= BOARD_ROWS || column < 0 || column >= BOARD_COLS then
        Invalid
      else
        board[row, column]
    }

    /** `Invalid` while some cell is blank; on a full board the player whose
        longest run in a single row or column is the longer one, or `Blank`
        for a tie. */
    method GameState() returns (r: Piece)
      requires Valid()
      ensures r == Outcome(Cells())
      ensures r == Invalid <==>
                exists i, j :: 0 <= i < BOARD_ROWS && 0 <= j < BOARD_COLS && board[i, j] == Blank
    {
      // the game is over only when every cell holds X or O
      for row := 0 to BOARD_ROWS
        invariant forall i, j :: 0 <= i < row && 0 <= j < BOARD_COLS ==> IsPlayer(board[i, j])
      {
        for col := 0 to BOARD_COLS
          invariant forall i, j :: 0 <= i < row && 0 <= j < BOARD_COLS ==> IsPlayer(board[i, j])
          invariant forall j :: 0 <= j < col ==> IsPlayer(board[row, j])
        {
          if board[row, col] != X && board[row, col] != O {
            return Invalid;
          }
        }
      }
      assert Full(Cells());

      var xHighScore, oHighScore := ScoreRows();
      xHighScore, oHighScore := ScoreColumns(xHighScore, oHighScore);

      if xHighScore > oHighScore {
        return X;
      } else if xHighScore < oHighScore {
        return O;
      }
      return Blank;
    }

    /** The row scan of `gameState` on a full board: each player's longest
        run within a single row. */
    method ScoreRows() returns (xHighScore: nat, oHighScore: nat)
      requires board.Length0 == BOARD_ROWS && board.Length1 == BOARD_COLS && Full(Cells())
      ensures xHighScore == RowsHigh(Cells(), BOARD_ROWS, X)
      ensures oHighScore == RowsHigh(Cells(), BOARD_ROWS, O)
    {
      ghost var g := Cells();
      xHighScore, oHighScore := 0, 0;
      for row := 0 to BOARD_ROWS
        invariant xHighScore == RowsHigh(g, row, X) && oHighScore == RowsHigh(g, row, O)
      {
        xHighScore, oHighScore := ScoreRow(row, xHighScore, oHighScore);
      }
    }

    /** One row of the row scan: the high scores so far, raised to each
        player's longest run in row `row` where that is longer. */
    method ScoreRow(row: nat, xHigh: nat, oHigh: nat) returns (xHighScore: nat, oHighScore: nat)
      requires board.Length0 == BOARD_ROWS && board.Length1 == BOARD_COLS && Full(Cells())
      requires row < BOARD_ROWS
      ensures xHighScore == Max(xHigh, LongestRun(Cells()[row], BOARD_COLS, X))
      ensures oHighScore == Max(oHigh, LongestRun(Cells()[row], BOARD_COLS, O))
    {
      ghost var line := Cells()[row];
      xHighScore, oHighScore := xHigh, oHigh;
      var xScore, oScore, p := 0, 0, X;
      for col := 0 to BOARD_COLS
        invariant IsPlayer(p) && (col > 0 ==> p == line[col - 1])
        invariant p == X ==> oScore == 0
        invariant p == O ==> xScore == 0
        invariant xScore == TrailingRun(line, col, X) && oScore == TrailingRun(line, col, O)
        invariant xHighScore == Max(xHigh, LongestRun(line, col, X))
        invariant oHighScore == Max(oHigh, LongestRun(line, col, O))
      {
        assert IsPlayer(board[row, col]) && board[row, col] == line[col];
        if p == board[row, col] && p == X {
          xScore := xScore + 1;
        } else if p == board[row, col] && p == O {
          oScore := oScore + 1;
        } else if p != board[row, col] && p == X {
          p := O;
          xScore := 0;
          oScore := oScore + 1;
        } else if p != board[row, col] && p == O {
          p := X;
          oScore := 0;
          xScore := xScore + 1;
        }
        if xScore > xHighScore {
          xHighScore := xScore;
        }
        if oScore > oHighScore {
          oHighScore := oScore;
        }
      }
    }

    /** The column scan of `gameState` on a full board, continuing from the
        row scan's high scores: the larger of those and each player's
        longest run within a single column. */
    method ScoreColumns(xHigh: nat, oHigh: nat) returns (xHighScore: nat, oHighScore: nat)
      requires board.Length0 == BOARD_ROWS && board.Length1 == BOARD_COLS && Full(Cells())
      ensures xHighScore == Max(xHigh, ColumnsHigh(Cells(), BOARD_COLS, X))
      ensures oHighScore == Max(oHigh, ColumnsHigh(Cells(), BOARD_COLS, O))
    {
      ghost var g := Cells();
      xHighScore, oHighScore := xHigh, oHigh;
      for col := 0 to BOARD_COLS
        invariant xHighScore == Max(xHigh, ColumnsHigh(g, col, X))
        invariant oHighScore == Max(oHigh, ColumnsHigh(g, col, O))
      {
        xHighScore, oHighScore := ScoreColumn(col, xHighScore, oHighScore);
      }
    }

    /** One column of the column scan: the high scores so far, raised to
        each player's longest run in column `col` where that is longer. */
    method ScoreColumn(col: nat, xHigh: nat, oHigh: nat) returns (xHighScore: nat, oHighScore: nat)
      requires board.Length0 == BOARD_ROWS && board.Length1 == BOARD_COLS && Full(Cells())
      requires col < BOARD_COLS
      ensures xHighScore == Max(xHigh, LongestRun(Column(Cells(), col), BOARD_ROWS, X))
      ensures oHighScore == Max(oHigh, LongestRun(Column(Cells(), col), BOARD_ROWS, O))
    {
      ghost var line := Column(Cells(), col);
      xHighScore, oHighScore := xHigh, oHigh;
      var xScore, oScore, p := 0, 0, X;
      for row := 0 to BOARD_ROWS
        invariant IsPlayer(p) && (row > 0 ==> p == line[row - 1])
        invariant p == X ==> oScore == 0
        invariant p == O ==> xScore == 0
        invariant xScore == TrailingRun(line, row, X) && oScore == TrailingRun(line, row, O)
        invariant xHighScore == Max(xHigh, LongestRun(line, row, X))
        invariant oHighScore == Max(oHigh, LongestRun(line, row, O))
      {
        assert IsPlayer(board[row, col]) && board[row, col] == line[row];
        if p == board[row, col] && p == X {
          xScore := xScore + 1;
        } else if p == board[row, col] && p == O {
          oScore := oScore + 1;
        } else if p != board[row, col] && p == X {
          p := O;
          xScore := 0;
          oScore := oScore + 1;
        } else if p != board[row, col] && p == O {
          p := X;
          oScore := 0;
          xScore := xScore + 1;
        }
        if xScore > xHighScore {
          xHighScore := xScore;
        }
        if oScore > oHighScore {
          oHighScore := oScore;
        }
      }
    }
  }
}
