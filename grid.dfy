/** Board values: `BOARD_ROWS` rows of `BOARD_COLS` cells, row 0 at the
    bottom, as the class stores them. This module states what a drop does
    to a board and how a full board is scored, independently of the loops
    of the class. */
module Grid {
  import opened Pieces
  import opened Runs

  /** A board value of the class's dimensions, indexed `g[row][column]`. */
  predicate IsGrid(g: seq<seq<Piece>>) {
    |g| == BOARD_ROWS && forall r :: 0 <= r < |g| ==> |g[r]| == BOARD_COLS
  }

  /** Column `c` of the board, read from the bottom row upward. */
  function Column(g: seq<seq<Piece>>, c: int): (col: seq<Piece>)
    requires IsGrid(g) && 0 <= c < BOARD_COLS
    ensures |col| == BOARD_ROWS
    ensures forall r :: 0 <= r < BOARD_ROWS ==> col[r] == g[r][c]
  {
    seq(BOARD_ROWS, r requires 0 <= r < BOARD_ROWS => g[r][c])
  }

  /** No cell holds the `Invalid` sentinel. */
  predicate NoInvalid(g: seq<seq<Piece>>)
    requires IsGrid(g)
  {
    forall r, c :: 0 <= r < BOARD_ROWS && 0 <= c < BOARD_COLS ==> g[r][c] != Invalid
  }

  /** Gravity: a blank cell has only blank cells above it, so every column
      is a stack of pieces from row 0 up with blanks on top. */
  predicate Settled(g: seq<seq<Piece>>)
    requires IsGrid(g)
  {
    forall r, r', c :: 0 <= r < r' < BOARD_ROWS && 0 <= c < BOARD_COLS && g[r][c] == Blank ==> g[r'][c] == Blank
  }

  /** The board invariant that every reachable board keeps. */
  predicate WellFormed(g: seq<seq<Piece>>)
    requires IsGrid(g)
  {
    NoInvalid(g) && Settled(g)
  }

  /** Every cell holds a player's piece: the game is over. */
  predicate Full(g: seq<seq<Piece>>)
    requires IsGrid(g)
  {
    forall r, c :: 0 <= r < BOARD_ROWS && 0 <= c < BOARD_COLS ==> IsPlayer(g[r][c])
  }

  /** The first blank cell of a column scanned from the bottom, or `|col|`
      when the column has none: where `dropPiece`'s row scan stops. */
  function LowestBlank(col: seq<Piece>): (h: nat)
    ensures h <= |col|
    ensures forall k :: 0 <= k < h ==> col[k] != Blank
    ensures h < |col| ==> col[h] == Blank
  {
    if |col| == 0 || col[0] == Blank then 0 else 1 + LowestBlank(col[1..])
  }

  /** The cell a piece dropped into column `c` lands in. */
  function LandingRow(g: seq<seq<Piece>>, c: int): (h: nat)
    requires IsGrid(g) && 0 <= c < BOARD_COLS
    ensures h <= BOARD_ROWS
  {
    LowestBlank(Column(g, c))
  }

  /** The board after piece `p` is written into the lowest blank cell of
      column `c`, whose top cell is blank. */
  function Drop(g: seq<seq<Piece>>, c: int, p: Piece): (g': seq<seq<Piece>>)
    requires IsGrid(g) && 0 <= c < BOARD_COLS && g[BOARD_ROWS - 1][c] == Blank
    ensures IsGrid(g')
    ensures LandingRow(g, c) < BOARD_ROWS
    ensures forall r, c' :: 0 <= r < BOARD_ROWS && 0 <= c' < BOARD_COLS ==>
              g'[r][c'] == if r == LandingRow(g, c) && c' == c then p else g[r][c']
  {
    var h := LandingRow(g, c);
    g[h := g[h][c := p]]
  }

  /** On a settled board the landing row is the one blank cell of the
      column that rests on the floor or on a piece. */
  lemma LandingRowRests(g: seq<seq<Piece>>, c: int, i: int)
    requires IsGrid(g) && Settled(g) && 0 <= c < BOARD_COLS && 0 <= i < BOARD_ROWS
    ensures i == LandingRow(g, c) <==> g[i][c] == Blank && (i == 0 || g[i - 1][c] != Blank)
  {
  }

  /** A settled column whose top cell holds a piece is full: it holds
      `BOARD_ROWS` pieces and has no room for another. */
  lemma FullColumnHasNoRoom(g: seq<seq<Piece>>, c: int)
    requires IsGrid(g) && Settled(g) && 0 <= c < BOARD_COLS && g[BOARD_ROWS - 1][c] != Blank
    ensures LandingRow(g, c) == BOARD_ROWS
    ensures forall r :: 0 <= r < BOARD_ROWS ==> g[r][c] != Blank
  {
  }

  /** A drop of a player's piece keeps the board well formed and raises the
      column's stack by exactly one piece. */
  lemma DropKeepsWellFormed(g: seq<seq<Piece>>, c: int, p: Piece)
    requires IsGrid(g) && WellFormed(g) && 0 <= c < BOARD_COLS && g[BOARD_ROWS - 1][c] == Blank
    requires IsPlayer(p)
    ensures WellFormed(Drop(g, c, p))
    ensures LandingRow(Drop(g, c, p), c) == LandingRow(g, c) + 1
  {
    var h := LandingRow(g, c);
    var g' := Drop(g, c, p);
    forall r, r', c' | 0 <= r < r' < BOARD_ROWS && 0 <= c' < BOARD_COLS && g'[r][c'] == Blank
      ensures g'[r'][c'] == Blank
    {
      if c' == c {
        // the cell written is not blank, so `r` lies above the landing row
        assert r != h;
        assert Column(g, c)[r] == g[r][c] == Blank;
      }
    }
    var col' := Column(g', c);
    var h' := LowestBlank(col');
    forall k | 0 <= k <= h ensures col'[k] != Blank {
      if k < h { assert Column(g, c)[k] != Blank; }
    }
    if h + 1 < BOARD_ROWS {
      assert col'[h + 1] == Blank;
    }
  }

  /** The longest run of `p` over rows `0 .. n - 1`. */
  function RowsHigh(g: seq<seq<Piece>>, n: nat, p: Piece): nat
    requires IsGrid(g) && n <= BOARD_ROWS
  {
    if n == 0 then 0 else Max(RowsHigh(g, n - 1, p), LongestRun(g[n - 1], BOARD_COLS, p))
  }

  /** The longest run of `p` over columns `0 .. n - 1`. */
  function ColumnsHigh(g: seq<seq<Piece>>, n: nat, p: Piece): nat
    requires IsGrid(g) && n <= BOARD_COLS
  {
    if n == 0 then 0 else Max(ColumnsHigh(g, n - 1, p), LongestRun(Column(g, n - 1), BOARD_ROWS, p))
  }

  /** A player's score: the longest run of their pieces in any row or any
      column (diagonals do not count). */
  function HighScore(g: seq<seq<Piece>>, p: Piece): nat
    requires IsGrid(g)
  {
    Max(RowsHigh(g, BOARD_ROWS, p), ColumnsHigh(g, BOARD_COLS, p))
  }

  /** The result of `gameState` on board `g`: `Invalid` while some cell is
      not a player's piece, else the player with the higher score, and
      `Blank` for a tie. */
  function Outcome(g: seq<seq<Piece>>): Piece
    requires IsGrid(g)
  {
    if !Full(g) then Invalid
    else if HighScore(g, X) > HighScore(g, O) then X
    else if HighScore(g, X) < HighScore(g, O) then O
    else Blank
  }

  /** Some row or some column holds a run of `p` of length `n`. */
  ghost predicate GridHasRun(g: seq<seq<Piece>>, p: Piece, n: nat)
    requires IsGrid(g)
  {
    (exists r :: 0 <= r < BOARD_ROWS && HasRun(g[r], p, n)) ||
    (exists c :: 0 <= c < BOARD_COLS && HasRun(Column(g, c), p, n))
  }

  lemma {:induction false} RowsHighIsMax(g: seq<seq<Piece>>, n: nat, p: Piece)
    requires IsGrid(g) && n <= BOARD_ROWS
    ensures forall r :: 0 <= r < n ==> LongestRun(g[r], BOARD_COLS, p) <= RowsHigh(g, n, p)
    ensures n > 0 ==> exists r :: 0 <= r < n && LongestRun(g[r], BOARD_COLS, p) == RowsHigh(g, n, p)
  {
    if n > 0 {
      RowsHighIsMax(g, n - 1, p);
    }
  }

  lemma {:induction false} ColumnsHighIsMax(g: seq<seq<Piece>>, n: nat, p: Piece)
    requires IsGrid(g) && n <= BOARD_COLS
    ensures forall c :: 0 <= c < n ==> LongestRun(Column(g, c), BOARD_ROWS, p) <= ColumnsHigh(g, n, p)
    ensures n > 0 ==> exists c :: 0 <= c < n && LongestRun(Column(g, c), BOARD_ROWS, p) == ColumnsHigh(g, n, p)
  {
    if n > 0 {
      ColumnsHighIsMax(g, n - 1, p);
    }
  }

  /** A player's score is the length of their longest run in any row or
      column: some line holds a run that long, and no line a longer one. */
  lemma HighScoreIsLongestRun(g: seq<seq<Piece>>, p: Piece)
    requires IsGrid(g)
    ensures GridHasRun(g, p, HighScore(g, p))
    ensures forall n: nat :: GridHasRun(g, p, n) ==> n <= HighScore(g, p)
  {
    RowsHighIsMax(g, BOARD_ROWS, p);
    ColumnsHighIsMax(g, BOARD_COLS, p);
    if RowsHigh(g, BOARD_ROWS, p) >= ColumnsHigh(g, BOARD_COLS, p) {
      var r :| 0 <= r < BOARD_ROWS && LongestRun(g[r], BOARD_COLS, p) == RowsHigh(g, BOARD_ROWS, p);
      LongestRunIsLongest(g[r], p);
    } else {
      var c :| 0 <= c < BOARD_COLS && LongestRun(Column(g, c), BOARD_ROWS, p) == ColumnsHigh(g, BOARD_COLS, p);
      LongestRunIsLongest(Column(g, c), p);
    }
    forall n: nat | GridHasRun(g, p, n) ensures n <= HighScore(g, p) {
      if r :| 0 <= r < BOARD_ROWS && HasRun(g[r], p, n) {
        LongestRunIsLongest(g[r], p);
      } else {
        var c :| 0 <= c < BOARD_COLS && HasRun(Column(g, c), p, n);
        LongestRunIsLongest(Column(g, c), p);
      }
    }
  }

  /** On a full board X wins exactly when some row or column holds a run of
      X longer than every run of O in any row or column. */
  lemma OutcomeIsX(g: seq<seq<Piece>>)
    requires IsGrid(g) && Full(g)
    ensures Outcome(g) == X <==>
              exists n: nat :: GridHasRun(g, X, n) && forall m: nat :: GridHasRun(g, O, m) ==> m < n
  {
    HighScoreIsLongestRun(g, X);
    HighScoreIsLongestRun(g, O);
    var hx, ho := HighScore(g, X), HighScore(g, O);
    if Outcome(g) == X {
      assert GridHasRun(g, X, hx) && forall m: nat :: GridHasRun(g, O, m) ==> m < hx;
    }
    if exists n: nat :: GridHasRun(g, X, n) && forall m: nat :: GridHasRun(g, O, m) ==> m < n {
      var n: nat :| GridHasRun(g, X, n) && forall m: nat :: GridHasRun(g, O, m) ==> m < n;
      assert ho < n <= hx;
    }
  }

  /** On a full board O wins exactly when some row or column holds a run of
      O longer than every run of X in any row or column. */
  lemma OutcomeIsO(g: seq<seq<Piece>>)
    requires IsGrid(g) && Full(g)
    ensures Outcome(g) == O <==>
              exists n: nat :: GridHasRun(g, O, n) && forall m: nat :: GridHasRun(g, X, m) ==> m < n
  {
    HighScoreIsLongestRun(g, X);
    HighScoreIsLongestRun(g, O);
    var hx, ho := HighScore(g, X), HighScore(g, O);
    if Outcome(g) == O {
      assert GridHasRun(g, O, ho) && forall m: nat :: GridHasRun(g, X, m) ==> m < ho;
    }
    if exists n: nat :: GridHasRun(g, O, n) && forall m: nat :: GridHasRun(g, X, m) ==> m < n {
      var n: nat :| GridHasRun(g, O, n) && forall m: nat :: GridHasRun(g, X, m) ==> m < n;
      assert hx < n <= ho;
    }
  }

  /** On a full board the game is a tie exactly when both players' longest
      runs, over all rows and columns, have the same length. */
  lemma OutcomeIsTie(g: seq<seq<Piece>>)
    requires IsGrid(g) && Full(g)
    ensures Outcome(g) == Blank <==>
              exists n: nat :: GridHasRun(g, X, n) && GridHasRun(g, O, n) &&
                forall m: nat :: GridHasRun(g, X, m) || GridHasRun(g, O, m) ==> m <= n
  {
    HighScoreIsLongestRun(g, X);
    HighScoreIsLongestRun(g, O);
    var hx, ho := HighScore(g, X), HighScore(g, O);
    if Outcome(g) == Blank {
      assert GridHasRun(g, X, hx) && GridHasRun(g, O, hx);
      assert forall m: nat :: GridHasRun(g, X, m) || GridHasRun(g, O, m) ==> m <= hx;
    }
    if exists n: nat :: GridHasRun(g, X, n) && GridHasRun(g, O, n) &&
         forall m: nat :: GridHasRun(g, X, m) || GridHasRun(g, O, m) ==> m <= n {
      var n: nat :| GridHasRun(g, X, n) && GridHasRun(g, O, n) &&
         forall m: nat :: GridHasRun(g, X, m) || GridHasRun(g, O, m) ==> m <= n;
      assert hx <= n && ho <= n;
      assert n <= hx && n <= ho;
    }
  }
}
