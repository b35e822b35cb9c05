/** Cell values and board dimensions of a Piezas board.
    The class header that declares them is not part of this model; its
    default board is 3 rows by 4 columns. */
module Pieces {

  /** A cell value. `X` and `O` are the two players, `Blank` an empty cell.
      `Invalid` is never stored on the board: it is only returned, for an
      out-of-range request or a game that is not over. */
  datatype Piece = X | O | Blank | Invalid

  const BOARD_ROWS: nat := 3
  const BOARD_COLS: nat := 4

  /** True of the two pieces a player can own. */
  predicate IsPlayer(p: Piece) {
    p == X || p == O
  }

  /** The player who moves after `p`: `dropPiece` hands the turn from X to
      O and from anything else to X. */
  function Toggle(p: Piece): (q: Piece)
    ensures IsPlayer(q)
    ensures IsPlayer(p) ==> q != p
  {
    if p == X then O else X
  }

  function Max(a: int, b: int): int {
    if a < b then b else a
  }
}
