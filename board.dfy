/** The display of the game, its cell values, the constants of main.c and the
    seven blocks. The display is a DISPLAY_ROWS x DISPLAY_COLUMNS matrix of
    cell values; row 0 is the top of the screen. */
module Board {

  const Rows: nat := 32              // DISPLAY_ROWS
  const Cols: nat := 16              // DISPLAY_COLUMNS
  const BlockSize: nat := 3          // BLOCK_SIZE: blocks and the window are 3 x 3
  const DelayTickGameOver: nat := 1  // DELAY_TICK_GAME_OVER
  const DelayFall: nat := 3          // DELAY_FALL

  /** The anchor insert_block places every new block at. */
  const SpawnRow: int := 0
  const SpawnCol: int := 2

  /** Cell values (enum PixelState): empty, frozen, and a cell of the falling
      block (P, "player"). */
  const Off: int := 0
  const On: int := 1
  const Player: int := 2

  /** The display, row by row. */
  type Grid = seq<seq<int>>

  predicate WellFormed(g: Grid) {
    |g| == Rows && forall i :: 0 <= i < Rows ==> |g[i]| == Cols
  }

  /** A BlockSize x BlockSize matrix: a block, or the window around the anchor. */
  predicate IsSquare(w: Grid) {
    |w| == BlockSize && forall x :: 0 <= x < BlockSize ==> |w[x]| == BlockSize
  }

  predicate InGrid(i: int, j: int) {
    0 <= i < Rows && 0 <= j < Cols
  }

  /** Whether (i, j) lies in the window whose top-left corner is the anchor (pi, pj). */
  predicate InWindow(pi: int, pj: int, i: int, j: int) {
    pi <= i < pi + BlockSize && pj <= j < pj + BlockSize
  }

  /** The cell at (i, j), with every position off the display read as Off. */
  function At(g: Grid, i: int, j: int): int
    requires WellFormed(g)
  {
    if InGrid(i, j) then g[i][j] else Off
  }

  /** The display after set_display(v). */
  function Filled(v: int): (g: Grid)
    ensures WellFormed(g)
  {
    seq(Rows, _ => seq(Cols, _ => v))
  }

  /** Every cell of the falling block lies inside the window at (pi, pj). */
  ghost predicate PieceInWindow(g: Grid, pi: int, pj: int)
    requires WellFormed(g)
  {
    forall i, j :: InGrid(i, j) && g[i][j] == Player ==> InWindow(pi, pj, i, j)
  }

  /** No cell of the display belongs to a falling block. */
  ghost predicate NoPiece(g: Grid)
    requires WellFormed(g)
  {
    forall i, j :: InGrid(i, j) ==> g[i][j] != Player
  }

  /** enum Block_id, in the order of its declaration. */
  datatype BlockId = T | L1 | L2 | O | S | Z | I

  /** The seven blocks BLOCK_T ... BLOCK_I. */
  function Shape(b: BlockId): (w: Grid)
    ensures IsSquare(w)
    ensures forall x, y :: 0 <= x < BlockSize && 0 <= y < BlockSize ==> w[x][y] == Off || w[x][y] == Player
  {
    match b
    case T  => [[Off, Off, Off], [Off, Player, Off], [Player, Player, Player]]
    case L1 => [[Player, Off, Off], [Player, Off, Off], [Player, Player, Off]]
    case L2 => [[Off, Player, Off], [Off, Player, Off], [Player, Player, Off]]
    case O  => [[Off, Off, Off], [Player, Player, Off], [Player, Player, Off]]
    case S  => [[Off, Off, Off], [Player, Player, Off], [Off, Player, Player]]
    case Z  => [[Off, Off, Off], [Off, Player, Player], [Player, Player, Off]]
    case I  => [[Off, Player, Off], [Off, Player, Off], [Off, Player, Off]]
  }
}
