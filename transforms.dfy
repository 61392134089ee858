/** The operations that move the falling block on the display: rotation of the
    window, the one-row fall, the horizontal moves, freezing and inserting a
    block (main.c:141-167, 194-201, 207-325). Each is a function of the display
    (and the anchor) giving the display afterwards. */
module Transforms {
  import opened Board
  import opened Collision

  // ---------------------------------------------------------------- rotation

  /** The window rotate_player copies out: cell (x, y) is the display cell
      (pi + x, pj + y), or 0 where that cell is off the display. */
  function Window(g: Grid, pi: int, pj: int): (w: Grid)
    requires WellFormed(g)
    ensures IsSquare(w)
  {
    seq(BlockSize, x => seq(BlockSize, y => At(g, pi + x, pj + y)))
  }

  /** A quarter turn anti-clockwise (rotate_matrix): the new (x, y) is the old
      (y, N - 1 - x). */
  function Rotated(w: Grid): (r: Grid)
    requires IsSquare(w)
    ensures IsSquare(r)
  {
    seq(BlockSize, x requires 0 <= x < BlockSize =>
      seq(BlockSize, y requires 0 <= y < BlockSize => w[y][BlockSize - 1 - x]))
  }

  /** Two quarter turns are a half turn. */
  lemma RotatedTwice(w: Grid)
    requires IsSquare(w)
    ensures forall x, y :: 0 <= x < BlockSize && 0 <= y < BlockSize ==>
              Rotated(Rotated(w))[x][y] == w[BlockSize - 1 - x][BlockSize - 1 - y]
  {
  }

  /** Four quarter turns restore the matrix; the centre never moves. */
  lemma RotateFourTimes(w: Grid)
    requires IsSquare(w)
    ensures Rotated(Rotated(Rotated(Rotated(w)))) == w
    ensures Rotated(w)[1][1] == w[1][1]
  {
    var h := Rotated(Rotated(w));
    RotatedTwice(w);
    RotatedTwice(h);
    var r := Rotated(Rotated(h));
    forall x | 0 <= x < BlockSize
      ensures r[x] == w[x]
    {
      assert forall y :: 0 <= y < BlockSize ==> r[x][y] == h[BlockSize - 1 - x][BlockSize - 1 - y] == w[x][y];
    }
  }

  /** rotate_player, refused like the O block when the window reaches below the
      floor (the row bound the C omits); otherwise every window cell on the
      display takes the value of the rotated window, reading cells in columns
      off the display as 0, and every other cell keeps its value. */
  function RotatePlayer(g: Grid, pi: int, pj: int, b: BlockId): (r: Grid)
    requires WellFormed(g)
    ensures WellFormed(r)
  {
    if b == O || pi + BlockSize > Rows then g else TurnWindow(g, pi, pj)
  }

  /** The display with the window at (pi, pj) replaced, on the display, by the
      rotated window. */
  function TurnWindow(g: Grid, pi: int, pj: int): (r: Grid)
    requires WellFormed(g)
    ensures WellFormed(r)
  {
    var w := Rotated(Window(g, pi, pj));
    seq(Rows, i requires 0 <= i < Rows => seq(Cols, j requires 0 <= j < Cols =>
      if InWindow(pi, pj, i, j) then w[i - pi][j - pj] else g[i][j]))
  }

  /** rotate_player as main.c:237-262 writes it: the rows pi .. pi + 2 are indexed
      with no bound check, so it is defined only where they are on the display;
      there it is the corrected rotation. */
  function RotatePlayerAsWritten(g: Grid, pi: int, pj: int, b: BlockId): (r: Grid)
    requires WellFormed(g) && 0 <= pi && pi + BlockSize <= Rows
    ensures WellFormed(r)
  {
    RotatePlayer(g, pi, pj, b)
  }

  /** rotate_player leaves the O block, and a window reaching below the floor,
      alone; otherwise it changes no cell outside the window, and gives the
      window cells on the display the values of the rotated window, reading
      cells off the display as 0. */
  lemma RotatePlayerEffect(g: Grid, pi: int, pj: int, b: BlockId)
    requires WellFormed(g)
    ensures b == O || pi + BlockSize > Rows ==> RotatePlayer(g, pi, pj, b) == g
    ensures forall i, j :: InGrid(i, j) && !InWindow(pi, pj, i, j) ==> RotatePlayer(g, pi, pj, b)[i][j] == g[i][j]
    ensures b != O && pi + BlockSize <= Rows ==> forall i, j :: InGrid(i, j) && InWindow(pi, pj, i, j) ==>
              RotatePlayer(g, pi, pj, b)[i][j] == At(g, pi + (j - pj), pj + BlockSize - 1 - (i - pi))
  {
    var r := RotatePlayer(g, pi, pj, b);
    if b != O && pi + BlockSize <= Rows {
      var w := Window(g, pi, pj);
      forall i, j | InGrid(i, j) && InWindow(pi, pj, i, j)
        ensures r[i][j] == At(g, pi + (j - pj), pj + BlockSize - 1 - (i - pi))
      {
        assert r[i][j] == Rotated(w)[i - pi][j - pj] == w[j - pj][BlockSize - 1 - (i - pi)];
      }
    }
  }

  /** A rotation that happens moves every window cell whose turned position is
      in a display column: with the window's rows on the display, the value at
      window position (x, y) moves to (N - 1 - y, x) whenever both cells are in
      columns of the display. */
  lemma RotatePlayerMovesCells(g: Grid, pi: int, pj: int, b: BlockId)
    requires WellFormed(g) && b != O && 0 <= pi && pi + BlockSize <= Rows
    ensures forall x, y :: 0 <= x < BlockSize && 0 <= y < BlockSize && 0 <= pj + x < Cols && 0 <= pj + y < Cols ==>
              Window(RotatePlayer(g, pi, pj, b), pi, pj)[BlockSize - 1 - y][x] == Window(g, pi, pj)[x][y]
  {
    var r := RotatePlayer(g, pi, pj, b);
    var w := Window(g, pi, pj);
    forall x, y | 0 <= x < BlockSize && 0 <= y < BlockSize && 0 <= pj + x < Cols && 0 <= pj + y < Cols
      ensures Window(r, pi, pj)[BlockSize - 1 - y][x] == w[x][y]
    {
      var i, j := pi + BlockSize - 1 - y, pj + x;
      assert InGrid(i, j) && InWindow(pi, pj, i, j);
      assert Window(r, pi, pj)[BlockSize - 1 - y][x] == At(r, i, j) == r[i][j];
      assert r[i][j] == Rotated(w)[BlockSize - 1 - y][x];
    }
  }

  /** Across a wall the turn drops cells, as main.c:253-261 writes back only
      the window columns on the display: a lone P cell in window position (0, 2),
      with the window's column 0 left of the display, turns into that column and
      the display is left with no P cell. */
  lemma RotateAcrossWallDrops()
    ensures var g := Filled(Off)[0 := Filled(Off)[0][1 := Player]];
      !NoPiece(g) && NoPiece(RotatePlayer(g, 0, -1, T))
  {
    var g := Filled(Off)[0 := Filled(Off)[0][1 := Player]];
    assert InGrid(0, 1) && g[0][1] == Player;
    RotatePlayerEffect(g, 0, -1, T);
    var r := RotatePlayer(g, 0, -1, T);
    forall i, j | InGrid(i, j)
      ensures r[i][j] != Player
    {
      if InWindow(0, -1, i, j) {
        assert r[i][j] == At(g, j + 1, 1 - i);
      }
    }
  }

  /** When the whole window is on the display, the window of the rotated display
      is the rotated window. */
  lemma WindowOfRotatePlayer(g: Grid, pi: int, pj: int, b: BlockId)
    requires WellFormed(g) && b != O
    requires 0 <= pi && pi + BlockSize <= Rows && 0 <= pj && pj + BlockSize <= Cols
    ensures Window(RotatePlayer(g, pi, pj, b), pi, pj) == Rotated(Window(g, pi, pj))
  {
    var l := Window(RotatePlayer(g, pi, pj, b), pi, pj);
    var r := Rotated(Window(g, pi, pj));
    forall x | 0 <= x < BlockSize
      ensures l[x] == r[x]
    {
      forall y | 0 <= y < BlockSize
        ensures l[x][y] == r[x][y]
      {
        var rg := RotatePlayer(g, pi, pj, b);
        assert InGrid(pi + x, pj + y) && InWindow(pi, pj, pi + x, pj + y);
        assert l[x][y] == At(rg, pi + x, pj + y);
        assert At(rg, pi + x, pj + y) == rg[pi + x][pj + y];
      }
    }
  }

  /** The cells of a rotation that happens, as the rotated window inside the
      window and the old display outside it. */
  lemma RotatePlayerCells(g: Grid, pi: int, pj: int, b: BlockId)
    requires WellFormed(g) && b != O && pi + BlockSize <= Rows
    ensures forall i, j :: InGrid(i, j) ==>
              RotatePlayer(g, pi, pj, b)[i][j] == (if InWindow(pi, pj, i, j) then Rotated(Window(g, pi, pj))[i - pi][j - pj] else g[i][j])
  {
  }

  /** A rotation whose turned window is the window of g, on a display that
      agrees with g outside the window, gives back g. */
  lemma RotatePlayerRestores(g: Grid, h: Grid, pi: int, pj: int, b: BlockId)
    requires WellFormed(g) && WellFormed(h) && b != O
    requires 0 <= pi && pi + BlockSize <= Rows && 0 <= pj && pj + BlockSize <= Cols
    requires Rotated(Window(h, pi, pj)) == Window(g, pi, pj)
    requires forall i, j :: InGrid(i, j) && !InWindow(pi, pj, i, j) ==> h[i][j] == g[i][j]
    ensures RotatePlayer(h, pi, pj, b) == g
  {
    var r := RotatePlayer(h, pi, pj, b);
    RotatePlayerCells(h, pi, pj, b);
    forall i | 0 <= i < Rows
      ensures r[i] == g[i]
    {
      forall j | 0 <= j < Cols
        ensures r[i][j] == g[i][j]
      {
        if InWindow(pi, pj, i, j) {
          assert Window(g, pi, pj)[i - pi][j - pj] == At(g, i, j);
        }
      }
    }
  }

  /** With the window wholly on the display, four rotations of the block give
      back the display. */
  lemma {:induction false} RotatePlayerFourTimes(g: Grid, pi: int, pj: int, b: BlockId)
    requires WellFormed(g)
    requires 0 <= pi && pi + BlockSize <= Rows && 0 <= pj && pj + BlockSize <= Cols
    ensures RotatePlayer(RotatePlayer(RotatePlayer(RotatePlayer(g, pi, pj, b), pi, pj, b), pi, pj, b), pi, pj, b) == g
  {
    if b != O {
      var g1 := RotatePlayer(g, pi, pj, b);
      var g2 := RotatePlayer(g1, pi, pj, b);
      var g3 := RotatePlayer(g2, pi, pj, b);
      var w := Window(g, pi, pj);
      WindowOfRotatePlayer(g, pi, pj, b);
      assert Window(g1, pi, pj) == Rotated(w);
      WindowOfRotatePlayer(g1, pi, pj, b);
      assert Window(g2, pi, pj) == Rotated(Rotated(w));
      WindowOfRotatePlayer(g2, pi, pj, b);
      assert Window(g3, pi, pj) == Rotated(Rotated(Rotated(w)));
      RotateFourTimes(w);
      RotatePlayerEffect(g, pi, pj, b);
      RotatePlayerEffect(g1, pi, pj, b);
      RotatePlayerEffect(g2, pi, pj, b);
      RotatePlayerRestores(g, g3, pi, pj, b);
    }
  }

  /** Rotation only moves values inside the window: it brings no P cell from
      outside, so every P cell it leaves lies in the window, and it creates none. */
  lemma RotatePlayerKeepsPiece(g: Grid, pi: int, pj: int, b: BlockId)
    requires WellFormed(g)
    ensures PieceInWindow(g, pi, pj) ==> PieceInWindow(RotatePlayer(g, pi, pj, b), pi, pj)
    ensures NoPiece(g) ==> NoPiece(RotatePlayer(g, pi, pj, b))
  {
    var r := RotatePlayer(g, pi, pj, b);
    if NoPiece(g) && b != O && pi + BlockSize <= Rows {
      forall i, j | InGrid(i, j)
        ensures r[i][j] != Player
      {
        if InWindow(pi, pj, i, j) {
          var w := Window(g, pi, pj);
          assert r[i][j] == w[j - pj][BlockSize - 1 - (i - pi)];
          assert w[j - pj][BlockSize - 1 - (i - pi)] == At(g, pi + (j - pj), pj + BlockSize - 1 - (i - pi));
        }
      }
    }
  }

  // ---------------------------------------------------------------- freezing

  /** freeze_blocks with its rows bounded like its columns: every P cell inside
      the window becomes ON; every other cell keeps its value. */
  function FreezeBlocks(g: Grid, pi: int, pj: int): (r: Grid)
    requires WellFormed(g)
    ensures WellFormed(r)
  {
    seq(Rows, i requires 0 <= i < Rows => seq(Cols, j requires 0 <= j < Cols =>
      if InWindow(pi, pj, i, j) && g[i][j] == Player then On else g[i][j]))
  }

  /** freeze_blocks as main.c:141-151 writes it: the rows pi .. pi + 2 are
      indexed with no bound check, so it is defined only where they exist. */
  function FreezeBlocksAsWritten(g: Grid, pi: int, pj: int): (r: Grid)
    requires WellFormed(g) && 0 <= pi && pi + BlockSize <= Rows
    ensures WellFormed(r)
  {
    FreezeBlocks(g, pi, pj)
  }

  /** When every P cell lies in the window, freezing turns exactly the P cells
      into ON cells, changes nothing else, and leaves no P cell behind. */
  lemma FreezeBlocksLocksPiece(g: Grid, pi: int, pj: int)
    requires WellFormed(g) && PieceInWindow(g, pi, pj)
    ensures NoPiece(FreezeBlocks(g, pi, pj))
    ensures forall i, j :: InGrid(i, j) ==>
              FreezeBlocks(g, pi, pj)[i][j] == if g[i][j] == Player then On else g[i][j]
  {
  }

  // ---------------------------------------------------------------- falling

  /** A cell of the display after fall_one_row. Column by column, the loop copies
      window row i to row i + 1 unless row i + 1 holds ON, bottom row first, and
      empties the top window row when it moved. Every test reads a cell no
      earlier step wrote. The step for row i is skipped when row i + 1 is off the
      display (the bound the C omits). */
  function FallCell(g: Grid, pi: int, pj: int, i: int, j: int): int
    requires WellFormed(g) && 0 <= pi && InGrid(i, j)
  {
    if !(pj <= j < pj + BlockSize) then g[i][j]
    else if i == pi then (if i + 1 < Rows && g[i + 1][j] != On then Off else g[i][j])
    else if pi < i <= pi + BlockSize then (if g[i][j] != On then g[i - 1][j] else g[i][j])
    else g[i][j]
  }

  /** fall_one_row with the missing row bound added; the anchor row moves down by one. */
  function FallOneRow(g: Grid, pi: int, pj: int): (r: Grid)
    requires WellFormed(g) && 0 <= pi
    ensures WellFormed(r)
  {
    seq(Rows, i requires 0 <= i < Rows => seq(Cols, j requires 0 <= j < Cols => FallCell(g, pi, pj, i, j)))
  }

  /** fall_one_row as main.c:153-167 writes it: it writes row pi + BlockSize with
      no bound check, so it is defined only where that row exists. */
  function FallOneRowAsWritten(g: Grid, pi: int, pj: int): (r: Grid)
    requires WellFormed(g) && 0 <= pi && pi + BlockSize < Rows
    ensures WellFormed(r)
  {
    FallOneRow(g, pi, pj)
  }

  /** With no ON cell in the window and the row below the window on the display,
      fall_one_row moves the window down one row: the top window row becomes
      OFF, the next rows take the rows above them, the row below the window
      takes the bottom window row unless it is ON, and no cell outside columns
      pj .. pj + 2 or rows pi .. pi + 3 changes. */
  lemma FallOneRowMovesWindow(g: Grid, pi: int, pj: int)
    requires WellFormed(g) && 0 <= pi && pi + BlockSize < Rows
    requires forall i, j :: InGrid(i, j) && InWindow(pi, pj, i, j) ==> g[i][j] != On
    ensures forall j :: 0 <= j < Cols && pj <= j < pj + BlockSize ==>
              FallOneRow(g, pi, pj)[pi][j] == Off &&
              FallOneRow(g, pi, pj)[pi + 1][j] == g[pi][j] &&
              FallOneRow(g, pi, pj)[pi + 2][j] == g[pi + 1][j] &&
              FallOneRow(g, pi, pj)[pi + 3][j] == (if g[pi + 3][j] == On then On else g[pi + 2][j])
    ensures forall i, j :: InGrid(i, j) && !(pj <= j < pj + BlockSize && pi <= i <= pi + BlockSize) ==>
              FallOneRow(g, pi, pj)[i][j] == g[i][j]
  {
    var r := FallOneRow(g, pi, pj);
    forall j | 0 <= j < Cols && pj <= j < pj + BlockSize
      ensures r[pi][j] == Off && r[pi + 1][j] == g[pi][j] && r[pi + 2][j] == g[pi + 1][j]
      ensures r[pi + 3][j] == (if g[pi + 3][j] == On then On else g[pi + 2][j])
    {
      assert InWindow(pi, pj, pi + 1, j) && InWindow(pi, pj, pi + 2, j);
    }
  }

  /** When check_collision reports no BOTTOM and every P cell lies in the window,
      fall_one_row moves every P cell exactly one row down (whatever the anchor
      row, the last rows included), so the block stays in the window at the new
      anchor. */
  lemma FallOneRowMovesPiece(g: Grid, pi: int, pj: int)
    requires WellFormed(g) && 0 <= pi
    requires PieceInWindow(g, pi, pj) && !Hits(g, pi, pj, Bottom)
    ensures forall i, j :: InGrid(i, j) ==>
              (FallOneRow(g, pi, pj)[i][j] == Player <==> 1 <= i && g[i - 1][j] == Player)
    ensures PieceInWindow(FallOneRow(g, pi, pj), pi + 1, pj)
  {
    var r := FallOneRow(g, pi, pj);
    forall i, j | InGrid(i, j)
      ensures r[i][j] == Player <==> 1 <= i && g[i - 1][j] == Player
    {
      if 1 <= i && g[i - 1][j] == Player {
        assert IsPieceCell(g, pi, pj, i - 1, j);
        assert !Touches(g, Bottom, i - 1, j);
      }
      if r[i][j] == Player && i == pi {
        assert IsPieceCell(g, pi, pj, i, j);
      }
    }
  }

  // ---------------------------------------------------------------- moving

  /** Column j holds no P cell. */
  predicate NoPieceInColumn(g: Grid, j: int)
    requires WellFormed(g) && 0 <= j < Cols
  {
    forall i :: 0 <= i < Rows ==> g[i][j] != Player
  }

  /** move_player_to_left (main.c:292-304). Its guard `j - 1 >= 0` is on an
      unsigned j and always holds, so a P cell in column 0 would be written to
      display[i][j - 1] with j - 1 wrapping to UINT_MAX: the function is defined only when column 0 holds no P
      cell. Scanning left to right in place, each P cell is copied one column
      left and its own cell emptied, so a cell ends as P when its right
      neighbour was P, as OFF when it was P itself and its right neighbour was
      not, and unchanged otherwise. */
  function MovePlayerToLeft(g: Grid): (r: Grid)
    requires WellFormed(g) && NoPieceInColumn(g, 0)
    ensures WellFormed(r)
  {
    seq(Rows, i requires 0 <= i < Rows => seq(Cols, j requires 0 <= j < Cols =>
      if j + 1 < Cols && g[i][j + 1] == Player then Player
      else if g[i][j] == Player then Off
      else g[i][j]))
  }

  /** move_player_to_right (main.c:306-325). Each row is rebuilt in a scratch row:
      a cell becomes P when its left neighbour was P; a P cell with a right
      neighbour becomes OFF; every other cell, a P cell in the last column
      included, keeps its value. */
  function MovePlayerToRight(g: Grid): (r: Grid)
    requires WellFormed(g)
    ensures WellFormed(r)
  {
    seq(Rows, i requires 0 <= i < Rows => seq(Cols, j requires 0 <= j < Cols =>
      if 1 <= j && g[i][j - 1] == Player then Player
      else if g[i][j] == Player && j + 1 < Cols then Off
      else g[i][j]))
  }

  /** No P cell is in the first column, and none has an ON cell on its left. */
  ghost predicate LeftGate(g: Grid)
    requires WellFormed(g)
  {
    NoPieceInColumn(g, 0) &&
    forall i, j :: InGrid(i, j) && 1 <= j && g[i][j] == Player ==> g[i][j - 1] != On
  }

  /** No P cell is in the last column, and none has an ON cell on its right. */
  ghost predicate RightGate(g: Grid)
    requires WellFormed(g)
  {
    NoPieceInColumn(g, Cols - 1) &&
    forall i, j :: InGrid(i, j) && j + 1 < Cols && g[i][j] == Player ==> g[i][j + 1] != On
  }

  /** When every P cell lies in the window, a clear LEFT (RIGHT) flag of
      check_collision is the left (right) gate on the whole display: the tests
      of event_manager (main.c:349, 355) make the moves safe. */
  lemma GatesFromCollision(g: Grid, pi: int, pj: int)
    requires WellFormed(g) && PieceInWindow(g, pi, pj)
    ensures !Has(CollisionOf(g, pi, pj), Left) ==> LeftGate(g)
    ensures !Has(CollisionOf(g, pi, pj), Right) ==> RightGate(g)
  {
    forall i, j | InGrid(i, j) && g[i][j] == Player
      ensures IsPieceCell(g, pi, pj, i, j)
    {
    }
  }

  /** Under the left gate, move_player_to_left moves every P cell one column
      left, overwrites no ON cell, empties the cells the block leaves and keeps
      every other cell; the block stays in the window anchored one column left. */
  lemma MovePlayerToLeftShifts(g: Grid, pi: int, pj: int)
    requires WellFormed(g) && LeftGate(g)
    ensures forall i, j :: InGrid(i, j) ==>
              (MovePlayerToLeft(g)[i][j] == Player <==> j + 1 < Cols && g[i][j + 1] == Player)
    ensures forall i, j :: InGrid(i, j) && g[i][j] == On ==> MovePlayerToLeft(g)[i][j] == On
    ensures forall i, j :: InGrid(i, j) && g[i][j] == Player && !(j + 1 < Cols && g[i][j + 1] == Player) ==>
              MovePlayerToLeft(g)[i][j] == Off
    ensures forall i, j :: InGrid(i, j) && g[i][j] != Player && !(j + 1 < Cols && g[i][j + 1] == Player) ==>
              MovePlayerToLeft(g)[i][j] == g[i][j]
    ensures PieceInWindow(g, pi, pj) ==> PieceInWindow(MovePlayerToLeft(g), pi, pj - 1)
  {
  }

  /** Under the right gate, move_player_to_right moves every P cell one column
      right, overwrites no ON cell, empties the cells the block leaves and keeps
      every other cell; the block stays in the window anchored one column right. */
  lemma MovePlayerToRightShifts(g: Grid, pi: int, pj: int)
    requires WellFormed(g) && RightGate(g)
    ensures forall i, j :: InGrid(i, j) ==>
              (MovePlayerToRight(g)[i][j] == Player <==> 1 <= j && g[i][j - 1] == Player)
    ensures forall i, j :: InGrid(i, j) && g[i][j] == On ==> MovePlayerToRight(g)[i][j] == On
    ensures forall i, j :: InGrid(i, j) && g[i][j] == Player && !(1 <= j && g[i][j - 1] == Player) ==>
              MovePlayerToRight(g)[i][j] == Off
    ensures forall i, j :: InGrid(i, j) && g[i][j] != Player && !(1 <= j && g[i][j - 1] == Player) ==>
              MovePlayerToRight(g)[i][j] == g[i][j]
    ensures PieceInWindow(g, pi, pj) ==> PieceInWindow(MovePlayerToRight(g), pi, pj + 1)
  {
  }

  /** Moving a display with no P cell changes nothing. */
  lemma MovesWithoutPiece(g: Grid)
    requires WellFormed(g) && NoPiece(g)
    ensures MovePlayerToLeft(g) == g && MovePlayerToRight(g) == g
  {
    var l, r := MovePlayerToLeft(g), MovePlayerToRight(g);
    forall i | 0 <= i < Rows
      ensures l[i] == g[i] && r[i] == g[i]
    {
      assert forall j :: 0 <= j < Cols ==> l[i][j] == g[i][j] && r[i][j] == g[i][j];
    }
  }

  // ---------------------------------------------------------------- spawning

  /** insert_block: the window at the spawn anchor takes the block; every other
      cell keeps its value. */
  function InsertBlock(g: Grid, shape: Grid): (r: Grid)
    requires WellFormed(g) && IsSquare(shape)
    ensures WellFormed(r)
  {
    seq(Rows, i requires 0 <= i < Rows => seq(Cols, j requires 0 <= j < Cols =>
      if InWindow(SpawnRow, SpawnCol, i, j) then shape[i - SpawnRow][j - SpawnCol] else g[i][j]))
  }

  /** The window at the spawn anchor holds exactly the block, nothing outside it
      changes, and on a display with no P cell the new block lies in that window. */
  lemma InsertBlockPlacesShape(g: Grid, b: BlockId)
    requires WellFormed(g)
    ensures Window(InsertBlock(g, Shape(b)), SpawnRow, SpawnCol) == Shape(b)
    ensures forall i, j :: InGrid(i, j) && !InWindow(SpawnRow, SpawnCol, i, j) ==> InsertBlock(g, Shape(b))[i][j] == g[i][j]
    ensures NoPiece(g) ==> PieceInWindow(InsertBlock(g, Shape(b)), SpawnRow, SpawnCol)
  {
    var r := InsertBlock(g, Shape(b));
    var w := Window(r, SpawnRow, SpawnCol);
    forall x | 0 <= x < BlockSize
      ensures w[x] == Shape(b)[x]
    {
      forall y | 0 <= y < BlockSize
        ensures w[x][y] == Shape(b)[x][y]
      {
        assert w[x][y] == At(r, SpawnRow + x, SpawnCol + y) == r[SpawnRow + x][SpawnCol + y];
      }
    }
  }
}
