/** The engine as main.c runs it: the display array and the globals, changed in
    place by the procedures of main.c. Every method is proved to leave the
    state that the matching function of the Transforms, Lines and Game modules
    describes; the ghost field `grid` is the display as a value. */
module Engine {
  import opened Board
  import opened Collision
  import opened Transforms
  import opened Lines
  import opened Game

  /** rotate_matrix (main.c:209-235) on a 3 x 3 matrix: the loop over rings x
      and offsets y moves the cells of each ring in four-cycles. The result is
      the anti-clockwise quarter turn: the new (x, y) is the old (y, N - 1 - x). */
  method RotateMatrix(mat: array2<int>)
    requires mat.Length0 == BlockSize && mat.Length1 == BlockSize
    modifies mat
    ensures forall x, y :: 0 <= x < BlockSize && 0 <= y < BlockSize ==> mat[x, y] == old(mat[y, BlockSize - 1 - x])
  {
    var x := 0;
    while x < BlockSize / 2
      invariant 0 <= x <= BlockSize / 2
      invariant forall a, b :: 0 <= a < BlockSize && 0 <= b < BlockSize ==>
                  mat[a, b] == if x == 1 && Slot(a, b) < BlockSize - 1 then old(mat[b, BlockSize - 1 - a]) else old(mat[a, b])
    {
      var y := x;
      while y < BlockSize - x - 1
        invariant x == 0 && 0 <= y <= BlockSize - 1
        invariant forall a, b :: 0 <= a < BlockSize && 0 <= b < BlockSize ==>
                    mat[a, b] == if Slot(a, b) < y then old(mat[b, BlockSize - 1 - a]) else old(mat[a, b])
      {
        var temp := mat[x, y];
        mat[x, y] := mat[y, BlockSize - 1 - x];
        mat[y, BlockSize - 1 - x] := mat[BlockSize - 1 - x, BlockSize - 1 - y];
        mat[BlockSize - 1 - x, BlockSize - 1 - y] := mat[BlockSize - 1 - y, x];
        mat[BlockSize - 1 - y, x] := temp;
        y := y + 1;
      }
      x := x + 1;
    }
  }

  /** The inner-loop step of rotate_matrix that moves cell (a, b) of the outer
      ring of a 3 x 3 matrix; the centre (BlockSize) is never moved. */
  function Slot(a: int, b: int): int {
    if a == 0 && b < BlockSize - 1 then b
    else if b == BlockSize - 1 && a < BlockSize - 1 then a
    else if a == BlockSize - 1 && 0 < b then BlockSize - 1 - b
    else if b == 0 && 0 < a then BlockSize - 1 - a
    else BlockSize
  }

  /** The globals of main.c around the display array. */
  class Tetris {
    const display: array2<int>
    var pi: int                // p_i
    var pj: int                // p_j
    var gameState: nat         // game_state
    var timer: nat
    var collisionState: bv32   // collision_state
    var currentBlock: BlockId  // current_block
    var overRow: nat           // game_manager's static i
    var overCol: nat           // game_manager's static j
    var phase: nat             // main's state
    ghost var grid: Grid

    /** The globals as a Game.State. */
    ghost function Snapshot(): State
      reads this
    {
      State(grid, pi, pj, gameState, timer, collisionState, currentBlock, overRow, overCol, phase)
    }

    ghost predicate Valid()
      reads this, display
    {
      display.Length0 == Rows && display.Length1 == Cols && Sane(Snapshot()) &&
      forall i, j :: 0 <= i < Rows && 0 <= j < Cols ==> display[i, j] == grid[i][j]
    }

    /** main.c:471-474: init, then clear_display and spawn_block. */
    constructor (piece: BlockId)
      ensures Valid() && Snapshot() == Start(piece) && Inv(Snapshot())
    {
      display := new int[Rows, Cols]((i, j) => Off);
      pi, pj := 0, 0;
      gameState, timer, phase := Falling, 0, 0;
      collisionState := CollisionNone;
      currentBlock := T;
      overRow, overCol := 0, 0;
      grid := Filled(Off);
      new;
      ClearDisplay();
      SpawnBlock(piece);
      StartInv(piece);
    }

    /** set_display: every cell takes the value v. */
    method SetDisplay(v: int)
      requires Valid()
      modifies this, display
      ensures Valid() && Snapshot() == old(Snapshot()).(grid := Filled(v))
    {
      var i := 0;
      while i < Rows
        modifies display
        invariant 0 <= i <= Rows
        invariant forall a, b :: 0 <= a < Rows && 0 <= b < Cols ==> display[a, b] == if a < i then v else grid[a][b]
      {
        var j := 0;
        while j < Cols
          modifies display
          invariant 0 <= j <= Cols
          invariant forall a, b :: 0 <= a < Rows && 0 <= b < Cols ==>
                      display[a, b] == if a < i || (a == i && b < j) then v else grid[a][b]
        {
          display[i, j] := v;
          j := j + 1;
        }
        i := i + 1;
      }
      grid := Filled(v);
    }

    /** fill_display: every cell ON. */
    method FillDisplay()
      requires Valid()
      modifies this, display
      ensures Valid() && Snapshot() == old(Snapshot()).(grid := Filled(On))
    {
      SetDisplay(On);
    }

    /** clear_display: every cell OFF. */
    method ClearDisplay()
      requires Valid()
      modifies this, display
      ensures Valid() && Snapshot() == old(Snapshot()).(grid := Filled(Off))
    {
      SetDisplay(Off);
    }

    /** check_collision: the flags of the P cells inside the window, on the
      display, that touch the floor, a wall or an ON cell; nothing changes. */
    method CheckCollision() returns (c: bv32)
      requires Valid()
      ensures c == CollisionOf(grid, pi, pj)
    {
      HitsBeforeNone(grid, pi, pj, Left);
      HitsBeforeNone(grid, pi, pj, Right);
      HitsBeforeNone(grid, pi, pj, Bottom);
      c := CollisionNone;
      var i := pi;
      while i < pi + BlockSize
        invariant pi <= i <= pi + BlockSize
        invariant c == MaskBefore(grid, pi, pj, i, pj)
      {
        var j := pj;
        while j < pj + BlockSize
          invariant pj <= j <= pj + BlockSize
          invariant c == MaskBefore(grid, pi, pj, i, j)
        {
          c := CheckCell(c, i, j);
          j := j + 1;
        }
        HitsBeforeNextRow(grid, pi, pj, Left, i);
        HitsBeforeNextRow(grid, pi, pj, Right, i);
        HitsBeforeNextRow(grid, pi, pj, Bottom, i);
        i := i + 1;
      }
      HitsBeforeAll(grid, pi, pj, Left);
      HitsBeforeAll(grid, pi, pj, Right);
      HitsBeforeAll(grid, pi, pj, Bottom);
    }

    /** The body of check_collision's loop for cell (i, j): the flags that cell
        triggers are added to those of the cells visited before it. */
    method CheckCell(c: bv32, i: int, j: int) returns (c': bv32)
      requires Valid() && InWindow(pi, pj, i, j) && c == MaskBefore(grid, pi, pj, i, j)
      ensures c' == MaskBefore(grid, pi, pj, i, j + 1)
    {
      MaskSet();
      HitsBeforeStep(grid, pi, pj, Left, i, j);
      HitsBeforeStep(grid, pi, pj, Right, i, j);
      HitsBeforeStep(grid, pi, pj, Bottom, i, j);
      c' := c;
      if i < Rows && 0 <= j < Cols && display[i, j] == Player {
        if i == Rows - 1 {
          c' := c' | CollisionBottom;
        } else if display[i + 1, j] == On {
          c' := c' | CollisionBottom;
        }
        if j == Cols - 1 {
          c' := c' | CollisionRight;
          if display[i, j - 1] == On {
            c' := c' | CollisionLeft;
          }
        } else if j == 0 {
          c' := c' | CollisionLeft;
          if display[i, j + 1] == On {
            c' := c' | CollisionRight;
          }
        } else {
          if display[i, j + 1] == On {
            c' := c' | CollisionRight;
          }
          if display[i, j - 1] == On {
            c' := c' | CollisionLeft;
          }
        }
      }
    }

    /** freeze_blocks, with the row bound i < Rows it lacks. */
    method FreezeBlocks()
      requires Valid()
      modifies this, display
      ensures Valid() && Snapshot() == old(Snapshot()).(grid := Transforms.FreezeBlocks(old(grid), pi, pj))
    {
      ghost var r := Transforms.FreezeBlocks(grid, pi, pj);
      var i := pi;
      while i < pi + BlockSize
        modifies display
        invariant pi <= i <= pi + BlockSize
        invariant forall a, b :: 0 <= a < Rows && 0 <= b < Cols ==> display[a, b] == if a < i then r[a][b] else grid[a][b]
      {
        var j := pj;
        while j < pj + BlockSize
          modifies display
          invariant pj <= j <= pj + BlockSize
          invariant forall a, b :: 0 <= a < Rows && 0 <= b < Cols ==>
                      display[a, b] == if a < i || (a == i && b < j) then r[a][b] else grid[a][b]
        {
          if i < Rows && 0 <= j < Cols && display[i, j] == Player {
            display[i, j] := On;
          }
          j := j + 1;
        }
        i := i + 1;
      }
      grid := r;
    }

    /** fall_one_row, with the row bound i + 1 < Rows it lacks; p_i moves down one row. */
    method FallOneRow()
      requires Valid()
      modifies this, display
      ensures Valid()
      ensures Snapshot() == old(Snapshot()).(grid := Transforms.FallOneRow(old(grid), old(pi), pj), pi := old(pi) + 1)
    {
      ghost var r := Transforms.FallOneRow(grid, pi, pj);
      var i := pi + BlockSize - 1;
      while i > pi - 1
        modifies display
        invariant pi - 1 <= i <= pi + BlockSize - 1
        invariant forall a, b :: 0 <= a < Rows && 0 <= b < Cols ==>
                    display[a, b] == if a >= i + 2 || (a == pi && i < pi) then r[a][b] else grid[a][b]
      {
        var j := pj;
        while j < pj + BlockSize
          modifies display
          invariant pj <= j <= pj + BlockSize
          invariant forall a, b :: 0 <= a < Rows && 0 <= b < Cols ==>
                      display[a, b] == if a >= i + 2 || (a == i + 1 && b < j) || (a == pi && i == pi && b < j)
                                       then r[a][b] else grid[a][b]
        {
          if 0 <= j < Cols && i + 1 < Rows {
            assert r[i + 1][j] == FallCell(grid, pi, pj, i + 1, j);
            assert i == pi ==> r[i][j] == FallCell(grid, pi, pj, i, j);
            if display[i + 1, j] != On {
              display[i + 1, j] := display[i, j];
              if i == pi {
                display[i, j] := Off;
              }
            }
          }
          j := j + 1;
        }
        i := i - 1;
      }
      grid := r;
      pi := pi + 1;
    }

    /** full_row: whether no cell of row `row` is OFF; nothing changes. */
    method FullRow(row: int) returns (full: bool)
      requires Valid() && 0 <= row < Rows
      ensures full == IsFull(grid[row])
    {
      var j := 0;
      while j < Cols
        invariant 0 <= j <= Cols
        invariant forall b :: 0 <= b < j ==> grid[row][b] != Off
      {
        if display[row, j] == Off {
          return false;
        }
        j := j + 1;
      }
      return true;
    }

    /** fall_row_until(n): rows n down to 1 take the row above them. */
    method FallRowUntil(n: int)
      requires Valid() && 0 <= n < Rows
      modifies this, display
      ensures Valid() && Snapshot() == old(Snapshot()).(grid := Lines.FallRowUntil(old(grid), n))
    {
      ghost var r := Lines.FallRowUntil(grid, n);
      var i := n;
      while i > 0
        modifies display
        invariant 0 <= i <= n
        invariant forall a, b :: 0 <= a < Rows && 0 <= b < Cols ==> display[a, b] == if i < a then r[a][b] else grid[a][b]
      {
        var j := 0;
        while j < Cols
          modifies display
          invariant 0 <= j <= Cols
          invariant forall a, b :: 0 <= a < Rows && 0 <= b < Cols ==>
                      display[a, b] == if i < a || (a == i && b < j) then r[a][b] else grid[a][b]
        {
          display[i, j] := display[i - 1, j];
          j := j + 1;
        }
        i := i - 1;
      }
      grid := r;
    }

    /** clean_full_rows: rows 1 .. Rows - 1, top to bottom, each collapsed when full. */
    method CleanFullRows()
      requires Valid()
      modifies this, display
      ensures Valid() && Snapshot() == old(Snapshot()).(grid := Lines.CleanFullRows(old(grid)))
    {
      var i := 1;
      while i < Rows
        invariant 1 <= i <= Rows
        invariant Valid() && Snapshot() == old(Snapshot()).(grid := grid)
        invariant CleanFrom(grid, i) == CleanFrom(old(grid), 1)
      {
        var full := FullRow(i);
        if full {
          FallRowUntil(i);
        }
        i := i + 1;
      }
    }

    /** insert_block: the anchor goes to the spawn position and the window there
        takes the block. */
    method InsertBlock(shape: Grid)
      requires Valid() && IsSquare(shape)
      modifies this, display
      ensures Valid()
      ensures Snapshot() == old(Snapshot()).(grid := Transforms.InsertBlock(old(grid), shape), pi := SpawnRow, pj := SpawnCol)
    {
      pi, pj := SpawnRow, SpawnCol;
      var i := 0;
      while i < BlockSize
        modifies display
        invariant 0 <= i <= BlockSize
        invariant forall a, b :: 0 <= a < Rows && 0 <= b < Cols ==>
                    display[a, b] == if InWindow(pi, pj, a, b) && a < pi + i then shape[a - pi][b - pj] else grid[a][b]
      {
        var j := 0;
        while j < BlockSize
          modifies display
          invariant 0 <= j <= BlockSize
          invariant forall a, b :: 0 <= a < Rows && 0 <= b < Cols ==>
                      display[a, b] == if InWindow(pi, pj, a, b) && (a < pi + i || (a == pi + i && b < pj + j))
                                       then shape[a - pi][b - pj] else grid[a][b]
        {
          display[i + pi, j + pj] := shape[i][j];
          j := j + 1;
        }
        i := i + 1;
      }
      grid := Transforms.InsertBlock(grid, shape);
    }

    /** spawn_block, with the block rand() would pick given as `piece`. */
    method SpawnBlock(piece: BlockId)
      requires Valid()
      modifies this, display
      ensures Valid() && Snapshot() == Game.SpawnBlock(old(Snapshot()), piece)
    {
      currentBlock := piece;
      InsertBlock(Shape(piece));
    }

    /** rotate_player, refused when the window reaches below the floor (the row
        bound it lacks): the window is copied out (0 in columns off the
        display), turned by rotate_matrix and copied back. */
    method RotatePlayer()
      requires Valid()
      modifies this, display
      ensures Valid()
      ensures Snapshot() == old(Snapshot()).(grid := Transforms.RotatePlayer(old(grid), pi, pj, currentBlock))
    {
      if currentBlock == O || pi + BlockSize > Rows {
        return;
      }
      var window := CopyWindow();
      RotateMatrix(window);
      WriteWindow(window);
    }

    /** rotate_player's first loop: a fresh 3 x 3 matrix holding the window,
        with 0 for the cells in columns off the display. */
    method CopyWindow() returns (window: array2<int>)
      requires Valid() && pi + BlockSize <= Rows
      ensures fresh(window) && window.Length0 == BlockSize && window.Length1 == BlockSize
      ensures forall x, y :: 0 <= x < BlockSize && 0 <= y < BlockSize ==> window[x, y] == Window(grid, pi, pj)[x][y]
    {
      window := new int[BlockSize, BlockSize];
      var i := 0;
      while i < BlockSize
        modifies window
        invariant 0 <= i <= BlockSize
        invariant forall x, y :: 0 <= x < i && 0 <= y < BlockSize ==> window[x, y] == Window(grid, pi, pj)[x][y]
      {
        var j := 0;
        while j < BlockSize
          modifies window
          invariant 0 <= j <= BlockSize
          invariant forall x, y :: 0 <= x < BlockSize && 0 <= y < BlockSize && (x < i || (x == i && y < j)) ==>
                      window[x, y] == Window(grid, pi, pj)[x][y]
        {
          var ii, jj := pi + i, pj + j;
          if 0 <= jj < Cols {
            window[i, j] := display[ii, jj];
          } else {
            window[i, j] := Off;
          }
          assert Window(grid, pi, pj)[i][j] == At(grid, ii, jj);
          j := j + 1;
        }
        i := i + 1;
      }
    }

    /** rotate_player's last loop, given the window after rotate_matrix: the
        window cells on the display take the turned window. */
    method WriteWindow(window: array2<int>)
      requires Valid() && currentBlock != O && pi + BlockSize <= Rows
      requires window.Length0 == BlockSize && window.Length1 == BlockSize
      requires forall x, y :: 0 <= x < BlockSize && 0 <= y < BlockSize ==>
                 window[x, y] == Rotated(Window(grid, pi, pj))[x][y]
      modifies this, display
      ensures Valid()
      ensures Snapshot() == old(Snapshot()).(grid := Transforms.RotatePlayer(old(grid), pi, pj, currentBlock))
    {
      ghost var r := TurnWindow(grid, pi, pj);
      var i := 0;
      while i < BlockSize
        modifies display
        invariant 0 <= i <= BlockSize
        invariant forall a, b :: 0 <= a < Rows && 0 <= b < Cols ==> display[a, b] == if a < pi + i then r[a][b] else grid[a][b]
      {
        var j := 0;
        while j < BlockSize
          modifies display
          invariant 0 <= j <= BlockSize
          invariant forall a, b :: 0 <= a < Rows && 0 <= b < Cols ==>
                      display[a, b] == if a < pi + i || (a == pi + i && b < pj + j) then r[a][b] else grid[a][b]
        {
          var ii, jj := pi + i, pj + j;
          if 0 <= jj < Cols {
            display[ii, jj] := window[i, j];
          }
          j := j + 1;
        }
        i := i + 1;
      }
      grid := r;
    }

    /** move_player_to_left, in place, left to right; p_j moves left one column.
        Its guard `j - 1 >= 0` always holds for an unsigned j, so the caller
        must ensure that column 0 holds no P cell. */
    method MovePlayerToLeft()
      requires Valid() && NoPieceInColumn(grid, 0)
      modifies this, display
      ensures Valid() && Snapshot() == old(Snapshot()).(grid := Transforms.MovePlayerToLeft(old(grid)), pj := old(pj) - 1)
    {
      ghost var r := Transforms.MovePlayerToLeft(grid);
      var i := 0;
      while i < Rows
        modifies display
        invariant 0 <= i <= Rows
        invariant forall a, b :: 0 <= a < Rows && 0 <= b < Cols ==> display[a, b] == if a < i then r[a][b] else grid[a][b]
      {
        var j := 0;
        while j < Cols
          modifies display
          invariant 0 <= j <= Cols
          invariant forall a, b :: 0 <= a < Rows && 0 <= b < Cols ==>
                      display[a, b] == if a < i || (a == i && b + 1 < j) then r[a][b]
                                       else if a == i && b + 1 == j then (if grid[a][b] == Player then Off else grid[a][b])
                                       else grid[a][b]
        {
          if display[i, j] == Player {
            display[i, j - 1] := display[i, j];
            display[i, j] := Off;
          }
          j := j + 1;
        }
        i := i + 1;
      }
      grid := r;
      pj := pj - 1;
    }

    /** move_player_to_right: each row is rebuilt in a scratch row and copied
        back; p_j moves right one column. */
    method MovePlayerToRight()
      requires Valid()
      modifies this, display
      ensures Valid() && Snapshot() == old(Snapshot()).(grid := Transforms.MovePlayerToRight(old(grid)), pj := old(pj) + 1)
    {
      ghost var r := Transforms.MovePlayerToRight(grid);
      var i := 0;
      while i < Rows
        modifies display
        invariant 0 <= i <= Rows
        invariant forall a, b :: 0 <= a < Rows && 0 <= b < Cols ==> display[a, b] == if a < i then r[a][b] else grid[a][b]
      {
        var newRow := new int[Cols];
        var j := 0;
        while j < Cols
          modifies newRow
          invariant 0 <= j <= Cols
          invariant forall b :: 0 <= b < j ==> newRow[b] == Off
        {
          newRow[j] := Off;
          j := j + 1;
        }
        j := 0;
        while j < Cols
          modifies newRow
          invariant 0 <= j <= Cols
          invariant forall b :: 0 <= b < Cols ==>
                      newRow[b] == if b < j then r[i][b]
                                   else if b == j && 1 <= j && grid[i][j - 1] == Player then Player
                                   else Off
        {
          if j + 1 < Cols && display[i, j] == Player {
            newRow[j + 1] := display[i, j];
          } else if newRow[j] != Player {
            newRow[j] := display[i, j];
          }
          j := j + 1;
        }
        j := 0;
        while j < Cols
          modifies display
          invariant 0 <= j <= Cols
          invariant forall a, b :: 0 <= a < Rows && 0 <= b < Cols ==>
                      display[a, b] == if a < i || (a == i && b < j) then r[a][b] else grid[a][b]
        {
          display[i, j] := newRow[j];
          j := j + 1;
        }
        i := i + 1;
      }
      grid := r;
      pj := pj + 1;
    }

    /** The key handling of event_manager for one key press. */
    method HandleKey(input: Input)
      requires Valid() && Inv(Snapshot()) && collisionState == CollisionOf(grid, pi, pj)
      modifies this, display
      ensures Valid() && Snapshot() == Game.HandleKey(old(Snapshot()), input)
    {
      match Dispatch(input, collisionState)
      case Rotate => RotatePlayer();
      case MoveRight => MovePlayerToRight();
      case MoveLeft =>
        GatesFromCollision(grid, pi, pj);
        MovePlayerToLeft();
      case Idle =>
    }

    /** event_manager over the events of one pass, each gated by the flags of
        the display it meets (the corrected form: main.c tests every event of
        a pass against one collision_state). */
    method EventManager(inputs: seq<Input>)
      requires Valid() && Inv(Snapshot())
      modifies this, display
      ensures Valid() && Inv(Snapshot()) && Snapshot() == HandleKeys(old(Snapshot()), inputs)
    {
      var k := 0;
      while k < |inputs|
        invariant 0 <= k <= |inputs|
        invariant Valid() && Inv(Snapshot())
        invariant HandleKeys(Snapshot(), inputs[k..]) == HandleKeys(old(Snapshot()), inputs)
      {
        ghost var s := Snapshot();
        assert inputs[k..][0] == inputs[k] && inputs[k..][1..] == inputs[k + 1..];
        collisionState := CheckCollision();
        ghost var s1 := Snapshot();
        assert s1 == s.(collision := CollisionOf(s.grid, s.pi, s.pj));
        HandleKeyKeepsInv(s1, inputs[k]);
        HandleKey(inputs[k]);
        k := k + 1;
      }
    }

    /** check_game_over: the block is still at the top row and BOTTOM is set;
        nothing changes. */
    method CheckGameOver() returns (over: bool)
      requires Valid()
      ensures over == IsGameOver(pi, collisionState)
    {
      over := pi == 0 && collisionState & CollisionBottom != 0;
    }

    /** game_manager, with the block rand() would pick given as `piece`. */
    method GameManager(piece: BlockId)
      requires Valid()
      modifies this, display
      ensures Valid() && Snapshot() == GameStep(old(Snapshot()), piece)
    {
      if gameState == Spawning {
        SpawnBlock(piece);
        gameState := Falling;
      } else if gameState == Falling {
        Drop();
      } else if gameState == Waiting {
        if timer == 0 {
          gameState := Falling;
        }
      } else if gameState == Ending {
        if timer == 0 {
          PaintCell();
        }
      }
    }

    /** game_manager's state 1: game over when the block cannot leave row 0,
        otherwise the block is frozen and full rows cleared when it cannot
        fall, or it falls one row and the timer is started. */
    method Drop()
      requires Valid() && gameState == Falling
      modifies this, display
      ensures Valid() && Snapshot() == GameStep(old(Snapshot()), currentBlock)
    {
      var over := CheckGameOver();
      if over {
        overRow, overCol := 0, 0;
        timer := DelayTickGameOver;
        gameState := Ending;
      } else if Has(collisionState, Bottom) {
        FreezeBlocks();
        CleanFullRows();
        gameState := Spawning;
      } else {
        FallOneRow();
        timer := DelayFall;
        gameState := Waiting;
      }
    }

    /** The game-over step of game_manager once the timer has run out: the
        cursor cell is painted ON and the cursor moves on; after the last cell
        the display is cleared and a block is to be spawned. */
    method PaintCell()
      requires Valid()
      modifies this, display
      ensures Valid() && Snapshot() == Game.PaintCell(old(Snapshot()))
    {
      timer := DelayTickGameOver;
      display[overRow, overCol] := On;
      grid := grid[overRow := grid[overRow][overCol := On]];
      assert WellFormed(grid);
      assert forall i, j :: 0 <= i < Rows && 0 <= j < Cols ==> display[i, j] == grid[i][j];
      if overCol + 1 == Cols {
        overCol := 0;
        if overRow + 1 == Rows {
          overRow := 0;
          ClearDisplay();
          gameState := Spawning;
        } else {
          overRow := overRow + 1;
        }
      } else {
        overCol := overCol + 1;
      }
    }

    /** One pass of main's loop: the flags are recomputed, then the current
        phase does its work. The game invariant is kept. */
    method Tick(inputs: seq<Input>, piece: BlockId)
      requires Valid() && Inv(Snapshot())
      modifies this, display
      ensures Valid() && Inv(Snapshot())
      ensures Snapshot() == TickStep(old(Snapshot()), inputs, piece)
    {
      TickKeepsInv(Snapshot(), inputs, piece);
      collisionState := CheckCollision();
      RunPhase(inputs, piece);
    }

    /** The switch on main's `state`: event_manager, game_manager, or the
        timer count-down, each followed by the next phase. */
    method RunPhase(inputs: seq<Input>, piece: BlockId)
      requires Valid() && Inv(Snapshot()) && collisionState == CollisionOf(grid, pi, pj)
      modifies this, display
      ensures Valid()
      ensures old(phase) == 0 ==> Snapshot() == HandleKeys(old(Snapshot()), inputs).(phase := 1)
      ensures old(phase) == 1 ==> Snapshot() == GameStep(old(Snapshot()), piece).(phase := 2)
      ensures old(phase) == 2 ==> Snapshot() == old(Snapshot()).(timer := if old(timer) > 0 then old(timer) - 1 else 0, phase := 0)
    {
      if phase == 0 {
        EventManager(inputs);
        phase := phase + 1;
      } else if phase == 1 {
        GameManager(piece);
        phase := phase + 1;
      } else {
        CountDown();
      }
    }

    /** main's phase 2: the timer counts down to 0, and the next pass starts
        again at phase 0. */
    method CountDown()
      requires Valid()
      modifies this
      ensures Valid() && Snapshot() == old(Snapshot()).(timer := if old(timer) > 0 then old(timer) - 1 else 0, phase := 0)
    {
      if timer > 0 {
        timer := timer - 1;
      }
      phase := 0;
    }
  }
}
