/** The game as a state machine over values: the key handling of event_manager,
    game_manager, and one pass of the main loop (main.c:327-427, 471-500). */
module Game {
  import opened Board
  import opened Collision
  import opened Transforms
  import opened Lines

  /** game_state values. */
  const Spawning: nat := 0
  const Falling: nat := 1
  const Waiting: nat := 2
  const Ending: nat := 3   // the game-over animation

  /** The keys event_manager tells apart: SDLK_UP, SDLK_DOWN, SDLK_LEFT,
      SDLK_RIGHT, SDLK_q and any other. */
  datatype Key = KeyUp | KeyDown | KeyLeft | KeyRight | KeyQ | KeyOther

  /** An event event_manager polls: a key press, or any other event. */
  datatype Input = NoInput | Press(key: Key)

  datatype Action = Rotate | MoveLeft | MoveRight | Idle

  /** event_manager's handling of a key press: rotation unless LEFT or RIGHT is
      set, a move unless the flag on that side is set; SDLK_q only ends the
      program, which is not modelled. */
  function Dispatch(input: Input, c: bv32): (a: Action)
    ensures a == Rotate <==> (input == Press(KeyUp) || input == Press(KeyDown)) && !Has(c, Left) && !Has(c, Right)
    ensures a == MoveLeft <==> input == Press(KeyLeft) && !Has(c, Left)
    ensures a == MoveRight <==> input == Press(KeyRight) && !Has(c, Right)
  {
    match input
    case NoInput => Idle
    case Press(k) =>
      match k
      case KeyUp | KeyDown => if !Has(c, Left) && !Has(c, Right) then Rotate else Idle
      case KeyRight => if !Has(c, Right) then MoveRight else Idle
      case KeyLeft => if !Has(c, Left) then MoveLeft else Idle
      case KeyQ | KeyOther => Idle
  }

  /** The globals of main.c: display, the anchor p_i/p_j, game_state, timer,
      collision_state, current_block, game_manager's static cursor i/j and the
      main loop's phase counter `state`. */
  datatype State = State(grid: Grid, pi: int, pj: int, gameState: nat, timer: nat, collision: bv32,
                         block: BlockId, overRow: nat, overCol: nat, phase: nat)

  /** What every operation needs: a whole display, an anchor row that is never
      negative, and the game-over cursor on the display. */
  ghost predicate Sane(s: State) {
    WellFormed(s.grid) && 0 <= s.pi && s.overRow < Rows && s.overCol < Cols
  }

  /** The invariant of the running game: every P cell lies in the window at the
      anchor, and there is none while a block is to be spawned. */
  ghost predicate Inv(s: State) {
    Sane(s) && s.gameState <= Ending && s.phase <= 2 &&
    PieceInWindow(s.grid, s.pi, s.pj) &&
    (s.gameState == Spawning ==> NoPiece(s.grid))
  }

  /** spawn_block, with the block rand() would pick given as `piece`. */
  function SpawnBlock(s: State, piece: BlockId): (r: State)
    requires Sane(s)
    ensures Sane(r) && r.pi == SpawnRow && r.pj == SpawnCol && r.block == piece
    ensures Window(r.grid, SpawnRow, SpawnCol) == Shape(piece)
    ensures NoPiece(s.grid) ==> PieceInWindow(r.grid, SpawnRow, SpawnCol)
  {
    InsertBlockPlacesShape(s.grid, piece);
    s.(grid := InsertBlock(s.grid, Shape(piece)), pi := SpawnRow, pj := SpawnCol, block := piece)
  }

  /** The state main reaches before its loop: init (game_state 1, phase and
      timer 0), clear_display and spawn_block; the other globals start at 0. */
  function Start(piece: BlockId): State {
    State(InsertBlock(Filled(Off), Shape(piece)), SpawnRow, SpawnCol, Falling, 0, CollisionNone, piece, 0, 0, 0)
  }

  /** One step of the game-over animation: paint the cursor cell ON and advance
      the cursor in row-major order; after the last cell, clear the display and
      go back to spawning. */
  function PaintCell(s: State): State
    requires Sane(s)
  {
    var g := s.grid[s.overRow := s.grid[s.overRow][s.overCol := On]];
    if s.overCol + 1 < Cols then
      s.(grid := g, overCol := s.overCol + 1, timer := DelayTickGameOver)
    else if s.overRow + 1 < Rows then
      s.(grid := g, overRow := s.overRow + 1, overCol := 0, timer := DelayTickGameOver)
    else
      s.(grid := Filled(Off), overRow := 0, overCol := 0, timer := DelayTickGameOver, gameState := Spawning)
  }

  /** game_manager (main.c:375-427). */
  function GameStep(s: State, piece: BlockId): (r: State)
    requires Sane(s)
    ensures r.phase == s.phase && (s.gameState <= Ending ==> r.gameState <= Ending)
    ensures r.pi == s.pi || r.pi == s.pi + 1 || r.pi == SpawnRow
    ensures r.pj == s.pj || r.pj == SpawnCol
  {
    if s.gameState == Spawning then
      SpawnBlock(s, piece).(gameState := Falling)
    else if s.gameState == Falling then
      if IsGameOver(s.pi, s.collision) then
        s.(overRow := 0, overCol := 0, timer := DelayTickGameOver, gameState := Ending)
      else if Has(s.collision, Bottom) then
        s.(grid := CleanFullRows(FreezeBlocks(s.grid, s.pi, s.pj)), gameState := Spawning)
      else
        s.(grid := FallOneRow(s.grid, s.pi, s.pj), pi := s.pi + 1, timer := DelayFall, gameState := Waiting)
    else if s.gameState == Waiting then
      if s.timer == 0 then s.(gameState := Falling) else s
    else if s.gameState == Ending then
      if s.timer == 0 then PaintCell(s) else s
    else
      s
  }

  /** event_manager for one key press, on a state whose collision flags were
      just computed. */
  ghost function HandleKey(s: State, input: Input): (r: State)
    requires Inv(s) && s.collision == CollisionOf(s.grid, s.pi, s.pj)
    ensures Dispatch(input, s.collision) == Idle ==> r == s
    ensures r.pi == s.pi && r.gameState == s.gameState && r.block == s.block && r.phase == s.phase
    ensures s.pj - 1 <= r.pj <= s.pj + 1
  {
    match Dispatch(input, s.collision)
    case Rotate => s.(grid := RotatePlayer(s.grid, s.pi, s.pj, s.block))
    case MoveLeft =>
      GatesFromCollision(s.grid, s.pi, s.pj);
      s.(grid := MovePlayerToLeft(s.grid), pj := s.pj - 1)
    case MoveRight => s.(grid := MovePlayerToRight(s.grid), pj := s.pj + 1)
    case Idle => s
  }

  /** event_manager over the events of one pass, with the flags recomputed
      before each event: the corrected form of main.c:330-358, which gates
      every event of a pass by the one collision_state of main.c:480. Each
      event keeps the invariant and moves the anchor by at most one column. */
  ghost function HandleKeys(s: State, inputs: seq<Input>): (r: State)
    requires Inv(s)
    ensures Inv(r)
    ensures r.pi == s.pi && r.gameState == s.gameState && r.block == s.block && r.phase == s.phase
    ensures s.pj - |inputs| <= r.pj <= s.pj + |inputs|
    decreases |inputs|
  {
    if inputs == [] then s
    else
      var s1 := s.(collision := CollisionOf(s.grid, s.pi, s.pj));
      HandleKeyKeepsInv(s1, inputs[0]);
      HandleKeys(HandleKey(s1, inputs[0]), inputs[1..])
  }

  /** The work of main's phase counter `state` (main.c:481-494), on a state
      whose flags were just recomputed: handle the pending events, run
      game_manager, or count the timer down. */
  ghost function PhaseStep(s: State, inputs: seq<Input>, piece: BlockId): (r: State)
    requires Inv(s)
    ensures r.phase == (s.phase + 1) % 3
  {
    if s.phase == 0 then HandleKeys(s, inputs).(phase := 1)
    else if s.phase == 1 then GameStep(s, piece).(phase := 2)
    else if s.phase == 2 then s.(timer := if s.timer > 0 then s.timer - 1 else 0, phase := 0)
    else s
  }

  /** One pass of the main loop (main.c:479-495): recompute the collision
      flags, then do the work of the current phase. */
  ghost function TickStep(s: State, inputs: seq<Input>, piece: BlockId): (r: State)
    requires Inv(s)
    ensures r.phase == (s.phase + 1) % 3
  {
    PhaseStep(s.(collision := CollisionOf(s.grid, s.pi, s.pj)), inputs, piece)
  }

  /** The row-major position of the game-over cursor. */
  function CursorIndex(s: State): int {
    s.overRow * Cols + s.overCol
  }

  /** In the game-over animation, each step with the timer at 0 paints exactly
      the cursor cell ON and moves the cursor to the next cell in row-major
      order; painting the last cell instead empties the display and returns to
      spawning with the cursor back at (0, 0). */
  lemma PaintCellAdvances(s: State)
    requires Sane(s)
    ensures var r := PaintCell(s);
      Sane(r) && r.timer == DelayTickGameOver &&
      if CursorIndex(s) + 1 < Rows * Cols then
        r.gameState == s.gameState && CursorIndex(r) == CursorIndex(s) + 1 &&
        r.grid[s.overRow][s.overCol] == On &&
        forall i, j :: InGrid(i, j) && (i, j) != (s.overRow, s.overCol) ==> r.grid[i][j] == s.grid[i][j]
      else
        r.gameState == Spawning && CursorIndex(r) == 0 && r.grid == Filled(Off)
  {
  }

  /** The game starts in a state of the invariant. */
  lemma StartInv(piece: BlockId)
    ensures Inv(Start(piece))
  {
    InsertBlockPlacesShape(Filled(Off), piece);
  }

  /** game_manager keeps the game invariant, given the flags of its display. */
  lemma GameStepKeepsInv(s: State, piece: BlockId)
    requires Inv(s) && s.collision == CollisionOf(s.grid, s.pi, s.pj)
    ensures Inv(GameStep(s, piece))
  {
    var r := GameStep(s, piece);
    if s.gameState == Spawning {
      InsertBlockPlacesShape(s.grid, piece);
    } else if s.gameState == Falling && !IsGameOver(s.pi, s.collision) {
      if Has(s.collision, Bottom) {
        FreezeBlocksLocksPiece(s.grid, s.pi, s.pj);
        CleanFullRowsKeeps(FreezeBlocks(s.grid, s.pi, s.pj));
      } else {
        FallOneRowMovesPiece(s.grid, s.pi, s.pj);
      }
    } else if s.gameState == Ending && s.timer == 0 {
      PaintCellAdvances(s);
    }
  }

  /** Handling a key keeps the game invariant: the gates make the moves safe and
      keep the block in the moved window; rotation keeps it in place. */
  lemma HandleKeyKeepsInv(s: State, input: Input)
    requires Inv(s) && s.collision == CollisionOf(s.grid, s.pi, s.pj)
    ensures Inv(HandleKey(s, input))
  {
    GatesFromCollision(s.grid, s.pi, s.pj);
    match Dispatch(input, s.collision)
    case Rotate => RotatePlayerKeepsPiece(s.grid, s.pi, s.pj, s.block);
    case MoveLeft =>
      MovePlayerToLeftShifts(s.grid, s.pi, s.pj);
      if s.gameState == Spawning {
        MovesWithoutPiece(s.grid);
      }
    case MoveRight =>
      MovePlayerToRightShifts(s.grid, s.pi, s.pj);
      if s.gameState == Spawning {
        MovesWithoutPiece(s.grid);
      }
    case Idle =>
  }

  /** Every pass of the main loop keeps the game invariant, whatever the events
      and whatever block the random source picks. */
  lemma TickKeepsInv(s: State, inputs: seq<Input>, piece: BlockId)
    requires Inv(s)
    ensures Inv(TickStep(s, inputs, piece))
  {
    var s1 := s.(collision := CollisionOf(s.grid, s.pi, s.pj));
    if s.phase == 1 {
      GameStepKeepsInv(s1, piece);
    }
  }

  /** check_game_over (main.c:203-205) as game_manager uses it: in state 1,
      with the flags of the display, the game ends exactly when the block is
      still at the top row and one of its cells rests on the floor or on an ON
      cell. */
  lemma GameOverWhenBlocked(s: State, piece: BlockId)
    requires Sane(s) && s.gameState == Falling && s.collision == CollisionOf(s.grid, s.pi, s.pj)
    ensures GameStep(s, piece).gameState == Ending <==>
            s.pi == SpawnRow && exists i, j :: IsPieceCell(s.grid, s.pi, s.pj, i, j) && Touches(s.grid, Bottom, i, j)
  {
    assert Has(s.collision, Bottom) == Hits(s.grid, s.pi, s.pj, Bottom);
  }

  /** While a P cell is on the display, the invariant holds the anchor within
      two cells of it: the cell lies in the window at the anchor. */
  lemma AnchorNearPiece(s: State, i: int, j: int)
    requires Inv(s) && InGrid(i, j) && s.grid[i][j] == Player
    ensures s.pi <= i < s.pi + BlockSize && s.pj <= j < s.pj + BlockSize
    ensures 0 <= s.pi < Rows && -(BlockSize as int) < s.pj < Cols
  {
  }

  /** One pass moves the anchor row down by at most one, or back to the spawn
      row; the anchor column moves by at most one per event, or back to the
      spawn column. */
  lemma TickMovesAnchor(s: State, inputs: seq<Input>, piece: BlockId)
    requires Inv(s)
    ensures var r := TickStep(s, inputs, piece);
      (r.pi == s.pi || r.pi == s.pi + 1 || r.pi == SpawnRow) &&
      (s.pj - |inputs| <= r.pj <= s.pj + |inputs| || r.pj == SpawnCol)
  {
  }

  // ------------------------------------------------ rows past the display

  /** The I block turned once at the spawn anchor and fallen to row `row`: three
      cells of value v in columns SpawnCol .. SpawnCol + 2 of an empty display. */
  function Bar(row: int, v: int): (g: Grid)
    ensures WellFormed(g)
  {
    seq(Rows, i => seq(Cols, j => if i == row && SpawnCol <= j < SpawnCol + BlockSize then v else Off))
  }

  /** The game state with the turned I block on row `row`, anchored one row above. */
  ghost function BarState(row: int, gameState: nat, phase: nat): State {
    var g := Bar(row, Player);
    State(g, row - 1, SpawnCol, gameState, 0, CollisionOf(g, row - 1, SpawnCol), I, 0, 0, phase)
  }

  /** The bar one row above the floor: it passes the test of game_manager, which
      then calls fall_one_row with pi + BlockSize == Rows, so the loop as written
      writes row Rows (display[32]), outside FallOneRowAsWritten's domain. The
      corrected fall lands the bar on the last row. */
  lemma FallOneRowOverrun()
    ensures var s := BarState(Rows - 2, Falling, 1);
      Inv(s) && !IsGameOver(s.pi, s.collision) && !Has(s.collision, Bottom) &&
      s.pi + BlockSize == Rows &&
      GameStep(s, I).grid == Bar(Rows - 1, Player) && GameStep(s, I).pi == Rows - 2
  {
    var s := BarState(Rows - 2, Falling, 1);
    var g := s.grid;
    forall i, j | IsPieceCell(g, s.pi, s.pj, i, j)
      ensures !Touches(g, Bottom, i, j) && !Touches(g, Left, i, j) && !Touches(g, Right, i, j)
    {
    }
    var r := FallOneRow(g, s.pi, s.pj);
    forall i | 0 <= i < Rows
      ensures r[i] == Bar(Rows - 1, Player)[i]
    {
      assert forall j :: 0 <= j < Cols ==> r[i][j] == Bar(Rows - 1, Player)[i][j];
    }
  }

  /** The bar on the last row, after that fall: BOTTOM is set and the anchor is
      not row 0, so game_manager calls freeze_blocks with pi + BlockSize > Rows:
      as written it reads row Rows, outside FreezeBlocksAsWritten's domain. The
      corrected freeze turns the bar into ON cells. */
  lemma FreezeBlocksOverrun()
    ensures var s := BarState(Rows - 1, Falling, 1);
      Inv(s) && !IsGameOver(s.pi, s.collision) && Has(s.collision, Bottom) &&
      s.pi + BlockSize > Rows &&
      FreezeBlocks(s.grid, s.pi, s.pj) == Bar(Rows - 1, On)
  {
    var s := BarState(Rows - 1, Falling, 1);
    assert IsPieceCell(s.grid, s.pi, s.pj, Rows - 1, SpawnCol) && Touches(s.grid, Bottom, Rows - 1, SpawnCol);
    var r := FreezeBlocks(s.grid, s.pi, s.pj);
    forall i | 0 <= i < Rows
      ensures r[i] == Bar(Rows - 1, On)[i]
    {
      assert forall j :: 0 <= j < Cols ==> r[i][j] == Bar(Rows - 1, On)[i][j];
    }
  }

  /** The bar on the last row, between two falls: the up key passes the
      rotation test of event_manager, which then calls rotate_player with
      pi + BlockSize > Rows: as written it reads and writes row Rows, outside
      RotatePlayerAsWritten's domain. Turning the bar there would put one of
      its cells in row Rows; the corrected rotation refuses, and the bar keeps
      its three cells. */
  lemma RotatePlayerOverrun()
    ensures var s := BarState(Rows - 1, Waiting, 0);
      Inv(s) && Dispatch(Press(KeyUp), s.collision) == Rotate && s.pi + BlockSize > Rows &&
      Rotated(Window(s.grid, s.pi, s.pj))[BlockSize - 1][1] == Player &&
      HandleKey(s, Press(KeyUp)).grid == s.grid
  {
    var s := BarState(Rows - 1, Waiting, 0);
    var g := s.grid;
    forall i, j | IsPieceCell(g, s.pi, s.pj, i, j)
      ensures !Touches(g, Left, i, j) && !Touches(g, Right, i, j)
    {
    }
  }

  /** The I block upright in column `col`, rows 0 .. BlockSize - 1, with cells of value v. */
  function Column(col: int, v: int): (g: Grid)
    ensures WellFormed(g)
  {
    seq(Rows, i => seq(Cols, j => if i < BlockSize && j == col then v else Off))
  }

  /** The state of the upright I block in column 1, anchored at (0, 0), as
      game_manager meets it. */
  ghost function ColumnState(): State {
    var g := Column(1, Player);
    State(g, 0, 0, Falling, 0, CollisionOf(g, 0, 0), I, 0, 0, 0)
  }

  /** Moving the upright I block left puts it in column 0. */
  lemma ColumnMovesLeft()
    ensures MovePlayerToLeft(Column(1, Player)) == Column(0, Player)
  {
    var g1 := MovePlayerToLeft(Column(1, Player));
    forall i | 0 <= i < Rows
      ensures g1[i] == Column(0, Player)[i]
    {
      assert forall j :: 0 <= j < Cols ==> g1[i][j] == Column(0, Player)[i][j];
    }
  }

  /** Two LEFT presses in one pass, with the upright I block in column 1: the
      first passes the gate and moves the block into column 0. main.c tests the
      second press against the same stale collision_state, so it calls
      move_player_to_left with a P cell in column 0, outside MovePlayerToLeft's
      domain: the write to display[i][j - 1] with the unsigned j == 0. */
  lemma StaleLeftOverrun()
    ensures var s := ColumnState();
      Inv(s) && Dispatch(Press(KeyLeft), s.collision) == MoveLeft &&
      NoPieceInColumn(s.grid, 0) && !NoPieceInColumn(MovePlayerToLeft(s.grid), 0)
  {
    var g := Column(1, Player);
    forall i, j | IsPieceCell(g, 0, 0, i, j)
      ensures !Touches(g, Left, i, j)
    {
    }
    ColumnMovesLeft();
    assert Column(0, Player)[0][0] == Player;
  }

  /** The display of Transforms.RotateAcrossWallDrops in the running game: a
      lone P cell at (0, 1), the anchor at (0, -1), block T, state 1, with the
      flags of the display. */
  ghost function WallState(): State {
    var g := Filled(Off)[0 := Filled(Off)[0][1 := Player]];
    State(g, 0, -1, Falling, 0, CollisionOf(g, 0, -1), T, 0, 0, 0)
  }

  /** LEFT and RIGHT are set only by a P cell in an edge column or next to an
      ON cell, not by the window crossing a wall: in WallState, which keeps the
      invariant, the up key passes the rotation test of main.c:343 and the
      rotation leaves no P cell on the display. */
  lemma RotateAcrossWallAllowed()
    ensures var s := WallState();
      Inv(s) && Dispatch(Press(KeyUp), s.collision) == Rotate && NoPiece(HandleKey(s, Press(KeyUp)).grid)
  {
    var g := WallState().grid;
    forall i, j | IsPieceCell(g, 0, -1, i, j)
      ensures !Touches(g, Left, i, j) && !Touches(g, Right, i, j)
    {
    }
    RotateAcrossWallDrops();
  }

  /** With the flags recomputed before each event, as HandleKeys does, the
      first press moves the block into column 0, where LEFT is set, and the
      second press is refused. */
  lemma StaleLeftRefused()
    ensures HandleKeys(ColumnState(), [Press(KeyLeft), Press(KeyLeft)]).grid == Column(0, Player)
  {
    var s := ColumnState();
    var g := s.grid;
    StaleLeftOverrun();
    ColumnMovesLeft();
    var g1 := Column(0, Player);
    assert IsPieceCell(g1, 0, -1, 0, 0) && Touches(g1, Left, 0, 0);
    var s1 := HandleKey(s, Press(KeyLeft));
    assert s1.grid == g1 && s1.pj == -1;
    assert Dispatch(Press(KeyLeft), CollisionOf(g1, 0, -1)) == Idle;
    assert [Press(KeyLeft), Press(KeyLeft)][1..] == [Press(KeyLeft)];
  }
}
