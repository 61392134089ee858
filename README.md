# pic-tetris engine in Dafny

This project models the engine of pic-tetris (`main.c`), a falling-block game. The engine drives a
32 x 16 `display` of cell values: OFF (0), ON (1, a frozen cell) and P (2, a cell of the falling
block). Around the display sit a few globals:

- the anchor `p_i`/`p_j` of the 3 x 3 window that holds the falling block;
- `game_state` (0 spawn, 1 fall or land, 2 wait, 3 game-over animation);
- `timer` and `collision_state`, a LEFT | RIGHT | BOTTOM bitmask;
- `current_block`;
- `game_manager`'s static cursor `i`, `j`;
- `main`'s phase counter `state`.

The model has two layers.

- **Value layer.** `Board`, `Collision`, `Transforms`, `Lines` and `Game` describe every procedure
  of `main.c` as a function from the display (a `seq<seq<int>>`) and the anchor to the display
  afterwards. The game as a whole is a function on a `Game.State` record of all the globals.
  - `check_collision` is specified by reference predicates. A flag is set iff some P cell inside
    the window and on the display touches the floor, a wall or an ON cell on that side.
  - `clean_full_rows` is a recursive scan over the rows.
- **Engine layer.** `Engine.Tetris` is a class. It holds the display as an `array2<int>` and the
  globals as fields. Every procedure is a method with the loops of `main.c`, proved to leave
  exactly the state that its value-layer function gives. A ghost field `grid` mirrors the
  display.
  - `rotate_matrix` is the in-place four-way swap on a 3 x 3 `array2`.
  - `move_player_to_right` keeps its scratch row.
  - `check_game_over` is a method returning the test of `game_manager`'s state 1.

What is proved:

- `check_collision` computes the reference flags and never yields bits outside {1, 2, 4}.
- Four quarter turns restore a block, and a quarter turn keeps the centre.
- Under the collision gates of `event_manager`, the moves shift every P cell by one column, overwrite
  no ON cell and keep everything else.
- When BOTTOM is clear, the fall moves every P cell one row down.
- Freezing turns exactly the P cells into ON.
- `clean_full_rows` leaves no full row below row 0 when row 0 is not full, and never changes row 0.
  It removes `Cols` occupied cells per cleared row when row 0 is empty.
- A rotation that happens moves every window cell whose turned position is in a display column to
  that position. With the whole window on the display, the new window is the turned old window, so
  the block keeps its cells. A rotation whose window reaches below the floor is refused (a correction,
  see Findings).
- In state 1 the game ends exactly when the anchor is on row 0 and a block cell rests on the floor
  or on an ON cell.
- The game-over animation paints the cells in row-major order.
- Every pass of `main`'s loop keeps the game invariant, for any pending events and every spawned block:
  - `game_state` stays in 0..3;
  - every P cell lies in the window at the anchor;
  - there is no P cell while a block is to be spawned.

  This holds for the events of a pass each gated by the flags of the display it meets, which is how
  the model handles them. `main.c` gates all events of a pass by the one `collision_state` computed
  at the start of the pass. There the invariant, and the safety of the always-true guard
  `j - 1 >= 0` in `move_player_to_left`, hold only for one event per pass (see Findings).
- Each pass moves the anchor row down by at most one or back to the spawn row, and the anchor
  column by at most one per event or back to the spawn column.

As the code does, the fall and the rotation also move or erase ON cells that lie inside the window.
The model keeps that behaviour.

Where the code departs from what the game evidently intends, the model follows the code:

- `fall_row_until` never empties row 0. A collapse copies row 0 into row 1, so row 0 is duplicated
  (`Lines.FallRowUntil`, `Lines.FallRowUntilKeeps`). The count of removed cells therefore holds only
  when row 0 is empty (`Lines.CleanFullRowsCount`).
- `clean_full_rows` does not retest a row after a collapse. Scanning top-down, it needs no retest
  when row 0 is not full (`Lines.CleanFullRowsLeavesNoFullRow`).
- The display is 32 x 16 and blocks spawn at anchor (0, 2). No 16 x 8 configuration exists in `main.c`.
- Events are handled in every `game_state`, the game-over animation included: `event_manager` runs
  in phase 0 of every pass whatever the state (`Game.PhaseStep`). A key in state 0 or during the
  animation still moves `p_j`, and moves P cells that the animation has not yet painted.
- A rotation across a wall drops the cells it turns off the display. `rotate_player` reads the window
  columns off the display as 0 and writes back only the columns on the display; LEFT and RIGHT do not
  stop it, since they are set only by P cells in an edge column or next to an ON cell, not by the
  window crossing the wall (`Transforms.RotateAcrossWallDrops`, `Game.RotateAcrossWallAllowed`).
- Moves and rotations are not refused once BOTTOM is set. A block resting on the floor or on ON
  cells can still slide sideways or turn until `game_manager` freezes it.

## Model

| member | source | states |
|---|---|---|
| Board.Shape | main.c:38-79 | each of the seven blocks BLOCK_T .. BLOCK_I is a 3 x 3 matrix of OFF and P cells |
| Collision.Mask | main.c:31-36 | the mask built from three flags has exactly those flags set and no bit outside LEFT, RIGHT, BOTTOM |
| Collision.RotationGate | main.c:343-345 | the test `collision_state & (COLLISION_LEFT \| COLLISION_RIGHT)` is false exactly when neither LEFT nor RIGHT is set |
| Transforms.RotateFourTimes | main.c:207-235 | four anti-clockwise quarter turns give back the matrix, and one turn keeps the centre cell |
| Transforms.RotatedTwice | main.c:209-235 | two quarter turns send (x, y) to (N-1-x, N-1-y) |
| Transforms.RotatePlayerAsWritten | main.c:242-258 | rotate_player as written is defined only when rows p_i .. p_i+2 are on the display |
| Transforms.RotatePlayerEffect | main.c:237-262 | nothing changes for O or when the window reaches below the floor; otherwise only window cells on the display change, each to the cell the anti-clockwise turn brings there, with cells off the display read as 0 |
| Transforms.RotatePlayerMovesCells | main.c:237-262 | with the window rows on the display, the value at window position (x, y) moves to (N-1-y, x) whenever both are in display columns: every window cell whose turned position is in a display column is kept |
| Transforms.RotateAcrossWallDrops | main.c:242-261 | with the window's column 0 left of the display, a lone P cell at window position (0, 2) is turned off the display and the display is left with no P cell |
| Transforms.RotatePlayerCells | main.c:253-261 | a rotation that happens puts the turned window in the window and keeps every cell outside it |
| Transforms.RotatePlayerRestores | main.c:237-262 | a rotation whose turned window is the window of g, on a display agreeing with g outside the window, gives back g |
| Transforms.WindowOfRotatePlayer | main.c:237-262 | with the window on the display, the window after rotate_player is the turned window |
| Transforms.RotatePlayerFourTimes | main.c:237-262 | with the window on the display, four rotations of the player give back the display |
| Transforms.RotatePlayerKeepsPiece | main.c:237-262 | after a rotation every P cell still lies inside the window, and a display without one gets none |
| Transforms.FreezeBlocksAsWritten | main.c:142-146 | freeze_blocks as written is defined only when rows p_i .. p_i+2 are on the display |
| Transforms.FreezeBlocksLocksPiece | main.c:141-151 | when every P cell is in the window, freezing turns exactly the P cells into ON, changes nothing else and leaves no P cell |
| Transforms.FallOneRowAsWritten | main.c:154-158 | fall_one_row as written is defined only when row p_i+3 is on the display |
| Transforms.FallOneRowMovesWindow | main.c:153-167 | with no ON cell in the window and row p_i+3 on the display, the top window row becomes OFF, the window rows move down one row, and nothing outside columns p_j .. p_j+2 and rows p_i .. p_i+3 changes |
| Transforms.FallOneRowMovesPiece | main.c:153-167 | with BOTTOM clear and the block in the window, a cell is P afterwards iff the cell above it was P, and the block lies in the window one row lower |
| Transforms.GatesFromCollision | main.c:97-139 | with the block in the window, a clear LEFT (RIGHT) flag means no P cell is in the edge column and none has an ON cell on that side |
| Transforms.MovePlayerToLeftShifts | main.c:292-304 | under the left gate, a cell is P afterwards iff its right neighbour was P; ON cells stay ON; vacated P cells become OFF; other cells keep their values; the block is in the window one column left |
| Transforms.MovePlayerToRightShifts | main.c:306-325 | under the right gate, a cell is P afterwards iff its left neighbour was P; ON cells stay ON; vacated P cells become OFF; other cells keep their values; the block is in the window one column right |
| Transforms.MovesWithoutPiece | main.c:292-325 | with no P cell, both moves leave the display unchanged |
| Transforms.InsertBlockPlacesShape | main.c:194-201 | the window at (0, 2) holds exactly the block afterwards, nothing else changes, and on a display without P the block lies in that window |
| Lines.FallRowUntilKeeps | main.c:179-184 | fall_row_until keeps row 0 and creates no P cell |
| Lines.CleanFromKeeps | main.c:186-192 | the scan keeps row 0 and creates no P cell |
| Lines.CleanFullRowsKeeps | main.c:186-192 | clean_full_rows keeps row 0 and creates no P cell |
| Lines.CleanFromLeavesNoFullRow | main.c:186-192 | with no full row among rows 0 .. i-1, the scan from row i leaves no full row below row 0 |
| Lines.CleanFullRowsLeavesNoFullRow | main.c:186-192 | if row 0 is not full, no row 1 .. 31 is full after clean_full_rows |
| Lines.FallRowUntilCount | main.c:179-184 | fall_row_until(n) loses the occupied cells of row n and gains a copy of those of row 0 |
| Lines.CleanFromCount | main.c:186-192 | with row 0 empty, the scan from row i removes 16 occupied cells for every row it collapses |
| Lines.CleanFullRowsCount | main.c:186-192 | with row 0 empty, clean_full_rows removes 16 occupied cells for every row it clears |
| Game.Dispatch | main.c:341-364 | up/down rotates iff neither LEFT nor RIGHT is set, right moves iff RIGHT is clear, left moves iff LEFT is clear, every other input does nothing |
| Game.PaintCellAdvances | main.c:410-425 | a game-over step paints exactly the cursor cell ON and advances the cursor by one in row-major order; after the last cell the display is OFF, the cursor is at (0, 0) and game_state is 0 |
| Game.StartInv | main.c:429-436 | the state after init, clear_display and spawn_block satisfies the game invariant |
| Game.GameStepKeepsInv | main.c:375-427 | game_manager keeps game_state in 0..3, the block in the window, and the display free of P in state 0 |
| Game.HandleKeyKeepsInv | main.c:341-358 | handling one event, gated by the flags of its display, keeps the game invariant |
| Game.HandleKeys | main.c:330-358 | the events of a pass, each gated by freshly computed flags, keep the invariant, keep p_i, game_state and the block, and move p_j by at most one per event |
| Game.TickKeepsInv | main.c:477-495 | each pass of main's loop keeps the game invariant, whatever the events and the spawned block |
| Game.GameOverWhenBlocked | main.c:203-205 | in state 1, with the flags of the display, game_manager starts the game-over animation iff p_i is 0 and some block cell rests on the floor or on an ON cell |
| Game.AnchorNearPiece | main.c:141-167 | while a P cell is on the display, it lies in the window at the anchor, so the anchor is within two cells of it, with 0 <= p_i < 32 and -3 < p_j < 16 |
| Game.TickMovesAnchor | main.c:477-495 | a pass moves p_i down by at most one or back to the spawn row, and p_j by at most one per event or back to the spawn column |
| Game.FallOneRowOverrun | main.c:153-158 | a state of the invariant, with the turned I block one row above the floor, takes game_manager's fall branch with p_i + 3 == 32 |
| Game.FreezeBlocksOverrun | main.c:141-146 | a state of the invariant, with that block on the last row, takes game_manager's freeze branch with p_i + 3 > 32, and the corrected freeze makes it ON |
| Game.RotatePlayerOverrun | main.c:237-258 | the same state passes the rotation test of event_manager with p_i + 3 > 32; turning it would move a bar cell to row 32, and the corrected rotation leaves the display unchanged |
| Game.RotateAcrossWallAllowed | main.c:341-346 | a running state with a lone P cell at (0, 1) and the anchor at column -1 keeps the invariant, passes the up key's rotation test since neither flag is set, and the rotation leaves no P cell |
| Game.StaleLeftOverrun | main.c:292-304 | a state of the invariant, the upright I block in column 1, passes the LEFT test, and one move leaves a P cell in column 0, outside move_player_to_left's domain |
| Game.StaleLeftRefused | main.c:330-358 | with the flags recomputed before each event, the second of two LEFT presses is refused and the block stays in column 0 |
| Engine.RotateMatrix | main.c:209-235 | in place, the new mat[x][y] is the old mat[y][N-1-x] |
| Engine.Tetris.constructor | main.c:471-474 | after init, clear_display and spawn_block the engine holds Game.Start, which satisfies the game invariant |
| Engine.Tetris.SetDisplay | main.c:81-87 | every cell equals v; no other global changes |
| Engine.Tetris.FillDisplay | main.c:89-91 | every cell is ON |
| Engine.Tetris.ClearDisplay | main.c:93-95 | every cell is OFF |
| Engine.Tetris.CheckCollision | main.c:97-139 | the returned mask is CollisionOf of the display and anchor; nothing is modified |
| Engine.Tetris.CheckCell | main.c:102-134 | one cell's tests add exactly that cell's flags to the mask |
| Engine.Tetris.FreezeBlocks | main.c:141-151 | the display becomes Transforms.FreezeBlocks of the old one |
| Engine.Tetris.FallOneRow | main.c:153-167 | the display becomes Transforms.FallOneRow of the old one and p_i grows by exactly 1 |
| Engine.Tetris.FullRow | main.c:169-176 | the result is true iff no cell of the row is OFF |
| Engine.Tetris.FallRowUntil | main.c:179-184 | the display becomes Lines.FallRowUntil of the old one |
| Engine.Tetris.CleanFullRows | main.c:186-192 | the display becomes Lines.CleanFullRows of the old one |
| Engine.Tetris.InsertBlock | main.c:194-201 | the anchor becomes (0, 2) and the display Transforms.InsertBlock of the old one |
| Engine.Tetris.SpawnBlock | main.c:264-290 | current_block becomes the given block, which is inserted at the spawn anchor |
| Engine.Tetris.RotatePlayer | main.c:237-262 | the display becomes Transforms.RotatePlayer of the old one |
| Engine.Tetris.CopyWindow | main.c:242-251 | a fresh 3 x 3 matrix holds the window, with 0 off the display |
| Engine.Tetris.WriteWindow | main.c:255-261 | writing back the turned window gives Transforms.RotatePlayer of the display |
| Engine.Tetris.MovePlayerToLeft | main.c:292-304 | the display becomes Transforms.MovePlayerToLeft of the old one and p_j drops by 1 |
| Engine.Tetris.MovePlayerToRight | main.c:306-325 | the display becomes Transforms.MovePlayerToRight of the old one and p_j grows by 1 |
| Engine.Tetris.HandleKey | main.c:338-358 | the state becomes Game.HandleKey of the old one |
| Engine.Tetris.EventManager | main.c:327-373 | the events are handled in order, each after recomputing the flags; the state becomes Game.HandleKeys of the old one and the invariant holds again |
| Engine.Tetris.CheckGameOver | main.c:203-205 | the result is Collision.IsGameOver of p_i and collision_state; nothing changes |
| Engine.Tetris.GameManager | main.c:375-427 | the state becomes Game.GameStep of the old one |
| Engine.Tetris.Drop | main.c:385-403 | state 1: game over first, else freeze and clear on BOTTOM, else fall and wait DELAY_FALL |
| Engine.Tetris.PaintCell | main.c:410-425 | the state becomes Game.PaintCell of the old one |
| Engine.Tetris.Tick | main.c:477-495 | the state becomes Game.TickStep of the old one and the game invariant holds again |
| Engine.Tetris.RunPhase | main.c:481-494 | phase 0 gives Game.HandleKeys, phase 1 Game.GameStep, phase 2 the timer decremented down to 0, each with the next phase |
| Engine.Tetris.CountDown | main.c:490-492 | the timer drops by one unless it is 0, and the phase returns to 0 |
| Collision.CollisionOf | main.c:97-139 | LEFT, RIGHT and BOTTOM are set iff some P cell in the window and on the display touches that wall, the floor or an ON cell on that side; no other bit is set |
| Transforms.Window | main.c:242-251 | the 3 x 3 window at the anchor, with cells off the display read as 0, is square; what it holds is stated by RotatePlayerEffect and InsertBlockPlacesShape |
| Transforms.Rotated | main.c:209-235 | the turned window is square; RotatedTwice and RotateFourTimes state what the turn is |
| Transforms.RotatePlayer | main.c:237-262 | the display stays 32 x 16; RotatePlayerEffect, RotatePlayerMovesCells and RotatePlayerKeepsPiece state the rotation |
| Transforms.TurnWindow | main.c:253-261 | the display stays 32 x 16; RotatePlayerCells states which cells change |
| Transforms.FreezeBlocks | main.c:141-151 | the display stays 32 x 16; FreezeBlocksLocksPiece states that the P cells become ON |
| Transforms.FallOneRow | main.c:153-167 | the display stays 32 x 16; FallOneRowMovesWindow and FallOneRowMovesPiece state the fall |
| Transforms.MovePlayerToLeft | main.c:292-304 | the display stays 32 x 16; MovePlayerToLeftShifts states the shift |
| Transforms.MovePlayerToRight | main.c:306-325 | the display stays 32 x 16; MovePlayerToRightShifts states the shift |
| Transforms.InsertBlock | main.c:194-201 | the display stays 32 x 16; InsertBlockPlacesShape states the placement |
| Lines.FallRowUntil | main.c:179-184 | the display stays 32 x 16; FallRowUntilKeeps and FallRowUntilCount state the shift |
| Lines.CleanFullRows | main.c:186-192 | the display stays 32 x 16; CleanFullRowsKeeps, CleanFullRowsLeavesNoFullRow and CleanFullRowsCount state the clean-up |
| Game.SpawnBlock | main.c:264-290 | the anchor is (0, 2), the window there holds exactly the chosen block, and on a display with no P cell every P cell lies in that window |
| Game.GameStep | main.c:375-427 | the phase is kept, game_state stays in 0..3, p_i stays, moves down one row or returns to 0, and p_j stays or returns to 2 |
| Game.HandleKey | main.c:341-358 | an event event_manager ignores changes nothing; otherwise p_i, game_state and the block are kept and p_j moves by at most one |
| Game.PhaseStep | main.c:481-494 | the phase counter advances 0, 1, 2, 0 |
| Game.TickStep | main.c:479-495 | each pass advances the phase counter 0, 1, 2, 0 |

## Left out

- SDL is not modelled: window setup, bitmap loading, `printf`/`exit` in `init`, `screen_update`, `SDL_Delay` and `SDL_Quit`. Key presses are an `Input` value instead.
- `rand() % BLOCK_NUM` in `spawn_block` is not modelled. The block is a parameter of `SpawnBlock`, `GameManager`, `Tick` and the constructor.
- The `done` flag, `SDL_QUIT` and `SDLK_q` only end the program. They are not modelled.
- Game.HandleKeys: recomputes the flags before each event of a pass. `event_manager` tests every event of a pass against the one `collision_state` of the pass; that stale gate is a Finding, and only its counterexample is modelled.
- Engine.Tetris.MovePlayerToLeft: requires that column 0 holds no P cell, because the code would write `display[i][j-1]` with the unsigned `j == 0`. `HandleKey` discharges this from the LEFT flag and the invariant.
- Engine.Tetris.FallOneRow: adds the row bound the code lacks. It is the corrected member of the Findings below.
- Engine.Tetris.FreezeBlocks: adds the row bound the code lacks (Findings).
- Engine.Tetris.RotatePlayer: refuses the rotation when the window reaches below the floor, which the code does not (Findings).
- Engine.Tetris.Drop: its contract names `current_block` as the block argument of `Game.GameStep`. State 1 spawns nothing, so the argument is never used.
- `p_i`, `p_j`, `timer` and `game_state` are unbounded integers, and 32-bit wrap-around is not modelled. The invariant alone does not bound the anchor: with no P cell on the display, `Game.Inv` allows any `p_j` and any `p_i >= 0`. The argument is this. While a P cell exists, the anchor lies within two cells of it (`Game.AnchorNearPiece`). Each pass moves `p_i` by at most one row and `p_j` by at most one column per event, or resets them to the spawn anchor (`Game.TickMovesAnchor`). Reading `main.c`, and not proved here: a P cell is absent only in state 0, which spawns on the next `game_manager` pass, and during the game-over animation once the block is painted over, which ends after 512 painted cells. A rotation across a wall could also remove the block (`Game.RotateAcrossWallAllowed`), but only a block whose P cells all sit in the window column away from the wall, and no orientation of the seven blocks has that shape. Were the block lost in state 1 or 2, BOTTOM would never be set and `p_i` would grow without bound. So the anchor can drift only by the events of a few hundred passes, far from 2^31. The model does not prove that a P cell exists in states 1 and 2.
- The globals `row` and `col` are never read by the engine. They are not modelled.
- The no-op `display[i][j] = display[i][j]` in `move_player_to_left` is left out.

## Findings

| source | as written | input that shows it | evidently intended | confidence | as-written member | corrected member |
|---|---|---|---|---|---|---|
| main.c:154-158 | `fall_one_row` writes `display[i+1]` for `i = p_i+2` with no row bound | the I block turned once at spawn, fallen to row 30 with `p_i = 29`: BOTTOM is clear, so game_manager calls fall_one_row, which writes row 32 | skip window rows whose next row is off the display | not executed | Transforms.FallOneRowAsWritten, Game.FallOneRowOverrun | Transforms.FallOneRow, Transforms.FallOneRowMovesPiece |
| main.c:142-146 | `freeze_blocks` bounds only the columns of the window, not its rows | the same bar after that fall, on row 31 with `p_i = 30`: BOTTOM is set, so freeze_blocks reads row 32 | skip window rows off the display | not executed | Transforms.FreezeBlocksAsWritten, Game.FreezeBlocksOverrun | Transforms.FreezeBlocks, Transforms.FreezeBlocksLocksPiece |
| main.c:242-258 | `rotate_player` bounds only the columns of the window, not its rows | the same state with `p_i = 30`: LEFT and RIGHT are clear, so the up key calls rotate_player, which reads and writes row 32; bounding the rows like the columns instead would drop the bar cell turned into row 32 | refuse the rotation when the window reaches below the floor, so every window cell whose turned position is in a display column is kept | not executed | Transforms.RotatePlayerAsWritten, Game.RotatePlayerOverrun | Transforms.RotatePlayer, Transforms.RotatePlayerMovesCells |
| main.c:330-358 | every event of a pass is tested against the one `collision_state` of main.c:480 | the upright I block in column 1 with its window at column 0, and two LEFT presses in one pass: the first moves it into column 0, the second passes the stale LEFT test and calls move_player_to_left, whose guard `j - 1 >= 0` holds for the unsigned `j == 0`, so it writes `display[i][j-1]` | test each event against the flags of the display it meets | not executed | Game.StaleLeftOverrun | Game.HandleKeys, Game.StaleLeftRefused |


