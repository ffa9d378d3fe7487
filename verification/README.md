# Rustris piece and playfield model

A Dafny model of the core of Rustris, a terminal Tetris-style game. It covers
two parts.

- **The piece and playfield model** (`src/tetris_model.rs`). This is the seven tetromino constants.
  Each is a 4x4 byte grid with a colour and a declared `width` x `height` box.
  It also covers the rotation routine `get_data`, which rebuilds a rotated grid
  from the canonical one. The game state holds a level, a settled 10x20 playfield
  and the falling piece. The control operations turn, move and drop that piece.
  `get_field` stamps the falling piece onto a copy of the settled field.
- **The screen state machine** (`src/main.rs`). There are three screens:
  intro, game and end. The key dispatch of the intro and game screens is
  modelled, and so is the main loop that feeds keys to it until the end screen.

Files:

- `pieces.dfy`, module `Pieces`: colours, orientations, `PieceData`, the
  index maps, and the rotation. `Rotated` is the rotation as a value.
  `GetData` is the program's nested copy loop, proved to compute `Rotated`.
  The file also holds the round-trip and cell-count lemmas and the catalog
  with its invariant.
- `tetris_model.dfy`, module `TetrisModel`: `Playfield`, `CurrentPiece`, `TetrisState`,
  the control operations, `CreateTetrisGame`, and the overlay. `Overlay` is
  the overlay as a value. `Draw` is the program's stamping loop, proved to
  compute `Overlay`.
- `app.dfy`, module `App`: `IntroStateControl`, `GameStateControl`, and one
  loop round (`Step`). `Run` is the loop over a finite stretch of inputs.

How the model maps the program:

- The program's `&mut self` operations are pure functions here. Each takes a
  `TetrisState` and returns the new one. So `get_field` cannot change the
  stored field, and two calls with no operation between them give the same
  view.
- The rotation follows the code's index maps exactly. Cell `(x, y)` of the box
  is written to `(grid_x, grid_y)`:
  - NORTH: `(x, y)`
  - EAST: `(y, width-1-x)`
  - SOUTH: `(width-1-x, height-1-y)`
  - WEST: `(height-1-y, x)`
- Rows grow downward, so the code's EAST map turns a mask a quarter turn
  counter-clockwise as it is drawn. `rotate_cw` (the Up key) steps to EAST.
  The model keeps the code's labels and does not relabel them by what is seen
  on screen.
- `TetrisState::get_level` (`src/tetris_model.rs:224-226`) is `GetLevel`, a
  plain accessor. Its read-back of the creation level is stated in the
  contracts of `CreateTetrisGame` and `Start`, and `RunKeepsPieceFieldLevel`
  shows that the loop never changes it.
- The random byte of `create_tetris_game` is a parameter, `rand`. The piece is
  catalog entry `rand % 7`, as in the code. Over the 256 byte values,
  entries 0 to 3 each get 37 values and entries 4 to 6 get 36. So the choice is
  close to uniform, but not exactly uniform.
- The catalog entries keep all their 1-cells inside the declared box. The box
  is not always tight: the I piece declares height 3, but its cells fill only
  row 1. `ValidCatalogEntry` states "inside the box", which is what the code
  relies on.
- The code never clamps or rejects a move. Out-of-range cases therefore become
  preconditions:
  - `MoveLeft` needs `x >= 1`, because the column is an unsigned `usize`.
  - `Draw` and `GetField` need every covered cell to lie inside the 20x10 field (`Fits`).
  - `Rotated` and `GetData` need the declared box to be at most 4x4 (`WellFormed`), as the grid indexing requires.

## Model

| member | source | states |
|---|---|---|
| Pieces.Rotated | src/tetris_model.rs:37-74 | NORTH and SOUTH keep the box; EAST and WEST swap width and height. The grid stays 4x4 with a box of at most 4x4, and the colour is kept. |
| Pieces.RotatedMovesCells | src/tetris_model.rs:53-72 | Every box cell's value lands at its image under the code's index map, and every cell outside the rotated box is 0. |
| Pieces.GetData | src/tetris_model.rs:37-74 | The program's routine: zero a fresh grid, then copy the box cell by cell to its image. The result equals `Rotated`. |
| Pieces.DestBijection | src/tetris_model.rs:57-68 | The index map sends the declared box one-to-one onto the rotated box, and `Src` is its inverse. |
| Pieces.NorthIsIdentity | src/tetris_model.rs:57-70 | For a piece that is zero outside its box, NORTH gives back the same piece. |
| Pieces.WestUndoesEast | src/tetris_model.rs:57-70 | The WEST map applied to an EAST-rotated piece, with the swapped box, returns the original grid and box. |
| Pieces.EastUndoesWest | src/tetris_model.rs:57-70 | The EAST map applied to a WEST-rotated piece returns the original grid and box. |
| Pieces.SouthTwiceIsIdentity | src/tetris_model.rs:57-70 | SOUTH applied twice is the identity. |
| Pieces.EastTwiceIsSouth | src/tetris_model.rs:57-70 | Two EAST maps in a row are one SOUTH map. |
| Pieces.WestTwiceIsSouth | src/tetris_model.rs:57-70 | Two WEST maps in a row are one SOUTH map. |
| Pieces.SouthThenEastIsWest | src/tetris_model.rs:57-70 | SOUTH followed by the EAST map is WEST. |
| Pieces.SouthThenWestIsEast | src/tetris_model.rs:57-70 | SOUTH followed by the WEST map is EAST. |
| Pieces.FourTurnsAreIdentity | src/tetris_model.rs:57-70 | Four EAST maps, or four WEST maps, give back the piece. |
| Pieces.RotationPermutesOnes | src/tetris_model.rs:53-72 | For a piece that is zero outside its box, the 1-cells of the rotated piece are exactly the images of its 1-cells. They are distinct, so their number is kept. |
| Pieces.CatalogInvariant | src/tetris_model.rs:77-129 | The catalog has 7 entries. Each has a box of at most 4x4, is zero outside that box, has exactly four 1-cells and a colour other than Black. No two entries share a colour. |
| TetrisModel.Playfield.Width | src/tetris_model.rs:155-157 | The field width is the length of every row. |
| TetrisModel.Playfield.Height | src/tetris_model.rs:158-160 | The field height is the number of rows. |
| TetrisModel.EmptyField | src/tetris_model.rs:166-170 | A 20x10 field with every cell Black. |
| TetrisModel.CreateTetrisGame | src/tetris_model.rs:178-191 | A new game has an all-Black field and a valid catalog piece at column 5, row 3, facing NORTH. Its level reads back as the given level. |
| TetrisModel.SpawnCoversCatalog | src/tetris_model.rs:179-185 | Every catalog entry can be the spawned piece. |
| TetrisModel.RotateCw | src/tetris_model.rs:202-209 | The orientation changes to the one `CounterClockwise` maps back to the old one. Nothing else in the state changes. |
| TetrisModel.RotateCcw | src/tetris_model.rs:194-201 | The orientation changes to the one `Clockwise` maps back to the old one. Nothing else in the state changes. |
| TetrisModel.RotateCcwInvertsRotateCw | src/tetris_model.rs:194-209 | `rotate_ccw` undoes `rotate_cw`, and `rotate_cw` undoes `rotate_ccw`. |
| TetrisModel.FourRotationsRestore | src/tetris_model.rs:194-209 | Four turns in the same direction restore the state. |
| TetrisModel.ClockwiseStepIsEastMap | src/tetris_model.rs:202-209 | The shape shown after `rotate_cw` is the EAST map of the shape shown before it. |
| TetrisModel.CounterClockwiseStepIsWestMap | src/tetris_model.rs:194-201 | The shape shown after `rotate_ccw` is the WEST map of the shape shown before it. |
| TetrisModel.MoveLeft | src/tetris_model.rs:210-212 | Needs column at least 1. The column decreases by one, and nothing else changes. |
| TetrisModel.MoveRight | src/tetris_model.rs:213-215 | The column increases by one, and nothing else changes. |
| TetrisModel.Drop | src/tetris_model.rs:216-218 | The row increases by one, and nothing else changes. |
| TetrisModel.MoveLeftUndoesMoveRight | src/tetris_model.rs:210-215 | `move_right` then `move_left` restores the state. |
| TetrisModel.MoveRightUndoesMoveLeft | src/tetris_model.rs:210-215 | `move_left` then `move_right` restores the state. |
| TetrisModel.MoveRightShiftsFootprint | src/tetris_model.rs:213-215 | After `move_right`, every covered field cell is one column further right. |
| TetrisModel.MoveLeftShiftsFootprint | src/tetris_model.rs:210-212 | After `move_left`, every covered field cell is one column further left. |
| TetrisModel.DropShiftsFootprint | src/tetris_model.rs:216-218 | After `drop`, every covered field cell is one row lower. |
| TetrisModel.OverlayCells | src/tetris_model.rs:144-154 | Stamping colours every covered cell with the piece colour and copies every other cell from the settled field. |
| TetrisModel.Draw | src/tetris_model.rs:144-154 | The program's loop over the rotated box, painting cells that hold 1, computes `Overlay`. |
| TetrisModel.GetField | src/tetris_model.rs:219-223 | Needs only the covered cells to lie in the field. The view is the settled field, except at the covered cells, which hold the piece colour. |
| TetrisModel.FootprintSize | src/tetris_model.rs:144-154 | A piece that is zero outside its box covers as many field cells as it has 1-cells, in any orientation. |
| TetrisModel.NewGameView | src/tetris_model.rs:178-191 | A new game fits the field. Its view has exactly 4 non-Black cells, all in the piece colour, at the canonical mask moved to (5, 3). |
| App.IntroStateControl | src/main.rs:53-60 | Space leads to Game and `q` leads to End, each if and only if that key is pressed; every other key stays on Intro. |
| App.GameStateControl | src/main.rs:62-88 | Esc leads to Intro with the game untouched. Up, Down, Left, Right and Space call `rotate_cw`, `rotate_ccw`, `move_left`, `move_right` and `drop` respectively, and lead to Game. Any other key, `q` included, changes nothing and stays on Game. This screen never leads to End. |
| App.Start | src/main.rs:144-146 | The loop starts on Intro with one game created before the loop: level 0, an all-Black 20x10 field, and a valid catalog piece at column 5, row 3, facing NORTH. |
| App.Step | src/main.rs:164-171 | No key changes nothing, and End is left as it is. The intro screen never changes the game. End is reached only by `q` on Intro. |
| App.Run | src/main.rs:148-177 | The loop reads inputs until the screen is End and then stops. Any input it leaves unread means it stopped on End. |
| App.RunKeepsPieceFieldLevel | src/main.rs:148-177 | However many inputs the loop reads, the game's level, settled field and falling piece's shape stay as they were; only its position and orientation can change. |
| App.StartedRunKeepsNewGame | src/main.rs:144-177 | A run from the start state ends with a level-0 game on an all-Black field that still holds a valid catalog piece. |
| App.EndStopsTheLoop | src/main.rs:174-176 | Once a run has reached End, more inputs change neither the final state nor the number of inputs read. |
| App.QuitFromIntroExits | src/main.rs:166-176 | `q` on Intro ends the loop after one input, with the game unchanged. |
| App.EscThenSpaceResumes | src/main.rs:62-66 | Esc and then Space return to the game screen with the same piece, position, orientation and field. |

## Left out

- Terminal setup and teardown (raw mode, alternate screen, mouse capture, cursor), `src/main.rs:27-51`: this is process-level I/O.
- Rendering: `intro_field`, `game_field`, the layout and `from_block_color`. This is presentation. `Run` has no draw step, so it also does not carry the `Fits` precondition of the `get_field` call made while drawing the game screen.
- Event polling with its 200 ms timeout: an input is a value. `NoKey` stands for a timeout or a non-key event. `Run` covers a finite stretch of inputs, not the unbounded loop.
- I/O errors propagated with `?` from drawing and polling: the model has no I/O.
- `rand::random`: a foreign call. The random byte is the parameter `rand`.
- The `start_diff` field: it is never read.
- `Playfield::get_data`: it is a plain accessor, so the model reads the `data` field directly.
- Collision, locking, line clearing, scoring, gravity and game-over: the program implements none of these.
- MoveRight: `usize` overflow is not modelled, because columns are unbounded `nat`.
- Drop: `usize` overflow is not modelled, because rows are unbounded `nat`.
