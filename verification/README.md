# Tetris_ADN falling-block engine in Dafny

This project models the engine of Tetris_ADN, a small p5.js Tetris game. The
engine has two parts:

- the board (`Tablero`), with locking, row detection and row removal;
- the active piece (`Tetrimino`) and its shadow (`Espectro`), with moves,
  rotation, collision and hard drop.

All positions are integer pairs (x = column, y = row, rows grow downward).
The board is a `seq<seq<string>>` of 20 rows and 10 columns, and `""` marks
an empty cell.

The program keeps its state in global variables (`tablero`, `tetrimino`,
`lineas_hechas`). Here they are one `Game.Session` value, and every operation
is a pure function from session to session. When an operation spawns a new
piece, the randomly chosen shape is a parameter (`next`).

Modules:

- `Grid` (board.dfy): the board. Covers the constructor, `almacenarMinos`,
  `verificarLineasCompletas` and `eliminarLineas`.
- `Pieces` (piece.dfy): the piece geometry. Covers absolute cells
  (`mapaTablero`), the collision test (`colision`, shared by the piece and the
  Espectro), the quarter turn of `girar`, and the landing search of
  `Espectro.actualizar`.
- `Game` (game.dfy): the session. Covers spawn, lock and game over,
  the four moves, rotation and hard drop.

The program recomputes the Espectro after every change to the piece. A new
piece builds a new Espectro, and that happens after the board has changed. So
the cached Espectro position always equals the projection of the current
piece onto the current board. The model therefore derives it as
`Game.Espectro(s)` instead of storing it.

A hard drop locks the piece at its Espectro with no collision check, as if
the Espectro were always a free position. In the code this holds only when
the piece fits at its anchor. Every accepted move and turn leaves the piece
in a position where it fits; a rejected one leaves it where it was, so a
piece that already collides keeps colliding. A piece that collides where it
spawned gets its Espectro one row above the anchor, and that position can
collide as well (`Game.EspectroOfCollidingPiece`); `ponerEnElFondo` locks the
piece there all the same. `Pieces.Projection` therefore only promises a
fitting Espectro for a piece that fits.

## Model

| member | source | states |
|---|---|---|
| Grid.EmptyRow | Tablero.js:124 | a padding row has `columnas` cells, all `""` |
| Grid.NewBoard | Tablero.js:28-30 | a fresh board has exactly 20 rows of 10 cells, and every cell is `""` |
| Grid.WriteCells | Tablero.js:52-61 | after the write loop, every piece cell inside the board holds the piece name; every other cell is unchanged; the board keeps its size |
| Grid.CompleteRows | Tablero.js:74-89 | the collected list holds exactly the complete rows (each listed row is complete and in range, every complete row is listed), in bottom-to-top order |
| Grid.Kept | Tablero.js:117-121 | the indices of the rebuilt list are in range and no more than the rows scanned |
| Grid.KeptExactly | Tablero.js:117-121 | the rows kept are exactly those not marked for removal, in increasing order |
| Grid.KeptAll | Tablero.js:117-121 | with nothing marked, every row is kept in its place |
| Grid.EmptyRows | Tablero.js:123-125 | the padding is the requested number of empty rows |
| Grid.Survivors | Tablero.js:116-121 | the surviving rows are the kept rows of the old board, in order |
| Grid.RemoveRows | Tablero.js:116-126 | after removal the board again has 20 rows of 10 cells: empty rows on top, then the survivors |
| Grid.ClearCompleted | Tablero.js:70-96 | the number of removed rows is the number of complete rows; it is 0 exactly when no row is complete, and then the board is unchanged |
| Grid.ClearedLayout | Tablero.js:113-126 | the top k rows are empty and the rest are the surviving rows in original order, where k is both the number of removed rows and 20 minus the number of survivors |
| Grid.SplitCount | Tablero.js:113-121 | removed rows plus kept rows account for every row exactly once |
| Grid.RemoveNothing | Tablero.js:116-126 | rebuilding with no marked rows gives back the same board |
| Grid.SurvivorsAreIncomplete | Tablero.js:74-89 | the survivors are exactly the incomplete rows, in increasing order |
| Grid.NoCompleteRowAfterClear | Tablero.js:116-126 | after clearing, no row of the board is complete |
| Grid.Store | Tablero.js:37-65 | it is game over iff some cell is above the board, and then nothing is written; otherwise the new board is the written board after clearing its complete rows, `count` is the number of complete rows after writing, no complete row remains, and with no row cleared the board is the written board |
| Grid.StoreLayout | Tablero.js:52-64 | a lock that is not game over leaves `count` empty rows on top, then the rows of the written board that survive clearing, in their original order |
| Pieces.Cells | Tetrimino.js:158-163 | there is one absolute cell per offset |
| Pieces.CellsFollowAnchor | Tetrimino.js:158-163 | moving the anchor by (dx, dy) moves every absolute cell by (dx, dy); cell minus offset is the anchor |
| Pieces.Collides | Tetrimino.js:111-128 | the piece collides iff some cell is off the sides, below the floor, or on a stored non-empty cell at a row >= 0 |
| Pieces.BoundsAlwaysCollide | Tetrimino.js:114-120 | a cell with column < 0, column >= 10 or row >= 20 collides, whatever the board holds |
| Pieces.AboveBoardNeverCollides | Tetrimino.js:122-125 | cells above the board and inside the column bounds never collide |
| Pieces.OnBoardCollidesIffOccupied | Tetrimino.js:122-125 | a cell on the board collides iff the stored cell is not `""` |
| Pieces.RotateAll | Tetrimino.js:96-98 | the turned map has as many offsets as the original; each offset is mapped by `Pieces.Rotate`, (x, y) to (-y, x) as on line 97 |
| Pieces.RotateTwice | Tetrimino.js:96-98 | two quarter turns send every offset (x, y) to (-x, -y) |
| Pieces.RotateFourTimes | Tetrimino.js:96-98 | four quarter turns restore the original offsets |
| Pieces.DropRow | Tetrimino.js:198-204 | the loop ends on the last row before the first collision: the piece fits on every row from the start to the result, and one row lower it collides |
| Pieces.Projection | Tetrimino.js:198-204 | the Espectro is in the anchor's column and collides one row lower; if the piece fits at its anchor, the Espectro is at or below it, fits there and on every row between; otherwise it is one row above the anchor; `Game.Espectro` is this projection for the session's piece, the value the cached `espectro.posicion` holds |
| Pieces.DropRowFromBelow | Tetrimino.js:198-204 | starting the search at any row the piece falls through gives the same landing row |
| Pieces.DropOnEmptyBoard | Tetrimino.js:198-204 | on an empty board a piece lands with its lowest cells on the floor row |
| Game.Spawn | Tetrimino.js:15-19 | a new piece has the chosen shape's name and offsets, and its anchor is (5, -1) |
| Game.Restart | Tablero.js:44-46 | after a game over the board is all empty and the counter is 0 |
| Game.Lock | Tablero.js:37-65 | a piece above the board restarts the game with an empty board and counter 0; otherwise the new board is the piece's cells written into the old board with the complete rows then cleared, the counter grows by the number of rows completed and no complete row remains; either way the next piece is spawned |
| Game.MoveRight | Tetrimino.js:30-36 | the anchor moves one column right iff the moved piece fits, otherwise the session is unchanged; offsets, board and counter never change |
| Game.MoveLeft | Tetrimino.js:42-48 | the anchor moves one column left iff the moved piece fits, otherwise the session is unchanged; offsets, board and counter never change |
| Game.MoveUp | Tetrimino.js:71-77 | the anchor moves one row up iff the moved piece fits, otherwise the session is unchanged; offsets, board and counter never change |
| Game.MoveDown | Tetrimino.js:55-65 | it returns false and moves the anchor one row down iff the piece fits there; otherwise it returns true and locks the piece at its unmoved position |
| Game.EspectroStaysWhileFalling | Tetrimino.js:55-65 | a step down that does not lock leaves the Espectro where it was |
| Game.Turn | Tetrimino.js:93-105 | a turn is kept iff the turned piece fits, and the Espectro then uses the turned offsets; otherwise the session is unchanged; the anchor never changes |
| Game.HardDrop | Tetrimino.js:83-87 | the result is `Lock` of the piece with its anchor moved to the Espectro: game over if a cell is above the board, otherwise the board is the piece written there with complete rows cleared and the counter grows by the rows completed; the next piece is spawned |
| Game.StepDown | Tetrimino.js:55-64 | above a free row, one tick moves only the anchor one row down |
| Game.FallThroughFreeRows | Tetrimino.js:55-64 | through j free rows, j ticks move the anchor j rows down without locking |
| Game.FallToEspectro | Tetrimino.js:198-204 | a piece that fits, k rows above its Espectro, stands on the Espectro after k ticks |
| Game.LocksAtEspectro | Tetrimino.js:83-87 | on its Espectro, the next tick locks the piece exactly as a hard drop does |
| Game.HardDropIsRepeatedFall | Tetrimino.js:83-87 | for a piece that fits, k rows above its Espectro, a hard drop equals k ticks of falling followed by the tick that locks |
| Game.LeftUndoesRight | Tetrimino.js:30-48 | a successful step right is undone by a step left |
| Game.RightUndoesLeft | Tetrimino.js:30-48 | a successful step left is undone by a step right |
| Game.UpUndoesDown | Tetrimino.js:55-77 | a step down that does not lock is undone by a step up |
| Game.FourTurnsRestore | Tetrimino.js:93-105 | when all four orientations fit, four turns give back the same session |
| Game.EspectroOfCollidingPiece | Tetrimino.js:198-204 | for a piece that collides at its anchor, the Espectro is one row above the anchor and can itself collide |

## Left out

- Drawing and canvas geometry are not modelled; they are presentation only. This covers `dibujar`, `dibujarMino`, `dibujarMinosAlmacenados`, `mapaCanvas`, `coordenada`, `lado_celda`, `ancho`, `alto` and `posicion`.
- `reproducirSonido`, `alert` and `console.log` are not modelled. They only affect audio, the UI and the console. The removed-row count they report is kept in `Grid.Cleared`.
- `random(...)` shape selection is not modelled. The shape is the `next` parameter.
- The `tetriminosBase` catalog, including its colours, is not part of this model. A shape is a name and a non-empty list of offsets. A piece with no offsets would make the Espectro loop run forever.
- p5 vectors (`createVector`, `copy`, `add`) become integer pairs. JavaScript numbers become unbounded integers; the values stay tiny, so nothing is lost.
- Aliasing is not modelled. In the program the Espectro shares the piece and its offset array, and the piece takes over the Espectro's position object on a hard drop. Here everything is a plain value.
- On a game over the program creates a new piece twice: once in `almacenarMinos` and once in the caller. Both are random; only the second survives. The model spawns a single piece from `next`.
- Game.Espectro: the Espectro's cached position is not stored in the session. It is always derived by `Pieces.Projection`, which is the value the program's cache holds after every update.
- Game.Spawn: the spawn anchor is fixed at (int(10 / 2), -1) = (5, -1). The shape comes from the parameter rather than the catalog.
- Game.Fall: the driver that calls `moverAbajo` on a timer and on key presses is not part of this model. `Fall` only stands for k successive calls.
- The initial setup of the global variables is done in a driver file that is not part of this model.
