# Falling Borders: the grid engine of five p5.js prototypes, in Dafny

Falling Borders is a falling-block puzzle game built up over five p5.js
prototypes. Each prototype carries its own copy of one small grid engine:
- a board of `rows` rows of cells, where 0 is empty;
- `checkCollision`;
- `placePiece`, which writes a piece into the board;
- `clearLines`, with `splice`/`unshift` row compaction;
- a rotation transform with reject-and-restore;
- a gravity step;
- a pointer state machine that picks a piece up, drags it and drops it.

This project models that engine for every prototype and proves what each
one does.

Shared modules, used by every version:
- `Shapes` (`shapes.dfy`): the seven-piece catalogue and the two rotation
  transforms. One transform is the `map`/`reverse` expression
  (counter-clockwise). The other is the clockwise push-loop turn of
  Version_2. The module proves inverse, four-turn and cell-count properties.
- `Cells` (`cells.dfy`): cell values, the board, `initBoard`, and the write
  loop of `placePiece`.
- `Collision` (`collision.dfy`): `checkCollision` and Version_2's
  `checkBottomCollision`, as verdicts `Free | Blocked | Fault`. `Fault` is the
  TypeError JavaScript throws when a filled cell lies above row 0 and
  `board[-1][x]` is read. A handler that throws stops where it is, so the
  model keeps the state reached before the throw.
- `Lines` (`lines.dfy`): the `clearLines` of sketch.js, Version_1_3 and
  Version_3_3. This includes the quirk that the row shifted into the cleared
  index is not looked at again in the same pass.

One module per prototype:
- `Sketch` (`sketch.dfy`): sketch.js, a classic 10 x 20 game on arrow keys.
- `Version0_1` (`version0_1.dfy`): a five-piece conveyor belt under the board,
  with drag and drop.
- `Version1_3` (`version1_3.dfy`): four belt columns right of the board.
  Pieces fall in the belt and are picked up and dropped with the pointer.
- `Version2` (`version2.dfy`): writes 1s and uses -1 as belt background.
  Line detection is split between play and belt, a lift happens before every
  drop, belt overflow means game over, and a timer brings new pieces.
- `Version3_3` (`version3_3.dfy`): Version_1_3 plus picking a single cell off
  the board.

The mapping from the source to the model:
- The globals of each prototype become a `Game` class.
- A JavaScript `Piece` becomes a `Piece` class with a mutable anchor. Its
  shape is mutable too, except in Version_0_1, which never rotates a piece
  and so keeps the shape as a `const`.
- Methods the source calls only on `currentPiece` (`move`, `rotate`,
  `update`) are `Game` methods acting on `current`.
- `random(pieces)` is an index argument (`pick`, `pickNext`).
- `color(...)` is an opaque `Paint` cell.
- Pointer positions are grid cells, except in Version_0_1, which works in
  pixels.

Behaviours of the code worth knowing, all modelled as written:
- A piece above row 0 makes `checkCollision` throw rather than report an
  illegal placement.
- In Version_1_3 and Version_3_3 a blocked gravity step commits nothing.
- Version_2 settles a falling piece one row early.
- Version_2 also keeps handling mouse presses after game over, because p5
  still delivers events after `noLoop()`.
- Version_2's drop first lifts the footprint at the pointer cell, not at the
  place where the piece was committed.
- Version_3_3's board pick accepts a column off the row. That column reads
  `undefined` until the pick writes 0 there. The 0 stays on the row array and
  moves with the row when lines are cleared.
- The belt cells shift with the play rows when a row is cleared. In Version_2
  the top belt row is duplicated.

## Model

| member | source | states |
|---|---|---|
| Shapes.Tetromino | sketch.js:70-78 | the catalogue shapes in source order (T, O, S, Z, L, J, I), each a rectangular matrix 1-2 rows high and 2-4 wide |
| Shapes.RotateLeft | sketch.js:163-167 | the `map`/`reverse` turn of an h x w shape is a w x h matrix whose cell (i, j) is old cell (j, w-1-i) |
| Shapes.RotateLeftKeepsCells | sketch.js:165-167 | the turn keeps the number of filled cells: cells are permuted, none added or removed |
| Shapes.RotateLeftFourTimes | sketch.js:165-167 | four successive turns give back the original matrix |
| Shapes.RotateRightIsMatrix | Version_2/sketch.js:359-366 | the clockwise turn of an h x w matrix is a w x h matrix |
| Shapes.RotateRightThenLeft | Version_2/sketch.js:358-384 | `rotateBack` after `rotate` gives back the original shape exactly |
| Shapes.RotateLeftThenRight | Version_2/sketch.js:358-384 | `rotate` after `rotateBack` gives back the original shape exactly |
| Shapes.RotateRightKeepsCells | Version_2/sketch.js:359-366 | the clockwise turn keeps the number of filled cells |
| Shapes.TurnRight | Version_2/sketch.js:359-366 | the push loops of `rotate` build exactly the clockwise turn |
| Shapes.TurnBack | Version_2/sketch.js:374-384 | the push loops of `rotateBack` build exactly the counter-clockwise turn |
| Cells.TetrominoColour | sketch.js:70-78 | every catalogue colour is a colour value, never 0, 1 or -1 |
| Cells.InitBoard | sketch.js:36-43 | the board has `rows` rows of `cols` zeros |
| Cells.Stamped | sketch.js:99-108 | the written value lands in exactly the cells under filled shape cells; every other cell is unchanged |
| Cells.Stamp | sketch.js:100-108 | the write loop of `placePiece` produces exactly `Stamped` and keeps the board's dimensions |
| Collision.ScanFromMeaning | sketch.js:84-97 | the scan resumed at a shape cell is free iff every later filled cell is on the board over a 0, and cannot throw when no filled cell is above row 0 |
| Collision.ScanMeaning | sketch.js:84-97 | `checkCollision` is false iff the placement fits (on the board, over zeros); it cannot throw when no filled cell lies above row 0, in particular for an anchor row >= 0 |
| Collision.CollidesIff | sketch.js:84-97 | for an anchor row >= 0, `checkCollision` is true iff some filled cell maps to a column < 0 or >= width, a row >= rows, or a non-zero cell |
| Collision.FitsInBounds | sketch.js:84-97 | a placement that passes the check lies wholly on the board |
| Collision.StampedOccupies | sketch.js:99-108 | once a legal placement is committed with a non-zero value, the same placement collides |
| Collision.CheckCollision | Version_1_3/sketch.js:134-152 | the loops of `checkCollision` (width `cols + colsOfBelt` here, `cols` in sketch.js) return the verdict of the scan |
| Collision.BottomScanFromMeaning | Version_2/sketch.js:386-399 | the probe resumed at a shape cell is free iff the later filled cells fit one row lower, and cannot throw when none of them has its row below above row 0 |
| Collision.BottomScanMeaning | Version_2/sketch.js:386-399 | `checkBottomCollision` is false iff the piece would fit one row lower; any non-zero cell below, including -1, blocks; it cannot throw for an anchor row >= -1 |
| Collision.CheckBottomCollision | Version_2/sketch.js:386-399 | the loops of `checkBottomCollision` return the verdict of the probe |
| Lines.Compact | sketch.js:120-123 | `splice(y, 1)` then `unshift(top)`: row y is gone, rows above move down one index, `top` is row 0, rows below y stay |
| Lines.SweepFromShape | sketch.js:113-127 | the scan from row y keeps the row count and width and never touches rows below y |
| Lines.SweepKeepsShape | sketch.js:113-127 | `clearLines` keeps the board at `rows` rows of `width` cells |
| Lines.SweepNoneFull | sketch.js:113-127 | with no full row, `clearLines` changes nothing |
| Lines.SweepPassesOver | sketch.js:113-127 | rows that are not full only move the scan up |
| Lines.SweepSingleFull | sketch.js:113-127 | when row y is the only full row, `clearLines` removes exactly row y and inserts one zero row at index 0 |
| Lines.SweepSkipsShiftedRow | sketch.js:113-127 | when rows y-1 and y are both full, one pass removes row y and leaves the old row y-1, still full, at index y |
| Lines.ClearLines | sketch.js:113-127 | the loops of `clearLines` compute exactly the scan (also Version_1_3/sketch.js:168-182 with width 14) |
| Lines.FullTest | sketch.js:115-121 | the row test is true iff none of the first `cols` cells is 0 |
| Sketch.Piece.constructor | sketch.js:131-136 | a new piece spawns at x = floor(cols/2) - floor(w/2), y = 0 |
| Sketch.Catalogue | sketch.js:70-78 | `generatePiece` builds seven distinct new pieces with the catalogue shapes and colours at their spawn anchors |
| Sketch.Game.constructor | sketch.js:10-15 | `setup` leaves an empty 20 x 10 board and a current and next piece drawn from one catalogue (the same object iff the draws agree) |
| Sketch.Game.GeneratePiece | sketch.js:69-82 | the previous next piece becomes current (a fresh draw the first time) and a new next piece is drawn; the board is unchanged |
| Sketch.Game.PlacePiece | sketch.js:99-111 | the colour is written under the piece, `clearLines` runs on the result, and the next piece becomes current |
| Sketch.Game.Move | sketch.js:151-161 | a fitting step moves the anchor by (dx, dy); otherwise the anchor is restored exactly, and if dy > 0 the piece is committed at its unmoved anchor |
| Sketch.Game.Rotate | sketch.js:163-172 | the counter-clockwise turn is kept iff it fits at the same anchor; the anchor never changes |
| Sketch.Game.Update | sketch.js:174-176 | gravity drops the piece a row if that fits, otherwise commits it where it is, its anchor and shape as they were, and brings in the next piece |
| Sketch.Game.KeyPressed | sketch.js:24-34 | left/right step sideways without touching the board; down is a gravity step (a fitting step changes only the row; a blocked one commits at the unmoved anchor); up rotates; other keys do nothing |
| Version0_1.Piece.constructor | Version_0_1/sketch.js:157-162 | a new piece has its shape and colour at anchor (0, 0) |
| Version0_1.Catalogue | Version_0_1/sketch.js:96-104 | seven distinct new pieces with the catalogue shapes and colours |
| Version0_1.LastDraw | Version_0_1/sketch.js:107-112 | the last of the first n draws that took the same catalogue piece as draw k |
| Version0_1.FillSlots | Version_0_1/sketch.js:107-112 | slot k holds the catalogue piece of draw k, and each draw that is the last of its piece has moved it to its slot's pixel position |
| Version0_1.BeltFacts | Version_0_1/sketch.js:95-113 | each slot's shape and colour are those drawn, a piece sits at the slot of its last draw, and two slots share an object iff their draws agree |
| Version0_1.FirstSlot | Version_0_1/sketch.js:33-45 | the first belt slot containing the pointer (edges included), or none if no slot does |
| Version0_1.SlotsDisjoint | Version_0_1/sketch.js:35-38 | thanks to the 5-pixel gap a pointer is in at most one slot |
| Version0_1.FirstSlotIsHit | Version_0_1/sketch.js:33-45 | any slot containing the pointer is the one the loop picks |
| Version0_1.DropAcceptedInBounds | Version_0_1/sketch.js:51-56 | an accepted drop (anchor on the board, then no collision) lies on the board over zeros |
| Version0_1.Game.constructor | Version_0_1/sketch.js:11-16 | `setup` leaves an empty board, nothing dragged, and five belt pieces with the drawn shapes and colours; each sits at the pixel slot of its last draw, and two slots hold one object iff their draws agree |
| Version0_1.Game.InitConveyorBelt | Version_0_1/sketch.js:95-113 | exactly five pieces are appended after the existing ones, with the drawn shapes and colours, each at the pixel slot of its last draw; two entries are one object iff their draws agree |
| Version0_1.Game.MousePressed | Version_0_1/sketch.js:31-46 | the first hit slot's piece becomes the dragged piece with its cell offset, and exactly that entry is removed from the belt, the others keeping their order; no hit changes nothing |
| Version0_1.Game.FollowPointer | Version_0_1/sketch.js:23-27 | the dragged piece's anchor is the pointer's cell less the remembered offset |
| Version0_1.Game.PlacePiece | Version_0_1/sketch.js:143-153 | the colour goes into the footprint only; no line clear, no new piece |
| Version0_1.Game.MouseReleased | Version_0_1/sketch.js:48-60 | the dragged piece is committed iff the drop is accepted; the dragged piece is always cleared, so a rejected piece is discarded |
| Version1_3.Piece.constructor | Version_1_3/sketch.js:186-191 | a new piece spawns in the belt at x = cols + floor(colsOfBelt/2) - floor(w/2), y = 0 |
| Version1_3.SpawnInBelt | Version_1_3/sketch.js:186-191 | every spawn position lies on the board, inside the belt columns |
| Version1_3.Catalogue | Version_1_3/sketch.js:112-122 | seven distinct new pieces with the catalogue shapes and colours at their belt spawn anchors |
| Version1_3.DropMayReachBelt | Version_1_3/sketch.js:56-64 | only the anchor column is tested against `cols`: an I piece dropped at column 9 is accepted and covers belt cells |
| Version1_3.Game.constructor | Version_1_3/sketch.js:12-17 | `setup` leaves an empty 20 x 14 board, nothing attached, and a current and next piece from one catalogue |
| Version1_3.Game.GeneratePiece | Version_1_3/sketch.js:112-125 | the previous next piece becomes current (a fresh draw the first time), a new next piece is drawn, and both lie on the board |
| Version1_3.Game.PlacePiece | Version_1_3/sketch.js:154-166 | the colour is written under the piece, play rows are cleared, and the next piece becomes current |
| Version1_3.Game.FollowMouse | Version_1_3/sketch.js:127-132 | the attached piece's anchor is the pointer cell |
| Version1_3.Game.Move | Version_1_3/sketch.js:206-213 | the step is kept unless the scan reports a collision, in which case the anchor is restored exactly; a free piece never makes the scan throw |
| Version1_3.Game.Rotate | Version_1_3/sketch.js:215-224 | the counter-clockwise turn is kept unless it collides; the anchor never changes |
| Version1_3.Game.Update | Version_1_3/sketch.js:226-230 | gravity acts only on a piece that is not attached; a blocked step changes nothing and commits nothing |
| Version1_3.Game.KeyPressed | Version_1_3/sketch.js:68-72 | 'r' rotates, and only while a piece is attached |
| Version1_3.Game.MousePressed | Version_1_3/sketch.js:30-66 | not attached: attaches iff the pointer is in the bounding box, board untouched; attached: a collision or an anchor column >= cols restores the anchor and stays attached, with shape and next piece unchanged; a throwing scan leaves the anchor at the pointer; otherwise the piece is committed there, keeping its shape, and let go |
| Version1_3.Game.Frame | Version_1_3/sketch.js:19-28 | an attached piece follows the pointer; otherwise the piece drops a row iff that fits |
| Version2.Greyed | Version_2/sketch.js:259-263 | the greying loop sets every belt cell of the row to -1 and keeps its play cells |
| Version2.KeptBeltTop | Version_2/sketch.js:253-255 | the unshifted row is zeros over the play columns followed by the belt cells of row 0 after the splice |
| Version2.SweepFrom | Version_2/sketch.js:231-265 | the scan from row y keeps the board at 20 rows of 14 cells and never touches rows below y |
| Version2.Sweep | Version_2/sketch.js:231-265 | `clearLines` keeps the board at 20 rows of 14 cells |
| Version2.SweepGreysBelts | Version_2/sketch.js:231-265 | with no full play row from y up, the scan greys exactly the rows up to y whose belt is all 1s |
| Version2.SweepWithoutFullPlayRow | Version_2/sketch.js:231-265 | with no full play row, `clearLines` turns exactly the all-1 belts into -1 and changes nothing else |
| Version2.SweepPassesOver | Version_2/sketch.js:231-265 | rows with neither a full play area nor a full belt only move the scan up |
| Version2.SweepRemovesRow | Version_2/sketch.js:253-255 | a row with a full play area and a non-full belt is spliced out and the kept-belt top row is unshifted |
| Version2.CompactedAboveNotFull | Version_2/sketch.js:253-255 | after removing the only full play row, no row above it is full in either region |
| Version2.SweepNothingFull | Version_2/sketch.js:231-265 | when no play row and no belt is full from row y up, the scan from y leaves the board unchanged |
| Version2.SweepSingleFull | Version_2/sketch.js:231-265 | when row y is the only full play row and no belt is full, `clearLines` removes exactly row y and unshifts zeros plus the belt cells of row 0 |
| Version2.SweepDuplicatesTopBelt | Version_2/sketch.js:253-255 | clearing a single play row y > 0 leaves the old row 0 at index 1 and its belt cells at index 0 as well |
| Version2.ClearLines | Version_2/sketch.js:231-265 | the loops of `clearLines` compute exactly the scan |
| Version2.PlayFullTest | Version_2/sketch.js:237-242 | the play test is true iff no play cell is 0 |
| Version2.BeltFullTest | Version_2/sketch.js:245-250 | the belt test is true iff every belt cell is 1 |
| Version2.GreyRow | Version_2/sketch.js:259-263 | the greying loop changes exactly the belt cells of row y, to -1 |
| Version2.Lifted | Version_2/sketch.js:296-318 | exactly the on-board footprint cells holding 1 change: to -1 in the belt, to 0 in the play area |
| Version2.LiftAfterPlace | Version_2/sketch.js:296-318 | lifting a freshly committed legal placement restores its play cells to 0 but turns its belt cells into -1 |
| Version2.LiftUndoesPlayPlace | Version_2/sketch.js:296-318 | committing a legal play-area placement and lifting it again gives back the board |
| Version2.LiftFreesFootprint | Version_2/sketch.js:72-79 | the lift at the pointer cell clears any 1s there, so a drop onto committed play cells under the pointer is accepted |
| Version2.RemovePieceFromBoard | Version_2/sketch.js:296-318 | the loops of `removePieceFromBoard` compute exactly the lift |
| Version2.TopBeltCleared | Version_2/sketch.js:267-276 | afterwards no belt cell of row 0 is non-zero, and no other cell changed |
| Version2.CheckBeltOverflow | Version_2/sketch.js:267-276 | returns true iff some belt cell of row 0 is not 0, and zeroes every such cell |
| Version2.Piece.constructor | Version_2/sketch.js:321-327 | a new piece spawns at the belt top and is falling |
| Version2.SpawnInBelt | Version_2/sketch.js:321-327 | every spawn position lies on the board, inside the belt columns |
| Version2.Catalogue | Version_2/sketch.js:134-142 | seven new falling pieces with the catalogue shapes and colours at their spawn anchors |
| Version2.InBoundsBetween | Version_2/sketch.js:347-356 | a piece on the board at rows y and y + 2 is on it at y + 1, so a kept gravity step stays on the board |
| Version2.SettlesOneRowEarly | Version_2/sketch.js:386-399 | on an empty board the O piece fits at row 18 but not at row 19 |
| Version2.SettleOneRowEarly | Version_2/sketch.js:347-356 | the gravity step on an O piece falling at row 17 of an empty board commits it at row 17 and stops it, although it fits at row 18 |
| Version2.Game.constructor | Version_2/sketch.js:15-20 | `setup` leaves an empty 20 x 14 board, nothing attached, no game over, and a fresh falling piece |
| Version2.Game.GeneratePiece | Version_2/sketch.js:133-153 | a fresh piece at the belt top replaces the current one whether or not it was attached; nothing else changes |
| Version2.Game.PlacePiece | Version_2/sketch.js:182-193 | 1 is written under the piece, then `clearLines`; the piece stays current and no piece is generated |
| Version2.Game.FollowMouse | Version_2/sketch.js:155-160 | the attached piece's anchor is the pointer cell |
| Version2.Game.Update | Version_2/sketch.js:347-356 | a falling piece moves down a row iff it would fit two rows lower (the probe looks one row below its new place); otherwise it stays, stops falling and is committed with 1s and a line clear; a stopped piece never moves and changes nothing |
| Version2.Game.RotateBack | Version_2/sketch.js:374-384 | the shape becomes its counter-clockwise turn |
| Version2.Game.Rotate | Version_2/sketch.js:358-372 | the clockwise turn is undone (giving back the exact old shape) when the bottom probe blocks, or when it is free and the collision scan blocks; the anchor never changes |
| Version2.Game.KeyPressed | Version_2/sketch.js:89-93 | 'r' rotates, and only while a piece is attached; the anchor and the falling flag never change |
| Version2.Game.MousePressed | Version_2/sketch.js:55-87 | not attached: attaches iff in the bounding box; attached: the footprint at the current anchor is lifted, then a collision or an anchor column >= cols restores the anchor (the lift stays), otherwise 1s are committed at the target and the piece is let go |
| Version2.Game.Frame | Version_2/sketch.js:22-53 | after game over nothing changes; otherwise the attached piece moves to the pointer, or a falling piece takes the gravity step (down a row iff it fits two rows lower, else stopped and committed), then the top belt row of the resulting board is emptied and the game ends iff that row held anything; the timer brings a fresh piece |
| Version3_3.OffRowPickable | Version_3_3/sketch.js:138-139 | a column off the board that no pick has written reads `undefined`, which passes the board-pick test on any row |
| Version3_3.Picked | Version_3_3/sketch.js:147 | the picked grid cell becomes 0 and no other grid cell changes |
| Version3_3.PickedOffRow | Version_3_3/sketch.js:147 | a pick at a column off the board records that column as 0 on its row; a pick on the board records nothing |
| Version3_3.PickEmptiesCell | Version_3_3/sketch.js:138-147 | after any pick, the same cell reads 0 and fails the pick test |
| Version3_3.OffRowRepickRefused | Version_3_3/sketch.js:138-147 | after a pick off the row and a commit elsewhere that fills no play row, pressing the same cell again picks nothing |
| Version3_3.PickThenPlaceRestores | Version_3_3/sketch.js:138-150 | a picked cell fits back where it was, and committing it there with its value gives back the original board |
| Version3_3.SweepOffRowFrom | Version_3_3/sketch.js:252-266 | the scan from row y leaves the off-row entries of the rows below y alone |
| Version3_3.SweepOffRowNoneFull | Version_3_3/sketch.js:252-266 | with no full play row, `clearLines` leaves every row's off-row entries in place |
| Version3_3.SweepOffRowPassesOver | Version_3_3/sketch.js:252-266 | rows that are not full only move the scan up |
| Version3_3.SweepOffRowSingleFull | Version_3_3/sketch.js:252-266 | when row y is the only full play row, its off-row entries go with it, those above move down one row, and the new top row has none, just as the rows themselves move |
| Version3_3.ClearLines | Version_3_3/sketch.js:252-266 | the loops of `clearLines` compute the row scan of width 14 on the grid and move the off-row entries with their rows |
| Version3_3.Game.constructor | Version_3_3/sketch.js:62-66 | `setup` leaves an empty 20 x 14 board with no off-row entries, nothing attached, and a current and next piece from one catalogue |
| Version3_3.Game.GeneratePiece | Version_3_3/sketch.js:196-209 | the previous next piece becomes current (a fresh draw the first time) and a new next piece is drawn |
| Version3_3.Game.PlacePiece | Version_3_3/sketch.js:238-250 | the colour is written under the piece, play rows are cleared with a full-width zero row (off-row entries move with their rows), and the next piece becomes current |
| Version3_3.Game.FollowMouse | Version_3_3/sketch.js:211-216 | the attached piece's anchor is the pointer cell |
| Version3_3.Game.Move | Version_3_3/sketch.js:292-299 | the step is kept unless the scan reports a collision, in which case the anchor is restored exactly |
| Version3_3.Game.Rotate | Version_3_3/sketch.js:301-310 | the counter-clockwise turn is kept unless it collides; the anchor never changes |
| Version3_3.Game.Update | Version_3_3/sketch.js:312-316 | gravity acts only on a piece that is not attached; a blocked step changes nothing |
| Version3_3.Game.KeyPressed | Version_3_3/sketch.js:95-97 | 'r' rotates, and only while a piece is attached |
| Version3_3.Game.PickUp | Version_3_3/sketch.js:125-151 | a press in the bounding box attaches the current piece and leaves the board alone; otherwise a pickable cell (including an unwritten column off the row) becomes a new attached 1 x 1 piece of its value at the pointer and then reads 0, while the piece it replaces keeps its anchor and shape; otherwise nothing changes |
| Version3_3.Game.MousePressed | Version_3_3/sketch.js:100-152 | attached: a collision or an anchor column >= cols restores the anchor with shape and next piece unchanged, otherwise the piece is committed with its shape and let go; not attached: the bounding-box hit, the board pick (new 1 x 1 piece, cell set to 0, the replaced piece untouched) or no change, exactly as `PickUp` |
| Version3_3.Game.Frame | Version_3_3/sketch.js:35-48 | an attached piece follows the pointer; otherwise the piece drops a row iff that fits |

## Left out

- Rendering: `drawBoard`, `Piece.show`, `drawConveyorBelt`, `drawInstructions`, and the Game Over screen. These are canvas output only.
- Setup and assets: `createCanvas`, `frameRate`, `preload`, `loadImage`, `loadSound`, music play/pause, `fullscreen`, `windowResized`, and the 'f'/'p' keys of Version_3_3. These are library calls and I/O.
- Pixel-to-cell conversion (`floor((mouseX - offsetX) / blockSize)`): Version_1_3, Version_2 and Version_3_3 take the pointer as a grid cell. Version_0_1 takes integer pixels, so fractional pointer positions are not modelled.
- The `millis()` timer of Version_2 is the `timerFired` flag of `Frame`, and `lastPieceGeneratedTime` is not modelled.
- `random(...)` is an index argument, `color(...)` an opaque `Paint` value, and `console.log` is dropped.
- The commented-out `draw`, `clearLines` and `removePieceFromBoard` are dead code.
- Version_2's `nextPiece` is declared but never assigned, so it has no field.
- Sketch.Game.Move: stated for dy >= 0, the only steps the source makes (0 or 1). An upward step could throw, and that case is not modelled.
- Version1_3.Game.Move: stated for dy >= 0, the only steps the source makes.
- Version3_3.Game.Move: stated for dy >= 0, the only steps the source makes.
- Version1_3.Game.Rotate: requires an attached piece, since `keyPressed` only calls it then. A rotation of a free-falling piece that throws is not modelled.
- Version3_3.Game.Rotate: requires an attached piece, for the same reason.
- Version2.Game.Rotate: requires an attached piece, for the same reason.
- Version2.Game.RotateBack: requires an attached piece, since only `rotate` calls it.
- Version2.Game.Update: requires the piece not to be attached, since `draw` calls it only then.
- Sketch.Game.PlacePiece: requires the piece to lie on the board. Version0_1.Game.PlacePiece, Version1_3.Game.PlacePiece, Version2.Game.PlacePiece and Version3_3.Game.PlacePiece require the same, because every caller has checked the placement. JavaScript would grow a row on an out-of-range write, and that case is never reached.
- Version3_3.Game.PickUp: an off-row `board[cy][cx] = 0` is modelled by the written entry alone. The row array's new length and its holes are not modelled, because no code reads a row's length, and a hole reads `undefined` just like a column that was never written.
- Exceptions are modelled only as far as `Fault`: a handler whose scan throws stops there. The JavaScript error itself and p5's reaction to it are not modelled.
