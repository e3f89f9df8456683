# terminal-puyo game engine in Dafny

This project models the game-state engine of terminal-puyo (`src/puyo.c`), a falling-block
puzzle. A vertical domino of two coloured cells falls into a 10-wide, 20-high board. It locks
when it can fall no further. Every 4-connected group of four or more cells of one colour is
removed, the cells above fall, and the chain of clear passes scores with a growing multiplier.

The model has seven modules:

- `Board` is the playfield. The two integer grids `board` and `board_color` are seen as one
  grid of `Cell(occ, color)`. The invariant `Consistent` says a cell is empty exactly when
  its colour is 0.
- `Piece` is the 3x3 piece: `isCorner`, `makeBlock` with the two colour draws as parameters,
  and the two rotations, as functions.
- `Collision` holds the collision test as a predicate, the ordered kick search (`FirstFit`),
  the commit of a piece into a board (`Place`) and the row a hard drop stops at (`DropRow`).
- `Gravity` holds one double-buffered gravity step (`GravityStep`, defined column by column)
  and full gravity (`Settle`).
- `Groups` holds the same-colour components, the recursive flood fill as functions
  (`Fill`/`Spread`/`FillPair`), and the clear pass (`ClearPass`).
- `Cascade` holds the scoring formula, the counter update of one clear pass (`AfterPass`) and
  the waves of a cascade (`Waves`).
- `Game.Session` is a class holding the C globals as fields. The two grids and the `visited`
  array are `array2` fields that its methods update in place, as the C code does. Each
  method is proved against the functions above: `checkCollision`, `attemptRotation`,
  `placeBlock`, `hardDrop`, `gravityFailSafe`, `gravity`, `dfs`, `clearGroups`,
  `lock_and_cascade`, and the main loop's key and fall-tick handling.

The chain multiplier of `src/puyo.c:532` is the `double` `1.0 + 0.5 * chain`. The main loop's
extra calls (`src/puyo.c:621`, `641`) pass `1`. So the points `(int)(cnt * 100 * mult)` of a
group are exactly the integer `cnt * 50 * (2 + chain)`. The model uses that integer formula,
with chain 0 for the main loop's calls.

Two consequences of the code:

- The cascade does not always leave a board without clearable groups. When its first clear
  pass removes nothing, the final `gravity()` (`src/puyo.c:548`) can make a new group of
  four, and the loop ends anyway (`src/puyo.c:549`). The main loop's `clearGroups(1)` after
  a lock is therefore not redundant. `LockAndCascade` promises only a settled board;
  `Cascade.WavesEnd` promises no clearable group only on the board the waves stop on, before
  that final gravity; `LockPiece` models the extra `gravity(); clearGroups(1)`.
- A new piece's two filled cells are in local column 1 (`src/puyo.c:86-87`). At the spawn
  position `cx = WIDTH / 2 - 1 = 4` they are in board column 5.

## Model

| member | source | states |
|---|---|---|
| Board.EmptyGrid | src/puyo.c:23-24 | the zero-initialised board: every cell is empty and the board invariant holds |
| Piece.IsCorner | src/puyo.c:71-73 | true exactly on the cells of the 3x3 matrix whose row and column both differ from the centre 1 |
| Piece.MakeBlock | src/puyo.c:82-91 | the new piece is well formed; its filled cells are exactly (0,1) and (1,1); their colours are `1 + draw % maxColors` for the two draws |
| Piece.RotateRight | src/puyo.c:123-138 | the clockwise turn leaves all four corners empty, in shape and in colour |
| Piece.RotateLeft | src/puyo.c:147-162 | the counter-clockwise turn leaves all four corners empty, in shape and in colour |
| Piece.RotationMovesCells | src/puyo.c:127-153 | every non-corner cell (y, x) moves to (x, 2-y) under a clockwise turn and to (2-x, y) under a counter-clockwise turn, with its colour |
| Piece.RotationsInverse | src/puyo.c:123-162 | on a piece with empty corners, the left turn undoes the right turn and the right turn undoes the left turn |
| Piece.FourTurnsIdentity | src/puyo.c:123-162 | on a piece with empty corners, four right turns and four left turns each give the piece back |
| Piece.RotationKeepsWellFormed | src/puyo.c:123-162 | both turns keep a piece well formed: 0/1 shape, two filled cells with colours in 1..maxColors, colour 0 elsewhere, empty corners |
| Collision.Collides | src/puyo.c:173-186 | the piece collides exactly when some filled cell is outside the side walls, at or below the floor, or on an occupied square, rows above the top being free; its contract draws the consequence that a piece that does not collide has every filled cell inside the walls, above the floor, and on an empty square or above the top row |
| Collision.FirstFit | src/puyo.c:197-211 | the result is the first kick index whose offset puts the piece where it does not collide; every earlier kick collides; the result is 6 when all do |
| Collision.FirstFitIs | src/puyo.c:200-209 | the kick search is fixed by which kicks collide: if kicks s..i-1 collide and kick i does not (or i is 6), the search from s gives i |
| Collision.Place | src/puyo.c:222-235 | every in-board cell covered by a filled cell of the piece becomes `Cell(1, colour)` with that cell's colour; every other cell keeps its old content |
| Collision.PlaceFillsEmptyCells | src/puyo.c:222-235 | placing a non-colliding well-formed piece keeps the board invariant, changes only empty cells, and puts each in-board filled cell on the board with its colour |
| Collision.PlaceKeepsConsistent | src/puyo.c:222-235 | placing a well-formed piece anywhere keeps the board invariant, since off-board cells are skipped |
| Collision.RaiseKeepsClear | src/puyo.c:173-186 | a piece that does not collide still does not collide when raised in its column, as long as the squares it passes through are empty |
| Collision.FloorStops | src/puyo.c:180 | a well-formed piece whose top-left row is at or below the floor collides |
| Collision.FitsAboveFloor | src/puyo.c:180 | a piece that does not collide has each filled cell above the floor |
| Collision.DropRow | src/puyo.c:471-473 | the hard drop never moves the piece up, passes only rows where it does not collide, and stops where one row lower collides (or at the floor for a piece without filled cells) |
| Collision.DropRowIs | src/puyo.c:471-473 | the hard drop's row is the one row from the start on where the piece collides one row lower and is free on every row it passes |
| Gravity.StepCol | src/puyo.c:278-288 | one gravity step of a column keeps its height; the rows below give its meaning: colours kept in order (`StepColKeepsColors`), each cell landing just above the first occupied cell below (`StepColAt`), weight rising unless settled (`StepColWeight`) |
| Gravity.StepColKeepsColors | src/puyo.c:278-288 | one step keeps a column's top-to-bottom colour sequence |
| Gravity.StepColValid | src/puyo.c:284-285 | one step keeps the board invariant of a column |
| Gravity.StepColSettledFixed | src/puyo.c:280-285 | a step leaves a settled column as it is |
| Gravity.StepColWeight | src/puyo.c:278-288 | a step never lowers the column's sum of occupied row numbers, and raises it when the column is not settled: cells only move down |
| Gravity.StepColAt | src/puyo.c:280-285 | each cell after a step is the cell above it that lands there on the old column, or empty: the drop to just above the first occupied cell below |
| Gravity.PartialCopy | src/puyo.c:280-285 | copying occupied cell (y, x) to its landing row ny in the buffers matches the step on the old board |
| Gravity.PartialEnd | src/puyo.c:278-288 | once the bottom-up scan has passed every cell, the buffers hold exactly one gravity step of the board |
| Gravity.GravityStep | src/puyo.c:273-293 | every column of the result is one column step of the old column |
| Gravity.GravityStepKeepsConsistent | src/puyo.c:284-285 | one board step keeps the board invariant |
| Gravity.GravityStepKeepsColors | src/puyo.c:273-293 | one board step keeps every column's colour sequence, and so each column's number of occupied cells |
| Gravity.GravityStepRaisesWeight | src/puyo.c:314-316 | the board's weight is bounded, never drops, and rises on every step of an unsettled board: the termination of `gravity()` |
| Gravity.GravityStepFixedIffSettled | src/puyo.c:283 | a step leaves the board unchanged exactly when no occupied cell has an empty cell right below it |
| Gravity.Settle | src/puyo.c:314-316 | full gravity gives a settled board that keeps the board invariant and every column's colour sequence |
| Gravity.SettleCompacts | src/puyo.c:314-316 | full gravity stacks each column's occupied cells on the floor in their old top-to-bottom order |
| Gravity.SettleIdempotent | src/puyo.c:314-316 | a settled board is left as it is, so a second full gravity changes nothing |
| Gravity.SettleStep | src/puyo.c:315 | one step before full gravity changes nothing in the result |
| Gravity.SettleKeepsCount | src/puyo.c:314-316 | full gravity keeps the number of occupied cells |
| Gravity.ThinningLowersCount | src/puyo.c:365-369 | emptying an occupied cell, and changing nothing else but emptying cells, lowers the number of occupied cells |
| Groups.ComponentsDisjoint | src/puyo.c:332-344 | two different groups share no cell |
| Groups.ComponentShrinks | src/puyo.c:365-369 | removing cells never joins groups: each group on the thinned board lies inside the old group of the same cell |
| Groups.Fill | src/puyo.c:332-344 | the flood fill only adds to the visited set, and marks its start cell when that cell is in the board, unvisited, occupied and of its colour |
| Groups.FillSound | src/puyo.c:332-344 | the fill starts exactly when its cell is in the board, unvisited, occupied and of its colour; it then marks only cells of that cell's group, appends each once, and leaves every marked cell with all its same-colour neighbours marked; otherwise it changes nothing |
| Groups.FillAgrees | src/puyo.c:334 | the fill reads only unvisited cells, so boards that differ only on visited cells give the same fill |
| Groups.FillCoversComponent | src/puyo.c:339-342 | a fill that has marked p and left every marked cell closed has marked all of p's group |
| Groups.FillFindsGroup | src/puyo.c:358-362 | the fill from an unvisited occupied cell outside the groups found so far marks exactly that cell's group and lists each of its cells once |
| Groups.ScanGroup | src/puyo.c:358-373 | at an unvisited occupied cell the scan marks exactly its group and moves on; it counts the group as removed and found exactly when it has 4 or more cells |
| Groups.ScanDone | src/puyo.c:356-376 | once every occupied cell is visited, the scan has removed exactly the cleared cells of the pass and found exactly its cleared groups |
| Groups.ClearPass | src/puyo.c:353-383 | a clear pass empties exactly the cells of groups of 4 or more and leaves every other cell as it is |
| Groups.ClearedIsWholeGroups | src/puyo.c:363-369 | a group is cleared entirely or not at all |
| Groups.ClearedIsUnionOfGroups | src/puyo.c:363-373 | the cleared cells are exactly the cells of the cleared groups, and each cleared group has at least 4 cells |
| Groups.ClearPassKeepsConsistent | src/puyo.c:367-368 | a clear pass keeps the board invariant |
| Groups.ClearPassLeavesNoGroups | src/puyo.c:353-383 | after a clear pass no group of 4 or more is left, so a second pass right after it changes nothing |
| Groups.ClearPassEmptiesOccupied | src/puyo.c:365-369 | a clear pass only empties cells, and every cleared cell was occupied before and is empty after |
| Cascade.GroupPoints | src/puyo.c:370 | the integer `cnt * 50 * (2 + chain)` equals the C's `cnt * 100 * (1.0 + 0.5 * chain)` exactly, as a real number, so the `(int)` truncation loses nothing; a group of cnt cells scores at least 100 per cell |
| Cascade.GroupPointsAdd | src/puyo.c:370-371 | the points of a pass's cells add up group by group, so adding them per group equals scoring the pass's total |
| Cascade.AfterPass | src/puyo.c:370-381 | the score never drops; a pass without groups adds only the points of its cells; the clears grow by the number of groups; the level rises by one exactly when some group was cleared and clears / 5 >= level, and never by more |
| Cascade.WaveLowersCount | src/puyo.c:531-546 | a pass that clears something, followed by full gravity, leaves fewer occupied cells: the cascade terminates |
| Cascade.Wave | src/puyo.c:533-545 | a wave leaves a consistent settled board, and fewer occupied cells when something was cleared |
| Cascade.IdlePass | src/puyo.c:533-534 | a pass with nothing to clear changes neither the board nor the counters, and ends the waves there |
| Cascade.WavesOn | src/puyo.c:533-545 | the cascade's recurrence unfolded once: when a pass clears something, the rest of the cascade is the cascade from the board gravity leaves after the pass, with the pass's counters and the next chain number |
| Cascade.Waves | src/puyo.c:527-550 | the inner loop of the cascade as a recursion on the number of occupied cells: it keeps the board invariant; where it stops and how the counters move are stated by `WavesEnd` and `WavesStats` |
| Cascade.WavesEnd | src/puyo.c:527-550 | the waves stop on a board with nothing to clear; the chain grows exactly when the first pass clears something; after a clearing pass the board they stop on is settled, so the final gravity leaves it as it is |
| Cascade.WavesStats | src/puyo.c:527-550 | during a cascade the chain only grows, the score and clears never drop, and the level rises by at most one per clearing pass |
| Game.Session.constructor | src/puyo.c:23-41 | a new session: empty board, current and next pieces from four draws (the two `makeBlock` calls of `main`, src/puyo.c:594-595), spawn position (4, 0), score 0, level 1, clears 0, input unlocked, chain display 0, not over |
| Game.Session.CheckCollision | src/puyo.c:173-186 | the loop returns true exactly when the piece collides at (nx, ny) on the board the grids show |
| Game.Session.FindKick | src/puyo.c:200-209 | the loop over the offsets returns the first kick that fits, or 6 |
| Game.Session.AttemptRotation | src/puyo.c:197-211 | succeeds exactly when some kick fits; on success the rotated piece becomes current and moves by the first kick that fits, where it does not collide; on failure the piece and position stay; the board is untouched |
| Game.Session.PlaceBlock | src/puyo.c:222-235 | the grids end showing the old board with the piece placed at (px, py) |
| Game.Session.HardDrop | src/puyo.c:471-473 | the piece never moves up, ends where one row lower collides, passes only free rows, and stops at `DropRow` of its start |
| Game.Session.DropFrom | src/puyo.c:472 | the loop from row y0 stops at a row at or below y0 where one row lower collides, passing only free rows |
| Game.Session.LandingRow | src/puyo.c:281-282 | the inner loop finds the landing row: the cells it passes are empty, the next cell is occupied or the floor, and it moves exactly when the cell is floating |
| Game.Session.StepCell | src/puyo.c:280-286 | handling cell (y, x) writes the buffers as the gravity step does there, and reports a move exactly when the cell is floating |
| Game.Session.StepRow | src/puyo.c:279-287 | handling row y writes the buffers as the gravity step does there, and the moved flag becomes true exactly when some cell of the row floats |
| Game.Session.StepScan | src/puyo.c:274-288 | the bottom-up scan fills the buffers with one gravity step of the board and reports whether the board was unsettled |
| Game.Session.Load | src/puyo.c:290-291 | the copy-back leaves the grids equal to the buffers |
| Game.Session.GravityFailSafe | src/puyo.c:273-293 | the grids end as one gravity step of the old board, and the result is true exactly when the old board was not settled |
| Game.Session.Gravity | src/puyo.c:314-316 | the grids end as full gravity of the old board; the pieces and their position stay |
| Game.Session.Mark | src/puyo.c:335 | the cell joins the visited set and the flag grid keeps mirroring it |
| Game.Session.Dfs | src/puyo.c:332-344 | the recursive fill on the flag grid marks and appends exactly what `Fill` does, and returns whether it started |
| Game.Session.Visit | src/puyo.c:335-342 | marking an open cell, appending it and spreading does what `Spread` does |
| Game.Session.SpreadFrom | src/puyo.c:339-342 | the four recursive calls below, above, right and left do what `Spread` does |
| Game.Session.DfsPair | src/puyo.c:339-342 | two recursive calls in a row do what `FillPair` does |
| Game.Session.ResetMarks | src/puyo.c:354 | every flag is cleared |
| Game.Session.FindGroup | src/puyo.c:358-362 | the fill from an unvisited occupied cell marks exactly its group, lists each cell once, and moves the scan past the cell |
| Game.Session.RemoveCells | src/puyo.c:365-369 | zeroing the listed cells leaves the grids showing the scanned board without the removed cells and the group |
| Game.Session.TakeGroup | src/puyo.c:358-373 | a group of 4 or more is emptied and counted, a smaller one only marked, and the scan invariant moves past the cell |
| Game.Session.ScanCell | src/puyo.c:358-374 | one cell of the scan keeps the scan invariant and counts the cells and groups removed |
| Game.Session.ScanRow | src/puyo.c:357-375 | one row of the scan keeps the scan invariant; the cell and group counts and the summed points match what was removed |
| Game.Session.ScanAll | src/puyo.c:354-376 | the scan leaves the grids as the clear pass does; it returns the number of cleared cells and groups, and the points they score |
| Game.Session.Tally | src/puyo.c:370-381 | the counters move as `AfterPass` says: points added, groups added to clears, level up at most once |
| Game.Session.ClearGroups | src/puyo.c:353-383 | the grids end as the clear pass leaves them; the result is the number of cleared cells; the counters move as `AfterPass` says for the pass's cells and groups; pieces, position, input lock, chain display and game-over flag stay |
| Game.Session.Spawn | src/puyo.c:521-524 | the next piece becomes current at (4, 0) and a new next piece is made from the two draws |
| Game.Session.Lock | src/puyo.c:515-524 | input is locked, the piece is placed into the board, the next piece spawns, and the counters stay |
| Game.Session.WaveStep | src/puyo.c:533-545 | a clear pass at the chain's multiplier, then full gravity when it cleared; it clears exactly when the board has a clearable group; an idle pass leaves the board as it was |
| Game.Session.WaveTurn | src/puyo.c:532-545 | an idle turn leaves board, counters and chain where the cascade stops; a clearing turn lowers the occupied count and leaves the rest of the cascade to the next chain number |
| Game.Session.RunWaves | src/puyo.c:531-546 | the inner loop ends with the board, counters and chain where the waves of the cascade stop, and reports whether any pass cleared |
| Game.Session.CascadeRound | src/puyo.c:529-549 | one round of the outer loop is the waves followed by full gravity |
| Game.Session.RunCascade | src/puyo.c:527-550 | the cascade ends with full gravity of the board the waves stop on, the waves' counters and their chain length; pieces and position stay |
| Game.Session.EndLock | src/puyo.c:553-570 | the chain display ends at the chain's length (0 when nothing cleared), input is unlocked, and the game is over exactly when the current piece collides where it stands |
| Game.Session.LockAndCascade | src/puyo.c:513-571 | place, spawn, cascade, final gravity: the board ends as full gravity of the waves' board, the counters and chain display as the waves leave them, the next piece is current at (4, 0) with a new next piece, input is unlocked, and the game is over exactly when the new piece collides at the spawn position |
| Game.Session.Tidy | src/puyo.c:620-641 | unless the game is over, full gravity and then a clear pass with multiplier 1, counted as `AfterPass` says; nothing else changes |
| Game.Session.LockPiece | src/puyo.c:619-621 | lock and cascade, then, unless the game ended, full gravity and a clear pass with multiplier 1, as `LockedFrom` states from the old board, counters, piece and position |
| Game.Session.Shift | src/puyo.c:612-613 | a side move by dx is taken exactly when the piece fits there; nothing else changes |
| Game.Session.Rotate | src/puyo.c:614-615 | a rotation key goes through the kick search on the unchanged board: the first fitting kick moves the rotated piece there, otherwise nothing changes |
| Game.Session.DropAndLock | src/puyo.c:617-622 | the up key locks the piece at `DropRow` of its position, then runs the lock as `LockedFrom` states |
| Game.Session.Input | src/puyo.c:610-624 | while input is locked no key changes anything; 'q' quits; left/right shift, 'z'/'x' rotate, up hard-drops and locks, as the members above state; down and other keys change neither board nor scalars |
| Game.Session.Fall | src/puyo.c:635-643 | the timed fall moves the piece one row down when it fits there and otherwise locks it as `LockedFrom` states |

## Left out

- Drawing: `drawNextBlock`, `drawBoard`, `drawGhost` and every `mvprintw`, `attron` and `refresh` call are display only.
- `chooseDifficulty` is keyboard I/O. The number of colours is a constructor parameter (at least 1). The fall speed is not modelled.
- `rand()` and `srand(time(NULL))`: each call of `makeBlock` takes its two random numbers as parameters `draw1` and `draw2`.
- Timing: `clock_gettime`, the `double` fall interval, `usleep` and the soft-drop flag `soft` only decide when the fall tick happens. `Fall` is the tick itself, and the down key changes nothing else.
- The main loop's order (`gravity()` at `src/puyo.c:605`, then one key, then the fall tick when due) is not a method. `Gravity`, `Input` and `Fall` model its three steps.
- `fade_timer` is presentation state in floating point and is not modelled.
- `animateGravity` is modelled by `Gravity`, since without its drawing and sleeping it is `gravity()`.
- Game over: `exit(0)`, `endwin` and `getch` become the `over` field. The process ends at that point, and the model does not forbid later calls.
- Game.Session.EndLock: `last_chain` is written once, at the end of the cascade. The C code also writes it after each clearing pass for the display, but its final value is the same.
- Game.Session.Dfs: the C `coords` array and `count` become an appended `seq`. The global `visited` array is mirrored by the ghost set `marked`.
- Game.Session.ScanAll: the points of the groups are summed during the scan and added to `score` once, by `Tally`, at the end of the pass. The C code adds each group's points as it finds the group; the final score is the same because the points add up group by group (`Cascade.GroupPointsAdd`).
- Integer widths: `score` and the other counters are unbounded integers. The C `int` cannot overflow within any realistic game.
