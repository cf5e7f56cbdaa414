# Arcade collection: the game rules in Dafny

This project models the integer state machines under four games of an SDL arcade
collection, and proves properties of them. Rendering, audio and window handling are not
modelled. The four games:

- **Tetris** (src/tetris.hpp). A 20 x 10 field of colour numbers and a falling four-point
  piece with a backup copy. The model covers the seven-shape table, the collision test
  `isvalid`, and one `gameplay` call:
  - a guarded horizontal step;
  - a pivot rotation that falls back to the start-of-call snapshot;
  - gravity, which either drops the piece or locks it into the field and spawns the next one;
  - the top-to-bottom line-clear pass and the score.
  It also covers the game-over test on row 0.
- **MindMaze** (src/puzzle.hpp). A 4 x 4 sliding puzzle over a permutation of 0..15, where 15
  is the empty tile. Arrow keys swap the empty tile with a neighbour; left and right wrap
  around rows in row-major order. The model also covers the solved test, the timer text and
  the won / timed-out decision.
- **AstroStrike** (src/astrostrike.hpp). A player ship that moves and fires the first idle
  bullet. Bullets rise and hit small enemies (one point each) and large enemies (three hits,
  ten points). Enemies fall and are recycled at the top. New enemies spawn each frame under
  a cap of 20 small and 2 large. The model covers the 20-second timer and its text.
- **PingPong** (src/pingpong.hpp). Two keyboard paddles and a ball that bounces off the top
  and bottom walls and off the paddles. A ball reaching a side gives the other player a
  point and is served again. The game stops once a player has 10.

How the model is built:

- Each game has a pure description on values: a state datatype, one function per step,
  and an invariant with lemmas about them.
- Each game also has a class with the source's own fields, updated in place:
  - the Tetris field and the puzzle grid are `array2<int>`;
  - the Tetris point arrays are `array<Point>`;
  - the AstroStrike vectors are `seq` fields;
  - the PingPong rectangles are `Rect` fields.
- Every method is proved to compute its step function, through a ghost `View()` of the
  object.
- Input that SDL supplies becomes parameters: the polled events, the held keys and the
  clock.
- Every `rand()` draw also becomes a parameter: either a raw number reduced with the
  source's own `%`, or a function `rng` read at a running draw counter `rolls`.
- The shuffle of the puzzle becomes a sequence of swaps.
- `Uint32` arithmetic is written out modulo 2^32.
- `SDL_HasIntersection` becomes the predicate `Sdl.Intersects`, written from the library's
  definition: both rectangles non-empty and overlapping on both axes.

## Model

| member | source | states |
|---|---|---|
| TimeText.Digits | src/astrostrike.hpp:262 | `to_string` of a natural number: a non-empty string of decimal digits, one digit exactly below 10, no leading zero |
| TimeText.DigitsRoundTrip | src/astrostrike.hpp:262 | reading the decimal text of `n` back gives `n` |
| TimeText.PaddedSeconds | src/astrostrike.hpp:264-269 | seconds below 60 as exactly two digits, zero-padded, that read back as the seconds |
| TimeText.FormatTime | src/astrostrike.hpp:256-272 | `formatTime` (identical in src/puzzle.hpp:200-216): the digits before the colon read as `ms / 60000`, and the two after it read as `(ms / 1000) % 60` |
| TetrisRules.Figure | src/tetris.hpp:411-420 | each of the seven shapes decodes (`x = v % 4`, `y = v / 4`) to four distinct points with x in 0..3 and y in 0..1 |
| TetrisRules.ShapeOf | src/tetris.hpp:106 | the shape drawn is an index into the seven-entry table |
| TetrisRules.ColorOf | src/tetris.hpp:105 | the colour drawn lies in 1..7 |
| TetrisRules.Rotated | src/tetris.hpp:199-208 | the rotation keeps the pivot point `items[2]` fixed |
| TetrisRules.RotateFourTimes | src/tetris.hpp:199-208 | four unguarded quarter turns give back the original four points |
| TetrisRules.FitsInsideField | src/tetris.hpp:172-181 | for points at or below row 0, `isvalid` holds exactly when every point lies inside the field on an empty cell |
| TetrisRules.LockPaintsExactlyThePiece | src/tetris.hpp:220-222 | locking writes the colour into exactly the cells the piece covers, and every other cell keeps its value |
| TetrisRules.LockKeepsRange | src/tetris.hpp:220-222 | locking with a colour in 1..7 keeps every cell in 0..7 |
| TetrisRules.ClearLinesCompacts | src/tetris.hpp:229-252 | the clearing pass in closed form. Every complete row below row 0 disappears, and the other rows keep their order at the bottom. The top fills with copies of the old row 0, which is never emptied. The count is the number of complete rows, row 0 included |
| TetrisRules.NoCompleteRowAfterClear | src/tetris.hpp:229-252 | unless row 0 is complete, no complete row remains after the pass |
| TetrisRules.ApplyEvents | src/tetris.hpp:138-167 | the polled events change only `running`, `rotate` and `dx`. `running` ends false exactly when it was false or a Quit or Escape was polled; `rotate` ends true exactly when it was true or Up was pressed; `dx` ends -1 or 1 or unchanged |
| TetrisRules.ApplyEventsSteer | src/tetris.hpp:154-159 | `dx` ends as the step of the last Left or Right key-down of the frame, and unchanged when there is none |
| TetrisRules.HandleStep | src/tetris.hpp:135-171 | the held down key sets the delay to 50, otherwise it is kept; field, piece and score are untouched; the invariant is kept |
| TetrisRules.MoveStep | src/tetris.hpp:188-197 | the horizontal step is all-or-nothing: either every point moves by exactly `dx` and the result fits, or the points are unchanged. With `dx` non-zero and a moved piece that fits, the piece moves; with `dx` zero it stays |
| TetrisRules.RotateStep | src/tetris.hpp:199-212 | the result is the turned piece when a rotation is asked and it fits, the start-of-call snapshot when it does not fit, and the unchanged piece when no rotation is asked |
| TetrisRules.BlockedRotationCancelsMove | src/tetris.hpp:185-212 | a horizontal step that succeeded is undone when the rotation of the same call is blocked |
| TetrisRules.Elapsed | src/tetris.hpp:214 | unsigned `currentTime - startTime` lies in 0..2^32-1 and is the plain difference when no wrap occurs |
| TetrisRules.Initial | src/tetris.hpp:64-111 | the start state satisfies the engine invariant, is running and has score 0 |
| TetrisRules.GameplayStep | src/tetris.hpp:259-261 | after `gameplay`, `dx` is 0, `rotate` is false and the delay is 300; `running` and the clock are untouched |
| TetrisRules.ClearAndReset | src/tetris.hpp:229-261 | the tail of `gameplay`: after the clearing pass and the score, `dx` is 0, `rotate` is false and the delay is 300; `running` and the clock are untouched |
| TetrisRules.GameplayKeepsInvariant | src/tetris.hpp:182-262 | `gameplay` keeps the field's shape, the cells in 0..7, the piece inside the columns, the colours, and the non-negative score and delay |
| TetrisRules.MoveRotateKeepsInvariant | src/tetris.hpp:185-212 | the guarded move followed by the guarded rotation keeps the engine invariant |
| TetrisRules.FallKeepsInvariant | src/tetris.hpp:214-227 | gravity, dropping or locking and spawning, keeps the engine invariant |
| TetrisRules.ClearKeepsInvariant | src/tetris.hpp:229-261 | the clearing pass, the score update and the resets keep the engine invariant |
| TetrisRules.GameplayScore | src/tetris.hpp:229-258 | the score rises by exactly 10 per complete row of the field the pass starts from, and never falls |
| TetrisRules.FallLocksPiece | src/tetris.hpp:214-227 | when gravity cannot drop the piece, exactly its pre-drop cells get its colour. The upcoming piece and colour take over, and `startTime` becomes `currentTime` |
| TetrisRules.FallMovesDown | src/tetris.hpp:214-226 | when the drop fits, the piece moves one row down, the field is untouched and `startTime` becomes `currentTime` |
| TetrisGame.Tetris.constructor | src/tetris.hpp:64-111 | `initialize` then `firstTetrimino`: the state is the start state of the pure model |
| TetrisGame.Tetris.FirstTetrimino | src/tetris.hpp:102-112 | the falling piece and colour are the decoded shape and the colour of the two draws |
| TetrisGame.Tetris.NextTetrimino | src/tetris.hpp:113-123 | the upcoming piece and colour are the decoded shape and the colour of the two draws |
| TetrisGame.Tetris.CurrentTetrimino | src/tetris.hpp:124-134 | the upcoming piece and colour become the falling ones, and a new upcoming piece is drawn |
| TetrisGame.Tetris.SetCurrentTime | src/tetris.hpp:52-56 | only the clock changes |
| TetrisGame.Tetris.HandleEvents | src/tetris.hpp:135-171 | the new state is the pure `HandleStep` of the old one |
| TetrisGame.Tetris.IsValid | src/tetris.hpp:172-181 | the loop's answer is the collision predicate on the array contents |
| TetrisGame.Tetris.SaveBackup | src/tetris.hpp:185-186 | the backup equals the piece |
| TetrisGame.Tetris.RestoreBackup | src/tetris.hpp:194-196 | the piece equals the backup |
| TetrisGame.Tetris.TranslateItems | src/tetris.hpp:190-193 | every point moves by the given offset |
| TetrisGame.Tetris.RotateItems | src/tetris.hpp:199-208 | the loop, turning each point about a copy of the pivot, gives the pure rotation |
| TetrisGame.Tetris.LockBackup | src/tetris.hpp:220-222 | the field becomes the pure `Lock` of the backup points |
| TetrisGame.Tetris.RowComplete | src/tetris.hpp:232-240 | the inner scan answers whether the row has no empty cell |
| TetrisGame.Tetris.ShiftRowsDown | src/tetris.hpp:244-250 | rows `1..i` take the rows above them, and the other rows are unchanged |
| TetrisGame.Tetris.ClearCompletedLines | src/tetris.hpp:229-252 | the in-place pass computes the pure clearing pass and its count |
| TetrisGame.Tetris.MoveAndRotate | src/tetris.hpp:185-212 | the piece becomes the pure guarded move followed by the guarded rotation |
| TetrisGame.Tetris.MoveItems | src/tetris.hpp:188-197 | with the backup equal to the piece, the piece becomes the pure guarded horizontal step |
| TetrisGame.Tetris.RotateItemsIfAsked | src/tetris.hpp:199-212 | the piece becomes the pure guarded rotation, falling back to the backup |
| TetrisGame.Tetris.GravityTick | src/tetris.hpp:214-227 | when the delay has passed the state becomes the pure `Fall`, otherwise it is unchanged |
| TetrisGame.Tetris.ClearAndScore | src/tetris.hpp:229-261 | the in-place clearing pass, the score update and the resets compute the pure `ClearAndReset` |
| TetrisGame.Tetris.Gameplay | src/tetris.hpp:182-262 | the new state is the pure `GameplayStep`, and the invariant is kept |
| TetrisGame.Tetris.CheckGameOver | src/tetris.hpp:349-358 | the game is over exactly when row 0 holds a block, and then `running` becomes false |
| TetrisGame.Tetris.Frame | src/tetris.hpp:394-400 | one loop pass (clock, events, `gameplay`, game-over check) is the composition of the pure steps |
| MindMaze.Swap | src/puzzle.hpp:178 | a swap exchanges two cells, leaves every other cell and keeps the multiset of tiles |
| MindMaze.EmptyCell | src/puzzle.hpp:96-110 | the search finds the cell holding the empty tile 15 |
| MindMaze.Partner | src/puzzle.hpp:120-167 | the cell a key swaps with: Up the one below, Down the one above, Left the row-major successor, Right the predecessor, when it exists; never the empty cell itself, and none for any other key |
| MindMaze.KeyStep | src/puzzle.hpp:112-179 | a key keeps the grid a permutation of 0..15 |
| MindMaze.KeyStepSwaps | src/puzzle.hpp:120-179 | a key swaps the empty tile with its partner cell, and leaves the grid alone when there is none |
| MindMaze.OppositeKeyUndoes | src/puzzle.hpp:120-179 | after a key that moved a tile, the opposite key restores the grid |
| MindMaze.BlockedKeyKeepsBoard | src/puzzle.hpp:126-179 | a key with no legal neighbour, or any other key, leaves the grid unchanged |
| MindMaze.AimedIsPartner | src/puzzle.hpp:117-125 | when no wrap applies, the cell the key aims at, if in the grid and adjacent, is the partner cell |
| MindMaze.ApplySwaps | src/puzzle.hpp:56-57 | a shuffle by swaps keeps the multiset of tiles |
| MindMaze.KeySteps | src/puzzle.hpp:84-182 | the events of one frame, each key-down a `KeyStep` in order, keep the grid a permutation of 0..15; a frame with no key-down leaves it unchanged |
| MindMaze.Decide | src/puzzle.hpp:305-318 | the puzzle is won exactly when solved; a solved grid takes priority; the game times out exactly when unsolved at or after the end time |
| MindMaze.RemainingTime | src/puzzle.hpp:240 | the remaining time is clamped at 0: zero exactly when the end time has passed, and otherwise what is left |
| MindMaze.MindMaze.constructor | src/puzzle.hpp:33-61 | the grid is the identity arrangement shuffled by the given swaps; the end time is the start time plus 100 seconds, modulo 2^32 |
| MindMaze.MindMaze.FillInOrder | src/puzzle.hpp:42-54 | the nested loops leave `grid[i][j] == 4*i + j` |
| MindMaze.MindMaze.SwapCells | src/puzzle.hpp:178 | the in-place swap is the flat `Swap` of the two cells |
| MindMaze.MindMaze.Shuffle | src/puzzle.hpp:56-57 | the shuffled grid is the flat `ApplySwaps` of the old one |
| MindMaze.MindMaze.FindEmpty | src/puzzle.hpp:96-110 | the nested search returns the row and column of the empty tile |
| MindMaze.MindMaze.WrapLeft | src/puzzle.hpp:126-140 | Left with the empty tile in the last column swaps it with the first cell of the next row, or with nothing in the last row |
| MindMaze.MindMaze.WrapRight | src/puzzle.hpp:147-161 | Right with the empty tile in the first column swaps it with the last cell of the previous row, or with nothing in the first row |
| MindMaze.MindMaze.TradeGap | src/puzzle.hpp:131-159 | swapping the empty cell with its partner for the key performs the pure `KeyStep` and keeps the grid a permutation |
| MindMaze.MindMaze.SwapIfAdjacent | src/puzzle.hpp:173-179 | the aimed cell is swapped with the empty one exactly when it is in the grid and adjacent |
| MindMaze.MindMaze.SwitchOnKey | src/puzzle.hpp:115-171 | Escape stops the game; a wrap performs its swap and aims at nothing; otherwise the key aims at the neighbour |
| MindMaze.MindMaze.HandleEvent | src/puzzle.hpp:82-182 | a key-down event turns the grid into the reference `KeyStep`, and other events leave it alone; Quit and Escape stop the game |
| MindMaze.MindMaze.HandleEvents | src/puzzle.hpp:82-182 | the polling loop turns the grid into `KeySteps` of the frame's events, and `running` ends false exactly when it was false or a Quit or Escape was polled |
| MindMaze.MindMaze.IsPuzzleSolved | src/puzzle.hpp:184-199 | the answer is true exactly when `grid[i][j] == 4*i + j` for every cell |
| MindMaze.MindMaze.Update | src/puzzle.hpp:305-318 | records whether the grid is solved and decides won, timed out or playing; the game stops, after the delay, unless still playing |
| MindMaze.MindMaze.RenderClock | src/puzzle.hpp:238-241 | records the clock and gives `formatTime` of the remaining time, clamped at 0 |
| MindMaze.MindMaze.Frame | src/puzzle.hpp:322-327 | one pass of `run`: the grid becomes `KeySteps` of the events; the outcome is decided on the new grid with the clock the previous `render` read; the game keeps running only without Quit or Escape and while still playing; the clock text is then formatted |
| AstroRules.Initial | src/astrostrike.hpp:74-83 | the start state: the invariant holds and the score is 0. The end time is the start plus 20 seconds, modulo 2^32 |
| AstroRules.Steer | src/astrostrike.hpp:195-204 | only the player's x changes. It moves left only when Left is held and x > 0, and right only when Right is held and the ship is short of the right edge. With one arrow held and its guard met it moves exactly 5 pixels; with neither it stays |
| AstroRules.SteerStaysOnScreen | src/astrostrike.hpp:195-204 | steering keeps the player inside the screen on the grid of 5-pixel steps |
| AstroRules.FirstIdle | src/astrostrike.hpp:208-212 | the index found is the first inactive bullet, or the end of the list when all are active |
| AstroRules.Launch | src/astrostrike.hpp:213-217 | the launched bullet is active at the player's y, centred on the player |
| AstroRules.Fire | src/astrostrike.hpp:206-220 | only the first idle bullet changes, and it is launched |
| AstroRules.FireLaunchesOne | src/astrostrike.hpp:206-220 | firing activates exactly one bullet when one is idle, and none otherwise |
| AstroRules.SmallPassHitsAllOverlapping | src/astrostrike.hpp:314-335 | the small-enemy loop in closed form. Every live enemy the bullet overlaps is switched off, one point each. The bullet is switched off exactly when it hit. After a hit the check-point flag says whether the score is a positive multiple of 10. Nothing else changes |
| AstroRules.LargeEnemyTakesThreeHits | src/astrostrike.hpp:340-356 | a fresh large enemy survives two hits and dies on the third |
| AstroRules.KillsFrom | src/astrostrike.hpp:346-350 | no more large enemies are killed than are hit |
| AstroRules.LargePassHitsAllOverlapping | src/astrostrike.hpp:337-357 | the large-enemy loop in closed form. Every overlapped live large enemy takes one hit, and the score rises by 10 per kill. The bullet is switched off exactly when it hit. The "good job" flag is unchanged without a hit; after hits it says whether the last enemy hit was killed, so it ends set when every hit kills and cleared when none does |
| AstroRules.SmallPassEnemies | src/astrostrike.hpp:314-321 | from enemy `j` on, exactly the live small enemies the bullet overlaps are switched off |
| AstroRules.SmallPassBullet | src/astrostrike.hpp:317-319 | the bullet is switched off exactly when it overlaps a live small enemy from `j` on |
| AstroRules.SmallPassScore | src/astrostrike.hpp:322-333 | the score rises by one per hit, and after a hit the check-point flag says whether the score is a positive multiple of 10 |
| AstroRules.SmallPassFrame | src/astrostrike.hpp:314-335 | the small-enemy loop changes only the bullets, the small enemies, the score and the check-point flag |
| AstroRules.LargePassEnemies | src/astrostrike.hpp:337-348 | from large enemy `j` on, each overlapped live large enemy loses one health and dies at 0 or below; the others are unchanged |
| AstroRules.LargePassBullet | src/astrostrike.hpp:340-342 | the bullet is switched off exactly when it overlaps a live large enemy from `j` on |
| AstroRules.LargePassScore | src/astrostrike.hpp:346-355 | the score rises by 10 per kill, and the "good job" flag is unchanged without a hit |
| AstroRules.LargePassFlag | src/astrostrike.hpp:340-355 | every hit sets the "good job" flag on a kill and clears it otherwise, so after the loop it tells whether the last large enemy hit was killed; without a hit it is unchanged |
| AstroRules.LargePassFrame | src/astrostrike.hpp:337-357 | the large-enemy loop changes only the bullets, the large enemies, the score and the "good job" flag |
| AstroRules.BulletsScoreMonotone | src/astrostrike.hpp:301-360 | the bullet loop never lowers the score |
| AstroRules.BulletStepCases | src/astrostrike.hpp:303-359 | one bullet's turn: an idle bullet changes nothing; a bullet rising past the top is only switched off, with no hit test and nothing else changed; otherwise it stays where it rose to, scores one point per small enemy and ten per large kill, and stays live exactly when it overlapped no live enemy |
| AstroRules.Recycled | src/astrostrike.hpp:368-372 | a recycled enemy restarts above the screen (y in -499..0) in a column where it fits, with its size kept |
| AstroRules.MoveSmallKeepsOnScreen | src/astrostrike.hpp:362-375 | after the movement loop, no live enemy is below the bottom, a recycled one fits its column, and sizes, speeds and flags are kept |
| AstroRules.MoveLargeKeepsOnScreen | src/astrostrike.hpp:377-390 | as for small enemies; a large enemy's health is either kept or reset to 3 |
| AstroRules.MoveSmallMovesEach | src/astrostrike.hpp:362-375 | each small enemy from `j` on: an idle one is untouched; a live one falls by exactly its speed; one that would pass the bottom restarts with y in -499..0 in a column where it fits, its size, speed and flag kept |
| AstroRules.MoveLargeMovesEach | src/astrostrike.hpp:377-390 | each large enemy from `j` on: as for small enemies, and one that restarts above the screen has its health reset to 3 |
| AstroRules.MoveSmalls | src/astrostrike.hpp:362-375 | the small-enemy movement loop on the whole state leaves the large enemies alone |
| AstroRules.MoveSmallsKeepsValid | src/astrostrike.hpp:362-375 | the small-enemy movement loop keeps the world invariant and the score |
| AstroRules.MoveLargesKeepsValid | src/astrostrike.hpp:377-390 | the large-enemy movement loop keeps the world invariant and the score |
| AstroRules.NewEnemy | src/astrostrike.hpp:514-517 | a spawned small enemy is live, 50 x 50, speed 1..5, above the screen and inside the columns |
| AstroRules.NewLarge | src/astrostrike.hpp:527-530 | a spawned large enemy is live, 100 x 100, speed 1, health 3, above the screen |
| AstroRules.SpawnRespectsCaps | src/astrostrike.hpp:488-532 | one small enemy is appended exactly when fewer than 20 are live, and one large enemy exactly when fewer than 2 are. Nothing else changes |
| AstroRules.AddEnemyKeepsValid | src/astrostrike.hpp:507-517 | appending a well-formed small enemy while fewer than 20 are live keeps the world invariant |
| AstroRules.AddLargeKeepsValid | src/astrostrike.hpp:520-531 | appending a well-formed large enemy while fewer than 2 are live keeps the world invariant |
| AstroRules.RemainingTime | src/astrostrike.hpp:450 | the timer text's argument is a 32-bit unsigned value |
| AstroRules.RemainingTimeWraps | src/astrostrike.hpp:450 | before the end it is the time left; past the end the unsigned difference wraps to `2^32 - (now - end)` |
| AstroRules.HandleKeepsValid | src/astrostrike.hpp:176-221 | input handling keeps the world invariant |
| AstroRules.UpdateKeepsValid | src/astrostrike.hpp:290-391 | `update` keeps the world invariant and never lowers the score |
| AstroRules.SpawnKeepsValid | src/astrostrike.hpp:488-532 | spawning keeps the invariant, including at most 20 live small and 2 live large enemies |
| AstroRules.FrameKeepsValid | src/astrostrike.hpp:484-548 | a whole frame of `run` keeps the invariant |
| AstroRules.FrameScoreMonotone | src/astrostrike.hpp:484-548 | the score never decreases over a frame |
| AstroGame.AstroStrike.constructor | src/astrostrike.hpp:457-481 | the object starts in the pure start state |
| AstroGame.AstroStrike.HandleEvents | src/astrostrike.hpp:176-221 | the program exits exactly on Quit or Escape, and otherwise the state becomes the pure `HandleStep` |
| AstroGame.AstroStrike.FireBullet | src/astrostrike.hpp:206-220 | the loop with `break` computes the pure `Fire` |
| AstroGame.AstroStrike.Update | src/astrostrike.hpp:290-391 | the new state is the pure `UpdateStep` of the old one; the clock is set to `now` and the end time is kept |
| AstroGame.AstroStrike.MoveBullets | src/astrostrike.hpp:301-360 | the bullet loop computes the pure bullet pass |
| AstroGame.AstroStrike.MoveBullet | src/astrostrike.hpp:303-359 | one bullet's turn computes the pure `BulletStep`: rise, leave at the top, or check both enemy kinds |
| AstroGame.AstroStrike.HitEnemies | src/astrostrike.hpp:314-335 | the small-enemy loop computes the pure pass |
| AstroGame.AstroStrike.HitEnemy | src/astrostrike.hpp:316-334 | one test of a bullet against a small enemy computes the pure `SmallStep` |
| AstroGame.AstroStrike.HitLargeEnemies | src/astrostrike.hpp:337-357 | the large-enemy loop computes the pure pass |
| AstroGame.AstroStrike.HitLargeEnemy | src/astrostrike.hpp:339-356 | one test of a bullet against a large enemy computes the pure `LargeStep` |
| AstroGame.AstroStrike.MoveEnemies | src/astrostrike.hpp:362-375 | the movement loop computes the pure movement and draw count |
| AstroGame.AstroStrike.MoveEnemy | src/astrostrike.hpp:364-373 | one small enemy's move, with any recycle draws, is the pure `MoveSmallStep` |
| AstroGame.AstroStrike.MoveLargeEnemies | src/astrostrike.hpp:377-390 | the movement loop computes the pure movement and draw count |
| AstroGame.AstroStrike.MoveLargeEnemy | src/astrostrike.hpp:379-389 | one large enemy's move, with any recycle draws and health reset, is the pure `MoveLargeStep` |
| AstroGame.AstroStrike.CountActiveEnemies | src/astrostrike.hpp:488-494 | the count is the number of live small enemies |
| AstroGame.AstroStrike.CountActiveLargeEnemies | src/astrostrike.hpp:496-502 | the count is the number of live large enemies |
| AstroGame.AstroStrike.SpawnEnemies | src/astrostrike.hpp:504-532 | the spawning block computes the pure `SpawnStep` |
| AstroGame.AstroStrike.SpawnEnemy | src/astrostrike.hpp:507-517 | given the live count, a small enemy is appended exactly as the pure `SpawnSmall` says |
| AstroGame.AstroStrike.SpawnLargeEnemy | src/astrostrike.hpp:520-531 | given the live count, a large enemy is appended exactly as the pure `SpawnLarge` says |
| AstroGame.AstroStrike.RemainingText | src/astrostrike.hpp:450 | the timer text is `formatTime` of the unsigned time left |
| AstroGame.AstroStrike.TimeUp | src/astrostrike.hpp:534-535 | records the clock and reports whether the end time is reached |
| AstroGame.AstroStrike.Frame | src/astrostrike.hpp:484-548 | exits on Quit or Escape; otherwise runs the pure frame, keeps the invariant and reports the end of the game; the timer text is `formatTime` of the time left before the end, as read by `update` |
| AstroGame.AstroStrike.Advance | src/astrostrike.hpp:485-535 | `update`, the timer, spawning and the clock check give the pure update then spawn, with `currentTime` set to the late reading; the end time is kept, the timer is `formatTime` of the time left at `now`, and the game is over iff the late reading reaches the end time |
| Pong.Initial | src/pingpong.hpp:86-99 | the start state satisfies the table invariant, is running and has both scores at 0 |
| Pong.MovePaddle | src/pingpong.hpp:119-134 | a paddle moves only vertically, by -7, 0 or 7. It moves up only when up is held and y > 0, and down only when down is held and y + h < 700. With one key held and its guard met it moves exactly 7; with neither it stays |
| Pong.PaddleStaysNearWindow | src/pingpong.hpp:119-134 | a paddle never ends more than one step beyond the window |
| Pong.PaddleCanOvershoot | src/pingpong.hpp:119-122 | the guard is tested before the step, so a paddle at y = 2 ends at y = -5 |
| Pong.HandleKeepsValid | src/pingpong.hpp:103-140 | input handling keeps the table invariant |
| Pong.AtMostOnePoint | src/pingpong.hpp:320-336 | scores never fall, and at most one rises per update. The right score rises exactly when the ball reaches the left edge, and the left score exactly when it reaches the right edge instead |
| Pong.StopsAfterMaxScore | src/pingpong.hpp:293-296 | `running` ends false exactly when it was false or a score was already 10 before the update |
| Pong.PointServesFromCentre | src/pingpong.hpp:320-336 | after a point the ball is at the centre, heading towards the side that scored |
| Pong.ContactsFlipSpeeds | src/pingpong.hpp:298-318 | away from the sides, each paddle contact alone reverses the horizontal speed, and both contacts together leave it unchanged. The walls reverse the vertical speed |
| Pong.ServedBallStaysInPlay | src/pingpong.hpp:320-336 | a served ball cannot reach a side on the next update |
| Pong.UpdateKeepsValid | src/pingpong.hpp:287-336 | an update of a running game keeps the invariant. The speeds stay ±4, the ball stays between the sides and at most one step past a wall heading back, and no score passes 10 |
| Pong.GameOverNamesFirstToMax | src/pingpong.hpp:392 | the update that stops the game scores no point, and the winner shown is the one player who reached 10 first |
| Pong.PingPong.constructor | src/pingpong.hpp:28-45 | the object starts in the pure start state |
| Pong.PingPong.HandleEvents | src/pingpong.hpp:103-140 | exits on a polled Quit, before anything moves, or on a held Escape; the state becomes the pure `HandleStep` |
| Pong.PingPong.Update | src/pingpong.hpp:287-336 | the new state is the pure `UpdateStep` of the old one |
| Pong.PingPong.Bounce | src/pingpong.hpp:298-318 | the walls flip the vertical speed, and each paddle contact flips the horizontal speed |
| Pong.PingPong.ScorePoint | src/pingpong.hpp:320-336 | a ball at a side scores for the other player and is served again; otherwise nothing changes |
| Pong.PingPong.Frame | src/pingpong.hpp:52-57 | one loop pass of a running game is input then update, and keeps the invariant |

## Left out

- Rendering, textures, fonts, text layout and audio are not modelled: every `render*`
  function, `updateRender`, `loadMedia`/`loadTexture`, the `display*Message` functions and
  `Mix_*`. They hold no game logic.
- The score texts that PingPong's `update` builds after its scoring step are not modelled.
  They are only drawn.
- Event polling, `SDL_GetKeyboardState` and `SDL_GetTicks` are parameters: the polled
  events, the held keys and the current time.
- `rand()`, `srand` and the Mersenne-Twister shuffle are not modelled as generators:
  - Tetris takes raw draws as parameters;
  - AstroStrike reads a function `rng` at a running draw counter;
  - the puzzle's initial shuffle is an arbitrary sequence of swaps.
- The busy-wait delays (`delay`, `delay_`, `SDL_Delay`) are not modelled; the end of each
  game is taken at the point where they set `running` to false. Events polled during the
  puzzle's two-second delay are dropped.
- `exit(0)` in AstroStrike and PingPong is not modelled as a process exit. The method
  reports it through its `exit` result and changes nothing further.
- The AstroStrike high-score file `Score.txt` is file I/O and is not modelled.
- The failure paths of `initialize`/`loadMedia` (a missing image, font or sound) are not
  modelled, nor the early `return` of AstroStrike's spawning block when an enemy texture
  fails to load. The model starts from a successful initialisation.
- src/mainMenu.hpp is not part of this model: it is menu flow and file reading.
- src/abstract.hpp is not part of this model: it is the SDL bootstrap. Only its default
  700 x 700 window size is used, by PingPong.
- src/spookyChase.hpp is not part of this model: it uses floating-point motion and
  string-keyed state.
- TetrisRules.PointFits: `isvalid` has no lower bound on `y`, so a piece turned above row 0
  reads memory in front of the field. The value read is a caller-supplied function
  `stray`, and the result is not otherwise constrained.
- TetrisRules.Lock: a locked point above row 0 would be written outside the field. The
  model leaves the field unchanged for such a point, since the memory it overwrites is
  not part of the model.
- TetrisRules.GameplayStep: the score is an unbounded integer, so `int` overflow after
  about 2^31 / 10 cleared rows is not modelled.
- MindMaze.MindMaze.constructor: the source reads `currentTime` in the first `update`
  before any render has set it, so its value there is indeterminate. The model starts it
  at 0.
- AstroGame.AstroStrike.constructor: the source never initialises `gameover`, and `render`
  reads it before time runs out. The model starts it at false.
- Sdl.Intersects: `SDL_HasIntersection` is a library call. The model uses the library's
  documented meaning: both rectangles non-empty and overlapping on both axes.
- Pong.UpdateKeepsValid: the invariant is proved only for updates of a running game.
  These are the only ones the loop in `run` makes.
