# Terminal dinosaur runner: a verified model of the game tick

This project models the gameplay core of a single-file terminal runner game
(`dino_game.py`). A player stands on a ground line at a fixed column. A space
starts a jump with explicit Euler physics. Obstacles spawn at the right edge
(at most five at a time) and move one column left per tick. The score rises
when an obstacle reaches column 1. The game ends when an obstacle in the
player's column is at least as high as the player, or on Ctrl+C. Each tick
that does not quit then draws the state into a fixed character grid.

Modules:

- `DinoRules` (`rules.dfy`): the constants, the session as a value (`State`),
  and one tick as functions: key handling (`HandleKey`), the physics step
  (`Physics`), spawning (`Spawn`), moving and dropping obstacles (`Advance`),
  scoring (`Scores`), the collision test (`Collides`), the whole tick (`Step`)
  and the game loop (`Run`).
- `DinoProperties` (`properties.dfy`): the invariant every reachable state
  keeps (`Inv`), and lemmas about the jump arc, the obstacle list, the score,
  key handling, collision, and two end-to-end scenarios.
- `DinoRender` (`render.dfy`): `Cell` gives what `draw_frame` leaves in each
  screen cell, with lemmas about the ground row, the player, obstacle columns
  and the status line.
- `Decimal` (`decimal.dfy`): the decimal text of the score in the status line.
- `DinoGame` (`game.dfy`): the class `Game`, whose fields are the program's
  module-level state. `Tick` runs one loop body in place, `DrawFrame` writes a
  2-D character array cell by cell, and `Play` is the `while not game_over` loop.
  Each is proved against the functions above.

The random draws become inputs. `TickInput.spawn` is the outcome of the
1-in-25 spawn draw, and `TickInput.spawnHeight` is the height draw, required
to lie in 0..2. The keyboard becomes `Input`: either no key is pending, or a
decoded key string is delivered.

The debug message is kept as a `Note` that records how the tick built it:
cleared, set to the pressed key (with " -> JUMP!" when a jump starts),
extended by " Landed.", or replaced by "Collision!". `MessageText` spells a
note out as the characters the status line shows.

All game constants are integers, so `player_y` is always an integer and the
`int(...)` truncation in the source is the identity. The model therefore uses
`int` for position and velocity. The only place the program treats them as
floating-point is the `:.1f` formatting of the debug line under the screen
(dino_game.py:104), which is terminal output.

Every obstacle spawns at the right edge and all obstacles move at the same
speed. So the list is always in spawn order, with strictly increasing columns
(`Ascending`, part of `Inv`). As a result, at most one obstacle can reach
column 1 in a tick. The loop scores only the first such obstacle, but this
never loses a point (`ScoreCountsEveryPasser`).

## Model

| member | source | states |
|---|---|---|
| `DinoRules.Initial` | dino_game.py:64-71 | definition, no contract: the initial session state; meaning given by `InitialInv` and `Game.constructor` |
| `DinoRules.HandleKey` | dino_game.py:126-139 | definition, no contract: the key-handling step; meaning given by `HandleKeyMotion`, `QuitFreezes`, `SpaceFromRest`, `SpaceWhileJumping` and `MessageText` |
| `DinoRules.Spawn` | dino_game.py:157-161 | definition, no contract: the capped append at the right edge; meaning given by `SpawnKeepsOrder` and `SpawnAppearsAt` |
| `DinoRules.Advance` | dino_game.py:163-174 | definition, no contract: move every obstacle left and drop those left of column 0; meaning given by `AdvanceShrinks`, `AdvanceMembers`, `AdvanceAppend`, `AdvanceKeepsAscending` and `AdvanceKeepsInField` |
| `DinoRules.Scores` | dino_game.py:163-169 | definition, no contract: some moved obstacle lands on column 1; meaning given by `ScoresIff`, `PassersAtMostOne` and `ScoreCountsEveryPasser` |
| `DinoRules.Collides` | dino_game.py:176-184 | definition, no contract: some obstacle in the player's column reaches the player's row; meaning given by `CollisionEndsGame`, `GroundedPlayerHits` and `OtherColumnsMiss` |
| `DinoRules.Step` | dino_game.py:125-185 | definition, no contract: one loop body on the state value; meaning given by `StepKeepsInv`, `CollisionEndsGame`, `ScoreStep` and `Game.Tick` |
| `DinoRules.Run` | dino_game.py:119-120 | definition, no contract: ticks are played until the game is over; meaning given by `RunKeepsInv`, `GameOverStays` and `Game.Play` |
| `DinoRender.Cell` | dino_game.py:77-97 | definition, no contract: what one cell shows after the four drawing layers; meaning given by `PaintedIff`, `GroundRow`, `ObstacleShown`, `PlayerShown`, `StatusRow`, `Untouched` and `Game.DrawFrame` |
| `Decimal.Show` | dino_game.py:94 | the score is printed as a non-empty string of decimal digits, with no leading zero except for 0 |
| `Decimal.ParseShow` | dino_game.py:94 | reading back the printed score gives the score |
| `Decimal.ShowInjective` | dino_game.py:94 | different scores are printed differently |
| `DinoRules.MessageText` | dino_game.py:126-153 | the debug message text is empty exactly when the key handling cleared it and neither a landing nor a collision was reported |
| `DinoRules.Physics` | dino_game.py:144-153 | after the physics step the player is never below ground; it is at ground level exactly when the clamp fired, and then velocity is 0 and the jump is over |
| `DinoProperties.AdvanceShrinks` | dino_game.py:163-174 | the obstacle update never lengthens the list and leaves only obstacles with x >= 0 |
| `DinoProperties.InitialInv` | dino_game.py:64-70 | the initial state (on the ground, at rest, no obstacles) satisfies the invariant |
| `DinoProperties.HandleKeyMotion` | dino_game.py:131-139 | key handling either leaves the motion unchanged or starts a jump from rest with velocity JUMP_POWER |
| `DinoProperties.PhysicsKeepsInv` | dino_game.py:145-153 | the physics step keeps the player on the ground at rest, or on the jump parabola 2(y-G) = J(J+1) - v(v+1) with -J <= v < J |
| `DinoProperties.RestIsFixedPoint` | dino_game.py:145-153 | the resting state is unchanged by the physics step |
| `DinoProperties.ApexBound` | dino_game.py:58-59 | in every reachable state GROUND_LEVEL <= y <= GROUND_LEVEL + J(J+1)/2 = 16 |
| `DinoProperties.AirborneClearsObstacles` | dino_game.py:177-181 | while jumping the player is higher than GROUND_LEVEL + 2, above every obstacle |
| `DinoProperties.JumpArc` | dino_game.py:145-146 | during the first 10 ticks of a jump, y(n) = G + J*n - n(n-1)/2 and v(n) = J - n, still airborne |
| `DinoProperties.JumpHeights` | dino_game.py:145-153 | a jump from rest passes through the heights 6, 10, 13, 15, 16, 16, 15, 13, 10, 6 |
| `DinoProperties.JumpLands` | dino_game.py:148-153 | the 11th tick of a jump returns the player to rest; the apex is GROUND_LEVEL + J(J+1)/2 |
| `DinoProperties.AdvanceMembers` | dino_game.py:164-174 | an obstacle survives the update iff it is some input obstacle moved left by OBSTACLE_SPEED with height unchanged and x >= 0 (both directions) |
| `DinoProperties.AdvanceAppend` | dino_game.py:164-174 | the update works obstacle by obstacle and keeps the relative order of the list |
| `DinoProperties.AdvanceOne` | dino_game.py:165-172 | a single obstacle is moved left and kept exactly when its new x is >= 0 |
| `DinoProperties.AdvanceKeepsAscending` | dino_game.py:164-174 | the update keeps the columns of the list strictly increasing |
| `DinoProperties.AdvanceKeepsInField` | dino_game.py:164-174 | obstacles at most at column WIDTH-1 with heights 0..2 end up in columns 0..WIDTH-2; each result is some input obstacle one column further left with its height unchanged, and every input obstacle that stays at column 0 or right is in the result |
| `DinoProperties.ObstacleLifetime` | dino_game.py:161-174 | an obstacle added at WIDTH-1 is at column WIDTH-1-n after n updates and gone after exactly WIDTH updates |
| `DinoProperties.ScoresIff` | dino_game.py:163-169 | the score flag is set iff some obstacle's updated x equals 1 |
| `DinoProperties.PassersAtMostOne` | dino_game.py:163-169 | with strictly increasing columns at most one obstacle reaches column 1 per tick, and it is counted iff the flag is set |
| `DinoProperties.SpawnKeepsOrder` | dino_game.py:159-161 | below the cap of 5 a spawn appends `Obstacle(WIDTH-1, h)` after the unchanged list, otherwise the list is unchanged; the cap and the left-to-right order hold after it |
| `DinoProperties.ObstacleUpdateKeepsInv` | dino_game.py:156-174 | after spawn and update there are at most 5 obstacles, all in columns 0..WIDTH-2, in strictly increasing order |
| `DinoProperties.StepKeepsInv` | dino_game.py:125-185 | a tick preserves the invariant: ground clamp, rest when not jumping, jump parabola, obstacle cap, order and field |
| `DinoProperties.RunKeepsInv` | dino_game.py:120-185 | any sequence of ticks of the game loop preserves the invariant |
| `DinoProperties.QuitFreezes` | dino_game.py:136-139 | Ctrl+C ends the game, and the frame counter, physics, obstacles and score stay as they were |
| `DinoProperties.SpaceWhileJumping` | dino_game.py:132-136 | a space while airborne has the same effect as no key, apart from the debug message |
| `DinoProperties.SpaceFromRest` | dino_game.py:132-134 | a space from rest starts a jump whose first tick reaches GROUND_LEVEL + JUMP_POWER with velocity JUMP_POWER - GRAVITY |
| `DinoProperties.AirborneTick` | dino_game.py:128-153 | while a jump is in progress every key except Ctrl+C leaves the motion to the physics step: a second space does not relaunch |
| `DinoProperties.JumpTick` | dino_game.py:128-153 | tick n of a jump (1 <= n <= 10) is followed, whatever key other than Ctrl+C is pressed, by tick n+1 of the arc, so successive ticks pass through the heights of `JumpHeights` |
| `DinoProperties.RestStaysWithoutJump` | dino_game.py:145-153 | a tick without a jump key keeps a resting player at rest |
| `DinoProperties.ScoreStep` | dino_game.py:163-169 | the score never decreases, rises by at most 1 per tick, and rises only if an obstacle now stands at column 1 |
| `DinoProperties.ScoreCountsEveryPasser` | dino_game.py:163-169 | in a reachable state the score rises by exactly the number of obstacles reaching column 1 |
| `DinoProperties.SpawnAppearsAt` | dino_game.py:159-165 | a spawned obstacle is the last of the list and is first seen at column WIDTH-2, with the drawn height |
| `DinoProperties.GroundedPlayerHits` | dino_game.py:177-182 | a player on the ground collides with any obstacle of height >= 0 in its column |
| `DinoProperties.OtherColumnsMiss` | dino_game.py:179-181 | obstacles outside the player's column never collide, whatever their height |
| `DinoProperties.CollisionEndsGame` | dino_game.py:177-185 | apart from Ctrl+C, the game ends iff a remaining obstacle is in column 2 with player_y <= GROUND_LEVEL + height; the glyph then becomes '!' and the message "Collision!" |
| `DinoProperties.IdleRun` | dino_game.py:120-185 | with no spawns and no keys the game keeps running at rest with score 0, and only the frame counter advances |
| `DinoProperties.GameOverStays` | dino_game.py:120 | once the game is over the loop takes no further ticks: the state stays as it is |
| `DinoProperties.StepUpdates` | dino_game.py:155-174 | a tick that does not quit replaces the obstacle list by the update of the spawned list and adds 1 to the score iff an obstacle reached column 1 |
| `DinoProperties.ApproachMoves` | dino_game.py:156-185 | a quiet tick moves a height-0 obstacle that is still right of column 3 one column closer to a resting player, without scoring or ending the game |
| `DinoProperties.ApproachCrashes` | dino_game.py:156-185 | a quiet tick that moves a height-0 obstacle into column 2 ends the game with the collision glyph and message, and later ticks change nothing |
| `DinoProperties.ApproachRun` | dino_game.py:156-185 | n quiet ticks from a resting player and one height-0 obstacle end in the state `ApproachEnd` reaches tick by tick |
| `DinoProperties.ApproachEndClosed` | dino_game.py:156-185 | that state is the obstacle n columns closer while it is right of column 2, and otherwise the collision on exactly the tick it reached column 2, without scoring |
| `DinoProperties.SingleObstacleScenario` | dino_game.py:156-185 | an obstacle spawned on the first tick hits a player who never jumps on tick 47, and never earlier |
| `DinoRender.StatusText` | dino_game.py:94 | the status line starts with "Score: " |
| `DinoRender.PaintedIff` | dino_game.py:86-91 | a cell is painted as an obstacle iff some obstacle with 0 <= x < WIDTH has that column and a row in GROUND_LEVEL..GROUND_LEVEL+height |
| `DinoRender.Untouched` | dino_game.py:77-97 | a cell written by no layer (not the ground row, not the player, no obstacle bar, not within the status text) keeps its previous content |
| `DinoRender.GroundRow` | dino_game.py:79-80 | the ground row shows '_' wherever no player, obstacle or status text covers it |
| `DinoRender.ObstacleShown` | dino_game.py:86-91 | every on-screen cell of an obstacle's bar shows 'X', drawn over player and ground |
| `DinoRender.CollisionGlyphHidden` | dino_game.py:176-184 | on the tick a collision ends the game, the player's cell shows the colliding obstacle's 'X', not the '!' glyph set at line 182 |
| `DinoRender.PlayerShown` | dino_game.py:82-84 | a player on screen below the status row shows its glyph over the ground unless an obstacle covers it |
| `DinoRender.StatusRow` | dino_game.py:93-97 | the top row holds the status text, cut at the screen width |
| `DinoRender.PlayerAboveScreenHidden` | dino_game.py:82-84 | a player above the top row is not drawn anywhere in its column |
| `DinoRender.ApexHiddenOnNineRowScreen` | dino_game.py:122 | on the 9-row screen the player is not drawn on ticks 2 to 9 of a jump |
| `DinoRender.PlayerAlwaysOnScreen` | dino_game.py:82-84 | on a screen with room for the apex, the player is drawn in every reachable state unless an obstacle covers it |
| `DinoGame.Game.constructor` | dino_game.py:64-71 | the session starts in the initial state, which satisfies the invariant |
| `DinoGame.Game.Tick` | dino_game.py:125-185 | one loop body updates the fields in place exactly as `Step`, and keeps the invariant |
| `DinoGame.Game.HandleInput` | dino_game.py:125-139 | key handling updates the fields as `HandleKey`, and reports whether Ctrl+C ended the game |
| `DinoGame.Game.ApplyPhysics` | dino_game.py:144-153 | the position, velocity and jump flag become `Physics` of their old values, and the " Landed." report is added exactly when a jump lands |
| `DinoGame.Game.UpdateObstacles` | dino_game.py:155-174 | the in-place index loop leaves `Advance` of the spawned list and adds 1 to the score iff `Scores` |
| `DinoGame.Game.DetectCollision` | dino_game.py:176-185 | the loop with break sets game_over iff `Collides`, and then sets the '!' glyph and the "Collision!" message |
| `DinoGame.Game.DrawFrame` | dino_game.py:77-97 | every cell of the screen array ends up as `Cell` of the state and its previous content |
| `DinoGame.Game.Play` | dino_game.py:119-120 | the game loop plays ticks until the game is over, ending in `Run` of the state it started from, and keeps the invariant |
| `DinoGame.NewScreen` | dino_game.py:122-123 | a fresh all-blank WIDTH-wide buffer whose rows leave room for the jump apex below the status row |

## Left out

- Keyboard input (`kbhit`, `getch`, msvcrt, select, tty and termios raw mode, and the decoding fallbacks) is OS input. The key of a tick is the `Input` parameter; a failed decode is `Pressed("")`.
- `random.randint` is foreign randomness. The spawn decision and the height are `TickInput` fields.
- Python's `repr(key)` in the debug message is replaced by the key between single quotes (`KeyRepr`). For characters that `repr` escapes (control characters such as Ctrl+C, a backslash) and for a single quote, which `repr` encloses in double quotes, the exact message text differs.
- Clearing the screen, printing the rows bottom to top, the debug line under the screen, the start-up countdown and the game-over banner are terminal output.
- `time.sleep` pacing and restoring the terminal settings in `finally` are real-time and OS resource handling.
- `Game.Play` does not create and draw a screen on every tick. The drawn frame is only printed, which is terminal output; `NewScreen` and `DrawFrame` model one frame.
- The "Ctrl+C detected" print on quit is terminal output; the model keeps only the state change.
- Ctrl+C pressed while the terminal is not in `getch`'s raw mode (dino_game.py:43-48) raises `KeyboardInterrupt` in the middle of a tick. The program then leaves through `finally` (dino_game.py:196-199) and never prints the game-over banner (dino_game.py:202-206). `Run` and `Game.Play` stop only between ticks, so this asynchronous exit is not modelled.

## Findings

| source | as written | input that shows it | evidently intended | confidence | as-written member | corrected member |
|---|---|---|---|---|---|---|
| dino_game.py:122 | the screen is GROUND_LEVEL + JUMP_POWER + 3 = 9 rows high, but a jump climbs JUMP_POWER + (JUMP_POWER-1) + ... + 1 = 15 rows, to row 16 | a space from rest: on ticks 2 to 9 of the jump the player is at rows 10 to 16, above the 9-row screen, and is not drawn | a screen tall enough for the jump apex plus the status row (GROUND_LEVEL + 15 + 2 = 18 rows) | high; not executed | `DinoRender.ApexHiddenOnNineRowScreen` | `DinoGame.NewScreen` |
