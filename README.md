# Terminal Invaders: the game rules, verified

`terminal_invaders.py` is a curses arcade game. A formation of enemy ships sweeps
across the screen and steps down one row at the edges. The player's ship at the bottom
fires projectiles that climb one row at a time, and each projectile destroys the first
live enemy it lands on. The game is won when every enemy is destroyed and lost when the
formation reaches the bottom row.

This project models the game-rule core of that file in Dafny and proves what it
promises. It covers four pieces:

- the formation step `move_enemies` and its edge policy (`formation.dfy`, `movement.dfy`);
- the difficulty scaler `update_enemy_speed` (`difficulty.dfy`);
- the initial formation and player position built at the start of `main` (`setup.dfy`);
- one frame of the game loop: projectiles, then formation, then input (`projectiles.dfy`, `game.dfy`).

How the model is arranged:

- **Formation** holds the pure specification. `Sweep` is one formation move on a
  value. `MinOf`/`MaxOf` over `AliveCoords` are the running extremes.
- **Motion** holds `move_enemies` as the in-place pass over the enemy array. It is
  split into `MoveAndTrack`, the loop of lines 86-97, and `MoveEnemies`, which applies
  the edge policy of lines 99-105. `MoveEnemies` is proved to leave exactly one `Sweep`
  of the formation behind.
- **Projectiles** specifies the projectile phase as `ProjectilePass`, a fold of
  `Resolve` over the projectile list in order.
- **Game** holds the three phases as functions on a `World` value (`ProjectilePhase`,
  `FormationPhase`, `InputPhase`), their composition `Frame`, and the class `Game`.
  `Game` keeps the loop's state in fields. Its `Step` runs one iteration of
  `while not game_over` and is proved to produce `Frame` of the old state. The
  projectile loop (`MoveProjectiles`, one iteration per `AdvanceOne`) and the
  formation phase (`MoveFormation`) work on the enemy array and on the loop's
  variables passed in, and the class's phase methods assign their results to the fields. The
  invariant `Sound` holds between frames: the player is in its lane, the direction is
  ±1, the movement interval matches the alive count, and the game is over once no
  enemy is alive.

Modelling decisions that follow the code:

- **A projectile moves before it collides.** Its row is decremented (line 192) before
  the enemy scan (lines 198-203). So a projectile destroys the enemy on the row above
  the cell it occupied when the frame began.
- **The list of alive enemies is derived.** `alive_enemies` holds the same records as
  `enemies` and is rebuilt after every kill (lines 151, 206-208). So it is always the
  alive records of `enemies`, in order. The model keeps one enemy array, skips dead
  records when moving, and counts alive records with `CountAlive`.
- **Removal from the projectile list.** The loop walks a copy of the list and
  `list.remove` deletes the first record equal in value (lines 190, 196, 204). The
  model deletes the record being processed. The two differ only when an earlier,
  already-processed record has identical fields. Then the list keeps the same records,
  possibly in a different order. Neither version changes which enemies die.
- **The frame continues after it ends the game.** A win, a loss or `q` sets
  `game_over`, but the rest of the frame still runs. The loop condition is only tested
  at the next iteration. `Step` requires `!gameOver`, as the loop does.
- **The formation gate uses an elapsed time read at the top of the frame (line 170).**
  It compares that time with the movement interval as the projectile phase left it
  (line 224).
- **The width-3 screen.** The size check admits a 3-column screen (line 126). On it,
  the single enemy starts in the last column heading right. The edge test compares
  columns for equality after the move (line 100), so it never fires. The formation
  walks off the grid (`Setup.Width3WalksOff`). On 4 or more columns the formation
  starts contained, and `Game.FrameKeepsContained` shows that frames keep it so.
- **A descent without an edge enemy never ends.** If the enemy that triggered a descent
  is destroyed before the next move, nothing is left on an edge. Every later move is
  then another descent (`Formation.DescentWithoutEdge`).

## Model

| member | source | states |
|---|---|---|
| Formation.AliveCount | terminal_invaders.py:151 | the number of alive records; 0 exactly when all are dead, the length exactly when all are alive |
| Formation.SameFlagsSameCount | terminal_invaders.py:206-208 | two enemy lists with the same alive flags have the same alive count, so moving enemies never changes `len(alive_enemies)` |
| Formation.KillLowersCount | terminal_invaders.py:205-208 | setting one alive enemy's flag to false lowers the alive count by exactly one |
| Formation.AliveCoordsCover | terminal_invaders.py:90-97 | every alive enemy's coordinate is among those the extremes are taken over |
| Formation.AliveCoordsSource | terminal_invaders.py:90-97 | every coordinate the extremes are taken over belongs to some alive enemy; dead enemies take no part |
| Formation.AliveCoords | terminal_invaders.py:89-97 | the coordinates the running extremes are taken over: that coordinate of each alive record, in collection order (the loop walks `alive_enemies`, which holds exactly the alive records) |
| Formation.MinOf | terminal_invaders.py:85-96 | `left_most`: starts at `width` and takes `min` with each value in loop order |
| Formation.MaxOf | terminal_invaders.py:86-97 | `right_most` and `bottom_most`: start at 0 and take `max` with each value in loop order |
| Formation.MinOfIsLeast | terminal_invaders.py:86-96 | the running `min` from `width` is at most `width` and every value, and equals one of them |
| Formation.MaxOfIsGreatest | terminal_invaders.py:87-97 | the running `max` from 0 is at least 0 and every value, and equals one of them |
| Formation.Shifted | terminal_invaders.py:90-94 | one record in the loop: an alive enemy moves one row down when a descent is pending and one column in the direction of travel otherwise; a dead one is not in `alive_enemies` and stays as it is |
| Formation.MoveAll | terminal_invaders.py:89-94 | the loop over the records applies that move to each record in order |
| Formation.MoveAllPointwise | terminal_invaders.py:90-94 | the sweep rewrites each record on its own: record `i` of the result is record `i` moved |
| Formation.MoveAllDelta | terminal_invaders.py:90-94 | during a descent every alive enemy's row grows by exactly 1 and its column stays; otherwise its column changes by the direction and its row stays; never both; dead enemies and all alive flags are untouched |
| Formation.AtEdge | terminal_invaders.py:100 | the edge test after the move: `left_most == 0` or `right_most == width - 1`, compared for equality only |
| Formation.Turn | terminal_invaders.py:99-105 | off the edge the heading is unchanged; at an edge a sideways formation starts descending with the same direction, and a descending one reverses direction and stops descending |
| Formation.Sweep | terminal_invaders.py:80-107 | one call of `move_enemies` on a value: every alive record moved, then the heading turned by the edge test on the `min`/`max` of the moved alive columns |
| Formation.MinOfAlive | terminal_invaders.py:86-96 | `left_most` after the pass is at most `width` and every alive column, and is `width` or some alive enemy's column |
| Formation.MaxOfAlive | terminal_invaders.py:87-97 | `right_most`/`bottom_most` after the pass are at least 0 and every alive column/row, and are 0 or attained by an alive enemy |
| Formation.LeastIsMinOf | terminal_invaders.py:86-96 | any value with that characterisation is the fold `MinOf`, which ties the in-place pass to the specification |
| Formation.GreatestIsMaxOf | terminal_invaders.py:87-97 | any value with that characterisation is the fold `MaxOf` |
| Formation.NoEdgeNoTurn | terminal_invaders.py:100 | with no alive enemy in column 0 or `width - 1` after the move, the edge test fails, so the heading comes back unchanged, including an ongoing descent |
| Formation.EdgeIffEnemyOnEdge | terminal_invaders.py:100 | with all alive enemies on the grid, the edge test fires exactly when some alive enemy is in column 0 or `width - 1` |
| Formation.BottomReachedIff | terminal_invaders.py:230 | `bottom_most >= height - 1` exactly when some alive enemy is at row `height - 1` or below |
| Formation.ContainedAfterKills | terminal_invaders.py:205 | destroying enemies never takes the formation off the grid |
| Formation.SweepKeepsContained | terminal_invaders.py:80-107 | a contained formation (all alive enemies on the grid, and the next sideways step keeps them there) is still contained after one move |
| Formation.SweepNKeepsContained | terminal_invaders.py:80-107 | containment holds through any number of moves |
| Formation.DescendStep | terminal_invaders.py:90-105 | a descending formation with no alive enemy on an edge moves every alive enemy down one row and stays descending |
| Formation.DescentWithoutEdge | terminal_invaders.py:90-105 | with a pending descent and no alive enemy on an edge, after `k` moves every alive enemy is exactly `k` rows lower and the heading is unchanged: the formation never resumes sideways motion |
| Motion.MoveAndTrack | terminal_invaders.py:86-97 | the one pass moves each alive record in place and leaves dead ones; `left_most` is the least moved alive column or `width`, `right_most`/`bottom_most` the greatest moved alive column/row or 0, each attained by an alive enemy |
| Motion.MoveEnemies | terminal_invaders.py:80-107 | the enemy array afterwards and the returned heading are exactly one `Sweep` of the formation; the returned extremes are the min/max folds over the moved alive records |
| Motion.TrackedSweep | terminal_invaders.py:86-107 | a pass with those guarantees, followed by the edge policy, yields `Sweep` of the old formation, and its extremes are the folds `Sweep` and the loss test read |
| Difficulty.EnemySpeed | terminal_invaders.py:110-119 | the movement interval is never below `MAX_ENEMY_SPEED` (1/20), and never above `INITIAL_ENEMY_SPEED` (1/2) for a non-negative alive count |
| Difficulty.EasedWithoutFloor | terminal_invaders.py:111-119 | for `0 <= alive <= total` the result is exactly `1/2 - 9/20 * ratio^2` with the destroyed ratio in [0, 1]; the floor never binds; the result is 1/20 exactly when no enemy is alive |
| Difficulty.NoKillsInitialSpeed | terminal_invaders.py:110-119 | with no enemy destroyed the interval is 1/2 |
| Difficulty.AllKilledMaxSpeed | terminal_invaders.py:110-119 | with every enemy destroyed the interval is 1/20 |
| Difficulty.SpeedMonotonic | terminal_invaders.py:110-119 | fewer alive enemies never give a longer interval |
| Setup.Range2 | terminal_invaders.py:147 | `range(start, stop, 2)` has `ceil((stop - start) / 2)` elements, the `i`-th being `start + 2i` |
| Setup.Range2Members | terminal_invaders.py:147 | a value is in the range exactly when it lies in `[start, stop)` an even distance from `start` |
| Setup.InitialColumns | terminal_invaders.py:130-147 | the starting columns `range(third + 1, 2 * third + 1, 2)` with `third = width // 3` |
| Setup.InitialEnemies | terminal_invaders.py:145-148 | one alive enemy on row 1 at each starting column, in order |
| Setup.PlayerStart | terminal_invaders.py:136 | the player starts in its lane `[0, width - 2]` |
| Setup.InitialFormation | terminal_invaders.py:126-155 | for `width >= 3` the formation is non-empty, so the `min`/`max` after it are defined; all enemies are alive on row 1 at columns `third + 1 + 2i`, none past `2 * third` |
| Setup.Width21Columns | terminal_invaders.py:130-148 | a 21-column screen starts the enemies at columns 8, 10, 12, 14 |
| Setup.InitialSwarmContained | terminal_invaders.py:130-148 | on 4 or more columns the initial formation, heading right, is contained |
| Setup.Width3NotContained | terminal_invaders.py:126-148 | on 3 columns the single enemy starts at column 2 = `width - 1` heading right: not contained |
| Setup.Width3WalksOff | terminal_invaders.py:80-148 | on 3 columns, after `k` moves the enemy is in column `2 + k` and the heading never changes: it leaves the grid |
| Setup.LoneEnemyStep | terminal_invaders.py:86-107 | on 3 columns a lone enemy right of the last column, heading right, moves one column right and no edge is detected |
| Projectiles.FirstHit | terminal_invaders.py:198-221 | the enemy the scan kills is the first alive enemy on the cell, or none exists (-1); a dead enemy is never hit |
| Projectiles.FindTarget | terminal_invaders.py:198-221 | the in-order scan with `break` stops at exactly `FirstHit` |
| Projectiles.Expiring | terminal_invaders.py:191-196 | the number of due projectiles that climb above row 1 is at most the number of projectiles |
| Projectiles.Resolve | terminal_invaders.py:191-221 | one iteration of the projectile loop against the board the earlier iterations left: wait, climb and expire above row 1, climb and kill the first alive enemy on the new cell, or climb and stay |
| Projectiles.ProjectilePass | terminal_invaders.py:190-221 | the whole loop: `Resolve` applied to the projectiles in list order, starting from the enemies as they are and an empty list of kept projectiles |
| Projectiles.HitKillsFirstMatch | terminal_invaders.py:198-208 | a hit clears exactly one alive flag, that of the first match; no record moves or changes otherwise; the alive count drops by one |
| Projectiles.PassOnlyKills | terminal_invaders.py:189-221 | the projectile phase only destroys enemies: no enemy moves and none comes back to life |
| Projectiles.ResolveCases | terminal_invaders.py:191-205 | one projectile against the board: a waiting one is kept unchanged; a due one whose row drops below 1 is removed and no enemy changes; a due one whose new cell holds an alive enemy is removed and kills exactly the first such enemy, leaving every other record as it was and lowering the alive count by one; any other due one is kept, moved up and stamped |
| Projectiles.ResolveAccounting | terminal_invaders.py:191-205 | the count identity for one projectile: enemies destroyed = projectiles removed - projectiles expired (at most one of each) |
| Projectiles.PassKillCount | terminal_invaders.py:189-221 | over the whole phase, enemies destroyed = projectiles removed - projectiles that climbed off the screen |
| Projectiles.PassKeepsWaiting | terminal_invaders.py:191 | a projectile whose interval has not elapsed is kept unchanged |
| Projectiles.PassSurvivors | terminal_invaders.py:190-204 | every projectile left after the phase is an original, either waiting and unchanged or due and moved up one row, stamped with `now`, and still at row 1 or below |
| Game.CountAlive | terminal_invaders.py:206-209 | `len(alive_enemies)` computed over the array is `AliveCount` of its contents |
| Game.Strike | terminal_invaders.py:198-205 | the scan and kill clear exactly the first match's flag, report whether there was one, and lower the alive count by one on a hit |
| Game.Sound | terminal_invaders.py:124-266 | the invariant of the game loop: as many enemy records as `total_enemy_count` (at least one), the player in `[0, width - 2]`, direction +1 or -1, the interval equal to `update_enemy_speed` of the alive count, and `game_over` set once no enemy is alive |
| Game.InitialWorld | terminal_invaders.py:126-163 | the state `main` builds: the initial formation, no projectiles, the player at `width // 2`, heading right without descent, interval 1/2, the two clock readings, game not over |
| Game.ProjectilePhase | terminal_invaders.py:189-221 | the projectile loop on the state, then the interval recomputed and the win flag set if it destroyed anything, as the per-kill updates leave them |
| Game.FormationPhase | terminal_invaders.py:223-238 | when more than `enemy_speed` seconds have passed and some enemy is alive: one `Sweep`, the move time stamped, and `game_over` set when `bottom_most >= height - 1`; otherwise nothing changes |
| Game.InputPhase | terminal_invaders.py:240-266 | the `if`/`elif` chain on the key: left or right within the lane, `q` ends the game, space fires from `(height - 2, x)` once the cooldown has passed |
| Game.Frame | terminal_invaders.py:189-266 | one frame: the projectile phase, then the formation phase, then the input phase |
| Game.AdvanceOne | terminal_invaders.py:191-221 | one iteration of the projectile loop: if the earlier iterations left the list as kept projectiles followed by the unprocessed rest, and the board as `ProjectilePass` of them, then so does this one, one projectile further; the alive count never rises, and a kill sets the interval from the new count and `game_over` exactly when none is left |
| Game.MoveProjectiles | terminal_invaders.py:189-221 | the loop leaves the list and the enemies as `ProjectilePass` does; the interval is recomputed from the final alive count if anything was destroyed; `game_over` is set exactly when a kill leaves no enemy alive |
| Game.MoveFormation | terminal_invaders.py:223-238 | the formation phase on the loop's variables and the enemy array leaves exactly `FormationPhase` of the state they form: gated by the strict `>` and a live enemy, one `move_enemies`, the move time stamped, and the loss test on `bottom_most` |
| Game.InitialWorldSound | terminal_invaders.py:126-163 | the state before the first frame is sound, and contained on 4 or more columns |
| Game.ProjectilePhaseSound | terminal_invaders.py:189-221 | the projectile phase keeps the state sound, and in a running game sets `game_over` exactly when no enemy is left alive |
| Game.FormationPhaseSound | terminal_invaders.py:223-238 | the formation moves by one `Sweep` exactly when more than `enemy_speed` seconds have elapsed and some enemy is alive, and otherwise nothing changes; a move in a running game sets `game_over` exactly when an alive enemy reaches row `height - 1`; soundness is kept |
| Game.InputPhaseSound | terminal_invaders.py:240-266 | input keeps the player in `[0, width - 2]`; firing after the 0.5 s cooldown appends exactly one projectile at `(height - 2, x)` with speed 0.1 and stamps the fire time; otherwise the projectiles and fire time are unchanged; `q` ends the game; enemies are untouched |
| Game.FrameSound | terminal_invaders.py:189-266 | a whole frame keeps the state sound |
| Game.FrameKeepsContained | terminal_invaders.py:189-266 | a contained formation is still contained after a frame |
| Game.Game.constructor | terminal_invaders.py:124-163 | the initial state is sound, with the initial formation, the player at bottom centre, direction +1, no descent, interval 1/2 and the two clock readings |
| Game.Game.AdvanceProjectiles | terminal_invaders.py:189-221 | the projectile phase applied to the fields is `ProjectilePhase` of the old state, and the game state stays valid |
| Game.Game.AdvanceFormation | terminal_invaders.py:223-238 | the formation phase applied to the fields and the enemy array is `FormationPhase` of the old state, and the game state stays valid |
| Game.Game.HandleKey | terminal_invaders.py:240-266 | the input phase applied to the fields is `InputPhase` of the old state, and the game state stays valid |
| Game.Game.Step | terminal_invaders.py:165-266 | one iteration of `while not game_over` turns the state into `Frame` of the old state and keeps it sound |

## Left out

- Rendering and terminal setup (`clear`, `addstr`, `addch`, colours, `curs_set`, `nodelay`, `refresh`) and the status line (lines 133-134, 159-187). These are display only. As a consequence, a curses error raised when an enemy is drawn off the grid is not modelled. `Setup.Width3WalksOff` shows when that would happen.
- The `enemy_edges` list (lines 152-155, 226). It is only shown in the status line. The model proves the non-emptiness its `min`/`max` need (`Setup.InitialFormation`) and returns the same extremes from `MoveEnemies`.
- `curses_safe_run`, `subprocess.run(["reset"])`, logging, `traceback` and `sys.exit` (lines 52-71). These are process plumbing.
- The clock and sleeping. `time.time()` readings are parameters: `now` is the reading at the top of the frame (line 169), and `fireTime` is the separate reading stamped on a new projectile (line 263). The constructor takes the two readings of lines 140 and 156. The 2-second end-of-game pause and the 0.05-second frame sleep are dropped.
- `stdscr.getch()`. The pending key is the `Key` parameter of `Step`.
- Floating point. Times and `update_enemy_speed` are exact reals. In IEEE arithmetic, `0.5 - 0.45` is slightly below 0.05. So with every enemy destroyed, the `max` with `MAX_ENEMY_SPEED` does bind and returns 0.05. Over the reals both sides are exactly 1/20.
- `TerminalSizeError` (lines 126-129). It is the constructor's precondition `width >= 3 && height >= 4`.
- Game.AdvanceOne: the projectile removal is modelled as deleting the record being processed, not the first record equal in value (lines 196, 204). The two can differ only in the order of identical records.
- Game.MoveProjectiles: inherits that removal from `Game.AdvanceOne`, for the same reason.
