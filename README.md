# Bomberman core, modelled in Dafny

This project models the simulation core of a small pygame Bomberman clone:

- the 20 × 15 arena of solid and destructible walls;
- the four-arm bomb blast;
- explosions, power-ups, and player and enemy movement with square-against-tile collision;
- the game engine's tick (soft bomb tile, enemies, detonations, wall destruction, power-ups, damage, victory) and its commands: plant a bomb, restart;
- the high-score table: insert, stable descending sort, top ten, qualification, statistics;
- the menu cursor;
- the application's screen machine with its name-entry buffer.

The model has two layers:

- **Values.** Each entity's state is a datatype (`Grid`, `Bomb`, `Explosion`, `PlayerState`, `EnemyState`, `EngineState`, `ScoreEntry`, `AppState`). Every operation is a function on those values, and the properties are lemmas about those functions.
- **Objects.** The objects the program mutates are classes (`GameMap`, `Player`, `Enemy`, `GameEngine`, `ScoreManager`, `Menu`, `BombermanApp`). Each keeps the source's state fields and loops; the drawing, font and configuration fields it does not need are listed under "## Left out". Each method is proved to leave the object graph in the state its function computes from the old one (`Abs() == Tick(old(Abs()), i)` and the like).

Units and inputs:

- Positions are integers in half-pixels: a tile is 80 units, an actor 68, the player's speed 6 and an enemy's 3. Every speed and step of the configuration is a multiple of half a pixel, so this scaling is exact.
- Time is an integer number of milliseconds, passed in as `now`.
- Random draws are parameters:
  - `fill(x, y)` is the 30 % wall fill;
  - `picks` is the index drawn at each step of `random.sample`;
  - an `EnemyRandom` record per enemy per tick holds the directions and interval it may draw;
  - `drop(cell)` is the power-up drop decision and kind.

Three behaviours of the code shape the model:

- A bomb's blast radius is the constant `EXPLOSION_RADIUS`, given to every bomb at construction (`src/game/bomb.py:12`). No bomb reads the player's `flame_radius`.
- An explosion never sets off another bomb: the bomb loop in `src/game/game_engine.py:98-104` fires only bombs whose own fuse has elapsed.
- Enemies walk through bombs: the movement check in `src/game/enemy.py:52-78` never tests bombs.

The modules follow the source files:

| module | file | source |
|---|---|---|
| `Constants` | constants.dfy | `src/utils/constants.py` |
| `Arena` | game_map.dfy | `src/game/game_map.py` |
| `Collision` | collision.dfy | the tile loop shared by `player.py` and `enemy.py` |
| `Players` | player.dfy | `src/game/player.py` |
| `Enemies` | enemy.dfy | `src/game/enemy.py` |
| `PowerUps` | powerup.dfy | `src/game/powerup.py` |
| `Explosions` | explosion.dfy | `src/game/explosion.py` |
| `Bombs` | bomb.dfy | `src/game/bomb.py` |
| `Engine` | game_engine.dfy | `src/game/game_engine.py` |
| `Scores` | score_manager.dfy | `src/database/score_manager.py` |
| `Menus` | menu.dfy | `src/ui/menu.py` |
| `App` | main.dfy | `src/main.py` |

## Model

| member | source | states |
|---|---|---|
| Arena.Grid.Destroy | src/game/game_map.py:50-52 | Only the named cell loses its destructible flag; the walls and every other cell keep their state, and an off-grid cell changes nothing |
| Arena.WorldToGrid | src/game/game_map.py:62-65 | The cell returned is the one whose tile holds the world point |
| Arena.GridToWorld | src/game/game_map.py:67-70 | Converting a cell to world coordinates and back gives the same cell |
| Arena.WorldToGridIff | src/game/game_map.py:62-65 | A world point converts to (gx, gy) exactly when it lies in that cell's tile |
| Arena.OffGridCells | src/game/game_map.py:40-60 | An off-grid cell counts as a wall but not as destructible, and cannot take a bomb |
| Arena.GenerateEstablishesInv | src/game/game_map.py:17-38 | Every generated map has a solid border, a pillar at every even/even cell, destructible walls only inside the inner band, and no cell that is both |
| Arena.WallsAndDestructiblesDisjoint | src/game/game_map.py:23-28 | On a map with the generated structure no cell is both a solid wall and destructible |
| Arena.SpawnPocketOpen | src/game/game_map.py:30-35 | The cells (1,1), (2,1) and (1,2) around the player's spawn are always open |
| Arena.DestroyPreservesInv | src/game/game_map.py:50-52 | Destroying a wall keeps the structure of a generated map |
| Arena.SpawnCandidatesSpec | src/game/game_map.py:75-83 | A cell is a spawn candidate exactly when it is interior, open, not destructible and not (1,1); no candidate is listed twice |
| Arena.Sample | src/game/game_map.py:84 | Sampling k cells gives min(k, pool size) of them, all from the pool and all distinct when the pool is |
| Arena.GameMap.constructor | src/game/game_map.py:7-28 | The nested fill loops build exactly the map the generation function describes for the same random draws |
| Arena.GameMap.DestroyWall | src/game/game_map.py:50-52 | The in-place update leaves the map that `Grid.Destroy` describes, and keeps its shape |
| Arena.GameMap.GetEnemySpawnPositions | src/game/game_map.py:75-84 | Returns min(5, candidate count) distinct cells, each interior, open, not destructible and not (1,1) |
| Collision.SpanAtMostTwo | src/game/player.py:70-73 | An actor's square spans at most two cells on each axis |
| Collision.OffGridSpanBlocks | src/game/player.py:76-80 | A spanned off-grid cell blocks a move even when the square does not overlap it |
| Collision.TilesClearMonotone | src/game/game_engine.py:143-149 | Destroying walls never blocks a position that was clear |
| Collision.TopLeftClear | src/game/game_engine.py:164-175 | An actor placed at the corner of an open cell stands clear of every wall |
| Collision.CheckTiles | src/game/player.py:70-89 | The nested tile loop with its early returns accepts a position exactly when no spanned cell is off-grid or a wall or destructible wall that strictly overlaps the square |
| Players.PlayerDelta | src/game/player.py:40-50 | Left wins over right and up over down; no key on an axis means no movement on it |
| Players.DeltaMagnitude | src/game/player.py:43-50 | Each component of the movement delta is 0 or the speed, in either sign |
| Players.SoftBombNeverBlocks | src/game/player.py:91-100 | A bomb on the soft tile never blocks: adding it leaves every move exactly as allowed as before |
| Players.MovePlayer | src/game/player.py:35-62 | A move changes the position only |
| Players.MoveKeepsClear | src/game/player.py:52-59 | A player who stands clear stays clear; X becomes X plus its delta exactly when that move is allowed at the old Y and stays put otherwise, then likewise Y at the new X |
| Players.Player.constructor | src/game/player.py:7-22 | A new player has the configured lives, capacity, radius and speed at the given cell |
| Players.Player.GrantInvincibility | src/game/player.py:25-29 | Afterwards the player is invincible exactly before now + the window, and nothing else changes |
| Players.Player.CanMoveTo | src/game/player.py:64-102 | The tile loop and then the bomb loop accept exactly the positions that collide with no tile and no bomb other than the one on the soft tile |
| Players.Player.Update | src/game/player.py:35-62 | The in-place update follows the key-to-delta and axis-by-axis move function |
| Enemies.Direction.Vector | src/game/enemy.py:19 | A direction is one of the four unit vectors, with exactly one non-zero component |
| Enemies.InitialEnemy | src/game/enemy.py:8-21 | A new enemy is alive with health 1 and stands at the corner of its cell |
| Enemies.IsAtPositionIff | src/game/enemy.py:88-95 | An enemy is at (gx, gy) exactly when its corner lies in that cell's tile |
| Enemies.Damage | src/game/enemy.py:80-83 | A hit takes one point of health; the enemy is still alive exactly when it was alive and health is left; nothing else changes |
| Enemies.OneHitKills | src/game/enemy.py:14-15 | A new enemy dies on its first hit |
| Enemies.DeadStaysDead | src/game/enemy.py:80-86 | A dead enemy stays dead however many more hits it takes |
| Enemies.Retime | src/game/enemy.py:27-31 | Before the interval has elapsed nothing changes; after it, the direction and interval are redrawn and the timer restarts at now |
| Enemies.EnemyStep | src/game/enemy.py:23-50 | A dead enemy is frozen; a step never changes speed, health or liveness |
| Enemies.EnemyStepMoves | src/game/enemy.py:33-47 | A live enemy moves a full step along its direction on one axis, or stays put; every step it takes was checked clear of walls, and an enemy that started clear stays clear |
| Enemies.HorizontalMoveKeepsDirection | src/game/enemy.py:39-47 | A successful move along X keeps the direction, because the Y check then re-tests the same square |
| Enemies.Enemy.constructor | src/game/enemy.py:8-21 | The object starts in the state of a new enemy |
| Enemies.Enemy.CanMoveTo | src/game/enemy.py:52-78 | Enemy movement applies the same off-grid and wall checks as the player's and ignores bombs |
| Enemies.Enemy.Update | src/game/enemy.py:23-50 | The in-place update follows the enemy step function |
| Enemies.Enemy.TakeDamage | src/game/enemy.py:80-83 | The in-place hit follows the damage function |
| PowerUps.ApplyPowerUp | src/game/powerup.py:27-35 | Each kind changes only its own stat, a heart adds one life with no cap, and position, invincibility and soft tile are never touched |
| PowerUps.PowerUpCapped | src/game/powerup.py:28-33 | A capped stat within its cap never decreases, stays within the cap, and rises by one step exactly when there is room |
| PowerUps.PowerUpAtCap | src/game/powerup.py:28-33 | A stat at its cap is left unchanged by its own power-up |
| PowerUps.ApplyTo | src/game/powerup.py:27-35 | The in-place field update follows the power-up function |
| Explosions.NewExplosion | src/game/explosion.py:11-21 | A fresh explosion is active and contains exactly the tiles it was given |
| Explosions.NewExplosionLifetime | src/game/explosion.py:17-18 | A fresh explosion is active exactly until EXPLOSION_DURATION_MS after its start |
| Explosions.InactiveStaysInactive | src/game/explosion.py:17-18 | Once inactive, an explosion stays inactive at every later time |
| Explosions.ActiveExplosions | src/game/game_engine.py:107 | Exactly the explosions still active are kept |
| Bombs.ShouldExplodeStays | src/game/bomb.py:24-25 | Once a fuse has elapsed it stays elapsed |
| Bombs.ArmShape | src/game/bomb.py:36-48 | An arm is the run of consecutive cells from the origin through valid open cells; only its last cell may be destructible; it ends at the radius, before a blocking cell, or on a destructible cell |
| Bombs.ArmStops | src/game/bomb.py:40-48 | No cell at or beyond a blocking cell, and none beyond a destructible cell, belongs to the arm |
| Bombs.ArmLength | src/game/bomb.py:36-37 | An arm holds at most radius cells |
| Bombs.ArmsDistinct | src/game/bomb.py:36-48 | The four arms list no cell twice, and every arm cell lies at a positive distance along one of the directions walked |
| Bombs.BlastDistinct | src/game/bomb.py:33-49 | A blast lists no cell twice, so no wall is scored twice |
| Bombs.BlastBounds | src/game/bomb.py:33-49 | The origin comes first, the blast holds at most 4r + 1 cells, and no cell after the origin is off-grid or a solid wall |
| Bombs.FullArm | src/game/bomb.py:36-48 | With nothing in the way, an arm reaches exactly r cells, at steps 1 to r |
| Bombs.StepsDistinct | src/game/bomb.py:34-38 | Cells of different directions or steps differ from each other and from the origin |
| Bombs.OpenFieldBlast | src/game/bomb.py:33-49 | With no wall or destructible within r of the origin, the blast has exactly 4r + 1 distinct cells |
| Bombs.DestructibleEndsArm | src/game/bomb.py:45-48 | A destructible neighbour is included and ends its arm |
| Bombs.GetExplosionPositions | src/game/bomb.py:27-49 | The nested loop with its breaks yields the origin followed by the four arms in order, and only reads the map |
| Bombs.CastArm | src/game/bomb.py:36-48 | The inner loop yields exactly the arm along its direction |
| Engine.ClearSoftTile | src/game/game_engine.py:84-88 | The soft tile is dropped exactly when the player's cell differs from it |
| Engine.StepEnemies | src/game/game_engine.py:91-95 | Every enemy kept is alive, and kept plus removed enemies account for the whole list, each counted once |
| Engine.DestroyingSpec | src/game/game_engine.py:143-154 | Exactly the destructible walls hit become open and every other cell keeps its state; on distinct tiles each earns WALL_SCORE once; every drop lies on a wall hit and has the kind drawn for it |
| Engine.DestructibleCells | src/game/game_map.py:45-48 | A cell is in the set exactly when it holds a destructible wall |
| Engine.DestroyCells | src/game/game_map.py:50-52 | Destroying a destructible wall removes exactly that cell from the set of destructible walls |
| Engine.DestroyingCount | src/game/game_engine.py:143-149 | On distinct tiles the wall loop clears exactly as many walls as it counts destructible tiles |
| Engine.DetonationStepFacts | src/game/game_engine.py:99-104 | An elapsed bomb clears exactly the destructible walls of its blast, earns WALL_SCORE for each, appends one explosion over its blast cells and leaves the pending list alone; any other bomb stays pending and changes nothing |
| Engine.DetonateFacts | src/game/game_engine.py:98-104 | Detonation keeps the solid walls and only clears destructible ones; the score rises by exactly WALL_SCORE per destructible wall cleared; the pending bombs are exactly those whose fuse has not elapsed, even inside a blast |
| Engine.DetonateFired | src/game/game_engine.py:98-104 | Each elapsed bomb yields exactly one explosion, in bomb order: it starts now, lasts the configured duration, and its tiles are the bomb's blast on a map with the same solid walls and no more destructible walls than at the start of the loop, starting on the bomb's cell and free of repeats |
| Engine.DetonateFiredCount | src/game/game_engine.py:99-103 | The loop appends one explosion per elapsed bomb |
| Engine.DetonateFiredOnMap | src/game/game_engine.py:98-104 | The explosion of elapsed bomb i covers exactly that bomb's blast on the map the bombs before it in the list left behind |
| Engine.DetonatePendingDistinct | src/game/game_engine.py:98-104 | The pending bombs keep pairwise distinct cells |
| Engine.DetonateKeepsGrid | src/game/game_engine.py:98-104 | Detonations keep the structure of a generated map |
| Engine.Exploding | src/game/game_engine.py:100-101 | A bomb is selected exactly when it is in the list and its fuse has elapsed |
| Engine.ExplodingMultiset | src/game/game_engine.py:99-101 | Each elapsed bomb is selected as often as it occurs and no other bomb is selected |
| Engine.ExplodingOrder | src/game/game_engine.py:99-101 | The elapsed bombs keep their list order |
| Engine.Collect | src/game/game_engine.py:156-162 | Exactly the power-ups off the player's cell remain, and only the player's stats change |
| Engine.CollectCapped | src/game/game_engine.py:156-162 | Collecting keeps every stat within its cap and lowers none |
| Engine.CollectKeepsLives | src/game/game_engine.py:156-162 | Collecting never takes a life away |
| Engine.PlayerHit | src/game/game_engine.py:164-175 | An invincible player is unchanged; otherwise one life is lost, and either the game ends with no respawn or the player reappears at (1,1) with a new invincibility window |
| Engine.BlastEnemies | src/game/game_engine.py:193-199 | Kept plus removed enemies account for the whole list, and a list of live enemies keeps only live ones |
| Engine.BlastEnemiesKept | src/game/game_engine.py:193-199 | Every enemy kept is one out of the flames or one that survived its hit |
| Engine.Collisions | src/game/game_engine.py:177-199 | Collisions change only the player, the enemies and the score; enemies are only removed, each for ENEMY_SCORE |
| Engine.PlayerCollisions | src/game/game_engine.py:179-191 | Contact and flame only affect the player and the game-over flag |
| Engine.FlameEnemies | src/game/game_engine.py:193-199 | The burning-enemy phase only removes enemies, each for ENEMY_SCORE |
| Engine.CheckVictory | src/game/game_engine.py:201-204 | Victory is set, and the bonus paid, exactly when no enemy is left |
| Engine.TickPhases | src/game/game_engine.py:76-116 | A running tick is its phases in the source's order |
| Engine.Plant | src/game/game_engine.py:119-141 | Planting changes nothing exactly when one of the four rejections holds; otherwise it appends one bomb on the player's cell and sets the cooldown clock and the soft tile, and nothing else |
| Engine.PlantKeepsInv | src/game/game_engine.py:122-133 | Planting keeps the bombs within capacity and on pairwise distinct cells |
| Engine.SpawnEnemies | src/game/game_engine.py:53-56 | One live enemy per sampled cell, at that cell's corner |
| Engine.Restarted | src/game/game_engine.py:58-71 | Restart gives a new game with score 0, both flags cleared and empty lists, and keeps the cooldown clock |
| Engine.OnEvent | src/game/game_engine.py:45-50 | SPACE plants, even after the game has ended; R restarts exactly a game that is over or won; any other key changes nothing |
| Engine.StepEnemiesKeepsClear | src/game/game_engine.py:91-95 | Live enemies that stand clear all survive their steps and stay clear |
| Engine.RespawnClear | src/game/game_engine.py:173-175 | The respawn square at (1,1) is clear on any generated map |
| Engine.PlayerHitKeepsInv | src/game/game_engine.py:164-175 | Damage keeps the engine invariant |
| Engine.AfterPowerUpsKeepsInv | src/game/game_engine.py:80-110 | The move, enemy, bomb, explosion and power-up phases keep the engine invariant |
| Engine.CollisionsKeepsInv | src/game/game_engine.py:177-199 | Collisions keep the engine invariant |
| Engine.TickKeepsInv | src/game/game_engine.py:76-116 | A tick keeps the engine invariant: map structure, stats within caps, bombs within capacity on distinct cells, player and enemies clear of walls, only live enemies, and a life left in a running game |
| Engine.NewGameInv | src/game/game_engine.py:16-40 | Every new game satisfies the invariant, whatever the random draws |
| Engine.OnEventKeepsInv | src/game/game_engine.py:45-50 | Handling a key keeps the engine invariant |
| Engine.TerminalFrozen | src/game/game_engine.py:77-78 | Once the game is over or won, no number of ticks changes anything; so the victory bonus is paid once per game |
| Engine.RunKeepsInv | src/game/game_engine.py:76-116 | Every run of ticks keeps the invariant |
| Engine.ScoreNeverDecreases | src/game/game_engine.py:76-116 | The score never goes down in a tick |
| Engine.VictoryWhenCleared | src/game/game_engine.py:113-116 | A running tick ends in victory exactly when no enemy is left, and then the bonus is in the score |
| Engine.InvinciblePlayerUnharmed | src/game/game_engine.py:164-166 | An invincible player loses no life in a tick, so the tick cannot end the game |
| Engine.AtMostOneLifePerTick | src/game/game_engine.py:177-191 | Unless the game ends, a tick costs at most one life: the respawn window absorbs a flame on the same tick |
| Engine.GameEngine.constructor | src/game/game_engine.py:16-40 | The object graph starts as a new game with the cooldown clock at zero |
| Engine.GameEngine.InitializeEnemies | src/game/game_engine.py:53-56 | One new enemy per sampled spawn cell is appended, in sample order |
| Engine.GameEngine.Restart | src/game/game_engine.py:58-71 | The in-place reset leaves the restarted state |
| Engine.GameEngine.ResetFields | src/game/game_engine.py:60-69 | The flags, score, level, player, map and lists are reset before the enemies spawn |
| Engine.GameEngine.HandleEvent | src/game/game_engine.py:45-50 | SPACE plants and R restarts a finished game, as the event function says |
| Engine.GameEngine.PlantBomb | src/game/game_engine.py:119-141 | The in-place plant follows the plant function |
| Engine.GameEngine.DamagePlayer | src/game/game_engine.py:164-175 | The in-place damage follows the damage function |
| Engine.GameEngine.CheckVictoryCondition | src/game/game_engine.py:201-204 | The in-place check follows the victory function |
| Engine.GameEngine.UpdateEnemies | src/game/game_engine.py:91-95 | The loop over a copy of the enemy list moves each enemy with its own draws and drops the dead, for ENEMY_SCORE each |
| Engine.GameEngine.Update | src/game/game_engine.py:76-116 | The whole in-place tick leaves the state the tick function computes |
| Engine.GameEngine.BombStep | src/game/game_engine.py:98-104 | The bomb phase on the object graph |
| Engine.GameEngine.PowerUpStep | src/game/game_engine.py:107-110 | The expiry and power-up phases on the object graph |
| Engine.GameEngine.MoveStep | src/game/game_engine.py:80-88 | The player's move followed by the soft-tile check |
| Engine.GameEngine.DetonateBombs | src/game/game_engine.py:98-104 | The loop over a copy of the bomb list fires every elapsed bomb on the current map and keeps the rest |
| Engine.GameEngine.FireBomb | src/game/game_engine.py:100-104 | One elapsed bomb's cells are raycast, their walls destroyed and its explosion appended |
| Engine.GameEngine.ApplyDestruction | src/game/game_engine.py:143-154 | The wall loop destroys each valid destructible tile, adds WALL_SCORE and leaves the drawn power-up |
| Engine.GameEngine.CheckPlayerPowerups | src/game/game_engine.py:156-162 | The loop over a copy applies and removes every power-up on the player's cell, in list order |
| Engine.GameEngine.CheckCollisions | src/game/game_engine.py:177-199 | The in-place collision check follows the collision function |
| Engine.GameEngine.HitPlayer | src/game/game_engine.py:179-191 | At most one contact hit, then a flame on the same cell may hit again |
| Engine.GameEngine.FindContact | src/game/game_engine.py:180-187 | The contact loop up to its break reports whether an enemy stands on the player's cell |
| Engine.GameEngine.BurnEnemies | src/game/game_engine.py:193-199 | The flame loop over a copy hits each enemy in a flame and removes and scores those it kills |
| Scores.TrimLeftSpec | src/database/score_manager.py:40 | Left trimming removes a whitespace-only prefix and stops at the first other character |
| Scores.TrimRightSpec | src/database/score_manager.py:40 | Right trimming removes a whitespace-only suffix and stops at the last other character |
| Scores.StripSpec | src/database/score_manager.py:40-47 | The stripped name is the slice of the input between its leading and trailing whitespace, and neither starts nor ends with whitespace |
| Scores.BlankIff | src/database/score_manager.py:40-41 | A name is refused exactly when it is whitespace only |
| Scores.StripIdempotent | src/database/score_manager.py:47 | Stripping twice strips nothing more |
| Scores.Lower | src/database/score_manager.py:81 | Lower-casing keeps the length and maps capitals to small letters |
| Scores.LowerIdempotent | src/database/score_manager.py:81 | Lower-casing twice changes nothing more |
| Scores.InsertPermutes | src/database/score_manager.py:52-53 | Insertion adds exactly the new entry |
| Scores.InsertSorted | src/database/score_manager.py:52-53 | Inserting into a descending list keeps it descending |
| Scores.InsertClasses | src/database/score_manager.py:52-53 | Inserting places the entry last among equal scores and leaves every other score class alone |
| Scores.SortDescSpec | src/database/score_manager.py:52-53 | The sort yields a descending permutation of its input in which every score class keeps its input order |
| Scores.StableSortUnique | src/database/score_manager.py:52-53 | Any two descending lists with the same score classes are equal, so these properties determine the sort |
| Scores.Truncate | src/database/score_manager.py:55-56 | Truncation keeps the first min(n, 10) entries |
| Scores.AddedSpec | src/database/score_manager.py:39-61 | After `add_score` the table is descending and holds min(n + 1, 10) entries; each kept entry scores at least as much as each one cut off, and together they are the old entries plus the new one |
| Scores.SortedFixed | src/database/score_manager.py:52-53 | A sorted table is left as it is by the sort |
| Scores.AddedInsertsAfterTies | src/database/score_manager.py:52-53 | On a sorted table the new entry goes after every entry with an equal or higher score |
| Scores.QualifiesIff | src/database/score_manager.py:69-75 | On a sorted table of at most ten entries, a score qualifies exactly when adding it keeps the new entry; otherwise adding leaves the table unchanged |
| Scores.QualifyingAdded | src/database/score_manager.py:69-75 | A qualifying score gains the table one copy of the new entry |
| Scores.LosingUnchanged | src/database/score_manager.py:69-75 | A score that does not qualify leaves the table unchanged |
| Scores.AddedAsInsert | src/database/score_manager.py:52-56 | On a sorted table, adding is inserting after the ties and then truncating |
| Scores.LosingDropped | src/database/score_manager.py:55-56 | In a full table an entry placed after every other is the one cut |
| Scores.HighScores | src/database/score_manager.py:63-67 | The (name, score) pairs in table order |
| Scores.Matching | src/database/score_manager.py:81 | Exactly the entries whose name equals the query ignoring case, in table order |
| Scores.Highest | src/database/score_manager.py:90 | The best score belongs to some entry and no entry exceeds it |
| Scores.TotalBounded | src/database/score_manager.py:91-93 | The total never exceeds the count times the best score |
| Scores.PlayerStatsSpec | src/database/score_manager.py:77-100 | No matching game gives all zeros; otherwise the matching count, a best score one of them reached and none exceeds, and a total of at most count times best |
| Scores.MatchingSameKey | src/database/score_manager.py:81 | Names with the same lower-case form have the same statistics |
| Scores.NamesBounded | src/database/score_manager.py:117 | There are never more distinct names than entries |
| Scores.DatabaseStatsSpec | src/database/score_manager.py:105-125 | An empty table gives zeros; otherwise one game per entry, between one and that many distinct names, and the best score |
| Scores.AddedKeepsTable | src/database/score_manager.py:39-61 | Whatever the file held, a successful `add_score` leaves a descending table of at most ten entries |
| Scores.ScoreManager.constructor | src/database/score_manager.py:8-11 | The manager starts on the stored entries |
| Scores.ScoreManager.AddScore | src/database/score_manager.py:39-61 | Succeeds exactly on a non-blank name, and then leaves the table `add_score` describes; a refusal changes nothing |
| Scores.ScoreManager.GetHighScores | src/database/score_manager.py:63-67 | One pair per entry, in table order |
| Scores.ScoreManager.GetPlayerStats | src/database/score_manager.py:77-100 | Computes the player statistics of the current table |
| Scores.ScoreManager.GetDatabaseStats | src/database/score_manager.py:105-125 | Computes the table statistics |
| Scores.ScoreManager.IsHighScore | src/database/score_manager.py:69-75 | Answers the qualification test on the current table |
| Scores.ScoreManager.ClearAllScores | src/database/score_manager.py:102-103 | Leaves an empty table |
| Menus.StepSpec | src/ui/menu.py:22-30 | The selection stays in range and moves only on UP or DOWN; a call happens only on RETURN, with the selected, non-empty action; an error only on a key into an empty menu |
| Menus.Wraps | src/ui/menu.py:24-27 | UP from the first option selects the last, and DOWN from the last selects the first |
| Menus.UpDownInverse | src/ui/menu.py:24-27 | DOWN undoes UP and UP undoes DOWN |
| Menus.ReturnSelects | src/ui/menu.py:28-30 | RETURN invokes the selected action and keeps the cursor; no other event calls anything |
| Menus.Menu.constructor | src/ui/menu.py:7-16 | A new menu has no options and the cursor at 0 |
| Menus.Menu.AddOption | src/ui/menu.py:18-20 | Label and action are appended at the same index, and the cursor is kept |
| Menus.Menu.HandleEvent | src/ui/menu.py:22-30 | The in-place update follows the menu step |
| App.EditNameSpec | src/main.py:79-85 | BACKSPACE removes exactly the last character, or nothing from an empty buffer; any other key leaves the buffer or appends typable text to a buffer under the cap |
| App.EditNameCapped | src/main.py:83-85 | The buffer never exceeds 20 characters |
| App.EditNameCharacters | src/main.py:83-85 | Only letters, digits and spaces ever enter the buffer |
| App.MenuEventRuns | src/main.py:54-58 | A menu key other than ESCAPE is the menu's step followed by the callback it chose |
| App.OnEvents | src/main.py:87-98 | The events of a batch are handled in order and keep the application invariant |
| App.OnEventKeepsInv | src/main.py:87-98 | Every event keeps the application invariant |
| App.MenuEventKeepsInv | src/main.py:54-58 | Every menu event keeps the application invariant |
| App.MenuCallbackKeepsInv | src/main.py:39-47 | Every menu callback keeps the application invariant |
| App.NameStaysCapped | src/main.py:83-85 | Typing one character at a time, the buffer stays within 20 characters on every event and update |
| App.TickKeepsInv | src/main.py:100-103 | Ticking the engine keeps the application invariant |
| App.OnUpdateKeepsInv | src/main.py:100-110 | Every frame update keeps the application invariant |
| App.QuitStops | src/main.py:88-90 | QUIT stops the application on every screen and changes nothing else |
| App.EscapeLeavesGame | src/main.py:60-63 | ESCAPE in a game returns to the menu, drops the engine and keeps the scores |
| App.NameEntryEnds | src/main.py:73-82 | RETURN on a blank name changes nothing; on a non-blank name it records the score and returns to the menu with an empty buffer; ESCAPE returns to the menu without recording |
| App.RecordedEntry | src/main.py:75-78 | A qualifying score recorded from the name screen is stored once under the stripped name, and the table stays descending and at most ten long |
| App.GameEndLeavesGame | src/main.py:100-110 | The update that sees the game end goes to name entry when the score qualifies, else to the menu without an engine; otherwise the game goes on |
| App.MenuChoices | src/main.py:34-47 | The three options start a new game, open the high scores, or stop the application |
| App.BombermanApp.constructor | src/main.py:12-37 | The application starts on the menu with its three options and the stored scores |
| App.BombermanApp.StartGame | src/main.py:39-41 | A fresh engine holding a new game is attached and the game screen shown |
| App.BombermanApp.BackToMenu | src/main.py:49-52 | The menu screen is shown with the name buffer cleared |
| App.BombermanApp.HandleEvent | src/main.py:87-98 | One event of the loop changes the object graph as the event function says, and keeps it valid |
| App.BombermanApp.HandleMenuEvent | src/main.py:54-58 | The menu handler follows the menu event function |
| App.BombermanApp.RunMenuAction | src/main.py:39-47 | Running the chosen callback follows the callback function |
| App.BombermanApp.HandleGameEvent | src/main.py:60-67 | The game handler follows the game event function |
| App.BombermanApp.HandleNameInputEvent | src/main.py:73-85 | The name handler follows the name event function and allocates nothing |
| App.BombermanApp.HandleEvents | src/main.py:87-98 | The event loop follows the batch function |
| App.BombermanApp.Update | src/main.py:100-110 | The frame update follows the update function |
| App.BombermanApp.CheckGameEnd | src/main.py:104-110 | The end-of-game branch follows the game-end function |

## Left out

- Rendering: every `render` and `_render_ui` method and `src/ui/score_display.py`. They only draw.
- pygame plumbing: `pygame.key.get_pressed`, `pygame.event.get`, the `run` loops of `GameEngine` and `BombermanApp`, clock ticks, `pygame.quit`, `sys.exit` and `main`. Key states and events are records passed to each step instead.
- The wall clock: each call takes one `now` in milliseconds, where the source reads `time.time()` at every use. One tick therefore sees one instant.
- Randomness: the draws are parameters, and their distributions are not modelled. An enemy's interval is an integer number of milliseconds in [1000, 2500], where `random.uniform` gives a float.
- Floating point: positions and speeds are integers in half-pixels, which is exact for this configuration. pygame's truncation of float coordinates in `Rect` is not modelled.
- JSON file I/O, directory creation, decode-error recovery and the `date` and `last_updated` stamps of the score database. The store is the in-memory list of entries.
- `Scores.ScoreManager.GetPlayerStats`: omits `average_score`, which is a rounded float; the total and the count it is computed from are kept.
- `str.lower` and `isalnum` cover ASCII letters and digits only; Unicode case folding and non-ASCII letters and digits are not modelled. `str.strip` and `isspace` follow Python's whitespace set.
- Menu callbacks are tags (`StartGame`, `ShowHighScores`, `QuitGame`); the application runs the tagged action itself. The `Raises` outcome for an empty menu is reported, not raised; the application's menu always has three options.
- `Bomb.update` does nothing in the source and is not modelled. The accessors `get_position`, `get_score`, `is_game_over` and `is_victory` are field reads, and `is_player_position` is never called.
- An enemy's `update` takes the player as an argument and never uses it; the model drops it.
- `App.EditNameCapped`: assumes each key press types at most one character; pygame's `event.unicode` is a single character for a key press.
- `App.NameStaysCapped`: assumes the same one-character text per key press.
- `App.BombermanApp.HandleEvents`: every event of one frame sees the same `now` and the same random draws.
- `Engine.GameEngine.InitializeEnemies`: requires an empty enemy list. Both callers clear the list first, while the source itself would append to whatever is there.
- Drawing and configuration fields of the classes: the `size`, `color` and `rect` of bombs, players, enemies and power-ups, the fonts, `screen` and `clock`, and `GameEngine.running`, which only the left-out `run` loop reads. `GameEngine.bomb_cooldown` and `ScoreManager.max_scores` are the constants `BOMB_COOLDOWN_MS` and `MAX_SCORES`. `ScoreManager` keeps the in-memory `scores` list in place of `database_path`, since file I/O is not modelled.
- `setup.py`, `run_game.py` and `tests/test_score_manager.py` are packaging, launch and tests. They only serve as evidence for the score-table properties.
