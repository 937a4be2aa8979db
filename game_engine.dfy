/** The game engine: one simulation tick, bomb planting and restart, first
    as functions on an immutable state, then as the `GameEngine` class whose
    methods update its objects in place and are proved to follow them. */
module Engine {
  import opened Constants
  import opened Arena
  import opened Collision
  import opened Bombs
  import opened Explosions
  import opened Players
  import opened PowerUps
  import opened Enemies

  // ---------------------------------------------------------------------
  // State and inputs
  // ---------------------------------------------------------------------

  /** Every field of `GameEngine` that the simulation reads or writes. */
  datatype EngineState = EngineState(
    grid: Grid, player: PlayerState, enemies: seq<EnemyState>,
    bombs: seq<Bomb>, explosions: seq<Explosion>, powerups: seq<PowerUp>,
    score: int, gameOver: bool, victory: bool, level: int, lastBombTime: int)
  {
    predicate Terminal()
    {
      gameOver || victory
    }
  }

  /** What one `update` reads from outside: the clock, the key state, the
      random draws of enemy number i, and the drop decision for a destroyed
      wall at a cell (None when `random.random()` is not below the drop
      chance, else the kind `random.choice` picks). */
  datatype TickInput = TickInput(
    now: int, keys: KeyState, enemyRandom: nat -> EnemyRandom,
    drop: Cell -> Option<PowerUpKind>)

  /** The random draws a new game consumes: the wall fill, the spawn sample,
      and each new enemy's first direction and interval. */
  datatype GameDraws = GameDraws(
    fill: (int, int) -> bool, picks: seq<nat>,
    direction: nat -> Direction, interval: nat -> Interval)

  function PlayerCell(p: PlayerState): Cell
  {
    WorldToGrid(p.x, p.y)
  }

  function BombCell(b: Bomb): Cell
  {
    (b.gridX, b.gridY)
  }

  // ---------------------------------------------------------------------
  // Tick phases
  // ---------------------------------------------------------------------

  /** Drops the pass-through tile once the player's cell differs from it. */
  function ClearSoftTile(p: PlayerState): (q: PlayerState)
    ensures q.softBombTile == (if p.softBombTile == Some(PlayerCell(p)) then p.softBombTile else None)
    ensures q.(softBombTile := p.softBombTile) == p
  {
    if p.softBombTile.Some? && PlayerCell(p) != p.softBombTile.value then p.(softBombTile := None)
    else p
  }

  /** The enemy loop of `update`: enemy i takes its step with draw i, and
      those that are then dead are removed, each counted once. */
  ghost function StepEnemies(es: seq<EnemyState>, g: Grid, now: int, rnd: nat -> EnemyRandom): (r: (seq<EnemyState>, nat))
    requires g.WellFormed()
    ensures |r.0| + r.1 == |es|
    ensures forall e :: e in r.0 ==> e.alive
  {
    if es == [] then ([], 0)
    else
      var prev := StepEnemies(es[..|es| - 1], g, now, rnd);
      var e := EnemyStep(es[|es| - 1], g, now, rnd(|es| - 1));
      if !e.alive then (prev.0, prev.1 + 1) else (prev.0 + [e], prev.1)
  }

  /** One more enemy of the list: its step, then kept or counted. */
  lemma StepEnemiesLast(es: seq<EnemyState>, g: Grid, now: int, rnd: nat -> EnemyRandom, k: int)
    requires g.WellFormed() && 0 <= k < |es|
    ensures var prev := StepEnemies(es[..k], g, now, rnd);
      var e := EnemyStep(es[k], g, now, rnd(k));
      StepEnemies(es[..k + 1], g, now, rnd) == if !e.alive then (prev.0, prev.1 + 1) else (prev.0 + [e], prev.1)
  {
    assert es[..k + 1][..k] == es[..k];
  }

  /** The wall loop of `_apply_destruction_and_spawn_powerups` over a tile
      list: what it does to the grid, the score it earns and the power-ups it
      drops, in order. */
  datatype Destruction = Destruction(grid: Grid, gained: int, drops: seq<PowerUp>)

  function DropAt(c: Cell, drop: Cell -> Option<PowerUpKind>): seq<PowerUp>
  {
    match drop(c)
    case None => []
    case Some(k) => [PowerUp(c.0, c.1, k)]
  }

  function Destroying(g: Grid, tiles: seq<Cell>, drop: Cell -> Option<PowerUpKind>): (d: Destruction)
    requires g.WellFormed()
    ensures d.grid.WellFormed() && d.grid.walls == g.walls && d.gained >= 0
  {
    if tiles == [] then Destruction(g, 0, [])
    else
      var prev := Destroying(g, tiles[..|tiles| - 1], drop);
      var c := tiles[|tiles| - 1];
      if !IsValidPosition(c.0, c.1) then prev
      else if prev.grid.IsDestructibleWall(c.0, c.1) then
        Destruction(prev.grid.Destroy(c.0, c.1), prev.gained + WALL_SCORE, prev.drops + DropAt(c, drop))
      else prev
  }

  /** One more tile of the wall loop. */
  lemma DestroyingLast(g: Grid, tiles: seq<Cell>, drop: Cell -> Option<PowerUpKind>, k: int)
    requires g.WellFormed() && 0 <= k < |tiles|
    ensures var prev := Destroying(g, tiles[..k], drop);
      var c := tiles[k];
      Destroying(g, tiles[..k + 1], drop) ==
        if !IsValidPosition(c.0, c.1) then prev
        else if prev.grid.IsDestructibleWall(c.0, c.1) then
          Destruction(prev.grid.Destroy(c.0, c.1), prev.gained + WALL_SCORE, prev.drops + DropAt(c, drop))
        else prev
  {
    assert tiles[..k + 1][..k] == tiles[..k];
  }

  /** How many entries of `tiles` are destructible walls in `g`. */
  function DestructibleCount(g: Grid, tiles: seq<Cell>): nat
    requires g.WellFormed()
  {
    if tiles == [] then 0
    else DestructibleCount(g, tiles[..|tiles| - 1]) +
         (if g.IsDestructibleWall(tiles[|tiles| - 1].0, tiles[|tiles| - 1].1) then 1 else 0)
  }

  /** Exactly the destructible walls hit become open, every other cell keeps
      its state, and when the tiles are distinct each wall hit earns
      WALL_SCORE once. Every drop lies on a wall that was hit and carries the
      kind the drop decision gave for that cell. */
  lemma {:induction false} DestroyingSpec(g: Grid, tiles: seq<Cell>, drop: Cell -> Option<PowerUpKind>)
    requires g.WellFormed()
    ensures var d := Destroying(g, tiles, drop);
      (forall x, y :: d.grid.IsDestructibleWall(x, y) <==> g.IsDestructibleWall(x, y) && (x, y) !in tiles) &&
      (Distinct(tiles) ==> d.gained == WALL_SCORE * DestructibleCount(g, tiles)) &&
      (forall pu :: pu in d.drops ==>
         (pu.gridX, pu.gridY) in tiles && g.IsDestructibleWall(pu.gridX, pu.gridY) &&
         drop((pu.gridX, pu.gridY)) == Some(pu.kind))
  {
    if tiles != [] {
      var pre := tiles[..|tiles| - 1];
      var c := tiles[|tiles| - 1];
      assert tiles == pre + [c];
      DestroyingSpec(g, pre, drop);
      var prev := Destroying(g, pre, drop);
      if Distinct(tiles) {
        assert Distinct(pre) by {
          forall i, j | 0 <= i < j < |pre| ensures pre[i] != pre[j] {
            assert pre[i] == tiles[i] && pre[j] == tiles[j];
          }
        }
        assert c !in pre by {
          forall i | 0 <= i < |pre| ensures pre[i] != c {
            assert pre[i] == tiles[i];
          }
        }
        assert prev.grid.IsDestructibleWall(c.0, c.1) == g.IsDestructibleWall(c.0, c.1);
      }
    }
  }

  /** The destructible walls of a grid, as a set of cells. */
  function DestructibleCells(g: Grid): (cells: set<Cell>)
    requires g.WellFormed()
    ensures forall c :: c in cells <==> g.IsDestructibleWall(c.0, c.1)
  {
    set x: int, y: int | 0 <= x < MAP_WIDTH && 0 <= y < MAP_HEIGHT && g.IsDestructibleWall(x, y) :: (x, y)
  }

  /** Destroying a destructible wall removes exactly that cell from the set. */
  lemma DestroyCells(g: Grid, x: int, y: int)
    requires g.WellFormed() && g.IsDestructibleWall(x, y)
    ensures DestructibleCells(g.Destroy(x, y)) == DestructibleCells(g) - {(x, y)}
    ensures |DestructibleCells(g.Destroy(x, y))| == |DestructibleCells(g)| - 1
  {
    assert (x, y) in DestructibleCells(g);
  }

  /** A duplicate-free list without its last element is duplicate-free and
      does not hold that element. */
  lemma DistinctInit(tiles: seq<Cell>)
    requires Distinct(tiles) && tiles != []
    ensures Distinct(tiles[..|tiles| - 1]) && tiles[|tiles| - 1] !in tiles[..|tiles| - 1]
  {
    var pre := tiles[..|tiles| - 1];
    forall i, j | 0 <= i < j < |pre| ensures pre[i] != pre[j] {
      assert pre[i] == tiles[i] && pre[j] == tiles[j];
    }
    forall i | 0 <= i < |pre| ensures pre[i] != tiles[|tiles| - 1] {
      assert pre[i] == tiles[i];
    }
  }

  /** On a duplicate-free tile list the wall loop removes exactly
      DestructibleCount walls from the grid. */
  lemma {:induction false} DestroyingCount(g: Grid, tiles: seq<Cell>, drop: Cell -> Option<PowerUpKind>)
    requires g.WellFormed() && Distinct(tiles)
    ensures |DestructibleCells(g)| == |DestructibleCells(Destroying(g, tiles, drop).grid)| + DestructibleCount(g, tiles)
  {
    if tiles != [] {
      var pre := tiles[..|tiles| - 1];
      var c := tiles[|tiles| - 1];
      DistinctInit(tiles);
      DestroyingCount(g, pre, drop);
      DestroyingSpec(g, pre, drop);
      var prev := Destroying(g, pre, drop);
      assert prev.grid.IsDestructibleWall(c.0, c.1) == g.IsDestructibleWall(c.0, c.1);
      if IsValidPosition(c.0, c.1) && prev.grid.IsDestructibleWall(c.0, c.1) {
        DestroyCells(prev.grid, c.0, c.1);
      }
    }
  }

  /** `h` is `g` with some of its destructible walls cleared: the state of
      the map at any point of the bomb loop. */
  ghost predicate Cleared(g: Grid, h: Grid)
  {
    g.WellFormed() && h.WellFormed() && h.walls == g.walls &&
    forall x, y :: h.IsDestructibleWall(x, y) ==> g.IsDestructibleWall(x, y)
  }

  /** The bomb loop of `update`: each bomb whose fuse has elapsed, in order,
      is raycast on the grid as the earlier detonations left it, its walls
      are destroyed, and one explosion over its cells is produced; the other
      bombs stay, even when a blast covers them. */
  datatype Detonation = Detonation(
    grid: Grid, pending: seq<Bomb>, gained: int, fired: seq<Explosion>, drops: seq<PowerUp>)

  function Detonate(g: Grid, bombs: seq<Bomb>, now: int, drop: Cell -> Option<PowerUpKind>): (d: Detonation)
    requires g.WellFormed()
    ensures d.grid.WellFormed()
  {
    if bombs == [] then Detonation(g, [], 0, [], [])
    else DetonationStep(Detonate(g, bombs[..|bombs| - 1], now, drop), bombs[|bombs| - 1], now, drop)
  }

  /** The bomb loop keeps the solid walls, only ever clears destructible
      walls, earns WALL_SCORE for each wall it clears and nothing else, and
      splits the bombs into the pending ones (exactly those whose fuse has
      not elapsed) and one explosion per fired bomb. */
  lemma {:induction false} DetonateFacts(g: Grid, bombs: seq<Bomb>, now: int, drop: Cell -> Option<PowerUpKind>)
    requires g.WellFormed()
    ensures var d := Detonate(g, bombs, now, drop);
      d.grid.walls == g.walls && d.gained >= 0 &&
      (forall x, y :: d.grid.IsDestructibleWall(x, y) ==> g.IsDestructibleWall(x, y)) &&
      d.gained == WALL_SCORE * (|DestructibleCells(g)| - |DestructibleCells(d.grid)|) &&
      |d.pending| + |d.fired| == |bombs| &&
      (forall b :: b in d.pending <==> b in bombs && !ShouldExplode(b, now))
  {
    if bombs != [] {
      var pre, b := bombs[..|bombs| - 1], bombs[|bombs| - 1];
      assert bombs == pre + [b];
      DetonateFacts(g, pre, now, drop);
      DetonationStepFacts(Detonate(g, pre, now, drop), b, now, drop);
    }
  }

  /** One bomb of the loop: an elapsed one is raycast on the current grid,
      destroys its walls and fires; any other stays pending. */
  function DetonationStep(d: Detonation, b: Bomb, now: int, drop: Cell -> Option<PowerUpKind>): (r: Detonation)
    requires d.grid.WellFormed()
    ensures r.grid.WellFormed()
  {
    if ShouldExplode(b, now) then
      var tiles := BlastCells(d.grid, b);
      var dd := Destroying(d.grid, tiles, drop);
      Detonation(dd.grid, d.pending, d.gained + dd.gained,
                 d.fired + [NewExplosion(tiles, now)], d.drops + dd.drops)
    else
      d.(pending := d.pending + [b])
  }

  /** One bomb keeps the solid walls and only clears destructible walls. An
      elapsed bomb clears exactly the destructible walls of its blast, earns
      WALL_SCORE for each of them, adds one explosion over its blast cells
      and leaves the pending list alone; any other bomb joins the pending
      list and changes nothing else. */
  lemma DetonationStepFacts(d: Detonation, b: Bomb, now: int, drop: Cell -> Option<PowerUpKind>)
    requires d.grid.WellFormed()
    ensures var r := DetonationStep(d, b, now, drop);
      r.grid.walls == d.grid.walls && r.gained >= d.gained &&
      (forall x, y :: r.grid.IsDestructibleWall(x, y) ==> d.grid.IsDestructibleWall(x, y)) &&
      r.gained - d.gained == WALL_SCORE * (|DestructibleCells(d.grid)| - |DestructibleCells(r.grid)|) &&
      (ShouldExplode(b, now) ==>
         var tiles := BlastCells(d.grid, b);
         r.pending == d.pending && r.fired == d.fired + [NewExplosion(tiles, now)] &&
         r.gained == d.gained + WALL_SCORE * DestructibleCount(d.grid, tiles) &&
         (forall x, y :: r.grid.IsDestructibleWall(x, y) <==> d.grid.IsDestructibleWall(x, y) && (x, y) !in tiles)) &&
      (!ShouldExplode(b, now) ==> r == d.(pending := d.pending + [b]))
  {
    if ShouldExplode(b, now) {
      var tiles := BlastCells(d.grid, b);
      BlastDistinct(d.grid, b);
      DestroyingSpec(d.grid, tiles, drop);
      DestroyingCount(d.grid, tiles, drop);
    }
  }

  /** One more bomb of the bomb loop. */
  lemma DetonateLast(g: Grid, bombs: seq<Bomb>, now: int, drop: Cell -> Option<PowerUpKind>, k: int)
    requires g.WellFormed() && 0 <= k < |bombs|
    ensures Detonate(g, bombs[..k + 1], now, drop) == DetonationStep(Detonate(g, bombs[..k], now, drop), bombs[k], now, drop)
  {
    assert bombs[..k + 1][..k] == bombs[..k];
  }

  /** The bomb loop after its first k bombs, counted by index as the loop
      counts them. */
  function DetonatePrefix(g: Grid, bombs: seq<Bomb>, k: nat, now: int, drop: Cell -> Option<PowerUpKind>): (d: Detonation)
    requires g.WellFormed() && k <= |bombs|
    ensures d.grid.WellFormed()
  {
    if k == 0 then Detonation(g, [], 0, [], [])
    else DetonationStep(DetonatePrefix(g, bombs, k - 1, now, drop), bombs[k - 1], now, drop)
  }

  /** Counting by index visits the same bombs as taking the first k. */
  lemma {:induction false} DetonatePrefixIsDetonate(g: Grid, bombs: seq<Bomb>, k: nat, now: int, drop: Cell -> Option<PowerUpKind>)
    requires g.WellFormed() && k <= |bombs|
    ensures DetonatePrefix(g, bombs, k, now, drop) == Detonate(g, bombs[..k], now, drop)
  {
    if k > 0 {
      DetonatePrefixIsDetonate(g, bombs, k - 1, now, drop);
      assert bombs[..k][..k - 1] == bombs[..k - 1];
    }
  }

  /** The bombs whose fuse has elapsed, in order. */
  function Exploding(bombs: seq<Bomb>, now: int): (r: seq<Bomb>)
    ensures forall b :: b in r <==> b in bombs && ShouldExplode(b, now)
  {
    if bombs == [] then []
    else
      var b := bombs[|bombs| - 1];
      assert bombs == bombs[..|bombs| - 1] + [b];
      Exploding(bombs[..|bombs| - 1], now) + (if ShouldExplode(b, now) then [b] else [])
  }

  /** The elapsed bombs keep their multiplicity: each elapsed bomb is
      listed as often as it occurs, and no other bomb is listed. */
  lemma {:induction false} ExplodingMultiset(bombs: seq<Bomb>, now: int)
    ensures var r := Exploding(bombs, now);
      |r| <= |bombs| &&
      forall b :: multiset(r)[b] == if ShouldExplode(b, now) then multiset(bombs)[b] else 0
  {
    if bombs != [] {
      var pre, b := bombs[..|bombs| - 1], bombs[|bombs| - 1];
      assert bombs == pre + [b];
      ExplodingMultiset(pre, now);
    }
  }

  /** The elapsed bombs keep their order: elapsed bomb i is listed at the
      position given by the number of elapsed bombs before it. */
  lemma {:induction false} ExplodingOrder(bombs: seq<Bomb>, now: int)
    ensures var r := Exploding(bombs, now);
      forall i :: 0 <= i < |bombs| && ShouldExplode(bombs[i], now) ==>
        |Exploding(bombs[..i], now)| < |r| && r[|Exploding(bombs[..i], now)|] == bombs[i]
  {
    if bombs != [] {
      var pre, b := bombs[..|bombs| - 1], bombs[|bombs| - 1];
      ExplodingOrder(pre, now);
      var r := Exploding(bombs, now);
      var rp := Exploding(pre, now);
      assert r == rp + (if ShouldExplode(b, now) then [b] else []);
      forall i | 0 <= i < |bombs| && ShouldExplode(bombs[i], now)
        ensures |Exploding(bombs[..i], now)| < |r| && r[|Exploding(bombs[..i], now)|] == bombs[i]
      {
        if i < |pre| {
          assert bombs[..i] == pre[..i] && bombs[i] == pre[i];
        } else {
          assert bombs[..i] == pre;
        }
      }
    }
  }

  /** Exploding bomb k produces explosion k: it starts now and burns for the
      configured duration, and its tiles are the blast of that bomb on a map
      with the same solid walls and no destructible wall the loop started
      without, so they start with the bomb's own cell and list no cell
      twice. DetonateFiredOnMap names that map exactly. */
  lemma {:induction false} DetonateFired(g: Grid, bombs: seq<Bomb>, now: int, drop: Cell -> Option<PowerUpKind>)
    requires g.WellFormed()
    ensures var d := Detonate(g, bombs, now, drop);
      var ex := Exploding(bombs, now);
      |d.fired| == |ex| &&
      forall k :: 0 <= k < |d.fired| ==>
        d.fired[k].started == now && d.fired[k].durationMs == EXPLOSION_DURATION_MS &&
        |d.fired[k].tiles| >= 1 && d.fired[k].tiles[0] == BombCell(ex[k]) &&
        Distinct(d.fired[k].tiles) &&
        exists h: Grid :: Cleared(g, h) && d.fired[k].tiles == BlastCells(h, ex[k])
  {
    if bombs != [] {
      var pre, b := bombs[..|bombs| - 1], bombs[|bombs| - 1];
      DetonateFired(g, pre, now, drop);
      var dp := Detonate(g, pre, now, drop);
      DetonationStepFacts(dp, b, now, drop);
      if ShouldExplode(b, now) {
        DetonateFacts(g, pre, now, drop);
        BlastDistinct(dp.grid, b);
        assert Cleared(g, dp.grid);
      }
    }
  }

  /** The bomb loop fires one explosion per elapsed bomb. */
  lemma {:induction false} DetonateFiredCount(g: Grid, bombs: seq<Bomb>, now: int, drop: Cell -> Option<PowerUpKind>)
    requires g.WellFormed()
    ensures |Detonate(g, bombs, now, drop).fired| == |Exploding(bombs, now)|
  {
    if bombs != [] {
      var pre, b := bombs[..|bombs| - 1], bombs[|bombs| - 1];
      DetonateFiredCount(g, pre, now, drop);
      DetonationStepFacts(Detonate(g, pre, now, drop), b, now, drop);
    }
  }

  /** The explosion of elapsed bomb i covers exactly that bomb's blast on
      the map as the bombs before it in the list left it. */
  lemma {:induction false} DetonateFiredOnMap(g: Grid, bombs: seq<Bomb>, now: int, drop: Cell -> Option<PowerUpKind>)
    requires g.WellFormed()
    ensures var d := Detonate(g, bombs, now, drop);
      forall i :: 0 <= i < |bombs| && ShouldExplode(bombs[i], now) ==>
        |Exploding(bombs[..i], now)| < |d.fired| &&
        d.fired[|Exploding(bombs[..i], now)|].tiles == BlastCells(Detonate(g, bombs[..i], now, drop).grid, bombs[i])
  {
    if bombs != [] {
      var pre, b := bombs[..|bombs| - 1], bombs[|bombs| - 1];
      DetonateFiredOnMap(g, pre, now, drop);
      DetonateFiredCount(g, pre, now, drop);
      var dp := Detonate(g, pre, now, drop);
      var d := Detonate(g, bombs, now, drop);
      assert d == DetonationStep(dp, b, now, drop);
      DetonationStepFacts(dp, b, now, drop);
      assert |dp.fired| <= |d.fired| && d.fired[..|dp.fired|] == dp.fired;
      forall i | 0 <= i < |bombs| && ShouldExplode(bombs[i], now)
        ensures |Exploding(bombs[..i], now)| < |d.fired| &&
          d.fired[|Exploding(bombs[..i], now)|].tiles == BlastCells(Detonate(g, bombs[..i], now, drop).grid, bombs[i])
      {
        if i < |pre| {
          assert bombs[..i] == pre[..i] && bombs[i] == pre[i];
          var k := |Exploding(pre[..i], now)|;
          assert d.fired[k] == d.fired[..|dp.fired|][k];
        } else {
          assert bombs[..i] == pre;
        }
      }
    }
  }

  /** Detonations keep the map invariant. */
  lemma {:induction false} DetonateKeepsGrid(g: Grid, bombs: seq<Bomb>, now: int, drop: Cell -> Option<PowerUpKind>)
    requires GridInv(g)
    ensures GridInv(Detonate(g, bombs, now, drop).grid)
  {
    var d := Detonate(g, bombs, now, drop);
    DetonateFacts(g, bombs, now, drop);
    forall x, y | IsValidPosition(x, y) && d.grid.destructible[y][x]
      ensures !d.grid.walls[y][x] && InBand(x, y)
    {
      assert d.grid.IsDestructibleWall(x, y);
    }
  }

  /** `_check_player_powerups` with the player's cell fixed before the loop:
      every power-up on that cell is applied, in order, and removed. */
  function Collect(p: PlayerState, pus: seq<PowerUp>, cell: Cell): (r: (PlayerState, seq<PowerUp>))
    ensures forall pu :: pu in r.1 <==> pu in pus && (pu.gridX, pu.gridY) != cell
    ensures |r.1| <= |pus|
    ensures r.0.(speed := p.speed, lives := p.lives, bombCapacity := p.bombCapacity,
                 flameRadius := p.flameRadius) == p
  {
    if pus == [] then (p, [])
    else
      var prev := Collect(p, pus[..|pus| - 1], cell);
      var pu := pus[|pus| - 1];
      assert pus == pus[..|pus| - 1] + [pu];
      if (pu.gridX, pu.gridY) == cell then (ApplyPowerUp(pu.kind, prev.0), prev.1)
      else (prev.0, prev.1 + [pu])
  }

  /** One more power-up of the collection loop. */
  lemma CollectLast(p: PlayerState, pus: seq<PowerUp>, cell: Cell, k: int)
    requires 0 <= k < |pus|
    ensures var prev := Collect(p, pus[..k], cell);
      var pu := pus[k];
      Collect(p, pus[..k + 1], cell) ==
        if (pu.gridX, pu.gridY) == cell then (ApplyPowerUp(pu.kind, prev.0), prev.1)
        else (prev.0, prev.1 + [pu])
  {
    assert pus[..k + 1][..k] == pus[..k];
  }

  /** Collecting keeps every stat within its cap and lowers none. */
  lemma {:induction false} CollectCapped(p: PlayerState, pus: seq<PowerUp>, cell: Cell)
    requires WithinCaps(p)
    ensures var q := Collect(p, pus, cell).0;
      WithinCaps(q) && q.bombCapacity >= p.bombCapacity && q.lives >= p.lives &&
      q.speed >= p.speed && q.flameRadius >= p.flameRadius
  {
    if pus != [] {
      var prev := Collect(p, pus[..|pus| - 1], cell);
      CollectCapped(p, pus[..|pus| - 1], cell);
      PowerUpCapped(pus[|pus| - 1].kind, prev.0);
    }
  }

  /** Collecting never takes a life away. */
  lemma {:induction false} CollectKeepsLives(p: PlayerState, pus: seq<PowerUp>, cell: Cell)
    ensures Collect(p, pus, cell).0.lives >= p.lives
  {
    if pus != [] {
      CollectKeepsLives(p, pus[..|pus| - 1], cell);
    }
  }

  /** `_damage_player`. */
  function PlayerHit(s: EngineState, now: int): (r: EngineState)
    ensures s.player.IsInvincible(now) ==> r == s
    ensures !s.player.IsInvincible(now) ==> r.player.lives == s.player.lives - 1
    ensures !s.player.IsInvincible(now) && s.player.lives <= 1 ==>
              r.gameOver && r.player == s.player.(lives := s.player.lives - 1)
    ensures !s.player.IsInvincible(now) && s.player.lives > 1 ==>
              r.gameOver == s.gameOver && PlayerCell(r.player) == (1, 1) &&
              r.player == s.player.(lives := s.player.lives - 1, x := TILE, y := TILE,
                                    invincibleUntil := now + PLAYER_INVINCIBILITY_MS)
    ensures r.(player := s.player, gameOver := s.gameOver) == s
  {
    if s.player.IsInvincible(now) then s
    else
      var p := s.player.(lives := s.player.lives - 1);
      if p.lives <= 0 then s.(player := p, gameOver := true)
      else
        var w := GridToWorld(1, 1);
        s.(player := p.(x := w.0, y := w.1, invincibleUntil := now + PLAYER_INVINCIBILITY_MS))
  }

  predicate EnemyAtCell(es: seq<EnemyState>, cell: Cell)
  {
    exists i :: 0 <= i < |es| && GridPosition(es[i]) == cell
  }

  predicate InAnyExplosion(xs: seq<Explosion>, cell: Cell)
  {
    exists i :: 0 <= i < |xs| && xs[i].Contains(cell.0, cell.1)
  }

  /** The enemy half of `_check_collisions`: each enemy whose cell is in a
      flame takes one hit and is removed, and counted, if that kills it. */
  function BlastEnemies(es: seq<EnemyState>, xs: seq<Explosion>): (r: (seq<EnemyState>, nat))
    ensures |r.0| + r.1 == |es|
    ensures (forall e :: e in es ==> e.alive) ==> forall e :: e in r.0 ==> e.alive
  {
    if es == [] then ([], 0)
    else
      var prev := BlastEnemies(es[..|es| - 1], xs);
      var e := es[|es| - 1];
      assert es == es[..|es| - 1] + [e];
      if InAnyExplosion(xs, GridPosition(e)) then
        var d := Damage(e);
        if !d.alive then (prev.0, prev.1 + 1) else (prev.0 + [d], prev.1)
      else (prev.0 + [e], prev.1)
  }

  /** One more enemy of the flame loop. */
  lemma BlastEnemiesLast(es: seq<EnemyState>, xs: seq<Explosion>, k: int)
    requires 0 <= k < |es|
    ensures var prev := BlastEnemies(es[..k], xs);
      var e := es[k];
      BlastEnemies(es[..k + 1], xs) ==
        if InAnyExplosion(xs, GridPosition(e)) then
          (var d := Damage(e); if !d.alive then (prev.0, prev.1 + 1) else (prev.0 + [d], prev.1))
        else (prev.0 + [e], prev.1)
  {
    assert es[..k + 1][..k] == es[..k];
  }

  /** Every kept enemy is an unhit enemy of the list, or a hit one that
      survived; so a list of one-hit enemies keeps exactly those out of the
      flames. */
  lemma {:induction false} BlastEnemiesKept(es: seq<EnemyState>, xs: seq<Explosion>)
    ensures forall e :: e in BlastEnemies(es, xs).0 ==>
      (e in es && !InAnyExplosion(xs, GridPosition(e))) ||
      (exists f :: f in es && e == Damage(f) && InAnyExplosion(xs, GridPosition(f)))
  {
    if es != [] {
      BlastEnemiesKept(es[..|es| - 1], xs);
      assert es == es[..|es| - 1] + [es[|es| - 1]];
    }
  }

  /** `_check_collisions`: the player's cell is taken once; enemy contact
      damages the player at most once, then a flame on that same cell may
      damage again, then the enemies in flames are hit. */
  function Collisions(s: EngineState, now: int): (r: EngineState)
    ensures r.grid == s.grid && r.bombs == s.bombs && r.explosions == s.explosions &&
            r.powerups == s.powerups && r.victory == s.victory && r.level == s.level &&
            r.lastBombTime == s.lastBombTime
    ensures |r.enemies| <= |s.enemies| && r.score == s.score + ENEMY_SCORE * (|s.enemies| - |r.enemies|)
  {
    FlameEnemies(PlayerCollisions(s, now))
  }

  /** The player half of `_check_collisions`, with the cell taken once. */
  function PlayerCollisions(s: EngineState, now: int): (r: EngineState)
    ensures r.(player := s.player, gameOver := s.gameOver) == s
  {
    var cell := PlayerCell(s.player);
    var s1 := if EnemyAtCell(s.enemies, cell) then PlayerHit(s, now) else s;
    if InAnyExplosion(s1.explosions, cell) then PlayerHit(s1, now) else s1
  }

  function FlameEnemies(s: EngineState): (r: EngineState)
    ensures r.(enemies := s.enemies, score := s.score) == s
  {
    var b := BlastEnemies(s.enemies, s.explosions);
    s.(enemies := b.0, score := s.score + ENEMY_SCORE * b.1)
  }

  /** `_check_victory_condition`. */
  function CheckVictory(s: EngineState): (r: EngineState)
    ensures r.victory <==> s.victory || |s.enemies| == 0
    ensures r.score == s.score + (if |s.enemies| == 0 then LEVEL_COMPLETE_BONUS else 0)
    ensures r.(victory := s.victory, score := s.score) == s
  {
    if |s.enemies| == 0 then s.(victory := true, score := s.score + LEVEL_COMPLETE_BONUS) else s
  }

  /** The state after the move, soft-tile, enemy, bomb and explosion phases
      of `update`, before power-ups and collisions. */
  ghost function AfterBombs(s: EngineState, i: TickInput): (r: EngineState)
    requires s.grid.WellFormed()
    ensures r.grid.WellFormed()
  {
    var p := ClearSoftTile(MovePlayer(s.player, i.keys, s.grid, s.bombs, s.player.softBombTile));
    var es := StepEnemies(s.enemies, s.grid, i.now, i.enemyRandom);
    var d := Detonate(s.grid, s.bombs, i.now, i.drop);
    s.(player := p, enemies := es.0, score := s.score + ENEMY_SCORE * es.1 + d.gained,
       grid := d.grid, bombs := d.pending,
       explosions := ActiveExplosions(s.explosions + d.fired, i.now),
       powerups := s.powerups + d.drops)
  }

  ghost function AfterPowerUps(s: EngineState, i: TickInput): (r: EngineState)
    requires s.grid.WellFormed()
    ensures r.grid.WellFormed()
  {
    var a := AfterBombs(s, i);
    var c := Collect(a.player, a.powerups, PlayerCell(a.player));
    a.(player := c.0, powerups := c.1)
  }

  /** `update`: nothing once the game is over or won; otherwise every phase
      in the source's order, with one clock reading for the whole tick. */
  ghost function Tick(s: EngineState, i: TickInput): (r: EngineState)
    requires s.grid.WellFormed()
    ensures r.grid.WellFormed()
  {
    if s.Terminal() then s
    else CheckVictory(Collisions(AfterPowerUps(s, i), i.now))
  }

  /** The phases of a running tick one by one, each on the state the
      previous one left; the class methods follow these. */
  ghost function MovePhase(s: EngineState, keys: KeyState): (r: EngineState)
    requires s.grid.WellFormed()
    ensures r.grid == s.grid
  {
    s.(player := ClearSoftTile(MovePlayer(s.player, keys, s.grid, s.bombs, s.player.softBombTile)))
  }

  ghost function EnemyPhase(s: EngineState, now: int, rnd: nat -> EnemyRandom): (r: EngineState)
    requires s.grid.WellFormed()
    ensures r.grid == s.grid
  {
    var es := StepEnemies(s.enemies, s.grid, now, rnd);
    s.(enemies := es.0, score := s.score + ENEMY_SCORE * es.1)
  }

  function BombPhase(s: EngineState, now: int, drop: Cell -> Option<PowerUpKind>): (r: EngineState)
    requires s.grid.WellFormed()
    ensures r.grid.WellFormed()
  {
    var d := Detonate(s.grid, s.bombs, now, drop);
    s.(grid := d.grid, bombs := d.pending, score := s.score + d.gained,
       explosions := s.explosions + d.fired, powerups := s.powerups + d.drops)
  }

  function CollectPhase(s: EngineState): EngineState
  {
    var c := Collect(s.player, s.powerups, PlayerCell(s.player));
    s.(player := c.0, powerups := c.1)
  }

  /** A running tick is its phases in order: move, enemies, bombs, expiry of
      the explosions, power-ups, collisions and the victory check. */
  lemma TickPhases(s: EngineState, i: TickInput)
    requires s.grid.WellFormed() && !s.Terminal()
    ensures var b := BombPhase(EnemyPhase(MovePhase(s, i.keys), i.now, i.enemyRandom), i.now, i.drop);
      Tick(s, i) == CheckVictory(Collisions(CollectPhase(b.(explosions := ActiveExplosions(b.explosions, i.now))), i.now))
  {
    var b := BombPhase(EnemyPhase(MovePhase(s, i.keys), i.now, i.enemyRandom), i.now, i.drop);
    assert AfterBombs(s, i) == b.(explosions := ActiveExplosions(b.explosions, i.now));
  }

  // ---------------------------------------------------------------------
  // Commands
  // ---------------------------------------------------------------------

  predicate BombAt(bombs: seq<Bomb>, cell: Cell)
  {
    exists i :: 0 <= i < |bombs| && BombCell(bombs[i]) == cell
  }

  /** The four reasons `_plant_bomb` returns early. */
  predicate PlantRejected(s: EngineState, now: int)
    requires s.grid.WellFormed()
  {
    var cell := PlayerCell(s.player);
    |s.bombs| >= s.player.bombCapacity ||
    now - s.lastBombTime < BOMB_COOLDOWN_MS ||
    !s.grid.CanPlaceBomb(cell.0, cell.1) ||
    BombAt(s.bombs, cell)
  }

  /** `_plant_bomb`: rejected, it changes nothing; otherwise it appends one
      bomb on the player's cell, restarts the cooldown and makes that cell
      the pass-through tile, and changes nothing else. */
  function Plant(s: EngineState, now: int): (r: EngineState)
    requires s.grid.WellFormed()
    ensures r == s <==> PlantRejected(s, now)
    ensures !PlantRejected(s, now) ==>
      var cell := PlayerCell(s.player);
      r.bombs == s.bombs + [NewBomb(cell.0, cell.1, BOMB_TIMER_MS, now)] &&
      r.lastBombTime == now && r.player == s.player.(softBombTile := Some(cell)) &&
      r.(bombs := s.bombs, lastBombTime := s.lastBombTime, player := s.player) == s
  {
    var cell := PlayerCell(s.player);
    if PlantRejected(s, now) then s
    else
      assert |s.bombs + [NewBomb(cell.0, cell.1, BOMB_TIMER_MS, now)]| != |s.bombs|;
      s.(bombs := s.bombs + [NewBomb(cell.0, cell.1, BOMB_TIMER_MS, now)], lastBombTime := now,
         player := s.player.(softBombTile := Some(cell)))
  }

  /** The enemies `_initialize_enemies` creates, one per sampled cell. */
  function SpawnEnemies(cells: seq<Cell>, draws: GameDraws, now: int): (es: seq<EnemyState>)
    ensures |es| == |cells|
    ensures forall k :: 0 <= k < |cells| ==>
              es[k].alive && (es[k].x, es[k].y) == GridToWorld(cells[k].0, cells[k].1)
  {
    var es := seq(|cells|, k requires 0 <= k < |cells| =>
      InitialEnemy(cells[k].0, cells[k].1, ENEMY_SPEED, draws.direction(k), draws.interval(k), now));
    assert forall k :: 0 <= k < |cells| ==>
      es[k] == InitialEnemy(cells[k].0, cells[k].1, ENEMY_SPEED, draws.direction(k), draws.interval(k), now);
    es
  }

  /** A new game as `__init__` and `_restart_game` build it. */
  function NewGame(draws: GameDraws, now: int, lastBombTime: int): EngineState
  {
    var g := Generate(draws.fill);
    var cells := Sample(SpawnCandidates(g), ENEMY_COUNT, draws.picks);
    EngineState(g, InitialPlayer(1, 1, PLAYER_SPEED), SpawnEnemies(cells, draws, now),
                [], [], [], 0, false, false, 1, lastBombTime)
  }

  /** `_restart_game`: a new game, except that the bomb cooldown clock is
      not reset. */
  function Restarted(s: EngineState, draws: GameDraws, now: int): (r: EngineState)
    ensures r.score == 0 && !r.gameOver && !r.victory && r.level == 1
    ensures r.bombs == [] && r.explosions == [] && r.powerups == []
    ensures r.player == InitialPlayer(1, 1, PLAYER_SPEED) && r.lastBombTime == s.lastBombTime
    ensures r.grid == Generate(draws.fill)
  {
    NewGame(draws, now, s.lastBombTime)
  }

  datatype Key = Space | KeyR | OtherKey
  datatype EngineEvent = KeyDown(key: Key) | OtherEvent

  /** `handle_event`: SPACE plants (even after the game has ended), R
      restarts only once the game is over or won. */
  function OnEvent(s: EngineState, ev: EngineEvent, now: int, draws: GameDraws): (r: EngineState)
    requires s.grid.WellFormed()
    ensures ev == KeyDown(Space) ==> r == Plant(s, now)
    ensures ev == KeyDown(KeyR) ==> r == if s.Terminal() then Restarted(s, draws, now) else s
    ensures ev != KeyDown(Space) && ev != KeyDown(KeyR) ==> r == s
  {
    match ev
    case KeyDown(Space) => Plant(s, now)
    case KeyDown(KeyR) => if s.Terminal() then Restarted(s, draws, now) else s
    case _ => s
  }

  // ---------------------------------------------------------------------
  // The engine invariant
  // ---------------------------------------------------------------------

  predicate BombCellsDistinct(bombs: seq<Bomb>)
  {
    forall i, j :: 0 <= i < j < |bombs| ==> BombCell(bombs[i]) != BombCell(bombs[j])
  }

  /** What every reachable engine state satisfies: the map invariant; stats
      within their caps; no more bombs than the capacity and never two on a
      cell; the player and every enemy standing clear of walls; only live
      enemies in the list; and a running game has a life left. */
  ghost predicate EngineInv(s: EngineState)
  {
    GridInv(s.grid) &&
    WithinCaps(s.player) &&
    |s.bombs| <= s.player.bombCapacity &&
    BombCellsDistinct(s.bombs) &&
    TilesClear(s.grid, s.player.x, s.player.y) &&
    (forall e :: e in s.enemies ==> e.alive && TilesClear(s.grid, e.x, e.y)) &&
    (!s.gameOver ==> s.player.lives >= 1)
  }

  /** With only live, clear enemies, the enemy loop removes none, and every
      enemy it keeps is still clear. */
  lemma {:induction false} StepEnemiesKeepsClear(es: seq<EnemyState>, g: Grid, now: int, rnd: nat -> EnemyRandom)
    requires g.WellFormed()
    requires forall e :: e in es ==> e.alive && TilesClear(g, e.x, e.y)
    ensures StepEnemies(es, g, now, rnd).1 == 0
    ensures forall e :: e in StepEnemies(es, g, now, rnd).0 ==> TilesClear(g, e.x, e.y)
  {
    if es != [] {
      var pre := es[..|es| - 1];
      var last := es[|es| - 1];
      assert es == pre + [last];
      StepEnemiesKeepsClear(pre, g, now, rnd);
      EnemyStepMoves(last, g, now, rnd(|es| - 1));
    }
  }

  /** The pending bombs keep pairwise distinct cells. */
  lemma {:induction false} DetonatePendingDistinct(g: Grid, bombs: seq<Bomb>, now: int, drop: Cell -> Option<PowerUpKind>)
    requires g.WellFormed() && BombCellsDistinct(bombs)
    ensures BombCellsDistinct(Detonate(g, bombs, now, drop).pending)
  {
    if bombs != [] {
      var pre := bombs[..|bombs| - 1];
      var b := bombs[|bombs| - 1];
      assert bombs == pre + [b];
      assert BombCellsDistinct(pre) by {
        forall i, j | 0 <= i < j < |pre| ensures BombCell(pre[i]) != BombCell(pre[j]) {
          assert pre[i] == bombs[i] && pre[j] == bombs[j];
        }
      }
      DetonatePendingDistinct(g, pre, now, drop);
      DetonateFacts(g, pre, now, drop);
      DetonationStepFacts(Detonate(g, pre, now, drop), b, now, drop);
      var p := Detonate(g, pre, now, drop).pending;
      if !ShouldExplode(b, now) {
        forall k | 0 <= k < |p| ensures BombCell(p[k]) != BombCell(b) {
          assert p[k] in pre;
          var m :| 0 <= m < |pre| && pre[m] == p[k];
          assert bombs[m] == p[k] && bombs[|bombs| - 1] == b;
        }
        var q := p + [b];
        forall i, j | 0 <= i < j < |q| ensures BombCell(q[i]) != BombCell(q[j]) {
          if j < |p| {
            assert q[i] == p[i] && q[j] == p[j];
          } else {
            assert q[i] == p[i] && q[j] == b;
          }
        }
      }
    }
  }

  /** The respawn square at cell (1, 1) is clear on any map with the
      generated structure. */
  lemma RespawnClear(g: Grid)
    requires GridInv(g)
    ensures TilesClear(g, TILE, TILE)
  {
    SpawnPocketOpen(g);
    TopLeftClear(g, 1, 1);
  }

  lemma PlayerHitKeepsInv(s: EngineState, now: int)
    requires EngineInv(s)
    ensures EngineInv(PlayerHit(s, now))
  {
    RespawnClear(s.grid);
  }

  /** The move, enemy, bomb, explosion and power-up phases keep the invariant. */
  lemma AfterPowerUpsKeepsInv(s: EngineState, i: TickInput)
    requires EngineInv(s)
    ensures EngineInv(AfterPowerUps(s, i))
  {
    var p0 := MovePlayer(s.player, i.keys, s.grid, s.bombs, s.player.softBombTile);
    MoveKeepsClear(s.player, i.keys, s.grid, s.bombs, s.player.softBombTile);
    var p := ClearSoftTile(p0);
    var es := StepEnemies(s.enemies, s.grid, i.now, i.enemyRandom);
    StepEnemiesKeepsClear(s.enemies, s.grid, i.now, i.enemyRandom);
    var d := Detonate(s.grid, s.bombs, i.now, i.drop);
    DetonateKeepsGrid(s.grid, s.bombs, i.now, i.drop);
    DetonatePendingDistinct(s.grid, s.bombs, i.now, i.drop);
    DetonateFacts(s.grid, s.bombs, i.now, i.drop);
    TilesClearMonotone(s.grid, d.grid, p.x, p.y);
    forall e | e in es.0 ensures TilesClear(d.grid, e.x, e.y) {
      TilesClearMonotone(s.grid, d.grid, e.x, e.y);
    }
    var a := AfterBombs(s, i);
    assert EngineInv(a);
    CollectCapped(a.player, a.powerups, PlayerCell(a.player));
  }

  lemma CollisionsKeepsInv(s: EngineState, now: int)
    requires EngineInv(s)
    ensures EngineInv(Collisions(s, now))
  {
    var cell := PlayerCell(s.player);
    var s1 := if EnemyAtCell(s.enemies, cell) then PlayerHit(s, now) else s;
    PlayerHitKeepsInv(s, now);
    var s2 := if InAnyExplosion(s1.explosions, cell) then PlayerHit(s1, now) else s1;
    PlayerHitKeepsInv(s1, now);
    BlastEnemiesKept(s2.enemies, s2.explosions);
  }

  /** One tick keeps the engine invariant. */
  lemma TickKeepsInv(s: EngineState, i: TickInput)
    requires EngineInv(s)
    ensures EngineInv(Tick(s, i))
  {
    if !s.Terminal() {
      AfterPowerUpsKeepsInv(s, i);
      CollisionsKeepsInv(AfterPowerUps(s, i), i.now);
    }
  }

  /** Planting keeps the invariant: the capacity check leaves room for the
      new bomb and the occupancy check keeps cells distinct. */
  lemma PlantKeepsInv(s: EngineState, now: int)
    requires EngineInv(s)
    ensures EngineInv(Plant(s, now))
  {
    if !PlantRejected(s, now) {
      var r := Plant(s, now);
      var cell := PlayerCell(s.player);
      forall i, j | 0 <= i < j < |r.bombs| ensures BombCell(r.bombs[i]) != BombCell(r.bombs[j]) {
        if j == |s.bombs| {
          assert r.bombs[i] == s.bombs[i];
          assert BombCell(r.bombs[j]) == cell;
        } else {
          assert r.bombs[i] == s.bombs[i] && r.bombs[j] == s.bombs[j];
        }
      }
    }
  }

  /** Every new game satisfies the invariant, whatever the random draws. */
  lemma NewGameInv(draws: GameDraws, now: int, lastBombTime: int)
    ensures EngineInv(NewGame(draws, now, lastBombTime))
  {
    var s := NewGame(draws, now, lastBombTime);
    var g := s.grid;
    GenerateEstablishesInv(draws.fill);
    RespawnClear(g);
    SpawnCandidatesSpec(g);
    var cells := Sample(SpawnCandidates(g), ENEMY_COUNT, draws.picks);
    forall e | e in s.enemies ensures e.alive && TilesClear(g, e.x, e.y) {
      var k :| 0 <= k < |s.enemies| && s.enemies[k] == e;
      assert cells[k] in SpawnCandidates(g);
      TopLeftClear(g, cells[k].0, cells[k].1);
    }
  }

  lemma OnEventKeepsInv(s: EngineState, ev: EngineEvent, now: int, draws: GameDraws)
    requires EngineInv(s)
    ensures EngineInv(OnEvent(s, ev, now, draws))
  {
    PlantKeepsInv(s, now);
    NewGameInv(draws, now, s.lastBombTime);
  }

  // ---------------------------------------------------------------------
  // Properties of a tick and of a run of ticks
  // ---------------------------------------------------------------------

  /** A run of ticks, one per input. */
  ghost function Run(s: EngineState, ins: seq<TickInput>): (r: EngineState)
    requires s.grid.WellFormed()
    ensures r.grid.WellFormed()
    decreases |ins|
  {
    if ins == [] then s else Run(Tick(s, ins[0]), ins[1..])
  }

  /** Once the game is over or won, no number of ticks changes anything; in
      particular the victory bonus is paid once per game. */
  lemma {:induction false} TerminalFrozen(s: EngineState, ins: seq<TickInput>)
    requires s.grid.WellFormed() && s.Terminal()
    ensures Run(s, ins) == s
    decreases |ins|
  {
    if ins != [] {
      TerminalFrozen(s, ins[1..]);
    }
  }

  /** Every run of ticks keeps the invariant. */
  lemma {:induction false} RunKeepsInv(s: EngineState, ins: seq<TickInput>)
    requires EngineInv(s)
    ensures EngineInv(Run(s, ins))
    decreases |ins|
  {
    if ins != [] {
      TickKeepsInv(s, ins[0]);
      RunKeepsInv(Tick(s, ins[0]), ins[1..]);
    }
  }

  /** The score never goes down during a tick. */
  lemma ScoreNeverDecreases(s: EngineState, i: TickInput)
    requires s.grid.WellFormed()
    ensures Tick(s, i).score >= s.score
  {
    DetonateFacts(s.grid, s.bombs, i.now, i.drop);
  }

  /** A running tick ends in victory exactly when no enemy is left, and then
      the bonus is part of the score. */
  lemma VictoryWhenCleared(s: EngineState, i: TickInput)
    requires s.grid.WellFormed() && !s.Terminal()
    ensures var r := Tick(s, i);
      (r.victory <==> |r.enemies| == 0) && (r.victory ==> r.score >= s.score + LEVEL_COMPLETE_BONUS)
  {
    DetonateFacts(s.grid, s.bombs, i.now, i.drop);
  }

  /** An invincible player loses no life in a tick, so the tick cannot end
      the game. */
  lemma InvinciblePlayerUnharmed(s: EngineState, i: TickInput)
    requires s.grid.WellFormed() && !s.Terminal() && s.player.IsInvincible(i.now)
    ensures Tick(s, i).player.lives >= s.player.lives && !Tick(s, i).gameOver
  {
    var b := AfterBombs(s, i);
    CollectKeepsLives(b.player, b.powerups, PlayerCell(b.player));
    var a := AfterPowerUps(s, i);
    assert a.player.invincibleUntil == s.player.invincibleUntil;
  }

  /** Unless the game ends, a tick costs at most one life: a contact hit
      respawns the player with a fresh invincibility window, which absorbs
      a flame on the same tick. */
  lemma AtMostOneLifePerTick(s: EngineState, i: TickInput)
    requires s.grid.WellFormed() && !s.Terminal()
    ensures !Tick(s, i).gameOver ==> Tick(s, i).player.lives >= s.player.lives - 1
  {
    var b := AfterBombs(s, i);
    CollectKeepsLives(b.player, b.powerups, PlayerCell(b.player));
  }

  // ---------------------------------------------------------------------
  // The engine object
  // ---------------------------------------------------------------------

  /** The values of a list of enemy objects. */
  ghost function States(es: seq<Enemy>): seq<EnemyState>
    reads set e | e in es
  {
    seq(|es|, k requires 0 <= k < |es| reads es => es[k].Abs())
  }

  class GameEngine {
    var gameMap: GameMap
    var player: Player
    var enemies: seq<Enemy>
    var bombs: seq<Bomb>
    var explosions: seq<Explosion>
    var powerups: seq<PowerUp>
    var score: int
    var gameOver: bool
    var victory: bool
    var level: int
    var lastBombTime: int

    /** The map keeps its invariant and no enemy object is listed twice. */
    ghost predicate Valid()
      reads this, gameMap
    {
      gameMap.Valid() && Distinct(enemies)
    }

    /** The objects the engine's state lives in. */
    ghost function Repr(): set<object>
      reads this
    {
      {this, gameMap, player} + set e | e in enemies
    }

    ghost function Abs(): EngineState
      reads this, gameMap, player, set e | e in enemies
    {
      EngineState(gameMap.View(), player.Abs(), States(enemies), bombs, explosions, powerups,
                  score, gameOver, victory, level, lastBombTime)
    }

    /** `__init__`: a new game with the cooldown clock at zero. */
    constructor (draws: GameDraws, now: int)
      ensures Valid() && Abs() == NewGame(draws, now, 0) && fresh(Repr())
    {
      score, gameOver, victory, level := 0, false, false, 1;
      gameMap := new GameMap(draws.fill);
      player := new Player(1, 1, PLAYER_SPEED);
      enemies, bombs, explosions, powerups := [], [], [], [];
      lastBombTime := 0;
      new;
      InitializeEnemies(draws, now);
      IsNewGame(draws, now, 0);
    }

    /** `_initialize_enemies` on an empty enemy list: one new enemy per
        sampled spawn cell, appended in sample order. */
    method InitializeEnemies(draws: GameDraws, now: int)
      requires gameMap.Valid() && enemies == []
      modifies this
      ensures gameMap == old(gameMap) && gameMap.Valid()
      ensures Distinct(enemies) && forall e :: e in enemies ==> fresh(e)
      ensures States(enemies) == SpawnEnemies(Sample(SpawnCandidates(gameMap.View()), ENEMY_COUNT, draws.picks), draws, now)
      ensures unchanged(this`player, this`bombs, this`explosions, this`powerups)
      ensures unchanged(this`score, this`gameOver, this`victory, this`level, this`lastBombTime)
    {
      var positions := gameMap.GetEnemySpawnPositions(draws.picks);
      enemies := SpawnAll(positions, draws, now);
    }

    /** The loop of `_initialize_enemies`: a new enemy per position. */
    static method SpawnAll(positions: seq<Cell>, draws: GameDraws, now: int) returns (es: seq<Enemy>)
      ensures Distinct(es) && forall e :: e in es ==> fresh(e)
      ensures States(es) == SpawnEnemies(positions, draws, now)
    {
      ghost var target := SpawnEnemies(positions, draws, now);
      es := [];
      var k := 0;
      while k < |positions|
        invariant 0 <= k <= |positions| && |es| == k
        invariant Distinct(es) && forall e :: e in es ==> fresh(e)
        invariant forall j :: 0 <= j < k ==> es[j].Abs() == target[j]
      {
        var e := new Enemy(positions[k].0, positions[k].1, ENEMY_SPEED, draws.direction(k), draws.interval(k), now);
        es := es + [e];
        k := k + 1;
      }
      assert States(es) == target;
    }

    /** `_restart_game`: flags, score and level reset, a new player, map and
        enemies, all lists emptied; the cooldown clock is kept. */
    method Restart(draws: GameDraws, now: int)
      modifies this
      ensures Valid() && Abs() == NewGame(draws, now, old(lastBombTime))
      ensures fresh(gameMap) && fresh(player) && forall e :: e in enemies ==> fresh(e)
    {
      var m := new GameMap(draws.fill);
      ResetFields(m);
      InitializeEnemies(draws, now);
      IsNewGame(draws, now, old(lastBombTime));
    }

    /** The resets of `_restart_game` before the enemies are spawned, with
        the map generated anew. */
    method ResetFields(m: GameMap)
      modifies this
      ensures gameMap == m && fresh(player) && player.Abs() == InitialPlayer(1, 1, PLAYER_SPEED)
      ensures enemies == [] && bombs == [] && explosions == [] && powerups == []
      ensures score == 0 && !gameOver && !victory && level == 1 && lastBombTime == old(lastBombTime)
    {
      gameOver, victory, score, level := false, false, 0, 1;
      player := new Player(1, 1, PLAYER_SPEED);
      enemies, bombs, explosions, powerups := [], [], [], [];
      gameMap := m;
    }

    /** A state whose parts are the generated map, a fresh player, the
        spawned enemies and empty lists is the new game. */
    lemma IsNewGame(draws: GameDraws, now: int, t: int)
      requires gameMap.View() == Generate(draws.fill) && player.Abs() == InitialPlayer(1, 1, PLAYER_SPEED)
      requires States(enemies) == SpawnEnemies(Sample(SpawnCandidates(gameMap.View()), ENEMY_COUNT, draws.picks), draws, now)
      requires bombs == [] && explosions == [] && powerups == []
      requires score == 0 && !gameOver && !victory && level == 1 && lastBombTime == t
      ensures Abs() == NewGame(draws, now, t)
    {
    }

    /** The object graph holds state s when each part does. */
    lemma IsState(s: EngineState)
      requires gameMap.View() == s.grid && player.Abs() == s.player && States(enemies) == s.enemies
      requires bombs == s.bombs && explosions == s.explosions && powerups == s.powerups
      requires score == s.score && gameOver == s.gameOver && victory == s.victory
      requires level == s.level && lastBombTime == s.lastBombTime
      ensures Abs() == s
    {
    }

    /** `handle_event`: SPACE plants, R restarts a finished game. */
    method HandleEvent(ev: EngineEvent, now: int, draws: GameDraws)
      requires Valid()
      modifies this, player
      ensures Valid() && Abs() == OnEvent(old(Abs()), ev, now, draws)
      ensures fresh(Repr() - old(Repr()))
    {
      match ev
      case KeyDown(Space) =>
        PlantBomb(now);
        assert Repr() == old(Repr());
      case KeyDown(KeyR) =>
        if gameOver || victory {
          Restart(draws, now);
        }
      case _ =>
    }

    /** `_plant_bomb`. */
    method PlantBomb(now: int)
      requires Valid()
      modifies this, player
      ensures Valid() && gameMap == old(gameMap) && player == old(player) && enemies == old(enemies)
      ensures Abs() == Plant(old(Abs()), now)
    {
      if |bombs| >= player.bombCapacity {
        return;
      }
      if now - lastBombTime < BOMB_COOLDOWN_MS {
        return;
      }
      var cell := WorldToGrid(player.x, player.y);
      if !gameMap.View().CanPlaceBomb(cell.0, cell.1) {
        return;
      }
      if exists i :: 0 <= i < |bombs| && bombs[i].gridX == cell.0 && bombs[i].gridY == cell.1 {
        return;
      }
      bombs := bombs + [NewBomb(cell.0, cell.1, BOMB_TIMER_MS, now)];
      lastBombTime := now;
      player.softBombTile := Some(cell);
    }

    /** `_damage_player`. */
    method DamagePlayer(now: int)
      requires Valid()
      modifies this, player
      ensures Valid() && gameMap == old(gameMap) && player == old(player) && enemies == old(enemies)
      ensures Abs() == PlayerHit(old(Abs()), now)
    {
      if player.IsInvincible(now) {
        return;
      }
      player.lives := player.lives - 1;
      if player.lives <= 0 {
        gameOver := true;
        return;
      }
      var w := GridToWorld(1, 1);
      player.x, player.y := w.0, w.1;
      player.GrantInvincibility(now, PLAYER_INVINCIBILITY_MS);
    }

    /** `_check_victory_condition`. */
    method CheckVictoryCondition()
      requires Valid()
      modifies this
      ensures Valid() && gameMap == old(gameMap) && player == old(player) && enemies == old(enemies)
      ensures Abs() == CheckVictory(old(Abs()))
    {
      if |enemies| == 0 {
        victory := true;
        score := score + LEVEL_COMPLETE_BONUS;
      }
    }

    /** The enemy loop of `update`, over a copy of the list: each enemy
        moves with its own draws and is dropped, for ENEMY_SCORE, when it is
        dead afterwards. */
    method UpdateEnemies(now: int, rnd: nat -> EnemyRandom)
      requires Valid()
      modifies this, set e | e in enemies
      ensures Valid() && gameMap == old(gameMap) && player == old(player)
      ensures forall e :: e in enemies ==> e in old(enemies)
      ensures Abs() == EnemyPhase(old(Abs()), now, rnd)
    {
      ghost var s0 := Abs();
      var kept, removed := StepAll(enemies, gameMap, now, rnd);
      ghost var target := EnemyPhase(s0, now, rnd);
      assert gameMap.View() == target.grid && player.Abs() == target.player && States(kept) == target.enemies;
      enemies, score := kept, score + ENEMY_SCORE * removed;
      IsState(target);
    }

    /** `update`: nothing once the game is over or won; otherwise the
        phases in order, with one clock reading for the whole tick. */
    method Update(i: TickInput)
      requires Valid()
      modifies this, gameMap, player, set e | e in enemies
      ensures Valid() && Abs() == Tick(old(Abs()), i)
      ensures Repr() <= old(Repr())
    {
      if gameOver || victory {
        return;
      }
      ghost var s0 := Abs();
      MoveStep(i.keys);
      UpdateEnemies(i.now, i.enemyRandom);
      BombStep(i.now, i.drop);
      ghost var b := Abs();
      explosions := ActiveExplosions(explosions, i.now);
      IsState(b.(explosions := ActiveExplosions(b.explosions, i.now)));
      PowerUpStep();
      CheckCollisions(i.now);
      CheckVictoryCondition();
      TickPhases(s0, i);
    }

    /** The bomb phase on the whole engine state. */
    method BombStep(now: int, drop: Cell -> Option<PowerUpKind>)
      requires Valid()
      modifies this`bombs, this`score, this`explosions, this`powerups, gameMap
      ensures Valid() && Abs() == BombPhase(old(Abs()), now, drop)
    {
      ghost var s0 := Abs();
      DetonateBombs(now, drop);
      IsState(BombPhase(s0, now, drop));
    }

    /** The power-up phase on the whole engine state. */
    method PowerUpStep()
      requires Valid()
      modifies this`powerups, player
      ensures Valid() && Abs() == CollectPhase(old(Abs()))
    {
      ghost var s0 := Abs();
      CheckPlayerPowerups();
      IsState(CollectPhase(s0));
    }

    /** The player's move, then the pass-through tile is dropped once the
        player's cell differs from it. */
    method MoveStep(keys: KeyState)
      requires Valid()
      modifies player
      ensures Abs() == MovePhase(old(Abs()), keys)
    {
      ghost var s0 := Abs();
      player.Update(keys, gameMap, bombs, player.softBombTile);
      if player.softBombTile.Some? {
        var cell := WorldToGrid(player.x, player.y);
        if cell != player.softBombTile.value {
          player.softBombTile := None;
        }
      }
      IsState(MovePhase(s0, keys));
    }

    /** The bomb loop of `update`, over a copy of the list: an elapsed bomb
        is raycast on the current map, its walls are destroyed, its
        explosion is appended and it is removed from the list. */
    method DetonateBombs(now: int, drop: Cell -> Option<PowerUpKind>)
      requires gameMap.Valid()
      modifies this`bombs, this`score, this`explosions, this`powerups, gameMap
      ensures gameMap.Valid()
      ensures var d := Detonate(old(gameMap.View()), old(bombs), now, drop);
        gameMap.View() == d.grid && bombs == d.pending && score == old(score) + d.gained &&
        explosions == old(explosions) + d.fired && powerups == old(powerups) + d.drops
    {
      ghost var g0 := gameMap.View();
      ghost var s0, x0, p0 := score, explosions, powerups;
      var all := bombs;
      // j is where bomb k sits in the live list, which is where `remove` finds it.
      var k, j := 0, 0;
      ghost var d := DetonatePrefix(g0, all, 0, now, drop);
      while k < |all|
        invariant 0 <= k <= |all| && d == DetonatePrefix(g0, all, k, now, drop)
        invariant DetonateInv(d, all[k..], j, s0, x0, p0)
      {
        SuffixStep(all, k);
        j := DetonateOne(now, drop, d, all[k..], j, s0, x0, p0);
        d := DetonationStep(d, all[k], now, drop);
        k := k + 1;
      }
      DetonatePrefixIsDetonate(g0, all, k, now, drop);
      assert all[..k] == all;
      assert d.pending + [] == d.pending;
    }

    /** The engine holds detonation d on top of the score and lists it
        started from, and its bomb list is d's pending bombs followed by
        the bombs still to visit. */
    ghost predicate DetonateInv(d: Detonation, rest: seq<Bomb>, j: int,
                                s0: int, x0: seq<Explosion>, p0: seq<PowerUp>)
      reads this, gameMap
    {
      gameMap.Valid() && gameMap.View() == d.grid && j == |d.pending| && bombs == d.pending + rest &&
      score == s0 + d.gained && explosions == x0 + d.fired && powerups == p0 + d.drops
    }

    /** One iteration of the bomb loop, on the first bomb b of the bombs
        still to visit, at index j of the list. */
    method DetonateOne(now: int, drop: Cell -> Option<PowerUpKind>,
                       ghost d: Detonation, rest: seq<Bomb>, j: int,
                       ghost s0: int, ghost x0: seq<Explosion>, ghost p0: seq<PowerUp>)
      returns (j': int)
      requires |rest| > 0 && DetonateInv(d, rest, j, s0, x0, p0)
      modifies this`bombs, this`score, this`explosions, this`powerups, gameMap
      ensures DetonateInv(DetonationStep(d, rest[0], now, drop), rest[1..], j', s0, x0, p0)
    {
      SpliceAt(d.pending, rest);
      var b := rest[0];
      if ShouldExplode(b, now) {
        ghost var tiles := BlastCells(d.grid, b);
        ghost var dd := Destroying(d.grid, tiles, drop);
        FireBomb(b, now, drop);
        assert x0 + d.fired + [NewExplosion(tiles, now)] == x0 + (d.fired + [NewExplosion(tiles, now)]);
        assert p0 + d.drops + dd.drops == p0 + (d.drops + dd.drops);
        bombs := bombs[..j] + bombs[j + 1..];
        j' := j;
      } else {
        j' := j + 1;
      }
    }

    /** The firing of one elapsed bomb: its cells are raycast on the current
        map, their walls are destroyed and its explosion is appended. */
    method FireBomb(b: Bomb, now: int, drop: Cell -> Option<PowerUpKind>)
      requires gameMap.Valid()
      modifies this`score, this`explosions, this`powerups, gameMap
      ensures gameMap.Valid()
      ensures var tiles := BlastCells(old(gameMap.View()), b);
        var dd := Destroying(old(gameMap.View()), tiles, drop);
        gameMap.View() == dd.grid && score == old(score) + dd.gained &&
        explosions == old(explosions) + [NewExplosion(tiles, now)] && powerups == old(powerups) + dd.drops
    {
      var tiles := GetExplosionPositions(b, gameMap);
      ApplyDestruction(tiles, drop);
      explosions := explosions + [NewExplosion(tiles, now)];
    }

    /** `_apply_destruction_and_spawn_powerups`: every valid tile that is a
        destructible wall is destroyed for WALL_SCORE, and the drop decision
        may leave a power-up on it. */
    method ApplyDestruction(tiles: seq<Cell>, drop: Cell -> Option<PowerUpKind>)
      requires gameMap.Valid()
      modifies this`score, this`powerups, gameMap
      ensures gameMap.Valid()
      ensures var d := Destroying(old(gameMap.View()), tiles, drop);
        gameMap.View() == d.grid && score == old(score) + d.gained && powerups == old(powerups) + d.drops
    {
      ghost var g0 := gameMap.View();
      ghost var s0, p0 := score, powerups;
      var i := 0;
      while i < |tiles|
        invariant 0 <= i <= |tiles| && gameMap.Valid()
        invariant var d := Destroying(g0, tiles[..i], drop);
          gameMap.View() == d.grid && score == s0 + d.gained && powerups == p0 + d.drops
      {
        DestroyingLast(g0, tiles, drop, i);
        var c := tiles[i];
        if !IsValidPosition(c.0, c.1) {
          i := i + 1;
          continue;
        }
        if gameMap.View().IsDestructibleWall(c.0, c.1) {
          gameMap.DestroyWall(c.0, c.1);
          score := score + WALL_SCORE;
          match drop(c) {
            case Some(kind) =>
              powerups := powerups + [PowerUp(c.0, c.1, kind)];
            case None =>
          }
        }
        i := i + 1;
      }
      assert tiles[..i] == tiles;
    }

    /** `_check_player_powerups`: the player's cell is taken once; every
        power-up on it is applied and removed, in list order. */
    method CheckPlayerPowerups()
      modifies this`powerups, player
      ensures var c := Collect(old(player.Abs()), old(powerups), PlayerCell(old(player.Abs())));
        player.Abs() == c.0 && powerups == c.1
    {
      var cell := WorldToGrid(player.x, player.y);
      ghost var q0 := player.Abs();
      var all := powerups;
      // j is where power-up k sits in the live list.
      var k, j := 0, 0;
      while k < |all|
        invariant 0 <= k <= |all|
        invariant var c := Collect(q0, all[..k], cell);
          player.Abs() == c.0 && j == |c.1| && powerups == c.1 + all[k..]
      {
        CollectLast(q0, all, cell, k);
        SpliceAt(Collect(q0, all[..k], cell).1, all[k..]);
        j := CollectOne(all[k], j, cell);
        k := k + 1;
      }
      assert all[..k] == all;
    }

    /** One iteration of the power-up loop, on the power-up at index j. */
    method CollectOne(pu: PowerUp, j: int, cell: Cell) returns (j': int)
      requires 0 <= j < |powerups| && powerups[j] == pu
      modifies this`powerups, player
      ensures (pu.gridX, pu.gridY) == cell ==>
        j' == j && player.Abs() == ApplyPowerUp(pu.kind, old(player.Abs())) &&
        powerups == old(powerups[..j] + powerups[j + 1..])
      ensures (pu.gridX, pu.gridY) != cell ==>
        j' == j + 1 && player.Abs() == old(player.Abs()) && powerups == old(powerups)
    {
      if (pu.gridX, pu.gridY) == cell {
        ApplyTo(pu, player);
        powerups := powerups[..j] + powerups[j + 1..];
        j' := j;
      } else {
        j' := j + 1;
      }
    }

    /** `_check_collisions`. */
    method CheckCollisions(now: int)
      requires Valid()
      modifies this, player, set e | e in enemies
      ensures Valid() && gameMap == old(gameMap) && player == old(player)
      ensures forall e :: e in enemies ==> e in old(enemies)
      ensures Abs() == Collisions(old(Abs()), now)
    {
      HitPlayer(now);
      BurnEnemies();
    }

    /** The player half of `_check_collisions`: one contact hit at most,
        then a flame on the same cell may hit again. */
    method HitPlayer(now: int)
      requires Valid()
      modifies this, player
      ensures Valid() && gameMap == old(gameMap) && player == old(player) && enemies == old(enemies)
      ensures Abs() == PlayerCollisions(old(Abs()), now)
    {
      var cell := WorldToGrid(player.x, player.y);
      var contact := FindContact(cell);
      if contact {
        DamagePlayer(now);
      }
      if exists i :: 0 <= i < |explosions| && explosions[i].Contains(cell.0, cell.1) {
        DamagePlayer(now);
      }
    }

    /** The contact loop of `_check_collisions`, up to its `break`. */
    method FindContact(cell: Cell) returns (hit: bool)
      ensures hit == EnemyAtCell(States(enemies), cell)
    {
      hit := false;
      var i := 0;
      while i < |enemies|
        invariant 0 <= i <= |enemies|
        invariant forall j :: 0 <= j < i ==> GridPosition(enemies[j].Abs()) != cell
      {
        var e := enemies[i];
        if WorldToGrid(e.x, e.y) == cell {
          assert States(enemies)[i] == e.Abs();
          hit := true;
          break;
        }
        i := i + 1;
      }
      assert !hit ==> forall j :: 0 <= j < |enemies| ==> GridPosition(States(enemies)[j]) != cell;
    }

    /** The enemy half of `_check_collisions`. */
    method BurnEnemies()
      requires Valid()
      modifies this, set e | e in enemies
      ensures Valid() && gameMap == old(gameMap) && player == old(player)
      ensures forall e :: e in enemies ==> e in old(enemies)
      ensures Abs() == FlameEnemies(old(Abs()))
    {
      ghost var s0 := Abs();
      var kept, removed := BlastAll(enemies, explosions);
      ghost var target := FlameEnemies(s0);
      assert gameMap.View() == target.grid && player.Abs() == target.player && States(kept) == target.enemies;
      enemies, score := kept, score + ENEMY_SCORE * removed;
      IsState(target);
    }

    /** The enemy loop on a list of distinct enemies: enemy k moves with
        draw k and is kept when still alive, counted when dead. */
    static method StepAll(all: seq<Enemy>, m: GameMap, now: int, rnd: nat -> EnemyRandom)
      returns (kept: seq<Enemy>, removed: nat)
      requires m.Valid() && Distinct(all)
      modifies set e | e in all
      ensures Distinct(kept) && forall e :: e in kept ==> e in all
      ensures (States(kept), removed) == StepEnemies(old(States(all)), m.View(), now, rnd)
    {
      ghost var before := States(all);
      ghost var g := m.View();
      kept, removed := [], 0;
      ghost var idx: seq<int> := [];
      var k := 0;
      while k < |all|
        invariant m.View() == g && 0 <= k <= |all| == |before|
        invariant FilterInv(all, before, k, kept, idx, StepEnemies(before[..k], g, now, rnd).0)
        invariant removed == StepEnemies(before[..k], g, now, rnd).1
      {
        kept, removed, idx := StepOne(all, m, now, rnd, before, k, kept, removed, idx);
        k := k + 1;
      }
      FilterDone(all, before, kept, idx, StepEnemies(before[..k], g, now, rnd).0);
      assert before[..k] == before;
    }

    /** One iteration of the enemy loop: `update`, then keep or count. */
    static method StepOne(all: seq<Enemy>, m: GameMap, now: int, rnd: nat -> EnemyRandom,
                          ghost before: seq<EnemyState>, k: int,
                          kept: seq<Enemy>, removed: nat, ghost idx: seq<int>)
      returns (kept': seq<Enemy>, removed': nat, ghost idx': seq<int>)
      requires m.Valid() && Distinct(all) && 0 <= k < |all| == |before|
      requires FilterInv(all, before, k, kept, idx, StepEnemies(before[..k], m.View(), now, rnd).0)
      requires removed == StepEnemies(before[..k], m.View(), now, rnd).1
      modifies all[k]
      ensures FilterInv(all, before, k + 1, kept', idx', StepEnemies(before[..k + 1], m.View(), now, rnd).0)
      ensures removed' == StepEnemies(before[..k + 1], m.View(), now, rnd).1
    {
      StepEnemiesLast(before, m.View(), now, rnd, k);
      var e := all[k];
      e.Update(m, now, rnd(k));
      if e.IsDead() {
        kept', removed', idx' := kept, removed + 1, idx;
      } else {
        kept', removed', idx' := kept + [e], removed, idx + [k];
      }
    }

    /** The flame loop of `_check_collisions` on a list of distinct enemies:
        an enemy whose cell is in a flame takes a hit and is counted, not
        kept, when that kills it. */
    static method BlastAll(all: seq<Enemy>, xs: seq<Explosion>) returns (kept: seq<Enemy>, removed: nat)
      requires Distinct(all)
      modifies set e | e in all
      ensures Distinct(kept) && forall e :: e in kept ==> e in all
      ensures (States(kept), removed) == BlastEnemies(old(States(all)), xs)
    {
      ghost var before := States(all);
      kept, removed := [], 0;
      ghost var idx: seq<int> := [];
      var k := 0;
      while k < |all|
        invariant 0 <= k <= |all| == |before|
        invariant FilterInv(all, before, k, kept, idx, BlastEnemies(before[..k], xs).0)
        invariant removed == BlastEnemies(before[..k], xs).1
      {
        kept, removed, idx := BlastOne(all, xs, before, k, kept, removed, idx);
        k := k + 1;
      }
      FilterDone(all, before, kept, idx, BlastEnemies(before[..k], xs).0);
      assert before[..k] == before;
    }

    /** One iteration of the flame loop. */
    static method BlastOne(all: seq<Enemy>, xs: seq<Explosion>, ghost before: seq<EnemyState>, k: int,
                           kept: seq<Enemy>, removed: nat, ghost idx: seq<int>)
      returns (kept': seq<Enemy>, removed': nat, ghost idx': seq<int>)
      requires Distinct(all) && 0 <= k < |all| == |before|
      requires FilterInv(all, before, k, kept, idx, BlastEnemies(before[..k], xs).0)
      requires removed == BlastEnemies(before[..k], xs).1
      modifies all[k]
      ensures FilterInv(all, before, k + 1, kept', idx', BlastEnemies(before[..k + 1], xs).0)
      ensures removed' == BlastEnemies(before[..k + 1], xs).1
    {
      BlastEnemiesLast(before, xs, k);
      var e := all[k];
      var cell := WorldToGrid(e.x, e.y);
      if exists i :: 0 <= i < |xs| && xs[i].Contains(cell.0, cell.1) {
        e.TakeDamage();
        if e.IsDead() {
          kept', removed', idx' := kept, removed + 1, idx;
          return;
        }
      }
      kept', removed', idx' := kept + [e], removed, idx + [k];
    }
  }

  /** A list whose first part has been filtered and whose rest a is
      untouched: a's first item sits right after the filtered part, and
      removing it there, or keeping it, gives the next such list. */
  lemma SpliceAt<T>(p: seq<T>, a: seq<T>)
    requires |a| > 0
    ensures var l := p + a;
      l[|p|] == a[0] && l[..|p|] + l[|p| + 1..] == p + a[1..] && l == (p + [a[0]]) + a[1..]
  {
    var l := p + a;
    assert l[..|p|] == p;
    assert l[|p| + 1..] == a[1..];
  }

  /** Dropping the first item of the suffix from k gives the suffix from k + 1. */
  lemma SuffixStep<T>(a: seq<T>, k: int)
    requires 0 <= k < |a|
    ensures a[k..][0] == a[k] && a[k..][1..] == a[k + 1..]
  {
  }

  /** The state of a loop that filters distinct enemy objects, after k
      iterations: enemies k and later still hold their states from
      `before`; the kept objects hold `survivors`, in order, and are listed
      objects at strictly increasing positions below k. */
  ghost predicate FilterInv(all: seq<Enemy>, before: seq<EnemyState>, k: int,
                            kept: seq<Enemy>, idx: seq<int>, survivors: seq<EnemyState>)
    reads set e | e in all
    reads set e | e in kept
  {
    |before| == |all| && 0 <= k <= |all| &&
    (forall j :: k <= j < |all| ==> all[j].Abs() == before[j]) &&
    |kept| == |survivors| == |idx| &&
    (forall j :: 0 <= j < |kept| ==> kept[j].Abs() == survivors[j]) &&
    (forall j :: 0 <= j < |kept| ==> 0 <= idx[j] < k && kept[j] == all[idx[j]]) &&
    (forall i, j :: 0 <= i < j < |idx| ==> idx[i] < idx[j])
  }

  /** After the last iteration the kept objects are distinct, listed, and
      hold the survivors. */
  lemma FilterDone(all: seq<Enemy>, before: seq<EnemyState>, kept: seq<Enemy>, idx: seq<int>,
                   survivors: seq<EnemyState>)
    requires Distinct(all) && FilterInv(all, before, |all|, kept, idx, survivors)
    ensures Distinct(kept) && (forall e :: e in kept ==> e in all)
    ensures States(kept) == survivors
  {
    forall i, j | 0 <= i < j < |kept| ensures kept[i] != kept[j] {
      assert idx[i] < idx[j];
    }
    assert forall j :: 0 <= j < |kept| ==> kept[j] == all[idx[j]] && kept[j] in all;
  }
}
