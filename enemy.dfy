/** Enemies: random wandering with a direction timer, tile collision that
    ignores bombs, and one-hit health. */
module Enemies {
  import opened Constants
  import opened Arena
  import opened Collision

  /** The four directions `random.choice` picks from; an enemy's direction is
      always one of them because it has this type. */
  datatype Direction = East | West | South | North
  {
    function Vector(): (v: (int, int))
      ensures v == (1, 0) || v == (-1, 0) || v == (0, 1) || v == (0, -1)
      ensures (v.0 == 0) != (v.1 == 0)
    {
      match this
      case East => (1, 0)
      case West => (-1, 0)
      case South => (0, 1)
      case North => (0, -1)
    }
  }

  /** A draw of `random.uniform(1.0, 2.5)` seconds, in milliseconds. */
  type Interval = i: int | MIN_DIRECTION_INTERVAL_MS <= i <= MAX_DIRECTION_INTERVAL_MS
    witness MIN_DIRECTION_INTERVAL_MS

  /** The random draws one `update` may consume: the timed re-choice with its
      new interval, and the re-choices after a blocked X or Y move. */
  datatype EnemyRandom = EnemyRandom(
    timedDirection: Direction, interval: Interval,
    xBlockedDirection: Direction, yBlockedDirection: Direction)

  datatype EnemyState = EnemyState(
    x: int, y: int, speed: int, health: int, alive: bool,
    direction: Direction, lastDirectionChange: int, interval: Interval)

  /** `Enemy(gx, gy, speed)`, with its initial random draws as parameters. */
  function InitialEnemy(gx: int, gy: int, speed: int, dir: Direction, interval: Interval, now: int): (e: EnemyState)
    ensures e.alive && e.health == 1
    ensures (e.x, e.y) == GridToWorld(gx, gy) && GridPosition(e) == (gx, gy)
  {
    var w := GridToWorld(gx, gy);
    EnemyState(w.0, w.1, speed, 1, true, dir, now, interval)
  }

  /** `_get_grid_position`: floor division of the top-left corner. */
  function GridPosition(e: EnemyState): Cell
  {
    WorldToGrid(e.x, e.y)
  }

  /** `is_at_position`. */
  predicate IsAtPosition(e: EnemyState, gx: int, gy: int)
  {
    GridPosition(e) == (gx, gy)
  }

  /** The enemy is at cell (gx, gy) exactly when its top-left corner lies in
      that cell's tile. */
  lemma IsAtPositionIff(e: EnemyState, gx: int, gy: int)
    ensures IsAtPosition(e, gx, gy) <==>
            gx * TILE <= e.x < gx * TILE + TILE && gy * TILE <= e.y < gy * TILE + TILE
  {
    WorldToGridIff(e.x, e.y, gx, gy);
  }

  /** `take_damage`. */
  function Damage(e: EnemyState): (r: EnemyState)
    ensures r.health == e.health - 1
    ensures r.alive <==> e.alive && r.health > 0
    ensures r.(health := e.health, alive := e.alive) == e
  {
    var h := e.health - 1;
    e.(health := h, alive := if h <= 0 then false else e.alive)
  }

  /** A fresh enemy (health 1) dies on the first hit. */
  lemma OneHitKills(gx: int, gy: int, speed: int, dir: Direction, interval: Interval, now: int)
    ensures !Damage(InitialEnemy(gx, gy, speed, dir, interval, now)).alive
  {
  }

  /** A dead enemy stays dead however many more hits it takes. */
  lemma {:induction false} DeadStaysDead(e: EnemyState, k: nat)
    requires !e.alive
    ensures !Damaged(e, k).alive && Damaged(e, k).health == e.health - k
  {
    if k > 0 {
      DeadStaysDead(e, k - 1);
    }
  }

  /** `k` hits in a row. */
  function Damaged(e: EnemyState, k: nat): EnemyState
  {
    if k == 0 then e else Damage(Damaged(e, k - 1))
  }

  /** The timed part of `update`: when the interval has elapsed, take a new
      direction and a new interval and restart the timer. */
  function Retime(e: EnemyState, now: int, rnd: EnemyRandom): (r: EnemyState)
    ensures now - e.lastDirectionChange < e.interval ==> r == e
    ensures now - e.lastDirectionChange >= e.interval ==>
      r.lastDirectionChange == now && r.interval == rnd.interval && r.direction == rnd.timedDirection
    ensures r.(direction := e.direction, lastDirectionChange := e.lastDirectionChange, interval := e.interval) == e
  {
    if now - e.lastDirectionChange >= e.interval then
      e.(direction := rnd.timedDirection, lastDirectionChange := now, interval := rnd.interval)
    else e
  }

  /** `update`: a dead enemy is frozen; otherwise the timer may re-choose the
      direction, the delta is taken from the (possibly new) direction, and the
      move is resolved X first, then Y at the updated X, each blocked axis
      re-choosing the direction. Bombs are not consulted. */
  ghost function EnemyStep(e: EnemyState, g: Grid, now: int, rnd: EnemyRandom): (r: EnemyState)
    requires g.WellFormed()
    ensures !e.alive ==> r == e
    ensures r.speed == e.speed && r.health == e.health && r.alive == e.alive
  {
    if !e.alive then e
    else
      var t := Retime(e, now, rnd);
      var v := t.direction.Vector();
      var newX, newY := t.x + v.0 * t.speed, t.y + v.1 * t.speed;
      var t := if TilesClear(g, newX, t.y) then t.(x := newX) else t.(direction := rnd.xBlockedDirection);
      if TilesClear(g, t.x, newY) then t.(y := newY) else t.(direction := rnd.yBlockedDirection)
  }

  /** One tick moves a live enemy along its (possibly retimed) direction only:
      by a full step on one axis or not at all, and each step taken was
      checked clear of walls. An enemy that started clear stays clear. */
  lemma EnemyStepMoves(e: EnemyState, g: Grid, now: int, rnd: EnemyRandom)
    requires g.WellFormed() && e.alive
    ensures var r := EnemyStep(e, g, now, rnd);
      var v := Retime(e, now, rnd).direction.Vector();
      (r.x == e.x || r.x == e.x + v.0 * e.speed) &&
      (r.y == e.y || r.y == e.y + v.1 * e.speed) &&
      (r.x == e.x || r.y == e.y) &&
      (r.x != e.x ==> TilesClear(g, r.x, e.y)) &&
      (r.y != e.y ==> TilesClear(g, r.x, r.y)) &&
      (TilesClear(g, e.x, e.y) ==> TilesClear(g, r.x, r.y))
  {
    var v := Retime(e, now, rnd).direction.Vector();
    if v.0 == 0 {
      assert e.x + v.0 * e.speed == e.x;
    } else {
      assert e.y + v.1 * e.speed == e.y;
    }
  }

  /** A move that succeeds on X is not undone by the Y check: with a
      horizontal direction the Y target is the square just cleared, so the
      direction is kept. */
  lemma HorizontalMoveKeepsDirection(e: EnemyState, g: Grid, now: int, rnd: EnemyRandom)
    requires g.WellFormed() && e.alive
    requires var t := Retime(e, now, rnd);
      t.direction.Vector().1 == 0 && TilesClear(g, t.x + t.direction.Vector().0 * t.speed, t.y)
    ensures EnemyStep(e, g, now, rnd).direction == Retime(e, now, rnd).direction
  {
    var t := Retime(e, now, rnd);
    assert t.y + t.direction.Vector().1 * t.speed == t.y;
  }

  class Enemy {
    var x: int
    var y: int
    var speed: int
    var health: int
    var isAlive: bool
    var direction: Direction
    var lastDirectionChange: int
    var directionChangeInterval: Interval

    function Abs(): EnemyState
      reads this
    {
      EnemyState(x, y, speed, health, isAlive, direction, lastDirectionChange, directionChangeInterval)
    }

    constructor (gx: int, gy: int, speed: int, dir: Direction, interval: Interval, now: int)
      ensures Abs() == InitialEnemy(gx, gy, speed, dir, interval, now)
    {
      x, y := gx * TILE, gy * TILE;
      this.speed := speed;
      health := 1;
      isAlive := true;
      direction := dir;
      lastDirectionChange := now;
      directionChangeInterval := interval;
    }

    predicate IsDead()
      reads this
    {
      !isAlive
    }

    /** `_can_move_to`: the tile loop alone; enemies walk through bombs. */
    method CanMoveTo(nx: int, ny: int, m: GameMap) returns (ok: bool)
      requires m.Valid()
      ensures ok == TilesClear(m.View(), nx, ny)
    {
      ok := CheckTiles(m, nx, ny);
    }

    method Update(m: GameMap, now: int, rnd: EnemyRandom)
      requires m.Valid()
      modifies this
      ensures Abs() == EnemyStep(old(Abs()), m.View(), now, rnd)
    {
      if !isAlive {
        return;
      }
      if now - lastDirectionChange >= directionChangeInterval {
        direction := rnd.timedDirection;
        lastDirectionChange := now;
        directionChangeInterval := rnd.interval;
      }
      var v := direction.Vector();
      var newX, newY := x + v.0 * speed, y + v.1 * speed;
      var okX := CanMoveTo(newX, y, m);
      if okX {
        x := newX;
      } else {
        direction := rnd.xBlockedDirection;
      }
      var okY := CanMoveTo(x, newY, m);
      if okY {
        y := newY;
      } else {
        direction := rnd.yBlockedDirection;
      }
    }

    method TakeDamage()
      modifies this
      ensures Abs() == Damage(old(Abs()))
    {
      health := health - 1;
      if health <= 0 {
        isAlive := false;
      }
    }
  }
}
