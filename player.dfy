/** The player: keyboard-driven, axis-separated movement with tile and bomb
    collision, lives, invincibility and bomb stats. */
module Players {
  import opened Constants
  import opened Arena
  import opened Collision
  import opened Bombs

  /** The player's fields as a value. `softBombTile` is the cell of the most
      recently planted bomb, which does not block the player. */
  datatype PlayerState = PlayerState(
    x: int, y: int, speed: int, lives: int, invincibleUntil: int,
    bombCapacity: int, flameRadius: int, softBombTile: Option<Cell>)
  {
    /** `is_invincible`, with the clock read passed as `now`. */
    predicate IsInvincible(now: int)
    {
      now < invincibleUntil
    }
  }

  /** `Player(gx, gy, speed)`: placed at the top-left corner of cell (gx, gy). */
  function InitialPlayer(gx: int, gy: int, speed: int): PlayerState
  {
    PlayerState(gx * TILE, gy * TILE, speed, PLAYER_LIVES, 0,
                PLAYER_BOMB_CAPACITY, EXPLOSION_RADIUS, None)
  }

  /** The keys `update` reads: arrows and WASD. */
  datatype KeyState = KeyState(
    leftArrow: bool, a: bool, rightArrow: bool, d: bool,
    upArrow: bool, w: bool, downArrow: bool, s: bool)
  {
    predicate Left() { leftArrow || a }
    predicate Right() { rightArrow || d }
    predicate Up() { upArrow || w }
    predicate Down() { downArrow || s }
  }

  /** The movement delta of one frame: left wins over right and up over down. */
  function PlayerDelta(keys: KeyState, speed: int): (delta: (int, int))
    ensures keys.Left() ==> delta.0 == -speed
    ensures !keys.Left() && keys.Right() ==> delta.0 == speed
    ensures !keys.Left() && !keys.Right() ==> delta.0 == 0
    ensures keys.Up() ==> delta.1 == -speed
    ensures !keys.Up() && keys.Down() ==> delta.1 == speed
    ensures !keys.Up() && !keys.Down() ==> delta.1 == 0
  {
    var dx := if keys.Left() then -speed else 0;
    var dx := if keys.Right() then (if dx == 0 then speed else dx) else dx;
    var dy := if keys.Up() then -speed else 0;
    var dy := if keys.Down() then (if dy == 0 then speed else dy) else dy;
    (dx, dy)
  }

  /** Each component of the delta is 0 or the speed in magnitude. */
  lemma DeltaMagnitude(keys: KeyState, speed: int)
    requires speed >= 0
    ensures var delta := PlayerDelta(keys, speed);
      (delta.0 == 0 || delta.0 == speed || delta.0 == -speed) &&
      (delta.1 == 0 || delta.1 == speed || delta.1 == -speed)
  {
  }

  /** No bomb blocks the square at (x, y), except the one on the soft tile. */
  ghost predicate BombsClear(x: int, y: int, bombs: seq<Bomb>, soft: Option<Cell>)
  {
    forall i :: 0 <= i < |bombs| ==>
      soft == Some((bombs[i].gridX, bombs[i].gridY)) ||
      !OverlapsTile(x, y, bombs[i].gridX, bombs[i].gridY)
  }

  /** Brute-force reference for the player's `_can_move_to`. */
  ghost predicate CanPlayerMoveTo(g: Grid, x: int, y: int, bombs: seq<Bomb>, soft: Option<Cell>)
    requires g.WellFormed()
  {
    TilesClear(g, x, y) && BombsClear(x, y, bombs, soft)
  }

  /** The bomb on the soft tile never blocks: planting a bomb under the player
      and marking its tile soft leaves every move exactly as allowed as before. */
  lemma SoftBombNeverBlocks(x: int, y: int, bombs: seq<Bomb>, b: Bomb)
    ensures BombsClear(x, y, bombs + [b], Some((b.gridX, b.gridY))) <==>
            BombsClear(x, y, bombs, Some((b.gridX, b.gridY)))
  {
    var all := bombs + [b];
    assert forall i :: 0 <= i < |bombs| ==> all[i] == bombs[i];
  }

  /** `update`: the X move is tried at the old Y, then the Y move at the
      possibly updated X. Only the position changes. */
  ghost function MovePlayer(p: PlayerState, keys: KeyState, g: Grid, bombs: seq<Bomb>, soft: Option<Cell>): (q: PlayerState)
    requires g.WellFormed()
    ensures q.(x := p.x, y := p.y) == p
  {
    var delta := PlayerDelta(keys, p.speed);
    var newX, newY := p.x + delta.0, p.y + delta.1;
    var x := if CanPlayerMoveTo(g, newX, p.y, bombs, soft) then newX else p.x;
    var y := if CanPlayerMoveTo(g, x, newY, bombs, soft) then newY else p.y;
    p.(x := x, y := y)
  }

  /** A player standing clear of walls stays clear of walls after moving.
      Each axis moves by exactly its delta when that move is allowed (X at
      the old Y, then Y at the new X) and stays put otherwise. */
  lemma MoveKeepsClear(p: PlayerState, keys: KeyState, g: Grid, bombs: seq<Bomb>, soft: Option<Cell>)
    requires g.WellFormed() && TilesClear(g, p.x, p.y)
    ensures var q := MovePlayer(p, keys, g, bombs, soft);
      var d := PlayerDelta(keys, p.speed);
      TilesClear(g, q.x, q.y) &&
      (q.x == p.x || CanPlayerMoveTo(g, q.x, p.y, bombs, soft)) &&
      (q.y == p.y || CanPlayerMoveTo(g, q.x, q.y, bombs, soft)) &&
      (q.x == if CanPlayerMoveTo(g, p.x + d.0, p.y, bombs, soft) then p.x + d.0 else p.x) &&
      (q.y == if CanPlayerMoveTo(g, q.x, p.y + d.1, bombs, soft) then p.y + d.1 else p.y)
  {
  }

  class Player {
    var x: int
    var y: int
    var speed: int
    var lives: int
    var invincibleUntil: int
    var bombCapacity: int
    var flameRadius: int
    var softBombTile: Option<Cell>

    function Abs(): PlayerState
      reads this
    {
      PlayerState(x, y, speed, lives, invincibleUntil, bombCapacity, flameRadius, softBombTile)
    }

    constructor (gx: int, gy: int, speed: int)
      ensures Abs() == InitialPlayer(gx, gy, speed)
    {
      x, y := gx * TILE, gy * TILE;
      this.speed := speed;
      lives := PLAYER_LIVES;
      invincibleUntil := 0;
      bombCapacity := PLAYER_BOMB_CAPACITY;
      flameRadius := EXPLOSION_RADIUS;
      softBombTile := None;
    }

    predicate IsInvincible(now: int)
      reads this
    {
      Abs().IsInvincible(now)
    }

    method GrantInvincibility(now: int, ms: int)
      modifies this
      ensures Abs() == old(Abs()).(invincibleUntil := now + ms)
      ensures forall t :: IsInvincible(t) <==> t < now + ms
    {
      invincibleUntil := now + ms;
    }

    /** `_can_move_to`: the shared tile loop, then the bomb loop that skips
        the soft tile. */
    method CanMoveTo(nx: int, ny: int, m: GameMap, bombs: seq<Bomb>, soft: Option<Cell>) returns (ok: bool)
      requires m.Valid()
      ensures ok == CanPlayerMoveTo(m.View(), nx, ny, bombs, soft)
    {
      ok := CheckTiles(m, nx, ny);
      if !ok {
        return;
      }
      var i := 0;
      while i < |bombs|
        invariant 0 <= i <= |bombs|
        invariant forall j :: 0 <= j < i ==>
                    soft == Some((bombs[j].gridX, bombs[j].gridY)) ||
                    !OverlapsTile(nx, ny, bombs[j].gridX, bombs[j].gridY)
      {
        var b := bombs[i];
        if soft == Some((b.gridX, b.gridY)) {
          i := i + 1;
          continue;
        }
        if RectsOverlap(nx, ny, ACTOR_SIZE, ACTOR_SIZE, b.gridX * TILE, b.gridY * TILE, TILE, TILE) {
          return false;
        }
        i := i + 1;
      }
      return true;
    }

    /** `update`: key state to delta, then the axis-separated move. */
    method Update(keys: KeyState, m: GameMap, bombs: seq<Bomb>, soft: Option<Cell>)
      requires m.Valid()
      modifies this
      ensures Abs() == MovePlayer(old(Abs()), keys, m.View(), bombs, soft)
    {
      var dx, dy := 0, 0;
      if keys.leftArrow || keys.a {
        dx := -speed;
      }
      if keys.rightArrow || keys.d {
        dx := if dx == 0 then speed else dx;
      }
      if keys.upArrow || keys.w {
        dy := -speed;
      }
      if keys.downArrow || keys.s {
        dy := if dy == 0 then speed else dy;
      }
      var newX, newY := x + dx, y + dy;
      var okX := CanMoveTo(newX, y, m, bombs, soft);
      if okX {
        x := newX;
      }
      var okY := CanMoveTo(x, newY, m, bombs, soft);
      if okY {
        y := newY;
      }
    }
  }
}
