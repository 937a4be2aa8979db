/** Power-ups dropped by destroyed walls, and their capped effect on the player. */
module PowerUps {
  import opened Constants
  import opened Arena
  import opened Players

  /** `PowerUpType`, closed to its four kinds. */
  datatype PowerUpKind = BombUp | FireUp | SpeedUp | Heart

  datatype PowerUp = PowerUp(gridX: int, gridY: int, kind: PowerUpKind)

  /** `apply_to` on the player's stats: each kind raises its own stat by one
      step, capped except for the extra life. */
  function ApplyPowerUp(kind: PowerUpKind, p: PlayerState): (q: PlayerState)
    // position, invincibility and soft tile are never touched
    ensures q.(speed := p.speed, lives := p.lives, bombCapacity := p.bombCapacity,
               flameRadius := p.flameRadius) == p
    // only the kind's own stat changes
    ensures kind != BombUp ==> q.bombCapacity == p.bombCapacity
    ensures kind != FireUp ==> q.flameRadius == p.flameRadius
    ensures kind != SpeedUp ==> q.speed == p.speed
    ensures kind != Heart ==> q.lives == p.lives
    // the extra life is uncapped
    ensures kind == Heart ==> q.lives == p.lives + 1
  {
    match kind
    case BombUp => p.(bombCapacity := Min(p.bombCapacity + 1, MAX_BOMB_CAPACITY))
    case FireUp => p.(flameRadius := Min(p.flameRadius + 1, MAX_FLAME_RADIUS))
    case SpeedUp => p.(speed := Min(p.speed + SPEED_UP_DELTA, MAX_SPEED))
    case Heart => p.(lives := p.lives + 1)
  }

  /** The capped stats of a player. */
  predicate WithinCaps(p: PlayerState)
  {
    p.bombCapacity <= MAX_BOMB_CAPACITY && p.flameRadius <= MAX_FLAME_RADIUS && p.speed <= MAX_SPEED
  }

  /** A capped stat that starts at or below its cap never decreases, stays at
      or below the cap, and goes up by one step exactly when there is room. */
  lemma PowerUpCapped(kind: PowerUpKind, p: PlayerState)
    requires WithinCaps(p)
    ensures var q := ApplyPowerUp(kind, p);
      WithinCaps(q) &&
      p.bombCapacity <= q.bombCapacity && p.flameRadius <= q.flameRadius &&
      p.speed <= q.speed && p.lives <= q.lives &&
      (kind == BombUp ==> (q.bombCapacity == p.bombCapacity + 1 <==> p.bombCapacity < MAX_BOMB_CAPACITY)) &&
      (kind == FireUp ==> (q.flameRadius == p.flameRadius + 1 <==> p.flameRadius < MAX_FLAME_RADIUS)) &&
      (kind == SpeedUp ==> (q.speed == p.speed + SPEED_UP_DELTA <==> p.speed + SPEED_UP_DELTA <= MAX_SPEED))
  {
  }

  /** A stat at its cap is a fixpoint of its own power-up. */
  lemma PowerUpAtCap(p: PlayerState)
    requires p.bombCapacity == MAX_BOMB_CAPACITY && p.flameRadius == MAX_FLAME_RADIUS && p.speed == MAX_SPEED
    ensures ApplyPowerUp(BombUp, p) == p
    ensures ApplyPowerUp(FireUp, p) == p
    ensures ApplyPowerUp(SpeedUp, p) == p
  {
  }

  /** `apply_to`: assigns one field of the player in place. */
  method ApplyTo(pu: PowerUp, player: Player)
    modifies player
    ensures player.Abs() == ApplyPowerUp(pu.kind, old(player.Abs()))
  {
    match pu.kind
    case BombUp =>
      player.bombCapacity := Min(player.bombCapacity + 1, MAX_BOMB_CAPACITY);
    case FireUp =>
      player.flameRadius := Min(player.flameRadius + 1, MAX_FLAME_RADIUS);
    case SpeedUp =>
      player.speed := Min(player.speed + SPEED_UP_DELTA, MAX_SPEED);
    case Heart =>
      player.lives := player.lives + 1;
  }
}
