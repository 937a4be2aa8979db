/** The short-lived flame left by a detonation. */
module Explosions {
  import opened Constants

  /** The tile list is a value, so the explosion keeps its own copy: nothing
      the caller later does to its list can reach it. */
  datatype Explosion = Explosion(tiles: seq<Cell>, started: int, durationMs: int)
  {
    /** `is_active`, with `now` and `started` in milliseconds. */
    predicate IsActive(now: int)
    {
      now - started < durationMs
    }

    predicate Contains(x: int, y: int)
    {
      (x, y) in tiles
    }
  }

  function NewExplosion(tiles: seq<Cell>, now: int): (e: Explosion)
    ensures e.IsActive(now)
    ensures forall x, y :: e.Contains(x, y) <==> (x, y) in tiles
  {
    Explosion(tiles, now, EXPLOSION_DURATION_MS)
  }

  /** A fresh explosion burns for exactly EXPLOSION_DURATION_MS. */
  lemma NewExplosionLifetime(tiles: seq<Cell>, started: int, now: int)
    ensures NewExplosion(tiles, started).IsActive(now) <==> now < started + EXPLOSION_DURATION_MS
  {
  }

  /** Once inactive, an explosion stays inactive. */
  lemma InactiveStaysInactive(e: Explosion, now: int, later: int)
    requires !e.IsActive(now) && now <= later
    ensures !e.IsActive(later)
  {
  }

  /** Keeps the explosions still active at `now`, in order
      (the comprehension at the end of the engine's tick). */
  function ActiveExplosions(es: seq<Explosion>, now: int): (r: seq<Explosion>)
    ensures |r| <= |es|
    ensures forall e :: e in r <==> e in es && e.IsActive(now)
  {
    if es == [] then []
    else ActiveExplosions(es[..|es| - 1], now) +
         (if es[|es| - 1].IsActive(now) then [es[|es| - 1]] else [])
  }
}
