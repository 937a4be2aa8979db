/** Game configuration of the Bomberman clone.
    Positions are measured in half-pixels and time in integer milliseconds,
    so that every speed and timer of the configuration is an exact integer. */
module Constants {

  /** Half-pixels per pixel: every speed of the configuration is a multiple of 0.5 px. */
  const UNITS_PER_PIXEL: int := 2

  /** TILE_SIZE (40 px), in half-pixels. */
  const TILE: int := 40 * UNITS_PER_PIXEL

  const MAP_WIDTH: int := 20
  const MAP_HEIGHT: int := 15

  /** Side of the player's and of an enemy's square: TILE_SIZE - 6 pixels. */
  const ACTOR_SIZE: int := (40 - 6) * UNITS_PER_PIXEL

  /** PLAYER_SPEED 3.0 px per frame. */
  const PLAYER_SPEED: int := 3 * UNITS_PER_PIXEL
  const PLAYER_LIVES: int := 3
  /** PLAYER_INVINCIBILITY_TIME 1.25 s. */
  const PLAYER_INVINCIBILITY_MS: int := 1250

  /** ENEMY_SPEED 1.5 px per frame. */
  const ENEMY_SPEED: int := 3

  /** BOMB_TIMER 3.0 s and BOMB_COOLDOWN 0.5 s. */
  const BOMB_TIMER_MS: int := 3000
  const BOMB_COOLDOWN_MS: int := 500
  const PLAYER_BOMB_CAPACITY: int := 1
  const EXPLOSION_RADIUS: nat := 2
  const EXPLOSION_DURATION_MS: int := 500

  const ENEMY_SCORE: int := 100
  const WALL_SCORE: int := 50
  const LEVEL_COMPLETE_BONUS: int := 500

  /** SPEED_UP_DELTA 0.5 px and MAX_SPEED 5.0 px. */
  const SPEED_UP_DELTA: int := 1
  const MAX_SPEED: int := 10
  const MAX_BOMB_CAPACITY: int := 6
  const MAX_FLAME_RADIUS: int := 8

  /** Bounds of random.uniform(1.0, 2.5) for an enemy's direction-change interval. */
  const MIN_DIRECTION_INTERVAL_MS: int := 1000
  const MAX_DIRECTION_INTERVAL_MS: int := 2500

  /** Score list length and name-entry buffer length. */
  const MAX_SCORES: nat := 10
  const MAX_NAME_LENGTH: nat := 20

  /** A grid cell (column, row). */
  type Cell = (int, int)

  datatype Option<T> = None | Some(value: T)
}
