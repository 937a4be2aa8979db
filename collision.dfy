/** Tile collision shared by the player and the enemies: an actor's square at
    (x, y) is checked against every grid cell its bounding range spans. */
module Collision {
  import opened Constants
  import opened Arena

  /** pygame's `colliderect`: strict overlap, so rectangles that only share an
      edge do not collide. */
  predicate RectsOverlap(x1: int, y1: int, w1: int, h1: int, x2: int, y2: int, w2: int, h2: int)
  {
    x1 < x2 + w2 && x2 < x1 + w1 && y1 < y2 + h2 && y2 < y1 + h1
  }

  /** The actor's square at (x, y) strictly overlaps tile (gx, gy). */
  predicate OverlapsTile(x: int, y: int, gx: int, gy: int)
  {
    RectsOverlap(x, y, ACTOR_SIZE, ACTOR_SIZE, gx * TILE, gy * TILE, TILE, TILE)
  }

  /** The cells `range(start, end + 1)` visits in both axes, where the end
      index is taken at x + size (not x + size - 1). */
  predicate InSpan(x: int, y: int, gx: int, gy: int)
  {
    x / TILE <= gx <= (x + ACTOR_SIZE) / TILE && y / TILE <= gy <= (y + ACTOR_SIZE) / TILE
  }

  /** One spanned cell lets the actor stand at (x, y): it is on the grid, and
      it is not a wall or destructible that the square strictly overlaps. */
  predicate CellClear(g: Grid, x: int, y: int, gx: int, gy: int)
    requires g.WellFormed()
  {
    IsValidPosition(gx, gy) &&
    ((g.IsWall(gx, gy) || g.IsDestructibleWall(gx, gy)) ==> !OverlapsTile(x, y, gx, gy))
  }

  /** Brute-force reference: every spanned cell is clear. */
  ghost predicate TilesClear(g: Grid, x: int, y: int)
    requires g.WellFormed()
  {
    forall gx, gy :: InSpan(x, y, gx, gy) ==> CellClear(g, x, y, gx, gy)
  }

  /** Since ACTOR_SIZE < TILE, the span is at most two cells in each axis. */
  lemma SpanAtMostTwo(x: int, y: int)
    ensures x / TILE <= (x + ACTOR_SIZE) / TILE <= x / TILE + 1
    ensures y / TILE <= (y + ACTOR_SIZE) / TILE <= y / TILE + 1
  {
    var c := WorldToGrid(x, y);
    var e := WorldToGrid(x + ACTOR_SIZE, y + ACTOR_SIZE);
    assert c == (x / TILE, y / TILE) && e == ((x + ACTOR_SIZE) / TILE, (y + ACTOR_SIZE) / TILE);
  }

  /** An off-grid spanned cell blocks even when the square does not overlap it. */
  lemma OffGridSpanBlocks(g: Grid, x: int, y: int, gx: int, gy: int)
    requires g.WellFormed() && InSpan(x, y, gx, gy) && !IsValidPosition(gx, gy)
    ensures !TilesClear(g, x, y)
  {
  }

  /** Clearing destructible walls never makes a clear position blocked: a
      grid with the same solid walls and fewer destructibles keeps every
      clear position clear. */
  lemma TilesClearMonotone(g: Grid, g': Grid, x: int, y: int)
    requires g.WellFormed() && g'.WellFormed() && g'.walls == g.walls
    requires forall cx, cy :: g'.IsDestructibleWall(cx, cy) ==> g.IsDestructibleWall(cx, cy)
    requires TilesClear(g, x, y)
    ensures TilesClear(g', x, y)
  {
    forall gx, gy | InSpan(x, y, gx, gy) ensures CellClear(g', x, y, gx, gy) {
      assert CellClear(g, x, y, gx, gy);
    }
  }

  /** An actor at the top-left corner of an open cell spans that cell only,
      so it stands clear. */
  lemma TopLeftClear(g: Grid, gx: int, gy: int)
    requires g.WellFormed() && IsValidPosition(gx, gy)
    requires !g.IsWall(gx, gy) && !g.IsDestructibleWall(gx, gy)
    ensures TilesClear(g, gx * TILE, gy * TILE)
  {
    var x, y := gx * TILE, gy * TILE;
    WorldToGridIff(x, y, gx, gy);
    WorldToGridIff(x + ACTOR_SIZE, y + ACTOR_SIZE, gx, gy);
    assert x / TILE == gx && (x + ACTOR_SIZE) / TILE == gx;
    assert y / TILE == gy && (y + ACTOR_SIZE) / TILE == gy;
  }

  /** The nested tile loop of `_can_move_to` (shared by player and enemy),
      with its early exits. */
  method CheckTiles(m: GameMap, x: int, y: int) returns (ok: bool)
    requires m.Valid()
    ensures ok == TilesClear(m.View(), x, y)
  {
    var g := m.View();
    var startX, startY := x / TILE, y / TILE;
    var endX, endY := (x + ACTOR_SIZE) / TILE, (y + ACTOR_SIZE) / TILE;
    SpanAtMostTwo(x, y);
    var gx := startX;
    while gx <= endX
      invariant startX <= gx <= endX + 1
      invariant forall cx, cy :: startX <= cx < gx && startY <= cy <= endY ==> CellClear(g, x, y, cx, cy)
    {
      var gy := startY;
      while gy <= endY
        invariant startY <= gy <= endY + 1
        invariant forall cy :: startY <= cy < gy ==> CellClear(g, x, y, gx, cy)
      {
        if !IsValidPosition(gx, gy) {
          assert InSpan(x, y, gx, gy);
          return false;
        }
        if g.IsWall(gx, gy) || g.IsDestructibleWall(gx, gy) {
          if RectsOverlap(x, y, ACTOR_SIZE, ACTOR_SIZE, gx * TILE, gy * TILE, TILE, TILE) {
            assert InSpan(x, y, gx, gy);
            return false;
          }
        }
        gy := gy + 1;
      }
      gx := gx + 1;
    }
    return true;
  }
}
