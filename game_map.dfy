/** The arena: a MAP_WIDTH x MAP_HEIGHT grid of solid and destructible walls,
    world/grid coordinate conversion, generation and enemy-spawn selection. */
module Arena {
  import opened Constants

  predicate IsValidPosition(x: int, y: int)
  {
    0 <= x < MAP_WIDTH && 0 <= y < MAP_HEIGHT
  }

  /** Rows are indexed by y and columns by x, as in the source's 2-D lists. */
  datatype Grid = Grid(walls: seq<seq<bool>>, destructible: seq<seq<bool>>)
  {
    predicate WellFormed()
    {
      |walls| == MAP_HEIGHT && |destructible| == MAP_HEIGHT &&
      (forall y :: 0 <= y < MAP_HEIGHT ==> |walls[y]| == MAP_WIDTH) &&
      (forall y :: 0 <= y < MAP_HEIGHT ==> |destructible[y]| == MAP_WIDTH)
    }

    /** Off-grid cells count as walls. */
    predicate IsWall(x: int, y: int)
      requires WellFormed()
    {
      if !IsValidPosition(x, y) then true else walls[y][x]
    }

    /** Off-grid cells are never destructible. */
    predicate IsDestructibleWall(x: int, y: int)
      requires WellFormed()
    {
      if !IsValidPosition(x, y) then false else destructible[y][x]
    }

    predicate CanPlaceBomb(x: int, y: int)
      requires WellFormed()
    {
      if !IsValidPosition(x, y) then false else !IsWall(x, y) && !IsDestructibleWall(x, y)
    }

    /** Clears the destructible flag of one cell; a no-op off the grid. */
    function Destroy(x: int, y: int): (g: Grid)
      requires WellFormed()
      ensures g.WellFormed() && g.walls == walls
      ensures forall cx, cy :: g.IsDestructibleWall(cx, cy) <==>
                IsDestructibleWall(cx, cy) && (cx, cy) != (x, y)
    {
      if IsValidPosition(x, y) then
        Grid(walls, destructible[y := destructible[y][x := false]])
      else
        this
    }
  }

  /** `world_to_grid`: floor division by the tile size. */
  function WorldToGrid(wx: int, wy: int): (c: Cell)
    ensures c.0 * TILE <= wx < c.0 * TILE + TILE
    ensures c.1 * TILE <= wy < c.1 * TILE + TILE
  {
    (wx / TILE, wy / TILE)
  }

  /** `grid_to_world`: the top-left corner of a cell. */
  function GridToWorld(gx: int, gy: int): (w: (int, int))
    ensures WorldToGrid(w.0, w.1) == (gx, gy)
  {
    (gx * TILE, gy * TILE)
  }

  /** A world coordinate lies in exactly one cell: `world_to_grid` gives
      (gx, gy) exactly when the point lies in that cell's tile. */
  lemma WorldToGridIff(wx: int, wy: int, gx: int, gy: int)
    ensures WorldToGrid(wx, wy) == (gx, gy) <==>
            gx * TILE <= wx < gx * TILE + TILE && gy * TILE <= wy < gy * TILE + TILE
  {
    var c := WorldToGrid(wx, wy);
    if gx * TILE <= wx < gx * TILE + TILE && gy * TILE <= wy < gy * TILE + TILE {
      TileUnique(wx, gx, c.0);
      TileUnique(wy, gy, c.1);
    }
  }

  /** Two tiles that both hold a coordinate are the same tile. */
  lemma TileUnique(w: int, a: int, b: int)
    requires a * TILE <= w < a * TILE + TILE && b * TILE <= w < b * TILE + TILE
    ensures a == b
  {
    if a < b {
      TileStep(a, b);
    } else if b < a {
      TileStep(b, a);
    }
  }

  lemma TileStep(a: int, b: int)
    requires a < b
    ensures a * TILE + TILE <= b * TILE
  {
    assert (b - a) * TILE >= TILE;
    assert (b - a) * TILE == b * TILE - a * TILE;
  }

  lemma OffGridCells(g: Grid, x: int, y: int)
    requires g.WellFormed() && !IsValidPosition(x, y)
    ensures g.IsWall(x, y) && !g.IsDestructibleWall(x, y) && !g.CanPlaceBomb(x, y)
  {
  }

  // ---------------------------------------------------------------------
  // Generation
  // ---------------------------------------------------------------------

  predicate IsBorder(x: int, y: int)
  {
    x == 0 || x == MAP_WIDTH - 1 || y == 0 || y == MAP_HEIGHT - 1
  }

  /** A generated solid wall: the border, or an interior pillar at even/even. */
  predicate IsGeneratedWall(x: int, y: int)
  {
    IsBorder(x, y) || (x % 2 == 0 && y % 2 == 0)
  }

  /** `_should_place_destructible_wall`: `fill(x, y)` is the outcome of the
      source's `random.random() < 0.3` draw for that cell. */
  predicate ShouldPlaceDestructibleWall(x: int, y: int, fill: (int, int) -> bool)
  {
    if x < 2 || y < 2 || x >= MAP_WIDTH - 2 || y >= MAP_HEIGHT - 2 then false
    else if (x == 1 && y == 1) || (x == 2 && y == 1) || (x == 1 && y == 2) then false
    else fill(x, y)
  }

  /** The inner band where destructible walls may appear. */
  predicate InBand(x: int, y: int)
  {
    2 <= x < MAP_WIDTH - 2 && 2 <= y < MAP_HEIGHT - 2
  }

  function WallRow(y: int): (row: seq<bool>)
    ensures |row| == MAP_WIDTH
  {
    seq(MAP_WIDTH, x => IsGeneratedWall(x, y))
  }

  function DestructibleRow(y: int, fill: (int, int) -> bool): (row: seq<bool>)
    ensures |row| == MAP_WIDTH
  {
    seq(MAP_WIDTH, x => !IsGeneratedWall(x, y) && ShouldPlaceDestructibleWall(x, y, fill))
  }

  /** The grid `_generate_map` builds for a given outcome of the random draws. */
  function Generate(fill: (int, int) -> bool): (g: Grid)
    ensures g.WellFormed()
  {
    Grid(seq(MAP_HEIGHT, y => WallRow(y)), seq(MAP_HEIGHT, y => DestructibleRow(y, fill)))
  }

  /** What generation establishes and every later change preserves: the
      solid walls are exactly the border and the pillars, no cell is both a
      wall and destructible, and destructibles lie only in the inner band. */
  ghost predicate GridInv(g: Grid)
  {
    g.WellFormed() &&
    (forall x, y :: IsValidPosition(x, y) ==> g.walls[y][x] == IsGeneratedWall(x, y)) &&
    (forall x, y :: IsValidPosition(x, y) && g.destructible[y][x] ==>
       !g.walls[y][x] && InBand(x, y))
  }

  lemma GenerateEstablishesInv(fill: (int, int) -> bool)
    ensures GridInv(Generate(fill))
    ensures forall x, y :: IsValidPosition(x, y) && IsBorder(x, y) ==> Generate(fill).IsWall(x, y)
    ensures forall x, y :: IsValidPosition(x, y) && x % 2 == 0 && y % 2 == 0 ==> Generate(fill).IsWall(x, y)
  {
    var g := Generate(fill);
    forall x, y | IsValidPosition(x, y)
      ensures g.walls[y][x] == IsGeneratedWall(x, y)
      ensures g.destructible[y][x] ==> !g.walls[y][x] && InBand(x, y)
    {
      assert g.walls[y] == WallRow(y);
      assert g.destructible[y] == DestructibleRow(y, fill);
    }
  }

  /** No cell is ever both a wall and destructible. */
  lemma WallsAndDestructiblesDisjoint(g: Grid, x: int, y: int)
    requires GridInv(g)
    ensures !(g.IsWall(x, y) && g.IsDestructibleWall(x, y))
  {
  }

  /** The pocket (1,1), (2,1), (1,2) around the player spawn is always open. */
  lemma SpawnPocketOpen(g: Grid)
    requires GridInv(g)
    ensures !g.IsWall(1, 1) && !g.IsDestructibleWall(1, 1)
    ensures !g.IsWall(2, 1) && !g.IsDestructibleWall(2, 1)
    ensures !g.IsWall(1, 2) && !g.IsDestructibleWall(1, 2)
  {
    assert IsValidPosition(1, 1) && IsValidPosition(2, 1) && IsValidPosition(1, 2);
  }

  lemma DestroyPreservesInv(g: Grid, x: int, y: int)
    requires GridInv(g)
    ensures GridInv(g.Destroy(x, y))
  {
    var g' := g.Destroy(x, y);
    forall cx, cy | IsValidPosition(cx, cy) && g'.destructible[cy][cx]
      ensures !g'.walls[cy][cx] && InBand(cx, cy)
    {
      assert g'.IsDestructibleWall(cx, cy);
    }
  }

  // ---------------------------------------------------------------------
  // Enemy spawn selection
  // ---------------------------------------------------------------------

  predicate Distinct<T(==)>(s: seq<T>)
  {
    forall i, j :: 0 <= i < j < |s| ==> s[i] != s[j]
  }

  predicate IsSpawnCandidate(g: Grid, x: int, y: int)
    requires g.WellFormed()
  {
    !g.IsWall(x, y) && !g.IsDestructibleWall(x, y) && !(x == 1 && y == 1)
  }

  /** Candidates of row y with 1 <= x < n, in increasing x. */
  function RowCandidates(g: Grid, y: int, n: int): seq<Cell>
    requires g.WellFormed()
    decreases n
  {
    if n <= 1 then []
    else RowCandidates(g, y, n - 1) + (if IsSpawnCandidate(g, n - 1, y) then [(n - 1, y)] else [])
  }

  /** Candidates of rows 1 <= y < m, row by row. */
  function CandidatesUpTo(g: Grid, m: int): seq<Cell>
    requires g.WellFormed()
    decreases m
  {
    if m <= 1 then []
    else CandidatesUpTo(g, m - 1) + RowCandidates(g, m - 1, MAP_WIDTH - 1)
  }

  /** The interior cells `get_enemy_spawn_positions` collects, in row-major order. */
  function SpawnCandidates(g: Grid): seq<Cell>
    requires g.WellFormed()
  {
    CandidatesUpTo(g, MAP_HEIGHT - 1)
  }

  lemma {:induction false} RowCandidatesSpec(g: Grid, y: int, n: int)
    requires g.WellFormed()
    ensures forall c :: c in RowCandidates(g, y, n) <==>
              c.1 == y && 1 <= c.0 < n && IsSpawnCandidate(g, c.0, c.1)
    ensures Distinct(RowCandidates(g, y, n))
    decreases n
  {
    if n > 1 {
      RowCandidatesSpec(g, y, n - 1);
    }
  }

  lemma {:induction false} CandidatesUpToSpec(g: Grid, m: int)
    requires g.WellFormed()
    ensures forall c :: c in CandidatesUpTo(g, m) <==>
              1 <= c.1 < m && 1 <= c.0 < MAP_WIDTH - 1 && IsSpawnCandidate(g, c.0, c.1)
    ensures Distinct(CandidatesUpTo(g, m))
    decreases m
  {
    if m > 1 {
      CandidatesUpToSpec(g, m - 1);
      RowCandidatesSpec(g, m - 1, MAP_WIDTH - 1);
      var a, b := CandidatesUpTo(g, m - 1), RowCandidates(g, m - 1, MAP_WIDTH - 1);
      assert CandidatesUpTo(g, m) == a + b;
      forall i, j | 0 <= i < j < |a + b| ensures (a + b)[i] != (a + b)[j] {
        if j >= |a| && i < |a| {
          assert a[i] in a && b[j - |a|] in b;
        }
      }
    }
  }

  /** A cell is a spawn candidate exactly when it is interior, open, not
      destructible and not the player's spawn cell; no cell appears twice. */
  lemma SpawnCandidatesSpec(g: Grid)
    requires g.WellFormed()
    ensures forall c :: c in SpawnCandidates(g) <==>
              1 <= c.0 < MAP_WIDTH - 1 && 1 <= c.1 < MAP_HEIGHT - 1 &&
              !g.IsWall(c.0, c.1) && !g.IsDestructibleWall(c.0, c.1) && c != (1, 1)
    ensures Distinct(SpawnCandidates(g))
  {
    CandidatesUpToSpec(g, MAP_HEIGHT - 1);
  }

  function Min(a: int, b: int): int
  {
    if a <= b then a else b
  }

  /** Removing the element at index i keeps the other elements, and keeps
      a duplicate-free sequence duplicate-free without the removed one. */
  lemma RemoveAtSpec(pool: seq<Cell>, i: nat)
    requires i < |pool|
    ensures forall c :: c in pool[..i] + pool[i + 1..] ==> c in pool
    ensures Distinct(pool) ==> pool[i] !in pool[..i] + pool[i + 1..] && Distinct(pool[..i] + pool[i + 1..])
  {
    var rest := pool[..i] + pool[i + 1..];
    forall a | 0 <= a < |rest| ensures rest[a] == pool[if a < i then a else a + 1] {
    }
    if Distinct(pool) {
      forall a, b | 0 <= a < b < |rest| ensures rest[a] != rest[b] {
        assert rest[a] == pool[if a < i then a else a + 1];
        assert rest[b] == pool[if b < i then b else b + 1];
      }
      forall c | c in rest ensures c != pool[i] {
        var a :| 0 <= a < |rest| && rest[a] == c;
        assert rest[a] == pool[if a < i then a else a + 1];
      }
    }
  }

  /** `random.sample(pool, k)`: selection without replacement, where
      `picks` supplies the random index drawn at each step. */
  function Sample(pool: seq<Cell>, k: nat, picks: seq<nat>): (r: seq<Cell>)
    ensures |r| == Min(k, |pool|)
    ensures forall c :: c in r ==> c in pool
    ensures Distinct(pool) ==> Distinct(r)
    decreases k
  {
    if k == 0 || |pool| == 0 then []
    else
      var i := (if picks == [] then 0 else picks[0]) % |pool|;
      var rest := pool[..i] + pool[i + 1..];
      var tail := Sample(rest, k - 1, if picks == [] then [] else picks[1..]);
      RemoveAtSpec(pool, i);
      [pool[i]] + tail
  }

  /** The number of enemies `get_enemy_spawn_positions` asks for. */
  const ENEMY_COUNT: nat := 5

  class GameMap {
    var walls: seq<seq<bool>>
    var destructibleWalls: seq<seq<bool>>

    function View(): Grid
      reads this
    {
      Grid(walls, destructibleWalls)
    }

    ghost predicate Valid()
      reads this
    {
      GridInv(View())
    }

    /** `__init__` and `_generate_map`: nested loops that fill both grids. */
    constructor (fill: (int, int) -> bool)
      ensures View() == Generate(fill) && Valid()
    {
      var ws: seq<seq<bool>> := [];
      var ds: seq<seq<bool>> := [];
      var y := 0;
      while y < MAP_HEIGHT
        invariant 0 <= y <= MAP_HEIGHT && |ws| == y && |ds| == y
        invariant forall j :: 0 <= j < y ==> ws[j] == WallRow(j) && ds[j] == DestructibleRow(j, fill)
      {
        var wrow: seq<bool> := [];
        var drow: seq<bool> := [];
        var x := 0;
        while x < MAP_WIDTH
          invariant 0 <= x <= MAP_WIDTH && |wrow| == x && |drow| == x
          invariant forall i :: 0 <= i < x ==> wrow[i] == IsGeneratedWall(i, y)
          invariant forall i :: 0 <= i < x ==>
                      drow[i] == (!IsGeneratedWall(i, y) && ShouldPlaceDestructibleWall(i, y, fill))
        {
          if x == 0 || x == MAP_WIDTH - 1 || y == 0 || y == MAP_HEIGHT - 1 {
            wrow, drow := wrow + [true], drow + [false];
          } else if x % 2 == 0 && y % 2 == 0 {
            wrow, drow := wrow + [true], drow + [false];
          } else if ShouldPlaceDestructibleWall(x, y, fill) {
            wrow, drow := wrow + [false], drow + [true];
          } else {
            wrow, drow := wrow + [false], drow + [false];
          }
          x := x + 1;
        }
        assert wrow == WallRow(y);
        assert drow == DestructibleRow(y, fill);
        ws, ds := ws + [wrow], ds + [drow];
        y := y + 1;
      }
      walls, destructibleWalls := ws, ds;
      new;
      assert walls == Generate(fill).walls;
      assert destructibleWalls == Generate(fill).destructible;
      GenerateEstablishesInv(fill);
    }

    /** `destroy_wall`: clears one destructible flag in place. */
    method DestroyWall(x: int, y: int)
      requires Valid()
      modifies this
      ensures Valid() && View() == old(View()).Destroy(x, y)
    {
      DestroyPreservesInv(View(), x, y);
      if IsValidPosition(x, y) {
        destructibleWalls := destructibleWalls[y := destructibleWalls[y][x := false]];
      }
    }

    /** `get_enemy_spawn_positions`: collect the open interior cells other
        than the player's spawn, then sample up to five of them. */
    method GetEnemySpawnPositions(picks: seq<nat>) returns (chosen: seq<Cell>)
      requires Valid()
      ensures chosen == Sample(SpawnCandidates(View()), ENEMY_COUNT, picks)
      ensures |chosen| == Min(ENEMY_COUNT, |SpawnCandidates(View())|) && Distinct(chosen)
      ensures forall c :: c in chosen ==>
                1 <= c.0 < MAP_WIDTH - 1 && 1 <= c.1 < MAP_HEIGHT - 1 &&
                !View().IsWall(c.0, c.1) && !View().IsDestructibleWall(c.0, c.1) && c != (1, 1)
    {
      var g := View();
      var positions: seq<Cell> := [];
      var y := 1;
      while y < MAP_HEIGHT - 1
        invariant 1 <= y <= MAP_HEIGHT - 1
        invariant positions == CandidatesUpTo(g, y)
      {
        var x := 1;
        ghost var before := positions;
        while x < MAP_WIDTH - 1
          invariant 1 <= x <= MAP_WIDTH - 1
          invariant positions == before + RowCandidates(g, y, x)
        {
          if !g.IsWall(x, y) && !g.IsDestructibleWall(x, y) {
            if !(x == 1 && y == 1) {
              positions := positions + [(x, y)];
            }
          }
          x := x + 1;
        }
        y := y + 1;
      }
      SpawnCandidatesSpec(g);
      chosen := Sample(positions, ENEMY_COUNT, picks);
    }
  }
}
