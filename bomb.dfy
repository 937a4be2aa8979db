/** A planted bomb and its four-arm blast raycast. */
module Bombs {
  import opened Constants
  import opened Arena

  /** The fields a bomb fixes at construction. The blast radius is always the
      configuration constant, whatever the planting player's flame radius. */
  datatype Bomb = Bomb(gridX: int, gridY: int, timer: int, plantTime: int, explosionRadius: nat)

  function NewBomb(x: int, y: int, timer: int, now: int): Bomb
  {
    Bomb(x, y, timer, now, EXPLOSION_RADIUS)
  }

  predicate ShouldExplode(b: Bomb, now: int)
  {
    now - b.plantTime >= b.timer
  }

  /** Once a fuse has elapsed it stays elapsed. */
  lemma ShouldExplodeStays(b: Bomb, now: int, later: int)
    requires ShouldExplode(b, now) && now <= later
    ensures ShouldExplode(b, later)
  {
  }

  /** The raycast directions, in the source's order. */
  const DIRECTIONS: seq<(int, int)> := [(0, 1), (0, -1), (1, 0), (-1, 0)]

  function Step(ox: int, oy: int, dx: int, dy: int, i: int): Cell
  {
    (ox + dx * i, oy + dy * i)
  }

  /** The cell at a step stops the arm before it and is excluded. */
  predicate Blocks(g: Grid, c: Cell)
    requires g.WellFormed()
  {
    !IsValidPosition(c.0, c.1) || g.IsWall(c.0, c.1)
  }

  /** Cells of one arm from step i up to step r. */
  function Arm(g: Grid, ox: int, oy: int, dx: int, dy: int, i: int, r: int): seq<Cell>
    requires g.WellFormed()
    decreases r - i
  {
    if i > r then []
    else
      var c := Step(ox, oy, dx, dy, i);
      if !IsValidPosition(c.0, c.1) then []
      else if g.IsWall(c.0, c.1) then []
      else if g.IsDestructibleWall(c.0, c.1) then [c]
      else [c] + Arm(g, ox, oy, dx, dy, i + 1, r)
  }

  /** The first k arms, in the order of DIRECTIONS. */
  function Arms(g: Grid, b: Bomb, k: nat): seq<Cell>
    requires g.WellFormed() && k <= 4
  {
    if k == 0 then []
    else Arms(g, b, k - 1) + Arm(g, b.gridX, b.gridY, DIRECTIONS[k - 1].0, DIRECTIONS[k - 1].1, 1, b.explosionRadius)
  }

  /** `get_explosion_positions`: the origin followed by the four arms. */
  function BlastCells(g: Grid, b: Bomb): seq<Cell>
    requires g.WellFormed()
  {
    [(b.gridX, b.gridY)] + Arms(g, b, 4)
  }

  /** Exact shape of an arm: it is the run of consecutive steps i, i+1, ...
      through valid open cells; only its last cell may be destructible; and it
      ends at step r, before a blocking cell, or on a destructible cell. */
  lemma {:induction false} ArmShape(g: Grid, ox: int, oy: int, dx: int, dy: int, i: int, r: int)
    requires g.WellFormed()
    ensures var a := Arm(g, ox, oy, dx, dy, i, r);
      (i > r ==> a == []) &&
      (i <= r ==> |a| <= r - i + 1) &&
      (forall k :: 0 <= k < |a| ==> a[k] == Step(ox, oy, dx, dy, i + k)) &&
      (forall k :: 0 <= k < |a| ==> !Blocks(g, a[k])) &&
      (forall k :: 0 <= k < |a| - 1 ==> !g.IsDestructibleWall(a[k].0, a[k].1)) &&
      (i + |a| > r ||
       Blocks(g, Step(ox, oy, dx, dy, i + |a|)) ||
       (|a| > 0 && g.IsDestructibleWall(a[|a| - 1].0, a[|a| - 1].1)))
    decreases r - i
  {
    if i <= r {
      var c := Step(ox, oy, dx, dy, i);
      if IsValidPosition(c.0, c.1) && !g.IsWall(c.0, c.1) && !g.IsDestructibleWall(c.0, c.1) {
        ArmShape(g, ox, oy, dx, dy, i + 1, r);
        var tail := Arm(g, ox, oy, dx, dy, i + 1, r);
        assert Arm(g, ox, oy, dx, dy, i, r) == [c] + tail;
      }
    }
  }

  /** No cell at or beyond a blocking step, and none beyond a destructible
      step, belongs to the arm. */
  lemma ArmStops(g: Grid, ox: int, oy: int, dx: int, dy: int, r: int, j: int)
    requires g.WellFormed() && 1 <= j
    ensures Blocks(g, Step(ox, oy, dx, dy, j)) ==> |Arm(g, ox, oy, dx, dy, 1, r)| < j
    ensures g.IsDestructibleWall(Step(ox, oy, dx, dy, j).0, Step(ox, oy, dx, dy, j).1) ==>
              |Arm(g, ox, oy, dx, dy, 1, r)| <= j
  {
    ArmShape(g, ox, oy, dx, dy, 1, r);
    var a := Arm(g, ox, oy, dx, dy, 1, r);
    if |a| >= j {
      assert a[j - 1] == Step(ox, oy, dx, dy, j) && !Blocks(g, a[j - 1]);
    }
    if |a| > j {
      assert a[j - 1] == Step(ox, oy, dx, dy, j) && !g.IsDestructibleWall(a[j - 1].0, a[j - 1].1);
    }
  }

  /** An arm from step 1 has at most r cells. */
  lemma ArmLength(g: Grid, ox: int, oy: int, dx: int, dy: int, r: int)
    requires g.WellFormed() && r >= 0
    ensures |Arm(g, ox, oy, dx, dy, 1, r)| <= r
  {
    ArmShape(g, ox, oy, dx, dy, 1, r);
  }

  lemma {:induction false} ArmsLength(g: Grid, b: Bomb, k: nat)
    requires g.WellFormed() && k <= 4
    ensures |Arms(g, b, k)| <= k * b.explosionRadius
  {
    if k > 0 {
      ArmsLength(g, b, k - 1);
      ArmLength(g, b.gridX, b.gridY, DIRECTIONS[k - 1].0, DIRECTIONS[k - 1].1, b.explosionRadius);
      MulSucc(k, b.explosionRadius);
    }
  }

  lemma MulSucc(k: int, r: int)
    ensures (k - 1) * r + r == k * r
  {
  }

  /** The origin comes first, there are at most 4r + 1 cells, and no blast
      cell is off the grid or a solid wall. */
  lemma BlastBounds(g: Grid, b: Bomb)
    requires g.WellFormed() && IsValidPosition(b.gridX, b.gridY)
    ensures var cells := BlastCells(g, b);
      cells[0] == (b.gridX, b.gridY) &&
      |cells| <= 4 * b.explosionRadius + 1 &&
      forall k :: 1 <= k < |cells| ==> IsValidPosition(cells[k].0, cells[k].1) && !g.IsWall(cells[k].0, cells[k].1)
  {
    ArmsLength(g, b, 4);
    ArmsOpen(g, b, 4);
    var cells := BlastCells(g, b);
    forall k | 1 <= k < |cells| ensures cells[k] in Arms(g, b, 4) {
      assert cells[k] == Arms(g, b, 4)[k - 1];
    }
  }

  lemma {:induction false} ArmsOpen(g: Grid, b: Bomb, k: nat)
    requires g.WellFormed() && k <= 4
    ensures forall c :: c in Arms(g, b, k) ==> !Blocks(g, c)
  {
    if k > 0 {
      ArmsOpen(g, b, k - 1);
      ArmShape(g, b.gridX, b.gridY, DIRECTIONS[k - 1].0, DIRECTIONS[k - 1].1, 1, b.explosionRadius);
    }
  }

  /** Every step of every arm within the radius is a valid, open, non-destructible cell. */
  ghost predicate OpenField(g: Grid, b: Bomb)
    requires g.WellFormed()
  {
    forall d, j :: 0 <= d < 4 && 1 <= j <= b.explosionRadius ==>
      var c := Step(b.gridX, b.gridY, DIRECTIONS[d].0, DIRECTIONS[d].1, j);
      !Blocks(g, c) && !g.IsDestructibleWall(c.0, c.1)
  }

  /** With nothing in the way, an arm reaches exactly r cells. */
  lemma FullArm(g: Grid, b: Bomb, d: nat)
    requires g.WellFormed() && d < 4 && OpenField(g, b)
    ensures var a := Arm(g, b.gridX, b.gridY, DIRECTIONS[d].0, DIRECTIONS[d].1, 1, b.explosionRadius);
      |a| == b.explosionRadius &&
      forall k :: 0 <= k < |a| ==> a[k] == Step(b.gridX, b.gridY, DIRECTIONS[d].0, DIRECTIONS[d].1, k + 1)
  {
    var dx, dy, r := DIRECTIONS[d].0, DIRECTIONS[d].1, b.explosionRadius;
    ArmShape(g, b.gridX, b.gridY, dx, dy, 1, r);
  }

  /** The cells of direction d at step j, two of which coincide only when
      direction and step both agree, and never with the origin. */
  lemma StepsDistinct(ox: int, oy: int, d1: nat, j1: int, d2: nat, j2: int)
    requires d1 < 4 && d2 < 4 && 1 <= j1 && 1 <= j2
    ensures Step(ox, oy, DIRECTIONS[d1].0, DIRECTIONS[d1].1, j1) != (ox, oy)
    ensures (d1, j1) != (d2, j2) ==>
      Step(ox, oy, DIRECTIONS[d1].0, DIRECTIONS[d1].1, j1) != Step(ox, oy, DIRECTIONS[d2].0, DIRECTIONS[d2].1, j2)
  {
  }

  /** In an open field each arm is full, so the first k arms hold k*r cells. */
  lemma {:induction false} OpenArmsLength(g: Grid, b: Bomb, k: nat)
    requires g.WellFormed() && k <= 4 && OpenField(g, b)
    ensures |Arms(g, b, k)| == k * b.explosionRadius
  {
    if k > 0 {
      OpenArmsLength(g, b, k - 1);
      FullArm(g, b, k - 1);
      MulSucc(k, b.explosionRadius);
    }
  }

  /** The first k arms of an open field: step j of direction d sits at index d*r + j - 1. */
  lemma {:induction false} OpenArmsIndex(g: Grid, b: Bomb, k: nat, d: nat, j: int)
    requires g.WellFormed() && k <= 4 && OpenField(g, b)
    requires d < k && 1 <= j <= b.explosionRadius
    ensures 0 <= d * b.explosionRadius + j - 1 < |Arms(g, b, k)|
    ensures Arms(g, b, k)[d * b.explosionRadius + j - 1] ==
            Step(b.gridX, b.gridY, DIRECTIONS[d].0, DIRECTIONS[d].1, j)
  {
    var r := b.explosionRadius;
    OpenArmsLength(g, b, k - 1);
    FullArm(g, b, k - 1);
    var prev := Arms(g, b, k - 1);
    var a := Arm(g, b.gridX, b.gridY, DIRECTIONS[k - 1].0, DIRECTIONS[k - 1].1, 1, r);
    assert Arms(g, b, k) == prev + a;
    IndexSplit(d, j, k, r);
    if d < k - 1 {
      OpenArmsIndex(g, b, k - 1, d, j);
    }
  }

  /** Where index d*r + j - 1 falls when the first k - 1 arms hold (k-1)*r cells. */
  lemma IndexSplit(d: int, j: int, k: int, r: int)
    requires 0 <= d < k && 1 <= j <= r
    ensures d < k - 1 ==> 0 <= d * r + j - 1 < (k - 1) * r
    ensures d == k - 1 ==> d * r + j - 1 == (k - 1) * r + (j - 1)
  {
    if d < k - 1 {
      MulMonotone(k - 2, d, r);
      MulSucc(k - 1, r);
    }
  }

  /** Index q of an open-field blast (q >= 1) is step (q-1)%r + 1 of
      direction (q-1)/r. */
  lemma OpenFieldCellAt(g: Grid, b: Bomb, q: int) returns (d: nat, j: int)
    requires g.WellFormed() && OpenField(g, b) && 1 <= q <= 4 * b.explosionRadius
    ensures d < 4 && 1 <= j <= b.explosionRadius
    ensures |BlastCells(g, b)| == 4 * b.explosionRadius + 1
    ensures q == d * b.explosionRadius + j
    ensures BlastCells(g, b)[q] == Step(b.gridX, b.gridY, DIRECTIONS[d].0, DIRECTIONS[d].1, j)
  {
    var r := b.explosionRadius;
    var arms := Arms(g, b, 4);
    OpenArmsLength(g, b, 4);
    d, j := DivideIndex(q - 1, r);
    OpenArmsIndex(g, b, 4, d, j);
    assert BlastCells(g, b) == [(b.gridX, b.gridY)] + arms;
  }

  lemma DivideIndex(p: int, r: int) returns (d: nat, j: int)
    requires 0 <= p < 4 * r
    ensures d < 4 && 1 <= j <= r && p == d * r + j - 1
  {
    d, j := p / r, p % r + 1;
    if d >= 4 {
      MulMonotone(d, 4, r);
    }
  }

  lemma MulMonotone(a: int, b: int, r: int)
    requires a >= b && r >= 0
    ensures a * r >= b * r
  {
  }

  /** With no wall or destructible within r of the origin in any direction,
      the blast covers exactly 4r + 1 distinct cells. */
  lemma OpenFieldBlast(g: Grid, b: Bomb)
    requires g.WellFormed() && OpenField(g, b)
    ensures |BlastCells(g, b)| == 4 * b.explosionRadius + 1
    ensures Distinct(BlastCells(g, b))
  {
    OpenArmsLength(g, b, 4);
    var cells := BlastCells(g, b);
    assert |cells| == 4 * b.explosionRadius + 1;
    forall p, q | 0 <= p < q < |cells| ensures cells[p] != cells[q] {
      var dq, jq := OpenFieldCellAt(g, b, q);
      if p == 0 {
        StepsDistinct(b.gridX, b.gridY, dq, jq, dq, jq);
      } else {
        var dp, jp := OpenFieldCellAt(g, b, p);
        StepsDistinct(b.gridX, b.gridY, dp, jp, dq, jq);
      }
    }
  }

  /** Two duplicate-free lists with no element in common concatenate to a
      duplicate-free list. */
  lemma DistinctConcat(a: seq<Cell>, b: seq<Cell>)
    requires Distinct(a) && Distinct(b)
    requires forall i, j :: 0 <= i < |a| && 0 <= j < |b| ==> a[i] != b[j]
    ensures Distinct(a + b)
  {
    var ab := a + b;
    forall p, q | 0 <= p < q < |ab| ensures ab[p] != ab[q] {
      if q < |a| {
        assert ab[p] == a[p] && ab[q] == a[q];
      } else if p >= |a| {
        assert ab[p] == b[p - |a|] && ab[q] == b[q - |a|];
      } else {
        assert ab[p] == a[p] && ab[q] == b[q - |a|];
      }
    }
  }

  /** The first k arms never list a cell twice, and each of their cells is
      some step j >= 1 along one of the first k directions. */
  lemma {:induction false} ArmsDistinct(g: Grid, b: Bomb, k: nat)
    requires g.WellFormed() && k <= 4
    ensures Distinct(Arms(g, b, k))
    ensures forall c :: c in Arms(g, b, k) ==>
      exists d: nat, j: int :: d < k && 1 <= j && c == Step(b.gridX, b.gridY, DIRECTIONS[d].0, DIRECTIONS[d].1, j)
  {
    if k > 0 {
      ArmsDistinct(g, b, k - 1);
      var prev := Arms(g, b, k - 1);
      var dir := DIRECTIONS[k - 1];
      var a := Arm(g, b.gridX, b.gridY, dir.0, dir.1, 1, b.explosionRadius);
      ArmShape(g, b.gridX, b.gridY, dir.0, dir.1, 1, b.explosionRadius);
      forall p, q | 0 <= p < q < |a| ensures a[p] != a[q] {
        StepsDistinct(b.gridX, b.gridY, k - 1, 1 + p, k - 1, 1 + q);
      }
      forall p, q | 0 <= p < |prev| && 0 <= q < |a| ensures prev[p] != a[q] {
        assert prev[p] in prev;
        var d: nat, j: int :| d < k - 1 && 1 <= j &&
          prev[p] == Step(b.gridX, b.gridY, DIRECTIONS[d].0, DIRECTIONS[d].1, j);
        StepsDistinct(b.gridX, b.gridY, d, j, k - 1, 1 + q);
      }
      DistinctConcat(prev, a);
      forall c | c in Arms(g, b, k)
        ensures exists d: nat, j: int :: d < k && 1 <= j && c == Step(b.gridX, b.gridY, DIRECTIONS[d].0, DIRECTIONS[d].1, j)
      {
        if c !in prev {
          var q :| 0 <= q < |a| && a[q] == c;
          assert c == Step(b.gridX, b.gridY, DIRECTIONS[k - 1].0, DIRECTIONS[k - 1].1, 1 + q);
        }
      }
    }
  }

  /** Every blast, whatever walls stand in it, lists each cell once. */
  lemma BlastDistinct(g: Grid, b: Bomb)
    requires g.WellFormed()
    ensures Distinct(BlastCells(g, b))
  {
    var arms := Arms(g, b, 4);
    ArmsDistinct(g, b, 4);
    forall q | 0 <= q < |arms| ensures [(b.gridX, b.gridY)][0] != arms[q] {
      assert arms[q] in arms;
      var d: nat, j: int :| d < 4 && 1 <= j &&
        arms[q] == Step(b.gridX, b.gridY, DIRECTIONS[d].0, DIRECTIONS[d].1, j);
      StepsDistinct(b.gridX, b.gridY, d, j, d, j);
    }
    DistinctConcat([(b.gridX, b.gridY)], arms);
  }

  /** A destructible neighbour ends the arm right after it: with origin (5,5),
      radius 2 and a destructible wall at (6,5), the +x arm is just (6,5). */
  lemma DestructibleEndsArm(g: Grid)
    requires GridInv(g) && g.IsDestructibleWall(6, 5)
    ensures Arm(g, 5, 5, 1, 0, 1, 2) == [(6, 5)]
  {
    WallsAndDestructiblesDisjoint(g, 6, 5);
  }

  /** `get_explosion_positions`: the origin, then one raycast per direction
      in order. The map is only read. */
  method GetExplosionPositions(b: Bomb, m: GameMap) returns (positions: seq<Cell>)
    requires m.Valid()
    ensures positions == BlastCells(m.View(), b)
  {
    ghost var g := m.View();
    positions := [(b.gridX, b.gridY)];
    var directions := DIRECTIONS;
    var k := 0;
    while k < 4
      invariant 0 <= k <= 4
      invariant positions == [(b.gridX, b.gridY)] + Arms(g, b, k)
    {
      var arm := CastArm(m, b.gridX, b.gridY, directions[k].0, directions[k].1, b.explosionRadius);
      assert Arms(g, b, k + 1) == Arms(g, b, k) + arm;
      assert positions + arm == [(b.gridX, b.gridY)] + (Arms(g, b, k) + arm);
      positions := positions + arm;
      k := k + 1;
    }
  }

  /** The inner loop of `get_explosion_positions`: steps 1 to r along
      (dx, dy), stopping before an off-grid cell or a solid wall and right
      after a destructible one. */
  method CastArm(m: GameMap, ox: int, oy: int, dx: int, dy: int, r: nat) returns (arm: seq<Cell>)
    requires m.Valid()
    ensures arm == Arm(m.View(), ox, oy, dx, dy, 1, r)
  {
    var g := m.View();
    arm := [];
    var i := 1;
    while i <= r
      invariant 1 <= i <= r + 1
      invariant arm + Arm(g, ox, oy, dx, dy, i, r) == Arm(g, ox, oy, dx, dy, 1, r)
    {
      var c := Step(ox, oy, dx, dy, i);
      ArmUnfold(g, ox, oy, dx, dy, i, r);
      if !IsValidPosition(c.0, c.1) || g.IsWall(c.0, c.1) {
        break;
      }
      if g.IsDestructibleWall(c.0, c.1) {
        arm := arm + [c];
        break;
      }
      AppendAssoc(arm, c, Arm(g, ox, oy, dx, dy, i + 1, r));
      arm := arm + [c];
      i := i + 1;
    }
    assert arm + [] == arm;
  }

  /** One step of an arm within the radius. */
  lemma ArmUnfold(g: Grid, ox: int, oy: int, dx: int, dy: int, i: int, r: int)
    requires g.WellFormed() && i <= r
    ensures var c := Step(ox, oy, dx, dy, i);
      Arm(g, ox, oy, dx, dy, i, r) ==
        if Blocks(g, c) then []
        else if g.IsDestructibleWall(c.0, c.1) then [c]
        else [c] + Arm(g, ox, oy, dx, dy, i + 1, r)
  {
  }

  lemma AppendAssoc(a: seq<Cell>, c: Cell, rest: seq<Cell>)
    ensures (a + [c]) + rest == a + ([c] + rest)
  {
  }
}
