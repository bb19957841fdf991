/** Level generation and the spawn pool (GameEngine.generateLevel,
    getSpawns and the spawn / place methods).  Every random draw is a
    parameter whose range precondition is what `java.util.Random` guarantees. */
module Level {
  import opened Util
  import opened Tiles
  import opened Entities

  // ---------------------------------------------------------------------------
  // Level generation

  const WallChance: real := 0.05

  /** One wall decision per cell, indexed [x][y]: whether that cell's
      `nextDouble()` draw was at most `WallChance`.  Border cells get a draw
      too, which the second pass then ignores. */
  ghost predicate WallDrawShape(walls: seq<seq<bool>>) {
    |walls| == Width && forall x :: 0 <= x < Width ==> |walls[x]| == Height
  }

  /** First pass: a wall wherever the draw says so, floor elsewhere. */
  function FillLevel(walls: seq<seq<bool>>): Grid
    requires WallDrawShape(walls)
  {
    seq(Width, x requires 0 <= x < Width =>
      seq(Height, y requires 0 <= y < Height => if walls[x][y] then Wall else Floor))
  }

  /** Second pass: the outer ring is overwritten with walls. */
  function WallBorder(g: Grid): Grid {
    seq(Width, x requires 0 <= x < Width =>
      seq(Height, y requires 0 <= y < Height => if OnBorder(Point(x, y)) then Wall else g[x][y]))
  }

  /** `generateLevel`: a 25 x 18 level of walls and floors whose border is
      entirely wall and whose interior follows the per-cell draws. */
  function GenerateLevel(walls: seq<seq<bool>>): (g: Grid)
    requires WallDrawShape(walls)
    ensures BorderIsWall(g)
    ensures forall p :: InBounds(p) && !OnBorder(p) ==> (TileAt(g, p) == Wall <==> walls[p.x][p.y])
    ensures forall p :: InBounds(p) ==> TileAt(g, p) == Wall || TileAt(g, p) == Floor
  {
    WallBorder(FillLevel(walls))
  }

  // ---------------------------------------------------------------------------
  // The spawn pool

  /** A cell that may receive stairs, a chest, a monster or a player: a floor
      cell whose four orthogonal neighbours exist and are not walls. */
  ghost predicate IsSpawnPoint(g: Grid, p: Point) {
    && InBounds(p)
    && TileAt(g, p) == Floor
    && forall d: Direction :: InBounds(Step(p, d)) && TileAt(g, Step(p, d)) != Wall
  }

  /** The spawn points of a level, as a set. */
  ghost function SpawnPoints(g: Grid): set<Point> {
    set x, y | 0 <= x < Width && 0 <= y < Height && IsSpawnPoint(g, Point(x, y)) :: Point(x, y)
  }

  /** `p` comes before `q` in the column-by-column scan of `getSpawns`. */
  predicate ScanBefore(p: Point, q: Point) {
    p.x < q.x || (p.x == q.x && p.y < q.y)
  }

  ghost predicate InScanOrder(s: seq<Point>) {
    forall i, j :: 0 <= i < j < |s| ==> ScanBefore(s[i], s[j])
  }

  /** The test `getSpawns` applies to cell (x, y): a floor tile with no wall
      to its right, left, below or above. */
  predicate OpenCell(g: Grid, x: int, y: int)
    requires BorderIsWall(g)
    requires 0 <= x < Width && 0 <= y < Height
  {
    && TileAt(g, Point(x, y)) == Floor
    && g[x + 1][y] != Wall && g[x - 1][y] != Wall
    && g[x][y + 1] != Wall && g[x][y - 1] != Wall
  }

  /** The scan's cell test picks out exactly the spawn points. */
  lemma OpenCellIffSpawnPoint(g: Grid, x: int, y: int)
    requires BorderIsWall(g)
    requires 0 <= x < Width && 0 <= y < Height
    ensures OpenCell(g, x, y) <==> IsSpawnPoint(g, Point(x, y))
  {
    var p := Point(x, y);
    if OpenCell(g, x, y) {
      assert forall d: Direction :: Step(p, d) in {Point(x + 1, y), Point(x - 1, y), Point(x, y + 1), Point(x, y - 1)};
    }
    if IsSpawnPoint(g, p) {
      assert TileAt(g, Step(p, Right)) != Wall && TileAt(g, Step(p, Left)) != Wall;
      assert TileAt(g, Step(p, Down)) != Wall && TileAt(g, Step(p, Up)) != Wall;
    }
  }

  /** The inner loop of `getSpawns` over column `x`, from row `y` down. */
  function ScanColumn(g: Grid, x: int, y: int): (r: seq<Point>)
    requires BorderIsWall(g)
    requires 0 <= x < Width && 0 <= y <= Height
    ensures forall p :: p in r <==> IsSpawnPoint(g, p) && p.x == x && p.y >= y
    ensures forall i :: 0 <= i < |r| ==> r[i].x == x
    ensures InScanOrder(r)
    decreases Height - y
  {
    if y == Height then []
    else
      var rest := ScanColumn(g, x, y + 1);
      OpenCellIffSpawnPoint(g, x, y);
      if OpenCell(g, x, y) then [Point(x, y)] + rest else rest
  }

  /** The outer loop of `getSpawns`, from column `x` rightwards. */
  function ScanColumns(g: Grid, x: int): (r: seq<Point>)
    requires BorderIsWall(g)
    requires 0 <= x <= Width
    ensures forall p :: p in r <==> IsSpawnPoint(g, p) && p.x >= x
    ensures forall i :: 0 <= i < |r| ==> r[i].x >= x
    ensures InScanOrder(r)
    decreases Width - x
  {
    if x == Width then []
    else ScanColumn(g, x, 0) + ScanColumns(g, x + 1)
  }

  /** `getSpawns`: exactly the spawn points of the level, each once, in scan
      order (which fixes the list completely).  All of them are interior, so
      the neighbour lookups of the scan never leave the grid. */
  function GetSpawns(g: Grid): (pool: seq<Point>)
    requires BorderIsWall(g)
    ensures forall p :: p in pool <==> IsSpawnPoint(g, p)
    ensures InScanOrder(pool)
    ensures Distinct(pool)
    ensures forall p :: p in pool ==> Interior(p) && TileAt(g, p) == Floor
  {
    var pool := ScanColumns(g, 0);
    ScanOrderIsDistinct(pool);
    assert forall p :: p in pool ==> Interior(p) by {
      forall p | p in pool {
        NonWallIsInterior(g, p);
      }
    }
    pool
  }

  /** The pool `getSpawns` builds holds exactly one entry per spawn point,
      so its size is the number of spawn points of the level. */
  lemma SpawnPoolSize(g: Grid)
    requires BorderIsWall(g)
    ensures |GetSpawns(g)| == |SpawnPoints(g)|
  {
    var pool := GetSpawns(g);
    assert (set p | p in pool) == SpawnPoints(g) by {
      forall p: Point ensures p in pool <==> p in SpawnPoints(g) {
        if IsSpawnPoint(g, p) {
          assert p == Point(p.x, p.y);
        }
      }
    }
    DistinctSize(pool);
  }

  lemma ScanOrderIsDistinct(s: seq<Point>)
    requires InScanOrder(s)
    ensures Distinct(s)
  {
    forall i, j | 0 <= i < j < |s|
      ensures s[i] != s[j]
    {
      assert ScanBefore(s[i], s[j]);
    }
  }

  /** The pool invariant of a level: distinct floor cells. */
  ghost predicate PoolOnFloor(g: Grid, pool: seq<Point>) {
    && Distinct(pool)
    && forall p :: p in pool ==> InBounds(p) && TileAt(g, p) == Floor
  }

  /** `spawns.remove(k)`: the point at index `k` leaves the pool, the others
      keep their order.  A distinct pool stays distinct and loses that point. */
  function TakeSpawn(pool: seq<Point>, k: int): (r: (Point, seq<Point>))
    requires 0 <= k < |pool|
    ensures r.0 == pool[k]
    ensures |r.1| == |pool| - 1
    ensures multiset(r.1) + multiset{r.0} == multiset(pool)
    ensures forall q :: q in r.1 ==> q in pool
    ensures forall q :: q in pool && q != r.0 ==> q in r.1
    ensures Distinct(pool) ==> Distinct(r.1) && r.0 !in r.1
  {
    assert pool == pool[..k] + [pool[k]] + pool[k + 1..];
    (pool[k], pool[..k] + pool[k + 1..])
  }

  /** Where `spawns.remove(Object)` finds its argument: the first occurrence. */
  function IndexOf(pool: seq<Point>, p: Point): (i: nat)
    requires p in pool
    ensures i < |pool| && pool[i] == p && p !in pool[..i]
  {
    if pool[0] == p then 0 else 1 + IndexOf(pool[1..], p)
  }

  /** The pool point at index `k` takes `tile` and leaves the pool. */
  function PlaceOnPoolPoint(g: Grid, pool: seq<Point>, k: int, tile: Tile): (r: (Grid, seq<Point>))
    requires 0 <= k < |pool|
    requires forall q :: q in pool ==> InBounds(q)
    ensures TileAt(r.0, pool[k]) == tile
    ensures forall q :: InBounds(q) && q != pool[k] ==> TileAt(r.0, q) == TileAt(g, q)
    ensures multiset(r.1) + multiset{pool[k]} == multiset(pool)
    ensures PoolOnFloor(g, pool) ==> PoolOnFloor(r.0, r.1) && pool[k] !in r.1
  {
    var (spot, rest) := TakeSpawn(pool, k);
    (SetTile(g, spot, tile), rest)
  }

  /** `spawnStairs`: the drawn pool point becomes the stairs tile and leaves the pool. */
  function SpawnStairs(g: Grid, pool: seq<Point>, k: int): (r: (Grid, seq<Point>))
    requires 0 <= k < |pool|
    requires forall q :: q in pool ==> InBounds(q)
    ensures TileAt(r.0, pool[k]) == Stairs
    ensures forall q :: InBounds(q) && q != pool[k] ==> TileAt(r.0, q) == TileAt(g, q)
    ensures multiset(r.1) + multiset{pool[k]} == multiset(pool)
    ensures PoolOnFloor(g, pool) ==> PoolOnFloor(r.0, r.1) && pool[k] !in r.1
  {
    PlaceOnPoolPoint(g, pool, k, Stairs)
  }

  // ---------------------------------------------------------------------------
  // Chests

  const RubyChestChance: real := 0.01
  const SapphireChestChance: real := 0.015
  const WoodenChestChance: real := 0.02

  /** The chest a trial's `nextDouble()` draw asks for.  The wooden branch's
      lower guard (above 0.015) is shadowed by the sapphire branch, so the
      three bands are the disjoint intervals stated below: a wooden band of
      width 0.01 and no chest above 0.035. */
  function ChestBand(chance: real): (r: Option<Tile>)
    ensures r == Some(RubyChest) <==> chance <= 0.01
    ensures r == Some(SapphireChest) <==> 0.01 < chance <= 0.025
    ensures r == Some(WoodenChest) <==> 0.025 < chance <= 0.035
    ensures r == None <==> 0.035 < chance
  {
    if chance <= RubyChestChance then Some(RubyChest)
    else if chance <= SapphireChestChance + RubyChestChance && chance > RubyChestChance then Some(SapphireChest)
    else if chance <= WoodenChestChance + SapphireChestChance && chance > SapphireChestChance then Some(WoodenChest)
    else None
  }

  /** One iteration of the chest loop: the drawn pool index, then the drawn chance. */
  datatype ChestTrial = ChestTrial(pick: nat, chance: real)

  /** What the chest loop leaves behind: the grid, the pool, how many trials
      it ran, and where it put a chest if it put one. */
  datatype ChestResult = ChestResult(grid: Grid, pool: seq<Point>, used: nat, chest: Option<Point>)

  /** The first trial from `t` on whose chance falls in a chest band: where
      the chest loop breaks. */
  function FirstHit(trials: seq<ChestTrial>, t: nat): (r: Option<nat>)
    requires t <= |trials|
    ensures r.Some? ==> t <= r.value < |trials| && ChestBand(trials[r.value].chance).Some?
    ensures forall i :: t <= i < |trials| && (r.None? || i < r.value) ==> ChestBand(trials[i].chance) == None
    decreases |trials| - t
  {
    if t == |trials| then None
    else if ChestBand(trials[t].chance).Some? then Some(t)
    else FirstHit(trials, t + 1)
  }

  /** How many trials `spawnChest` runs at a depth (`depth * 8`). */
  function ChestTrialCount(depth: int): nat {
    if depth <= 0 then 0 else depth * 8
  }

  /** `spawnChest`: at most `depth * 8` trials and at most one chest, of the
      tier the first hitting trial's band names, on that trial's pool point,
      which then leaves the pool.  Every earlier trial missed every band; when
      no trial hits, nothing changes. */
  function SpawnChest(g: Grid, pool: seq<Point>, depth: int, trials: seq<ChestTrial>): (r: ChestResult)
    requires |trials| == ChestTrialCount(depth)
    requires forall i :: 0 <= i < |trials| ==> trials[i].pick < |pool|
    requires forall q :: q in pool ==> InBounds(q)
    ensures r.used <= ChestTrialCount(depth)
    ensures forall i :: 0 <= i < r.used - 1 ==> ChestBand(trials[i].chance) == None
    ensures r.chest.None? ==>
      r.grid == g && r.pool == pool && r.used == ChestTrialCount(depth)
      && forall i :: 0 <= i < |trials| ==> ChestBand(trials[i].chance) == None
    ensures r.chest.Some? ==>
      && 0 < r.used
      && r.chest.value == pool[trials[r.used - 1].pick]
      && TileAt(r.grid, r.chest.value).IsChest()
      && ChestBand(trials[r.used - 1].chance) == Some(TileAt(r.grid, r.chest.value))
      && (forall q :: InBounds(q) && q != r.chest.value ==> TileAt(r.grid, q) == TileAt(g, q))
      && multiset(r.pool) + multiset{r.chest.value} == multiset(pool)
      && (PoolOnFloor(g, pool) ==> PoolOnFloor(r.grid, r.pool) && r.chest.value !in r.pool)
  {
    match FirstHit(trials, 0)
    case None => ChestResult(g, pool, |trials|, None)
    case Some(hit) =>
      var spot := pool[trials[hit].pick];
      var placed := PlaceOnPoolPoint(g, pool, IndexOf(pool, spot), ChestBand(trials[hit].chance).value);
      ChestResult(placed.0, placed.1, hit + 1, Some(spot))
  }

  // ---------------------------------------------------------------------------
  // Monsters

  /** `50 * Math.pow(1.03, n)` and `20 * Math.pow(1.03, n)` in exact arithmetic. */
  function Growth(n: nat): (r: real)
    ensures r >= 1.0
  {
    if n == 0 then 1.0 else 1.03 * Growth(n - 1)
  }

  const JavaIntMax: int := 0x7FFF_FFFF

  /** Java's `(int)` cast of a non-negative double: truncation, saturating at
      `Integer.MAX_VALUE`. */
  function JavaIntOf(v: real): (r: int)
    requires v >= 0.0
    ensures 0 <= r <= JavaIntMax
    ensures r as real <= v
    ensures v < JavaIntMax as real ==> v < r as real + 1.0
    ensures v >= JavaIntMax as real ==> r == JavaIntMax
  {
    if v >= JavaIntMax as real then JavaIntMax else v.Floor
  }

  /** The health every monster of a level starts with. */
  function MonsterHealth(depth: int): (h: int)
    requires depth >= 1
    ensures 50 <= h <= JavaIntMax
  {
    JavaIntOf(50.0 * Growth(depth - 1))
  }

  /** The maximum damage every monster of a level deals. */
  function MonsterDamage(depth: int): (d: int)
    requires depth >= 1
    ensures 20 <= d <= JavaIntMax
  {
    JavaIntOf(20.0 * Growth(depth - 1))
  }

  /** Deeper levels never have weaker monsters. */
  lemma MonsterStatsGrow(depth: int)
    requires depth >= 1
    ensures MonsterHealth(depth) <= MonsterHealth(depth + 1)
    ensures MonsterDamage(depth) <= MonsterDamage(depth + 1)
  {
    assert Growth(depth) == 1.03 * Growth(depth - 1);
  }

  /** The length of the monster array at a depth: `depth`, capped at `MAX_MONSTERS`. */
  function MonsterCount(depth: int): (n: nat)
    ensures n <= MaxMonsters
    ensures depth >= 0 ==> n == Min(depth, MaxMonsters)
  {
    if depth > MaxMonsters then MaxMonsters else if depth < 0 then 0 else depth
  }

  function Positions(ms: seq<Entity>): (ps: seq<Point>)
    ensures |ps| == |ms| && forall i :: 0 <= i < |ms| ==> ps[i] == ms[i].pos
  {
    seq(|ms|, i requires 0 <= i < |ms| => ms[i].pos)
  }

  /** The body of the monster loop: one monster per pick, on the pool point
      that pick removes. */
  function PlaceMonsters(pool: seq<Point>, health: int, damage: int, picks: seq<nat>): (r: (seq<Entity>, seq<Point>))
    requires forall i :: 0 <= i < |picks| ==> picks[i] < |pool| - i
    ensures |r.0| == |picks| && |r.1| == |pool| - |picks|
    decreases |picks|
  {
    if |picks| == 0 then ([], pool)
    else
      var (spot, rest) := TakeSpawn(pool, picks[0]);
      var (more, left) := PlaceMonsters(rest, health, damage, picks[1..]);
      ([NewMonster(health, damage, spot.x, spot.y, MonsterKind)] + more, left)
  }

  /** Every monster is a fresh one with the level's health and damage. */
  ghost predicate AllFresh(ms: seq<Entity>, health: int, damage: int) {
    forall i :: 0 <= i < |ms| ==> ms[i] == NewMonster(health, damage, ms[i].pos.x, ms[i].pos.y, MonsterKind)
  }

  /** The monster loop places fresh monsters with the level's health and
      damage. */
  lemma {:induction false} PlacedAreFresh(pool: seq<Point>, health: int, damage: int, picks: seq<nat>)
    requires forall i :: 0 <= i < |picks| ==> picks[i] < |pool| - i
    ensures AllFresh(PlaceMonsters(pool, health, damage, picks).0, health, damage)
    decreases |picks|
  {
    if |picks| > 0 {
      var (spot, rest) := TakeSpawn(pool, picks[0]);
      PlacedAreFresh(rest, health, damage, picks[1..]);
      var more := PlaceMonsters(rest, health, damage, picks[1..]).0;
      var placed := PlaceMonsters(pool, health, damage, picks).0;
      assert placed == [NewMonster(health, damage, spot.x, spot.y, MonsterKind)] + more;
      forall i | 1 <= i < |placed|
        ensures placed[i] == NewMonster(health, damage, placed[i].pos.x, placed[i].pos.y, MonsterKind)
      {
        assert placed[i] == more[i - 1];
      }
    }
  }

  /** Each monster takes its point out of the pool: the placed positions and
      the remaining pool together are exactly the old pool. */
  lemma {:induction false} PlacedPartitionPool(pool: seq<Point>, health: int, damage: int, picks: seq<nat>)
    requires forall i :: 0 <= i < |picks| ==> picks[i] < |pool| - i
    ensures multiset(PlaceMonsters(pool, health, damage, picks).1)
      + multiset(Positions(PlaceMonsters(pool, health, damage, picks).0)) == multiset(pool)
    decreases |picks|
  {
    if |picks| > 0 {
      var (spot, rest) := TakeSpawn(pool, picks[0]);
      PlacedPartitionPool(rest, health, damage, picks[1..]);
      var (more, left) := PlaceMonsters(rest, health, damage, picks[1..]);
      var m := NewMonster(health, damage, spot.x, spot.y, MonsterKind);
      PositionsCons(m, more);
      assert PlaceMonsters(pool, health, damage, picks) == ([m] + more, left);
      TakeOneMore(pool, rest, spot, left, Positions(more), Positions([m] + more));
    }
  }

  lemma PositionsCons(m: Entity, ms: seq<Entity>)
    ensures Positions([m] + ms) == [m.pos] + Positions(ms)
  {
  }

  /** Taking one more point out before a split keeps the split exact. */
  lemma TakeOneMore(pool: seq<Point>, rest: seq<Point>, spot: Point, left: seq<Point>, taken: seq<Point>, taken': seq<Point>)
    requires multiset(rest) + multiset{spot} == multiset(pool)
    requires multiset(left) + multiset(taken) == multiset(rest)
    requires taken' == [spot] + taken
    ensures multiset(left) + multiset(taken') == multiset(pool)
  {
  }

  /** From a pool of distinct points no two monsters share a cell, every
      monster stands on a former pool point, and none of those points stays
      in the pool. */
  lemma {:induction false} PlacedApart(pool: seq<Point>, health: int, damage: int, picks: seq<nat>)
    requires forall i :: 0 <= i < |picks| ==> picks[i] < |pool| - i
    ensures var r := PlaceMonsters(pool, health, damage, picks);
      && (forall q :: q in Positions(r.0) ==> q in pool)
      && (forall q :: q in r.1 ==> q in pool)
      && (Distinct(pool) ==>
        Distinct(r.1) && Distinct(Positions(r.0)) && forall q :: q in r.1 ==> q !in Positions(r.0))
    decreases |picks|
  {
    if |picks| > 0 {
      var (spot, rest) := TakeSpawn(pool, picks[0]);
      PlacedApart(rest, health, damage, picks[1..]);
      var (more, left) := PlaceMonsters(rest, health, damage, picks[1..]);
      var placed := [NewMonster(health, damage, spot.x, spot.y, MonsterKind)] + more;
      assert Positions(placed) == [spot] + Positions(more);
    }
  }

  function AllPresent(ms: seq<Entity>): (slots: seq<Option<Entity>>)
    ensures |slots| == |ms| && forall i :: 0 <= i < |ms| ==> slots[i] == Some(ms[i])
  {
    seq(|ms|, i requires 0 <= i < |ms| => Some(ms[i]))
  }

  /** `spawnMonsters` with its loop bounded by the array length: exactly
      `min(depth, 40)` slots, every one filled with a fresh monster at full
      health on its own former pool point. */
  function SpawnMonsters(pool: seq<Point>, depth: int, health: int, damage: int, picks: seq<nat>): (r: (seq<Option<Entity>>, seq<Point>))
    requires |picks| == MonsterCount(depth)
    requires forall i :: 0 <= i < |picks| ==> picks[i] < |pool| - i
    ensures |r.0| == MonsterCount(depth)
    ensures |r.1| == |pool| - MonsterCount(depth)
    ensures forall i :: 0 <= i < |r.0| ==>
      && r.0[i].Some?
      && r.0[i].value.health == r.0[i].value.maxHealth == health
      && r.0[i].value.currentMaxDamage == r.0[i].value.defaultMaxDamage == damage
      && r.0[i].value.kind == MonsterKind && Valid(r.0[i].value)
      && r.0[i].value.pos in pool
    ensures forall q :: q in r.1 ==> q in pool
    ensures Distinct(pool) ==>
      && Distinct(r.1)
      && (forall i :: 0 <= i < |r.0| ==> r.0[i].value.pos !in r.1)
      && (forall i, j :: 0 <= i < j < |r.0| ==> r.0[i].value.pos != r.0[j].value.pos)
  {
    PlacedAreFresh(pool, health, damage, picks);
    PlacedApart(pool, health, damage, picks);
    var (ms, left) := PlaceMonsters(pool, health, damage, picks);
    (AllPresent(ms), left)
  }

  /** `spawnMonsters` as the source writes it: an array of `min(depth, 40)`
      slots filled by a loop that runs `depth` times.  Slot `i` is written
      after the `i`-th pool point is removed; a write past the end throws. */
  function FillSlotsAsWritten(slots: seq<Option<Entity>>, i: nat, depth: nat, pool: seq<Point>,
                              health: int, damage: int, picks: seq<nat>): (r: Result<(seq<Option<Entity>>, seq<Point>)>)
    requires i <= depth && |picks| == depth - i
    requires forall j :: 0 <= j < |picks| ==> picks[j] < |pool| - j
    ensures r.Ok? ==> |r.value.0| == |slots|
    decreases depth - i
  {
    if i == depth then Ok((slots, pool))
    else
      var (spot, rest) := TakeSpawn(pool, picks[0]);
      if i >= |slots| then Crash(MonsterSlotOverrun)
      else
        var monster := NewMonster(health, damage, spot.x, spot.y, MonsterKind);
        FillSlotsAsWritten(slots[i := Some(monster)], i + 1, depth, rest, health, damage, picks[1..])
  }

  function SpawnMonstersAsWritten(pool: seq<Point>, depth: nat, health: int, damage: int, picks: seq<nat>): Result<(seq<Option<Entity>>, seq<Point>)>
    requires |picks| == depth
    requires forall j :: 0 <= j < |picks| ==> picks[j] < |pool| - j
  {
    FillSlotsAsWritten(seq(MonsterCount(depth), _ => None), 0, depth, pool, health, damage, picks)
  }

  /** The as-written loop throws exactly when it runs past the array: it
      succeeds iff the loop stays within `slots`. */
  lemma {:induction false} FillSlotsOverrun(slots: seq<Option<Entity>>, i: nat, depth: nat, pool: seq<Point>,
                                            health: int, damage: int, picks: seq<nat>)
    requires i <= depth && i <= |slots| && |picks| == depth - i
    requires forall j :: 0 <= j < |picks| ==> picks[j] < |pool| - j
    ensures FillSlotsAsWritten(slots, i, depth, pool, health, damage, picks).Crash? <==> depth > |slots|
    decreases depth - i
  {
    if i < depth {
      var (spot, rest) := TakeSpawn(pool, picks[0]);
      if i < |slots| {
        var monster := NewMonster(health, damage, spot.x, spot.y, MonsterKind);
        FillSlotsOverrun(slots[i := Some(monster)], i + 1, depth, rest, health, damage, picks[1..]);
      }
    }
  }

  /** The source's `spawnMonsters` throws at every depth above 40 (for
      instance depth 41 with 41 or more spawn points), and only there. */
  lemma SpawnMonstersAsWrittenOverruns(pool: seq<Point>, depth: nat, health: int, damage: int, picks: seq<nat>)
    requires |picks| == depth
    requires forall j :: 0 <= j < |picks| ==> picks[j] < |pool| - j
    ensures SpawnMonstersAsWritten(pool, depth, health, damage, picks).Crash? <==> depth > MaxMonsters
  {
    FillSlotsOverrun(seq(MonsterCount(depth), _ => None), 0, depth, pool, health, damage, picks);
  }

  /** Up to depth 40 the source and the bounded loop build the same monsters
      from the same pool draws: slot `i + j` receives the `j`-th placed monster. */
  lemma {:induction false} FillSlotsAgrees(slots: seq<Option<Entity>>, i: nat, depth: nat, pool: seq<Point>,
                                           health: int, damage: int, picks: seq<nat>)
    requires i <= depth <= |slots| && |picks| == depth - i
    requires forall j :: 0 <= j < |picks| ==> picks[j] < |pool| - j
    ensures var r := FillSlotsAsWritten(slots, i, depth, pool, health, damage, picks);
      var placed := PlaceMonsters(pool, health, damage, picks);
      && r.Ok? && |r.value.0| == |slots| && r.value.1 == placed.1
      && (forall j :: 0 <= j < i ==> r.value.0[j] == slots[j])
      && (forall j :: i <= j < depth ==> r.value.0[j] == Some(placed.0[j - i]))
      && (forall j :: depth <= j < |slots| ==> r.value.0[j] == slots[j])
    decreases depth - i
  {
    if i < depth {
      var (spot, rest) := TakeSpawn(pool, picks[0]);
      var monster := NewMonster(health, damage, spot.x, spot.y, MonsterKind);
      FillSlotsAgrees(slots[i := Some(monster)], i + 1, depth, rest, health, damage, picks[1..]);
      var placed := PlaceMonsters(pool, health, damage, picks);
      var more := PlaceMonsters(rest, health, damage, picks[1..]);
      assert placed.0 == [monster] + more.0 && placed.1 == more.1;
    }
  }

  lemma SpawnMonstersAgreesUpToForty(pool: seq<Point>, depth: nat, health: int, damage: int, picks: seq<nat>)
    requires depth <= MaxMonsters && |picks| == depth
    requires forall j :: 0 <= j < |picks| ==> picks[j] < |pool| - j
    ensures SpawnMonstersAsWritten(pool, depth, health, damage, picks) == Ok(SpawnMonsters(pool, depth, health, damage, picks))
  {
    var slots: seq<Option<Entity>> := seq(MonsterCount(depth), _ => None);
    FillSlotsAgrees(slots, 0, depth, pool, health, damage, picks);
    var r := SpawnMonstersAsWritten(pool, depth, health, damage, picks);
    assert r.value.0 == SpawnMonsters(pool, depth, health, damage, picks).0;
  }

  // ---------------------------------------------------------------------------
  // Players

  /** `spawnPlayer`: the first player (400 health, 50 damage) on the drawn pool point. */
  function SpawnPlayer(pool: seq<Point>, k: int): (r: (Entity, seq<Point>))
    requires 0 <= k < |pool|
    ensures r.0.pos == pool[k] && r.0.number == Some(FirstPlayer) && r.0.kind == PlayerKind
    ensures r.0.maxHealth == r.0.health == 400 && r.0.defaultMaxDamage == r.0.currentMaxDamage == 50
    ensures r.0.shield == 0 && r.0.immortality == 0
    ensures multiset(r.1) + multiset{r.0.pos} == multiset(pool)
    ensures Distinct(pool) ==> Distinct(r.1) && r.0.pos !in r.1
  {
    var (spot, rest) := TakeSpawn(pool, k);
    (NewPlayer(FirstPlayer, 400, 50, spot.x, spot.y, PlayerKind), rest)
  }

  /** `spawnSecondPlayer`: the second player (250 health, 80 damage) on the drawn pool point. */
  function SpawnSecondPlayer(pool: seq<Point>, k: int): (r: (Entity, seq<Point>))
    requires 0 <= k < |pool|
    ensures r.0.pos == pool[k] && r.0.number == Some(SecondPlayer) && r.0.kind == PlayerKind
    ensures r.0.maxHealth == r.0.health == 250 && r.0.defaultMaxDamage == r.0.currentMaxDamage == 80
    ensures r.0.shield == 0 && r.0.immortality == 0
    ensures multiset(r.1) + multiset{r.0.pos} == multiset(pool)
    ensures Distinct(pool) ==> Distinct(r.1) && r.0.pos !in r.1
  {
    var (spot, rest) := TakeSpawn(pool, k);
    (NewPlayer(SecondPlayer, 250, 80, spot.x, spot.y, PlayerKind), rest)
  }

  /** `placePlayer`: an existing player moves to the drawn pool point and keeps
      all its stats; an absent player draws nothing and changes nothing. */
  function PlacePlayer(p: Option<Entity>, pool: seq<Point>, k: int): (r: (Option<Entity>, seq<Point>))
    requires p.Some? ==> 0 <= k < |pool|
    ensures p.None? ==> r == (None, pool)
    ensures p.Some? ==>
      && r.0.Some? && r.0.value.pos == pool[k] && SameStats(r.0.value, p.value) && r.0.value.prev == p.value.prev
      && multiset(r.1) + multiset{pool[k]} == multiset(pool)
      && (Distinct(pool) ==> Distinct(r.1) && pool[k] !in r.1)
  {
    if p.None? then (None, pool)
    else
      var (spot, rest) := TakeSpawn(pool, k);
      (Some(SetPosition(p.value, spot.x, spot.y)), rest)
  }
}
