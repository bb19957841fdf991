/** The game engine's state and its public operations (GameEngine.startGame,
    movePlayer*, doTurn, descendLevel, cleanDeadMonsters, spawnSecondPlayer).
    Every operation takes the random stream and returns it advanced past the
    draws it made; an unchecked exception of the source becomes `Crash`. */
module Engine {
  import opened Util
  import opened Tiles
  import opened Entities
  import opened Random
  import opened Level
  import opened Loot
  import opened Combat
  import opened MonsterAI
  import opened State

  // ---------------------------------------------------------------------------
  // Drawing from the stream

  /** One `nextInt(spawns.size())`, which throws on an empty pool. */
  function DrawIndex(rng: Rng, size: int): (r: Result<(nat, Rng)>)
    ensures r.Crash? <==> size <= 0
    ensures r.Crash? ==> r.fault == EmptySpawnPool
    ensures r.Ok? ==> r.value.0 < size && r.value.0 == IntAt(rng, 0, size) && r.value.1 == Skip(rng, 1)
  {
    if size <= 0 then Crash(EmptySpawnPool) else Ok(NextInt(rng, size))
  }

  /** `generateLevel` on the stream: one `nextDouble` per cell, column by
      column (border cells included), then the border is walled. */
  function GenerateLevelDraw(rng: Rng): (r: (Grid, Rng))
    ensures BorderIsWall(r.0)
    ensures forall p :: InBounds(p) && !OnBorder(p) ==>
      (TileAt(r.0, p) == Wall <==> DoubleAt(rng, p.x * Height + p.y) <= WallChance)
    ensures forall p :: InBounds(p) ==> TileAt(r.0, p) == Wall || TileAt(r.0, p) == Floor
    ensures r.1 == Skip(rng, Width * Height)
  {
    var walls := seq(Width, x requires 0 <= x < Width =>
      seq(Height, y requires 0 <= y < Height => DoubleAt(rng, x * Height + y) <= WallChance));
    (GenerateLevel(walls), Skip(rng, Width * Height))
  }

  /** `spawnChest` on the stream: trial `t` reads its pool index at offset
      `2t` and its chance at `2t + 1`; the stream moves past the trials run. */
  function SpawnChestDraw(g: Grid, pool: seq<Point>, depth: int, rng: Rng): (r: Result<(ChestResult, Rng)>)
    requires depth >= 1
    requires PoolOnFloor(g, pool)
    ensures r.Crash? <==> |pool| == 0
    ensures r.Crash? ==> r.fault == EmptySpawnPool
    ensures r.Ok? ==>
      var c := r.value.0;
      && c.used <= ChestTrialCount(depth)
      && r.value.1 == Skip(rng, 2 * c.used)
      && PoolOnFloor(c.grid, c.pool)
      && SameWalls(g, c.grid)
      && (forall q :: q in c.pool ==> q in pool)
      && |c.pool| + 1 >= |pool|
      && (forall q :: InBounds(q) && TileAt(c.grid, q) != TileAt(g, q) ==> c.chest == Some(q))
      && (c.chest.Some? ==> c.chest.value in pool && TileAt(c.grid, c.chest.value).IsChest())
      && (c.chest.None? ==> c.grid == g && c.pool == pool)
  {
    if |pool| == 0 then Crash(EmptySpawnPool)
    else
      var trials := DrawChestTrials(rng, ChestTrialCount(depth), |pool|);
      var c := SpawnChest(g, pool, depth, trials);
      ChestKeepsWalls(g, pool, c);
      Ok((c, Skip(rng, 2 * c.used)))
  }

  /** The chest trials on the stream: trial `t` reads its pool index at
      offset `2t` and its chance at `2t + 1`. */
  function DrawChestTrials(rng: Rng, count: nat, size: nat): (trials: seq<ChestTrial>)
    requires size > 0
    ensures |trials| == count
    ensures forall t :: 0 <= t < count ==>
      trials[t] == ChestTrial(IntAt(rng, 2 * t, size), DoubleAt(rng, 2 * t + 1)) && trials[t].pick < size
  {
    seq(count, t requires 0 <= t < count => ChestTrial(IntAt(rng, 2 * t, size), DoubleAt(rng, 2 * t + 1)))
  }

  /** A chest goes on a pool (floor) cell, so walls stay put, and the pool
      loses at most that cell. */
  lemma ChestKeepsWalls(g: Grid, pool: seq<Point>, c: ChestResult)
    requires PoolOnFloor(g, pool)
    requires c.chest.None? ==> c.grid == g && c.pool == pool
    requires c.chest.Some? ==>
      && c.chest.value in pool
      && TileAt(c.grid, c.chest.value).IsChest()
      && (forall q :: InBounds(q) && q != c.chest.value ==> TileAt(c.grid, q) == TileAt(g, q))
      && multiset(c.pool) + multiset{c.chest.value} == multiset(pool)
      && PoolOnFloor(c.grid, c.pool)
    ensures SameWalls(g, c.grid)
    ensures |c.pool| + 1 >= |pool|
    ensures forall q :: q in c.pool ==> q in pool
    ensures forall q :: InBounds(q) && TileAt(c.grid, q) != TileAt(g, q) ==> c.chest == Some(q)
  {
    if c.chest.Some? {
      assert |multiset(c.pool)| + 1 == |multiset(pool)|;
      forall q | q in c.pool ensures q in pool {
        assert multiset(pool)[q] == multiset(c.pool)[q] + multiset{c.chest.value}[q];
      }
    }
  }

  /** `placePlayer` on the stream: a present player draws a pool index. */
  function PlacePlayerDraw(p: Option<Entity>, pool: seq<Point>, rng: Rng): (r: Result<(Option<Entity>, seq<Point>, Rng)>)
    ensures r.Crash? <==> p.Some? && |pool| == 0
    ensures r.Crash? ==> r.fault == EmptySpawnPool
    ensures p.None? ==> r == Ok((None, pool, rng))
    ensures p.Some? && r.Ok? ==>
      var (p', pool', rng') := r.value;
      && p'.Some? && SameStats(p'.value, p.value)
      && p'.value.pos in pool
      && |pool'| + 1 == |pool|
      && (forall q :: q in pool' ==> q in pool)
      && (Distinct(pool) ==> Distinct(pool') && p'.value.pos !in pool')
      && rng' == Skip(rng, 1)
  {
    if p.None? then Ok((None, pool, rng))
    else if |pool| == 0 then Crash(EmptySpawnPool)
    else
      var (k, rng') := NextInt(rng, |pool|);
      var (p', pool') := PlacePlayer(p, pool, k);
      assert forall q :: q in pool' ==> q in multiset(pool);
      Ok((p', pool', rng'))
  }

  /** The pool indices of `n` successive removals from a pool of `size`
      points: draw `i` is `nextInt(size - i)`. */
  function DrawPicks(rng: Rng, n: nat, size: nat): (picks: seq<nat>)
    requires n <= size
    ensures |picks| == n
    ensures forall i :: 0 <= i < n ==> picks[i] == IntAt(rng, i, size - i) && picks[i] < size - i
  {
    DrawPicksFrom(rng, 0, n, size)
  }

  function DrawPicksFrom(rng: Rng, i: nat, n: nat, size: nat): (picks: seq<nat>)
    requires i <= n <= size
    ensures |picks| == n - i
    ensures forall k :: 0 <= k < n - i ==> picks[k] == IntAt(rng, i + k, size - (i + k))
    decreases n - i
  {
    if i == n then [] else [IntAt(rng, i, size - i)] + DrawPicksFrom(rng, i + 1, n, size)
  }

  /** `spawnMonsters` (with its loop bounded by the array) on the stream:
      monster `i` draws its pool index at offset `i`. */
  function SpawnMonstersDraw(pool: seq<Point>, depth: int, rng: Rng): (r: Result<(seq<Option<Entity>>, seq<Point>, Rng)>)
    requires depth >= 1
    ensures r.Crash? <==> |pool| < MonsterCount(depth)
    ensures r.Crash? ==> r.fault == EmptySpawnPool
    ensures r.Ok? ==>
      var (ms, pool', rng') := r.value;
      && |ms| == MonsterCount(depth)
      && (forall j :: 0 <= j < |ms| ==>
        && ms[j].Some? && ms[j].value.pos in pool
        && ms[j].value.health == ms[j].value.maxHealth == MonsterHealth(depth)
        && ms[j].value.currentMaxDamage == ms[j].value.defaultMaxDamage == MonsterDamage(depth)
        && ms[j].value.kind == MonsterKind && Valid(ms[j].value))
      && (forall q :: q in pool' ==> q in pool)
      && |pool'| == |pool| - MonsterCount(depth)
      && (Distinct(pool) ==>
        && Distinct(pool')
        && (forall j :: 0 <= j < |ms| ==> ms[j].value.pos !in pool')
        && LiveDistinct(ms))
      && rng' == Skip(rng, MonsterCount(depth))
  {
    var n := MonsterCount(depth);
    if |pool| < n then Crash(EmptySpawnPool)
    else
      var picks := DrawPicks(rng, n, |pool|);
      var (ms, pool') := SpawnMonsters(pool, depth, MonsterHealth(depth), MonsterDamage(depth), picks);
      Ok((ms, pool', Skip(rng, n)))
  }

  // ---------------------------------------------------------------------------
  // Starting and descending

  /** The level part shared by `startGame` and `descendLevel`: generate the
      level, collect the spawn pool, place the stairs and run the chest
      trials.  The result is walled at the border, its pool is made of
      distinct floor cells, and the pool lost at most two points. */
  method BuildLevel(depth: int, rng: Rng) returns (r: Result<(Grid, seq<Point>, Rng)>)
    requires depth >= 1
    ensures r.Crash? ==> r.fault == EmptySpawnPool
    ensures |SpawnPoints(GenerateLevelDraw(rng).0)| >= 2 ==> r.Ok?
    ensures r.Ok? ==>
      && BorderIsWall(r.value.0)
      && PoolOnFloor(r.value.0, r.value.1)
      && |r.value.1| + 2 >= |SpawnPoints(GenerateLevelDraw(rng).0)|
      && r.value.2.stream == rng.stream
  {
    var (g, rng1) := GenerateLevelDraw(rng);
    var pool := GetSpawns(g);
    SpawnPoolSize(g);
    var stairsDraw :- DrawIndex(rng1, |pool|);
    var (g2, pool2) := SpawnStairs(g, pool, stairsDraw.0);
    var chestDraw :- SpawnChestDraw(g2, pool2, depth, stairsDraw.1);
    var c := chestDraw.0;
    forall q | OnBorder(q) ensures TileAt(g2, q) == Wall {
      assert q != pool[stairsDraw.0];
    }
    forall q | OnBorder(q) ensures TileAt(c.grid, q) == Wall {
      assert TileAt(g2, q) == Wall;
    }
    return Ok((c.grid, c.pool, chestDraw.1));
  }

  /** `startGame`: depth 1, a fresh level, then stairs, a chest, the
      monsters and the first player, in that order, from the one pool.  The
      second player slot is empty (it is null at every call in the source).
      A level with at least four spawn points never makes it throw. */
  method StartGame(rng: Rng) returns (r: Result<(GameState, Rng)>)
    ensures r.Crash? ==> r.fault == EmptySpawnPool
    ensures |SpawnPoints(GenerateLevelDraw(rng).0)| >= 4 ==> r.Ok?
    ensures r.Ok? ==> FreshStart(r.value.0)
    ensures r.Ok? ==> Consistent(r.value.0)
    ensures r.Ok? ==> r.value.1.stream == rng.stream
  {
    var lvl := BuildLevel(1, rng);
    if lvl.Crash? {
      return Crash(lvl.fault);
    }
    r := PopulateStart(lvl.value.0, lvl.value.1, lvl.value.2);
    if r.Ok? {
      ArrivalIsConsistent(r.value.0, 1, r.value.0.player, None);
    }
  }

  /** The state `startGame` leaves: depth 1, a fresh first player (400
      health, 50 damage) on floor, no second player, and a new monster
      array. */
  ghost predicate FreshStart(s: GameState) {
    && s.player.Some? && s.secondPlayer.None?
    && s.player.value.health == s.player.value.maxHealth == 400
    && s.player.value.currentMaxDamage == s.player.value.defaultMaxDamage == 50
    && s.player.value.number == Some(FirstPlayer)
    && Valid(s.player.value)
    && Arrived(s, 1, s.player, None)
  }

  /** The population part of `startGame` on a built level: the monsters are
      spawned first, then the first player on a drawn pool point. */
  method PopulateStart(g: Grid, pool: seq<Point>, rng: Rng) returns (r: Result<(GameState, Rng)>)
    requires BorderIsWall(g) && PoolOnFloor(g, pool)
    ensures r.Crash? ==> r.fault == EmptySpawnPool
    ensures |pool| >= 1 + MonsterCount(1) ==> r.Ok?
    ensures r.Ok? ==> r.value.0.tiles == g && FreshStart(r.value.0)
    ensures r.Ok? ==> r.value.1.stream == rng.stream
  {
    var spawned: (seq<Option<Entity>>, seq<Point>, Rng) :- SpawnMonstersDraw(pool, 1, rng);
    var (ms, pool2, rng2) := spawned;
    var playerDraw: (nat, Rng) :- DrawIndex(rng2, |pool2|);
    var (p, pool3) := SpawnPlayer(pool2, playerDraw.0);
    assert ms[0].value.pos in pool && ms[0].value.pos !in pool2;
    assert forall q :: q in pool3 ==> q in multiset(pool2);
    var s := GameState(1, g, pool3, Some(p), None, ms);
    assert NewMonsters(s, 1);
    assert Arrived(s, 1, s.player, None);
    return Ok((s, playerDraw.1));
  }

  /** The population part of `descendLevel` on a built level: both player
      slots move (stats kept) to drawn pool points, then a full monster array
      is spawned.  Nobody shares a cell on arrival and every player stands
      on floor. */
  method Populate(g: Grid, pool: seq<Point>, depth: int, p1: Option<Entity>, p2: Option<Entity>, rng: Rng)
    returns (r: Result<(GameState, Rng)>)
    requires depth >= 1 && BorderIsWall(g) && PoolOnFloor(g, pool)
    ensures r.Crash? ==> r.fault == EmptySpawnPool
    ensures |pool| >= 2 + MonsterCount(depth) ==> r.Ok?
    ensures r.Ok? ==> r.value.0.tiles == g && Arrived(r.value.0, depth, p1, p2)
    ensures r.Ok? ==> r.value.1.stream == rng.stream
  {
    var placed: (Option<Entity>, Option<Entity>, seq<Point>, Rng) :- PlacePlayers(g, pool, p1, p2, rng);
    var (q1, q2, pool2, rng2) := placed;
    var spawned: (seq<Option<Entity>>, seq<Point>, Rng) :- SpawnMonstersDraw(pool2, depth, rng2);
    var (ms, pool3, rng3) := spawned;
    return Ok((GameState(depth, g, pool3, q1, q2, ms), rng3));
  }

  /** Both `placePlayer` calls of `descendLevel`: each present player keeps
      its stats and moves to a drawn pool point, which leaves the pool. */
  method PlacePlayers(g: Grid, pool: seq<Point>, p1: Option<Entity>, p2: Option<Entity>, rng: Rng)
    returns (r: Result<(Option<Entity>, Option<Entity>, seq<Point>, Rng)>)
    requires PoolOnFloor(g, pool)
    ensures r.Crash? ==> r.fault == EmptySpawnPool
    ensures |pool| >= 2 ==> r.Ok?
    ensures r.Ok? ==>
      var (q1, q2, pool', rng') := r.value;
      && (q1.Some? <==> p1.Some?) && (q2.Some? <==> p2.Some?)
      && (p1.Some? ==> SameStats(q1.value, p1.value) && InBounds(q1.value.pos)
                       && TileAt(g, q1.value.pos) == Floor && q1.value.pos !in pool')
      && (p2.Some? ==> SameStats(q2.value, p2.value) && InBounds(q2.value.pos)
                       && TileAt(g, q2.value.pos) == Floor && q2.value.pos !in pool')
      && (p1.Some? && p2.Some? ==> q1.value.pos != q2.value.pos)
      && PoolOnFloor(g, pool') && |pool'| + 2 >= |pool|
      && rng'.stream == rng.stream
  {
    var first: (Option<Entity>, seq<Point>, Rng) :- PlacePlayerDraw(p1, pool, rng);
    var (q1, pool1, rng1) := first;
    var second: (Option<Entity>, seq<Point>, Rng) :- PlacePlayerDraw(p2, pool1, rng1);
    var (q2, pool2, rng2) := second;
    assert forall q :: q in pool2 ==> q in pool1 && q in pool;
    return Ok((q1, q2, pool2, rng2));
  }

  /** `descendLevel`: one level deeper, a fresh level with stairs and a chest,
      both player slots moved (stats kept) to pool points, and a new monster
      array.  A level with at least `4 + min(depth, 40)` spawn points never
      makes it throw. */
  method DescendLevel(s: GameState, rng: Rng) returns (r: Result<(GameState, Rng)>)
    requires s.depth >= 1
    ensures r.Crash? ==> r.fault == EmptySpawnPool
    ensures |SpawnPoints(GenerateLevelDraw(rng).0)| >= 4 + MonsterCount(s.depth + 1) ==> r.Ok?
    ensures r.Ok? ==> Arrived(r.value.0, s.depth + 1, s.player, s.secondPlayer)
    ensures r.Ok? ==> r.value.1.stream == rng.stream
  {
    var lvl := BuildLevel(s.depth + 1, rng);
    if lvl.Crash? {
      return Crash(lvl.fault);
    }
    var d := s.depth + 1;
    r := Populate(lvl.value.0, lvl.value.1, d, s.player, s.secondPlayer, lvl.value.2);
  }

  /** A descent from a consistent state arrives in a consistent state:
      players keep their (valid) stats on floor cells, and the new monsters
      are valid, armed and on floor. */
  lemma DescendKeepsConsistent(s: GameState, s': GameState)
    requires Consistent(s)
    requires Arrived(s', s.depth + 1, s.player, s.secondPlayer)
    ensures Consistent(s')
  {
    ArrivalIsConsistent(s', s.depth + 1, s.player, s.secondPlayer);
  }

  /** A level just arrived at, with players fit to play, is consistent. */
  lemma ArrivalIsConsistent(s': GameState, depth: int, p1: Option<Entity>, p2: Option<Entity>)
    requires depth >= 1 && Arrived(s', depth, p1, p2)
    requires p1.Some? ==> Valid(p1.value) && p1.value.defaultMaxDamage > 0 && p1.value.maxHealth >= 4
    requires p2.Some? ==> Valid(p2.value) && p2.value.defaultMaxDamage > 0 && p2.value.maxHealth >= 4
    ensures Consistent(s')
  {
    MonsterStatsPositive(depth);
  }

  lemma MonsterStatsPositive(depth: int)
    requires depth >= 1
    ensures MonsterDamage(depth) > 0
  {
  }

  /** `spawnSecondPlayer`: a fresh second player (250 health, 80 damage) on a
      drawn pool point, which leaves the pool.  Nothing stops that point
      from being the first player's or a monster's current cell. */
  function SpawnSecondPlayerInto(s: GameState, rng: Rng): (r: Result<(GameState, Rng)>)
    requires Consistent(s)
    ensures r.Crash? <==> |s.spawns| == 0
    ensures r.Ok? ==>
      var s' := r.value.0;
      && Consistent(s')
      && s'.secondPlayer.Some? && s'.secondPlayer.value.pos in s.spawns
      && s'.secondPlayer.value.health == s'.secondPlayer.value.maxHealth == 250
      && s'.secondPlayer.value.currentMaxDamage == 80
      && s'.secondPlayer.value.number == Some(SecondPlayer)
      && s'.player == s.player && s'.monsters == s.monsters && s'.tiles == s.tiles
      && |s'.spawns| + 1 == |s.spawns|
      && r.value.1 == Skip(rng, 1)
  {
    var d :- DrawIndex(rng, |s.spawns|);
    var (p2, pool) := Level.SpawnSecondPlayer(s.spawns, d.0);
    assert forall q :: q in pool ==> q in multiset(s.spawns);
    Ok((s.(secondPlayer := Some(p2), spawns := pool), d.1))
  }

  // ---------------------------------------------------------------------------
  // Player moves

  /** Every chest's heal draw has a positive bound once the maximum health is
      at least 4, so `nextInt` never throws there. */
  lemma RewardBoundPositive(chest: Tile, treasure: int, maxHealth: int)
    requires chest.IsChest() && maxHealth >= 4 && DrawsReward(chest, treasure)
    ensures RewardDrawBound(chest, treasure, maxHealth) > 0
  {
    if treasure == HealthTreasure && chest == SapphireChest {
      var q := JavaDiv(maxHealth, 4);
      assert maxHealth >= 4 * q + 0 && q >= 1;
      assert JavaDiv(maxHealth, 2) >= 2 * q;
    }
  }

  /** The movement half of a player move: record the previous cell, step
      unless the target cell is a wall, back off the other player and fight
      any monster on the cell.  The mover ends on the target cell exactly when
      it is not a wall, not the other player's cell and free of monsters;
      otherwise it stays put. */
  function StepAndFight(g: Grid, ms: seq<Option<Entity>>, p: Entity, other: Option<Entity>, d: Direction, rng: Rng)
    : (r: (Entity, seq<Option<Entity>>, Rng))
    requires BorderIsWall(g) && PlayerOk(g, Some(p)) && MonstersArmed(ms)
    ensures InBounds(Step(p.pos, d))
    ensures var q := Step(p.pos, d);
      r.0.pos == q <==> TileAt(g, q) != Wall && (other.None? || other.value.pos != q) && NoneOn(ms, 0, q)
    ensures r.0.pos == Step(p.pos, d) || r.0.pos == p.pos
    ensures r.0.prev == p.pos
    ensures PlayerOk(g, Some(r.0))
    ensures SameExceptVitals(r.0.(pos := p.pos, prev := p.prev), p)
    ensures VitalsOnly(ms, r.1) && MonstersArmed(r.1)
    ensures MonstersValid(ms) ==> MonstersValid(r.1)
    ensures r.0.pos == Step(p.pos, d) ==> r.0.health == p.health && r.0.shield == p.shield && r.1 == ms
    ensures p.immortality != 0 ==> r.0.health == p.health && r.0.shield == p.shield
    ensures r.2.stream == rng.stream
  {
    NonWallIsInterior(g, p.pos);
    var p0 := SetPreviousPosition(p);
    var q := Step(p0.pos, d);
    var p1 := if TileAt(g, q) != Wall then SetPosition(p0, q.x, q.y) else p0;
    var p2 := PlayerOnPlayer(p1, other);
    PlayerCombat(p2, ms, rng)
  }

  /** A mortal mover that steps onto a free cell held by a monster is sent
      back and hit by the first such monster; when no later monster stands on
      the cell it came from, that hit is the only change to its health and
      shield. */
  lemma StepAndFightHitBack(g: Grid, ms: seq<Option<Entity>>, p: Entity, other: Option<Entity>, d: Direction, rng: Rng)
    requires BorderIsWall(g) && PlayerOk(g, Some(p)) && MonstersArmed(ms)
    ensures var q := Step(p.pos, d);
      p.immortality == 0 && CanStep(g, p.pos, d) && (other.None? || other.value.pos != q) ==>
        forall j :: FirstOn(ms, 0, j, q) && NoneOn(ms, j + 1, p.pos) ==>
          exists roll :: 0 <= roll < ms[j].value.currentMaxDamage
            && StepAndFight(g, ms, p, other, d, rng).0 == HitPlayer(ms[j].value, SetPreviousPosition(p), roll)
  {
    NonWallIsInterior(g, p.pos);
    var q := Step(p.pos, d);
    if p.immortality == 0 && CanStep(g, p.pos, d) && (other.None? || other.value.pos != q) {
      var landed := SetPosition(SetPreviousPosition(p), q.x, q.y);
      assert PlayerOnPlayer(landed, other) == landed;
      assert RevertPosition(landed) == SetPreviousPosition(p);
      assert StepAndFight(g, ms, p, other, d, rng) == PlayerCombat(landed, ms, rng);
    }
  }

  /** The second half of a player move: `getTreasure` (the treasure index is
      drawn first, always; a reward draw follows where the reward needs one)
      and `statsUpdater`.  The mover stays on its cell, which afterwards
      holds no chest; no other cell changes. */
  function OpenAndDecay(g: Grid, p: Entity, rng: Rng): (r: (Grid, Entity, Rng))
    requires PlayerOk(g, Some(p))
    ensures PlayerOk(r.0, Some(r.1))
    ensures r.1.pos == p.pos && r.1.prev == p.prev
    ensures r.1.number == p.number && r.1.kind == p.kind && r.1.maxHealth == p.maxHealth
    ensures SameWalls(g, r.0) && !TileAt(r.0, p.pos).IsChest()
    ensures forall c :: InBounds(c) && TileAt(r.0, c) != TileAt(g, c) ==> c == p.pos && TileAt(g, c).IsChest()
    ensures TileAt(g, p.pos).IsChest() ==> TileAt(r.0, p.pos) == Floor
    ensures !TileAt(g, p.pos).IsChest() ==> r.0 == g
    ensures var treasure := IntAt(rng, 0, 3);
      var chest := TileAt(g, p.pos);
      exists roll ::
        && (DrawsReward(chest, treasure) ==> 0 <= roll < RewardDrawBound(chest, treasure, p.maxHealth))
        && r.0 == GetTreasure(g, p, treasure, roll).0
        && r.1 == StatsUpdater(GetTreasure(g, p, treasure, roll).1)
    ensures r.2.stream == rng.stream
  {
    var (treasure, rng1) := NextInt(rng, 3);
    var chest := TileAt(g, p.pos);
    var (roll, rng2) :=
      if DrawsReward(chest, treasure) then
        RewardBoundPositive(chest, treasure, p.maxHealth);
        NextInt(rng1, RewardDrawBound(chest, treasure, p.maxHealth))
      else (0, rng1);
    TreasureKeepsValid(g, p, treasure, roll);
    var (g', p') := GetTreasure(g, p, treasure, roll);
    assert DrawsReward(chest, treasure) ==> 0 <= roll < RewardDrawBound(chest, treasure, p.maxHealth);
    (g', StatsUpdater(p'), rng2)
  }

  /** One move of a present player, as every `movePlayer*` branch does it. */
  function PlayerTurn(g: Grid, ms: seq<Option<Entity>>, p: Entity, other: Option<Entity>, d: Direction, rng: Rng)
    : (r: (Grid, Entity, seq<Option<Entity>>, Rng))
    requires BorderIsWall(g) && PlayerOk(g, Some(p)) && MonstersArmed(ms)
    ensures InBounds(Step(p.pos, d))
    ensures var q := Step(p.pos, d);
      r.1.pos == q <==> TileAt(g, q) != Wall && (other.None? || other.value.pos != q) && NoneOn(ms, 0, q)
    ensures r.1.pos == Step(p.pos, d) || r.1.pos == p.pos
    ensures PlayerOk(r.0, Some(r.1))
    ensures SameWalls(g, r.0) && !TileAt(r.0, r.1.pos).IsChest()
    ensures forall c :: InBounds(c) && TileAt(r.0, c) != TileAt(g, c) ==> c == r.1.pos && TileAt(g, c).IsChest()
    ensures VitalsOnly(ms, r.2) && MonstersArmed(r.2)
    ensures MonstersValid(ms) ==> MonstersValid(r.2)
    ensures r.2 == StepAndFight(g, ms, p, other, d, rng).1
    ensures r.3.stream == rng.stream
  {
    var (p', ms', rng1) := StepAndFight(g, ms, p, other, d, rng);
    var (g', p'', rng2) := OpenAndDecay(g, p', rng1);
    (g', p'', ms', rng2)
  }

  /** After stepping and fighting, the mover opens whatever chest it stands
      on: the cell becomes floor and its statistics are those `getTreasure`
      and `statsUpdater` give for the treasure kind drawn next. */
  lemma PlayerTurnLoots(g: Grid, ms: seq<Option<Entity>>, p: Entity, other: Option<Entity>, d: Direction, rng: Rng)
    requires BorderIsWall(g) && PlayerOk(g, Some(p)) && MonstersArmed(ms)
    ensures var fought := StepAndFight(g, ms, p, other, d, rng);
      var turn := PlayerTurn(g, ms, p, other, d, rng);
      var treasure := IntAt(fought.2, 0, 3);
      var chest := TileAt(g, fought.0.pos);
      && (chest.IsChest() ==> TileAt(turn.0, fought.0.pos) == Floor)
      && exists roll ::
        && (DrawsReward(chest, treasure) ==> 0 <= roll < RewardDrawBound(chest, treasure, fought.0.maxHealth))
        && turn.0 == GetTreasure(g, fought.0, treasure, roll).0
        && turn.1 == StatsUpdater(GetTreasure(g, fought.0, treasure, roll).1)
  {
    var fought := StepAndFight(g, ms, p, other, d, rng);
    assert PlayerTurn(g, ms, p, other, d, rng).0 == OpenAndDecay(g, fought.0, fought.2).0;
    assert PlayerTurn(g, ms, p, other, d, rng).1 == OpenAndDecay(g, fought.0, fought.2).1;
  }

  /** `movePlayerLeft/Right/Up/Down(num)`.  The first player must be present
      (the source dereferences it unconditionally); an absent second player
      makes the call do nothing.  The other player, the depth and the pool
      are untouched, monsters only lose health, and walls stay where they
      were. */
  function MovePlayer(s: GameState, num: PlayerNumber, d: Direction, rng: Rng): (r: (GameState, Rng))
    requires Consistent(s)
    requires num == FirstPlayer ==> s.player.Some?
    ensures Consistent(r.0)
    ensures Slot(s, num).None? ==> r == (s, rng)
    ensures Slot(r.0, num).Some? <==> Slot(s, num).Some?
    ensures Slot(r.0, Other(num)) == Slot(s, Other(num))
    ensures r.0.depth == s.depth && r.0.spawns == s.spawns
    ensures SameWalls(s.tiles, r.0.tiles)
    ensures VitalsOnly(s.monsters, r.0.monsters)
    ensures Slot(s, num).Some? ==>
      var p := Slot(s, num).value;
      var q := Step(p.pos, d);
      && InBounds(q)
      && (Slot(r.0, num).value.pos == q <==>
          TileAt(s.tiles, q) != Wall
          && (Slot(s, Other(num)).None? || Slot(s, Other(num)).value.pos != q)
          && NoneOn(s.monsters, 0, q))
      && (Slot(r.0, num).value.pos == q || Slot(r.0, num).value.pos == p.pos)
    ensures Slot(s, num).Some? ==>
      var turn := PlayerTurn(s.tiles, s.monsters, Slot(s, num).value, Slot(s, Other(num)), d, rng);
      Slot(r.0, num) == Some(turn.1) && r.0.tiles == turn.0 && r.0.monsters == turn.2 && r.1 == turn.3
    ensures r.1.stream == rng.stream
  {
    var mover := Slot(s, num);
    if mover.None? then (s, rng)
    else
      var (g', p', ms', rng') := PlayerTurn(s.tiles, s.monsters, mover.value, Slot(s, Other(num)), d, rng);
      var s' := WithSlot(s, num, Some(p')).(tiles := g', monsters := ms');
      KeptWallsKeepConsistent(s, s');
      (s', rng')
  }

  /** A state whose walls did not move and whose only changed tile held a
      chest (so was neither wall nor pool point) is still consistent, given
      its players and monsters are. */
  lemma KeptWallsKeepConsistent(s: GameState, s': GameState)
    requires Consistent(s)
    requires s'.depth == s.depth && s'.spawns == s.spawns
    requires SameWalls(s.tiles, s'.tiles)
    requires forall c :: InBounds(c) && TileAt(s'.tiles, c) != TileAt(s.tiles, c) ==> TileAt(s.tiles, c).IsChest()
    requires PlayerOk(s'.tiles, s'.player) && PlayerOk(s'.tiles, s'.secondPlayer)
    requires VitalsOnly(s.monsters, s'.monsters) && MonstersArmed(s'.monsters) && MonstersValid(s'.monsters)
    ensures Consistent(s')
  {
    assert BorderIsWall(s'.tiles) by {
      forall c | OnBorder(c) ensures TileAt(s'.tiles, c) == Wall {
        assert TileAt(s.tiles, c) == Wall;
      }
    }
    assert PoolOnFloor(s'.tiles, s'.spawns) by {
      forall c | c in s'.spawns ensures InBounds(c) && TileAt(s'.tiles, c) == Floor {
        assert TileAt(s.tiles, c) == Floor;
      }
    }
    assert MonstersOffWalls(s'.tiles, s'.monsters) by {
      forall j | 0 <= j < |s'.monsters| && s'.monsters[j].Some?
        ensures InBounds(s'.monsters[j].value.pos) && TileAt(s'.tiles, s'.monsters[j].value.pos) != Wall
      {
        assert s'.monsters[j].value.pos == s.monsters[j].value.pos;
      }
    }
  }

  // ---------------------------------------------------------------------------
  // Turns

  /** `cleanDeadMonsters`: exactly the slots holding a monster with health
      below 1 are emptied; the array keeps its length and nothing moves. */
  function CleanDeadMonsters(ms: seq<Option<Entity>>): (r: seq<Option<Entity>>)
    ensures |r| == |ms|
    ensures forall j :: 0 <= j < |ms| ==> (r[j].Some? <==> ms[j].Some? && ms[j].value.health >= 1)
    ensures forall j :: 0 <= j < |ms| && r[j].Some? ==> r[j] == ms[j]
  {
    seq(|ms|, j requires 0 <= j < |ms| => if ms[j].Some? && ms[j].value.health < 1 then None else ms[j])
  }

  /** Cleaning twice is cleaning once, and cleaning keeps the monster
      invariants (off walls, armed, valid, pairwise apart). */
  lemma CleanIsIdempotent(g: Grid, ms: seq<Option<Entity>>)
    ensures CleanDeadMonsters(CleanDeadMonsters(ms)) == CleanDeadMonsters(ms)
    ensures MonstersOffWalls(g, ms) ==> MonstersOffWalls(g, CleanDeadMonsters(ms))
    ensures MonstersArmed(ms) ==> MonstersArmed(CleanDeadMonsters(ms))
    ensures MonstersValid(ms) ==> MonstersValid(CleanDeadMonsters(ms))
    ensures LiveDistinct(ms) ==> LiveDistinct(CleanDeadMonsters(ms))
  {
    var once := CleanDeadMonsters(ms);
    if LiveDistinct(ms) {
      forall a, b | Occupied(once, a) && Occupied(once, b) && a != b
        ensures once[a].value.pos != once[b].value.pos
      {
        assert Occupied(ms, a) && Occupied(ms, b);
      }
    }
  }

  /** The stairs check of one player slot in `doTurn`: a present player on
      the stairs makes the engine descend; otherwise nothing changes.  After
      a descent both players stand on floor. */
  method StairsCheck(s: GameState, num: PlayerNumber, rng: Rng) returns (r: Result<(GameState, Rng)>)
    requires Consistent(s)
    ensures r.Crash? ==> r.fault == EmptySpawnPool
    ensures !OnStairs(s, Slot(s, num)) ==> r == Ok((s, rng))
    ensures r.Ok? ==>
      var s' := r.value.0;
      && Consistent(s')
      && (s'.depth == s.depth + 1 <==> OnStairs(s, Slot(s, num)))
      && (s'.depth == s.depth || s'.depth == s.depth + 1)
      && (s'.player.Some? <==> s.player.Some?)
      && (s'.secondPlayer.Some? <==> s.secondPlayer.Some?)
      && (s.player.Some? ==> s'.player.value.health == s.player.value.health)
      && (s.secondPlayer.Some? ==> s'.secondPlayer.value.health == s.secondPlayer.value.health)
      && (s'.depth == s.depth + 1 ==> !OnStairs(s', s'.player) && !OnStairs(s', s'.secondPlayer))
      && r.value.1.stream == rng.stream
  {
    if !OnStairs(s, Slot(s, num)) {
      return Ok((s, rng));
    }
    r := DescendLevel(s, rng);
    if r.Ok? {
      DescendKeepsConsistent(s, r.value.0);
    }
  }

  /** The health check of one player slot in `doTurn`: a player with health
      below 1 is removed; nothing else changes. */
  function DeathCheck(s: GameState, num: PlayerNumber): (r: GameState)
    requires Consistent(s)
    ensures Consistent(r)
    ensures r.depth == s.depth && r.tiles == s.tiles && r.monsters == s.monsters && r.spawns == s.spawns
    ensures Slot(r, Other(num)) == Slot(s, Other(num))
    ensures Slot(r, num).Some? <==> Slot(s, num).Some? && Slot(s, num).value.health >= 1
    ensures Slot(r, num).Some? ==> Slot(r, num) == Slot(s, num)
  {
    var p := Slot(s, num);
    if p.Some? && p.value.health < 1 then WithSlot(s, num, None) else s
  }

  /** The end-of-turn check of one player slot: stairs first, so a dying
      player still descends, then health. */
  method Arrive(s: GameState, num: PlayerNumber, rng: Rng) returns (r: Result<(GameState, Rng)>)
    requires Consistent(s)
    ensures r.Crash? ==> r.fault == EmptySpawnPool
    ensures !OnStairs(s, Slot(s, num)) ==> r == Ok((DeathCheck(s, num), rng))
    ensures r.Ok? ==>
      var s' := r.value.0;
      && Consistent(s')
      && (s'.depth == s.depth + 1 <==> OnStairs(s, Slot(s, num)))
      && (s'.depth == s.depth || s'.depth == s.depth + 1)
      && (s'.depth == s.depth ==> s'.tiles == s.tiles && Slot(s', Other(num)) == Slot(s, Other(num)))
      && (s'.depth == s.depth + 1 ==> !OnStairs(s', Slot(s', Other(num))))
      && (Slot(s', num).Some? <==> Slot(s, num).Some? && Slot(s, num).value.health >= 1)
      && (Slot(s', num).Some? ==> Slot(s', num).value.health == Slot(s, num).value.health)
      && (Slot(s', Other(num)).Some? <==> Slot(s, Other(num)).Some?)
      && (Slot(s, Other(num)).Some? ==> Slot(s', Other(num)).value.health == Slot(s, Other(num)).value.health)
      && r.value.1.stream == rng.stream
  {
    var descended :- StairsCheck(s, num, rng);
    return Ok((DeathCheck(descended.0, num), descended.1));
  }

  /** `doTurn`: remove dead monsters, move the living ones, then check the
      first and the second player for stairs and death.  The level changes
      at most once per turn, exactly when a present player stood on the
      stairs; every player left afterwards has health at least 1, and an
      empty player slot stays empty.  A turn without a descent keeps the
      level and the pool: it is the monster phase followed by the death
      checks.  (The restart prompt on game over is
      console input and is not part of this function.) */
  method DoTurn(s: GameState, rng: Rng) returns (r: Result<(GameState, Rng)>)
    requires Consistent(s)
    ensures r.Crash? ==> r.fault == EmptySpawnPool
    ensures r.Ok? ==>
      var s' := r.value.0;
      && Consistent(s')
      && (s'.depth == s.depth || s'.depth == s.depth + 1)
      && (s'.depth == s.depth + 1 <==> OnStairs(s, s.player) || OnStairs(s, s.secondPlayer))
      && (s'.player.Some? ==> s.player.Some? && s'.player.value.health >= 1)
      && (s'.secondPlayer.Some? ==> s.secondPlayer.Some? && s'.secondPlayer.value.health >= 1)
      && r.value.1.stream == rng.stream
    ensures r.Ok? ==>
      var s' := r.value.0;
      var mv := MoveMonsters(s.tiles, s.depth, CleanDeadMonsters(s.monsters), s.player, s.secondPlayer, rng);
      && (s'.player.Some? <==> mv.1.Some? && mv.1.value.health >= 1)
      && (s'.secondPlayer.Some? <==> mv.2.Some? && mv.2.value.health >= 1)
    ensures !OnStairs(s, s.player) && !OnStairs(s, s.secondPlayer) ==>
      var mv := MoveMonsters(s.tiles, s.depth, CleanDeadMonsters(s.monsters), s.player, s.secondPlayer, rng);
      && r.Ok?
      && r.value.0.depth == s.depth
      && r.value.0.tiles == s.tiles
      && r.value.0.spawns == s.spawns
      && r.value.0.monsters == mv.0
      && (r.value.0.player.Some? ==> r.value.0.player == mv.1)
      && (r.value.0.secondPlayer.Some? ==> r.value.0.secondPlayer == mv.2)
      && r.value.1 == mv.3
  {
    var cleaned := CleanDeadMonsters(s.monsters);
    CleanIsIdempotent(s.tiles, s.monsters);
    var (ms, p1, p2, rng1) := MoveMonsters(s.tiles, s.depth, cleaned, s.player, s.secondPlayer, rng);
    var moved := s.(monsters := ms, player := p1, secondPlayer := p2);
    assert Consistent(moved);
    var first :- Arrive(moved, FirstPlayer, rng1);
    r := Arrive(first.0, SecondPlayer, first.1);
  }
}
