/** The engine's state and the invariants its operations keep. */
module State {
  import opened Util
  import opened Tiles
  import opened Entities
  import opened Level
  import opened Combat
  import opened MonsterAI

  /** The engine's fields: depth, level, spawn pool, the two player slots and
      the monster array (`None` for a null slot). */
  datatype GameState = GameState(
    depth: int,
    tiles: Grid,
    spawns: seq<Point>,
    player: Option<Entity>,
    secondPlayer: Option<Entity>,
    monsters: seq<Option<Entity>>)

  /** A present player is a valid entity on a non-wall cell, deals damage
      (`nextInt` needs a positive bound) and has enough maximum health for
      every chest's heal draw to have a positive bound. */
  ghost predicate PlayerOk(g: Grid, p: Option<Entity>) {
    p.Some? ==>
      && Valid(p.value)
      && InBounds(p.value.pos) && TileAt(g, p.value.pos) != Wall
      && p.value.defaultMaxDamage > 0
      && p.value.maxHealth >= 4
  }

  /** What every engine operation keeps: a level walled at the border, a
      pool of distinct floor cells, and players and monsters that are valid,
      armed and off the walls. */
  ghost predicate Consistent(s: GameState) {
    && s.depth >= 1
    && BorderIsWall(s.tiles)
    && PoolOnFloor(s.tiles, s.spawns)
    && PlayerOk(s.tiles, s.player)
    && PlayerOk(s.tiles, s.secondPlayer)
    && MonstersOffWalls(s.tiles, s.monsters)
    && MonstersArmed(s.monsters)
    && MonstersValid(s.monsters)
  }

  function Slot(s: GameState, num: PlayerNumber): Option<Entity> {
    if num == FirstPlayer then s.player else s.secondPlayer
  }

  function Other(num: PlayerNumber): PlayerNumber {
    if num == FirstPlayer then SecondPlayer else FirstPlayer
  }

  /** The state with one player slot replaced and everything else kept. */
  function WithSlot(s: GameState, num: PlayerNumber, p: Option<Entity>): (r: GameState)
    ensures Slot(r, num) == p && Slot(r, Other(num)) == Slot(s, Other(num))
    ensures r.depth == s.depth && r.tiles == s.tiles && r.spawns == s.spawns && r.monsters == s.monsters
  {
    if num == FirstPlayer then s.(player := p) else s.(secondPlayer := p)
  }

  /** The game is over when neither player slot holds a player. */
  predicate GameOver(s: GameState) {
    s.player.None? && s.secondPlayer.None?
  }

  /** A present player standing on the stairs. */
  predicate OnStairs(s: GameState, p: Option<Entity>) {
    p.Some? && InBounds(p.value.pos) && TileAt(s.tiles, p.value.pos) == Stairs
  }

  /** The state a descent arrives in: the given depth, a walled level with a
      pool of distinct floor cells, each player slot filled exactly when it
      was before and by the same player (stats kept) on a floor cell, the two
      players apart, and a fresh monster array. */
  ghost predicate Arrived(s': GameState, depth: int, p1: Option<Entity>, p2: Option<Entity>)
    requires depth >= 1
  {
    match s'
    case GameState(d, tiles, pool, q1, q2, _) =>
      && d == depth
      && BorderIsWall(tiles) && PoolOnFloor(tiles, pool)
      && (q1.Some? <==> p1.Some?)
      && (q2.Some? <==> p2.Some?)
      && (p1.Some? ==> SameStats(q1.value, p1.value) && InBounds(q1.value.pos) && TileAt(tiles, q1.value.pos) == Floor)
      && (p2.Some? ==> SameStats(q2.value, p2.value) && InBounds(q2.value.pos) && TileAt(tiles, q2.value.pos) == Floor)
      && (p1.Some? && p2.Some? ==> q1.value.pos != q2.value.pos)
      && NewMonsters(s', depth)
  }

  /** A freshly spawned monster array: `min(depth, 40)` full-health monsters
      on distinct floor cells, none on a player. */
  ghost predicate NewMonsters(s: GameState, depth: int)
    requires depth >= 1
  {
    && |s.monsters| == MonsterCount(depth)
    && (forall j :: 0 <= j < |s.monsters| ==>
      && s.monsters[j].Some?
      && s.monsters[j].value.health == s.monsters[j].value.maxHealth == MonsterHealth(depth)
      && s.monsters[j].value.currentMaxDamage == s.monsters[j].value.defaultMaxDamage == MonsterDamage(depth)
      && Valid(s.monsters[j].value)
      && InBounds(s.monsters[j].value.pos) && TileAt(s.tiles, s.monsters[j].value.pos) == Floor
      && (s.player.Some? ==> s.monsters[j].value.pos != s.player.value.pos)
      && (s.secondPlayer.Some? ==> s.monsters[j].value.pos != s.secondPlayer.value.pos))
    && LiveDistinct(s.monsters)
  }
}
