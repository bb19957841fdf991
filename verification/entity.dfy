/** A player or a monster and its stat arithmetic (Entity.java).  Every
    mutator of the Java class becomes a function returning the updated
    record. */
module Entities {
  import opened Util
  import opened Tiles

  datatype EntityType = PlayerKind | MonsterKind

  /** Which of the two player slots a player entity occupies. */
  datatype PlayerNumber = FirstPlayer | SecondPlayer

  /** `number` is `None` for monsters, whose Java field stays null.  `prev` is
      the cell recorded by the last `SetPreviousPosition`; the Java field is
      null until that first call, and the engine never reads it before. */
  datatype Entity = Entity(
    number: Option<PlayerNumber>,
    kind: EntityType,
    maxHealth: int,
    health: int,
    shield: int,
    defaultMaxDamage: int,
    currentMaxDamage: int,
    immortality: int,
    pos: Point,
    prev: Point)

  /** The stat invariant every entity the engine creates keeps: the shield and
      the immortality counter never go negative, a damage boost never drops
      below the base damage, and health never exceeds its maximum. */
  ghost predicate Valid(e: Entity) {
    && 0 <= e.shield
    && 0 <= e.immortality
    && e.defaultMaxDamage <= e.currentMaxDamage
    && e.health <= e.maxHealth
  }

  /** Everything except the two positions is the same. */
  ghost predicate SameStats(a: Entity, b: Entity) {
    && a.number == b.number && a.kind == b.kind
    && a.maxHealth == b.maxHealth && a.health == b.health && a.shield == b.shield
    && a.defaultMaxDamage == b.defaultMaxDamage && a.currentMaxDamage == b.currentMaxDamage
    && a.immortality == b.immortality
  }

  /** Only `health` and `shield` may differ. */
  ghost predicate SameExceptVitals(a: Entity, b: Entity) {
    && a.number == b.number && a.kind == b.kind && a.maxHealth == b.maxHealth
    && a.defaultMaxDamage == b.defaultMaxDamage && a.currentMaxDamage == b.currentMaxDamage
    && a.immortality == b.immortality && a.pos == b.pos && a.prev == b.prev
  }

  /** The player constructor: full health, base damage, no shield and no
      immortality (the last two by Java's zero defaults). */
  function NewPlayer(num: PlayerNumber, maxHealth: int, maxDamage: int, x: int, y: int, kind: EntityType): (e: Entity)
    ensures e.number == Some(num) && e.kind == kind
    ensures e.maxHealth == maxHealth && e.health == e.maxHealth
    ensures e.defaultMaxDamage == maxDamage && e.currentMaxDamage == e.defaultMaxDamage
    ensures e.shield == 0 && e.immortality == 0
    ensures e.pos == Point(x, y)
    ensures Valid(e)
  {
    Entity(Some(num), kind, maxHealth, maxHealth, 0, maxDamage, maxDamage, 0, Point(x, y), Point(x, y))
  }

  /** The monster constructor: as for players, but with no player number. */
  function NewMonster(maxHealth: int, maxDamage: int, x: int, y: int, kind: EntityType): (e: Entity)
    ensures e.number == None && e.kind == kind
    ensures e.maxHealth == maxHealth && e.health == e.maxHealth
    ensures e.defaultMaxDamage == maxDamage && e.currentMaxDamage == e.defaultMaxDamage
    ensures e.shield == 0 && e.immortality == 0
    ensures e.pos == Point(x, y)
    ensures Valid(e)
  {
    Entity(None, kind, maxHealth, maxHealth, 0, maxDamage, maxDamage, 0, Point(x, y), Point(x, y))
  }

  /** Records the current cell as the cell to roll back to. */
  function SetPreviousPosition(e: Entity): (r: Entity)
    ensures r.prev == e.pos && r.pos == e.pos
    ensures SameStats(r, e)
  {
    e.(prev := e.pos)
  }

  /** Moves the entity; nothing but the current cell changes. */
  function SetPosition(e: Entity, x: int, y: int): (r: Entity)
    ensures r.pos == Point(x, y) && r.prev == e.prev
    ensures SameStats(r, e)
  {
    e.(pos := Point(x, y))
  }

  /** The engine's rollback idiom `setPosition(getPreviousPosition().x, getPreviousPosition().y)`. */
  function RevertPosition(e: Entity): (r: Entity)
    ensures r.pos == e.prev && r.prev == e.prev
    ensures SameStats(r, e)
  {
    SetPosition(e, e.prev.x, e.prev.y)
  }

  /** Recording the previous cell, moving anywhere and rolling back returns the
      entity to the cell it started on, with its stats untouched. */
  lemma RevertRestoresPreMoveCell(e: Entity, x: int, y: int)
    ensures RevertPosition(SetPosition(SetPreviousPosition(e), x, y)).pos == e.pos
    ensures SameStats(RevertPosition(SetPosition(SetPreviousPosition(e), x, y)), e)
  {
  }

  /** `getXDifference`: how far `target` is from `self` along x. */
  function XDifference(self: Entity, target: Entity): (d: int)
    ensures self.pos.x + d == target.pos.x
  {
    target.pos.x - self.pos.x
  }

  /** `getYDifference`: how far `target` is from `self` along y. */
  function YDifference(self: Entity, target: Entity): (d: int)
    ensures self.pos.y + d == target.pos.y
  {
    target.pos.y - self.pos.y
  }

  /** `addShield`: half of the health above the maximum (Java division) joins the shield. */
  function AddShield(e: Entity): (r: Entity)
    ensures e.health > e.maxHealth ==> 2 * (r.shield - e.shield) <= e.health - e.maxHealth < 2 * (r.shield - e.shield) + 2
    ensures e.health >= e.maxHealth ==> r.shield >= e.shield
    ensures r.health == e.health && SameExceptVitals(r, e)
  {
    e.(shield := e.shield + JavaDiv(e.health - e.maxHealth, 2))
  }

  /** `changeHealth`: a positive change is damage, a negative one healing.
      Health above the maximum is clamped and half the surplus becomes shield. */
  function ChangeHealth(e: Entity, change: int): (r: Entity)
    ensures r.health <= e.maxHealth
    ensures e.health - change <= e.maxHealth ==> r.health == e.health - change && r.shield == e.shield
    ensures e.health - change > e.maxHealth ==>
      r.health == e.maxHealth && 2 * (r.shield - e.shield) <= e.health - change - e.maxHealth < 2 * (r.shield - e.shield) + 2
    ensures r.shield > e.shield ==> e.health - change > e.maxHealth
    ensures r.shield >= e.shield
    ensures SameExceptVitals(r, e)
  {
    var hurt := e.(health := e.health - change);
    if hurt.health > hurt.maxHealth then AddShield(hurt).(health := hurt.maxHealth) else hurt
  }

  /** `removeShield`: damage wears the shield down to zero at most; whatever
      exceeds the shield is dropped, never passed on to health. */
  function RemoveShield(e: Entity, damage: int): (r: Entity)
    ensures r.shield >= 0
    ensures damage <= e.shield ==> r.shield == e.shield - damage
    ensures damage > e.shield ==> r.shield == 0
    ensures r.health == e.health && SameExceptVitals(r, e)
  {
    var worn := e.shield - damage;
    e.(shield := if worn < 0 then 0 else worn)
  }

  /** `changeCurrentMaxDamage`: a damage boost on top of the current maximum. */
  function ChangeCurrentMaxDamage(e: Entity, boost: int): (r: Entity)
    ensures r.currentMaxDamage - e.currentMaxDamage == boost
    ensures r == e.(currentMaxDamage := r.currentMaxDamage)
    ensures Valid(e) && boost >= 0 ==> Valid(r)
  {
    e.(currentMaxDamage := e.currentMaxDamage + boost)
  }

  /** `changeImmortality`: extra turns of immunity. */
  function ChangeImmortality(e: Entity, boost: int): (r: Entity)
    ensures r.immortality - e.immortality == boost
    ensures r == e.(immortality := r.immortality)
    ensures Valid(e) && boost >= 0 ==> Valid(r)
  {
    e.(immortality := e.immortality + boost)
  }

  /** `statsUpdater`, run once per move of a player: a damage boost decays by 2
      but never below the base damage, and immortality counts down by one. */
  function StatsUpdater(e: Entity): (r: Entity)
    ensures e.currentMaxDamage > e.defaultMaxDamage ==>
      r.currentMaxDamage == Max(e.defaultMaxDamage, e.currentMaxDamage - 2)
    ensures e.currentMaxDamage <= e.defaultMaxDamage ==> r.currentMaxDamage == e.currentMaxDamage
    ensures e.immortality > 0 ==> r.immortality == e.immortality - 1
    ensures e.immortality <= 0 ==> r.immortality == e.immortality
    ensures r == e.(currentMaxDamage := r.currentMaxDamage, immortality := r.immortality)
    ensures Valid(e) ==> Valid(r)
  {
    var damage :=
      if e.currentMaxDamage > e.defaultMaxDamage then
        (var dropped := e.currentMaxDamage - 2;
         if dropped < e.defaultMaxDamage then e.defaultMaxDamage else dropped)
      else e.currentMaxDamage;
    var immortal := if e.immortality > 0 then e.immortality - 1 else e.immortality;
    e.(currentMaxDamage := damage, immortality := immortal)
  }

  /** Repeated decay: after `n` updates a boost has shrunk by 2 per update (down
      to the base damage) and immortality by 1 per update (down to zero). */
  function DecayTurns(e: Entity, n: nat): Entity
    decreases n
  {
    if n == 0 then e else DecayTurns(StatsUpdater(e), n - 1)
  }

  lemma {:induction false} DecayConverges(e: Entity, n: nat)
    requires Valid(e)
    ensures Valid(DecayTurns(e, n))
    ensures DecayTurns(e, n).currentMaxDamage == Max(e.defaultMaxDamage, e.currentMaxDamage - 2 * n)
    ensures DecayTurns(e, n).immortality == Max(0, e.immortality - n)
    ensures DecayTurns(e, n).health == e.health && DecayTurns(e, n).shield == e.shield
    decreases n
  {
    if n > 0 {
      DecayConverges(StatsUpdater(e), n - 1);
    }
  }

  /** The stat invariant survives every sequence of health changes, shield wear
      and decay: `changeHealth` never leaves health above the maximum. */
  lemma HealthNeverExceedsMaximum(e: Entity, change: int, damage: int)
    requires Valid(e) && damage >= 0
    ensures Valid(ChangeHealth(e, change))
    ensures Valid(RemoveShield(e, damage))
    ensures Valid(StatsUpdater(e))
  {
  }
}
