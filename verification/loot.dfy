/** Opening a chest (GameEngine.getTreasure).  The treasure index and the
    reward draw are parameters; `roll` is the value of the second `nextInt`
    call, whose bound `RewardDrawBound` gives. */
module Loot {
  import opened Util
  import opened Tiles
  import opened Entities

  /** The three rewards, in the order of the treasure index. */
  const HealthTreasure := 0
  const DamageBoostTreasure := 1
  const ImmortalityTreasure := 2

  /** The heal a chest may give: the interval [lo, hi) of its tier, a quarter,
      a half or all of the maximum health wide. */
  function HealRange(chest: Tile, maxHealth: int): (r: (int, int))
    requires chest.IsChest()
  {
    match chest
    case WoodenChest => (0, JavaDiv(maxHealth, 4))
    case SapphireChest => (JavaDiv(maxHealth, 4), JavaDiv(maxHealth, 2))
    case RubyChest => (JavaDiv(maxHealth, 2), maxHealth)
  }

  /** The damage boost a chest may give: [0, 20) for wooden, exactly 20 for
      sapphire and exactly 30 for ruby. */
  function BoostRange(chest: Tile): (r: (int, int))
    requires chest.IsChest()
  {
    match chest
    case WoodenChest => (0, 20)
    case SapphireChest => (20, 21)
    case RubyChest => (30, 31)
  }

  /** Turns of immortality a chest gives. */
  function ImmortalityBonus(chest: Tile): nat
    requires chest.IsChest()
  {
    match chest
    case WoodenChest => 3
    case SapphireChest => 6
    case RubyChest => 9
  }

  /** The bound of the reward draw; 0 where the reward draws nothing. */
  function RewardDrawBound(chest: Tile, treasure: int, maxHealth: int): int
    requires chest.IsChest()
  {
    if treasure == HealthTreasure then
      match chest
      case WoodenChest => JavaDiv(maxHealth, 4)
      case SapphireChest => JavaDiv(maxHealth, 2) - JavaDiv(maxHealth, 4)
      case RubyChest => maxHealth - JavaDiv(maxHealth, 2)
    else if treasure == DamageBoostTreasure then
      match chest
      case WoodenChest => 20
      case SapphireChest => 1
      case RubyChest => 1
    else 0
  }

  /** Whether opening `chest` with this treasure index makes a second draw. */
  predicate DrawsReward(chest: Tile, treasure: int) {
    chest.IsChest() && (treasure == HealthTreasure || treasure == DamageBoostTreasure)
  }

  /** Healing by `amount`, i.e. `changeHealth(-amount)`. */
  function Heal(p: Entity, amount: int): Entity {
    ChangeHealth(p, -amount)
  }

  /** `getTreasure` for a present player: a chest tile turns back into floor
      and gives exactly one reward, chosen by the treasure index, of the size
      its tier allows; on any other tile nothing changes. */
  function GetTreasure(g: Grid, p: Entity, treasure: int, roll: int): (r: (Grid, Entity))
    requires InBounds(p.pos)
    requires 0 <= treasure < 3
    requires DrawsReward(TileAt(g, p.pos), treasure) ==>
      0 <= roll < RewardDrawBound(TileAt(g, p.pos), treasure, p.maxHealth)
    ensures !TileAt(g, p.pos).IsChest() ==> r == (g, p)
    ensures TileAt(g, p.pos).IsChest() ==>
      && TileAt(r.0, p.pos) == Floor
      && (forall q :: InBounds(q) && q != p.pos ==> TileAt(r.0, q) == TileAt(g, q))
    ensures var chest := TileAt(g, p.pos);
      chest.IsChest() && treasure == HealthTreasure ==>
        exists heal :: HealRange(chest, p.maxHealth).0 <= heal < HealRange(chest, p.maxHealth).1
          && r.1 == Heal(p, heal)
    ensures var chest := TileAt(g, p.pos);
      chest.IsChest() && treasure == DamageBoostTreasure ==>
        && BoostRange(chest).0 <= r.1.currentMaxDamage - p.currentMaxDamage < BoostRange(chest).1
        && r.1 == p.(currentMaxDamage := r.1.currentMaxDamage)
    ensures var chest := TileAt(g, p.pos);
      chest.IsChest() && treasure == ImmortalityTreasure ==>
        r.1 == p.(immortality := p.immortality + ImmortalityBonus(chest))
  {
    var chest := TileAt(g, p.pos);
    if !chest.IsChest() then (g, p)
    else
      var emptied := SetTile(g, p.pos, Floor);
      var max := p.maxHealth;
      var rewarded :=
        match chest
        case WoodenChest =>
          if treasure == HealthTreasure then ChangeHealth(p, -roll)
          else if treasure == DamageBoostTreasure then ChangeCurrentMaxDamage(p, roll)
          else ChangeImmortality(p, 3)
        case SapphireChest =>
          if treasure == HealthTreasure then ChangeHealth(p, -roll - JavaDiv(max, 4))
          else if treasure == DamageBoostTreasure then ChangeCurrentMaxDamage(p, (roll + 1) * 20)
          else ChangeImmortality(p, 6)
        case RubyChest =>
          if treasure == HealthTreasure then ChangeHealth(p, -roll - JavaDiv(max, 2))
          else if treasure == DamageBoostTreasure then ChangeCurrentMaxDamage(p, (roll + 1) * 30)
          else ChangeImmortality(p, 9);
      assert treasure == HealthTreasure ==>
        var heal := if chest.WoodenChest? then roll else if chest.SapphireChest? then roll + JavaDiv(max, 4) else roll + JavaDiv(max, 2);
        HealRange(chest, max).0 <= heal < HealRange(chest, max).1 && rewarded == Heal(p, heal);
      (emptied, rewarded)
  }

  /** A valid player stays valid after opening a chest. */
  lemma TreasureKeepsValid(g: Grid, p: Entity, treasure: int, roll: int)
    requires Valid(p) && InBounds(p.pos) && 0 <= treasure < 3
    requires DrawsReward(TileAt(g, p.pos), treasure) ==>
      0 <= roll < RewardDrawBound(TileAt(g, p.pos), treasure, p.maxHealth)
    ensures Valid(GetTreasure(g, p, treasure, roll).1)
    ensures GetTreasure(g, p, treasure, roll).1.pos == p.pos
  {
    var chest := TileAt(g, p.pos);
    if chest.IsChest() && treasure == HealthTreasure {
      var heal :| HealRange(chest, p.maxHealth).0 <= heal < HealRange(chest, p.maxHealth).1
        && GetTreasure(g, p, treasure, roll).1 == Heal(p, heal);
    }
  }
}
