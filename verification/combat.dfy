/** Blows and collisions (GameEngine.hitMonster, hitPlayer, playerOnPlayer,
    monsterCombat and playerCombat). */
module Combat {
  import opened Util
  import opened Tiles
  import opened Entities
  import opened Random

  /** `hitMonster`: the monster loses a draw in [0, attacker's current maximum
      damage) of health; only its health changes. */
  function HitMonster(m: Entity, attacker: Entity, roll: int): (r: Entity)
    requires 0 <= roll < attacker.currentMaxDamage
    ensures m.health <= m.maxHealth ==> 0 <= m.health - r.health < attacker.currentMaxDamage
    ensures m.health <= m.maxHealth ==> r.health == m.health - roll && r.shield == m.shield
    ensures SameExceptVitals(r, m)
    ensures Valid(m) ==> Valid(r)
  {
    ChangeHealth(m, roll)
  }

  /** `hitPlayer`: an immortal player (any non-zero counter) is untouched and
      no damage is drawn.  Otherwise a draw in [0, monster's current maximum
      damage) wears the shield if it is positive, dropping any excess, and
      otherwise comes off health. */
  function HitPlayer(m: Entity, p: Entity, roll: int): (r: Entity)
    requires p.immortality == 0 ==> 0 <= roll < m.currentMaxDamage
    ensures p.immortality != 0 ==> r == p
    ensures p.immortality == 0 && p.shield > 0 ==>
      r.health == p.health && 0 <= r.shield <= p.shield && p.shield - r.shield == Min(roll, p.shield)
    ensures p.immortality == 0 && p.shield <= 0 && p.health <= p.maxHealth ==>
      r.shield == p.shield && r.health == p.health - roll
    ensures p.health <= p.maxHealth ==> 0 <= p.health - r.health < m.currentMaxDamage || r.health == p.health
    ensures SameExceptVitals(r, p)
    ensures Valid(p) ==> Valid(r)
  {
    if p.immortality == 0 then
      if p.shield > 0 then RemoveShield(p, roll) else ChangeHealth(p, roll)
    else p
  }

  /** Damage a hit on `p` draws: `nextInt` is called only when `p` is mortal. */
  predicate DrawsPlayerDamage(p: Entity) {
    p.immortality == 0
  }

  /** `playerOnPlayer`: a mover that ends on the other player's cell goes back
      to its previous cell; nothing else changes. */
  function PlayerOnPlayer(p: Entity, other: Option<Entity>): (r: Entity)
    ensures SameStats(r, p) && r.prev == p.prev
    ensures r.pos == p.pos || r.pos == p.prev
    ensures other.Some? && other.value.pos != p.prev ==> r.pos != other.value.pos
    ensures r.pos != p.pos <==> other.Some? && other.value.pos == p.pos && p.prev != p.pos
  {
    if other.Some? && p.pos == other.value.pos then RevertPosition(p) else p
  }

  /** `monsterCombat`: a monster that stepped onto its target goes back to its
      previous cell, then the monster hits the player and the player hits
      the monster, in that order.  Otherwise nothing happens. */
  function MonsterCombat(m: Entity, p: Entity, playerRoll: int, monsterRoll: int): (r: (Entity, Entity))
    requires m.pos == p.pos ==>
      (p.immortality == 0 ==> 0 <= playerRoll < m.currentMaxDamage) && 0 <= monsterRoll < p.currentMaxDamage
    ensures m.pos != p.pos ==> r == (m, p)
    ensures m.pos == p.pos ==>
      && r.0.pos == m.prev && r.0.prev == m.prev
      && r.1 == HitPlayer(m, p, playerRoll)
      && r.0.health == ChangeHealth(m, monsterRoll).health
      && r.0.shield == ChangeHealth(m, monsterRoll).shield
      && SameStats(r.0, ChangeHealth(m, monsterRoll))
  {
    if p.pos == m.pos then
      var back := RevertPosition(m);
      var hurtPlayer := HitPlayer(back, p, playerRoll);
      (HitMonster(back, hurtPlayer, monsterRoll), hurtPlayer)
    else (m, p)
  }

  /** The stream-driven `monsterCombat`: the draws happen only on a collision,
      the player's damage first and only if the player is mortal. */
  function MonsterCombatDraw(m: Entity, p: Entity, rng: Rng): (r: (Entity, Entity, Rng))
    requires m.currentMaxDamage > 0 && p.currentMaxDamage > 0
    ensures m.pos != p.pos ==> r.0 == m && r.1 == p && r.2 == rng
    ensures m.pos == p.pos ==> r.0.pos == m.prev && r.0.prev == m.prev
    ensures SameStats(r.0, m) || (r.0.health <= m.health && SameExceptVitals(r.0, RevertPosition(m)))
    ensures SameExceptVitals(r.1, p)
    ensures Valid(m) ==> Valid(r.0)
    ensures Valid(p) ==> Valid(r.1)
    ensures p.immortality != 0 ==> r.1 == p
    ensures m.pos == p.pos && p.immortality == 0 ==>
      exists roll :: 0 <= roll < m.currentMaxDamage && r.1 == HitPlayer(m, p, roll)
    ensures m.pos == p.pos ==>
      exists roll :: 0 <= roll < p.currentMaxDamage && r.0 == HitMonster(RevertPosition(m), r.1, roll)
    ensures r.2.stream == rng.stream
  {
    if p.pos != m.pos then (m, p, rng)
    else
      var (playerRoll, rng1) := if DrawsPlayerDamage(p) then NextInt(rng, m.currentMaxDamage) else (0, rng);
      var (monsterRoll, rng2) := NextInt(rng1, p.currentMaxDamage);
      var (m', p') := MonsterCombat(m, p, playerRoll, monsterRoll);
      assert p.immortality == 0 ==> p' == HitPlayer(m, p, playerRoll);
      assert m' == HitMonster(RevertPosition(m), p', monsterRoll);
      (m', p', rng2)
  }

  /** Liveness of a monster slot: Java's non-null array element. */
  predicate Occupied(ms: seq<Option<Entity>>, i: int) {
    0 <= i < |ms| && ms[i].Some?
  }

  /** The slot array after a pass that only touches monsters' vitals: every
      slot keeps its occupancy, position and everything but health/shield. */
  ghost predicate VitalsOnly(ms: seq<Option<Entity>>, ms': seq<Option<Entity>>) {
    && |ms'| == |ms|
    && forall j :: 0 <= j < |ms| ==>
      (ms'[j].Some? <==> ms[j].Some?) && (ms[j].Some? ==> SameExceptVitals(ms'[j].value, ms[j].value))
  }

  /** Every monster in a slot can deal damage (`nextInt` needs a positive bound). */
  ghost predicate MonstersArmed(ms: seq<Option<Entity>>) {
    forall j :: 0 <= j < |ms| && ms[j].Some? ==> ms[j].value.currentMaxDamage > 0
  }

  ghost predicate MonstersValid(ms: seq<Option<Entity>>) {
    forall j :: 0 <= j < |ms| && ms[j].Some? ==> Valid(ms[j].value)
  }

  /** The monster in slot `j` is the first one from slot `i` on standing on `c`. */
  ghost predicate FirstOn(ms: seq<Option<Entity>>, i: int, j: int, c: Point) {
    && i <= j && Occupied(ms, j) && ms[j].value.pos == c
    && forall k :: i <= k < j && Occupied(ms, k) ==> ms[k].value.pos != c
  }

  /** No monster from slot `i` on stands on `c`. */
  ghost predicate NoneOn(ms: seq<Option<Entity>>, i: int, c: Point) {
    forall j :: i <= j < |ms| && Occupied(ms, j) ==> ms[j].value.pos != c
  }

  /** One collision of `playerCombat`: the mover goes back to its previous
      cell, hits the monster (a draw in [0, mover's maximum damage)) and, if
      mortal, is hit back (a draw in [0, monster's maximum damage)). */
  function Exchange(p: Entity, m: Entity, rng: Rng): (r: (Entity, Entity, Rng))
    requires p.currentMaxDamage > 0 && m.currentMaxDamage > 0
    ensures r.0.pos == p.prev && SameExceptVitals(r.0, RevertPosition(p))
    ensures SameExceptVitals(r.1, m)
    ensures m.health <= m.maxHealth ==> 0 <= m.health - r.1.health < p.currentMaxDamage
    ensures p.immortality != 0 ==> r.0.health == p.health && r.0.shield == p.shield
    ensures Valid(p) ==> Valid(r.0)
    ensures Valid(m) ==> Valid(r.1)
    ensures exists roll :: 0 <= roll < p.currentMaxDamage && r.1 == HitMonster(m, RevertPosition(p), roll)
    ensures p.immortality == 0 ==>
      exists roll :: 0 <= roll < m.currentMaxDamage && r.0 == HitPlayer(m, RevertPosition(p), roll)
    ensures p.immortality != 0 ==> r.0 == RevertPosition(p)
    ensures r.2.stream == rng.stream
  {
    var back := RevertPosition(p);
    var (monsterRoll, rng1) := NextInt(rng, back.currentMaxDamage);
    var m' := HitMonster(m, back, monsterRoll);
    var (playerRoll, rng2) := if DrawsPlayerDamage(back) then NextInt(rng1, m'.currentMaxDamage) else (0, rng1);
    assert HitPlayer(m', back, playerRoll) == HitPlayer(m, back, playerRoll);
    (HitPlayer(m', back, playerRoll), m', rng2)
  }

  /** The loop of `playerCombat` from slot `i` on: each monster whose cell the
      mover occupies when its slot is reached sends the mover back to its
      previous cell and exchanges blows with it. */
  function PlayerCombatFrom(p: Entity, ms: seq<Option<Entity>>, i: nat, rng: Rng): (r: (Entity, seq<Option<Entity>>, Rng))
    requires i <= |ms|
    requires p.currentMaxDamage > 0 && MonstersArmed(ms)
    ensures VitalsOnly(ms, r.1) && MonstersArmed(r.1)
    ensures forall j :: 0 <= j < i ==> r.1[j] == ms[j]
    ensures r.0.prev == p.prev && SameExceptVitals(r.0.(pos := p.pos), p)
    ensures r.0.pos == p.pos || r.0.pos == p.prev
    ensures NoneOn(ms, i, p.pos) ==> r.0 == p && r.1 == ms && r.2 == rng
    ensures r.2.stream == rng.stream
    decreases |ms| - i
  {
    if i == |ms| then (p, ms, rng)
    else if ms[i].Some? && p.pos == ms[i].value.pos then
      var (p', m', rng') := Exchange(p, ms[i].value, rng);
      PlayerCombatFrom(p', ms[i := Some(m')], i + 1, rng')
    else
      PlayerCombatFrom(p, ms, i + 1, rng)
  }

  /** The loop of `playerCombat` keeps the mover and the monsters valid. */
  lemma {:induction false} PlayerCombatKeepsValid(p: Entity, ms: seq<Option<Entity>>, i: nat, rng: Rng)
    requires i <= |ms|
    requires p.currentMaxDamage > 0 && MonstersArmed(ms)
    ensures MonstersValid(ms) ==> MonstersValid(PlayerCombatFrom(p, ms, i, rng).1)
    ensures Valid(p) ==> Valid(PlayerCombatFrom(p, ms, i, rng).0)
    decreases |ms| - i
  {
    if i < |ms| {
      if ms[i].Some? && p.pos == ms[i].value.pos {
        var (p', m', rng') := Exchange(p, ms[i].value, rng);
        PlayerCombatKeepsValid(p', ms[i := Some(m')], i + 1, rng');
      } else {
        PlayerCombatKeepsValid(p, ms, i + 1, rng);
      }
    }
  }

  /** The mover is sent back as soon as a monster occupies the landing cell,
      and an immortal mover loses neither health nor shield. */
  lemma {:induction false} PlayerCombatSendsBack(p: Entity, ms: seq<Option<Entity>>, i: nat, rng: Rng)
    requires i <= |ms|
    requires p.currentMaxDamage > 0 && MonstersArmed(ms)
    ensures !NoneOn(ms, i, p.pos) ==> PlayerCombatFrom(p, ms, i, rng).0.pos == p.prev
    ensures p.immortality != 0 ==>
      PlayerCombatFrom(p, ms, i, rng).0.health == p.health && PlayerCombatFrom(p, ms, i, rng).0.shield == p.shield
    decreases |ms| - i
  {
    if i < |ms| {
      if ms[i].Some? && p.pos == ms[i].value.pos {
        var (p', m', rng') := Exchange(p, ms[i].value, rng);
        PlayerCombatSendsBack(p', ms[i := Some(m')], i + 1, rng');
      } else {
        PlayerCombatSendsBack(p, ms, i + 1, rng);
      }
    }
  }

  /** The first monster on the landing cell loses less than the mover's
      maximum damage. */
  lemma {:induction false} PlayerCombatFirstHit(p: Entity, ms: seq<Option<Entity>>, i: nat, rng: Rng)
    requires i <= |ms|
    requires p.currentMaxDamage > 0 && MonstersArmed(ms)
    ensures forall j :: FirstOn(ms, i, j, p.pos) && Valid(ms[j].value) ==>
      0 <= ms[j].value.health - PlayerCombatFrom(p, ms, i, rng).1[j].value.health < p.currentMaxDamage
    decreases |ms| - i
  {
    if i < |ms| {
      if ms[i].Some? && p.pos == ms[i].value.pos {
        HitHere(p, ms, i, rng);
        forall j | FirstOn(ms, i, j, p.pos) ensures j == i { }
      } else {
        PlayerCombatFirstHit(p, ms, i + 1, rng);
        forall j | FirstOn(ms, i, j, p.pos) && Valid(ms[j].value)
          ensures 0 <= ms[j].value.health - PlayerCombatFrom(p, ms, i, rng).1[j].value.health < p.currentMaxDamage
        {
          assert FirstOn(ms, i + 1, j, p.pos);
        }
      }
    }
  }

  /** A monster on the landing cell at slot `i` loses less than the mover's
      maximum damage, and no later slot changes it again. */
  lemma HitHere(p: Entity, ms: seq<Option<Entity>>, i: nat, rng: Rng)
    requires i < |ms| && ms[i].Some? && p.pos == ms[i].value.pos
    requires p.currentMaxDamage > 0 && MonstersArmed(ms)
    ensures Valid(ms[i].value) ==>
      0 <= ms[i].value.health - PlayerCombatFrom(p, ms, i, rng).1[i].value.health < p.currentMaxDamage
  {
    var (p', m', rng') := Exchange(p, ms[i].value, rng);
    assert PlayerCombatFrom(p, ms, i, rng) == PlayerCombatFrom(p', ms[i := Some(m')], i + 1, rng');
  }

  /** A mortal mover is hit back by the first monster on its landing cell:
      when no later monster stands on the cell it is sent back to, that hit is
      the only change to the mover's health and shield. */
  lemma {:induction false} PlayerCombatHitBack(p: Entity, ms: seq<Option<Entity>>, i: nat, rng: Rng)
    requires i <= |ms|
    requires p.currentMaxDamage > 0 && MonstersArmed(ms)
    ensures p.immortality == 0 ==>
      forall j :: FirstOn(ms, i, j, p.pos) && NoneOn(ms, j + 1, p.prev) ==>
        exists roll :: 0 <= roll < ms[j].value.currentMaxDamage
          && PlayerCombatFrom(p, ms, i, rng).0 == HitPlayer(ms[j].value, RevertPosition(p), roll)
    decreases |ms| - i
  {
    if i < |ms| && p.immortality == 0 {
      if ms[i].Some? && p.pos == ms[i].value.pos {
        forall j | FirstOn(ms, i, j, p.pos) ensures j == i { }
        if NoneOn(ms, i + 1, p.prev) {
          HitBackHere(p, ms, i, rng);
        }
      } else {
        PlayerCombatHitBack(p, ms, i + 1, rng);
        forall j | FirstOn(ms, i, j, p.pos) && NoneOn(ms, j + 1, p.prev)
          ensures FirstOn(ms, i + 1, j, p.pos)
        {
        }
      }
    }
  }

  /** The exchange with the monster at slot `i` is the mover's last when no
      later monster stands on the cell it is sent back to. */
  lemma HitBackHere(p: Entity, ms: seq<Option<Entity>>, i: nat, rng: Rng)
    requires i < |ms| && ms[i].Some? && p.pos == ms[i].value.pos
    requires p.currentMaxDamage > 0 && MonstersArmed(ms)
    requires p.immortality == 0 && NoneOn(ms, i + 1, p.prev)
    ensures exists roll ::
              0 <= roll < ms[i].value.currentMaxDamage
              && PlayerCombatFrom(p, ms, i, rng).0 == HitPlayer(ms[i].value, RevertPosition(p), roll)
  {
    var (p', m', rng') := Exchange(p, ms[i].value, rng);
    var ms' := ms[i := Some(m')];
    assert NoneOn(ms', i + 1, p'.pos) by {
      forall k | i + 1 <= k < |ms'| && Occupied(ms', k) ensures ms'[k].value.pos != p'.pos {
        assert ms'[k] == ms[k];
      }
    }
    assert PlayerCombatFrom(p, ms, i, rng).0 == p';
  }

  /** Monsters on neither the landing cell nor the previous cell are
      untouched. */
  lemma {:induction false} PlayerCombatSparesOthers(p: Entity, ms: seq<Option<Entity>>, i: nat, rng: Rng)
    requires i <= |ms|
    requires p.currentMaxDamage > 0 && MonstersArmed(ms)
    ensures forall j :: i <= j < |ms| && Occupied(ms, j) && ms[j].value.pos != p.pos && ms[j].value.pos != p.prev ==>
      PlayerCombatFrom(p, ms, i, rng).1[j] == ms[j]
    decreases |ms| - i
  {
    if i < |ms| {
      if ms[i].Some? && p.pos == ms[i].value.pos {
        var (p', m', rng') := Exchange(p, ms[i].value, rng);
        PlayerCombatSparesOthers(p', ms[i := Some(m')], i + 1, rng');
      } else {
        PlayerCombatSparesOthers(p, ms, i + 1, rng);
      }
    }
  }

  /** `playerCombat`: the mover ends on its landing cell or back on its
      previous cell, and is sent back whenever a monster occupies the landing
      cell.  The first such monster takes a hit in [0, the mover's maximum
      damage) and hits back; monsters on neither cell are untouched, and with
      no monster on the landing cell nothing happens and nothing is drawn. */
  function PlayerCombat(p: Entity, ms: seq<Option<Entity>>, rng: Rng): (r: (Entity, seq<Option<Entity>>, Rng))
    requires p.currentMaxDamage > 0 && MonstersArmed(ms)
    ensures VitalsOnly(ms, r.1) && MonstersArmed(r.1)
    ensures MonstersValid(ms) ==> MonstersValid(r.1)
    ensures r.0.prev == p.prev && SameExceptVitals(r.0.(pos := p.pos), p)
    ensures r.0.pos == p.pos || r.0.pos == p.prev
    ensures !NoneOn(ms, 0, p.pos) ==> r.0.pos == p.prev
    ensures forall j :: FirstOn(ms, 0, j, p.pos) && Valid(ms[j].value) ==>
      0 <= ms[j].value.health - r.1[j].value.health < p.currentMaxDamage
    ensures forall j :: Occupied(ms, j) && ms[j].value.pos != p.pos && ms[j].value.pos != p.prev ==>
      r.1[j] == ms[j]
    ensures NoneOn(ms, 0, p.pos) ==> r.0 == p && r.1 == ms && r.2 == rng
    ensures p.immortality != 0 ==> r.0.health == p.health && r.0.shield == p.shield
    ensures p.immortality == 0 ==>
      forall j :: FirstOn(ms, 0, j, p.pos) && NoneOn(ms, j + 1, p.prev) ==>
        exists roll :: 0 <= roll < ms[j].value.currentMaxDamage && r.0 == HitPlayer(ms[j].value, RevertPosition(p), roll)
    ensures Valid(p) ==> Valid(r.0)
    ensures r.2.stream == rng.stream
  {
    PlayerCombatKeepsValid(p, ms, 0, rng);
    PlayerCombatHitBack(p, ms, 0, rng);
    PlayerCombatSendsBack(p, ms, 0, rng);
    PlayerCombatFirstHit(p, ms, 0, rng);
    PlayerCombatSparesOthers(p, ms, 0, rng);
    PlayerCombatFrom(p, ms, 0, rng)
  }
}
