/** How monsters move (GameEngine.chasePlayer, avoid, findAnotherPath,
    moveMonster and moveMonsters).  Damage draws come from the `Rng` stream
    in the order the Java calls make them. */
module MonsterAI {
  import opened Util
  import opened Tiles
  import opened Entities
  import opened Random
  import opened Combat

  /** `chasePlayer`: one step along the axis on which the target is farther
      away (x on a tie), towards the target; no step when already on it. */
  function ChasePlayer(m: Entity, target: Entity): (r: Entity)
    ensures r.prev == m.prev && SameStats(r, m)
    ensures m.pos == target.pos ==> r == m
    ensures m.pos != target.pos ==> Manhattan(r.pos, target.pos) + 1 == Manhattan(m.pos, target.pos)
    ensures WithinOneStep(m.pos, r.pos)
    ensures Abs(target.pos.x - m.pos.x) >= Abs(target.pos.y - m.pos.y) ==> r.pos.y == m.pos.y
    ensures Abs(target.pos.x - m.pos.x) < Abs(target.pos.y - m.pos.y) ==> r.pos.x == m.pos.x
  {
    var dx := XDifference(m, target);
    var dy := YDifference(m, target);
    if Abs(dx) >= Abs(dy) then
      if dx > 0 then SetPosition(m, m.pos.x + 1, m.pos.y)
      else if dx < 0 then SetPosition(m, m.pos.x - 1, m.pos.y)
      else m
    else
      if dy > 0 then SetPosition(m, m.pos.x, m.pos.y + 1)
      else if dy < 0 then SetPosition(m, m.pos.x, m.pos.y - 1)
      else m
  }

  /** `avoid`: a monster standing on a wall goes back to its previous cell and
      reports that it was blocked. */
  function Avoid(g: Grid, m: Entity): (r: (Entity, bool))
    requires InBounds(m.pos)
    ensures r.1 <==> TileAt(g, m.pos) == Wall
    ensures r.1 ==> r.0 == RevertPosition(m)
    ensures !r.1 ==> r.0 == m
  {
    if TileAt(g, m.pos) == Wall then (RevertPosition(m), true) else (m, false)
  }

  /** One detour step of `findAnotherPath`: step in direction `d` and come back
      if that cell is a wall; the flag tells whether the step stuck. */
  function TryStep(g: Grid, m: Entity, d: Direction): (r: (Entity, bool))
    requires Interior(m.pos) && m.pos == m.prev
    ensures r.1 <==> TileAt(g, Step(m.pos, d)) != Wall
    ensures r.1 ==> r.0 == SetPosition(m, Step(m.pos, d).x, Step(m.pos, d).y)
    ensures !r.1 ==> r.0 == m
  {
    var q := Step(m.pos, d);
    var moved := SetPosition(m, q.x, q.y);
    if TileAt(g, q) == Wall then (RevertPosition(moved), false) else (moved, true)
  }

  /** The second block of `findAnotherPath`: with a wall above or below, a
      sideways step towards the target's column (right on a tie). */
  function SidewaysDetour(g: Grid, m: Entity, target: Point): (r: Entity)
    requires Interior(m.pos) && m.pos == m.prev
    ensures r.prev == m.prev && SameStats(r, m)
    ensures r.pos == m.pos || r.pos == Step(m.pos, if target.x >= m.pos.x then Right else Left)
    ensures r.pos != m.pos ==>
      TileAt(g, Step(m.pos, Up)) == Wall || TileAt(g, Step(m.pos, Down)) == Wall
    ensures var side := if target.x >= m.pos.x then Right else Left;
      r.pos == Step(m.pos, side) <==>
        (TileAt(g, Step(m.pos, Up)) == Wall || TileAt(g, Step(m.pos, Down)) == Wall) && CanStep(g, m.pos, side)
  {
    if TileAt(g, Step(m.pos, Up)) == Wall || TileAt(g, Step(m.pos, Down)) == Wall then
      TryStep(g, m, if target.x - m.pos.x >= 0 then Right else Left).0
    else m
  }

  /** `findAnotherPath` for a monster sent back from a wall: with a wall to its
      left or right it first tries a vertical step towards the target's row
      (down on a tie); if that did not stick, with a wall above or below it
      tries a sideways step.  Only walls are checked, so a detour may end on
      a player.  The monster never ends on a wall and moves at most one
      cell. */
  function FindAnotherPath(g: Grid, m: Entity, target: Point): (r: Entity)
    requires BorderIsWall(g) && InBounds(m.pos) && TileAt(g, m.pos) != Wall
    requires m.pos == m.prev
    ensures r.prev == m.prev && SameStats(r, m)
    ensures InBounds(r.pos) && TileAt(g, r.pos) != Wall
    ensures WithinOneStep(m.pos, r.pos)
    ensures var down := if target.y >= m.pos.y then Down else Up;
      var side := if target.x >= m.pos.x then Right else Left;
      var wallBeside := !CanStep(g, m.pos, Left) || !CanStep(g, m.pos, Right);
      var wallAbove := !CanStep(g, m.pos, Up) || !CanStep(g, m.pos, Down);
      r.pos == if wallBeside && CanStep(g, m.pos, down) then Step(m.pos, down)
               else if wallAbove && CanStep(g, m.pos, side) then Step(m.pos, side)
               else m.pos
  {
    NonWallIsInterior(g, m.pos);
    if TileAt(g, Step(m.pos, Right)) == Wall || TileAt(g, Step(m.pos, Left)) == Wall then
      var (m1, moved) := TryStep(g, m, if target.y - m.pos.y >= 0 then Down else Up);
      if moved then m1 else SidewaysDetour(g, m1, target)
    else SidewaysDetour(g, m, target)
  }

  /** Which way a detour goes: a vertical step happens only beside a wall on
      the left or right and heads for the target's row (down on a tie); a
      horizontal step happens only beside a wall above or below and heads for
      the target's column (right on a tie). */
  lemma DetourDirections(g: Grid, m: Entity, target: Point)
    requires BorderIsWall(g) && InBounds(m.pos) && TileAt(g, m.pos) != Wall
    requires m.pos == m.prev
    ensures var r := FindAnotherPath(g, m, target);
      r.pos.x == m.pos.x && r.pos != m.pos ==>
        && (TileAt(g, Step(m.pos, Left)) == Wall || TileAt(g, Step(m.pos, Right)) == Wall)
        && (r.pos.y > m.pos.y <==> target.y >= m.pos.y)
    ensures var r := FindAnotherPath(g, m, target);
      r.pos.y == m.pos.y && r.pos != m.pos ==>
        && (TileAt(g, Step(m.pos, Up)) == Wall || TileAt(g, Step(m.pos, Down)) == Wall)
        && (r.pos.x > m.pos.x <==> target.x >= m.pos.x)
  {
    NonWallIsInterior(g, m.pos);
  }

  /** Which player a monster goes for: the nearer present player by Manhattan
      distance, the first player on a tie; `None` when both are gone. */
  function ChooseTarget(m: Entity, p1: Option<Entity>, p2: Option<Entity>): (r: Option<PlayerNumber>)
    ensures r.None? <==> p1.None? && p2.None?
    ensures r == Some(FirstPlayer) ==> p1.Some?
    ensures r == Some(SecondPlayer) ==> p2.Some?
    ensures p1.Some? && p2.Some? ==>
      (r == Some(FirstPlayer) <==> Manhattan(m.pos, p1.value.pos) <= Manhattan(m.pos, p2.value.pos))
  {
    if p2.None? then
      if p1.Some? then Some(FirstPlayer) else None
    else if p1.Some? then
      var d1 := Abs(XDifference(m, p1.value)) + Abs(YDifference(m, p1.value));
      var d2 := Abs(XDifference(m, p2.value)) + Abs(YDifference(m, p2.value));
      if d1 <= d2 then Some(FirstPlayer)
      else if d1 >= d2 then Some(SecondPlayer)
      else None
    else Some(SecondPlayer)
  }

  /** Where a monster on `m.pos` ends when it pursues `t`: on the chase step
      when that is an open cell other than the target's; back where it
      started when the step reaches the target (the monster fights and is
      sent back); on the detour `findAnotherPath` finds when the step hits a
      wall. */
  ghost predicate PursuitEnd(g: Grid, m: Entity, t: Entity, end: Point)
    requires BorderIsWall(g) && InBounds(m.pos) && TileAt(g, m.pos) != Wall
  {
    var c := ChasePlayer(m, t).pos;
    && InBounds(c)
    && (c == t.pos ==> end == m.pos)
    && (c != t.pos && TileAt(g, c) != Wall ==> end == c)
    && (c != t.pos && TileAt(g, c) == Wall ==> end == FindAnotherPath(g, m.(prev := m.pos), t.pos).pos)
  }

  /** The chase of one target by a monster whose previous cell was just set:
      step towards it, fight if the step reached it, and if the cell reached is
      a wall go back and look for a detour.  The monster ends on a non-wall
      cell at most one step from where it started, and the target only
      loses health or shield. */
  function Pursue(g: Grid, m: Entity, t: Entity, rng: Rng): (r: (Entity, Entity, Rng))
    requires BorderIsWall(g) && InBounds(m.pos) && TileAt(g, m.pos) != Wall
    requires m.pos == m.prev
    requires m.currentMaxDamage > 0 && t.currentMaxDamage > 0
    ensures InBounds(r.0.pos) && TileAt(g, r.0.pos) != Wall
    ensures WithinOneStep(m.pos, r.0.pos)
    ensures r.0.prev == m.pos
    ensures SameExceptVitals(r.0.(pos := m.pos), m)
    ensures SameExceptVitals(r.1, t)
    ensures Valid(m) ==> Valid(r.0)
    ensures Valid(t) ==> Valid(r.1)
    ensures t.immortality != 0 ==> r.1 == t
    ensures PursuitEnd(g, m, t, r.0.pos)
    ensures r.2.stream == rng.stream
  {
    NonWallIsInterior(g, m.pos);
    var chased := ChasePlayer(m, t);
    assert InBounds(chased.pos) by {
      if chased.pos != m.pos {
        assert chased.pos == Step(m.pos, Left) || chased.pos == Step(m.pos, Right)
          || chased.pos == Step(m.pos, Up) || chased.pos == Step(m.pos, Down);
      }
    }
    var (m1, t1, rng1) := MonsterCombatDraw(chased, t, rng);
    var (m2, blocked) := Avoid(g, m1);
    var m3 := if blocked then FindAnotherPath(g, m2, t1.pos) else m2;
    (m3, t1, rng1)
  }

  /** `moveMonster`: record the previous cell and pursue the chosen target.
      Only the target player can be hurt; with no player left the monster
      stays put. */
  function MoveMonster(g: Grid, m: Entity, p1: Option<Entity>, p2: Option<Entity>, rng: Rng)
    : (r: (Entity, Option<Entity>, Option<Entity>, Rng))
    requires BorderIsWall(g) && InBounds(m.pos) && TileAt(g, m.pos) != Wall
    requires m.currentMaxDamage > 0
    requires p1.Some? ==> p1.value.currentMaxDamage > 0
    requires p2.Some? ==> p2.value.currentMaxDamage > 0
    ensures InBounds(r.0.pos) && TileAt(g, r.0.pos) != Wall
    ensures WithinOneStep(m.pos, r.0.pos)
    ensures r.0.prev == m.pos
    ensures SameExceptVitals(r.0.(pos := m.pos, prev := m.prev), m)
    ensures p1.None? && p2.None? ==> r.0.pos == m.pos && r.3 == rng
    ensures r.1.Some? <==> p1.Some?
    ensures r.2.Some? <==> p2.Some?
    ensures p1.Some? ==> SameExceptVitals(r.1.value, p1.value)
    ensures p2.Some? ==> SameExceptVitals(r.2.value, p2.value)
    ensures ChooseTarget(m, p1, p2) != Some(FirstPlayer) ==> r.1 == p1
    ensures ChooseTarget(m, p1, p2) != Some(SecondPlayer) ==> r.2 == p2
    ensures r.3.stream == rng.stream
  {
    var m0 := SetPreviousPosition(m);
    var target := ChooseTarget(m, p1, p2);
    if target.None? then (m0, p1, p2, rng)
    else if target.value == FirstPlayer then
      var r1 := Pursue(g, m0, p1.value, rng);
      (r1.0, Some(r1.1), p2, r1.2)
    else
      var r2 := Pursue(g, m0, p2.value, rng);
      (r2.0, p1, Some(r2.1), r2.2)
  }

  /** `moveMonster` heads for the chosen target: the monster ends where the
      pursuit of that player ends. */
  lemma MoveMonsterChases(g: Grid, m: Entity, p1: Option<Entity>, p2: Option<Entity>, rng: Rng)
    requires BorderIsWall(g) && InBounds(m.pos) && TileAt(g, m.pos) != Wall
    requires m.currentMaxDamage > 0
    requires p1.Some? ==> p1.value.currentMaxDamage > 0
    requires p2.Some? ==> p2.value.currentMaxDamage > 0
    ensures ChooseTarget(m, p1, p2) == Some(FirstPlayer) ==> PursuitEnd(g, m, p1.value, MoveMonster(g, m, p1, p2, rng).0.pos)
    ensures ChooseTarget(m, p1, p2) == Some(SecondPlayer) ==> PursuitEnd(g, m, p2.value, MoveMonster(g, m, p1, p2, rng).0.pos)
  {
    if ChooseTarget(m, p1, p2) == Some(FirstPlayer) {
      PursuitIgnoresPrevious(g, m, p1.value, MoveMonster(g, m, p1, p2, rng).0.pos);
    } else if ChooseTarget(m, p1, p2) == Some(SecondPlayer) {
      PursuitIgnoresPrevious(g, m, p2.value, MoveMonster(g, m, p1, p2, rng).0.pos);
    }
  }

  lemma PursuitIgnoresPrevious(g: Grid, m: Entity, t: Entity, end: Point)
    requires BorderIsWall(g) && InBounds(m.pos) && TileAt(g, m.pos) != Wall
    ensures PursuitEnd(g, SetPreviousPosition(m), t, end) <==> PursuitEnd(g, m, t, end)
  {
    assert ChasePlayer(SetPreviousPosition(m), t).pos == ChasePlayer(m, t).pos;
  }

  /** `moveMonster` keeps the monster and both players valid. */
  lemma MoveMonsterKeepsValid(g: Grid, m: Entity, p1: Option<Entity>, p2: Option<Entity>, rng: Rng)
    requires BorderIsWall(g) && InBounds(m.pos) && TileAt(g, m.pos) != Wall
    requires m.currentMaxDamage > 0
    requires p1.Some? ==> p1.value.currentMaxDamage > 0
    requires p2.Some? ==> p2.value.currentMaxDamage > 0
    ensures Valid(m) ==> Valid(MoveMonster(g, m, p1, p2, rng).0)
    ensures PlayerValid(p1) ==> PlayerValid(MoveMonster(g, m, p1, p2, rng).1)
    ensures PlayerValid(p2) ==> PlayerValid(MoveMonster(g, m, p1, p2, rng).2)
  {
    var m0 := SetPreviousPosition(m);
    var target := ChooseTarget(m, p1, p2);
    if target == Some(FirstPlayer) {
      var r1 := Pursue(g, m0, p1.value, rng);
      assert MoveMonster(g, m, p1, p2, rng) == (r1.0, Some(r1.1), p2, r1.2);
    } else if target == Some(SecondPlayer) {
      var r2 := Pursue(g, m0, p2.value, rng);
      assert MoveMonster(g, m, p1, p2, rng) == (r2.0, p1, Some(r2.1), r2.2);
    }
  }

  /** The check `moveMonsters` makes for slot `j` after moving slot `i`: with
      a present player and a depth above one, sharing a cell with that player
      or with monster `j` sends monster `i` back. */
  predicate Clashes(c: Point, ms: seq<Option<Entity>>, i: int, j: int, depth: int, p: Option<Entity>) {
    && j != i && depth > 1 && Occupied(ms, j) && p.Some?
    && (c == ms[j].value.pos || c == p.value.pos)
  }

  /** The inner loop of `moveMonsters` from slot `j` on, for the monster `m`
      just moved out of slot `i`.  Once sent back it stays on its previous
      cell, so it ends there exactly when some later check clashes. */
  function SettleFrom(m: Entity, ms: seq<Option<Entity>>, i: int, j: nat, depth: int, p1: Option<Entity>, p2: Option<Entity>)
    : (r: Entity)
    requires j <= |ms|
    ensures r.prev == m.prev && SameStats(r, m)
    ensures r.pos == m.pos || r.pos == m.prev
    ensures (exists k :: j <= k < |ms| && (Clashes(m.pos, ms, i, k, depth, p1) || Clashes(m.pos, ms, i, k, depth, p2))) ==>
      r.pos == m.prev
    ensures (forall k :: j <= k < |ms| ==> !Clashes(m.pos, ms, i, k, depth, p1) && !Clashes(m.pos, ms, i, k, depth, p2)) ==>
      r == m
    decreases |ms| - j
  {
    if j == |ms| then m
    else
      var m1 := if Clashes(m.pos, ms, i, j, depth, p1) then RevertPosition(m) else m;
      var m2 := if Clashes(m1.pos, ms, i, j, depth, p2) then RevertPosition(m1) else m1;
      SettleFrom(m2, ms, i, j + 1, depth, p1, p2)
  }

  /** Every live monster stands on a non-wall cell of `g`. */
  ghost predicate MonstersOffWalls(g: Grid, ms: seq<Option<Entity>>) {
    forall j :: 0 <= j < |ms| && ms[j].Some? ==> InBounds(ms[j].value.pos) && TileAt(g, ms[j].value.pos) != Wall
  }

  /** No two live monsters share a cell. */
  ghost predicate LiveDistinct(ms: seq<Option<Entity>>) {
    forall a, b :: Occupied(ms, a) && Occupied(ms, b) && a != b ==> ms[a].value.pos != ms[b].value.pos
  }

  /** Each slot moved at most one step and changed nothing but its cells and vitals. */
  ghost predicate MovedAtMostOneStep(ms: seq<Option<Entity>>, ms': seq<Option<Entity>>) {
    && |ms'| == |ms|
    && forall j :: 0 <= j < |ms| ==>
      && (ms'[j].Some? <==> ms[j].Some?)
      && (ms[j].Some? ==>
        && WithinOneStep(ms[j].value.pos, ms'[j].value.pos)
        && SameExceptVitals(ms'[j].value.(pos := ms[j].value.pos, prev := ms[j].value.prev), ms[j].value))
  }

  /** A player slot after monsters moved: present exactly when before, on the
      same cell, with only health and shield possibly changed. */
  ghost predicate PlayerKept(p: Option<Entity>, p': Option<Entity>) {
    && (p'.Some? <==> p.Some?)
    && (p.Some? ==> SameExceptVitals(p'.value, p.value))
  }

  ghost predicate PlayerValid(p: Option<Entity>) {
    match p
    case None => true
    case Some(e) => Valid(e)
  }

  /** Settling keeps live monsters apart: the settled monster is either back
      on its own (previously unshared) cell or on a cell no other live
      monster occupies. */
  lemma SettleKeepsDistinct(ms: seq<Option<Entity>>, i: nat, moved: Entity, depth: int, p1: Option<Entity>, p2: Option<Entity>)
    requires i < |ms| && ms[i].Some? && moved.prev == ms[i].value.pos
    requires depth > 1 && (p1.Some? || p2.Some?) && LiveDistinct(ms)
    ensures LiveDistinct(ms[i := Some(SettleFrom(moved, ms, i, 0, depth, p1, p2))])
  {
    var settled := SettleFrom(moved, ms, i, 0, depth, p1, p2);
    var ms' := ms[i := Some(settled)];
    forall a, b | Occupied(ms', a) && Occupied(ms', b) && a != b
      ensures ms'[a].value.pos != ms'[b].value.pos
    {
      if a == i || b == i {
        var other := if a == i then b else a;
        if settled.pos != moved.prev {
          assert !Clashes(moved.pos, ms, i, other, depth, p1) && !Clashes(moved.pos, ms, i, other, depth, p2);
        }
      }
    }
  }

  /** One iteration of the outer loop of `moveMonsters`, for the live slot `i`. */
  function MoveSlot(g: Grid, depth: int, ms: seq<Option<Entity>>, i: nat, p1: Option<Entity>, p2: Option<Entity>, rng: Rng)
    : (r: (seq<Option<Entity>>, Option<Entity>, Option<Entity>, Rng))
    requires BorderIsWall(g) && i < |ms| && ms[i].Some?
    requires MonstersOffWalls(g, ms) && MonstersArmed(ms)
    requires p1.Some? ==> p1.value.currentMaxDamage > 0
    requires p2.Some? ==> p2.value.currentMaxDamage > 0
    ensures |r.0| == |ms| && forall j :: 0 <= j < |ms| && j != i ==> r.0[j] == ms[j]
    ensures r.0[i].Some?
    ensures WithinOneStep(ms[i].value.pos, r.0[i].value.pos)
    ensures SameExceptVitals(r.0[i].value.(pos := ms[i].value.pos, prev := ms[i].value.prev), ms[i].value)
    ensures MonstersOffWalls(g, r.0) && MonstersArmed(r.0)
    ensures PlayerKept(p1, r.1) && PlayerKept(p2, r.2)
    ensures depth > 1 && (p1.Some? || p2.Some?) && LiveDistinct(ms) ==> LiveDistinct(r.0)
    ensures r.3.stream == rng.stream
  {
    var m := ms[i].value;
    var (moved, p1', p2', rng') := MoveMonster(g, m, p1, p2, rng);
    var settled := SettleFrom(moved, ms, i, 0, depth, p1', p2');
    var ms' := ms[i := Some(settled)];
    assert depth > 1 && (p1.Some? || p2.Some?) && LiveDistinct(ms) ==> LiveDistinct(ms') by {
      if depth > 1 && (p1.Some? || p2.Some?) && LiveDistinct(ms) {
        SettleKeepsDistinct(ms, i, moved, depth, p1', p2');
      }
    }
    (ms', p1', p2', rng')
  }

  /** The outer loop of `moveMonsters` from slot `i` on. */
  function MoveMonstersFrom(g: Grid, depth: int, ms: seq<Option<Entity>>, i: nat, p1: Option<Entity>, p2: Option<Entity>, rng: Rng)
    : (r: (seq<Option<Entity>>, Option<Entity>, Option<Entity>, Rng))
    requires BorderIsWall(g) && i <= |ms|
    requires MonstersOffWalls(g, ms) && MonstersArmed(ms)
    requires p1.Some? ==> p1.value.currentMaxDamage > 0
    requires p2.Some? ==> p2.value.currentMaxDamage > 0
    ensures |r.0| == |ms|
    ensures MonstersOffWalls(g, r.0) && MonstersArmed(r.0)
    ensures PlayerKept(p1, r.1) && PlayerKept(p2, r.2)
    ensures depth > 1 && (p1.Some? || p2.Some?) && LiveDistinct(ms) ==> LiveDistinct(r.0)
    ensures r.3.stream == rng.stream
    decreases |ms| - i
  {
    if i == |ms| then (ms, p1, p2, rng)
    else if ms[i].None? then MoveMonstersFrom(g, depth, ms, i + 1, p1, p2, rng)
    else
      var step := MoveSlot(g, depth, ms, i, p1, p2, rng);
      MoveMonstersFrom(g, depth, step.0, i + 1, step.1, step.2, step.3)
  }

  /** The outer loop from slot `i` on leaves the slots before `i` alone. */
  lemma {:induction false} MoveMonstersFromKeepsPrefix(g: Grid, depth: int, ms: seq<Option<Entity>>, i: nat,
                                                       p1: Option<Entity>, p2: Option<Entity>, rng: Rng)
    requires BorderIsWall(g) && i <= |ms|
    requires MonstersOffWalls(g, ms) && MonstersArmed(ms)
    requires p1.Some? ==> p1.value.currentMaxDamage > 0
    requires p2.Some? ==> p2.value.currentMaxDamage > 0
    ensures forall j :: 0 <= j < i ==> MoveMonstersFrom(g, depth, ms, i, p1, p2, rng).0[j] == ms[j]
    decreases |ms| - i
  {
    if i == |ms| {
    } else if ms[i].None? {
      MoveMonstersFromKeepsPrefix(g, depth, ms, i + 1, p1, p2, rng);
    } else {
      var step := MoveSlot(g, depth, ms, i, p1, p2, rng);
      MoveMonstersFromKeepsPrefix(g, depth, step.0, i + 1, step.1, step.2, step.3);
    }
  }

  /** The outer loop from slot `i` on moves every live monster at most one step. */
  lemma {:induction false} MoveMonstersFromSteps(g: Grid, depth: int, ms: seq<Option<Entity>>, i: nat,
                                                 p1: Option<Entity>, p2: Option<Entity>, rng: Rng)
    requires BorderIsWall(g) && i <= |ms|
    requires MonstersOffWalls(g, ms) && MonstersArmed(ms)
    requires p1.Some? ==> p1.value.currentMaxDamage > 0
    requires p2.Some? ==> p2.value.currentMaxDamage > 0
    ensures MovedAtMostOneStep(ms, MoveMonstersFrom(g, depth, ms, i, p1, p2, rng).0)
    decreases |ms| - i
  {
    if i == |ms| {
    } else if ms[i].None? {
      MoveMonstersFromSteps(g, depth, ms, i + 1, p1, p2, rng);
    } else {
      var step := MoveSlot(g, depth, ms, i, p1, p2, rng);
      var mid := step.0;
      MoveMonstersFromSteps(g, depth, mid, i + 1, step.1, step.2, step.3);
      MoveMonstersFromKeepsPrefix(g, depth, mid, i + 1, step.1, step.2, step.3);
      var r := MoveMonstersFrom(g, depth, mid, i + 1, step.1, step.2, step.3).0;
      StepsCompose(ms, mid, r, i);
    }
  }

  /** Moving slot `i` one step and then the slots after it one step each
      moves every slot at most one step. */
  lemma StepsCompose(ms: seq<Option<Entity>>, mid: seq<Option<Entity>>, r: seq<Option<Entity>>, i: nat)
    requires i < |ms| == |mid| && ms[i].Some? && mid[i].Some?
    requires forall j :: 0 <= j < |ms| && j != i ==> mid[j] == ms[j]
    requires WithinOneStep(ms[i].value.pos, mid[i].value.pos)
    requires SameExceptVitals(mid[i].value.(pos := ms[i].value.pos, prev := ms[i].value.prev), ms[i].value)
    requires MovedAtMostOneStep(mid, r)
    requires r[i] == mid[i]
    ensures MovedAtMostOneStep(ms, r)
  {
  }

  /** One iteration of the outer loop keeps monsters and players valid. */
  lemma MoveSlotKeepsValid(g: Grid, depth: int, ms: seq<Option<Entity>>, i: nat, p1: Option<Entity>, p2: Option<Entity>, rng: Rng)
    requires BorderIsWall(g) && i < |ms| && ms[i].Some?
    requires MonstersOffWalls(g, ms) && MonstersArmed(ms)
    requires p1.Some? ==> p1.value.currentMaxDamage > 0
    requires p2.Some? ==> p2.value.currentMaxDamage > 0
    ensures MonstersValid(ms) ==> MonstersValid(MoveSlot(g, depth, ms, i, p1, p2, rng).0)
    ensures PlayerValid(p1) ==> PlayerValid(MoveSlot(g, depth, ms, i, p1, p2, rng).1)
    ensures PlayerValid(p2) ==> PlayerValid(MoveSlot(g, depth, ms, i, p1, p2, rng).2)
  {
    MoveMonsterKeepsValid(g, ms[i].value, p1, p2, rng);
  }

  /** The outer loop from slot `i` on keeps the monsters valid. */
  lemma {:induction false} MoveMonstersFromKeepsMonstersValid(g: Grid, depth: int, ms: seq<Option<Entity>>, i: nat,
                                                             p1: Option<Entity>, p2: Option<Entity>, rng: Rng)
    requires BorderIsWall(g) && i <= |ms|
    requires MonstersOffWalls(g, ms) && MonstersArmed(ms)
    requires p1.Some? ==> p1.value.currentMaxDamage > 0
    requires p2.Some? ==> p2.value.currentMaxDamage > 0
    ensures MonstersValid(ms) ==> MonstersValid(MoveMonstersFrom(g, depth, ms, i, p1, p2, rng).0)
    decreases |ms| - i
  {
    if i == |ms| {
    } else if ms[i].None? {
      MoveMonstersFromKeepsMonstersValid(g, depth, ms, i + 1, p1, p2, rng);
    } else {
      MoveSlotKeepsValid(g, depth, ms, i, p1, p2, rng);
      var step := MoveSlot(g, depth, ms, i, p1, p2, rng);
      MoveMonstersFromKeepsMonstersValid(g, depth, step.0, i + 1, step.1, step.2, step.3);
    }
  }

  /** The outer loop from slot `i` on keeps a valid player valid. */
  lemma {:induction false} MoveMonstersFromKeepsPlayersValid(g: Grid, depth: int, ms: seq<Option<Entity>>, i: nat,
                                                            p1: Option<Entity>, p2: Option<Entity>, rng: Rng)
    requires BorderIsWall(g) && i <= |ms|
    requires MonstersOffWalls(g, ms) && MonstersArmed(ms)
    requires p1.Some? ==> p1.value.currentMaxDamage > 0
    requires p2.Some? ==> p2.value.currentMaxDamage > 0
    ensures PlayerValid(p1) ==> PlayerValid(MoveMonstersFrom(g, depth, ms, i, p1, p2, rng).1)
    ensures PlayerValid(p2) ==> PlayerValid(MoveMonstersFrom(g, depth, ms, i, p1, p2, rng).2)
    decreases |ms| - i
  {
    if i == |ms| {
    } else if ms[i].None? {
      MoveMonstersFromKeepsPlayersValid(g, depth, ms, i + 1, p1, p2, rng);
    } else {
      MoveSlotKeepsValid(g, depth, ms, i, p1, p2, rng);
      var step := MoveSlot(g, depth, ms, i, p1, p2, rng);
      MoveMonstersFromKeepsPlayersValid(g, depth, step.0, i + 1, step.1, step.2, step.3);
    }
  }

  /** `moveMonsters`: every live monster moves at most one step onto a
      non-wall cell, the players stay where they are, and on a level below
      the first, with a player present, no two live monsters end on one
      cell. */
  function MoveMonsters(g: Grid, depth: int, ms: seq<Option<Entity>>, p1: Option<Entity>, p2: Option<Entity>, rng: Rng)
    : (r: (seq<Option<Entity>>, Option<Entity>, Option<Entity>, Rng))
    requires BorderIsWall(g)
    requires MonstersOffWalls(g, ms) && MonstersArmed(ms)
    requires p1.Some? ==> p1.value.currentMaxDamage > 0
    requires p2.Some? ==> p2.value.currentMaxDamage > 0
    ensures MovedAtMostOneStep(ms, r.0)
    ensures MonstersOffWalls(g, r.0) && MonstersArmed(r.0)
    ensures PlayerKept(p1, r.1) && PlayerKept(p2, r.2)
    ensures MonstersValid(ms) ==> MonstersValid(r.0)
    ensures PlayerValid(p1) ==> PlayerValid(r.1)
    ensures PlayerValid(p2) ==> PlayerValid(r.2)
    ensures depth > 1 && (p1.Some? || p2.Some?) && LiveDistinct(ms) ==> LiveDistinct(r.0)
    ensures r.3.stream == rng.stream
  {
    MoveMonstersFromSteps(g, depth, ms, 0, p1, p2, rng);
    MoveMonstersFromKeepsMonstersValid(g, depth, ms, 0, p1, p2, rng);
    MoveMonstersFromKeepsPlayersValid(g, depth, ms, 0, p1, p2, rng);
    MoveMonstersFrom(g, depth, ms, 0, p1, p2, rng)
  }
}
