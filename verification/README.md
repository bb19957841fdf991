# DungeonGame engine in Dafny

A functional model of the rules engine of DungeonGame, a two-player,
turn-based roguelike on a 25 x 18 tile grid (`GameEngine.java` and
`Entity.java`). Java's mutable objects become immutable records: an
`Entity` for players and monsters, a `GameState` for the engine's fields
(depth, tiles, spawn pool, two player slots, monster array) and a `Grid`
indexed `[x][y]` like the Java `tiles` array. Every mutating method
becomes a function or method that returns the updated values.

The engine's single `java.util.Random` becomes an explicit stream value,
`Rng`:

- Leaf operations take each draw as a parameter. Their preconditions are
  the ranges `nextInt` guarantees.
- The composite operations read draws from the stream in the source's order
  and return the stream advanced past them. These are starting a game,
  descending, a player move, the monster phase and a turn.
- An unchecked exception of the source becomes a `Crash` result. Two are
  modelled: `nextInt(0)` on an empty spawn pool, and a store past the end of
  the monster array.

Modules follow the source's structure:

| module | file | covers |
|---|---|---|
| `Util` | util.dfy | optional values, results, Java integer division |
| `Tiles` | tiles.dfy | tiles, coordinates and directions |
| `Entities` | entity.dfy | `Entity.java` |
| `Random` | random.dfy | the random stream |
| `Level` | level.dfy | level generation, the spawn pool, stairs, chests, monsters and players |
| `Loot` | loot.dfy | `getTreasure` |
| `Combat` | combat.dfy | hits and collisions |
| `MonsterAI` | monster_ai.dfy | monster movement |
| `State` | state.dfy | the engine state and its invariant |
| `Engine` | engine.dfy | `startGame`, `movePlayer*`, `doTurn`, `descendLevel` and `spawnSecondPlayer` on the stream |

The central invariant is `State.Consistent`:

- the border is wall;
- the spawn pool is a set of distinct floor cells;
- players and monsters are valid entities off the walls;
- every entity can deal damage.

Every public operation keeps it: `StartGame` establishes it, and
`MovePlayer`, `DoTurn`, `DescendLevel` and `SpawnSecondPlayerInto`
preserve it.

Behaviour of the code worth noting, which the model keeps:

- **Wooden chest band.** The wooden branch of `spawnChest` tests
  `chance <= 0.035 && chance > 0.015` (GameEngine.java:242-243), and its
  comment at lines 240-241 says the band should be as wide as
  `WOODEN_CHEST_CHANCE`, 0.02. The sapphire branch before it already takes
  (0.01, 0.025], so the wooden band is (0.025, 0.035], only 0.01 wide.
- **Order inside `doTurn`.** It removes dead monsters *before* moving the
  monsters (GameEngine.java:953-954). A monster killed during the monster
  phase therefore keeps its slot until the next turn.
- **Player moves.** A player move is a separate call (`movePlayer*`), and
  `doTurn` is another. The model keeps the two apart: `MovePlayer` and
  `DoTurn`.
- **`startGame` and the second player.** `startGame` leaves the
  second-player slot as it is. Every call site reaches it with that slot
  null: the constructor, and the restart after both players died. So
  `StartGame` starts with the slot empty.

## Model

| member | source | states |
|---|---|---|
| Entities.NewPlayer | src/uk/ac/bradford/dungeongame/Entity.java:109-119 | a new player has full health, current damage equal to its base damage, zero shield and immortality, the given slot number and cell, and is valid |
| Entities.NewMonster | src/uk/ac/bradford/dungeongame/Entity.java:131-139 | a new monster has no player number, full health, current damage equal to its base damage, zero shield and immortality, and is valid |
| Entities.SetPreviousPosition | src/uk/ac/bradford/dungeongame/Entity.java:173-175 | the previous cell becomes the current cell; position and stats are kept |
| Entities.SetPosition | src/uk/ac/bradford/dungeongame/Entity.java:238-241 | only the current cell changes; the previous cell and all stats are kept |
| Entities.RevertPosition | src/uk/ac/bradford/dungeongame/GameEngine.java:606 | the rollback idiom puts the entity back on its previous cell with stats unchanged |
| Entities.RevertRestoresPreMoveCell | src/uk/ac/bradford/dungeongame/Entity.java:173-241 | recording the previous cell, moving anywhere and rolling back restores the starting cell and all stats |
| Entities.XDifference | src/uk/ac/bradford/dungeongame/Entity.java:192-207 | adding the x difference to the entity's x gives the target's x |
| Entities.YDifference | src/uk/ac/bradford/dungeongame/Entity.java:215-230 | adding the y difference to the entity's y gives the target's y |
| Entities.AddShield | src/uk/ac/bradford/dungeongame/Entity.java:282-284 | the shield grows by half the health surplus, rounded toward zero; nothing else changes |
| Entities.ChangeHealth | src/uk/ac/bradford/dungeongame/Entity.java:252-258 | without overflow, health drops by the change and the shield is kept; with overflow, health is clamped to the maximum and half the surplus, truncated, joins the shield; health never ends above the maximum; only health and shield change |
| Entities.HealthNeverExceedsMaximum | src/uk/ac/bradford/dungeongame/Entity.java:252-258 | health changes, shield wear (non-negative damage) and the per-move update keep the stat invariant, including health at most maximum |
| Entities.RemoveShield | src/uk/ac/bradford/dungeongame/Entity.java:300-305 | the shield becomes max(0, shield - damage); health is untouched and excess damage is dropped |
| Entities.ChangeCurrentMaxDamage | src/uk/ac/bradford/dungeongame/Entity.java:331-333 | current maximum damage grows by the boost and nothing else changes; a non-negative boost keeps the entity valid |
| Entities.ChangeImmortality | src/uk/ac/bradford/dungeongame/Entity.java:350-352 | immortality grows by the boost and nothing else changes; a non-negative boost keeps the entity valid |
| Entities.StatsUpdater | src/uk/ac/bradford/dungeongame/Entity.java:376-386 | a damage boost drops by 2 but never below the base damage; a positive immortality counter drops by exactly 1, otherwise stays; nothing else changes; validity is kept |
| Entities.DecayConverges | src/uk/ac/bradford/dungeongame/Entity.java:376-386 | after n updates the damage is max(base, current - 2n), immortality is max(0, immortality - n), health and shield are untouched, and the entity stays valid |
| Tiles.SetTile | src/uk/ac/bradford/dungeongame/GameEngine.java:214 | the written cell holds the new tile and every other cell keeps its tile |
| Tiles.NonWallIsInterior | src/uk/ac/bradford/dungeongame/GameEngine.java:340-341 | on a level walled at the border, every non-wall cell is interior, so its four neighbour lookups stay inside the array |
| Tiles.Step | src/uk/ac/bradford/dungeongame/GameEngine.java:442-443 | a step moves exactly one cell orthogonally and stays in bounds from an interior cell |
| Random.NextInt | src/uk/ac/bradford/dungeongame/GameEngine.java:212 | a `nextInt(bound)` draw is below its bound and consumes exactly one stream position |
| Random.DoubleAt | src/uk/ac/bradford/dungeongame/GameEngine.java:183 | a `nextDouble()` draw lies in [0, 1) |
| Level.GenerateLevel | src/uk/ac/bradford/dungeongame/GameEngine.java:177-206 | the border is entirely wall, each interior cell is a wall exactly when its draw said so, and every cell is wall or floor |
| Level.OpenCellIffSpawnPoint | src/uk/ac/bradford/dungeongame/GameEngine.java:338-341 | the scan's cell test (floor, no wall right, left, below or above) holds exactly at spawn points |
| Level.ScanColumn | src/uk/ac/bradford/dungeongame/GameEngine.java:337-346 | the inner scan collects exactly the spawn points of its column from row y on, in increasing row order |
| Level.ScanColumns | src/uk/ac/bradford/dungeongame/GameEngine.java:336-347 | the outer scan collects exactly the spawn points from column x on, in column-major order |
| Level.GetSpawns | src/uk/ac/bradford/dungeongame/GameEngine.java:331-350 | the pool holds exactly the spawn points, each once, in scan order, all interior floor cells |
| Level.SpawnPoolSize | src/uk/ac/bradford/dungeongame/GameEngine.java:331-350 | the pool's length is the number of spawn points of the level |
| Level.TakeSpawn | src/uk/ac/bradford/dungeongame/GameEngine.java:212 | `spawns.remove(k)` returns the k-th point and a pool one shorter that holds every other point; a distinct pool stays distinct and loses that point |
| Level.IndexOf | src/uk/ac/bradford/dungeongame/GameEngine.java:230 | `spawns.remove(Object)` removes the first occurrence of the point |
| Level.PlaceOnPoolPoint | src/uk/ac/bradford/dungeongame/GameEngine.java:211-215 | the drawn pool point gets the tile and leaves the pool; no other cell changes; a pool of distinct floor cells stays one |
| Level.SpawnStairs | src/uk/ac/bradford/dungeongame/GameEngine.java:211-215 | the drawn pool point becomes stairs and leaves the pool; no other cell changes; a pool of distinct floor cells stays one |
| Level.ChestBand | src/uk/ac/bradford/dungeongame/GameEngine.java:227-247 | ruby exactly when the chance is at most 0.01, sapphire in (0.01, 0.025], wooden in (0.025, 0.035], none above |
| Level.FirstHit | src/uk/ac/bradford/dungeongame/GameEngine.java:224-248 | the loop breaks at the first trial whose chance falls in a band; every earlier trial missed, and with no hit every trial missed |
| Level.SpawnChest | src/uk/ac/bradford/dungeongame/GameEngine.java:221-249 | at most depth*8 trials and at most one chest; the chest's tier is the hitting trial's band and it sits on that trial's pool point, which leaves the pool; no other cell changes; with no hit nothing changes |
| Level.JavaIntOf | src/uk/ac/bradford/dungeongame/GameEngine.java:377-378 | the `(int)` cast: below `Integer.MAX_VALUE` the result is the largest integer not above the value; at or above it the result is exactly `Integer.MAX_VALUE` |
| Level.MonsterHealth | src/uk/ac/bradford/dungeongame/GameEngine.java:377 | monster health at a depth is at least 50 and fits in an int |
| Level.MonsterDamage | src/uk/ac/bradford/dungeongame/GameEngine.java:378 | monster damage at a depth is at least 20 and fits in an int |
| Level.MonsterStatsGrow | src/uk/ac/bradford/dungeongame/GameEngine.java:377-378 | deeper levels never have weaker monsters |
| Level.MonsterCount | src/uk/ac/bradford/dungeongame/GameEngine.java:370-374 | the monster array has min(depth, 40) slots |
| Level.PlacedAreFresh | src/uk/ac/bradford/dungeongame/GameEngine.java:381-384 | every monster the loop places is a new monster with the level's health and damage |
| Level.PlacedPartitionPool | src/uk/ac/bradford/dungeongame/GameEngine.java:381-384 | the placed monsters' cells and the remaining pool together are exactly the old pool |
| Level.PlacedApart | src/uk/ac/bradford/dungeongame/GameEngine.java:381-384 | from a distinct pool no two monsters share a cell, each stands on a former pool point, and none of those points stays in the pool |
| Level.SpawnMonsters | src/uk/ac/bradford/dungeongame/GameEngine.java:365-388 | min(depth, 40) filled slots, each a valid full-health monster with the level's damage on its own former pool point; the pool shrinks by exactly that many |
| Level.FillSlotsAsWritten | src/uk/ac/bradford/dungeongame/GameEngine.java:381-384 | the loop as written keeps the array length when it does not throw |
| Level.FillSlotsOverrun | src/uk/ac/bradford/dungeongame/GameEngine.java:381-384 | the loop as written throws exactly when it runs more iterations than the array has slots |
| Level.SpawnMonstersAsWrittenOverruns | src/uk/ac/bradford/dungeongame/GameEngine.java:365-388 | `spawnMonsters` as written throws exactly at depths above 40 |
| Level.FillSlotsAgrees | src/uk/ac/bradford/dungeongame/GameEngine.java:381-384 | within the array, the loop as written fills slot i + j with the j-th placed monster and leaves the pool the bounded loop leaves |
| Level.SpawnMonstersAgreesUpToForty | src/uk/ac/bradford/dungeongame/GameEngine.java:365-388 | up to depth 40 the source's `spawnMonsters` and the bounded one give the same array and pool |
| Level.SpawnPlayer | src/uk/ac/bradford/dungeongame/GameEngine.java:399-406 | the first player has 400 health and 50 damage, no shield or immortality, and stands on the drawn pool point, which leaves the pool |
| Level.SpawnSecondPlayer | src/uk/ac/bradford/dungeongame/GameEngine.java:417-424 | the second player has 250 health and 80 damage, no shield or immortality, and stands on the drawn pool point, which leaves the pool |
| Level.PlacePlayer | src/uk/ac/bradford/dungeongame/GameEngine.java:936-941 | a present player moves to the drawn pool point, which leaves the pool, keeping stats and previous cell; an absent player changes nothing |
| Loot.GetTreasure | src/uk/ac/bradford/dungeongame/GameEngine.java:255-313 | on a chest the tile becomes floor and exactly one reward applies: a heal in the tier's interval, a damage boost in [0,20), exactly 20 or exactly 30, or +3/+6/+9 immortality; no other cell changes; off a chest nothing changes |
| Loot.TreasureKeepsValid | src/uk/ac/bradford/dungeongame/GameEngine.java:255-313 | opening a chest keeps a valid player valid and in place |
| Combat.HitMonster | src/uk/ac/bradford/dungeongame/GameEngine.java:618-622 | the monster loses a draw in [0, attacker's maximum damage) of health; nothing but vitals changes; validity is kept |
| Combat.HitPlayer | src/uk/ac/bradford/dungeongame/GameEngine.java:853-867 | an immortal player is untouched; otherwise a positive shield alone absorbs the draw, clamped at zero, or else health alone drops by it; nothing but vitals changes |
| Combat.PlayerOnPlayer | src/uk/ac/bradford/dungeongame/GameEngine.java:603-609 | the mover is sent back exactly when it landed on the other player's cell; stats never change |
| Combat.MonsterCombat | src/uk/ac/bradford/dungeongame/GameEngine.java:632-640 | on a collision the monster goes back to its previous cell, hits the player, then is hit; otherwise nothing happens |
| Combat.MonsterCombatDraw | src/uk/ac/bradford/dungeongame/GameEngine.java:632-640 | draws happen only on a collision; on a collision the monster goes back, a mortal player takes `hitPlayer` with some roll below the monster's damage, and the monster takes `hitMonster` from the hit player with some roll below the player's damage; an immortal player is untouched |
| Combat.Exchange | src/uk/ac/bradford/dungeongame/GameEngine.java:879-883 | one collision sends the mover back, the monster takes `hitMonster` with some roll below the mover's damage, and a mortal mover takes `hitPlayer` from that monster with some roll below the monster's damage; an immortal mover is only sent back |
| Combat.PlayerCombatFrom | src/uk/ac/bradford/dungeongame/GameEngine.java:876-887 | the loop touches only monster vitals, ends the mover on its landing or previous cell, and does nothing when no monster is on the landing cell |
| Combat.PlayerCombatKeepsValid | src/uk/ac/bradford/dungeongame/GameEngine.java:876-887 | the combat loop keeps the mover and the monsters valid |
| Combat.PlayerCombatSendsBack | src/uk/ac/bradford/dungeongame/GameEngine.java:879-880 | any monster on the landing cell sends the mover back; an immortal mover keeps health and shield |
| Combat.PlayerCombatFirstHit | src/uk/ac/bradford/dungeongame/GameEngine.java:879-881 | the first monster on the landing cell loses less than the mover's maximum damage |
| Combat.HitHere | src/uk/ac/bradford/dungeongame/GameEngine.java:879-881 | a monster on the landing cell at the current slot loses less than the mover's maximum damage over the rest of the loop |
| Combat.PlayerCombatSparesOthers | src/uk/ac/bradford/dungeongame/GameEngine.java:876-887 | monsters on neither the landing nor the previous cell are untouched |
| Combat.PlayerCombat | src/uk/ac/bradford/dungeongame/GameEngine.java:876-887 | the mover ends on its landing or previous cell and is sent back if a monster is there; the first such monster takes a hit in [0, mover's damage); a mortal mover is hit back by it when no later monster stands on its previous cell; others are untouched; without a collision nothing happens and nothing is drawn |
| Combat.PlayerCombatHitBack | src/uk/ac/bradford/dungeongame/GameEngine.java:876-887 | from any start index, a mortal mover that collides with the first monster on its landing cell ends as `hitPlayer` of that monster with some roll below its damage, when no later monster is on its previous cell |
| Combat.HitBackHere | src/uk/ac/bradford/dungeongame/GameEngine.java:879-883 | a collision at the current index, with no later monster on the previous cell, leaves the mortal mover as that one hit back |
| MonsterAI.ChasePlayer | src/uk/ac/bradford/dungeongame/GameEngine.java:687-711 | one step along the farther axis (x on a tie) that cuts the Manhattan distance to the target by exactly 1, or no step when on the target; never more than one cell |
| MonsterAI.Avoid | src/uk/ac/bradford/dungeongame/GameEngine.java:721-727 | reports a wall exactly when the monster stands on one, and then sends it back; otherwise nothing changes |
| MonsterAI.TryStep | src/uk/ac/bradford/dungeongame/GameEngine.java:747-753 | a detour step sticks exactly when its cell is not a wall; otherwise the monster is where it was |
| MonsterAI.SidewaysDetour | src/uk/ac/bradford/dungeongame/GameEngine.java:771-786 | the monster steps towards the target's column exactly when there is a wall above or below it and that side cell is free; otherwise it stays |
| MonsterAI.FindAnotherPath | src/uk/ac/bradford/dungeongame/GameEngine.java:739-788 | the detour ends exactly at: the vertical step towards the target when a wall is beside and that cell is free; else the sideways step towards the target when a wall is above or below and that cell is free; else the start; stats kept |
| MonsterAI.DetourDirections | src/uk/ac/bradford/dungeongame/GameEngine.java:744-786 | a vertical detour needs a wall left or right and heads for the target's row (down on a tie); a horizontal one needs a wall above or below and heads for the target's column (right on a tie) |
| MonsterAI.ChooseTarget | src/uk/ac/bradford/dungeongame/GameEngine.java:803-841 | with both players present the first is chased exactly when its Manhattan distance is at most the second's; otherwise the present one; nobody when both are gone |
| MonsterAI.Pursue | src/uk/ac/bradford/dungeongame/GameEngine.java:805-810 | the monster stays when the chase step reaches the target, takes the chase step when it is free, and otherwise ends where `findAnotherPath` puts it; the target only loses vitals; an immortal target is untouched |
| MonsterAI.MoveMonster | src/uk/ac/bradford/dungeongame/GameEngine.java:798-843 | the monster ends off the walls at most one step from its start, which becomes its previous cell; only the chosen target can be hurt; with no player it stays put |
| MonsterAI.MoveMonsterChases | src/uk/ac/bradford/dungeongame/GameEngine.java:798-843 | when a player is chosen as target, the monster ends where the pursuit of that player puts it |
| MonsterAI.PursuitIgnoresPrevious | src/uk/ac/bradford/dungeongame/GameEngine.java:798-810 | the pursuit does not depend on the monster's previous cell, so recording it first changes nothing |
| MonsterAI.MoveMonsterKeepsValid | src/uk/ac/bradford/dungeongame/GameEngine.java:798-843 | moving a monster keeps it and both players valid |
| MonsterAI.SettleFrom | src/uk/ac/bradford/dungeongame/GameEngine.java:653-676 | the moved monster ends on its previous cell exactly when some check clashes (another monster or a present player on its cell, depth above 1), otherwise where it moved |
| MonsterAI.SettleKeepsDistinct | src/uk/ac/bradford/dungeongame/GameEngine.java:653-676 | settling keeps live monsters on pairwise different cells |
| MonsterAI.MoveSlot | src/uk/ac/bradford/dungeongame/GameEngine.java:651-676 | one outer iteration changes only slot i, moving it at most one step and otherwise only in vitals; monsters stay off walls, players change only in vitals, and live monsters stay apart at depth above 1 with a player present |
| MonsterAI.MoveMonstersFrom | src/uk/ac/bradford/dungeongame/GameEngine.java:650-678 | the outer loop keeps the array length, monsters off walls and armed, players changed only in vitals, and live monsters apart at depth above 1 with a player present |
| MonsterAI.MoveMonstersFromKeepsPrefix | src/uk/ac/bradford/dungeongame/GameEngine.java:650-678 | slots before the loop position are untouched |
| MonsterAI.MoveMonstersFromSteps | src/uk/ac/bradford/dungeongame/GameEngine.java:650-678 | every live monster moves at most one step and changes nothing but cells and vitals |
| MonsterAI.StepsCompose | src/uk/ac/bradford/dungeongame/GameEngine.java:650-678 | moving slot i and then the later slots each at most one step moves every slot at most one step |
| MonsterAI.MoveSlotKeepsValid | src/uk/ac/bradford/dungeongame/GameEngine.java:651-676 | one outer iteration keeps monsters and players valid |
| MonsterAI.MoveMonstersFromKeepsMonstersValid | src/uk/ac/bradford/dungeongame/GameEngine.java:650-678 | the outer loop keeps the monsters valid |
| MonsterAI.MoveMonstersFromKeepsPlayersValid | src/uk/ac/bradford/dungeongame/GameEngine.java:650-678 | the outer loop keeps both players valid |
| MonsterAI.MoveMonsters | src/uk/ac/bradford/dungeongame/GameEngine.java:649-679 | every live monster moves at most one step onto a non-wall cell and otherwise changes only in vitals; players stay put and valid; at depth above 1 with a player present no two live monsters share a cell |
| Engine.DrawIndex | src/uk/ac/bradford/dungeongame/GameEngine.java:212 | `nextInt(spawns.size())` throws exactly on an empty pool, else gives an index below the size |
| Engine.GenerateLevelDraw | src/uk/ac/bradford/dungeongame/GameEngine.java:177-206 | one `nextDouble` per cell, column by column; an interior cell is a wall exactly when its draw is at most 0.05; the border is wall |
| Engine.DrawChestTrials | src/uk/ac/bradford/dungeongame/GameEngine.java:224-228 | trial t reads its pool index at stream offset 2t and its chance at 2t + 1 |
| Engine.ChestKeepsWalls | src/uk/ac/bradford/dungeongame/GameEngine.java:221-249 | placing a chest keeps the walls, loses at most one pool point and changes no cell but the chest's |
| Engine.SpawnChestDraw | src/uk/ac/bradford/dungeongame/GameEngine.java:221-249 | throws exactly on an empty pool; otherwise consumes two draws per trial run, keeps the walls, and changes at most the chest's cell, which was a pool point |
| Engine.PlacePlayerDraw | src/uk/ac/bradford/dungeongame/GameEngine.java:936-941 | a present player draws once and moves, stats kept, to a point that leaves the pool; throws exactly when a present player meets an empty pool |
| Engine.DrawPicks | src/uk/ac/bradford/dungeongame/GameEngine.java:381-382 | removal i draws `nextInt(size - i)` from stream offset i |
| Engine.SpawnMonstersDraw | src/uk/ac/bradford/dungeongame/GameEngine.java:365-388 | throws exactly when the pool is smaller than min(depth, 40); otherwise places that many full-health monsters on distinct former pool points and consumes one draw each |
| Engine.BuildLevel | src/uk/ac/bradford/dungeongame/GameEngine.java:1001-1004 | generating, scanning, placing stairs and a chest leaves a walled level with a pool of distinct floor cells at most two shorter than the spawn points; two spawn points suffice to avoid a throw |
| Engine.StartGame | src/uk/ac/bradford/dungeongame/GameEngine.java:999-1008 | the game starts at depth 1 with a fresh first player, no second player and a new monster array, in a consistent state; four spawn points suffice to avoid a throw |
| Engine.PopulateStart | src/uk/ac/bradford/dungeongame/GameEngine.java:1005-1006 | monsters then the first player are placed on distinct pool points of an unchanged level |
| Engine.Populate | src/uk/ac/bradford/dungeongame/GameEngine.java:920-926 | both players move, stats kept, to floor cells, then a new monster array is spawned; nobody shares a cell |
| Engine.PlacePlayers | src/uk/ac/bradford/dungeongame/GameEngine.java:920-921 | each present player keeps its stats and moves to a floor cell that leaves the pool; the two end apart |
| Engine.DescendLevel | src/uk/ac/bradford/dungeongame/GameEngine.java:914-927 | depth grows by one on a walled level; players keep their stats on distinct floor cells; min(depth, 40) fresh full-health monsters stand on distinct floor cells apart from the players; 4 + min(depth, 40) spawn points of the new level suffice to avoid a throw |
| Engine.DescendKeepsConsistent | src/uk/ac/bradford/dungeongame/GameEngine.java:914-927 | a descent from a consistent state arrives in a consistent state |
| Engine.ArrivalIsConsistent | src/uk/ac/bradford/dungeongame/GameEngine.java:914-927 | a freshly arrived level with fit players is consistent |
| Engine.MonsterStatsPositive | src/uk/ac/bradford/dungeongame/GameEngine.java:378 | monsters always deal positive damage, so `nextInt` on their damage never throws |
| Engine.SpawnSecondPlayerInto | src/uk/ac/bradford/dungeongame/GameEngine.java:417-424 | throws exactly on an empty pool; otherwise a fresh second player (250 health, 80 damage) stands on a former pool point, the pool loses exactly one point, the first player, tiles and monsters are unchanged, and consistency holds |
| Engine.RewardBoundPositive | src/uk/ac/bradford/dungeongame/GameEngine.java:283 | with maximum health at least 4 every reward draw has a positive bound |
| Engine.StepAndFight | src/uk/ac/bradford/dungeongame/GameEngine.java:439-447 | the mover ends on the target cell exactly when it is not a wall, not the other player's cell and free of monsters, otherwise where it was; a completed step costs nothing and touches no monster; an immortal mover keeps health and shield |
| Engine.StepAndFightHitBack | src/uk/ac/bradford/dungeongame/GameEngine.java:439-447 | a mortal mover stepping onto a free cell held by a monster ends as `hitPlayer` of the first such monster, back on its start cell, when no later monster stands on that start cell |
| Engine.OpenAndDecay | src/uk/ac/bradford/dungeongame/GameEngine.java:448-449 | the mover stays put; a chest cell becomes floor and nothing else changes; the grid and stats are those `getTreasure` and `statsUpdater` give for the drawn treasure kind and some roll in the reward range |
| Engine.PlayerTurn | src/uk/ac/bradford/dungeongame/GameEngine.java:439-462 | one move: the target-cell condition of `StepAndFight`, the monsters as it leaves them, then the chest and decay, with walls kept |
| Engine.PlayerTurnLoots | src/uk/ac/bradford/dungeongame/GameEngine.java:439-462 | after the step the mover's chest cell becomes floor and its stats are `statsUpdater` of `getTreasure` for the drawn treasure kind and some roll in range |
| Engine.MovePlayer | src/uk/ac/bradford/dungeongame/GameEngine.java:439-591 | the move keeps consistency; an absent mover changes nothing; the other player, depth and pool are untouched; the mover ends on the adjacent cell exactly when it is free of walls, the other player and monsters, else stays put; tiles, mover and monsters are those of one `PlayerTurn` |
| Engine.KeptWallsKeepConsistent | src/uk/ac/bradford/dungeongame/GameEngine.java:439-464 | a move that only clears chests, keeps the walls and pool, leaves players fit on non-wall cells and changes monsters only in vitals keeps the state consistent |
| Engine.CleanDeadMonsters | src/uk/ac/bradford/dungeongame/GameEngine.java:895-903 | exactly the slots with health below 1 are emptied; the array keeps its length and nothing moves |
| Engine.CleanIsIdempotent | src/uk/ac/bradford/dungeongame/GameEngine.java:895-903 | cleaning twice equals cleaning once, and cleaning keeps the monster invariants |
| Engine.StairsCheck | src/uk/ac/bradford/dungeongame/GameEngine.java:955-958 | the level changes exactly when the checked player stands on the stairs; after a descent nobody stands on the stairs; players are neither added nor removed and keep their health |
| Engine.DeathCheck | src/uk/ac/bradford/dungeongame/GameEngine.java:959-961 | the checked player is removed exactly when its health is below 1; nothing else changes |
| Engine.Arrive | src/uk/ac/bradford/dungeongame/GameEngine.java:955-962 | stairs first, then health: the level changes exactly when the player was on the stairs; off the stairs the result is only the health check, with the stream untouched; the player remains exactly when it was present with health at least 1, with that health |
| Engine.DoTurn | src/uk/ac/bradford/dungeongame/GameEngine.java:952-991 | a turn keeps consistency and changes the level at most once, exactly when a present player stood on the stairs; without a descent it cannot fail, and tiles, pool and depth are kept while monsters, surviving players and stream are those the monster phase left; each player remains exactly when it came out of the monster phase with health at least 1 |

## Left out

- GUI wiring is not modelled: `gui.updateDisplay`, `updateGUI`, the `GameEngine` constructor and the `System.out` messages of `getTreasure`.
- The key handler `DungeonInputHandler.java` is not part of this model. It calls `spawnSecondPlayer` on F1 while the second slot is empty and returns without a turn (DungeonInputHandler.java:56-60); every other key press runs `doTurn` (line 90), after a `movePlayer*` for the arrow and WASD keys and with no move for any other key.
- The console restart loop of `doTurn` (`Scanner`, `System.exit`) is I/O. Game over is the predicate `State.GameOver`, and a restart is `Engine.StartGame`.
- `java.util.Random` arithmetic is not modelled. A stream is any infinite sequence of naturals:
  - `nextInt(n)` is the next value modulo n;
  - `nextDouble()` is k / 2^53.
  - Every in-range draw is reachable (`Random.AnyDrawReachable`), so properties proved for all streams hold for the real generator.
  - The order of consumption is kept exactly.
- Floating point is replaced by exact reals:
  - `Math.pow(1.03, depth - 1)` is computed in exact reals, then truncated and saturated like Java's `(int)` cast;
  - chest thresholds are compared as exact reals, so possible ulp differences in the double sums `0.015 + 0.01` and `0.02 + 0.015` are ignored.
- 32-bit wrap-around of health, shield, damage and immortality arithmetic is not modelled; these are unbounded integers.
- A previous position is `null` in Java until the first `setPreviousPosition`. The model initialises it to the current cell; the engine never reads it earlier.
- Plain getters (`getX`, `getHealth`, `getCoordinates`, ...) are field reads. The static scratch fields behind `getXDifference`/`getYDifference` are recomputed before every read, so those are pure functions.
- Engine.MovePlayer: requires the first player to be present when it is the mover. The source dereferences the null player there and throws; that failure is not modelled as a result.
- Engine.SpawnSecondPlayerInto: does not require the second slot to be empty. The key handler makes that check before calling it, and the model replaces whatever is there, as the source does.
- Level.MonsterHealth and Level.MonsterDamage: the contracts state only the range, at least 50 (20) and within `int`. The exact value is `JavaIntOf(50 * 1.03^(depth-1))`, whose truncation `Level.JavaIntOf` specifies.
- Engine.StartGame, Engine.DescendLevel and Engine.BuildLevel: the contracts give a sufficient number of spawn points for success, not the exact crash condition. The exact condition also depends on whether a chest was placed.
- Engine.DoTurn: the contract does not restate the per-monster facts of `MonsterAI.MoveMonsters`, which hold for the monster phase inside it; after a descent the new level is described only by consistency, the depth and the players' presence and health, as `Engine.DescendLevel` states them.
- Level.SpawnMonsters: the engine uses this corrected loop, bounded by the array (see Findings). At depths above 40 the source throws instead.

## Findings

| source | as written | input that shows it | evidently intended | confidence | as-written member | corrected member |
|---|---|---|---|---|---|---|
| src/uk/ac/bradford/dungeongame/GameEngine.java:370-384 | the monster array has min(depth, 40) slots but the filling loop runs `depth` times, so at depth 41 or deeper it writes past the end and throws `ArrayIndexOutOfBoundsException` | descending to depth 41 on a level with at least 41 spawn points left after stairs, chest and players | fill min(depth, 40) slots, capping monsters at 40 as the array size does | not executed | Level.SpawnMonstersAsWrittenOverruns | Level.SpawnMonsters |

`Level.SpawnMonstersAsWritten` models the loop as written. `Level.SpawnMonstersAsWrittenOverruns` proves that it throws exactly at depths above 40. `Level.SpawnMonsters` bounds the loop by the array length, and `Level.SpawnMonstersAgreesUpToForty` proves that the two agree at every depth up to 40.
