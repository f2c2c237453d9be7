# Terminal arcade game: world-update core in Dafny

This project models the world of a single-player terminal arcade game.
The player walks a bounded grid framed by walls, picks up a collectible that
raises the score and then respawns, and is chased by enemies that cost one
health each on contact. The model covers four parts:

- **Configuration.** `GameBuilder::new`, its setters and `build`.
- **Arena initialisation.** `Game::init` lays the border, places the random
  walls, installs the fixed enemy roster and puts the collectible on a free
  cell by rejection sampling.
- **One tick.** `Game::update` applies wall-blocked player motion,
  collectible pickup with scoring and respawn, enemy pursuit and contact
  damage, in that order.
- **Reset.** `Game::reset` zeroes the score, rebuilds the player and re-runs
  `init`.

It also models the random-placement method `set_rand_position` of the
`Position` trait, which is the only source of positions during
initialisation and respawn.

Every operation is a pure function over an immutable `Game` value. A Rust
panic is an `Err` carrying its cause:

- `Underflow`: a u16 `width - 1` or `height - 1` went below zero.
- `Overflow`: `score += 1` went past `u32::MAX`.
- `EmptyRange`: `gen_range` was given an empty range.

Overflow checks follow a debug build, where overflow panics.

Modules, following the source:

| file | module | what it holds |
|---|---|---|
| point.dfy | `Point` | cells (`Point2d<u16>`), half-open ranges, u8/u16/u32, border and interior regions |
| outcome.dfy | `Outcome` | `Result`, `Fault`, checked u16 subtraction and u32 addition |
| traits.dfy | `Traits` | the random generator, `gen_range`, `set_rand_position` |
| unit.dfy | `Unit` | player, player configuration, enemy (only the state the world rules touch) |
| world.dfy | `World` | `Game`, `GameBuilder`, `build`, the invariant `Valid` |
| arena.dfy | `Arena` | `init` and the collectible's rejection loop |
| tick.dfy | `Tick` | `update` and its four steps |
| lifecycle.dfy | `Lifecycle` | `reset`, builder facts, invariants kept over consecutive ticks |

## Abstractions

- **Random generator.** `ThreadRng` is an infinite stream of raw draws plus a
  count of the draws consumed. Each `gen_range` call consumes one draw and
  maps it into its range. Only range membership is modelled, not the
  distribution. `Traits.ScaleReachesEveryValue` shows that the mapping can
  reach every value of the range.
- **Rejection loops.** The `while` loops that move the collectible are
  unbounded in the source. `Arena.Resample` takes a `patience` bound on the
  number of resamples. Running out of attempts is the model-only fault
  `Exhausted`, which stands for a loop that has not stopped yet. The
  `...FindsFree` lemmas show, for the loop and for `init`, pickup, `update`
  and `reset`, that `Exhausted` occurs only when every proposal within the
  bound hits a wall.
- **Positions.** Real-valued positions are represented by the cell they
  round to. The unit module is not part of this model, so the cells it
  produces in a tick are an input `Tick.Motion`:
  - `forward` is the cell of `forward_position()`;
  - `enemyCells` holds each enemy's cell after `move_towards_player`.

  `move_forward` commits the forward cell.
- **Enemy placement.** An enemy's random real position in
  `1.0..(w-1)` by `1.0..(h-1)` is observed through rounding. The resulting
  cell lies in the closed range `[1, w-1] x [1, h-1]` (`Sampling.Rounded`).
  The real range must still be non-empty, or `gen_range` panics.
- **Speeds.** Speeds are exact reals: enemy `i` has speed `i * 0.05`.
- **Damage.** `take_damage(n)` subtracts `n` from a u8 health, saturating at
  zero.
- **Unit constructors.** `PlayerBuilder::new()` defaults are a parameter
  (`playerDefaults`). The model chooses the origin as the cell of an enemy
  made by `Enemy::with_speed`. Nothing depends on that choice, because
  `init` overwrites the cell before anything reads it.

Points where the code behaves differently from what one might expect:

- **Border count.** The frame of a W-by-H arena has 2W + 2H − 4 distinct
  cells. The code pushes both ends of every row and every column, so the
  list holds 2W + 2H entries and each corner appears twice
  (`Arena.BorderListsCornersTwice`).
- **Small arenas.** `init` panics for any arena narrower or shorter than
  three cells. It panics even with no random walls, because the eleven
  enemies always sample in `1..(w-1)` by `1..(h-1)`.
- **3-by-3 arena.** With at least one random wall, `init` never returns: the
  wall covers the only interior cell (`Arena.InitHangsOnFullInterior`).
- **Builder roster.** The builder's enemy roster is always replaced by
  `init`. So are the builder's walls.

## Model

| member | source | states |
|---|---|---|
| Traits.GenRange | src/traits.rs:23-24 | `gen_range` panics exactly when the range is empty; otherwise the sample lies in the range and exactly one draw is consumed |
| Traits.ScaleReachesEveryValue | src/traits.rs:23-24 | every value of a non-empty range is the sample of some draw, so range membership is all the model assumes about the generator |
| Traits.SampleCell | src/traits.rs:22-25 | both coordinates lie in their ranges; it panics iff either range is empty; it consumes two draws |
| Traits.SetRandPosition | src/traits.rs:17-27 | the entity becomes `set_position(entity, p)` for some point `p` inside both ranges as `Admits` reads them (half-open for `Exact`, closed for `Rounded`), and nothing else about it changes; it panics iff a range is empty |
| Outcome.Sub16 | src/game.rs:140 | `height - 1` (and every other `- 1` on u16) succeeds iff the operand is at least 1, and otherwise panics with an underflow |
| Outcome.Add32 | src/game.rs:197 | `score += 1` succeeds iff the sum stays below 2^32 |
| Arena.RowWalls | src/game.rs:138-141 | after k iterations of the first border loop, entry 2x is `(x, 0)` and entry 2x+1 is `(x, height-1)` |
| Arena.ColumnWalls | src/game.rs:142-145 | after k iterations of the second border loop, entry 2y is `(0, y)` and entry 2y+1 is `(width-1, y)` |
| Arena.BorderWalls | src/game.rs:138-145 | the border loops panic iff exactly one dimension is zero; otherwise they push 2w + 2h entries, all on the frame, and every frame cell is among them |
| Arena.BorderCovered | src/game.rs:138-145 | every pushed cell lies on the frame and every cell of the frame is pushed |
| Arena.BorderListsCornersTwice | src/game.rs:138-145 | each of the four corners occurs at two distinct indices of the border list |
| Arena.RandomWalls | src/game.rs:147-152 | `n` random walls are pushed, each in `[1, w-1) x [1, h-1)`, consuming 2n draws; the loop panics iff n > 0 and the arena is smaller than 3 in some dimension |
| Arena.PlaceEnemies | src/game.rs:161-167 | every enemy keeps its speed and gets a cell within `[1, w-1] x [1, h-1]`; the loop panics iff the roster is non-empty and a dimension is below 3 |
| Arena.Resample | src/game.rs:170-181 | when the loop exits, the collectible is on no wall; it is unchanged if it started off the walls, and otherwise lies in the interior |
| Arena.ResampleTakesFirstFree | src/game.rs:171-181 | the collectible ends on the first proposal that is not a wall, after consuming exactly the draws of the proposals up to it |
| Arena.ResampleFindsFree | src/game.rs:171-181 | the loop exits whenever one of the proposals within the allowed attempts is free |
| Arena.ResampleNeedsFreeInterior | src/game.rs:171-181 | if every interior cell is a wall, the loop never exits |
| Arena.InitWalls | src/game.rs:136-152 | previous walls are discarded; the list holds 2w + 2h + n entries; it covers the frame; the first 2w + 2h are frame cells and the rest are interior |
| Arena.Init | src/game.rs:134-182 | `init` panics with an underflow iff a dimension is zero, and with an empty range iff both are positive and one is below 3; on success the world is `Valid` and only walls, enemies, collectible and generator change, with the collectible's default `(0, 0)` forcing at least one resample |
| Arena.InitFindsFree | src/game.rs:134-182 | `init` finishes whenever one of the collectible's first proposals, drawn after the random walls and the roster, misses every wall |
| Arena.InitWallLayout | src/game.rs:136-152 | after `init` there are exactly 2w + 2h + n wall entries: the frame first, then the random walls strictly inside it |
| Arena.InitRoster | src/game.rs:154-167 | after `init` the roster is exactly eleven enemies of speeds `i * 0.05` for i in 1..12, each on a cell within `[1, w-1] x [1, h-1]`, whatever roster was there before |
| Arena.InitHangsOnFullInterior | src/game.rs:148-181 | in a 3-by-3 arena with a random wall, `init` never places the collectible |
| World.Build | src/game.rs:105-122 | a built session has score 0, the collectible at `(0, 0)`, a player built from the kept configuration, and every other field from the builder |
| Lifecycle.BuilderDefaults | src/game.rs:49-62 | defaults: height 48, width 80, no random walls, 50 ms interval, enemies of speeds 0.1, 0.5, 0.8, no walls |
| Lifecycle.SettersChangeOneField | src/game.rs:65-103 | each setter sets its own field and leaves every other field unchanged |
| Lifecycle.DefaultSessionInit | src/game.rs:49-62 | initialising a default session never panics, and on success gives 256 wall entries, eleven enemies and score 0 |
| Lifecycle.InitDiscardsOldArena | src/game.rs:136-170 | the result of `init` does not depend on the previous walls, enemy roster or collectible |
| Tick.Collect | src/game.rs:195-215 | on pickup the score rises by one, the collectible is moved at random at least once (the generator advances by two draws or more) and ends on an interior cell off every wall; without pickup nothing changes; pickup at `u32::MAX` panics |
| Tick.CollectTakesFirstFree | src/game.rs:199-214 | on pickup the new collectible is the first proposal off the walls, counting the unconditional first move as proposal 0, and exactly the draws of the proposals up to it are consumed |
| Tick.CollectFindsFree | src/game.rs:196-214 | below the score maximum, a pickup finishes whenever one of its proposals, the unconditional first move included, misses every wall |
| Tick.Pursue | src/game.rs:217-220 | every enemy moves to its pursuit cell and keeps its speed |
| Tick.Contacts | src/game.rs:222-227 | the player loses one health, saturating at zero, for each enemy on its cell, and nothing else about the player changes |
| Tick.Update | src/game.rs:184-228 | the player moves iff no wall is on the forward cell; the score rises by exactly one iff the moved player is on the collectible, and the respawn is freshly drawn from the generator and lands off the walls; health drops by the number of enemies on the player's cell after they all moved; walls and configuration never change; only pickup can panic |
| Tick.UpdateFindsFree | src/game.rs:184-228 | a tick below the score maximum finishes whenever one of the collectible's proposals misses every wall |
| Lifecycle.UpdatePreservesValid | src/game.rs:184-228 | a tick keeps the frame closed, walls inside the arena and the collectible inside the frame and off every wall |
| Lifecycle.UpdateKeepsPlayerOffWalls | src/game.rs:185-193 | a player that is not on a wall is not on a wall after a tick |
| Lifecycle.Reset | src/game.rs:255-260 | after `reset` the score is 0 and the player equals a freshly built one with the configured health; the world is valid; only score, player, walls, enemies, collectible and generator change, and the generator is the new one, advanced; the panics are those of `init` |
| Lifecycle.ResetLayout | src/game.rs:255-260 | after `reset` the arena is laid out afresh: 2w + 2h frame entries then `nRandomWalls` interior walls, and the eleven-enemy roster of speeds `i * 0.05` |
| Lifecycle.ResetFindsFree | src/game.rs:255-260 | a reset finishes whenever one of the collectible's proposals from the new generator misses every wall |
| Lifecycle.ResetForgetsPlay | src/game.rs:255-260 | with the same generator, resetting after a tick gives the same world as resetting before it |
| Lifecycle.Ticks | src/game.rs:266-276 | over n consecutive ticks the score grows by between 0 and n, health never rises, walls stay the same, validity is kept, a player off the walls stays off them, and a dead player stays dead |

## Left out

- Drawing (`Game::draw`, the terminal rendering of entities and the HUD): terminal output only.
- `Game::run`: the wall-clock input loop, key polling and the game-over prompt are timing and I/O. `Lifecycle.Ticks` covers only the sequence of `update` calls that loop makes.
- `ui.prepare()` and `ui.restore()`: terminal-mode side effects.
- Floating-point geometry: pursuit vectors, speed arithmetic, rounding and HUD formatting. Positions are cells, and the cells of a tick come from `Tick.Motion`.
- The internals of the entities (`take_damage`, `forward_position`, `move_forward`, `move_towards_player`, the player builder): that module is not part of this model.
- The distribution of `ThreadRng`: only range membership is modelled.
- The `Duration` of `update_interval` is kept as whole milliseconds (`intervalMillis`); only `run` reads it, and sub-millisecond intervals are not represented.
- Arena.Resample: the source loop is unbounded; the model stops after `patience` attempts with `Exhausted`, so its results describe only loops that finish within that bound.
- Arena.Init: inherits the `patience` bound of the rejection loop.
- Tick.Update: the player's and the enemies' new cells are inputs, not computed from speeds and headings.
