/** One tick of the world: player motion blocked by walls, collectible
    pickup and respawn, enemy pursuit, and contact damage, in that order. */
module Tick {
  import opened Point
  import opened Outcome
  import opened Traits
  import opened Unit
  import opened World
  import opened Arena

  /** What the entity code decides during one tick, which this model does
      not compute: the cell the player's forward position rounds to, and the
      cell each enemy rounds to after moving towards the player. */
  datatype Motion = Motion(forward: Cell, enemyCells: seq<Cell>)

  /** Step 1: the player moves forward unless some wall sits on the forward
      cell. */
  function Advance(walls: seq<Cell>, p: Player, forward: Cell): Player {
    if forward in walls then p else p.(cell := forward)
  }

  /** Step 2: if the player stands on the collectible, the score rises by one
      and the collectible is moved once at random, drawing from the
      generator whatever cell it was on, and then resampled until it is off
      every wall. */
  function Collect(g: Game, patience: nat): (r: Result<Game>)
    ensures g.player.cell != g.collectible ==> r == Ok(g)
    ensures r.Err? ==> g.player.cell == g.collectible
    ensures g.player.cell == g.collectible && g.score + 1 == U32_LIMIT ==> r == Err(Overflow)
    ensures r.Err? && 3 <= g.width && 3 <= g.height ==> r.fault == Overflow || r.fault == Exhausted
    ensures r.Ok? && g.player.cell == g.collectible ==>
              && r.value.score == g.score + 1
              && r.value.collectible !in g.walls
              && Interior(r.value.collectible, g.width, g.height)
              && r.value.rng.draws == g.rng.draws && g.rng.used + 2 <= r.value.rng.used
              && r.value == g.(score := r.value.score, collectible := r.value.collectible,
                               rng := r.value.rng)
  {
    if g.player.cell != g.collectible then Ok(g)
    else
      var score :- Add32(g.score, 1);
      var right :- Sub16(g.width, 1);
      var bottom :- Sub16(g.height, 1);
      var first :- SetRandPosition(g.collectible, Place, g.rng, Range(1, right), Range(1, bottom), Exact);
      var spawn :- Resample(g.walls, first.0, g.width, g.height, first.1, patience);
      Ok(g.(score := score, collectible := spawn.0, rng := spawn.1))
  }

  /** On pickup the new collectible is the first proposal off the walls,
      counting the unconditional first move as proposal 0, and exactly the
      draws of the proposals up to it are consumed. */
  lemma CollectTakesFirstFree(g: Game, patience: nat)
    requires 3 <= g.width && 3 <= g.height
    ensures g.player.cell == g.collectible && Collect(g, patience).Ok? ==>
              exists k :: 0 <= k <= patience && FirstFree(g.walls, g.rng, k, g.width, g.height)
                && Collect(g, patience).value.collectible == Candidate(g.rng, k, g.width, g.height)
                && Collect(g, patience).value.rng == g.rng.Skip(2 * k + 2)
  {
    if g.player.cell == g.collectible && Collect(g, patience).Ok? {
      var w, h := g.width, g.height;
      var first := Candidate(g.rng, 0, w, h);
      assert SetRandPosition(g.collectible, Place, g.rng, Range(1, w - 1), Range(1, h - 1), Exact)
             == Ok((first, g.rng.Skip(2)));
      assert Collect(g, patience).value.collectible
             == Resample(g.walls, first, w, h, g.rng.Skip(2), patience).value.0;
      assert Collect(g, patience).value.rng
             == Resample(g.walls, first, w, h, g.rng.Skip(2), patience).value.1;
      if first !in g.walls {
        assert FirstFree(g.walls, g.rng, 0, w, h);
      } else {
        ResampleTakesFirstFree(g.walls, first, w, h, g.rng.Skip(2), patience);
        var k :| 0 <= k < patience && FirstFree(g.walls, g.rng.Skip(2), k, w, h)
                && Resample(g.walls, first, w, h, g.rng.Skip(2), patience)
                   == Ok((Candidate(g.rng.Skip(2), k, w, h), g.rng.Skip(2).Skip(2 * k + 2)));
        FirstFreeShift(g.walls, g.rng, k, w, h);
        assert g.rng.Skip(2).Skip(2 * k + 2) == g.rng.Skip(2 * (k + 1) + 2);
      }
    }
  }

  /** A pickup finishes whenever one of its proposals, the unconditional
      first move included, misses every wall, unless the score is at its
      maximum; without a pickup `Collect` always succeeds. */
  lemma CollectFindsFree(g: Game, patience: nat, k: nat)
    requires 3 <= g.width && 3 <= g.height && g.score + 1 < U32_LIMIT
    requires k <= patience && Candidate(g.rng, k, g.width, g.height) !in g.walls
    ensures Collect(g, patience).Ok?
  {
    if g.player.cell == g.collectible {
      var w, h := g.width, g.height;
      var first := Candidate(g.rng, 0, w, h);
      assert SetRandPosition(g.collectible, Place, g.rng, Range(1, w - 1), Range(1, h - 1), Exact)
             == Ok((first, g.rng.Skip(2)));
      if first in g.walls {
        CandidateShift(g.rng, k - 1, w, h);
        ResampleFindsFree(g.walls, first, w, h, g.rng.Skip(2), patience, k - 1);
      }
    }
  }

  /** Step 3: every enemy takes the cell it pursues the player into. */
  function Pursue(es: seq<Enemy>, cells: seq<Cell>): (es': seq<Enemy>)
    requires |cells| == |es|
    ensures |es'| == |es|
    ensures forall i :: 0 <= i < |es| ==> es'[i] == es[i].(cell := cells[i])
  {
    seq(|es|, i requires 0 <= i < |es| => SetEnemyPosition(es[i], cells[i]))
  }

  function CellsOf(es: seq<Enemy>): (cells: seq<Cell>)
    ensures |cells| == |es|
    ensures forall i :: 0 <= i < |es| ==> cells[i] == es[i].cell
  {
    seq(|es|, i requires 0 <= i < |es| => es[i].cell)
  }

  /** Step 4: `take_damage(1)` once for each enemy, in roster order, whose
      cell is the player's cell. The player loses one health per such enemy,
      down to zero, and nothing else about it changes. */
  function Contacts(es: seq<Enemy>, p: Player): (q: Player)
    ensures q == p.(health := SaturatingSub(p.health, multiset(CellsOf(es))[p.cell]))
  {
    if es == [] then p
    else
      var hit := if es[0].cell == p.cell then p.TakeDamage(1) else p;
      CellsSplit(es);
      Contacts(es[1..], hit)
  }

  lemma CellsSplit(es: seq<Enemy>)
    requires es != []
    ensures multiset(CellsOf(es)) == multiset{es[0].cell} + multiset(CellsOf(es[1..]))
  {
    assert CellsOf(es) == [es[0].cell] + CellsOf(es[1..]);
  }

  /** `update`: the four steps of a tick, applied in order. The enemies'
      new cells are given by `m`; damage is counted after every enemy has
      moved. */
  function Update(g: Game, m: Motion, patience: nat): (r: Result<Game>)
    requires |m.enemyCells| == |g.enemies|
    ensures r.Err? ==> Advance(g.walls, g.player, m.forward).cell == g.collectible
    ensures Advance(g.walls, g.player, m.forward).cell == g.collectible && g.score + 1 == U32_LIMIT
            ==> r == Err(Overflow)
    ensures r.Err? && 3 <= g.width && 3 <= g.height ==> r.fault == Overflow || r.fault == Exhausted
    // player motion
    ensures r.Ok? && m.forward in g.walls ==> r.value.player.cell == g.player.cell
    ensures r.Ok? && m.forward !in g.walls ==> r.value.player.cell == m.forward
    ensures r.Ok? ==> r.value.player.heading == g.player.heading && r.value.player.speed == g.player.speed
    // scoring and respawn
    ensures r.Ok? ==> r.value.score == if r.value.player.cell == g.collectible then g.score + 1 else g.score
    ensures r.Ok? && r.value.player.cell == g.collectible ==>
              && r.value.collectible !in g.walls && Interior(r.value.collectible, g.width, g.height)
              && r.value.rng.draws == g.rng.draws && g.rng.used + 2 <= r.value.rng.used
    ensures r.Ok? && r.value.player.cell != g.collectible ==>
              r.value.collectible == g.collectible && r.value.rng == g.rng
    // enemies and damage
    ensures r.Ok? ==> CellsOf(r.value.enemies) == m.enemyCells
    ensures r.Ok? ==> forall i :: 0 <= i < |g.enemies| ==> r.value.enemies[i].speed == g.enemies[i].speed
    ensures r.Ok? ==> r.value.player.health
                      == SaturatingSub(g.player.health, multiset(m.enemyCells)[r.value.player.cell])
    // nothing else changes
    ensures r.Ok? ==> r.value == g.(score := r.value.score, enemies := r.value.enemies,
                                    collectible := r.value.collectible, player := r.value.player,
                                    rng := r.value.rng)
  {
    var moved := Advance(g.walls, g.player, m.forward);
    var collected :- Collect(g.(player := moved), patience);
    var enemies := Pursue(g.enemies, m.enemyCells);
    assert CellsOf(enemies) == m.enemyCells;
    Ok(collected.(enemies := enemies, player := Contacts(enemies, moved)))
  }

  /** A tick finishes whenever the collectible's k-th proposal misses every
      wall and the score is below its maximum. */
  lemma UpdateFindsFree(g: Game, m: Motion, patience: nat, k: nat)
    requires |m.enemyCells| == |g.enemies|
    requires 3 <= g.width && 3 <= g.height && g.score + 1 < U32_LIMIT
    requires k <= patience && Candidate(g.rng, k, g.width, g.height) !in g.walls
    ensures Update(g, m, patience).Ok?
  {
    CollectFindsFree(g.(player := Advance(g.walls, g.player, m.forward)), patience, k);
  }
}
