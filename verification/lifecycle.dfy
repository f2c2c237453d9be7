/** The session around the tick: building a session from the defaults,
    resetting it, and what consecutive ticks keep invariant. */
module Lifecycle {
  import opened Point
  import opened Outcome
  import opened Traits
  import opened Unit
  import opened World
  import opened Arena
  import opened Tick

  /** `GameBuilder::new` fixes an 80-by-48 arena, no random walls, a 50 ms
      tick, the three-enemy roster of speeds 0.1, 0.5 and 0.8, and no extra
      walls; the player configuration is the player builder's own default. */
  lemma BuilderDefaults(playerDefaults: PlayerConfig)
    ensures var b := NewBuilder(playerDefaults);
      && b.width == 80 && b.height == 48 && b.nRandomWalls == 0 && b.intervalMillis == 50
      && b.playerConfig == playerDefaults && b.walls == []
      && |b.enemies| == 3
      && b.enemies[0].speed == 0.1 && b.enemies[1].speed == 0.5 && b.enemies[2].speed == 0.8
  {
  }

  /** Each builder setter overwrites its own field and leaves every other
      field as it was; the two player setters touch only the matching field
      of the player configuration. */
  lemma SettersChangeOneField(b: GameBuilder, n: u16, health: u8, speed: real, millis: nat,
                              es: seq<Enemy>, ws: seq<Cell>)
    ensures b.Width(n).width == n && b.Width(n) == b.(width := n)
    ensures b.Height(n).height == n && b.Height(n) == b.(height := n)
    ensures b.NRandomWalls(n).nRandomWalls == n && b.NRandomWalls(n) == b.(nRandomWalls := n)
    ensures b.UpdateInterval(millis) == b.(intervalMillis := millis)
    ensures b.Enemies(es) == b.(enemies := es)
    ensures b.Walls(ws) == b.(walls := ws)
    ensures var b' := b.PlayerStartingHealth(health);
      b'.playerConfig.health == health && b'.playerConfig.speed == b.playerConfig.speed
      && b'.playerConfig.start == b.playerConfig.start && b'.playerConfig.heading == b.playerConfig.heading
      && b' == b.(playerConfig := b'.playerConfig)
    ensures var b' := b.PlayerStartingSpeed(speed);
      b'.playerConfig.speed == speed && b'.playerConfig.health == b.playerConfig.health
      && b'.playerConfig.start == b.playerConfig.start && b'.playerConfig.heading == b.playerConfig.heading
      && b' == b.(playerConfig := b'.playerConfig)
  {
  }

  /** A session built from the defaults initialises to an arena of exactly
      2 * 80 + 2 * 48 wall entries and the eleven-enemy roster, unless the
      collectible runs out of attempts; it can never panic. */
  lemma DefaultSessionInit(playerDefaults: PlayerConfig, rng: Rng, patience: nat)
    ensures var r := Init(Build(NewBuilder(playerDefaults), rng), patience);
      && (r.Err? ==> r.fault == Exhausted)
      && (r.Ok? ==> |r.value.walls| == 256 && |r.value.enemies| == 11 && r.value.score == 0)
  {
  }

  /** `init` reads nothing of the previous arena: walls (including the ones
      handed to the builder), the enemy roster and the collectible are all
      replaced. */
  lemma InitDiscardsOldArena(g: Game, walls: seq<Cell>, enemies: seq<Enemy>, c: Cell, patience: nat)
    ensures Init(g.(walls := walls, enemies := enemies, collectible := c), patience) == Init(g, patience)
  {
  }

  /** `reset`: the score goes back to zero, the player is rebuilt from the
      stored configuration, the generator is replaced by `seed`, and `init`
      runs again. Only the score, the player and what `init` lays out change;
      the arena size, random-wall count, configuration and interval stay. */
  function Reset(g: Game, seed: Rng, patience: nat): (r: Result<Game>)
    ensures r.Ok? ==> r.value.score == 0
    ensures r.Ok? ==> r.value.player == BuildPlayer(g.playerConfig) && r.value.player.health == g.playerConfig.health
    ensures r.Ok? ==> Valid(r.value)
    ensures r.Ok? ==> r.value.playerConfig == g.playerConfig && r.value.width == g.width
                      && r.value.height == g.height && r.value.nRandomWalls == g.nRandomWalls
    ensures r == Err(Underflow) <==> g.width == 0 || g.height == 0
    ensures r == Err(EmptyRange) <==> 0 < g.width && 0 < g.height && (g.width < 3 || g.height < 3)
    ensures r.Err? && 3 <= g.width && 3 <= g.height ==> r.fault == Exhausted
    ensures r.Ok? ==> r.value == g.(score := 0, player := BuildPlayer(g.playerConfig),
                                    walls := r.value.walls, enemies := r.value.enemies,
                                    collectible := r.value.collectible, rng := r.value.rng)
    ensures r.Ok? ==> r.value.rng.draws == seed.draws && seed.used < r.value.rng.used
  {
    Init(g.(score := 0, player := BuildPlayer(g.playerConfig), rng := seed), patience)
  }

  /** A reset lays out the arena afresh: the frame and `nRandomWalls` interior
      walls, and the full eleven-enemy roster. */
  lemma ResetLayout(g: Game, seed: Rng, patience: nat)
    ensures Reset(g, seed, patience).Ok? ==>
      var r := Reset(g, seed, patience).value;
      && |r.walls| == 2 * g.width + 2 * g.height + g.nRandomWalls
      && (forall i :: 0 <= i < 2 * g.width + 2 * g.height ==> OnBorder(r.walls[i], g.width, g.height))
      && (forall i :: 2 * g.width + 2 * g.height <= i < |r.walls| ==> Interior(r.walls[i], g.width, g.height))
      && |r.enemies| == RosterSize
      && (forall i :: 0 <= i < RosterSize ==> r.enemies[i].speed == (i + 1) as real * 0.05)
  {
    var blank := g.(score := 0, player := BuildPlayer(g.playerConfig), rng := seed);
    InitWallLayout(blank, patience);
    InitRoster(blank, patience);
  }

  /** A reset finishes whenever one of the collectible's proposals drawn
      from the new generator misses every wall. */
  lemma ResetFindsFree(g: Game, seed: Rng, patience: nat, k: nat)
    requires 3 <= g.width && 3 <= g.height && k < patience
    requires Candidate(seed.Skip(2 * (g.nRandomWalls + RosterSize)), k, g.width, g.height)
             !in InitWalls(g.width, g.height, g.nRandomWalls, seed).value.0
    ensures Reset(g, seed, patience).Ok?
  {
    InitFindsFree(g.(score := 0, player := BuildPlayer(g.playerConfig), rng := seed), patience, k);
  }

  /** Whatever happened during play, a reset with the same generator leads to
      the same world. */
  lemma ResetForgetsPlay(g: Game, m: Motion, seed: Rng, patience: nat)
    requires |m.enemyCells| == |g.enemies|
    ensures Update(g, m, patience).Ok? ==>
              Reset(Update(g, m, patience).value, seed, patience) == Reset(g, seed, patience)
  {
  }

  /** A tick keeps the world valid: walls do not change and a respawned
      collectible lands inside the frame and off every wall. */
  lemma UpdatePreservesValid(g: Game, m: Motion, patience: nat)
    requires |m.enemyCells| == |g.enemies|
    ensures Valid(g) && Update(g, m, patience).Ok? ==> Valid(Update(g, m, patience).value)
  {
  }

  /** A player that starts off the walls never walks into one. */
  lemma UpdateKeepsPlayerOffWalls(g: Game, m: Motion, patience: nat)
    requires |m.enemyCells| == |g.enemies|
    ensures g.player.cell !in g.walls && Update(g, m, patience).Ok? ==>
              Update(g, m, patience).value.player.cell !in Update(g, m, patience).value.walls
  {
  }

  /** Consecutive ticks, one per motion. */
  function Ticks(g: Game, ms: seq<Motion>, patience: nat): (r: Result<Game>)
    requires forall i :: 0 <= i < |ms| ==> |ms[i].enemyCells| == |g.enemies|
    decreases |ms|
    ensures r.Ok? ==> g.score <= r.value.score <= g.score + |ms|
    ensures r.Ok? ==> r.value.player.health <= g.player.health
    ensures r.Ok? && !g.player.IsAlive() ==> !r.value.player.IsAlive()
    ensures r.Ok? ==> r.value.walls == g.walls && |r.value.enemies| == |g.enemies|
    ensures r.Ok? ==> r.value.width == g.width && r.value.height == g.height
    ensures r.Ok? && Valid(g) ==> Valid(r.value)
    ensures r.Ok? && g.player.cell !in g.walls ==> r.value.player.cell !in r.value.walls
  {
    if ms == [] then Ok(g)
    else
      var next :- Update(g, ms[0], patience);
      assert Valid(g) ==> Valid(next) by {
        UpdatePreservesValid(g, ms[0], patience);
      }
      assert g.player.cell !in g.walls ==> next.player.cell !in next.walls by {
        if g.player.cell !in g.walls { UpdateKeepsPlayerOffWalls(g, ms[0], patience); }
      }
      assert |next.enemies| == |CellsOf(next.enemies)| == |g.enemies|;
      Ticks(next, ms[1..], patience)
  }
}
