/** The world of one session and the builder that configures it. */
module World {
  import opened Point
  import opened Traits
  import opened Unit

  /** Everything the update rules read and write. Terminal handles are not
      part of the state. */
  datatype Game = Game(
    height: u16,
    width: u16,
    score: u32,
    enemies: seq<Enemy>,
    nRandomWalls: u16,
    walls: seq<Cell>,
    collectible: Cell,
    player: Player,
    playerConfig: PlayerConfig,
    rng: Rng,
    intervalMillis: nat)

  /** The fluent configuration of a session. */
  datatype GameBuilder = GameBuilder(
    height: u16,
    width: u16,
    nRandomWalls: u16,
    intervalMillis: nat,
    playerConfig: PlayerConfig,
    enemies: seq<Enemy>,
    walls: seq<Cell>)
  {
    function Width(w: u16): GameBuilder { this.(width := w) }
    function Height(h: u16): GameBuilder { this.(height := h) }
    function PlayerStartingHealth(health: u8): GameBuilder {
      this.(playerConfig := playerConfig.WithHealth(health))
    }
    function PlayerStartingSpeed(speed: real): GameBuilder {
      this.(playerConfig := playerConfig.WithSpeed(speed))
    }
    function NRandomWalls(n: u16): GameBuilder { this.(nRandomWalls := n) }
    function UpdateInterval(millis: nat): GameBuilder { this.(intervalMillis := millis) }
    function Enemies(es: seq<Enemy>): GameBuilder { this.(enemies := es) }
    function Walls(ws: seq<Cell>): GameBuilder { this.(walls := ws) }
  }

  /** `build`: a session with no score and the collectible at its default
      cell, whose player is built from the configuration that is also kept
      for later resets. `rng` is the freshly created generator. */
  function Build(b: GameBuilder, rng: Rng): (g: Game)
    ensures g.score == 0 && g.collectible == Origin
    ensures g.player == BuildPlayer(b.playerConfig) && g.playerConfig == b.playerConfig
    ensures g.width == b.width && g.height == b.height && g.nRandomWalls == b.nRandomWalls
    ensures g.intervalMillis == b.intervalMillis
    ensures g.enemies == b.enemies && g.walls == b.walls && g.rng == rng
  {
    Game(b.height, b.width, 0, b.enemies, b.nRandomWalls, b.walls, Origin,
         BuildPlayer(b.playerConfig), b.playerConfig, rng, b.intervalMillis)
  }

  const DefaultHeight: u16 := 48
  const DefaultWidth: u16 := 80
  const DefaultIntervalMillis: nat := 50

  /** `GameBuilder::new`. `playerDefaults` is what the player builder's own
      constructor yields. */
  function NewBuilder(playerDefaults: PlayerConfig): GameBuilder {
    GameBuilder(DefaultHeight, DefaultWidth, 0, DefaultIntervalMillis, playerDefaults,
                [EnemyWithSpeed(0.1), EnemyWithSpeed(0.5), EnemyWithSpeed(0.8)], [])
  }

  /** The invariant of a world that has been through `init`: an arena large
      enough to sample in, a closed frame of walls, walls only inside the
      arena, and the collectible inside the frame and on no wall. */
  ghost predicate Valid(g: Game) {
    && 3 <= g.width && 3 <= g.height
    && (forall c :: OnBorder(c, g.width, g.height) ==> c in g.walls)
    && (forall i :: 0 <= i < |g.walls| ==> InArena(g.walls[i], g.width, g.height))
    && g.collectible !in g.walls
    && Interior(g.collectible, g.width, g.height)
  }
}
