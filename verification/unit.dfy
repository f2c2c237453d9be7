/** The entities the world is made of. Their own code (the `unit` module of
    the game) is not part of this model: only the state the world rules read
    and write is kept, and positions are the cells they round to. */
module Unit {
  import opened Point

  datatype Heading = Up | Down | Left | Right

  /** What the player builder remembers, so that `reset` can build a fresh
      player: starting health and speed, where it starts and which way it
      faces. */
  datatype PlayerConfig = PlayerConfig(health: u8, speed: real, start: Cell, heading: Heading) {
    function WithHealth(h: u8): PlayerConfig { this.(health := h) }
    function WithSpeed(s: real): PlayerConfig { this.(speed := s) }
  }

  datatype Player = Player(cell: Cell, heading: Heading, speed: real, health: u8) {
    predicate IsAlive() { health > 0 }

    /** `take_damage(n)`: health drops by `n`, saturating at zero. */
    function TakeDamage(n: u8): (p: Player)
      ensures p.health == SaturatingSub(health, n)
      ensures p == this.(health := p.health)
    {
      this.(health := SaturatingSub(health, n))
    }
  }

  function BuildPlayer(cfg: PlayerConfig): Player {
    Player(cfg.start, cfg.heading, cfg.speed, cfg.health)
  }

  /** An enemy: the cell it occupies and its per-tick speed. */
  datatype Enemy = Enemy(cell: Cell, speed: real)

  /** `Enemy::with_speed(s)`; the cell is overwritten before it is read. */
  function EnemyWithSpeed(s: real): Enemy {
    Enemy(Origin, s)
  }

  function SetEnemyPosition(e: Enemy, p: Cell): Enemy {
    e.(cell := p)
  }
}
