/** Arena initialisation: the frame of walls, the random interior walls, the
    fixed enemy roster, and the placement of the collectible by rejection
    sampling. */
module Arena {
  import opened Point
  import opened Outcome
  import opened Traits
  import opened Unit
  import opened World

  /** The walls pushed by the first border loop after `k` iterations: for
      each column x, the top cell then the bottom cell. */
  function RowWalls(k: nat, bottom: nat): (r: seq<Cell>)
    ensures |r| == 2 * k
    ensures forall j :: 0 <= j < |r| ==>
              r[j] == (if j % 2 == 0 then Cell(j / 2, 0) else Cell(j / 2, bottom))
  {
    if k == 0 then [] else RowWalls(k - 1, bottom) + [Cell(k - 1, 0), Cell(k - 1, bottom)]
  }

  /** The walls pushed by the second border loop after `k` iterations: for
      each row y, the left cell then the right cell. */
  function ColumnWalls(k: nat, right: nat): (r: seq<Cell>)
    ensures |r| == 2 * k
    ensures forall j :: 0 <= j < |r| ==>
              r[j] == (if j % 2 == 0 then Cell(0, j / 2) else Cell(right, j / 2))
  {
    if k == 0 then [] else ColumnWalls(k - 1, right) + [Cell(0, k - 1), Cell(right, k - 1)]
  }

  /** Both border loops. `height - 1` is first evaluated in the row loop and
      `width - 1` in the column loop, so an arena with exactly one zero
      dimension panics; a 0-by-0 arena runs neither loop body. */
  function BorderWalls(w: u16, h: u16): (r: Result<seq<Cell>>)
    ensures r.Err? <==> (w == 0) != (h == 0)
    ensures r.Err? ==> r.fault == Underflow
    ensures r.Ok? ==> |r.value| == 2 * w + 2 * h
    ensures r.Ok? ==> forall i :: 0 <= i < |r.value| ==> OnBorder(r.value[i], w, h)
    ensures r.Ok? ==> forall c :: OnBorder(c, w, h) ==> c in r.value
  {
    if w == 0 && h == 0 then Ok([])
    else if w == 0 || h == 0 then Err(Underflow)
    else
      var rows := RowWalls(w, h - 1);
      var cols := ColumnWalls(h, w - 1);
      BorderCovered(rows, cols, w, h);
      Ok(rows + cols)
  }

  /** Every cell of the frame is pushed by one of the two loops, and nothing
      else is. */
  lemma BorderCovered(rows: seq<Cell>, cols: seq<Cell>, w: nat, h: nat)
    requires 0 < w && 0 < h
    requires rows == RowWalls(w, h - 1) && cols == ColumnWalls(h, w - 1)
    ensures forall i :: 0 <= i < |rows + cols| ==> OnBorder((rows + cols)[i], w, h)
    ensures forall c :: OnBorder(c, w, h) ==> c in rows + cols
  {
    var all := rows + cols;
    forall i | 0 <= i < |all|
      ensures OnBorder(all[i], w, h)
    {
      if i < |rows| {
        assert all[i] == rows[i];
      } else {
        assert all[i] == cols[i - |rows|];
      }
    }
    forall c | OnBorder(c, w, h)
      ensures c in all
    {
      if c.y == 0 {
        assert all[2 * c.x] == c;
      } else if c.y == h - 1 {
        assert all[2 * c.x + 1] == c;
      } else if c.x == 0 {
        assert all[|rows| + 2 * c.y] == c;
      } else {
        assert all[|rows| + 2 * c.y + 1] == c;
      }
    }
  }

  /** Each loop pushes both ends of its line, so every corner of the frame
      is listed twice: the list holds 2w + 2h entries for 2w + 2h - 4
      distinct cells. */
  lemma BorderListsCornersTwice(w: u16, h: u16)
    requires 2 <= w && 2 <= h
    ensures var b := BorderWalls(w, h).value;
      && b[0] == b[2 * w] == Cell(0, 0)
      && b[1] == b[2 * w + 2 * (h - 1)] == Cell(0, h - 1)
      && b[2 * (w - 1)] == b[2 * w + 1] == Cell(w - 1, 0)
      && b[2 * (w - 1) + 1] == b[2 * w + 2 * (h - 1) + 1] == Cell(w - 1, h - 1)
  {
  }

  /** The `n` random walls, each a default wall moved by `set_rand_position`
      into `[1, w-1) x [1, h-1)`, in the order they are pushed. */
  function RandomWalls(n: nat, w: u16, h: u16, rng: Rng): (r: Result<(seq<Cell>, Rng)>)
    ensures n == 0 ==> r == Ok(([], rng))
    ensures 0 < n && (w == 0 || h == 0) ==> r == Err(Underflow)
    ensures 0 < n && 0 < w && 0 < h && (w < 3 || h < 3) ==> r == Err(EmptyRange)
    ensures 3 <= w && 3 <= h ==> r.Ok?
    ensures r.Ok? ==> |r.value.0| == n
    ensures r.Ok? ==> forall i :: 0 <= i < n ==> Interior(r.value.0[i], w, h)
    ensures r.Ok? ==> r.value.1 == rng.Skip(2 * n)
  {
    if n == 0 then Ok(([], rng))
    else
      var right :- Sub16(w, 1);
      var bottom :- Sub16(h, 1);
      var first :- SetRandPosition(Origin, Place, rng, Range(1, right), Range(1, bottom), Exact);
      match RandomWalls(n - 1, w, h, first.1)
      case Ok(rest) => Ok(([first.0] + rest.0, rest.1))
      case Err(f) => Err(f)
  }

  const RosterSize: nat := 11

  /** The hard-coded roster `init` installs: speeds 0.05 * i for i in 1..12. */
  function Roster(): (es: seq<Enemy>)
    ensures |es| == RosterSize
    ensures forall i :: 0 <= i < RosterSize ==> es[i].speed == (i + 1) as real * 0.05
  {
    seq(RosterSize, i requires 0 <= i < RosterSize => EnemyWithSpeed((i + 1) as real * 0.05))
  }

  /** Each enemy in turn gets a random real position in `1.0..(w-1)` by
      `1.0..(h-1)`, observed as the cell it rounds to. */
  function PlaceEnemies(es: seq<Enemy>, w: u16, h: u16, rng: Rng): (r: Result<(seq<Enemy>, Rng)>)
    ensures es == [] ==> r == Ok(([], rng))
    ensures es != [] && (w == 0 || h == 0) ==> r == Err(Underflow)
    ensures es != [] && 0 < w && 0 < h && (w < 3 || h < 3) ==> r == Err(EmptyRange)
    ensures 3 <= w && 3 <= h ==> r.Ok?
    ensures r.Ok? ==> |r.value.0| == |es|
    ensures r.Ok? ==> forall i :: 0 <= i < |es| ==> r.value.0[i].speed == es[i].speed
    ensures r.Ok? ==> forall i :: 0 <= i < |es| ==>
              1 <= r.value.0[i].cell.x <= w - 1 && 1 <= r.value.0[i].cell.y <= h - 1
    ensures r.Ok? ==> r.value.1 == rng.Skip(2 * |es|)
  {
    if es == [] then Ok(([], rng))
    else
      var right :- Sub16(w, 1);
      var bottom :- Sub16(h, 1);
      var first :- SetRandPosition(es[0], SetEnemyPosition, rng, Range(1, right), Range(1, bottom), Rounded);
      match PlaceEnemies(es[1..], w, h, first.1)
      case Ok(rest) => Ok(([first.0] + rest.0, rest.1))
      case Err(f) => Err(f)
  }

  /** The `while` loop that moves the collectible to random interior cells
      until no wall shares its cell. The loop itself is unbounded; the model
      allows it `patience` resamples and reports `Exhausted` past that. */
  function Resample(walls: seq<Cell>, c: Cell, w: u16, h: u16, rng: Rng, patience: nat)
    : (r: Result<(Cell, Rng)>)
    decreases patience
    ensures c !in walls ==> r == Ok((c, rng))
    ensures r.Ok? ==> r.value.0 !in walls
    ensures r.Ok? && c in walls ==> Interior(r.value.0, w, h)
    ensures r.Ok? ==> r.value.0 == c || Interior(r.value.0, w, h)
    ensures r.Ok? ==> r.value.1.draws == rng.draws && rng.used <= r.value.1.used
    ensures r.Ok? && c in walls ==> rng.used + 2 <= r.value.1.used
    ensures r.Err? ==> c in walls
    ensures r.Err? ==> r.fault == Exhausted || w < 3 || h < 3
  {
    if c !in walls then Ok((c, rng))
    else if patience == 0 then Err(Exhausted)
    else
      var right :- Sub16(w, 1);
      var bottom :- Sub16(h, 1);
      var next :- SetRandPosition(c, Place, rng, Range(1, right), Range(1, bottom), Exact);
      Resample(walls, next.0, w, h, next.1, patience - 1)
  }

  /** The cell the k-th resample would propose: the sample drawn from the
      generator after 2k draws. */
  function Candidate(rng: Rng, k: nat, w: u16, h: u16): Cell
    requires 3 <= w && 3 <= h
  {
    SampleCell(rng.Skip(2 * k), Range(1, w - 1), Range(1, h - 1), Exact).value.0
  }

  /** One round of the loop on a wall cell: the next proposal replaces the
      collectible and one attempt is used up. */
  lemma ResampleStep(walls: seq<Cell>, c: Cell, w: u16, h: u16, rng: Rng, patience: nat)
    requires 3 <= w && 3 <= h && c in walls && 0 < patience
    ensures Resample(walls, c, w, h, rng, patience)
            == Resample(walls, Candidate(rng, 0, w, h), w, h, rng.Skip(2), patience - 1)
  {
  }

  /** Rejection sampling yields the first proposal that is not a wall, after
      consuming exactly the draws of the proposals up to it. */
  lemma {:induction false} ResampleTakesFirstFree(walls: seq<Cell>, c: Cell, w: u16, h: u16,
                                                  rng: Rng, patience: nat)
    requires 3 <= w && 3 <= h && c in walls
    requires Resample(walls, c, w, h, rng, patience).Ok?
    ensures exists k :: 0 <= k < patience && FirstFree(walls, rng, k, w, h)
              && Resample(walls, c, w, h, rng, patience)
                 == Ok((Candidate(rng, k, w, h), rng.Skip(2 * k + 2)))
    decreases patience
  {
    ResampleStep(walls, c, w, h, rng, patience);
    var next := Candidate(rng, 0, w, h);
    if next !in walls {
      assert FirstFree(walls, rng, 0, w, h);
      assert rng.Skip(2 * 0 + 2) == rng.Skip(2);
    } else {
      ResampleTakesFirstFree(walls, next, w, h, rng.Skip(2), patience - 1);
      var k :| 0 <= k < patience - 1 && FirstFree(walls, rng.Skip(2), k, w, h)
              && Resample(walls, next, w, h, rng.Skip(2), patience - 1)
                 == Ok((Candidate(rng.Skip(2), k, w, h), rng.Skip(2).Skip(2 * k + 2)));
      FirstFreeShift(walls, rng, k, w, h);
      assert rng.Skip(2).Skip(2 * k + 2) == rng.Skip(2 * (k + 1) + 2);
    }
  }

  /** Proposal k is free and every proposal before it hits a wall. */
  ghost predicate FirstFree(walls: seq<Cell>, rng: Rng, k: nat, w: u16, h: u16)
    requires 3 <= w && 3 <= h
  {
    && Candidate(rng, k, w, h) !in walls
    && forall j :: 0 <= j < k ==> Candidate(rng, j, w, h) in walls
  }

  lemma FirstFreeShift(walls: seq<Cell>, rng: Rng, k: nat, w: u16, h: u16)
    requires 3 <= w && 3 <= h
    requires Candidate(rng, 0, w, h) in walls && FirstFree(walls, rng.Skip(2), k, w, h)
    ensures FirstFree(walls, rng, k + 1, w, h)
    ensures Candidate(rng, k + 1, w, h) == Candidate(rng.Skip(2), k, w, h)
  {
    CandidateShift(rng, k, w, h);
    forall j | 0 <= j < k + 1
      ensures Candidate(rng, j, w, h) in walls
    {
      if j > 0 {
        CandidateShift(rng, j - 1, w, h);
      }
    }
  }

  /** Conversely, rejection sampling succeeds whenever one of the first
      `patience` proposals is free. */
  lemma {:induction false} ResampleFindsFree(walls: seq<Cell>, c: Cell, w: u16, h: u16,
                                             rng: Rng, patience: nat, k: nat)
    requires 3 <= w && 3 <= h
    requires k < patience && Candidate(rng, k, w, h) !in walls
    ensures Resample(walls, c, w, h, rng, patience).Ok?
    decreases patience
  {
    if c in walls {
      ResampleStep(walls, c, w, h, rng, patience);
      if k > 0 {
        CandidateShift(rng, k - 1, w, h);
        ResampleFindsFree(walls, Candidate(rng, 0, w, h), w, h, rng.Skip(2), patience - 1, k - 1);
      }
    }
  }

  /** When every interior cell is a wall, a collectible on a wall is never
      placed, whatever the generator yields. */
  lemma ResampleNeedsFreeInterior(walls: seq<Cell>, c: Cell, w: u16, h: u16,
                                  rng: Rng, patience: nat)
    requires 3 <= w && 3 <= h && c in walls
    requires forall c' :: Interior(c', w, h) ==> c' in walls
    ensures Resample(walls, c, w, h, rng, patience) == Err(Exhausted)
  {
  }

  /** Proposal k + 1 from a generator is proposal k from the generator after
      one proposal. */
  lemma CandidateShift(rng: Rng, k: nat, w: u16, h: u16)
    requires 3 <= w && 3 <= h
    ensures Candidate(rng, k + 1, w, h) == Candidate(rng.Skip(2), k, w, h)
  {
  }

  /** `init` finishes whenever one of the collectible's first `patience`
      proposals, drawn after the random walls and the roster, misses every
      wall. */
  lemma InitFindsFree(g: Game, patience: nat, k: nat)
    requires 3 <= g.width && 3 <= g.height && k < patience
    requires Candidate(g.rng.Skip(2 * (g.nRandomWalls + RosterSize)), k, g.width, g.height)
             !in InitWalls(g.width, g.height, g.nRandomWalls, g.rng).value.0
    ensures Init(g, patience).Ok?
  {
    var walls := InitWalls(g.width, g.height, g.nRandomWalls, g.rng).value;
    var placed := PlaceEnemies(Roster(), g.width, g.height, walls.1);
    assert placed.Ok? && placed.value.1 == g.rng.Skip(2 * (g.nRandomWalls + RosterSize));
    assert OnBorder(Origin, g.width, g.height);
    ResampleFindsFree(walls.0, Origin, g.width, g.height, placed.value.1, patience, k);
  }

  /** The wall list `init` leaves behind: the frame first, then the random
      walls. */
  function InitWalls(w: u16, h: u16, n: u16, rng: Rng): (r: Result<(seq<Cell>, Rng)>)
    ensures r == Err(Underflow) <==> (w == 0 || h == 0) && (0 < w + h || 0 < n)
    ensures r == Err(EmptyRange) <==> 0 < n && 0 < w && 0 < h && (w < 3 || h < 3)
    ensures r.Err? ==> r.fault == Underflow || r.fault == EmptyRange
    ensures r.Ok? ==> |r.value.0| == 2 * w + 2 * h + n
    ensures r.Ok? ==> forall c :: OnBorder(c, w, h) ==> c in r.value.0
    ensures r.Ok? ==> forall i :: 0 <= i < 2 * w + 2 * h ==> OnBorder(r.value.0[i], w, h)
    ensures r.Ok? ==> forall i :: 2 * w + 2 * h <= i < |r.value.0| ==> Interior(r.value.0[i], w, h)
    ensures r.Ok? ==> r.value.1 == rng.Skip(2 * n)
  {
    var border :- BorderWalls(w, h);
    var random :- RandomWalls(n, w, h, rng);
    var walls := border + random.0;
    assert forall i :: 2 * w + 2 * h <= i < |walls| ==> walls[i] == random.0[i - (2 * w + 2 * h)];
    Ok((walls, random.1))
  }

  /** `init`: clears the walls, pushes the frame and the random walls,
      replaces the enemy roster with the fixed eleven, and moves the
      collectible off every wall by rejection sampling. The player, score
      and configuration are left alone. */
  function Init(g: Game, patience: nat): (r: Result<Game>)
    ensures r == Err(Underflow) <==> g.width == 0 || g.height == 0
    ensures r == Err(EmptyRange) <==> 0 < g.width && 0 < g.height && (g.width < 3 || g.height < 3)
    ensures r.Err? ==> r.fault != Overflow
    ensures r.Ok? ==> Valid(r.value)
    ensures r.Ok? ==> r.value == g.(walls := r.value.walls, enemies := r.value.enemies,
                                    collectible := r.value.collectible, rng := r.value.rng)
    ensures r.Ok? ==> r.value.rng.draws == g.rng.draws
    ensures r.Ok? ==> g.rng.used + 2 * (g.nRandomWalls + RosterSize) + 2 <= r.value.rng.used
  {
    var walls :- InitWalls(g.width, g.height, g.nRandomWalls, g.rng);
    var placed :- PlaceEnemies(Roster(), g.width, g.height, walls.1);
    assert OnBorder(Origin, g.width, g.height);
    var spawn :- Resample(walls.0, Origin, g.width, g.height, placed.1, patience);
    Ok(g.(walls := walls.0, enemies := placed.0, collectible := spawn.0, rng := spawn.1))
  }

  /** The walls `init` lays out: the frame occupies the first 2w + 2h
      entries, corners included twice, followed by exactly the requested
      number of random walls, each strictly inside the frame. */
  lemma InitWallLayout(g: Game, patience: nat)
    ensures Init(g, patience).Ok? ==>
      var walls := Init(g, patience).value.walls;
      && |walls| == 2 * g.width + 2 * g.height + g.nRandomWalls
      && (forall i :: 0 <= i < 2 * g.width + 2 * g.height ==> OnBorder(walls[i], g.width, g.height))
      && (forall i :: 2 * g.width + 2 * g.height <= i < |walls| ==> Interior(walls[i], g.width, g.height))
  {
    if Init(g, patience).Ok? {
      var walls := InitWalls(g.width, g.height, g.nRandomWalls, g.rng);
      assert walls.Ok?;
      assert Init(g, patience).value.walls == walls.value.0;
    }
  }

  /** The roster `init` installs: the eleven enemies of speeds 0.05, 0.10,
      ..., 0.55, each placed where the rounding of a sample in `[1, w-1)` by
      `[1, h-1)` can land. */
  lemma InitRoster(g: Game, patience: nat)
    ensures Init(g, patience).Ok? ==>
      var es := Init(g, patience).value.enemies;
      && |es| == RosterSize
      && (forall i :: 0 <= i < RosterSize ==> es[i].speed == (i + 1) as real * 0.05)
      && (forall i :: 0 <= i < RosterSize ==>
            1 <= es[i].cell.x <= g.width - 1 && 1 <= es[i].cell.y <= g.height - 1)
  {
    if Init(g, patience).Ok? {
      var walls := InitWalls(g.width, g.height, g.nRandomWalls, g.rng);
      assert walls.Ok?;
      var placed := PlaceEnemies(Roster(), g.width, g.height, walls.value.1);
      assert placed.Ok?;
      assert Init(g, patience).value.enemies == placed.value.0;
    }
  }

  /** In a 3-by-3 arena the only interior cell is (1, 1). One random wall
      always lands there, and the frame covers every other cell, so the
      rejection loop of `init` never finds a place for the collectible: no
      number of attempts and no generator lets `init` finish. */
  lemma InitHangsOnFullInterior(g: Game, patience: nat)
    requires g.width == 3 && g.height == 3 && 1 <= g.nRandomWalls
    ensures Init(g, patience) == Err(Exhausted)
  {
    var walls := InitWalls(3, 3, g.nRandomWalls, g.rng);
    assert walls.Ok?;
    var placed := PlaceEnemies(Roster(), 3, 3, walls.value.1);
    assert placed.Ok?;
    InteriorWalled(walls.value.0, g.nRandomWalls);
    ResampleNeedsFreeInterior(walls.value.0, Origin, 3, 3, placed.value.1, patience);
  }

  /** A random wall of a 3-by-3 arena can only be the cell (1, 1). */
  lemma InteriorWalled(walls: seq<Cell>, n: nat)
    requires 1 <= n && |walls| == 12 + n
    requires forall c :: OnBorder(c, 3, 3) ==> c in walls
    requires forall i :: 12 <= i < |walls| ==> Interior(walls[i], 3, 3)
    ensures Origin in walls
    ensures forall c :: Interior(c, 3, 3) ==> c in walls
  {
    assert OnBorder(Origin, 3, 3);
    assert Interior(walls[12], 3, 3);
    assert walls[12] == Cell(1, 1);
  }
}
