/** The `Position` capability: every entity can report and overwrite its
    position, and can be moved to a random point of two half-open ranges.
    The random source is an infinite stream of raw draws; only the range a
    sample lands in is modelled, not its distribution. */
module Traits {
  import opened Point
  import opened Outcome

  /** A random number generator: the raw draws it will ever yield and how
      many of them have been consumed so far. */
  datatype Rng = Rng(draws: nat -> nat, used: nat) {
    function Next(): nat { draws(used) }
    function Skip(n: nat): Rng { Rng(draws, used + n) }
  }

  /** How a sampled coordinate is observed. `Exact` is an integer range;
      `Rounded` is a real range `start..end` seen through the rounding to the
      nearest cell, which can land on `end` itself. */
  datatype Sampling = Exact | Rounded

  /** The coordinates a sample over `r` can produce. */
  predicate Admits(r: Range, s: Sampling, v: int) {
    match s
    case Exact => r.Contains(v)
    case Rounded => r.start <= v <= r.end
  }

  function Span(r: Range, s: Sampling): nat
    requires !r.IsEmpty()
  {
    match s
    case Exact => r.end - r.start
    case Rounded => r.end - r.start + 1
  }

  /** Maps one raw draw into the range. */
  function Scale(raw: nat, r: Range, s: Sampling): nat
    requires !r.IsEmpty()
  {
    r.start + raw % Span(r, s)
  }

  /** The scaling loses no value of the range: every admitted coordinate is
      the image of some raw draw, so the stream can steer a sample anywhere
      the range allows. */
  lemma ScaleReachesEveryValue(r: Range, s: Sampling, v: int)
    requires !r.IsEmpty() && Admits(r, s, v)
    ensures exists raw: nat :: Scale(raw, r, s) == v
  {
    var raw: nat := v - r.start;
    assert Scale(raw, r, s) == v;
  }

  /** `rng.gen_range(r)`: panics on an empty range, otherwise consumes one
      draw and yields a coordinate inside the range. */
  function GenRange(rng: Rng, r: Range, s: Sampling): (res: Result<(nat, Rng)>)
    ensures res.Err? <==> r.IsEmpty()
    ensures res.Err? ==> res.fault == EmptyRange
    ensures res.Ok? ==> Admits(r, s, res.value.0) && res.value.1 == rng.Skip(1)
  {
    if r.IsEmpty() then Err(EmptyRange)
    else Ok((Scale(rng.Next(), r, s), rng.Skip(1)))
  }

  /** The point sampled by `set_rand_position`: x from `xr` first, then y
      from `yr`. */
  function SampleCell(rng: Rng, xr: Range, yr: Range, s: Sampling): (res: Result<(Cell, Rng)>)
    ensures res.Err? <==> xr.IsEmpty() || yr.IsEmpty()
    ensures res.Err? ==> res.fault == EmptyRange
    ensures res.Ok? ==> Admits(xr, s, res.value.0.x) && Admits(yr, s, res.value.0.y)
    ensures res.Ok? ==> res.value.1 == rng.Skip(2)
  {
    var x :- GenRange(rng, xr, s);
    var y :- GenRange(x.1, yr, s);
    Ok((Cell(x.0, y.0), y.1))
  }

  /** The default method `set_rand_position` of the `Position` trait, for an
      entity of any type `E` whose `set_position` is `setPosition`. Its only
      effect on the entity is one `set_position` with a point inside both
      ranges; the generator advances by two draws. */
  function SetRandPosition<E>(entity: E, setPosition: (E, Cell) -> E, rng: Rng,
                              xr: Range, yr: Range, s: Sampling): (res: Result<(E, Rng)>)
    ensures res.Err? <==> xr.IsEmpty() || yr.IsEmpty()
    ensures res.Err? ==> res.fault == EmptyRange
    ensures res.Ok? ==> exists p: Cell :: Admits(xr, s, p.x) && Admits(yr, s, p.y)
                                          && res.value.0 == setPosition(entity, p)
    ensures res.Ok? ==> res.value.1 == rng.Skip(2)
  {
    var sample :- SampleCell(rng, xr, yr, s);
    var p := sample.0;
    assert Admits(xr, s, p.x) && Admits(yr, s, p.y);
    Ok((setPosition(entity, p), sample.1))
  }
}
