/** Grid geometry shared by every entity of the arena: integer cells
    (`Point2d<u16>` in the game), Rust's half-open ranges, the fixed-width
    integer types the game stores, and the regions of a w-by-h arena. */
module Point {

  const U8_LIMIT: int := 0x100
  const U16_LIMIT: int := 0x1_0000
  const U32_LIMIT: int := 0x1_0000_0000

  type u8 = x: int | 0 <= x < U8_LIMIT
  type u16 = x: int | 0 <= x < U16_LIMIT
  type u32 = x: int | 0 <= x < U32_LIMIT

  /** An integer grid cell. Real-valued positions of moving entities are
      represented by the cell they round to. */
  datatype Cell = Cell(x: nat, y: nat)

  /** Where a default wall or collectible sits before it is placed. */
  const Origin: Cell := Cell(0, 0)

  /** The half-open range `start..end` of Rust. */
  datatype Range = Range(start: nat, end: nat) {
    predicate IsEmpty() { end <= start }
    predicate Contains(v: int) { start <= v < end }
  }

  /** The set-position operation of an entity whose whole state is its cell
      (walls and the collectible). */
  function Place(entity: Cell, p: Cell): Cell { p }

  predicate InArena(c: Cell, w: int, h: int) {
    c.x < w && c.y < h
  }

  /** The frame of the arena: top and bottom rows, left and right columns. */
  predicate OnBorder(c: Cell, w: int, h: int) {
    InArena(c, w, h) && (c.x == 0 || c.y == 0 || c.x == w - 1 || c.y == h - 1)
  }

  /** The sampling region `[1, w-1) x [1, h-1)` used for random walls and the
      collectible. */
  predicate Interior(c: Cell, w: int, h: int) {
    1 <= c.x < w - 1 && 1 <= c.y < h - 1
  }

  /** Subtraction that stops at zero instead of wrapping or panicking. */
  function SaturatingSub(a: nat, b: nat): (d: nat)
    ensures d <= a
    ensures b <= a ==> d + b == a
    ensures a < b ==> d == 0
  {
    if a >= b then a - b else 0
  }
}
