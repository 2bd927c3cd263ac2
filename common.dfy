/** Grid coordinates and directions (snake-api-lib/src/common.rs). */
module Common {

  /** Number of rows and columns of the board. */
  const GridX: nat := 32
  const GridY: nat := 40
  /** Number of cells, which is also the length of every bit map. */
  const GridArea: nat := GridX * GridY

  /** Rust's `u8`. */
  newtype u8 = x: int | 0 <= x < 0x100

  /** The `u8` that a wrapping computation on `x` yields (two's complement casts). */
  function Wrap(x: int): (r: u8)
    ensures r as int == x % 0x100
  {
    (x % 0x100) as u8
  }

  /** `a.abs_diff(b)` on `u8`. */
  function AbsDiff(a: u8, b: u8): (r: nat)
    ensures r == 0 <==> a == b
    ensures a as int == b as int + r || b as int == a as int + r
  {
    if a >= b then (a - b) as nat else (b - a) as nat
  }

  function Max(a: nat, b: nat): nat
  {
    if a >= b then a else b
  }

  datatype Direction = Left | Up | Right | Down
  {
    /** The enum discriminant: Left = 0, Up = 1, Right = 2, Down = 3. */
    function Ordinal(): (n: nat)
      ensures n < 4
      ensures FromOrdinal(n) == this
    {
      match this
      case Left => 0
      case Up => 1
      case Right => 2
      case Down => 3
    }
  }

  /** The direction whose discriminant is `n`. */
  function FromOrdinal(n: nat): (d: Direction)
    requires n < 4
  {
    if n == 0 then Left else if n == 1 then Up else if n == 2 then Right else Down
  }

  /** `Direction::default()`. */
  function DefaultDirection(): (d: Direction)
    ensures d.Ordinal() == 0
  {
    Left
  }

  lemma OrdinalInjective(a: Direction, b: Direction)
    ensures a.Ordinal() == b.Ordinal() <==> a == b
  {
  }

  /** The cell of the grid in row `i` and column `j`. */
  datatype Coord = Coord(i: u8, j: u8)
  {
    predicate InGrid()
    {
      (i as int) < GridX && (j as int) < GridY
    }

    /** Manhattan distance. */
    function L1(other: Coord): (r: nat)
      ensures r == 0 <==> this == other
      ensures L0(other) <= r <= 2 * L0(other)
    {
      AbsDiff(i, other.i) + AbsDiff(j, other.j)
    }

    /** Chebyshev distance. */
    function L0(other: Coord): (r: nat)
      ensures r == 0 <==> this == other
      ensures r >= AbsDiff(i, other.i) && r >= AbsDiff(j, other.j)
      ensures r == AbsDiff(i, other.i) || r == AbsDiff(j, other.j)
    {
      Max(AbsDiff(i, other.i), AbsDiff(j, other.j))
    }

    /** Row-major index of the cell into a bit map. */
    function Index(): (r: nat)
      ensures InGrid() ==> r < GridArea
      ensures (j as int) < GridY ==> r / GridY == i as int && r % GridY == j as int
    {
      (i as int) * GridY + (j as int)
    }

    /** The cell one step away in direction `d`, computed as `step` does it,
        by the discriminant's parity and wrapping `u8` arithmetic, without any edge check. */
    function AddDir(d: Direction): (r: Coord)
      ensures d == Left ==> r.i == i && r.j as int == (j as int - 1) % 0x100
      ensures d == Right ==> r.i == i && r.j as int == (j as int + 1) % 0x100
      ensures d == Up ==> r.j == j && r.i as int == (i as int - 1) % 0x100
      ensures d == Down ==> r.j == j && r.i as int == (i as int + 1) % 0x100
    {
      var o := d.Ordinal();
      if o % 2 == 0 then Coord(i, Wrap(j as int + o - 1))
      else Coord(Wrap(i as int + o - 2), j)
    }
  }

  /** A move from a board cell that shortens the Manhattan distance to a board cell
      shortens it by exactly one, wrap-around included. */
  lemma NearerStepIsOneStep(c: Coord, d: Direction, a: Coord)
    requires c.InGrid() && a.InGrid()
    requires c.AddDir(d).L1(a) < c.L1(a)
    ensures c.L1(a) == c.AddDir(d).L1(a) + 1
  {
    var n := c.AddDir(d);
    match d
    case Left =>
      assert n.i == c.i && n.j as int == (c.j as int - 1) % 0x100;
    case Right =>
      assert n.i == c.i && n.j as int == c.j as int + 1;
    case Up =>
      assert n.j == c.j && n.i as int == (c.i as int - 1) % 0x100;
    case Down =>
      assert n.j == c.j && n.i as int == c.i as int + 1;
  }

  /** `into_index` does not check the column: a column from 40 on names a cell of the
      next row, so an off-board cell shares its index with a board cell. */
  lemma ColumnOverflowAliases(c: Coord)
    requires (c.i as int) < GridX - 1 && GridY <= c.j as int < 2 * GridY
    ensures !c.InGrid()
    ensures var a := Coord(c.i + 1, c.j - GridY as u8); a.InGrid() && c.Index() == a.Index()
  {
  }

  /** The cell with row-major index `m`. */
  function FromIndex(m: nat): (c: Coord)
    requires m < GridArea
    ensures c.InGrid() && c.Index() == m
  {
    Coord((m / GridY) as u8, (m % GridY) as u8)
  }

  /** The centre of the board, `Coord::middle()`. */
  function Middle(): (c: Coord)
    ensures c.InGrid()
    ensures c == Coord(16, 20)
  {
    Coord((GridX / 2) as u8, (GridY / 2) as u8)
  }

  /** `Coord::default()`. */
  function DefaultCoord(): (c: Coord)
    ensures c == Middle()
  {
    Middle()
  }

  /** What a board position holds, as `get_pos` reports it. */
  datatype Cell = Snake | Apple | Empty

  lemma L1Symmetric(a: Coord, b: Coord)
    ensures a.L1(b) == b.L1(a)
  {
  }

  lemma L0Symmetric(a: Coord, b: Coord)
    ensures a.L0(b) == b.L0(a)
  {
  }

  lemma L1Triangle(a: Coord, b: Coord, c: Coord)
    ensures a.L1(c) <= a.L1(b) + b.L1(c)
  {
  }

  lemma L0Triangle(a: Coord, b: Coord, c: Coord)
    ensures a.L0(c) <= a.L0(b) + b.L0(c)
  {
  }

  /** Within a row of `GridY` columns, distinct cells have distinct indices. */
  lemma IndexInjective(a: Coord, b: Coord)
    requires (a.j as int) < GridY && (b.j as int) < GridY
    ensures a.Index() == b.Index() <==> a == b
  {
    if a.Index() == b.Index() {
      assert a.i as int == a.Index() / GridY == b.i as int;
    }
  }

  /** `into_index` and `FromIndex` are inverse bijections between the grid and [0, GridArea). */
  lemma IndexRoundTrip(c: Coord)
    requires c.InGrid()
    ensures FromIndex(c.Index()) == c
  {
    IndexInjective(FromIndex(c.Index()), c);
  }
}
