/** The occupancy grid `ArrSnake` (snake-api-lib/src/snake.rs): four bit maps, one per
    direction, plus the current direction and the head and tail cells. */
module Snake {
  import opened Wrappers
  import opened Common

  /** The edge cases `step` rejects before moving. The Down and Right guards compare
      with `GRID_X` (32) as the source does. */
  predicate Blocked(c: Coord, d: Direction)
  {
    || (d == Left && c.j == 0)
    || (d == Up && c.i == 0)
    || (d == Down && c.i as int == GridX)
    || (d == Right && c.j as int == GridX)
  }

  /** The cell the head moves to: the match at the top of `step`, which the game also
      uses as `next_step`. */
  function NextCell(c: Coord, d: Direction): (r: Result<Coord>)
    ensures r.Err? <==> Blocked(c, d)
    ensures r.Ok? ==> r.value == c.AddDir(d)
  {
    if Blocked(c, d) then Err("Invalid coordinate") else Ok(c.AddDir(d))
  }

  /** The value of bit `k` of map `d` after a successful `step` that wrote the new head
      at index `idx` of map `dir` and, unless food was eaten, cleared index `tailIdx`. */
  function StepBit(was: bool, d: nat, k: nat, dir: nat, idx: nat, tailIdx: nat, withFood: bool): bool
  {
    if !withFood && k == tailIdx then false
    else if d == dir && k == idx then true
    else was
  }

  /** What a successful step does to one bit: the new head bit is set unless that index is
      also the tail being cleared; without food the tail index is cleared in every map;
      with food no bit is cleared; every other bit keeps its value. */
  lemma StepBitEffect(was: bool, d: nat, k: nat, dir: nat, idx: nat, tailIdx: nat, withFood: bool)
    ensures d == dir && k == idx && (withFood || k != tailIdx) ==> StepBit(was, d, k, dir, idx, tailIdx, withFood)
    ensures !withFood && k == tailIdx ==> !StepBit(was, d, k, dir, idx, tailIdx, withFood)
    ensures withFood && was ==> StepBit(was, d, k, dir, idx, tailIdx, withFood)
    ensures (k != idx || d != dir) && (withFood || k != tailIdx) ==> StepBit(was, d, k, dir, idx, tailIdx, withFood) == was
  {
  }

  class ArrSnake {
    /** `maps[d, k]` is bit `k` of the map of the direction with discriminant `d`. */
    var maps: array2<bool>
    var direction: Direction
    var head: Coord
    var tail: Coord

    ghost predicate Valid()
      reads this
    {
      maps.Length0 == 4 && maps.Length1 == GridArea && tail.Index() < GridArea
    }

    /** `ArrSnake::default()`: every bit clear, direction Left, head and tail at the centre. */
    constructor ()
      ensures Valid() && fresh(maps)
      ensures direction == DefaultDirection() && head == DefaultCoord() && tail == DefaultCoord()
      ensures forall d, k | 0 <= d < 4 && 0 <= k < GridArea :: !maps[d, k]
    {
      maps := new bool[4, GridArea]((d, k) => false);
      direction := DefaultDirection();
      head := DefaultCoord();
      tail := DefaultCoord();
    }

    /** No map has bit `k` set. */
    predicate IsFreeAt(k: nat)
      reads this, maps
      requires Valid() && k < GridArea
    {
      !maps[0, k] && !maps[1, k] && !maps[2, k] && !maps[3, k]
    }

    /** `check_cell` as written: the guard is `>`, so index `GridArea` passes it and the
        bit read that follows is out of range (a panic in the source). */
    function CheckCell(c: Coord): (r: Option<bool>)
      reads this, maps
      requires Valid()
      requires c.Index() != GridArea
      ensures r.None? <==> c.Index() > GridArea
      ensures r.Some? ==> (r.value <==> forall d | 0 <= d < 4 :: maps[d, c.Index()])
    {
      var indx := c.Index();
      if indx > GridArea then None
      else Some(maps[0, indx] && maps[1, indx] && maps[2, indx] && maps[3, indx])
    }

    /** `check_cell` with the bound the code evidently intends (`>=`). A cell still reads
        as occupied only when all four maps have its bit. */
    function CheckCellFixed(c: Coord): (r: Option<bool>)
      reads this, maps
      requires Valid()
      ensures r.None? <==> c.Index() >= GridArea
      ensures r.Some? ==> (r.value <==> forall d | 0 <= d < 4 :: maps[d, c.Index()])
    {
      var indx := c.Index();
      if indx >= GridArea then None
      else Some(maps[0, indx] && maps[1, indx] && maps[2, indx] && maps[3, indx])
    }

    /** The two agree on every input the as-written guard handles without a panic. */
    lemma CheckCellAgrees(c: Coord)
      requires Valid() && c.Index() != GridArea
      ensures CheckCell(c) == CheckCellFixed(c)
    {
    }

    /** The all-four test reads a cell holding a single direction bit, which is how a body
        segment is stored, as not occupied. */
    lemma SingleBitReadsEmpty(c: Coord, d: nat)
      requires Valid() && c.InGrid() && d < 4
      requires maps[d, c.Index()]
      requires forall e | 0 <= e < 4 && e != d :: !maps[e, c.Index()]
      ensures CheckCellFixed(c) == Some(false)
    {
      var e := if d == 0 then 1 else 0;
      assert !maps[e, c.Index()];
    }

    /** A cell that no map marks reads as free. */
    lemma FreeReadsEmpty(c: Coord)
      requires Valid() && c.InGrid() && IsFreeAt(c.Index())
      ensures CheckCellFixed(c) == Some(false)
    {
    }

    /** `insert` as written: index `GridArea` passes the `>` guard and the write that
        follows is out of range (a panic in the source). */
    method Insert(indx: nat, d: Direction) returns (r: Option<()>)
      requires Valid()
      requires indx != GridArea
      modifies maps
      ensures r.None? <==> indx > GridArea
      ensures forall e, k | 0 <= e < 4 && 0 <= k < GridArea ::
                maps[e, k] == (if r.Some? && e == d.Ordinal() && k == indx then true else old(maps[e, k]))
    {
      if indx > GridArea {
        return None;
      }
      maps[d.Ordinal(), indx] := true;
      return Some(());
    }

    /** `insert` with the evidently intended bound (`>=`). */
    method InsertFixed(indx: nat, d: Direction) returns (r: Option<()>)
      requires Valid()
      modifies maps
      ensures r.None? <==> indx >= GridArea
      ensures forall e, k | 0 <= e < 4 && 0 <= k < GridArea ::
                maps[e, k] == (if r.Some? && e == d.Ordinal() && k == indx then true else old(maps[e, k]))
    {
      if indx >= GridArea {
        return None;
      }
      maps[d.Ordinal(), indx] := true;
      return Some(());
    }

    /** `direction(dir)`: only the direction field changes. */
    method SetDirection(dir: Direction)
      modifies this`direction
      ensures direction == dir
      ensures head == old(head) && tail == old(tail) && maps == old(maps)
    {
      direction := dir;
    }

    /** The new bit maps are those of a successful `step` from the old ones. */
    twostate predicate SteppedFrom(withFood: bool)
      reads this, maps
      requires Valid()
    {
      var n := NextCell(head, direction);
      && n.Ok? && n.value.Index() < GridArea
      && old(maps) == maps
      && forall d, k | 0 <= d < 4 && 0 <= k < GridArea ::
           maps[d, k] == StepBit(old(maps[d, k]), d, k, direction.Ordinal(), n.value.Index(), tail.Index(), withFood)
    }

    /** `step`: fails at the guarded edges and when the new cell's index is past the maps;
        otherwise sets that bit in the current direction's map and, without food, clears
        the tail index in all four maps. Head and tail are never written. */
    method Step(withFood: bool) returns (r: Result<()>)
      requires Valid()
      modifies maps
      ensures Valid()
      ensures head == old(head) && tail == old(tail) && direction == old(direction)
      ensures r.Ok? <==> NextCell(head, direction).Ok? && NextCell(head, direction).value.Index() < GridArea
      ensures r.Ok? ==> SteppedFrom(withFood)
      ensures r.Err? ==> unchanged(maps)
    {
      var res := NextCell(head, direction);
      if res.Err? {
        return Err(res.msg);
      }
      var index := res.value.Index();
      if index >= GridArea {
        return Err("Out of bounds");
      }
      var dir := direction.Ordinal();
      maps[dir, index] := true;
      if !withFood {
        var t := tail.Index();
        for q := 0 to 4
          invariant forall d, k | 0 <= d < 4 && 0 <= k < GridArea ::
                      maps[d, k] == (if d < q && k == t then false
                                     else if d == dir && k == index then true
                                     else old(maps[d, k]))
        {
          maps[q, t] := false;
        }
      }
      return Ok(());
    }

    /** Number of indices in [k, GridArea) that some map marks. */
    function CountFrom(k: nat): (n: nat)
      reads this, maps
      requires Valid() && k <= GridArea
      ensures n <= GridArea - k
      decreases GridArea - k
    {
      if k == GridArea then 0
      else (if IsFreeAt(k) then 0 else 1) + CountFrom(k + 1)
    }

    /** The snake's `size`: the number of cells that some map marks. */
    function Size(): (n: nat)
      reads this, maps
      requires Valid()
      ensures n <= GridArea
    {
      CountFrom(0)
    }

    /** The cells with index in [k, GridArea) that no map marks, in row-major order. */
    function FreeFrom(k: nat): (s: seq<Coord>)
      reads this, maps
      requires Valid() && k <= GridArea
      ensures forall c | c in s :: c.InGrid() && k <= c.Index() && IsFreeAt(c.Index())
      ensures forall m | k <= m < GridArea && IsFreeAt(m) :: FromIndex(m) in s
      decreases GridArea - k
    {
      if k == GridArea then []
      else if IsFreeAt(k) then [FromIndex(k)] + FreeFrom(k + 1)
      else FreeFrom(k + 1)
    }

    /** `get_free_spot`: the random draw is the oracle `pick`, which selects one of the
        free cells. None exactly when every cell is marked in some map. */
    function GetFreeSpot(pick: nat): (r: Option<Coord>)
      reads this, maps
      requires Valid()
      ensures r.None? <==> forall m | 0 <= m < GridArea :: !IsFreeAt(m)
      ensures r.Some? ==> r.value.InGrid() && IsFreeAt(r.value.Index())
      ensures r.Some? ==> CheckCellFixed(r.value) == Some(false)
    {
      var s := FreeFrom(0);
      if |s| == 0 then None
      else
        assert s[0] in s && IsFreeAt(s[0].Index());
        Some(s[pick % |s|])
    }

    /** `is_next_valid`: the next head cell exists, lies on the board and does not read as
        occupied. */
    function IsNextValid(): (b: bool)
      reads this, maps
      requires Valid()
      ensures b <==> var n := head.AddDir(direction);
                     && !Blocked(head, direction) && n.InGrid()
                     && exists d | 0 <= d < 4 :: !maps[d, n.Index()]
    {
      var n := NextCell(head, direction);
      n.Ok? && n.value.InGrid() && CheckCellFixed(n.value) == Some(false)
    }

    /** When the next move is valid, `step` cannot fail. */
    lemma ValidMoveSteps()
      requires Valid() && IsNextValid()
      ensures NextCell(head, direction).Ok? && NextCell(head, direction).value.Index() < GridArea
    {
    }
  }

  /** From a cell on the board an accepted move goes to an adjacent cell. */
  lemma NextCellIsNeighbour(c: Coord, d: Direction)
    requires c.InGrid() && NextCell(c, d).Ok?
    ensures c.L1(NextCell(c, d).value) == 1 && c.L0(NextCell(c, d).value) == 1
  {
  }

  /** The Right guard compares with 32: a Right move from the last column is accepted
      and its index is that of the first cell of the next row. */
  lemma RightFromLastColumnEntersNextRow(c: Coord)
    requires c.InGrid() && c.j as int == GridY - 1 && (c.i as int) < GridX - 1
    ensures NextCell(c, Right).Ok?
    ensures NextCell(c, Right).value.Index() == Coord(c.i + 1, 0).Index()
  {
  }

  /** ... and a Right move from column 32, which has columns to its right, is rejected. */
  lemma RightBlockedInsideBoard(c: Coord)
    requires c.InGrid() && c.j as int == GridX
    ensures NextCell(c, Right).Err? && c.AddDir(Right).InGrid()
  {
  }

  /** The Down guard compares with 32, a row off the board: a Down move from the last row
      passes it and lands past the end of the maps, where `step` reports "Out of bounds". */
  lemma DownFromLastRowOutOfBounds(c: Coord)
    requires c.InGrid() && c.i as int == GridX - 1
    ensures NextCell(c, Down).Ok? && NextCell(c, Down).value.Index() >= GridArea
  {
  }

  /** The index the as-written guards of `check_cell` and `insert` let through although
      it is past the end of every map. */
  lemma GuardAdmitsPastEnd()
    ensures var c := Coord(GridX as u8, 0); !(c.Index() > GridArea) && c.Index() == GridArea
  {
  }
}
