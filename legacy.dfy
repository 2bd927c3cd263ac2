/** The earlier revision of the game, `GameAPI` in snake-api-lib/src/lib.rs: only a snake
    and an apple, and a tick that re-places the apple after every step. */
module Legacy {
  import opened Wrappers
  import opened Common
  import opened Snake
  import Api

  /** The outcome of a tick in this revision. */
  datatype GameState = Win | Lost | Base

  class GameAPI {
    var snake: ArrSnake
    var apples: Coord

    ghost predicate Valid()
      reads this, snake
    {
      snake.Valid() && apples.InGrid()
    }

    /** `new`: a default snake and an apple from the rejection loop over `draws`. */
    constructor (draws: seq<Coord>)
      requires forall k | 0 <= k < |draws| :: draws[k].InGrid()
      requires exists k | 0 <= k < |draws| :: Api.FarFromMiddle(draws[k])
      ensures Valid() && fresh(snake) && fresh(snake.maps)
      ensures Api.FarFromMiddle(apples) && apples in draws
      ensures snake.head == Middle() && snake.tail == Middle() && snake.direction == Left
      ensures forall d, k | 0 <= d < 4 && 0 <= k < GridArea :: !snake.maps[d, k]
    {
      snake := new ArrSnake();
      var c, _ := Api.SampleApple(draws);
      apples := c;
    }

    /** `get_pos`: the same code as in the later revision. */
    function GetPos(pos: Coord): (r: Option<Cell>)
      reads this, snake, snake.maps
      requires Valid()
      ensures r.None? <==> pos != apples && pos.Index() >= GridArea
      ensures r == Some(Apple) <==> pos == apples
      ensures r == Some(Cell.Snake) <==>
                (pos != apples && pos.Index() < GridArea && forall d | 0 <= d < 4 :: snake.maps[d, pos.Index()])
    {
      Api.CellAt(snake, apples, pos)
    }

    /** `next`: lose on an invalid move; otherwise step and re-sample the apple whether or
        not it was eaten, winning when no free cell is left. */
    method Next(pick: nat) returns (r: Result<GameState>)
      requires Valid()
      modifies this, snake.maps
      ensures Valid() && snake == old(snake)
      ensures r.Ok?
      ensures !old(snake.IsNextValid()) ==> r.value == Lost && unchanged(this) && unchanged(snake.maps)
      ensures old(snake.IsNextValid()) ==>
                && snake.SteppedFrom(NextCell(snake.head, snake.direction).value == old(apples))
                && (r.value == Win <==> snake.GetFreeSpot(pick).None?)
                && (r.value == Win ==> apples == old(apples))
                && (r.value != Win ==> r.value == Base && apples == snake.GetFreeSpot(pick).value)
    {
      if !snake.IsNextValid() {
        return Ok(Lost);
      }
      var next := NextCell(snake.head, snake.direction);
      if next.Err? {
        match next case Err(m) => return Err(m);
      }
      var withFood := next.value == apples;
      var stepped := snake.Step(withFood);
      if stepped.Err? {
        match stepped case Err(m) => return Err(m);
      }
      var spot := snake.GetFreeSpot(pick);
      if spot.Some? {
        apples := spot.value;
        return Ok(Base);
      } else {
        return Ok(Win);
      }
    }
  }
}
