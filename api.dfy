/** The game state machine `GameAPI` (snake-api-lib/src/api.rs). */
module Api {
  import opened Wrappers
  import opened Common
  import opened Snake

  /** The five speed tiers, slowest first. */
  datatype Speed = Slow | Medium | Hard | VeryHard | GodMode
  {
    /** Position of the tier in declaration order. */
    function Rank(): (n: nat)
      ensures n < 5
    {
      match this
      case Slow => 0
      case Medium => 1
      case Hard => 2
      case VeryHard => 3
      case GodMode => 4
    }

    /** `to_score`: points an apple is worth at this tier. */
    function ToScore(): (r: nat)
      ensures r >= 10
    {
      match this
      case Slow => 10
      case Medium => 20
      case Hard => 50
      case VeryHard => 100
      case GodMode => 150
    }
  }

  /** `Speed::default()`. */
  function DefaultSpeed(): (s: Speed)
    ensures s.Rank() == 0
  {
    Slow
  }

  /** A faster tier is worth strictly more per apple. */
  lemma ToScoreStrictlyIncreasing(s: Speed, t: Speed)
    ensures s.Rank() < t.Rank() <==> s.ToScore() < t.ToScore()
  {
  }

  /** The tier `set_speed` picks for a snake of `size` cells: the fraction `size / area`
      falls in [0.2 * rank, 0.2 * (rank + 1)), the top tier also taking 1.0. */
  function SpeedFor(size: nat): (s: Speed)
    requires size <= GridArea
    ensures s.Rank() * GridArea <= 5 * size
    ensures s != GodMode ==> 5 * size < (s.Rank() + 1) * GridArea
  {
    if size < 256 then Slow
    else if size < 512 then Medium
    else if size < 768 then Hard
    else if size < 1024 then VeryHard
    else GodMode
  }

  /** A longer snake never plays at a slower tier. */
  lemma SpeedForMonotone(a: nat, b: nat)
    requires a <= b <= GridArea
    ensures SpeedFor(a).Rank() <= SpeedFor(b).Rank()
  {
  }

  datatype GameOptions = GameOptions(timeSpeedDel: nat)

  /** `GameOptions::default()`: the score decays once every fifth of the board's area. */
  function DefaultOptions(): (o: GameOptions)
    ensures o.timeSpeedDel == 256
  {
    GameOptions(GridArea / 5)
  }

  /** `u128::is_multiple_of`: with divisor 0, only 0 is a multiple. */
  function IsMultipleOf(a: nat, b: nat): (r: bool)
    ensures b == 0 ==> (r <==> a == 0)
  {
    if b == 0 then a == 0 else a % b == 0
  }

  /** The score after the periodic one-point decay of `next`, which saturates at zero. */
  function Decayed(score: nat, steps: nat, del: nat): (r: nat)
    ensures r <= score && score <= r + 1
    ensures r < score <==> score > 0 && IsMultipleOf(steps, del)
  {
    if IsMultipleOf(steps, del) && score > 0 then score - 1 else score
  }

  datatype StepResult =
    | Win(numSteps: nat)
    | Lost(numSteps: nat, numberOfFruits: nat, snakeSize: nat, levelReached: Speed)
    | Base

  /** What `to_game_repr` captures of a game. The board encoding is not part of this
      model; the snapshot records the head, the direction, the apple and the counters. */
  datatype Snapshot = Snapshot(head: Coord, direction: Direction, apple: Coord, numOfApples: nat, steps: nat)

  /** An apple may spawn at a cell more than one step (in Chebyshev distance) from the centre. */
  predicate FarFromMiddle(c: Coord)
  {
    Middle().L0(c) > 1
  }

  /** The rejection loop of `new`: `draws` are the successive cells the random source
      yields (each on the board); the first one far enough from the centre is kept. */
  method SampleApple(draws: seq<Coord>) returns (c: Coord, taken: nat)
    requires forall k | 0 <= k < |draws| :: draws[k].InGrid()
    requires exists k | 0 <= k < |draws| :: FarFromMiddle(draws[k])
    ensures taken < |draws| && c == draws[taken]
    ensures c.InGrid() && FarFromMiddle(c)
    ensures forall k | 0 <= k < taken :: !FarFromMiddle(draws[k])
  {
    var n := 0;
    while !FarFromMiddle(draws[n])
      invariant 0 <= n < |draws|
      invariant forall k | 0 <= k < n :: !FarFromMiddle(draws[k])
      invariant exists k | n <= k < |draws| :: FarFromMiddle(draws[k])
      decreases |draws| - n
    {
      n := n + 1;
    }
    c, taken := draws[n], n;
  }

  /** `get_pos`, shared by both revisions of the game: the apple first, then the snake's
      all-four occupancy test. The first guard joins its two bounds with `&&`. */
  function CellAt(snake: ArrSnake, apples: Coord, pos: Coord): (r: Option<Cell>)
    reads snake, snake.maps
    requires snake.Valid()
  {
    if pos.i as int > GridX && pos.j as int > GridY then None
    else if apples == pos then Some(Apple)
    else match snake.CheckCellFixed(pos)
      case None => None
      case Some(b) => if b then Some(Cell.Snake) else Some(Empty)
  }

  class GameAPI {
    var snake: ArrSnake
    var apples: Coord
    var steps: nat
    var numOfApples: nat
    var score: nat
    var mode: Speed
    var gameOptions: GameOptions

    ghost predicate Valid()
      reads this, snake
    {
      snake.Valid() && apples.InGrid()
    }

    /** `new`: a default snake, an apple from the rejection loop over `draws`, zero
        counters, the slowest tier, and the given options or the default ones. */
    constructor (draws: seq<Coord>, options: Option<GameOptions>)
      requires forall k | 0 <= k < |draws| :: draws[k].InGrid()
      requires exists k | 0 <= k < |draws| :: FarFromMiddle(draws[k])
      ensures Valid() && fresh(snake) && fresh(snake.maps)
      ensures FarFromMiddle(apples) && apples in draws
      ensures steps == 0 && score == 0 && numOfApples == 0 && mode == Slow
      ensures gameOptions == (if options.Some? then options.value else DefaultOptions())
      ensures snake.head == Middle() && snake.tail == Middle() && snake.direction == Left
      ensures forall d, k | 0 <= d < 4 && 0 <= k < GridArea :: !snake.maps[d, k]
    {
      snake := new ArrSnake();
      var c, _ := SampleApple(draws);
      apples := c;
      steps, score, numOfApples := 0, 0, 0;
      mode := DefaultSpeed();
      gameOptions := if options.Some? then options.value else DefaultOptions();
    }

    /** `get_pos`: None only off the board, the apple taking precedence over the snake. */
    function GetPos(pos: Coord): (r: Option<Cell>)
      reads this, snake, snake.maps
      requires Valid()
      ensures r.None? <==> pos != apples && pos.Index() >= GridArea
      ensures r == Some(Apple) <==> pos == apples
      ensures r == Some(Cell.Snake) <==>
                (pos != apples && pos.Index() < GridArea && forall d | 0 <= d < 4 :: snake.maps[d, pos.Index()])
    {
      CellAt(snake, apples, pos)
    }

    /** `to_game_repr`. */
    function ToGameRepr(): (s: Snapshot)
      reads this, snake
      ensures s.head == snake.head && s.apple == apples && s.direction == snake.direction
      ensures s.numOfApples == numOfApples && s.steps == steps
    {
      Snapshot(snake.head, snake.direction, apples, numOfApples, steps)
    }

    /** `update_direction`: forwards to the snake's `direction`. */
    method UpdateDirection(dir: Direction)
      requires Valid()
      modifies snake
      ensures Valid() && snake.direction == dir
      ensures snake.head == old(snake.head) && snake.tail == old(snake.tail) && snake.maps == old(snake.maps)
    {
      snake.SetDirection(dir);
    }

    /** `set_speed`: the tier follows the snake's size. */
    method SetSpeed()
      requires Valid()
      modifies this`mode
      ensures mode == SpeedFor(snake.Size())
    {
      mode := SpeedFor(snake.Size());
    }

    /** `next`: one tick, with `pick` standing for the random draw of `get_free_spot`. */
    method Next(pick: nat) returns (r: Result<StepResult>)
      requires Valid()
      modifies this, snake.maps
      ensures Valid() && snake == old(snake) && gameOptions == old(gameOptions)
      ensures r.Ok?
      // an invalid move loses at once and changes nothing
      ensures !old(snake.IsNextValid()) ==>
                && r.value == Lost(old(steps), old(numOfApples), old(snake.Size()), old(mode))
                && unchanged(this) && unchanged(snake.maps)
      // otherwise the snake steps, eating when the new head cell is the apple
      ensures old(snake.IsNextValid()) ==>
                var food := NextCell(snake.head, snake.direction).value == old(apples);
                && snake.SteppedFrom(food)
                && (r.value.Win? <==> food && snake.GetFreeSpot(pick).None?)
                && (r.value.Win? ==>
                      && r.value == Win(old(steps))
                      && steps == old(steps) && numOfApples == old(numOfApples)
                      && score == old(score) && mode == old(mode) && apples == old(apples))
                && (!r.value.Win? ==>
                      && r.value == Base
                      && (food ==> apples == snake.GetFreeSpot(pick).value && numOfApples == old(numOfApples) + 1)
                      && (!food ==> apples == old(apples) && numOfApples == old(numOfApples))
                      && steps == old(steps) + 1
                      && mode == SpeedFor(snake.Size())
                      && score == Decayed(old(score) + (if food then mode.ToScore() else 0), steps, gameOptions.timeSpeedDel))
    {
      if !snake.IsNextValid() {
        return Ok(Lost(steps, numOfApples, snake.Size(), mode));
      }
      var next := NextCell(snake.head, snake.direction);
      if next.Err? {
        match next case Err(m) => return Err(m);
      }
      var withFood := next.value == apples;
      var stepped := snake.Step(withFood);
      if stepped.Err? {
        match stepped case Err(m) => return Err(m);
      }
      if withFood {
        var spot := snake.GetFreeSpot(pick);
        if spot.Some? {
          numOfApples := numOfApples + 1;
          apples := spot.value;
        } else {
          return Ok(Win(steps));
        }
      }
      steps := steps + 1;
      SetSpeed();
      score := score + (if withFood then mode.ToScore() else 0);
      score := Decayed(score, steps, gameOptions.timeSpeedDel);
      return Ok(Base);
    }
  }

  /** `get_pos` answers for an off-board cell whose index falls inside the maps (a column
      from 40 on): it reports what the maps hold for the aliased board cell. */
  lemma GetPosAnswersOffBoard(g: GameAPI, pos: Coord)
    requires g.Valid() && pos != g.apples
    requires (pos.i as int) < GridX - 1 && GridY <= pos.j as int < 2 * GridY
    ensures !pos.InGrid() && g.GetPos(pos).Some?
    ensures var a := Coord(pos.i + 1, pos.j - GridY as u8);
            a != g.apples ==> g.GetPos(pos) == g.GetPos(a)
  {
    ColumnOverflowAliases(pos);
  }

  /** While the head sits at the centre, as it does in this revision since `step` never
      moves it, no move can reach an apple placed by `new`. */
  lemma NoFoodNextToMiddle(apple: Coord, d: Direction)
    requires FarFromMiddle(apple)
    ensures NextCell(Middle(), d) != Ok(apple)
  {
  }
}
