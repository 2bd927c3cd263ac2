/** The episode driver `Simulator` (snake-api-lib/src/simulator.rs). */
module Simulator {
  import opened Wrappers
  import opened Common
  import opened Snake
  import opened Api

  datatype SimulatorOptions = SimulatorOptions(numberOfIterations: nat)

  /** `SimulationStepReward`; `Step(closer)` carries the shaped bit. */
  datatype Reward = Step(closer: bool) | Food | Won | Lost

  predicate IsTerminal(w: Reward)
  {
    w.Won? || w.Lost?
  }

  /** One record of a trajectory. */
  datatype SimulationStep = SimulationStep(snapshot: Snapshot, direction: Direction, reward: Reward, nextState: Option<Snapshot>)

  /** Snake size from which the shaped bit is always false. */
  const ShapingLimit: nat := 10

  /** The entry for direction `d` of the array of four the shaping computes: the
      neighbour in direction `d` reads as not occupied and is strictly closer to the
      apple (L1) than the head. */
  function Shaped(g: GameAPI, d: Direction): (b: bool)
    reads g, g.snake, g.snake.maps
    requires g.Valid()
    ensures b <==> var n := g.snake.head.AddDir(d);
                   && g.snake.CheckCellFixed(n) == Some(false)
                   && n.L1(g.apples) < g.snake.head.L1(g.apples)
  {
    var n := g.snake.head.AddDir(d);
    var t1 := match g.snake.CheckCellFixed(n) case Some(x) => !x case None => false;
    t1 && g.snake.head.L1(g.apples) > n.L1(g.apples)
  }

  /** From a head on the board, a true entry is a move exactly one step nearer to the
      apple: the `u8` wrap at column or row 0 never makes a move look nearer. */
  lemma ShapedIsOneStepNearer(g: GameAPI, d: Direction)
    requires g.Valid() && g.snake.head.InGrid() && Shaped(g, d)
    ensures g.snake.head.L1(g.apples) == g.snake.head.AddDir(d).L1(g.apples) + 1
  {
    NearerStepIsOneStep(g.snake.head, d, g.apples);
  }

  /** The shaped bit of a `Step` reward: false for a snake of `ShapingLimit` cells or
      more, otherwise the entry of the chosen direction in the array mapped over the four
      directions (in declaration order, so indexed by the discriminant). */
  function StepReward(g: GameAPI, dir: Direction): (b: bool)
    reads g, g.snake, g.snake.maps
    requires g.Valid()
    ensures b <==> g.snake.Size() < ShapingLimit && Shaped(g, dir)
  {
    if g.snake.Size() >= ShapingLimit then false
    else
      var s := [Shaped(g, Left), Shaped(g, Up), Shaped(g, Right), Shaped(g, Down)];
      s[dir.Ordinal()]
  }

  /** `handle_next_step`: classify the outcome of a tick. `g` is the game after the tick. */
  function HandleNextStep(beforeStep: nat, beforeRepr: Snapshot, dir: Direction, next: StepResult, g: GameAPI): (s: SimulationStep)
    reads g, g.snake, g.snake.maps
    requires g.Valid()
    ensures s.snapshot == beforeRepr && s.direction == dir
    ensures next.Lost? <==> s.reward == Reward.Lost
    ensures next.Win? <==> s.reward == Won
    ensures !next.Base? <==> s.nextState.None?
    ensures next.Base? ==> s.nextState == Some(g.ToGameRepr())
    ensures next.Base? ==> (s.reward == Food <==> beforeStep != g.numOfApples)
    ensures s.reward.Step? <==> next.Base? && beforeStep == g.numOfApples
    ensures s.reward.Step? ==> (s.reward.closer <==> g.snake.Size() < ShapingLimit && Shaped(g, dir))
  {
    match next
    case Lost(_, _, _, _) => SimulationStep(beforeRepr, dir, Reward.Lost, None)
    case Win(_) => SimulationStep(beforeRepr, dir, Won, None)
    case Base =>
      var stepRew := StepReward(g, dir);
      SimulationStep(beforeRepr, dir,
                     if beforeStep == g.numOfApples then Step(stepRew) else Food,
                     Some(g.ToGameRepr()))
  }

  /** What one tick does to the game, as its reward tells: the player's direction is
      applied, the move never moves head or tail, and the counters follow the outcome of
      `next`. */
  twostate predicate TickEffect(g: GameAPI, dir: Direction, pick: nat, w: Reward)
    reads g, g.snake, g.snake.maps
    requires g.Valid()
  {
    && g.snake == old(g.snake) && g.snake.maps == old(g.snake.maps)
    && g.snake.direction == dir && g.snake.head == old(g.snake.head) && g.snake.tail == old(g.snake.tail)
    && g.gameOptions == old(g.gameOptions)
    && (w == Reward.Lost ==>
          && unchanged(g.snake.maps) && g.apples == old(g.apples)
          && g.steps == old(g.steps) && g.numOfApples == old(g.numOfApples) && g.score == old(g.score))
    && (w == Won ==>
          && g.snake.GetFreeSpot(pick).None? && g.apples == old(g.apples)
          && g.steps == old(g.steps) && g.numOfApples == old(g.numOfApples) && g.score == old(g.score))
    && (w == Food ==>
          && g.numOfApples == old(g.numOfApples) + 1 && g.steps == old(g.steps) + 1
          && g.snake.GetFreeSpot(pick) == Some(g.apples))
    && (w.Step? ==>
          && g.numOfApples == old(g.numOfApples) && g.steps == old(g.steps) + 1 && g.apples == old(g.apples))
  }

  /** One pass of the loop body of `simulation`: snapshot the game, apply the player's
      direction, advance the game and classify the outcome. */
  method Tick(g: GameAPI, dir: Direction, pick: nat) returns (otp: SimulationStep)
    requires g.Valid()
    modifies g, g.snake, g.snake.maps
    ensures g.Valid() && g.snake == old(g.snake) && g.snake.maps == old(g.snake.maps)
    ensures otp.snapshot == old(g.ToGameRepr()) && otp.direction == dir
    ensures !IsTerminal(otp.reward) ==> otp.nextState == Some(g.ToGameRepr())
    ensures !IsTerminal(otp.reward) ==> otp.reward.Step? || otp.reward.Food?
    ensures IsTerminal(otp.reward) ==> otp.nextState.None?
    ensures TickEffect(g, dir, pick, otp.reward)
  {
    var beforeStep := g.numOfApples;
    var beforeRepr := g.ToGameRepr();
    g.UpdateDirection(dir);
    var res := g.Next(pick);
    otp := HandleNextStep(beforeStep, beforeRepr, dir, res.value, g);
  }

  /** `simulation`: one episode. The game is built from `draws` and `gameOptions`; the
      player is the oracle `choose`, which sees the tick's snapshot and number; `picks`
      gives the free-spot draw of each tick. `ticks` is the number of ticks played. */
  method Simulation(options: SimulatorOptions, gameOptions: Option<GameOptions>, draws: seq<Coord>,
                    choose: (Snapshot, nat) -> Direction, picks: nat -> nat)
    returns (r: seq<SimulationStep>, ghost ticks: nat)
    requires forall k | 0 <= k < |draws| :: draws[k].InGrid()
    requires exists k | 0 <= k < |draws| :: FarFromMiddle(draws[k])
    ensures 1 <= ticks <= Max(options.numberOfIterations, 1)
    ensures |r| == ticks || (|r| == ticks + 1 && ticks == Max(options.numberOfIterations, 1))
    ensures |r| <= Max(options.numberOfIterations, 1) + 1
    // the episode ends with its only terminal record
    ensures IsTerminal(r[|r| - 1].reward)
    ensures forall k | 0 <= k < |r| - 1 :: r[k].reward.Step? || r[k].reward.Food?
    // the first snapshot is that of a fresh game
    ensures r[0].snapshot.steps == 0 && r[0].snapshot.numOfApples == 0
    ensures r[0].snapshot.head == Middle() && FarFromMiddle(r[0].snapshot.apple)
    // each tick records the player's choice on the snapshot it was shown
    ensures forall k | 0 <= k < ticks :: r[k].direction == choose(r[k].snapshot, k)
    // consecutive records chain: the state after one is the snapshot of the next
    ensures forall k | 0 <= k < |r| - 1 :: r[k].nextState == Some(r[k + 1].snapshot)
    // hitting the cap adds a Lost record that repeats the last direction
    ensures |r| == ticks + 1 ==> r[ticks].direction == r[ticks - 1].direction
                                 && r[ticks].reward == Reward.Lost && r[ticks].nextState.None?
  {
    var cap := options.numberOfIterations;
    var g := new GameAPI(draws, gameOptions);
    ghost var first := g.ToGameRepr();
    r := [];
    var numIter := 0;
    while true
      invariant fresh(g) && fresh(g.snake) && fresh(g.snake.maps)
      invariant g.Valid()
      invariant |r| == numIter < Max(cap, 1)
      invariant |r| > 0 ==> r[0].snapshot == first
      invariant forall k | 0 <= k < |r| :: r[k].reward.Step? || r[k].reward.Food?
      invariant forall k | 0 <= k < |r| :: r[k].direction == choose(r[k].snapshot, k)
      invariant forall k | 0 <= k < |r| - 1 :: r[k].nextState == Some(r[k + 1].snapshot)
      invariant |r| > 0 ==> r[|r| - 1].nextState == Some(g.ToGameRepr())
      invariant |r| == 0 ==> g.ToGameRepr() == first
      decreases Max(cap, 1) - numIter
    {
      numIter := numIter + 1;
      var dir := choose(g.ToGameRepr(), numIter - 1);
      var otp := Tick(g, dir, picks(numIter - 1));
      r := r + [otp];
      if IsTerminal(otp.reward) {
        ticks := numIter;
        break;
      } else if numIter >= cap {
        r := r + [SimulationStep(g.ToGameRepr(), dir, Reward.Lost, None)];
        ticks := numIter;
        break;
      }
    }
  }
}
