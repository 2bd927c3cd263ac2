# Snake rules library, modelled in Dafny

This project models the deterministic core of the `snake-api-lib` crate, the rules engine behind a
Snake game and its self-play driver:

- **Coordinates and directions** (`common.rs`): a `Coord` is a cell of the 32 × 40 board with `u8`
  row `i` and column `j`. It has Manhattan (`L1`) and Chebyshev (`L0`) distances, a row-major index
  and the centre cell. `Direction` has discriminants Left = 0, Up = 1, Right = 2, Down = 3.
- **The occupancy grid** `ArrSnake` (`snake.rs`): four bit maps of 1280 bits, one per direction,
  held as one `array2<bool>` of 4 × 1280. It also has the current direction and the head and tail
  cells. `Step` edits the bit maps in place.
- **The game** `GameAPI` (`api.rs`): a class whose `Next` method is the per-tick transition. It
  returns `Lost`, `Win` or `Base` and updates steps, apples eaten, speed tier and score.
- **The episode driver** (`simulator.rs`): `HandleNextStep` classifies a tick's outcome into a
  reward. `Simulation` runs the tick loop up to the iteration cap.
- **The earlier game** (`lib.rs`): a snake and an apple only. Its tick re-places the apple after
  every step and ends with `Win`, `Lost` or `Base`.

Files: `wrappers.dfy` (Option, Result), `common.dfy`, `snake.dfy`, `api.dfy`, `simulator.dfy`,
`legacy.dfy`, one module each.

## Quirks of the code that the model keeps

- `check_cell` reports a cell as occupied only when all four maps have its bit (snake.rs:38). The
  free-cell search treats a cell as taken when any bit is set. A body segment stores one bit, so
  the all-four test reads it as empty (`Snake.ArrSnake.SingleBitReadsEmpty`).
- `step` never writes `head` or `tail`, and `direction(dir)` writes only the direction field. So
  the head stays at the centre for a whole game, and a move from the centre never reaches an
  apple placed by `new` (`Api.NoFoodNextToMiddle`).
- The Down and Right guards of `step` compare with `GRID_X` (32). A Right move from column 39 lands
  on the index of the next row's first cell. A Right move from column 32 is rejected although the
  board is 40 columns wide. A Down move from row 31 passes the guard and fails with "Out of bounds".
- A fresh `ArrSnake` is the derived `Default`: no bit is set, not even the centre's.
- `into_index` does not check the column, so a cell with a column from 40 on shares its index with
  a cell of the next row (`Common.ColumnOverflowAliases`). `get_pos` starts with
  `row > GRID_X && col > GRID_Y`, which needs both bounds exceeded, and then relies on `check_cell`.
  So `get_pos` is None exactly when the cell is not the apple and its index is at least 1280. An
  off-board cell such as (0, 45) gets the answer for the board cell (1, 5)
  (`Api.GetPosAnswersOffBoard`).

This revision of `snake.rs` does not define the snake operations that `api.rs`, `lib.rs` and
`simulator.rs` call: `next_step`, `is_next_valid`, `get_free_spot`, `size`, `update_direction` and
`add_dir`. `api.rs` does not define `to_game_repr` either. The model defines each of them from the
code around it:

- `next_step` is the move computation at the top of `step` (`Snake.NextCell`).
- `add_dir` is the same arithmetic without the edge guards (`Common.Coord.AddDir`).
- `is_next_valid` holds when the next cell exists, is on the board and `check_cell` reads it as
  not occupied.
- `size` is read as a field, but the `ArrSnake` struct in `snake.rs` has no such field. The model
  counts the cells that any map marks, so it is at most the board's area.
- `get_free_spot` chooses among the cells that no map marks. The random draw is the parameter
  `pick`. It returns None exactly when no such cell exists.
- `update_direction` forwards to `direction(dir)`.
- `to_game_repr` yields a `Snapshot` of the head, the direction, the apple and the counters.

## Model

| member | source | states |
|---|---|---|
| Common.Direction.Ordinal | snake-api-lib/src/common.rs:36-43 | the discriminant is below 4, and `FromOrdinal` inverts it |
| Common.DefaultDirection | snake-api-lib/src/common.rs:36-43 | the default direction has discriminant 0 (Left) |
| Common.OrdinalInjective | snake-api-lib/src/common.rs:36-43 | two directions have the same discriminant iff they are equal |
| Common.Coord.L1 | snake-api-lib/src/common.rs:17-19 | Manhattan distance: 0 iff the cells are equal, between the Chebyshev distance and twice it |
| Common.Coord.L0 | snake-api-lib/src/common.rs:20-22 | Chebyshev distance: 0 iff equal, at least each per-axis difference and equal to one of them (the maximum) |
| Common.L1Symmetric | snake-api-lib/src/common.rs:17-19 | `l1` is symmetric |
| Common.L0Symmetric | snake-api-lib/src/common.rs:20-22 | `l0` is symmetric |
| Common.L1Triangle | snake-api-lib/src/common.rs:17-19 | `l1` satisfies the triangle inequality |
| Common.L0Triangle | snake-api-lib/src/common.rs:20-22 | `l0` satisfies the triangle inequality |
| Common.Coord.Index | snake-api-lib/src/common.rs:24-26 | row-major index: below 1280 on the board; dividing by 40 gives back the row and the remainder the column |
| Common.IndexInjective | snake-api-lib/src/common.rs:24-26 | with columns below 40, two cells have the same index iff they are equal |
| Common.IndexRoundTrip | snake-api-lib/src/common.rs:24-26 | every board cell is recovered from its index |
| Common.ColumnOverflowAliases | snake-api-lib/src/common.rs:24-26 | a cell with a column from 40 to 79, in a row other than the last, is off the board and has the index of a board cell in the next row |
| Common.NearerStepIsOneStep | snake-api-lib/src/common.rs:17-19 | between board cells, a move that shortens the L1 distance shortens it by exactly one, the `u8` wrap at row or column 0 included |
| Common.Middle | snake-api-lib/src/common.rs:28-33 | the centre is (16, 20) and lies on the board |
| Common.DefaultCoord | snake-api-lib/src/common.rs:10-14 | the default cell is the centre |
| Common.Coord.AddDir | snake-api-lib/src/snake.rs:57-64 | Left/Right change only the column by -1/+1, Up/Down only the row by -1/+1, with `u8` wrap-around |
| Snake.NextCell | snake-api-lib/src/snake.rs:47-66 | fails exactly at col 0 Left, row 0 Up, row 32 Down and col 32 Right; otherwise the one-step neighbour |
| Snake.NextCellIsNeighbour | snake-api-lib/src/snake.rs:57-64 | from a board cell an accepted move is at distance 1 in both metrics |
| Snake.RightFromLastColumnEntersNextRow | snake-api-lib/src/snake.rs:54-64 | a Right move from column 39 is accepted and gets the index of the next row's first cell |
| Snake.RightBlockedInsideBoard | snake-api-lib/src/snake.rs:54-56 | a Right move from column 32 is rejected although its target is on the board |
| Snake.DownFromLastRowOutOfBounds | snake-api-lib/src/snake.rs:51-71 | a Down move from row 31 passes the guard and its index is past the maps |
| Snake.GuardAdmitsPastEnd | snake-api-lib/src/snake.rs:35 | index 1280 passes a `> GRID_X * GRID_Y` guard although it is past the end |
| Snake.StepBitEffect | snake-api-lib/src/snake.rs:67-78 | a step sets the head bit in the current map, clears the tail index in all maps without food, clears nothing with food, and keeps every other bit |
| Snake.ArrSnake.constructor | snake-api-lib/src/snake.rs:14-20 | the default snake: all bits clear, direction Left, head and tail at the centre |
| Snake.ArrSnake.CheckCell | snake-api-lib/src/snake.rs:33-39 | as written: None iff the index exceeds 1280, else Some(bit set in all four maps) |
| Snake.ArrSnake.CheckCellFixed | snake-api-lib/src/snake.rs:33-39 | with the intended `>=`: None iff the index is off the maps, else Some(bit set in all four maps) |
| Snake.ArrSnake.CheckCellAgrees | snake-api-lib/src/snake.rs:33-39 | both versions agree wherever the as-written one does not panic |
| Snake.ArrSnake.SingleBitReadsEmpty | snake-api-lib/src/snake.rs:38 | a cell holding one direction bit reads as not occupied |
| Snake.ArrSnake.FreeReadsEmpty | snake-api-lib/src/snake.rs:38 | a cell with no bit reads as not occupied |
| Snake.ArrSnake.Insert | snake-api-lib/src/snake.rs:23-29 | as written: None iff index > 1280, changing nothing; else sets exactly that bit of the given direction's map |
| Snake.ArrSnake.InsertFixed | snake-api-lib/src/snake.rs:23-29 | with the intended `>=`: same, None iff the index is off the maps |
| Snake.ArrSnake.SetDirection | snake-api-lib/src/snake.rs:41-43 | sets only the direction; head, tail and maps unchanged |
| Snake.ArrSnake.Step | snake-api-lib/src/snake.rs:45-80 | error, with no bit changed, iff the move is guarded or its index is past 1280; otherwise the maps are those of `StepBit`; head, tail and direction never change |
| Snake.ArrSnake.Size | snake-api-lib/src/api.rs:192 | the snake's size never exceeds the board's area |
| Snake.ArrSnake.GetFreeSpot | snake-api-lib/src/api.rs:216 | None iff every cell is marked in some map; otherwise a board cell with no bit set, which `check_cell` reads as free |
| Snake.ArrSnake.IsNextValid | snake-api-lib/src/api.rs:204 | true iff the move is not blocked by a guard, its target is on the board, and some map lacks the target's bit |
| Snake.ArrSnake.ValidMoveSteps | snake-api-lib/src/api.rs:204-214 | after `is_next_valid`, `next_step` and `step` cannot fail |
| Api.Speed.ToScore | snake-api-lib/src/api.rs:82-90 | every tier is worth at least 10 points per apple |
| Api.ToScoreStrictlyIncreasing | snake-api-lib/src/api.rs:82-90 | a higher tier is worth strictly more per apple, and conversely |
| Api.DefaultSpeed | snake-api-lib/src/api.rs:52-60 | the default tier is the lowest |
| Api.SpeedFor | snake-api-lib/src/api.rs:191-201 | the tier of rank r is chosen when size/area lies in [0.2r, 0.2(r+1)), the top tier also taking 1.0 |
| Api.SpeedForMonotone | snake-api-lib/src/api.rs:191-201 | the tier never decreases as the size grows |
| Api.DefaultOptions | snake-api-lib/src/api.rs:141-147 | the default decay interval is 256 (area / 5) |
| Api.IsMultipleOf | snake-api-lib/src/api.rs:228 | with divisor 0 only 0 counts as a multiple |
| Api.Decayed | snake-api-lib/src/api.rs:228-230 | the score drops by exactly one when it is positive and the step count is a multiple of the interval, else it stays |
| Api.SampleApple | snake-api-lib/src/api.rs:155-164 | returns the first draw that is more than 1 (Chebyshev) from the centre; every earlier draw was rejected |
| Api.GameAPI.constructor | snake-api-lib/src/api.rs:150-175 | apple far from the centre, counters 0, tier Slow, the given or default options, a default snake |
| Api.GameAPI.GetPos | snake-api-lib/src/api.rs:177-189 | None iff the cell is not the apple and its index is at least 1280; Apple iff the apple's cell; Snake iff not the apple and all four bits of its index are set |
| Api.GameAPI.UpdateDirection | snake-api-lib/src/simulator.rs:116 | sets the snake's direction and nothing else of it |
| Api.GameAPI.SetSpeed | snake-api-lib/src/api.rs:191-201 | the tier becomes that of the current size |
| Api.GameAPI.Next | snake-api-lib/src/api.rs:203-232 | never an error, the `?` paths included; invalid move: Lost with the current counters, size and tier, nothing changed; otherwise the snake steps; Win iff food and no free cell, with counters unchanged; Base: apple moved and counter +1 on food, steps +1, tier of the new size, score + tier's value on food, then the decay |
| Api.GameAPI.ToGameRepr | snake-api-lib/src/simulator.rs:114 | the snapshot holds the snake's head and direction, the apple, and the apple and step counters |
| Api.GetPosAnswersOffBoard | snake-api-lib/src/api.rs:177-189 | for an off-board cell with a column from 40 on, `get_pos` is Some, the same answer as for the aliased board cell |
| Api.NoFoodNextToMiddle | snake-api-lib/src/api.rs:212-213 | from the centre no move reaches an apple placed more than 1 away |
| Simulator.Shaped | snake-api-lib/src/simulator.rs:78-84 | true iff the neighbour in that direction reads as not occupied and is strictly closer in L1 to the apple |
| Simulator.ShapedIsOneStepNearer | snake-api-lib/src/simulator.rs:78-84 | from a head on the board, a true entry means the neighbour is exactly one step nearer to the apple |
| Simulator.StepReward | snake-api-lib/src/simulator.rs:73-86 | false when the size is 10 or more; else the entry of the chosen direction |
| Simulator.HandleNextStep | snake-api-lib/src/simulator.rs:51-100 | pre-tick snapshot and chosen direction; Lost/Won exactly for Lost/Win with no next state; for Base, Food iff the apple count changed, else Step with the shaped bit, and the post-tick snapshot |
| Simulator.Tick | snake-api-lib/src/simulator.rs:112-125 | one loop pass: the record holds the pre-tick snapshot and the direction; a non-terminal record has the post-tick snapshot; the snake takes the direction with head and tail kept; Lost leaves maps and counters unchanged; Won means no free cell and counters unchanged; Food adds one apple and one step with the apple on the free spot; Step adds one step only |
| Simulator.Simulation | snake-api-lib/src/simulator.rs:102-142 | non-empty; only the last record is Won/Lost; at most max(cap, 1) + 1 records, cap + 1 exactly when the cap ends the run; records chain snapshot to snapshot; each direction is the player's choice on its snapshot |
| Legacy.GameAPI.constructor | snake-api-lib/src/lib.rs:24-44 | apple far from the centre, a default snake |
| Legacy.GameAPI.GetPos | snake-api-lib/src/lib.rs:46-58 | None iff the cell is not the apple and its index is at least 1280; Apple iff the apple's cell; Snake iff not the apple and all four bits of its index are set |
| Legacy.GameAPI.Next | snake-api-lib/src/lib.rs:60-73 | never an error, the `?` paths included; invalid move: Lost with nothing changed; otherwise the snake steps and the apple is re-sampled whether or not it was eaten; Win iff no free cell, with the apple kept |

## Findings

| source | as written | input that shows it | evidently intended | confidence | as-written member | corrected member |
|---|---|---|---|---|---|---|
| snake-api-lib/src/snake.rs:35 | `if indx > GRID_X * GRID_Y` lets index 1280 reach the bit read, which is past the end of the maps | `check_cell(Coord { i: 32, j: 0 })`, for instance through `get_pos(Coord { i: 32, j: 0 })` | `>=`, so that index 1280 gives None | high, not executed | Snake.ArrSnake.CheckCell (with Snake.GuardAdmitsPastEnd) | Snake.ArrSnake.CheckCellFixed |
| snake-api-lib/src/snake.rs:24 | `if indx > GRID_X * GRID_Y` lets index 1280 reach the bit write | `insert(1280, Direction::Left)` | `>=`, so that index 1280 gives None | high, not executed | Snake.ArrSnake.Insert (with Snake.GuardAdmitsPastEnd) | Snake.ArrSnake.InsertFixed |

The as-written members need the offending index excluded by a precondition, because the model's maps
have no bit 1280. Everything else in the model reads cells through `CheckCellFixed`.

## Left out

- Snake.ArrSnake.CheckCell: requires the index not to be 1280, where the source panics.
- Snake.ArrSnake.Insert: requires the index not to be 1280, where the source panics.
- Api.GameAPI.GetPos: reads through the corrected guard, so index 1280, for example the cell
  (32, 0) or (31, 40), gives None where the source's `check_cell` panics.
- Legacy.GameAPI.GetPos: reads through the corrected guard, so index 1280 gives None where the
  source's `check_cell` panics.
- Simulator.Shaped: reads through the corrected guard, so a neighbour at index 1280 gives false
  where the source's `check_cell` panics.
- Common.Coord.L1: the source adds in `u8`, which overflows when the sum passes 255. Two
  board cells are at most 70 apart, but a cell that wrapped off the board is not. For example, a
  Left move from (0, 0) gives (0, 255), whose `l1` to (20, 5) is 270. A release build wraps that
  to 14 and a debug build panics. The model adds in unbounded integers, so `Simulator.Shaped`
  reads such a move as farther, not nearer.
- Common.Coord.AddDir and Snake.NextCell: the `i8` arithmetic wraps as in a release build. A debug
  build panics on overflow instead. That happens for Down at rows 125 to 127, for Up at rows 127
  and 128, for Right at column 127 and for Left at column 128.
- Simulator.Simulation: returns the records without the `Result` wrapper. `Api.GameAPI.Next` is
  proved never to fail, its own `?` paths included, so the `?` at simulator.rs:117 never fires.
- Simulator.Simulation: the snapshot taken when the cap is hit is the state after the last tick.
  It equals the previous record's next state, and the ensures state only that chain.
- `set_speed` divides in `f64`. The model compares integers (256, 512, 768, 1024 cells), which
  agrees for every integer size. The `unreachable!` above 1.0 cannot happen, because the size never
  exceeds the area.
- Randomness: the apple draws of `new` are the sequence `draws`, which must hold an acceptable cell
  (the rejection loop is not proved to terminate). The free-spot draw is `pick`. The player's
  choice is an oracle that sees the tick's snapshot and number, not the whole game. The player's
  choice and the game's draws come from independent oracles, not one shared generator.
- `to_game_repr`/`GameAPIBinaryRepr`: the board encoding is not modelled; a snapshot holds only
  the head, direction, apple and counters.
- `Speed::to_time_speed`: floating-point pacing for the render clock.
- The `Display` impls and the `with_summary` debug output: text formatting only.
- `GameAPIBuilder` and `Simulator::new`: plain constructors; the builder's options are the
  `Option<GameOptions>` parameter.
- `u128`/`usize` counters are unbounded naturals; overflow is not modelled.
- Parallel batches of episodes, and the GUI, training and player crates, are not part of this model.
