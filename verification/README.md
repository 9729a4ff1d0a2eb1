# Snake on a 10 x 10 board: a verified model of the game logic

This project models the game logic of a browser Snake game written in Rust
with Yew (`src/main.rs`). The rendering, the timer and the keyboard wiring
are left out. What remains is the part of the program that decides how the
game goes:

- the string keys the board is drawn with (`"row+col"`) and how they are
  decoded;
- the four one-cell moves;
- the bounds test;
- the game's own cell comparison `tuples_equal`;
- how the snake's body advances and grows;
- the tick that the `Interval` callback runs;
- the key handler's choice of direction.

The tick is a pure function `Engine.Step(game, nextFood)`. The game is an
immutable record: snake, direction, food, interval in milliseconds, and an
optional result. `nextFood` is the cell the random generator would produce
next.

Modules:

- `Prelude`: `Option`, and the range of Rust's `i32`.
- `Text`: the parts of Rust's string library the game uses. These are
  `split("+")`, `i32::to_string`, `i32` parsing and `contains`.
- `Geometry`: cells, directions, moves, the board, the vector helpers and
  `tuples_equal`.
- `SnakeBody`: `mutate_snake`, the tail rule used when the snake grows, and
  the "consecutive cells touch" predicate.
- `CellKey`: the board's cell keys, `from_key` and `is_cell_in_snake`.
- `Engine`: the game record, the tick, the key handler, whole runs of
  events, and the invariant of every reachable game.

What the code does that a reader may not expect:

- The code has no self-collision check. A snake may turn back into its own
  body and the game goes on (`Engine.ScenarioReversalIntoBody`).
- The code has no rule against reversing. A key press sets the direction
  unconditionally, even after the game has ended.
- The new food is not kept off the snake. It is any board cell.
- The code never sets `WIN`, so a game can only be open or lost. The
  `direction_queue` state is never read.
- The grown tail is placed one step against the current direction, from the
  tail left after the move. The tail can therefore land off the board
  (`Engine.ScenarioTailOffBoard`).
- "The head is on the food" is `tuples_equal`, not equality of cells.
  `tuples_equal` holds when each component of the head is one of the food's
  two components. So the head "eats" the food at `(r, c)` from `(c, r)`,
  `(r, r)` and `(c, c)` as well (`Geometry.TuplesEqualCells`,
  `Engine.ScenarioEatsFromAfar`).
- The speed floor is 200 ms. From the starting 500 ms the interval only takes
  the values 500, 400, 300 and 200 (`Engine.Reachable`).

A tick that leaves the board sets the result to `Lose` and keeps the snake
as it was before the tick.

Coordinates are `i32` in the source and unbounded integers here.
`Engine.InvariantBoundsCoordinates` shows that every coordinate of a
reachable game lies in [-1, 10]. It also shows that the cells a tick
computes fit in `i32`: the new head, and the grown tail in front of the
post-move tail. So no `i32` arithmetic of the tick can overflow.

## Model

| member | source | states |
|---|---|---|
| Text.Split | src/main.rs:43 | `split("+")` always yields at least one part, and no part contains '+' |
| Text.JoinSplit | src/main.rs:43 | joining the parts of any string with '+' gives the string back, so splitting loses nothing |
| Text.SplitJoin | src/main.rs:43 | splitting '+'-free parts joined with '+' gives exactly those parts back |
| Text.NatToString | src/main.rs:23-25 | the decimal spelling of a number is non-empty, all digits, and has no leading zero unless the number is 0 |
| Text.NatToStringRoundTrip | src/main.rs:23-25 | reading the decimal spelling of `n` back gives `n` |
| Text.IntToString | src/main.rs:23-25 | the printed form of an integer is non-empty and never contains the '+' separator |
| Text.ParseI32 | src/main.rs:46 | `parse::<i32>` succeeds only with a value inside the `i32` range |
| Text.ParseI32RoundTrip | src/main.rs:46 | every `i32` printed by `to_string` parses back to itself |
| Text.Contains | src/main.rs:209 | `contains` holds exactly when the pattern occurs at some offset of the key |
| Geometry.MoveIsUnitStep | src/main.rs:74-89 | each move lands on a cell sharing a side with the start: one coordinate equal, the other off by exactly one |
| Geometry.LeftRightInverse | src/main.rs:74-81 | `move_left` and `move_right` undo each other |
| Geometry.UpDownInverse | src/main.rs:82-89 | `move_up` and `move_down` undo each other |
| Geometry.OppositeUndoesMove | src/main.rs:74-89 | a second move returns to the start exactly when its direction is the opposite one |
| Geometry.MoveInjective | src/main.rs:74-89 | one direction never maps two cells to the same cell, and two directions never move a cell to the same place |
| Geometry.Board | src/main.rs:16 | the board holds only cells with both coordinates in [0, 10) |
| Geometry.OutOfBoundsIffOffBoard | src/main.rs:254-256 | `is_out_of_bounds` holds exactly for the cells that are not on the 10 x 10 board |
| Geometry.VecToTuple | src/main.rs:91-93 | `vec_to_tuple` panics exactly on vectors shorter than two elements |
| Geometry.VecTupleRoundTrip | src/main.rs:91-99 | `vec_to_tuple` undoes `tuple_to_vec`, the reverse holds on two-element vectors, and a longer vector keeps only its first two elements |
| Geometry.AllContained | src/main.rs:261-266 | the early-exit loop answers true exactly when every element of the first vector is in the second |
| Geometry.TuplesEqual | src/main.rs:258-267 | `tuples_equal(t1, t2)` holds exactly when both components of `t1` are among the components of `t2` |
| Geometry.TuplesEqualCells | src/main.rs:258-267 | the cells "equal" to `t2` are `t2`, `t2` mirrored, and the two diagonal cells built from one of its components |
| Geometry.EqualImpliesTuplesEqual | src/main.rs:258-267 | equal cells are `tuples_equal`, so the relation is reflexive |
| Geometry.TuplesEqualIsNotEquality | src/main.rs:258-267 | two different cells can be `tuples_equal`, for example (1,1) and (1,5) |
| Geometry.TuplesEqualIsNotSymmetric | src/main.rs:258-267 | `tuples_equal` is not symmetric: (1,1) against (1,2) is true, the other way round is false |
| SnakeBody.Advance | src/main.rs:101-105 | `mutate_snake` keeps the length, puts the new head last and shifts every other cell one index towards the tail |
| SnakeBody.GrowTail | src/main.rs:171-178 | the grown tail is the old tail moved one step in the direction opposite to the heading, so it touches the old tail |
| SnakeBody.AdvanceKeepsPath | src/main.rs:101-105 | advancing a connected body to a cell touching its head keeps every pair of consecutive cells touching |
| SnakeBody.GrowKeepsPath | src/main.rs:171-179 | putting the grown tail in front of a connected body keeps it connected |
| CellKey.ParseAll | src/main.rs:44-47 | collecting the parsed parts succeeds exactly when every part parses, and then gives each part's value in order |
| CellKey.FromKey | src/main.rs:42-49 | decoding succeeds exactly when the key has at least two '+'-separated parts and every part parses as `i32`; the cell is then the values of the first two parts |
| CellKey.KeyRoundTrip | src/main.rs:42-49 | decoding the key `Grid` builds for any `i32` cell gives that cell back |
| CellKey.KeyInjective | src/main.rs:22-25 | two cells have the same key exactly when they are the same cell |
| CellKey.FromKeyOnePart | src/main.rs:48 | every key without '+' has no second item, so decoding panics |
| CellKey.FromKeyBadPart | src/main.rs:46 | every key with a part, at any position, that does not parse as `i32` makes `unwrap` panic |
| CellKey.FromKeyBadColumn | src/main.rs:46 | the key "3+x" makes decoding panic |
| CellKey.FromKeyExtraPart | src/main.rs:43-48 | a third part is parsed but dropped: "1+2+3" decodes to (1, 2) |
| CellKey.IsCellInSnake | src/main.rs:51-59 | panics exactly when `from_key` does; otherwise true exactly when the decoded cell is one of the snake's cells |
| Engine.Step | src/main.rs:139-188 | a tick keeps the direction and keeps the length or adds exactly one cell |
| Engine.KeyDirectionExact | src/main.rs:203-216 | a key chooses direction `d` exactly when it is the arrow key named for `d`; every other key is ignored |
| Engine.HandleKeyOnlyTurns | src/main.rs:209-216 | a key press changes only the direction, to the arrow's direction, with no reversal or game-over check |
| Engine.StepWhenOver | src/main.rs:140-142 | a tick with a result already set changes nothing |
| Engine.StepOutOfBounds | src/main.rs:161-165 | a new head off the board sets `Lose` and leaves snake, food, interval and direction unchanged |
| Engine.StepSlides | src/main.rs:166-186 | a tick on the board without food keeps the length, puts the new head last, shifts the rest, and keeps food, interval and the open result |
| Engine.StepGrows | src/main.rs:166-186 | a tick that eats adds one cell: the new head last, the inner cells in place, the new tail one step behind the next cell against the heading, the food replaced |
| Engine.StepSpeed | src/main.rs:180-183 | the interval drops by exactly 100 on a tick that eats while above 200, and is unchanged on every other tick |
| Engine.StepResult | src/main.rs:140-165 | a set result stays set; a running game becomes `Lose` exactly when the new head is off the board; a tick never produces `Win` |
| Engine.ScenarioFirstMeal | src/main.rs:121-183 | the start snake heading right onto food at (5,6) becomes [(5,5), (5,6)] with interval 400 |
| Engine.ScenarioTopEdge | src/main.rs:161-165 | a head at (0,0) heading up loses, and the snake stays at (0,0) |
| Engine.ScenarioReversalIntoBody | src/main.rs:161-166 | turning back into the body overlaps the snake with itself and the game goes on |
| Engine.ScenarioTailOffBoard | src/main.rs:171-179 | a snake that turns right at column 0 while eating gets its new tail at column -1, off the board |
| Engine.ScenarioEatsFromAfar | src/main.rs:168-183 | with food at (1,5) a head moving to (1,1) eats: the snake grows and the food is replaced |
| Engine.Apply | src/main.rs:139-216 | no tick or key press shortens the snake |
| Engine.Run | src/main.rs:139-216 | no sequence of ticks and key presses shortens the snake |
| Engine.InitialInvariant | src/main.rs:121-128 | the start game satisfies the invariant and heads left |
| Engine.StepKeepsInvariant | src/main.rs:139-188 | a tick with an on-board food cell keeps the invariant |
| Engine.HandleKeyKeepsInvariant | src/main.rs:209-216 | a key press keeps the invariant |
| Engine.RunKeepsInvariant | src/main.rs:139-216 | any sequence of ticks with on-board food cells and key presses keeps the invariant |
| Engine.Reachable | src/main.rs:121-188 | every reachable game keeps the invariant: the snake is non-empty and connected, only the tail may be off the board, the interval is one of 500/400/300/200 and never below 200, and nobody wins |
| Engine.InvariantBoundsCoordinates | src/main.rs:143-179 | in a reachable game every coordinate lies in [-1, 10], the new head fits in `i32`, and on a tick that stays on the board so does the grown tail |
| Engine.RunWhenOver | src/main.rs:140-142 | after the game is over, ticks and key presses change nothing but the direction |

## Left out

- Rendering: the `Grid` and `App` components, `html!`, the CSS class choice in `render_cell` and the win/lose headings. This is user interface. Only the key format of `Grid` is modelled.
- The `Grid` draws `0..=GRID_SIZE` on both axes, which is 11 x 11 keys, while the bounds test uses [0, 10). This only affects drawing and is not modelled.
- The `gloo` `Interval` timer, the `EventListener`, `use_state` and `use_effect_with_deps`, and `main`. This is framework plumbing. A tick is a call to `Engine.Step`, and a key press is a call to `Engine.HandleKey`.
- `create_food` uses `rand::thread_rng`, a foreign random generator. Food cells are parameters instead: the initial one to `Engine.Initial` and each later one to `Engine.Step`. The invariant assumes they lie on the board, as `gen_range(0..GRID_SIZE)` promises.
- `direction_queue` is created but never read, so it is not modelled.
- The tick closure reads the direction through two handles, one to pick the move and one to place the grown tail. Both are clones of the same state taken at the same render, so the model uses one direction for both.
- The unreachable `_ => return` arm of the direction match is not modelled, because `Direction` has exactly four values.
- `i32` wrap-around is not modelled. `Engine.InvariantBoundsCoordinates` shows reachable games never come near it.
- Engine.Step: its own contract only says that the direction is kept and that the length stays or grows by one. The full behaviour of a tick is stated by `Engine.StepWhenOver`, `Engine.StepOutOfBounds`, `Engine.StepSlides`, `Engine.StepGrows`, `Engine.StepSpeed` and `Engine.StepResult`.
