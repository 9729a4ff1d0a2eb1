/** The game itself: the state the `App` component keeps, the tick the
    `Interval` callback runs, the key handler, and what holds of every state a
    game can reach (src/main.rs).

    The tick is a pure function of the state and of the food cell the random
    generator would produce next; the timer, the rendering and the random
    generator stay outside. */
module Engine {
  import opened Prelude
  import opened Text
  import opened Geometry
  import opened SnakeBody

  datatype GameResult = Win | Lose

  /** Everything one tick reads and writes. `result` is `None` while the game
      runs. */
  datatype Game = Game(
    snake: seq<Cell>,
    direction: Direction,
    food: Cell,
    interval: int,
    result: Option<GameResult>)

  /** Milliseconds between ticks at the start, by how much eating speeds the
      game up, and the interval at or below which it stops speeding up. */
  const InitialInterval: int := 500
  const SpeedStep: int := 100
  const SpeedFloor: int := 200

  /** A fresh game: a one-cell snake in the middle, heading left, the slowest
      interval and no result. The first food cell is random, so it is given. */
  function Initial(food: Cell): Game {
    Game([(5, 5)], DefaultDirection, food, InitialInterval, None)
  }

  /** The interval after eating: one step faster while above the floor. */
  function SpeedUp(interval: int): int {
    if interval > SpeedFloor then interval - SpeedStep else interval
  }

  /** Where the head goes on this tick. */
  function NextHead(g: Game): Cell
    requires |g.snake| >= 1
  {
    Move(g.direction, Head(g.snake))
  }

  /** Whether this tick counts as eating: the source compares the new head
      with the food by `tuples_equal`, not by equality. */
  predicate Eats(g: Game)
    requires |g.snake| >= 1
  {
    TuplesEqual(NextHead(g), g.food)
  }

  /** One tick of the `Interval` callback. A finished game is left alone.
      Otherwise the head moves one cell in the current direction; leaving the
      board loses the game and keeps the snake as it was. Else the snake
      advances, and if the new head counts as eating, a new tail is put one
      step behind the post-move tail (against the current direction), the
      food is replaced by `nextFood` and the interval may shrink. The source
      reads the last element of the snake, so a running game needs a
      non-empty snake. Nothing here checks the body for collisions or refuses
      a reversal, and nothing ever wins: the source has none of these. */
  function Step(g: Game, nextFood: Cell): (r: Game)
    requires g.result.Some? || |g.snake| >= 1
    ensures |r.snake| == |g.snake| || |r.snake| == |g.snake| + 1
    ensures r.direction == g.direction
  {
    if g.result.Some? then g
    else
      var newhead := NextHead(g);
      if IsOutOfBounds(newhead) then g.(result := Some(Lose))
      else
        var moved := Advance(g.snake, newhead);
        if TuplesEqual(newhead, g.food) then
          var newtail := GrowTail(g.direction, moved[0]);
          g.(snake := [newtail] + moved, food := nextFood, interval := SpeedUp(g.interval))
        else
          g.(snake := moved)
  }

  // ---------------------------------------------------------------------------
  // Keyboard
  // ---------------------------------------------------------------------------

  /** The name of the arrow key for each heading. */
  function ArrowName(d: Direction): string {
    match d
    case Right => "ArrowRight"
    case Left => "ArrowLeft"
    case Down => "ArrowDown"
    case Up => "ArrowUp"
  }

  /** The `keydown` listener's choice of heading: modifier keys and Escape
      are skipped, keys whose name contains "Arrow" are matched by name, and
      any other key is ignored. */
  function KeyDirection(key: string): Option<Direction> {
    if key == "Meta" || key == "Shift" || key == "Escape" then None
    else if Contains(key, "Arrow") then
      if key == "ArrowRight" then Some(Right)
      else if key == "ArrowLeft" then Some(Left)
      else if key == "ArrowDown" then Some(Down)
      else if key == "ArrowUp" then Some(Up)
      else None
    else None
  }

  /** A key press replaces the heading with no check at all: not against
      reversing, and not against a finished game. */
  function HandleKey(g: Game, key: string): Game {
    match KeyDirection(key)
    case Some(d) => g.(direction := d)
    case None => g
  }

  /** Exactly the four arrow keys choose a heading, each its own. */
  lemma KeyDirectionExact(key: string, d: Direction)
    ensures KeyDirection(key) == Some(d) <==> key == ArrowName(d)
  {
    if key == ArrowName(d) {
      assert "Arrow" <= key;
      assert "Arrow" <= key[0..];
    }
  }

  /** A key press changes the heading and nothing else; an ignored key
      changes nothing. */
  lemma HandleKeyOnlyTurns(g: Game, key: string)
    ensures HandleKey(g, key).(direction := g.direction) == g
    ensures KeyDirection(key).None? ==> HandleKey(g, key) == g
    ensures forall d :: key == ArrowName(d) ==> HandleKey(g, key).direction == d
  {
    forall d | key == ArrowName(d)
      ensures HandleKey(g, key).direction == d
    {
      KeyDirectionExact(key, d);
    }
  }

  // ---------------------------------------------------------------------------
  // What one tick does
  // ---------------------------------------------------------------------------

  /** A tick after the game has ended changes nothing. */
  lemma StepWhenOver(g: Game, nextFood: Cell)
    requires g.result.Some?
    ensures Step(g, nextFood) == g
  {
  }

  /** Running off the board loses: the result becomes `Lose` and the snake,
      food and interval stay as they were. */
  lemma StepOutOfBounds(g: Game, nextFood: Cell)
    requires g.result.None? && |g.snake| >= 1
    requires !InGrid(NextHead(g))
    ensures Step(g, nextFood) == g.(result := Some(Lose))
  {
    OutOfBoundsIffOffBoard(NextHead(g));
  }

  /** A tick on the board that does not eat slides the snake: same length,
      the new head at the end, every other cell taken over from the next
      index; food, interval and result are untouched. */
  lemma StepSlides(g: Game, nextFood: Cell)
    requires g.result.None? && |g.snake| >= 1
    requires InGrid(NextHead(g)) && !Eats(g)
    ensures var r := Step(g, nextFood);
      && |r.snake| == |g.snake|
      && Head(r.snake) == NextHead(g)
      && (forall i :: 0 <= i < |r.snake| - 1 ==> r.snake[i] == g.snake[i + 1])
      && r.food == g.food && r.interval == g.interval && r.result.None?
  {
    OutOfBoundsIffOffBoard(NextHead(g));
  }

  /** A tick on the board that eats grows the snake by exactly one cell: the
      new head is last, the cells between keep their places, and the new
      tail is one step from the next cell against the heading (for a
      one-cell snake, that is where the head was). The food becomes
      `nextFood` and the result stays open. */
  lemma StepGrows(g: Game, nextFood: Cell)
    requires g.result.None? && |g.snake| >= 1
    requires InGrid(NextHead(g)) && Eats(g)
    ensures var r := Step(g, nextFood);
      && |r.snake| == |g.snake| + 1
      && Head(r.snake) == NextHead(g)
      && (forall i :: 1 <= i < |g.snake| ==> r.snake[i] == g.snake[i])
      && r.snake[0] == Move(Opposite(g.direction), r.snake[1])
      && (|g.snake| == 1 ==> r.snake[0] == g.snake[0])
      && r.food == nextFood && r.result.None?
  {
    OutOfBoundsIffOffBoard(NextHead(g));
    var r := Step(g, nextFood);
    var moved := Advance(g.snake, NextHead(g));
    assert r.snake == [GrowTail(g.direction, moved[0])] + moved;
    if |g.snake| == 1 {
      OppositeUndoesMove(g.direction, Opposite(g.direction), Head(g.snake));
    }
  }

  /** The interval shrinks by exactly `SpeedStep` on a tick that eats while
      it is above `SpeedFloor`, and is unchanged on every other tick. */
  lemma StepSpeed(g: Game, nextFood: Cell)
    requires g.result.Some? || |g.snake| >= 1
    ensures var r := Step(g, nextFood);
      if g.result.None? && InGrid(NextHead(g)) && Eats(g) && g.interval > SpeedFloor
      then r.interval == g.interval - SpeedStep
      else r.interval == g.interval
  {
    if g.result.None? {
      OutOfBoundsIffOffBoard(NextHead(g));
    }
  }

  /** The result only ever moves from open to `Lose`, and never back. */
  lemma StepResult(g: Game, nextFood: Cell)
    requires g.result.Some? || |g.snake| >= 1
    ensures var r := Step(g, nextFood);
      && (g.result.Some? ==> r.result == g.result)
      && (r.result == Some(Win) ==> g.result == Some(Win))
      && (g.result.None? ==> (r.result == Some(Lose) <==> !InGrid(NextHead(g))))
  {
    if g.result.None? {
      OutOfBoundsIffOffBoard(NextHead(g));
    }
  }

  // ---------------------------------------------------------------------------
  // Scenarios
  // ---------------------------------------------------------------------------

  /** A one-cell snake at the start, heading right onto the food, becomes
      two cells and speeds up. */
  lemma ScenarioFirstMeal(nextFood: Cell)
    ensures var g := Initial((5, 6)).(direction := Right);
      var r := Step(g, nextFood);
      r.snake == [(5, 5), (5, 6)] && r.food == nextFood && r.interval == 400 && r.result.None?
  {
  }

  /** A head at the top edge heading up loses, and the snake stays put. */
  lemma ScenarioTopEdge()
    ensures var g := Game([(0, 0)], Up, (3, 4), 500, None);
      Step(g, (7, 7)) == g.(result := Some(Lose))
  {
  }

  /** Turning back into the body is not fatal: the snake overlaps itself and
      the game goes on. */
  lemma ScenarioReversalIntoBody()
    ensures var g := Game([(5, 3), (5, 4), (5, 5)], Left, (0, 9), 500, None);
      var r := Step(g, (7, 7));
      r.snake == [(5, 4), (5, 5), (5, 4)] && r.result.None?
  {
  }

  /** The grown tail can land off the board: a snake that came up column 0
      and turns right onto the food gets its new tail at column -1. */
  lemma ScenarioTailOffBoard()
    ensures var g := Game([(1, 0), (0, 0)], Right, (0, 1), 500, None);
      var r := Step(g, (7, 7));
      r.snake == [(0, -1), (0, 0), (0, 1)] && !InGrid(r.snake[0]) && r.result.None?
  {
  }

  /** `tuples_equal` lets the snake eat food it is not on: heading right to
      (1, 1) with the food at (1, 5). */
  lemma ScenarioEatsFromAfar()
    ensures var g := Game([(1, 0)], Right, (1, 5), 500, None);
      var r := Step(g, (7, 7));
      |r.snake| == 2 && Head(r.snake) != g.food && r.food == (7, 7) && r.interval == 400
  {
  }

  // ---------------------------------------------------------------------------
  // Whole games
  // ---------------------------------------------------------------------------

  /** What can happen to a game between two renders: a timer tick (with the
      food cell the random generator would produce) or a key press. */
  datatype Event = Tick(newFood: Cell) | KeyDown(key: string)

  function Apply(g: Game, e: Event): (r: Game)
    requires |g.snake| >= 1
    ensures |r.snake| >= |g.snake|
  {
    match e
    case Tick(f) => Step(g, f)
    case KeyDown(k) => HandleKey(g, k)
  }

  /** The game after a sequence of events. */
  function Run(g: Game, events: seq<Event>): (r: Game)
    requires |g.snake| >= 1
    ensures |r.snake| >= |g.snake|
    decreases |events|
  {
    if |events| == 0 then g else Run(Apply(g, events[0]), events[1..])
  }

  /** The random generator only produces board cells. */
  predicate FoodOnBoard(events: seq<Event>) {
    forall k :: 0 <= k < |events| ==> events[k].Tick? ==> InGrid(events[k].newFood)
  }

  /** What holds of every game reachable from the start: the snake is
      non-empty and connected, every cell but the tail of a longer snake is
      on the board (so the tail is at most one cell off it), the food is on
      the board, the interval is one of 500, 400, 300, 200, and the game has
      not been won. */
  predicate Invariant(g: Game) {
    && |g.snake| >= 1
    && InGrid(Head(g.snake))
    && (forall i :: 1 <= i < |g.snake| ==> InGrid(g.snake[i]))
    && IsPath(g.snake)
    && InGrid(g.food)
    && g.interval in {500, 400, 300, 200}
    && g.result != Some(Win)
  }

  lemma InitialInvariant(food: Cell)
    requires InGrid(food)
    ensures Invariant(Initial(food))
    ensures Initial(food).direction == Left
  {
    assert (5, 5) in Board();
  }

  lemma StepKeepsInvariant(g: Game, nextFood: Cell)
    requires Invariant(g) && InGrid(nextFood)
    ensures Invariant(Step(g, nextFood))
  {
    if g.result.None? {
      var newhead := NextHead(g);
      OutOfBoundsIffOffBoard(newhead);
      if InGrid(newhead) {
        MoveIsUnitStep(g.direction, Head(g.snake));
        AdvanceKeepsPath(g.snake, newhead);
        var moved := Advance(g.snake, newhead);
        assert forall i :: 0 <= i < |moved| ==> InGrid(moved[i]) by {
          forall i | 0 <= i < |moved|
            ensures InGrid(moved[i])
          {
            if i < |moved| - 1 {
              assert moved[i] == g.snake[i + 1];
            }
          }
        }
        if Eats(g) {
          GrowKeepsPath(g.direction, moved);
          var r := [GrowTail(g.direction, moved[0])] + moved;
          assert forall i :: 1 <= i < |r| ==> r[i] == moved[i - 1];
        }
      }
    }
  }

  lemma HandleKeyKeepsInvariant(g: Game, key: string)
    requires Invariant(g)
    ensures Invariant(HandleKey(g, key))
  {
  }

  lemma {:induction false} RunKeepsInvariant(g: Game, events: seq<Event>)
    requires Invariant(g) && FoodOnBoard(events)
    ensures Invariant(Run(g, events))
    decreases |events|
  {
    if |events| > 0 {
      match events[0] {
        case Tick(f) => StepKeepsInvariant(g, f);
        case KeyDown(k) => HandleKeyKeepsInvariant(g, k);
      }
      assert FoodOnBoard(events[1..]) by {
        forall k | 0 <= k < |events[1..]| && events[1..][k].Tick?
          ensures InGrid(events[1..][k].newFood)
        {
          assert events[1..][k] == events[k + 1];
        }
      }
      RunKeepsInvariant(Apply(g, events[0]), events[1..]);
    }
  }

  /** Every game reachable from the start keeps the invariant: in particular
      the interval never leaves {500, 400, 300, 200}, and nobody wins. */
  lemma Reachable(food: Cell, events: seq<Event>)
    requires InGrid(food) && FoodOnBoard(events)
    ensures Invariant(Run(Initial(food), events))
    ensures Run(Initial(food), events).interval >= SpeedFloor
  {
    InitialInvariant(food);
    RunKeepsInvariant(Initial(food), events);
  }

  /** In a reachable game every coordinate lies in [-1, GridSize]. The cells
      a tick computes (the new head, and the grown tail put in front of the
      post-move tail) fit in `i32`, so the source's `i32` arithmetic never
      overflows. */
  lemma InvariantBoundsCoordinates(g: Game)
    requires Invariant(g)
    ensures forall i :: 0 <= i < |g.snake| ==>
      -1 <= g.snake[i].0 <= GridSize && -1 <= g.snake[i].1 <= GridSize
    ensures IsI32(NextHead(g).0) && IsI32(NextHead(g).1)
    ensures !IsOutOfBounds(NextHead(g)) ==>
      var t := GrowTail(g.direction, Advance(g.snake, NextHead(g))[0]);
      IsI32(t.0) && IsI32(t.1)
  {
    forall i | 0 <= i < |g.snake|
      ensures -1 <= g.snake[i].0 <= GridSize && -1 <= g.snake[i].1 <= GridSize
    {
      if i == 0 && |g.snake| > 1 {
        assert Adjacent(g.snake[0], g.snake[1]);
      }
    }
    if !IsOutOfBounds(NextHead(g)) {
      var moved := Advance(g.snake, NextHead(g));
      if |g.snake| > 1 {
        assert moved[0] == g.snake[1];
        assert InGrid(moved[0]);
      }
      assert 0 <= moved[0].0 < GridSize && 0 <= moved[0].1 < GridSize;
    }
  }

  /** Once the game is over, further ticks and key presses change nothing
      but the heading. */
  lemma {:induction false} RunWhenOver(g: Game, events: seq<Event>)
    requires |g.snake| >= 1 && g.result.Some?
    ensures Run(g, events).(direction := g.direction) == g
    decreases |events|
  {
    if |events| > 0 {
      var g' := Apply(g, events[0]);
      assert g'.(direction := g.direction) == g;
      RunWhenOver(g', events[1..]);
    }
  }
}
