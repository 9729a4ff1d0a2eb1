/** The snake's body: a sequence of cells with the tail at index 0 and the
    head at the last index, how a tick advances it (`mutate_snake`) and where
    a growing snake gets its new tail (src/main.rs). */
module SnakeBody {
  import opened Geometry

  function Head(snake: seq<Cell>): Cell
    requires |snake| >= 1
  {
    snake[|snake| - 1]
  }

  /** `mutate_snake`: drop the tail (index 0) and push `newhead`. The source
      panics on an empty snake (`remove(0)`), hence the precondition. The
      length is kept, the new head is last, and every other cell is the old
      cell one place further towards the head. */
  function Advance(snake: seq<Cell>, newhead: Cell): (r: seq<Cell>)
    requires |snake| >= 1
    ensures |r| == |snake|
    ensures Head(r) == newhead
    ensures forall i :: 0 <= i < |r| - 1 ==> r[i] == snake[i + 1]
  {
    snake[1..] + [newhead]
  }

  /** The cell a growing snake gets in front of its tail `oldtail`: one step
      against the heading `d`, as the tick's `match *direction` lays it out. */
  function GrowTail(d: Direction, oldtail: Cell): (t: Cell)
    ensures t == Move(Opposite(d), oldtail)
    ensures Adjacent(t, oldtail)
  {
    match d
    case Down => (oldtail.0 - 1, oldtail.1)
    case Left => (oldtail.0, oldtail.1 + 1)
    case Up => (oldtail.0 + 1, oldtail.1)
    case Right => (oldtail.0, oldtail.1 - 1)
  }

  /** Consecutive cells of the body share a side. */
  predicate IsPath(snake: seq<Cell>) {
    forall i :: 0 <= i < |snake| - 1 ==> Adjacent(snake[i], snake[i + 1])
  }

  /** Advancing a connected body to a cell next to its head keeps it
      connected. */
  lemma AdvanceKeepsPath(snake: seq<Cell>, newhead: Cell)
    requires |snake| >= 1
    requires IsPath(snake)
    requires Adjacent(Head(snake), newhead)
    ensures IsPath(Advance(snake, newhead))
  {
    var r := Advance(snake, newhead);
    forall i | 0 <= i < |r| - 1
      ensures Adjacent(r[i], r[i + 1])
    {
      if i + 1 < |r| - 1 {
        assert r[i] == snake[i + 1] && r[i + 1] == snake[i + 2];
      } else {
        assert r[i] == Head(snake);
      }
    }
  }

  /** Putting the grown tail in front of a connected body keeps it connected. */
  lemma GrowKeepsPath(d: Direction, snake: seq<Cell>)
    requires |snake| >= 1
    requires IsPath(snake)
    ensures IsPath([GrowTail(d, snake[0])] + snake)
  {
    var r := [GrowTail(d, snake[0])] + snake;
    forall i | 0 <= i < |r| - 1
      ensures Adjacent(r[i], r[i + 1])
    {
      if i > 0 {
        assert r[i] == snake[i - 1] && r[i + 1] == snake[i];
      }
    }
  }
}
