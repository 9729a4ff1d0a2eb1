/** Cells, headings and the board: the four one-step moves, the bounds test,
    the two-element vector helpers and the game's own tuple comparison
    (src/main.rs). */
module Geometry {
  import opened Prelude

  /** A board cell as `(row, column)`. Rust stores both as `i32`; the model
      uses unbounded integers, and the engine proves that reachable
      coordinates stay far inside `i32`. */
  type Cell = (int, int)

  /** The board is `GridSize` x `GridSize`; rows and columns run over
      `0 .. GridSize - 1`. */
  const GridSize: int := 10

  datatype Direction = Up | Down | Left | Right

  /** The heading a new game starts with. */
  const DefaultDirection: Direction := Left

  /** The heading that undoes a step in direction `d`. */
  function Opposite(d: Direction): Direction {
    match d
    case Up => Down
    case Down => Up
    case Left => Right
    case Right => Left
  }

  // ---------------------------------------------------------------------------
  // Moves
  // ---------------------------------------------------------------------------

  function MoveLeft(head: Cell): Cell {
    (head.0, head.1 - 1)
  }

  function MoveRight(head: Cell): Cell {
    (head.0, head.1 + 1)
  }

  function MoveUp(head: Cell): Cell {
    (head.0 - 1, head.1)
  }

  function MoveDown(head: Cell): Cell {
    (head.0 + 1, head.1)
  }

  /** The move selected by a heading, as the tick's `match` picks `movefn`. */
  function Move(d: Direction, head: Cell): Cell {
    match d
    case Left => MoveLeft(head)
    case Right => MoveRight(head)
    case Up => MoveUp(head)
    case Down => MoveDown(head)
  }

  function Abs(x: int): nat {
    if x < 0 then -x else x
  }

  /** Two cells that share a side: one coordinate equal, the other one apart. */
  predicate Adjacent(a: Cell, b: Cell) {
    (a.0 == b.0 && Abs(a.1 - b.1) == 1) || (a.1 == b.1 && Abs(a.0 - b.0) == 1)
  }

  /** Every move changes exactly one coordinate, by exactly one. */
  lemma MoveIsUnitStep(d: Direction, head: Cell)
    ensures Adjacent(head, Move(d, head))
    ensures Move(d, head) != head
  {
  }

  /** Left and right undo each other. */
  lemma LeftRightInverse(c: Cell)
    ensures MoveRight(MoveLeft(c)) == c
    ensures MoveLeft(MoveRight(c)) == c
  {
  }

  /** Up and down undo each other. */
  lemma UpDownInverse(c: Cell)
    ensures MoveDown(MoveUp(c)) == c
    ensures MoveUp(MoveDown(c)) == c
  {
  }

  /** A step in the opposite heading returns to the start, and it is the only
      heading that does. */
  lemma OppositeUndoesMove(d: Direction, e: Direction, c: Cell)
    ensures Move(e, Move(d, c)) == c <==> e == Opposite(d)
  {
  }

  /** Different headings lead to different cells. */
  lemma MoveInjective(d: Direction, e: Direction, a: Cell, b: Cell)
    ensures Move(d, a) == Move(e, b) && d == e ==> a == b
    ensures Move(d, a) == Move(e, a) ==> d == e
  {
  }

  // ---------------------------------------------------------------------------
  // The board
  // ---------------------------------------------------------------------------

  /** `is_out_of_bounds`: a coordinate below zero or at/after `GridSize`. */
  predicate IsOutOfBounds(head: Cell) {
    head.0 < 0 || head.1 < 0 || head.0 >= GridSize || head.1 >= GridSize
  }

  /** The board as a set of cells: the reference the bounds test is held to. */
  function Board(): (cells: set<Cell>)
    ensures forall c :: c in cells ==> 0 <= c.0 < GridSize && 0 <= c.1 < GridSize
  {
    set i, j | 0 <= i < GridSize && 0 <= j < GridSize :: (i, j)
  }

  predicate InGrid(c: Cell) {
    c in Board()
  }

  /** A cell is out of bounds exactly when it is not a cell of the board. */
  lemma OutOfBoundsIffOffBoard(c: Cell)
    ensures IsOutOfBounds(c) <==> !InGrid(c)
  {
    if !IsOutOfBounds(c) {
      assert c == (c.0, c.1);
    }
  }

  // ---------------------------------------------------------------------------
  // Two-element vectors
  // ---------------------------------------------------------------------------

  /** `tuple_to_vec`. */
  function TupleToVec(t: Cell): seq<int> {
    [t.0, t.1]
  }

  /** `vec_to_tuple`: the first two elements. A shorter vector makes the
      source panic on indexing, shown here as `None`. */
  function VecToTuple(v: seq<int>): (r: Option<Cell>)
    ensures r.Some? <==> |v| >= 2
  {
    if |v| < 2 then None else Some((v[0], v[1]))
  }

  /** The two helpers are inverse to each other on two-element vectors, and
      only the first two elements of a longer vector are kept. */
  lemma VecTupleRoundTrip(t: Cell, v: seq<int>)
    ensures VecToTuple(TupleToVec(t)) == Some(t)
    ensures |TupleToVec(t)| == 2
    ensures |v| == 2 ==> TupleToVec(VecToTuple(v).value) == v
    ensures |v| >= 2 ==> TupleToVec(VecToTuple(v).value) == v[..2]
  {
  }

  // ---------------------------------------------------------------------------
  // tuples_equal
  // ---------------------------------------------------------------------------

  /** The loop of `tuples_equal`: walk `xs` and stop with `false` at the first
      element that `ys` does not contain. */
  function AllContained(xs: seq<int>, ys: seq<int>): (r: bool)
    ensures r <==> forall k :: 0 <= k < |xs| ==> xs[k] in ys
    decreases |xs|
  {
    if |xs| == 0 then true
    else if xs[0] !in ys then false
    else AllContained(xs[1..], ys)
  }

  /** `tuples_equal`: every component of `t1` is one of the components of
      `t2`. This is the test the tick uses for "the head is on the food";
      it is not equality of cells. */
  function TuplesEqual(t1: Cell, t2: Cell): (r: bool)
    ensures r <==> (t1.0 == t2.0 || t1.0 == t2.1) && (t1.1 == t2.0 || t1.1 == t2.1)
  {
    var a1 := TupleToVec(t1);
    var a2 := TupleToVec(t2);
    assert a1[0] == t1.0 && a1[1] == t1.1;
    AllContained(a1, a2)
  }

  /** The cells that "equal" `t` under `tuples_equal`: `t` itself, `t`
      mirrored, and the two cells on the diagonal built from one of its
      components. */
  lemma TuplesEqualCells(t1: Cell, t2: Cell)
    ensures TuplesEqual(t1, t2) <==>
              t1 == t2 || t1 == (t2.1, t2.0) || t1 == (t2.0, t2.0) || t1 == (t2.1, t2.1)
  {
  }

  /** Equal cells are `tuples_equal`, so the relation is reflexive. */
  lemma EqualImpliesTuplesEqual(t1: Cell, t2: Cell)
    ensures t1 == t2 ==> TuplesEqual(t1, t2)
    ensures TuplesEqual(t1, t1)
  {
  }

  /** `tuples_equal` is not equality: `(1, 1)` "equals" `(1, 5)`. */
  lemma TuplesEqualIsNotEquality()
    ensures exists t1: Cell, t2: Cell :: t1 != t2 && TuplesEqual(t1, t2)
  {
    var t1, t2 := (1, 1), (1, 5);
    assert t1 != t2 && TuplesEqual(t1, t2);
  }

  /** `tuples_equal` is not symmetric: `(1, 1)` "equals" `(1, 2)` but not
      the other way round. */
  lemma TuplesEqualIsNotSymmetric()
    ensures exists t1: Cell, t2: Cell :: TuplesEqual(t1, t2) && !TuplesEqual(t2, t1)
  {
    var t1, t2 := (1, 1), (1, 2);
    assert TuplesEqual(t1, t2) && !TuplesEqual(t2, t1);
  }
}
