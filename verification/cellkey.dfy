/** The string keys the board is drawn with: `Grid` names the cell `(i, j)`
    `"i+j"`, the renderer decodes a key back with `from_key`, and
    `is_cell_in_snake` asks whether the decoded cell is part of the snake
    (src/main.rs). */
module CellKey {
  import opened Prelude
  import opened Text
  import opened Geometry

  /** The key `Grid` builds for a cell: row, '+', column, in decimal. */
  function Key(c: Cell): string {
    IntToString(c.0) + [Separator] + IntToString(c.1)
  }

  /** Parse every part as an `i32`, as `from_key`'s `map(...unwrap())`
      followed by `collect` does: one unparsable part makes the whole
      decoding fail. */
  function ParseAll(parts: seq<string>): (r: Option<seq<int>>)
    ensures r.Some? <==> forall k :: 0 <= k < |parts| ==> ParseI32(parts[k]).Some?
    ensures r.Some? ==> |r.value| == |parts|
    ensures r.Some? ==> forall k :: 0 <= k < |parts| ==> r.value[k] == ParseI32(parts[k]).value
    decreases |parts|
  {
    if |parts| == 0 then Some([])
    else
      match ParseI32(parts[0])
      case None => None
      case Some(v) =>
        match ParseAll(parts[1..])
        case None => None
        case Some(vs) => Some([v] + vs)
  }

  /** `from_key`: split at '+', parse every part, and take the first two
      values. `None` marks the inputs on which the source panics: a part
      that is not an `i32` (`unwrap`), or fewer than two parts (`items[1]`).
      Parts after the second are parsed but otherwise ignored. */
  function FromKey(key: string): (r: Option<Cell>)
    ensures r.Some? <==>
      |Split(key)| >= 2 && forall k :: 0 <= k < |Split(key)| ==> ParseI32(Split(key)[k]).Some?
    ensures r.Some? ==> r.value == (ParseI32(Split(key)[0]).value, ParseI32(Split(key)[1]).value)
    ensures r.Some? ==> IsI32(r.value.0) && IsI32(r.value.1)
  {
    match ParseAll(Split(key))
    case None => None
    case Some(items) =>
      if |items| < 2 then None else Some((items[0], items[1]))
  }

  /** Decoding the key of any `i32` cell gives the cell back. */
  lemma KeyRoundTrip(c: Cell)
    requires IsI32(c.0) && IsI32(c.1)
    ensures FromKey(Key(c)) == Some(c)
  {
    var a, b := IntToString(c.0), IntToString(c.1);
    assert Key(c) == Join([a, b]);
    SplitJoin([a, b]);
    ParseI32RoundTrip(c.0);
    ParseI32RoundTrip(c.1);
  }

  /** Different cells have different keys, so a key names one cell. */
  lemma KeyInjective(c: Cell, d: Cell)
    requires IsI32(c.0) && IsI32(c.1) && IsI32(d.0) && IsI32(d.1)
    ensures Key(c) == Key(d) <==> c == d
  {
    if Key(c) == Key(d) {
      KeyRoundTrip(c);
      KeyRoundTrip(d);
    }
  }

  /** A key without '+' has a single part and so no column: `items[1]`
      panics. */
  lemma FromKeyOnePart(key: string)
    requires Separator !in key
    ensures FromKey(key).None?
  {
    SplitNoSeparator(key);
  }

  /** Any part that is not an `i32` makes `unwrap` panic, wherever it stands
      and however many parts follow. */
  lemma FromKeyBadPart(key: string, k: int)
    requires 0 <= k < |Split(key)| && ParseI32(Split(key)[k]).None?
    ensures FromKey(key).None?
  {
  }

  /** For instance "3+x": the column is not a number. */
  lemma FromKeyBadColumn()
    ensures FromKey("3+x") == None
  {
    SplitJoin(["3", "x"]);
    assert Join(["3", "x"]) == "3+x";
    assert !IsDigit("x"[0]);
    FromKeyBadPart("3+x", 1);
  }

  /** A third part is parsed but dropped. */
  lemma FromKeyExtraPart()
    ensures FromKey("1+2+3") == Some((1, 2))
  {
    SplitJoin(["1", "2", "3"]);
    assert Join(["1", "2", "3"]) == "1+2+3";
    assert DigitsValue("1") == 1 && DigitsValue("2") == 2 && DigitsValue("3") == 3;
  }

  /** `is_cell_in_snake`: decode `key`, then scan the snake for a cell with
      the same row and column. `None` means `from_key` panics on the key. */
  method IsCellInSnake(snake: seq<Cell>, key: string) returns (r: Option<bool>)
    ensures r.None? <==> FromKey(key).None?
    ensures r.Some? ==> (r.value <==> FromKey(key).value in snake)
  {
    var parsed := FromKey(key);
    if parsed.None? {
      return None;
    }
    var (row, col) := parsed.value;
    var i := 0;
    while i < |snake|
      invariant 0 <= i <= |snake|
      invariant forall k :: 0 <= k < i ==> snake[k] != (row, col)
    {
      if snake[i].0 == row && snake[i].1 == col {
        return Some(true);
      }
      i := i + 1;
    }
    return Some(false);
  }
}
