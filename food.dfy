/**
 * Food placement. `generateFood` draws a cell with two calls of `Math.random()`
 * and draws again while the cell lies on the snake. The random values are a
 * parameter here: the sequence of attempts the generator would make.
 */
module Food {
  import opened Config
  import opened Grid

  /** One attempt: the value `Math.random()` gives for x, then the one for y. */
  datatype Draw = Draw(rx: real, ry: real)

  /** What `Math.random()` promises: a value in [0, 1). */
  predicate IsUnit(r: real) {
    0.0 <= r < 1.0
  }

  predicate DrawsInRange(draws: seq<Draw>) {
    forall i :: 0 <= i < |draws| ==> IsUnit(draws[i].rx) && IsUnit(draws[i].ry)
  }

  /** `Math.floor(r * gridSize)`: the largest whole number not above r times the grid size. */
  function Scale(r: real): (k: int)
    requires IsUnit(r)
    ensures 0 <= k < GRID_SIZE
    ensures k as real <= r * GRID_SIZE as real < (k + 1) as real
  {
    (r * GRID_SIZE as real).Floor
  }

  /** The cell an attempt proposes. */
  function CellOf(d: Draw): (c: Cell)
    requires IsUnit(d.rx) && IsUnit(d.ry)
    ensures InBounds(c)
    ensures c.x == Scale(d.rx) && c.y == Scale(d.ry)
  {
    Cell(Scale(d.rx), Scale(d.ry))
  }

  /**
   * Some attempt lands off the snake, so the rejection loop stops.
   * `generateFood`'s `do…while` in script.js loops for ever when no attempt
   * is free; the model asks for one instead.
   */
  predicate HasFreeDraw(draws: seq<Draw>, snake: seq<Cell>) {
    DrawsInRange(draws) &&
    exists i :: 0 <= i < |draws| && CellOf(draws[i]) !in snake
  }

  /** The attempt the rejection loop accepts: the first whose cell is off the snake. */
  function FirstFreeIndex(draws: seq<Draw>, snake: seq<Cell>): (k: nat)
    requires HasFreeDraw(draws, snake)
    ensures k < |draws| && CellOf(draws[k]) !in snake
    ensures forall j :: 0 <= j < k ==> CellOf(draws[j]) in snake
    decreases |draws|
  {
    if CellOf(draws[0]) !in snake then 0
    else
      var i :| 0 <= i < |draws| && CellOf(draws[i]) !in snake;
      assert CellOf(draws[1..][i - 1]) !in snake;
      1 + FirstFreeIndex(draws[1..], snake)
  }

  /** The food cell the generator settles on. */
  function FirstFree(draws: seq<Draw>, snake: seq<Cell>): (c: Cell)
    requires HasFreeDraw(draws, snake)
    ensures InBounds(c) && c !in snake
  {
    CellOf(draws[FirstFreeIndex(draws, snake)])
  }

  /** The accepted attempt is the only one off the snake with every earlier attempt on it. */
  lemma FirstFreeUnique(draws: seq<Draw>, snake: seq<Cell>, k: nat)
    requires HasFreeDraw(draws, snake)
    requires k < |draws| && CellOf(draws[k]) !in snake
    requires forall j :: 0 <= j < k ==> CellOf(draws[j]) in snake
    ensures FirstFreeIndex(draws, snake) == k
  {
  }
}
