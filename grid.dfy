/** Cells, directions and the shape predicates of a snake body on the grid. */
module Grid {
  import opened Config

  /** A grid cell; the canvas convention puts y = 0 at the top. */
  datatype Cell = Cell(x: int, y: int)

  datatype Direction = Up | Down | Left | Right

  /** The direction a turn may never reverse into. */
  function Opposite(d: Direction): (o: Direction)
    ensures o != d
  {
    match d
    case Up => Down
    case Down => Up
    case Left => Right
    case Right => Left
  }

  lemma OppositeTwice(d: Direction)
    ensures Opposite(Opposite(d)) == d
  {
  }

  predicate InBounds(c: Cell) {
    0 <= c.x < GRID_SIZE && 0 <= c.y < GRID_SIZE
  }

  /** Two cells that share a side: distance 1 along exactly one axis. */
  predicate Adjacent(a: Cell, b: Cell) {
    (a.x == b.x && (a.y == b.y + 1 || a.y + 1 == b.y)) ||
    (a.y == b.y && (a.x == b.x + 1 || a.x + 1 == b.x))
  }

  /** The cell one step from `c` in direction `d` (the `switch` of `update`). */
  function Shift(c: Cell, d: Direction): (r: Cell)
    ensures Adjacent(c, r)
  {
    match d
    case Up => Cell(c.x, c.y - 1)
    case Down => Cell(c.x, c.y + 1)
    case Left => Cell(c.x - 1, c.y)
    case Right => Cell(c.x + 1, c.y)
  }

  /** Going back the way one came lands on the cell one came from, and only then. */
  lemma ShiftBack(c: Cell, d: Direction, e: Direction)
    ensures Shift(Shift(c, d), e) == c <==> e == Opposite(d)
  {
  }

  predicate AllInBounds(s: seq<Cell>) {
    forall i :: 0 <= i < |s| ==> InBounds(s[i])
  }

  predicate Distinct(s: seq<Cell>) {
    forall i, j :: 0 <= i < j < |s| ==> s[i] != s[j]
  }

  /** Every cell of the body touches the one before it. */
  predicate Connected(s: seq<Cell>) {
    forall i :: 0 < i < |s| ==> Adjacent(s[i - 1], s[i])
  }

  /** A new head that is not on the body keeps the cells distinct. */
  lemma PrependDistinct(h: Cell, s: seq<Cell>)
    requires Distinct(s) && h !in s
    ensures Distinct([h] + s)
  {
    var t := [h] + s;
    forall i, j | 0 <= i < j < |t| ensures t[i] != t[j] {
      if i == 0 {
        assert t[j] == s[j - 1];
      } else {
        assert t[i] == s[i - 1] && t[j] == s[j - 1];
      }
    }
  }

  /** A new head next to the old head keeps the body connected. */
  lemma PrependConnected(h: Cell, s: seq<Cell>)
    requires Connected(s) && (|s| > 0 ==> Adjacent(h, s[0]))
    ensures Connected([h] + s)
  {
    var t := [h] + s;
    forall i | 0 < i < |t| ensures Adjacent(t[i - 1], t[i]) {
      if i > 1 {
        assert t[i - 1] == s[i - 2] && t[i] == s[i - 1];
      }
    }
  }

  /** The scan `update` and `generateFood` both run: is `c` one of the cells? */
  method Occupies(cells: seq<Cell>, c: Cell) returns (found: bool)
    ensures found <==> c in cells
  {
    var i := 0;
    while i < |cells|
      invariant 0 <= i <= |cells|
      invariant forall j :: 0 <= j < i ==> cells[j] != c
    {
      if cells[i] == c {
        return true;
      }
      i := i + 1;
    }
    return false;
  }
}
