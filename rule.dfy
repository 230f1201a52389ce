/** The transition rule of the game of life on a finite board, as values.
    A board is a sequence of rows; `g[y][x]` is the cell in column `x` of
    row `y`, `true` meaning alive. Positions off the board are dead: there is
    no wrap-around. */
module LifeRule {

  type Grid = seq<seq<bool>>

  /** Every row of `g` has `col` cells and there are `row` rows. */
  ghost predicate IsBoard(g: Grid, row: nat, col: nat)
  {
    |g| == row && forall y | 0 <= y < row :: |g[y]| == col
  }

  /** The cell at column `x`, row `y` exists and is alive. */
  predicate Live(g: Grid, x: int, y: int)
  {
    0 <= y < |g| && 0 <= x < |g[y]| && g[y][x]
  }

  // ---------------------------------------------------------------------
  // Neighbour count
  // ---------------------------------------------------------------------

  /** 1 for a live cell on the board, 0 for a dead one or a position off
      the board. */
  function Cell(g: Grid, x: int, y: int): nat
  {
    if Live(g, x, y) then 1 else 0
  }

  /** The number of live cells among the eight Moore neighbours of (x, y);
      neighbours off the board count as dead, (x, y) itself never counts. */
  function Around(g: Grid, x: int, y: int): (n: nat)
    ensures n <= 8
  {
    Cell(g, x - 1, y - 1) + Cell(g, x - 1, y) + Cell(g, x - 1, y + 1) +
    Cell(g, x, y - 1) + Cell(g, x, y + 1) +
    Cell(g, x + 1, y - 1) + Cell(g, x + 1, y) + Cell(g, x + 1, y + 1)
  }

  // The count in the order the source's nested loops take it: column offset
  // dx outer, row offset dy inner, each from -1 to 1, skipping (0, 0).

  /** What the neighbour at offset (dx, dy) adds to the count of (x, y). */
  function Contribution(g: Grid, x: int, y: int, dx: int, dy: int): nat
  {
    if dx == 0 && dy == 0 then 0 else Cell(g, x + dx, y + dy)
  }

  /** Live neighbours at column offset `dx` and row offsets -1 <= dy < dyEnd. */
  function ColumnCount(g: Grid, x: int, y: int, dx: int, dyEnd: int): nat
    requires -1 <= dyEnd <= 2
    decreases dyEnd + 1
  {
    if dyEnd == -1 then 0
    else ColumnCount(g, x, y, dx, dyEnd - 1) + Contribution(g, x, y, dx, dyEnd - 1)
  }

  /** Live neighbours at column offsets -1 <= dx < dxEnd. */
  function CountTo(g: Grid, x: int, y: int, dxEnd: int): nat
    requires -1 <= dxEnd <= 2
    decreases dxEnd + 1
  {
    if dxEnd == -1 then 0
    else CountTo(g, x, y, dxEnd - 1) + ColumnCount(g, x, y, dxEnd - 1, 2)
  }

  /** Taking the offsets in loop order gives the same count. */
  lemma CountToAround(g: Grid, x: int, y: int)
    ensures CountTo(g, x, y, 2) == Around(g, x, y)
  {
  }

  /** Independent reference for `Around`: the set of positions of the Moore
      neighbourhood of (x, y), other than (x, y), that hold a live cell. */
  ghost function LiveNeighbours(g: Grid, x: int, y: int): set<(int, int)>
  {
    set nx: int, ny: int | x - 1 <= nx <= x + 1 && y - 1 <= ny <= y + 1 && (nx != x || ny != y) && Live(g, nx, ny)
      :: (nx, ny)
  }

  ghost function ColumnSet(g: Grid, x: int, y: int, dx: int, dyEnd: int): set<(int, int)>
  {
    set nx: int, ny: int | nx == x + dx && y - 1 <= ny < y + dyEnd && (nx != x || ny != y) && Live(g, nx, ny) :: (nx, ny)
  }

  ghost function PrefixSet(g: Grid, x: int, y: int, dxEnd: int): set<(int, int)>
  {
    set nx: int, ny: int | x - 1 <= nx < x + dxEnd && y - 1 <= ny <= y + 1 && (nx != x || ny != y) && Live(g, nx, ny)
      :: (nx, ny)
  }

  /** Row offset `dyEnd - 1` adds its position to the column's set when it
      holds a live neighbour, and that position was not there before. */
  lemma ColumnSetStep(g: Grid, x: int, y: int, dx: int, dyEnd: int)
    requires 0 <= dyEnd <= 2
    ensures (x + dx, y + dyEnd - 1) !in ColumnSet(g, x, y, dx, dyEnd - 1)
    ensures ColumnSet(g, x, y, dx, dyEnd) ==
            ColumnSet(g, x, y, dx, dyEnd - 1) +
            (if Contribution(g, x, y, dx, dyEnd - 1) == 1 then {(x + dx, y + dyEnd - 1)} else {})
  {
    var prev, now := ColumnSet(g, x, y, dx, dyEnd - 1), ColumnSet(g, x, y, dx, dyEnd);
    var p := (x + dx, y + dyEnd - 1);
    var added: set<(int, int)> := if Contribution(g, x, y, dx, dyEnd - 1) == 1 then {p} else {};
    forall q | q in now ensures q in prev + added {
      if q.1 != y + dyEnd - 1 {
        assert q in prev;
      }
    }
    forall q | q in prev + added ensures q in now {
    }
  }

  lemma {:induction false} ColumnSetSize(g: Grid, x: int, y: int, dx: int, dyEnd: int)
    requires -1 <= dyEnd <= 2
    ensures |ColumnSet(g, x, y, dx, dyEnd)| == ColumnCount(g, x, y, dx, dyEnd)
    decreases dyEnd + 1
  {
    if dyEnd == -1 {
      assert ColumnSet(g, x, y, dx, dyEnd) == {};
    } else {
      var e := dyEnd - 1;
      ColumnSetSize(g, x, y, dx, e);
      ColumnSetStep(g, x, y, dx, dyEnd);
    }
  }

  /** Column offset `dxEnd - 1` adds its column's set, disjoint from the
      columns before it. */
  lemma PrefixSetStep(g: Grid, x: int, y: int, dxEnd: int)
    requires 0 <= dxEnd <= 2
    ensures PrefixSet(g, x, y, dxEnd - 1) * ColumnSet(g, x, y, dxEnd - 1, 2) == {}
    ensures PrefixSet(g, x, y, dxEnd) == PrefixSet(g, x, y, dxEnd - 1) + ColumnSet(g, x, y, dxEnd - 1, 2)
  {
    var prev, col, now := PrefixSet(g, x, y, dxEnd - 1), ColumnSet(g, x, y, dxEnd - 1, 2), PrefixSet(g, x, y, dxEnd);
    forall p | p in now ensures p in prev + col {
      if p.0 == x + dxEnd - 1 {
        assert p in col;
      }
    }
    forall p | p in col ensures p !in prev && p in now {
    }
  }

  lemma {:induction false} PrefixSetSize(g: Grid, x: int, y: int, dxEnd: int)
    requires -1 <= dxEnd <= 2
    ensures |PrefixSet(g, x, y, dxEnd)| == CountTo(g, x, y, dxEnd)
    decreases dxEnd + 1
  {
    if dxEnd == -1 {
      assert PrefixSet(g, x, y, dxEnd) == {};
    } else {
      var e := dxEnd - 1;
      PrefixSetSize(g, x, y, e);
      ColumnSetSize(g, x, y, e, 2);
      PrefixSetStep(g, x, y, dxEnd);
    }
  }

  /** The count is exactly the number of live neighbours: off-board positions
      and the centre are never counted, and no neighbour is counted twice. */
  lemma AroundCountsLiveNeighbours(g: Grid, x: int, y: int)
    ensures Around(g, x, y) == |LiveNeighbours(g, x, y)|
  {
    PrefixSetSize(g, x, y, 2);
    CountToAround(g, x, y);
    assert LiveNeighbours(g, x, y) == PrefixSet(g, x, y, 2);
  }

  /** Two boards that agree on the eight neighbours of (x, y) give (x, y) the
      same count; in particular the count reads nothing farther away, and
      not (x, y) itself. */
  lemma AroundLocal(g: Grid, h: Grid, x: int, y: int)
    requires forall nx, ny | x - 1 <= nx <= x + 1 && y - 1 <= ny <= y + 1 && (nx != x || ny != y) ::
               Live(g, nx, ny) == Live(h, nx, ny)
    ensures Around(g, x, y) == Around(h, x, y)
  {
    assert Live(g, x - 1, y - 1) == Live(h, x - 1, y - 1);
    assert Live(g, x - 1, y) == Live(h, x - 1, y);
    assert Live(g, x - 1, y + 1) == Live(h, x - 1, y + 1);
    assert Live(g, x, y - 1) == Live(h, x, y - 1);
    assert Live(g, x, y + 1) == Live(h, x, y + 1);
    assert Live(g, x + 1, y - 1) == Live(h, x + 1, y - 1);
    assert Live(g, x + 1, y) == Live(h, x + 1, y);
    assert Live(g, x + 1, y + 1) == Live(h, x + 1, y + 1);
  }

  // ---------------------------------------------------------------------
  // One generation
  // ---------------------------------------------------------------------

  /** The next state of a cell with `n` live neighbours that is `alive` now:
      two neighbours keep the state, three make it alive, any other count
      leaves it dead. */
  function NextState(n: int, alive: bool): bool
  {
    if n == 2 then alive else if n == 3 then true else false
  }

  /** The next generation: every cell is computed from the counts of the old
      board, never from cells already updated. */
  function NextBoard(g: Grid): (r: Grid)
    ensures |r| == |g| && forall y | 0 <= y < |g| :: |r[y]| == |g[y]|
  {
    seq(|g|, y requires 0 <= y < |g| =>
      seq(|g[y]|, x requires 0 <= x < |g[y]| => NextState(Around(g, x, y), g[y][x])))
  }

  lemma NextBoardAt(g: Grid, x: int, y: int)
    requires 0 <= y < |g| && 0 <= x < |g[y]|
    ensures NextBoard(g)[y][x] == NextState(Around(g, x, y), g[y][x])
  {
  }

  /** The rule as Conway states it: a live cell survives with two or three
      live neighbours, a dead cell is born with exactly three. */
  lemma ConwayRule(g: Grid, x: int, y: int)
    requires 0 <= y < |g| && 0 <= x < |g[y]|
    ensures NextBoard(g)[y][x] == if g[y][x] then Around(g, x, y) in {2, 3} else Around(g, x, y) == 3
  {
  }

  /** The next state of a cell depends only on the cell and its eight
      neighbours on the old board. */
  lemma NextBoardLocal(g: Grid, h: Grid, x: int, y: int)
    requires 0 <= y < |g| && 0 <= x < |g[y]| && 0 <= y < |h| && 0 <= x < |h[y]|
    requires g[y][x] == h[y][x]
    requires forall nx, ny | x - 1 <= nx <= x + 1 && y - 1 <= ny <= y + 1 && (nx != x || ny != y) ::
               Live(g, nx, ny) == Live(h, nx, ny)
    ensures NextBoard(g)[y][x] == NextBoard(h)[y][x]
  {
    AroundLocal(g, h, x, y);
  }

  // ---------------------------------------------------------------------
  // Whole-board and single-cell writes
  // ---------------------------------------------------------------------

  /** A board of `row` rows of `col` dead cells. */
  function Dead(row: nat, col: nat): (g: Grid)
    ensures IsBoard(g, row, col)
    ensures forall y, x | 0 <= y < row && 0 <= x < col :: !g[y][x]
  {
    seq(row, _ => seq(col, _ => false))
  }

  /** On a dead board every cell has no live neighbour, and the next
      generation is dead again. */
  lemma DeadIsQuiet(row: nat, col: nat, x: int, y: int)
    ensures Around(Dead(row, col), x, y) == 0
    ensures NextBoard(Dead(row, col)) == Dead(row, col)
  {
    var d := Dead(row, col);
    AroundCountsLiveNeighbours(d, x, y);
    assert LiveNeighbours(d, x, y) == {};
    forall y', x' | 0 <= y' < row && 0 <= x' < col ensures NextBoard(d)[y'][x'] == d[y'][x'] {
      AroundCountsLiveNeighbours(d, x', y');
      assert LiveNeighbours(d, x', y') == {};
    }
    forall y' | 0 <= y' < row ensures NextBoard(d)[y'] == d[y'] {
    }
  }

  /** `g` with the cell at column `x`, row `y` set to `alive`. */
  function Paint(g: Grid, x: nat, y: nat, alive: bool): (r: Grid)
    requires y < |g| && x < |g[y]|
    ensures |r| == |g| && forall y' | 0 <= y' < |g| :: |r[y']| == |g[y']|
    ensures r[y][x] == alive
    ensures forall y', x' | 0 <= y' < |g| && 0 <= x' < |g[y']| && (x', y') != (x, y) :: r[y'][x'] == g[y'][x']
  {
    g[y := g[y][x := alive]]
  }

  /** Setting a cell never changes its own neighbour count. */
  lemma PaintKeepsOwnCount(g: Grid, x: nat, y: nat, alive: bool)
    requires y < |g| && x < |g[y]|
    ensures Around(Paint(g, x, y, alive), x, y) == Around(g, x, y)
  {
    AroundLocal(Paint(g, x, y, alive), g, x, y);
  }

  /** Generation `n` of board `g`. */
  function Generation(g: Grid, n: nat): (r: Grid)
    ensures |r| == |g| && forall y | 0 <= y < |g| :: |r[y]| == |g[y]|
  {
    if n == 0 then g else NextBoard(Generation(g, n - 1))
  }

  /** Running `m` generations and then `n` more is running `m + n`. */
  lemma {:induction false} GenerationAdd(g: Grid, m: nat, n: nat)
    ensures Generation(g, m + n) == Generation(Generation(g, m), n)
  {
    if n > 0 {
      GenerationAdd(g, m, n - 1);
    }
  }
}
