/** The `LifeGame` object: a `row` x `col` board held in a two-dimensional
    array, the pointer flags set by the mouse handlers, and the `running`
    flag of the run/stop button. Drawing and the timer are not part of it. */
module Game {
  import opened LifeRule

  /** The cell index of pixel position `pos` on a canvas whose cells are
      `size` pixels wide: the floor of `pos / size`. */
  function CellOf(pos: nat, size: nat): (c: nat)
    requires size > 0
    ensures c * size <= pos < c * size + size
  {
    pos / size
  }

  class LifeGame {
    var board: array2<bool>
    const col: nat
    const row: nat
    /** Pixels per cell edge. */
    const cellSize: nat := 20
    /** Milliseconds between two steps while running; read only by the timer
        loop, which is not modelled. */
    const intervalTime: nat := 100
    /** The primary (left) button is held. */
    var leftClick: bool
    /** The secondary (right) button is held. */
    var rightClick: bool
    var running: bool

    /** The board as a value: `cells[y][x]` is `board[y, x]`. */
    ghost var cells: Grid

    ghost predicate Valid()
      reads this, board
    {
      board.Length0 == row && board.Length1 == col &&
      IsBoard(cells, row, col) &&
      forall y, x {:trigger board[y, x]} | 0 <= y < row && 0 <= x < col :: cells[y][x] == board[y, x]
    }

    /** A new game: every cell dead (a fresh cell of the source is undefined,
        which reads as dead), no button held, not running. */
    constructor (col: nat, row: nat)
      ensures Valid() && fresh(board)
      ensures this.col == col && this.row == row
      ensures cells == Dead(row, col)
      ensures !leftClick && !rightClick && !running
    {
      this.col := col;
      this.row := row;
      board := new bool[row, col]((_, _) => false);
      leftClick := false;
      rightClick := false;
      running := false;
      cells := Dead(row, col);
    }

    /** The number of live cells among the eight neighbours of (x, y), where
        a neighbour off the board counts as dead. (x, y) itself may lie off
        the board. */
    method Around(x: int, y: int) returns (cnt: int)
      requires Valid()
      ensures cnt == LifeRule.Around(cells, x, y)
    {
      ghost var g := cells;
      cnt := 0;
      var dx := -1;
      while dx <= 1
        invariant -1 <= dx <= 2
        invariant cnt == CountTo(g, x, y, dx)
      {
        var dy := -1;
        while dy <= 1
          invariant -1 <= dy <= 2
          invariant cnt == CountTo(g, x, y, dx) + ColumnCount(g, x, y, dx, dy)
        {
          assert ColumnCount(g, x, y, dx, dy + 1) == ColumnCount(g, x, y, dx, dy) + Contribution(g, x, y, dx, dy);
          if dx == 0 && dy == 0 {
            dy := dy + 1;
            continue;
          }
          var nx := x + dx;
          var ny := y + dy;
          assert Contribution(g, x, y, dx, dy) == if Live(g, nx, ny) then 1 else 0;
          if 0 <= nx < col && 0 <= ny < row {
            assert Live(g, nx, ny) == board[ny, nx];
            if board[ny, nx] {
              cnt := cnt + 1;
            }
          } else {
            assert !Live(g, nx, ny);
          }
          dy := dy + 1;
        }
        assert CountTo(g, x, y, dx + 1) == CountTo(g, x, y, dx) + ColumnCount(g, x, y, dx, 2);
        dx := dx + 1;
      }
      CountToAround(g, x, y);
    }

    /** Advances one generation: a fresh board is filled from the counts of
        the old one and then replaces it. */
    method Step()
      requires Valid()
      modifies this`board, this`cells
      ensures Valid() && fresh(board)
      ensures cells == NextBoard(old(cells))
      ensures forall y, x | 0 <= y < row && 0 <= x < col ::
                (LifeRule.Around(old(cells), x, y) == 2 ==> cells[y][x] == old(cells)[y][x]) &&
                (LifeRule.Around(old(cells), x, y) == 3 ==> cells[y][x]) &&
                (LifeRule.Around(old(cells), x, y) !in {2, 3} ==> !cells[y][x])
    {
      ghost var next := NextBoard(cells);
      var newBoard := new bool[row, col]((_, _) => false);
      for y := 0 to row
        invariant Valid() && cells == old(cells) && newBoard != board
        invariant forall y', x' | 0 <= y' < y && 0 <= x' < col :: newBoard[y', x'] == next[y'][x']
        invariant forall y', x' | y <= y' < row && 0 <= x' < col :: !newBoard[y', x']
      {
        StepRow(newBoard, y, next);
      }
      forall y, x | 0 <= y < row && 0 <= x < col
        ensures next[y][x] == NextState(LifeRule.Around(cells, x, y), cells[y][x])
      {
        NextBoardAt(cells, x, y);
      }
      board := newBoard;
      cells := next;
    }

    /** The inner loop of `Step`: fills row `y` of the fresh board from the
        counts of the current one. A cell whose count is neither 2 nor 3 is
        left as allocated, that is dead. */
    method StepRow(newBoard: array2<bool>, y: nat, ghost next: Grid)
      requires Valid() && newBoard != board && y < row
      requires newBoard.Length0 == row && newBoard.Length1 == col
      requires next == NextBoard(cells)
      requires forall x' | 0 <= x' < col :: !newBoard[y, x']
      modifies newBoard
      ensures forall x' | 0 <= x' < col :: newBoard[y, x'] == next[y][x']
      ensures forall y', x' | 0 <= y' < row && y' != y && 0 <= x' < col :: newBoard[y', x'] == old(newBoard[y', x'])
    {
      for x := 0 to col
        invariant forall x' | 0 <= x' < x :: newBoard[y, x'] == next[y][x']
        invariant forall x' | x <= x' < col :: !newBoard[y, x']
        invariant forall y', x' | 0 <= y' < row && y' != y && 0 <= x' < col :: newBoard[y', x'] == old(newBoard[y', x'])
      {
        var n := Around(x, y);
        NextBoardAt(cells, x, y);
        assert next[y][x] == NextState(n, board[y, x]);
        match n {
          case 2 => newBoard[y, x] := board[y, x];
          case 3 => newBoard[y, x] := true;
          case _ =>
        }
      }
    }

    /** Sets every cell dead, in place. */
    method Clear()
      requires Valid()
      modifies board, this`cells
      ensures Valid() && cells == Dead(row, col)
    {
      for y := 0 to row
        invariant forall y', x' | 0 <= y' < y && 0 <= x' < col :: !board[y', x']
      {
        for x := 0 to col
          invariant forall y', x' | 0 <= y' < y && 0 <= x' < col :: !board[y', x']
          invariant forall x' | 0 <= x' < x :: !board[y, x']
        {
          board[y, x] := false;
        }
      }
      cells := Dead(row, col);
    }

    /** Whether pixel position (posX, posY) falls on a cell of the board. */
    ghost predicate OnBoard(posX: nat, posY: nat)
      reads this
    {
      CellOf(posX, cellSize) < col && CellOf(posY, cellSize) < row
    }

    /** Sets the cell under pixel position (posX, posY) to `alive`, and no
        other cell. */
    method Put(posX: nat, posY: nat, alive: bool)
      requires Valid() && OnBoard(posX, posY)
      modifies board, this`cells
      ensures Valid()
      ensures cells == Paint(old(cells), CellOf(posX, cellSize), CellOf(posY, cellSize), alive)
    {
      var x := CellOf(posX, cellSize);
      var y := CellOf(posY, cellSize);
      board[y, x] := alive;
      cells := Paint(cells, x, y, alive);
    }

    /** A button goes down: button 0 marks the left button held, button 2 the
        right one; then the cell under the pointer is painted alive (button 0)
        or dead (button 2). */
    method MouseDown(button: int, posX: nat, posY: nat)
      requires Valid()
      requires button == 0 || button == 2 ==> OnBoard(posX, posY)
      modifies this`leftClick, this`rightClick, board, this`cells
      ensures Valid()
      ensures leftClick == (old(leftClick) || button == 0)
      ensures rightClick == (old(rightClick) || button == 2)
      ensures cells == if button == 0 then Paint(old(cells), CellOf(posX, cellSize), CellOf(posY, cellSize), true)
                         else if button == 2 then Paint(old(cells), CellOf(posX, cellSize), CellOf(posY, cellSize), false)
                         else old(cells)
    {
      if button == 0 {
        leftClick := true;
      }
      if button == 2 {
        rightClick := true;
      }
      if button == 0 {
        Put(posX, posY, true);
      } else if button == 2 {
        Put(posX, posY, false);
      }
    }

    /** A button goes up: button 0 releases the left flag, button 2 the right
        one. */
    method MouseUp(button: int)
      requires Valid()
      modifies this`leftClick, this`rightClick
      ensures Valid()
      ensures leftClick == (old(leftClick) && button != 0)
      ensures rightClick == (old(rightClick) && button != 2)
    {
      if button == 0 {
        leftClick := false;
      }
      if button == 2 {
        rightClick := false;
      }
    }

    /** The pointer leaves the canvas: only the left flag is released. */
    method MouseOut()
      requires Valid()
      modifies this`leftClick
      ensures Valid() && !leftClick
    {
      leftClick := false;
    }

    /** The pointer moves: a held left button paints alive, otherwise a held
        right button paints dead, otherwise nothing changes. */
    method MouseMove(posX: nat, posY: nat)
      requires Valid()
      requires leftClick || rightClick ==> OnBoard(posX, posY)
      modifies board, this`cells
      ensures Valid()
      ensures leftClick ==> cells == Paint(old(cells), CellOf(posX, cellSize), CellOf(posY, cellSize), true)
      ensures !leftClick && rightClick ==> cells == Paint(old(cells), CellOf(posX, cellSize), CellOf(posY, cellSize), false)
      ensures !leftClick && !rightClick ==> cells == old(cells)
    {
      if leftClick {
        Put(posX, posY, true);
      } else if rightClick {
        Put(posX, posY, false);
      }
    }

    /** The run/stop button: flips `running`. */
    method ToggleRun()
      requires Valid()
      modifies this`running
      ensures Valid() && running == !old(running)
    {
      if running {
        running := false;
      } else {
        running := true;
      }
    }
  }

  /** Pressing the run/stop button twice restores the `running` flag. */
  method ToggleTwice(game: LifeGame)
    requires game.Valid()
    modifies game`running
    ensures game.Valid() && game.running == old(game.running)
  {
    game.ToggleRun();
    game.ToggleRun();
  }
}
