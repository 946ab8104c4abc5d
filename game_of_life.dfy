/**
 * The simulation engine: a GridSize × GridSize grid of cells and a
 * generation counter, both updated in place by the engine's methods.
 *
 * Each grid position holds a cell of its own; the grid is modelled by the
 * cells' liveness flags. The ghost field `board` is the grid as a value,
 * kept equal to the grid by `Valid()`, so that every method is specified by
 * the functions of module Rules.
 */
module Engine {
  import opened Rules

  class GameOfLife {
    var grid: array2<bool>
    var generation: int

    /** The grid as a board value. */
    ghost var board: Board

    ghost predicate Valid()
      reads this, grid
    {
      && grid.Length0 == GridSize && grid.Length1 == GridSize
      && IsBoard(board)
      && (forall i, j :: InBounds(i, j) ==> grid[i, j] == board[i][j])
      && IsInt32(generation)
    }

    /** A new engine: generation 0, every cell dead. */
    constructor ()
      ensures Valid() && fresh(grid)
      ensures generation == 0
      ensures board == EmptyBoard()
    {
      grid := new bool[GridSize, GridSize];
      generation := 0;
      new;
      InitializeGrid();
    }

    /** Puts a dead cell at every position of the current grid, whatever it held. */
    method InitializeGrid()
      requires grid.Length0 == GridSize && grid.Length1 == GridSize && IsInt32(generation)
      modifies this, grid
      ensures Valid() && grid == old(grid) && generation == old(generation)
      ensures board == EmptyBoard()
    {
      for i := 0 to GridSize
        modifies grid
        invariant forall p, q :: 0 <= p < i && 0 <= q < GridSize ==> !grid[p, q]
      {
        for j := 0 to GridSize
          modifies grid
          invariant forall p, q :: 0 <= p < i && 0 <= q < GridSize ==> !grid[p, q]
          invariant forall q :: 0 <= q < j ==> !grid[i, q]
        {
          grid[i, j] := false;
        }
      }
      board := EmptyBoard();
    }

    /**
     * Gives each cell its bit from an injected row-major bit sequence (the
     * engine draws them from a random source); the generation is kept.
     */
    method RandomizeGrid(bits: seq<bool>)
      requires Valid()
      requires |bits| == GridSize * GridSize
      modifies this, grid
      ensures Valid() && grid == old(grid) && generation == old(generation)
      ensures board == FromBits(bits)
    {
      for i := 0 to GridSize
        modifies grid
        invariant forall p, q :: 0 <= p < i && 0 <= q < GridSize ==> grid[p, q] == bits[p * GridSize + q]
      {
        for j := 0 to GridSize
          modifies grid
          invariant forall p, q :: 0 <= p < i && 0 <= q < GridSize ==> grid[p, q] == bits[p * GridSize + q]
          invariant forall q :: 0 <= q < j ==> grid[i, q] == bits[i * GridSize + q]
        {
          grid[i, j] := bits[i * GridSize + j];
        }
      }
      board := FromBits(bits);
    }

    /** Sets the five preset cells alive; every other cell and the generation are kept. */
    method SetInitialPattern()
      requires Valid()
      modifies this, grid
      ensures Valid() && grid == old(grid) && generation == old(generation)
      ensures board == WithPreset(old(board))
    {
      grid[2, 1] := true;
      grid[2, 2] := true;
      grid[2, 3] := true;
      grid[1, 2] := true;
      grid[3, 2] := true;
      board := WithPreset(board);
    }

    /** The number of live cells among the eight around (row, col) that lie on the grid. */
    method CountLiveNeighbors(row: int, col: int) returns (count: int)
      requires Valid()
      ensures count == LiveNeighbours(board, row, col)
      ensures count == |NeighbourSet(board, row, col)|
    {
      count := 0;
      NeighboursBeforeEnds(board, row, col);
      for i := -1 to 2
        invariant count == |NeighboursBefore(board, row, col, i, -1)|
      {
        for j := -1 to 2
          invariant count == |NeighboursBefore(board, row, col, i, j)|
        {
          NeighboursBeforeStep(board, row, col, i, j);
          if i == 0 && j == 0 {
            continue;
          }
          var newRow := row + i;
          var newCol := col + j;
          if 0 <= newRow < GridSize && 0 <= newCol < GridSize {
            if grid[newRow, newCol] {
              count := count + 1;
            }
          }
        }
        NeighboursBeforeNextRow(board, row, col, i);
      }
      LiveNeighboursIsNeighbourSetSize(board, row, col);
    }

    /**
     * Replaces the grid by a freshly built one holding the next generation of
     * every cell, computed from the old grid only, and counts the generation.
     */
    method NextGeneration()
      requires Valid()
      modifies this
      ensures Valid() && fresh(grid)
      ensures board == Step(old(board))
      ensures generation == Int32Succ(old(generation))
    {
      var newGrid := new bool[GridSize, GridSize];
      for i := 0 to GridSize
        modifies newGrid
        invariant forall p, q :: 0 <= p < i && 0 <= q < GridSize ==> newGrid[p, q] == NextAliveAt(board, p, q)
      {
        for j := 0 to GridSize
          modifies newGrid
          invariant forall p, q :: 0 <= p < i && 0 <= q < GridSize ==> newGrid[p, q] == NextAliveAt(board, p, q)
          invariant forall q :: 0 <= q < j ==> newGrid[i, q] == NextAliveAt(board, i, q)
        {
          var liveNeighbors := CountLiveNeighbors(i, j);
          var currentlyAlive := grid[i, j];
          newGrid[i, j] := false;
          if currentlyAlive {
            if liveNeighbors == 2 || liveNeighbors == 3 {
              newGrid[i, j] := true;
            }
          } else {
            if liveNeighbors == 3 {
              newGrid[i, j] := true;
            }
          }
        }
      }
      grid := newGrid;
      generation := Int32Succ(generation);
      board := Step(board);
    }

    /** Whether every cell is dead; the same as a live count of zero. */
    method IsEmpty() returns (empty: bool)
      requires Valid()
      ensures empty <==> AllDead(board)
      ensures empty <==> LiveCount(board) == 0
    {
      LiveCountZeroIffAllDead(board);
      for i := 0 to GridSize
        invariant forall p, q :: 0 <= p < i && 0 <= q < GridSize ==> !grid[p, q]
      {
        for j := 0 to GridSize
          invariant forall q :: 0 <= q < j ==> !grid[i, q]
        {
          if grid[i, j] {
            return false;
          }
        }
      }
      return true;
    }

    /** The number of live cells, between 0 and GridSize². */
    method GetLiveCellCount() returns (count: int)
      requires Valid()
      ensures count == LiveCount(board)
      ensures count == |AliveCells(board)|
      ensures 0 <= count <= GridSize * GridSize
    {
      count := 0;
      for i := 0 to GridSize
        invariant count == CountRows(board, i)
      {
        for j := 0 to GridSize
          invariant count == CountRows(board, i) + RowCount(board[i][..j])
        {
          assert board[i][..j + 1][..j] == board[i][..j];
          if grid[i, j] {
            count := count + 1;
          }
        }
        assert board[i][..GridSize] == board[i];
      }
      LiveCountIsAliveCellsSize(board);
    }

    function GetGeneration(): (g: int)
      reads this, grid
      requires Valid()
      ensures g == generation && IsInt32(g)
    {
      generation
    }

    /** A fresh copy of the grid: equal cell by cell, never the grid itself. */
    method GetGridState() returns (state: array2<bool>)
      requires Valid()
      ensures fresh(state)
      ensures state.Length0 == GridSize && state.Length1 == GridSize
      ensures forall i, j :: InBounds(i, j) ==> state[i, j] == board[i][j]
    {
      state := new bool[GridSize, GridSize];
      for i := 0 to GridSize
        invariant forall p, q :: 0 <= p < i && 0 <= q < GridSize ==> state[p, q] == grid[p, q]
      {
        for j := 0 to GridSize
          invariant forall p, q :: 0 <= p < i && 0 <= q < GridSize ==> state[p, q] == grid[p, q]
          invariant forall q :: 0 <= q < j ==> state[i, q] == grid[i, q]
        {
          state[i, j] := grid[i, j];
        }
      }
    }

    /**
     * Sets the cell at (row, col) to `alive` when the position is on the grid;
     * otherwise nothing happens. The generation is kept.
     */
    method SetCellState(row: int, col: int, alive: bool)
      requires Valid()
      modifies this, grid
      ensures Valid() && grid == old(grid) && generation == old(generation)
      ensures board == SetCell(old(board), row, col, alive)
    {
      if 0 <= row < GridSize && 0 <= col < GridSize {
        grid[row, col] := alive;
      }
      board := SetCell(board, row, col, alive);
    }

    /** Back to generation 0 with every cell dead, on the same grid. */
    method Reset()
      requires Valid()
      modifies this, grid
      ensures Valid() && grid == old(grid)
      ensures generation == 0
      ensures board == EmptyBoard()
    {
      generation := 0;
      InitializeGrid();
    }
  }

  /**
   * The preset as the console and the web server apply it (reset, then the
   * pattern), followed by one generation: the ring of eight around the
   * centre, eight live cells, generation 1.
   */
  method PresetScenario(game: GameOfLife) returns (live: int, empty: bool)
    requires game.Valid()
    modifies game, game.grid
    ensures game.Valid()
    ensures game.board == RingBoard
    ensures game.generation == 1
    ensures live == 8 && !empty
  {
    game.Reset();
    game.SetInitialPattern();
    PresetOnEmptyBoard();
    game.NextGeneration();
    PresetThenStep();
    live := game.GetLiveCellCount();
    empty := game.IsEmpty();
  }
}
