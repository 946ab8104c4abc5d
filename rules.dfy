/**
 * The Game of Life on a bounded GridSize × GridSize board, as values.
 *
 * A board is a row-major matrix of liveness flags. Positions outside the
 * board do not exist: they are neither alive nor counted (no wraparound).
 * Everything the engine class computes is specified by the functions here,
 * and the lemmas state what the engine promises about them.
 */
module Rules {

  /** GRID_SIZE of the engine. */
  const GridSize: int := 5

  /** The range of a Java `int`. */
  const MinInt32: int := -0x8000_0000
  const MaxInt32: int := 0x7FFF_FFFF

  predicate IsInt32(x: int) {
    MinInt32 <= x <= MaxInt32
  }

  /** `x++` on a Java `int`: one more, wrapping from the largest value to the smallest. */
  function Int32Succ(x: int): (r: int)
    requires IsInt32(x)
    ensures IsInt32(r)
    ensures x < MaxInt32 ==> r == x + 1
    ensures x == MaxInt32 ==> r < x
  {
    if x == MaxInt32 then MinInt32 else x + 1
  }

  type Board = seq<seq<bool>>

  predicate IsBoard(b: Board) {
    |b| == GridSize && forall i :: 0 <= i < GridSize ==> |b[i]| == GridSize
  }

  predicate InBounds(r: int, c: int) {
    0 <= r < GridSize && 0 <= c < GridSize
  }

  /** Liveness of a position; a position off the board counts as dead. */
  predicate AliveAt(b: Board, r: int, c: int)
    requires IsBoard(b)
  {
    InBounds(r, c) && b[r][c]
  }

  function Count(alive: bool): nat {
    if alive then 1 else 0
  }

  predicate AllDead(b: Board)
    requires IsBoard(b)
  {
    forall i, j :: 0 <= i < GridSize && 0 <= j < GridSize ==> !b[i][j]
  }

  /** Two boards agreeing on every position are the same board. */
  lemma BoardsEqual(a: Board, b: Board)
    requires IsBoard(a) && IsBoard(b)
    requires forall i, j :: InBounds(i, j) ==> a[i][j] == b[i][j]
    ensures a == b
  {
    forall i | 0 <= i < GridSize
      ensures a[i] == b[i]
    {
      assert forall j :: 0 <= j < GridSize ==> a[i][j] == b[i][j] by {
        forall j | 0 <= j < GridSize ensures a[i][j] == b[i][j] {
          assert InBounds(i, j);
        }
      }
    }
  }

  // ---------------------------------------------------------------------
  // Neighbour counting
  // ---------------------------------------------------------------------

  /** (p, q) is at Chebyshev distance exactly 1 from (r, c). */
  predicate Adjacent(p: int, q: int, r: int, c: int) {
    -1 <= p - r <= 1 && -1 <= q - c <= 1 && (p != r || q != c)
  }

  /** Every position of the board. */
  function Positions(): (ps: set<(int, int)>)
    ensures forall x :: x in ps <==> InBounds(x.0, x.1)
  {
    set p, q | 0 <= p < GridSize && 0 <= q < GridSize :: (p, q)
  }

  /** Reference definition: the live cells of the board adjacent to (r, c). */
  function NeighbourSet(b: Board, r: int, c: int): set<(int, int)>
    requires IsBoard(b)
  {
    set x | x in Positions() && Adjacent(x.0, x.1, r, c) && b[x.0][x.1]
  }

  /**
   * The live-neighbour count: the eight positions of the Moore neighbourhood
   * of (r, c), in the order the engine visits them, positions off the board
   * contributing nothing.
   */
  function LiveNeighbours(b: Board, r: int, c: int): (n: nat)
    requires IsBoard(b)
    ensures n <= 8
  {
    Count(AliveAt(b, r - 1, c - 1)) + Count(AliveAt(b, r - 1, c)) + Count(AliveAt(b, r - 1, c + 1)) +
    Count(AliveAt(b, r, c - 1)) + Count(AliveAt(b, r, c + 1)) +
    Count(AliveAt(b, r + 1, c - 1)) + Count(AliveAt(b, r + 1, c)) + Count(AliveAt(b, r + 1, c + 1))
  }

  /**
   * The live neighbours of (r, c) at offsets (di, dj) visited before (i, j)
   * in row-major order over the 3 × 3 window.
   */
  function NeighboursBefore(b: Board, r: int, c: int, i: int, j: int): set<(int, int)>
    requires IsBoard(b)
  {
    set x | x in NeighbourSet(b, r, c) && (x.0 - r < i || (x.0 - r == i && x.1 - c < j))
  }

  /** Visiting offset (i, j) adds one neighbour exactly when that position is a live neighbour. */
  lemma NeighboursBeforeStep(b: Board, r: int, c: int, i: int, j: int)
    requires IsBoard(b)
    requires -1 <= i <= 1 && -1 <= j <= 1
    ensures |NeighboursBefore(b, r, c, i, j + 1)| ==
            |NeighboursBefore(b, r, c, i, j)| + (if i == 0 && j == 0 then 0 else Count(AliveAt(b, r + i, c + j)))
  {
    var before := NeighboursBefore(b, r, c, i, j);
    var after := NeighboursBefore(b, r, c, i, j + 1);
    var x := (r + i, c + j);
    forall y | y in after && y !in before
      ensures y == x && (i != 0 || j != 0) && AliveAt(b, r + i, c + j)
    {
      assert y.0 == r + i && y.1 == c + j;
    }
    if (i != 0 || j != 0) && AliveAt(b, r + i, c + j) {
      assert x in NeighbourSet(b, r, c);
      assert after == before + {x};
    } else {
      assert after == before;
    }
  }

  /** Finishing a row of the window is the same as starting the next one. */
  lemma NeighboursBeforeNextRow(b: Board, r: int, c: int, i: int)
    requires IsBoard(b)
    ensures NeighboursBefore(b, r, c, i, 2) == NeighboursBefore(b, r, c, i + 1, -1)
  {
  }

  lemma NeighboursBeforeEnds(b: Board, r: int, c: int)
    requires IsBoard(b)
    ensures NeighboursBefore(b, r, c, -1, -1) == {}
    ensures NeighboursBefore(b, r, c, 2, -1) == NeighbourSet(b, r, c)
  {
  }

  /** The neighbour count is the number of live cells at Chebyshev distance 1. */
  lemma LiveNeighboursIsNeighbourSetSize(b: Board, r: int, c: int)
    requires IsBoard(b)
    ensures LiveNeighbours(b, r, c) == |NeighbourSet(b, r, c)|
  {
    NeighboursBeforeEnds(b, r, c);
    NeighboursBeforeStep(b, r, c, -1, -1);
    NeighboursBeforeStep(b, r, c, -1, 0);
    NeighboursBeforeStep(b, r, c, -1, 1);
    NeighboursBeforeNextRow(b, r, c, -1);
    NeighboursBeforeStep(b, r, c, 0, -1);
    NeighboursBeforeStep(b, r, c, 0, 0);
    NeighboursBeforeStep(b, r, c, 0, 1);
    NeighboursBeforeNextRow(b, r, c, 0);
    NeighboursBeforeStep(b, r, c, 1, -1);
    NeighboursBeforeStep(b, r, c, 1, 0);
    NeighboursBeforeStep(b, r, c, 1, 1);
    NeighboursBeforeNextRow(b, r, c, 1);
  }

  /**
   * Without wraparound a cell on a border row or column has at most five
   * neighbours, and a corner cell at most three.
   */
  lemma NeighbourCountBounds(b: Board, r: int, c: int)
    requires IsBoard(b) && InBounds(r, c)
    ensures |NeighbourSet(b, r, c)| <= 8
    ensures (r == 0 || r == GridSize - 1 || c == 0 || c == GridSize - 1) ==> |NeighbourSet(b, r, c)| <= 5
    ensures (r == 0 || r == GridSize - 1) && (c == 0 || c == GridSize - 1) ==> |NeighbourSet(b, r, c)| <= 3
  {
    LiveNeighboursIsNeighbourSetSize(b, r, c);
  }

  /** The bounds are reached: on a full board a corner has 3, a border cell 5, an inner cell 8. */
  lemma FullBoardNeighbours(r: int, c: int)
    requires InBounds(r, c)
    ensures IsBoard(FullBoard())
    ensures (r == 0 || r == GridSize - 1) && (c == 0 || c == GridSize - 1) ==>
              |NeighbourSet(FullBoard(), r, c)| == 3
    ensures (r == 0 || r == GridSize - 1) != (c == 0 || c == GridSize - 1) ==>
              |NeighbourSet(FullBoard(), r, c)| == 5
    ensures 0 < r < GridSize - 1 && 0 < c < GridSize - 1 ==> |NeighbourSet(FullBoard(), r, c)| == 8
  {
    var b := FullBoard();
    LiveNeighboursIsNeighbourSetSize(b, r, c);
    assert forall p, q :: AliveAt(b, p, q) == InBounds(p, q);
  }

  // ---------------------------------------------------------------------
  // Generation step (B3/S23)
  // ---------------------------------------------------------------------

  /**
   * Survival with 2 or 3 live neighbours, birth with exactly 3: a cell lives
   * on only with 2 or 3 neighbours, always with 3, and with 2 only if alive.
   */
  function NextAlive(alive: bool, n: int): (r: bool)
    ensures r ==> n == 2 || n == 3
    ensures n == 3 ==> r
    ensures n == 2 ==> (r <==> alive)
  {
    if alive then n == 2 || n == 3 else n == 3
  }

  /** The next state of the cell at (i, j), from the current board only. */
  function NextAliveAt(b: Board, i: int, j: int): (r: bool)
    requires IsBoard(b) && InBounds(i, j)
    ensures r <==> NextAlive(b[i][j], |NeighbourSet(b, i, j)|)
  {
    LiveNeighboursIsNeighbourSetSize(b, i, j);
    NextAlive(b[i][j], LiveNeighbours(b, i, j))
  }

  /** The next generation: every cell computed from the current board only. */
  function Step(b: Board): (b': Board)
    requires IsBoard(b)
    ensures IsBoard(b')
  {
    seq(GridSize, i requires 0 <= i < GridSize =>
      seq(GridSize, j requires 0 <= j < GridSize => NextAliveAt(b, i, j)))
  }

  /**
   * Each cell of the next generation is alive iff it was alive with 2 or 3
   * live neighbours, or dead with exactly 3, counted on the old board.
   */
  lemma StepCell(b: Board, i: int, j: int)
    requires IsBoard(b) && InBounds(i, j)
    ensures Step(b)[i][j] <==>
              (b[i][j] && (|NeighbourSet(b, i, j)| == 2 || |NeighbourSet(b, i, j)| == 3)) ||
              (!b[i][j] && |NeighbourSet(b, i, j)| == 3)
  {
    LiveNeighboursIsNeighbourSetSize(b, i, j);
  }

  /** No spontaneous birth: an all-dead board stays all dead. */
  lemma StepKeepsAllDead(b: Board)
    requires IsBoard(b) && AllDead(b)
    ensures AllDead(Step(b))
  {
    forall i, j | InBounds(i, j)
      ensures !Step(b)[i][j]
    {
      LiveNeighboursIsNeighbourSetSize(b, i, j);
      assert NeighbourSet(b, i, j) == {};
    }
  }

  /** A live cell without live neighbours dies. */
  lemma IsolatedCellDies(b: Board, i: int, j: int)
    requires IsBoard(b) && InBounds(i, j) && b[i][j]
    requires forall p, q :: InBounds(p, q) && Adjacent(p, q, i, j) ==> !b[p][q]
    ensures !Step(b)[i][j]
  {
    assert NeighbourSet(b, i, j) == {};
    StepCell(b, i, j);
  }

  // ---------------------------------------------------------------------
  // Edits
  // ---------------------------------------------------------------------

  function EmptyBoard(): (b: Board)
    ensures IsBoard(b) && AllDead(b)
  {
    seq(GridSize, _ => seq(GridSize, _ => false))
  }

  function FullBoard(): (b: Board)
    ensures IsBoard(b)
    ensures forall i, j :: InBounds(i, j) ==> b[i][j]
  {
    seq(GridSize, _ => seq(GridSize, _ => true))
  }

  /** A bounds-checked edit: (r, c) becomes `alive`; off the board, nothing changes. */
  function SetCell(b: Board, r: int, c: int, alive: bool): (b': Board)
    requires IsBoard(b)
    ensures IsBoard(b')
    ensures forall i, j :: InBounds(i, j) ==> b'[i][j] == (if i == r && j == c then alive else b[i][j])
  {
    if InBounds(r, c) then b[r := b[r][c := alive]] else b
  }

  /** An edit off the board leaves the board, and so its live count, as it was. */
  lemma SetCellOutOfRange(b: Board, r: int, c: int, alive: bool)
    requires IsBoard(b) && !InBounds(r, c)
    ensures SetCell(b, r, c, alive) == b
    ensures LiveCount(SetCell(b, r, c, alive)) == LiveCount(b)
  {
    BoardsEqual(SetCell(b, r, c, alive), b);
  }

  /** The five cells of the preset pattern: a plus shape centred on (2, 2). */
  function IsPresetCell(i: int, j: int): (r: bool)
    ensures r <==> (i, j) in {(2, 1), (2, 2), (2, 3), (1, 2), (3, 2)}
  {
    (i == 2 && (j == 1 || j == 2 || j == 3)) || (j == 2 && (i == 1 || i == 3))
  }

  /** The preset: its five cells set alive, in the engine's order, every other cell kept. */
  function WithPreset(b: Board): (b': Board)
    requires IsBoard(b)
    ensures IsBoard(b')
    ensures forall i, j :: InBounds(i, j) ==> b'[i][j] == (IsPresetCell(i, j) || b[i][j])
  {
    SetCell(SetCell(SetCell(SetCell(SetCell(b, 2, 1, true), 2, 2, true), 2, 3, true), 1, 2, true), 3, 2, true)
  }

  /** Applying the preset twice is applying it once. */
  lemma WithPresetIdempotent(b: Board)
    requires IsBoard(b)
    ensures WithPreset(WithPreset(b)) == WithPreset(b)
  {
    BoardsEqual(WithPreset(WithPreset(b)), WithPreset(b));
  }

  /** Row-major reading of an injected bit sequence, one bit per cell. */
  function FromBits(bits: seq<bool>): (b: Board)
    requires |bits| == GridSize * GridSize
    ensures IsBoard(b)
    ensures forall i, j :: InBounds(i, j) ==> b[i][j] == bits[i * GridSize + j]
  {
    seq(GridSize, i requires 0 <= i < GridSize =>
      seq(GridSize, j requires 0 <= j < GridSize => bits[i * GridSize + j]))
  }

  /**
   * Every bit lands in exactly one cell: bit k in row k / GridSize, column
   * k % GridSize, so two bit sequences give the same board only when equal.
   */
  lemma FromBitsPlacesEveryBit(x: seq<bool>, y: seq<bool>)
    requires |x| == GridSize * GridSize && |y| == GridSize * GridSize
    ensures forall k :: 0 <= k < |x| ==> FromBits(x)[k / GridSize][k % GridSize] == x[k]
    ensures FromBits(x) == FromBits(y) <==> x == y
  {
    forall k | 0 <= k < |x|
      ensures FromBits(x)[k / GridSize][k % GridSize] == x[k]
      ensures FromBits(y)[k / GridSize][k % GridSize] == y[k]
    {
      assert (k / GridSize) * GridSize + k % GridSize == k;
    }
  }

  // ---------------------------------------------------------------------
  // Counting live cells
  // ---------------------------------------------------------------------

  /** Live cells of a row. */
  function RowCount(s: seq<bool>): (n: nat)
    ensures n <= |s|
  {
    if s == [] then 0 else RowCount(s[..|s| - 1]) + Count(s[|s| - 1])
  }

  /** Live cells in the first k rows. */
  function CountRows(b: Board, k: int): (n: nat)
    requires IsBoard(b) && 0 <= k <= GridSize
    ensures n <= k * GridSize
  {
    if k == 0 then 0 else CountRows(b, k - 1) + RowCount(b[k - 1])
  }

  function LiveCount(b: Board): (n: nat)
    requires IsBoard(b)
    ensures n <= GridSize * GridSize
  {
    CountRows(b, GridSize)
  }

  /** Reference definition: the set of live positions. */
  function AliveCells(b: Board): set<(int, int)>
    requires IsBoard(b)
  {
    set x | x in Positions() && b[x.0][x.1]
  }

  /** Live positions before (i, j) in row-major order. */
  function AliveBefore(b: Board, i: int, j: int): set<(int, int)>
    requires IsBoard(b)
  {
    set x | x in AliveCells(b) && (x.0 < i || (x.0 == i && x.1 < j))
  }

  lemma AliveBeforeStep(b: Board, i: int, j: int)
    requires IsBoard(b) && InBounds(i, j)
    ensures |AliveBefore(b, i, j + 1)| == |AliveBefore(b, i, j)| + Count(b[i][j])
  {
    var before := AliveBefore(b, i, j);
    var after := AliveBefore(b, i, j + 1);
    forall y | y in after && y !in before
      ensures y == (i, j) && b[i][j]
    {
    }
    if b[i][j] {
      assert (i, j) in AliveCells(b);
      assert after == before + {(i, j)};
    } else {
      assert after == before;
    }
  }

  lemma {:induction false} RowPrefixCount(b: Board, i: int, j: int)
    requires IsBoard(b) && 0 <= i < GridSize && 0 <= j <= GridSize
    ensures |AliveBefore(b, i, 0)| + RowCount(b[i][..j]) == |AliveBefore(b, i, j)|
  {
    if j > 0 {
      RowPrefixCount(b, i, j - 1);
      assert b[i][..j][..j - 1] == b[i][..j - 1];
      AliveBeforeStep(b, i, j - 1);
    }
  }

  lemma {:induction false} CountRowsIsAliveBefore(b: Board, k: int)
    requires IsBoard(b) && 0 <= k <= GridSize
    ensures CountRows(b, k) == |AliveBefore(b, k, 0)|
  {
    if k == 0 {
      assert AliveBefore(b, 0, 0) == {};
    } else {
      CountRowsIsAliveBefore(b, k - 1);
      RowPrefixCount(b, k - 1, GridSize);
      assert b[k - 1][..GridSize] == b[k - 1];
      assert AliveBefore(b, k - 1, GridSize) == AliveBefore(b, k, 0);
    }
  }

  /** The live count is the number of live positions. */
  lemma LiveCountIsAliveCellsSize(b: Board)
    requires IsBoard(b)
    ensures LiveCount(b) == |AliveCells(b)|
  {
    CountRowsIsAliveBefore(b, GridSize);
    assert AliveBefore(b, GridSize, 0) == AliveCells(b);
  }

  /** The live count is zero exactly when every cell is dead. */
  lemma LiveCountZeroIffAllDead(b: Board)
    requires IsBoard(b)
    ensures LiveCount(b) == 0 <==> AllDead(b)
  {
    LiveCountIsAliveCellsSize(b);
    if !AllDead(b) {
      var i, j :| InBounds(i, j) && b[i][j];
      assert (i, j) in AliveCells(b);
    } else {
      assert AliveCells(b) == {};
    }
  }

  // ---------------------------------------------------------------------
  // Fixed scenarios
  // ---------------------------------------------------------------------

  /** The preset pattern applied to an empty board. */
  const PresetBoard: Board :=
    [[false, false, false, false, false],
     [false, false, true,  false, false],
     [false, true,  true,  true,  false],
     [false, false, true,  false, false],
     [false, false, false, false, false]]

  /** The generation after the preset: a ring of eight around a dead centre. */
  const RingBoard: Board :=
    [[false, false, false, false, false],
     [false, true,  true,  true,  false],
     [false, true,  false, true,  false],
     [false, true,  true,  true,  false],
     [false, false, false, false, false]]

  /** Two rows of the board's width agreeing cell by cell are equal. */
  lemma SameRow(x: seq<bool>, y: seq<bool>)
    requires |x| == GridSize && |y| == GridSize
    requires x[0] == y[0] && x[1] == y[1] && x[2] == y[2] && x[3] == y[3] && x[4] == y[4]
    ensures x == y
  {
  }

  /** Two boards agreeing row by row are equal. */
  lemma SameBoard(a: Board, b: Board)
    requires IsBoard(a) && IsBoard(b)
    requires a[0] == b[0] && a[1] == b[1] && a[2] == b[2] && a[3] == b[3] && a[4] == b[4]
    ensures a == b
  {
  }

  /** Rows 0 and 1 of one step of a board holding exactly the preset. */
  lemma StepOfPresetTop(b: Board)
    requires IsBoard(b)
    requires forall p, q :: AliveAt(b, p, q) == IsPresetCell(p, q)
    ensures Step(b)[0] == RingBoard[0] && Step(b)[1] == RingBoard[1]
  {
    var s := Step(b);
    assert !s[0][0] && !s[0][1] && !s[0][2] && !s[0][3] && !s[0][4];
    assert !s[1][0] && s[1][1] && s[1][2] && s[1][3] && !s[1][4];
    SameRow(s[0], RingBoard[0]);
    SameRow(s[1], RingBoard[1]);
  }

  /** Row 2 of one step of a board holding exactly the preset: the centre dies. */
  lemma StepOfPresetMiddle(b: Board)
    requires IsBoard(b)
    requires forall p, q :: AliveAt(b, p, q) == IsPresetCell(p, q)
    ensures Step(b)[2] == RingBoard[2]
  {
    var s := Step(b);
    assert !s[2][0] && s[2][1] && !s[2][2] && s[2][3] && !s[2][4];
    SameRow(s[2], RingBoard[2]);
  }

  /** Rows 3 and 4 of one step of a board holding exactly the preset. */
  lemma StepOfPresetBottom(b: Board)
    requires IsBoard(b)
    requires forall p, q :: AliveAt(b, p, q) == IsPresetCell(p, q)
    ensures Step(b)[3] == RingBoard[3] && Step(b)[4] == RingBoard[4]
  {
    var s := Step(b);
    assert !s[3][0] && s[3][1] && s[3][2] && s[3][3] && !s[3][4];
    assert !s[4][0] && !s[4][1] && !s[4][2] && !s[4][3] && !s[4][4];
    SameRow(s[3], RingBoard[3]);
    SameRow(s[4], RingBoard[4]);
  }

  /** A board whose live cells are exactly the preset's steps to the ring. */
  lemma StepOfPreset(b: Board)
    requires IsBoard(b)
    requires forall p, q :: AliveAt(b, p, q) == IsPresetCell(p, q)
    ensures Step(b) == RingBoard
  {
    StepOfPresetTop(b);
    StepOfPresetMiddle(b);
    StepOfPresetBottom(b);
    SameBoard(Step(b), RingBoard);
  }

  /** The live count of a row of the board's width, cell by cell. */
  lemma RowCountOfRow(s: seq<bool>)
    requires |s| == GridSize
    ensures RowCount(s) == Count(s[0]) + Count(s[1]) + Count(s[2]) + Count(s[3]) + Count(s[4])
  {
    assert s[..4][..3] == s[..3] && s[..3][..2] == s[..2] && s[..2][..1] == s[..1];
    assert RowCount(s) == RowCount(s[..4]) + Count(s[4]);
    assert RowCount(s[..4]) == RowCount(s[..3]) + Count(s[3]);
    assert RowCount(s[..3]) == RowCount(s[..2]) + Count(s[2]);
    assert RowCount(s[..2]) == RowCount(s[..1]) + Count(s[1]);
    assert s[..1][..0] == [];
  }

  /** The preset applied to an empty board gives the plus of five cells. */
  lemma PresetOnEmptyBoard()
    ensures WithPreset(EmptyBoard()) == PresetBoard
    ensures LiveCount(PresetBoard) == 5
  {
    BoardsEqual(WithPreset(EmptyBoard()), PresetBoard);
    RowCountOfRow(PresetBoard[0]);
    RowCountOfRow(PresetBoard[1]);
    RowCountOfRow(PresetBoard[2]);
    RowCountOfRow(PresetBoard[3]);
    RowCountOfRow(PresetBoard[4]);
  }

  lemma PresetBoardShape()
    ensures IsBoard(PresetBoard)
    ensures forall p, q :: AliveAt(PresetBoard, p, q) == IsPresetCell(p, q)
  {
  }

  lemma RingLiveCount()
    ensures LiveCount(RingBoard) == 8
  {
    RowCountOfRow(RingBoard[0]);
    RowCountOfRow(RingBoard[1]);
    RowCountOfRow(RingBoard[2]);
    RowCountOfRow(RingBoard[3]);
    RowCountOfRow(RingBoard[4]);
  }

  /** The ring is exactly the Moore neighbourhood of the centre. */
  lemma RingAroundCentre()
    ensures forall i, j :: InBounds(i, j) ==> (RingBoard[i][j] <==> Adjacent(i, j, 2, 2))
  {
  }

  /**
   * One step of the plus: the eight cells around (2, 2) become alive, the
   * centre dies, nothing else lives.
   */
  lemma PresetThenStep()
    ensures Step(PresetBoard) == RingBoard
    ensures LiveCount(RingBoard) == 8
    ensures forall i, j :: InBounds(i, j) ==> (RingBoard[i][j] <==> Adjacent(i, j, 2, 2))
  {
    RingAroundCentre();
    PresetBoardShape();
    StepOfPreset(PresetBoard);
    RingLiveCount();
  }

  /** The 2 × 2 block with its top-left cell at (1, 1). */
  const BlockBoard: Board :=
    [[false, false, false, false, false],
     [false, true,  true,  false, false],
     [false, true,  true,  false, false],
     [false, false, false, false, false],
     [false, false, false, false, false]]

  predicate IsBlockCell(i: int, j: int) {
    (i == 1 || i == 2) && (j == 1 || j == 2)
  }

  /** Rows 0 and 1 of one step of a board holding exactly the block. */
  lemma StepOfBlockTop(b: Board)
    requires IsBoard(b)
    requires forall p, q :: AliveAt(b, p, q) == IsBlockCell(p, q)
    ensures Step(b)[0] == BlockBoard[0] && Step(b)[1] == BlockBoard[1]
  {
    var s := Step(b);
    assert !s[0][0] && !s[0][1] && !s[0][2] && !s[0][3] && !s[0][4];
    assert !s[1][0] && s[1][1] && s[1][2] && !s[1][3] && !s[1][4];
    SameRow(s[0], BlockBoard[0]);
    SameRow(s[1], BlockBoard[1]);
  }

  /** Rows 2 to 4 of one step of a board holding exactly the block. */
  lemma StepOfBlockBottom(b: Board)
    requires IsBoard(b)
    requires forall p, q :: AliveAt(b, p, q) == IsBlockCell(p, q)
    ensures Step(b)[2] == BlockBoard[2] && Step(b)[3] == BlockBoard[3] && Step(b)[4] == BlockBoard[4]
  {
    var s := Step(b);
    assert !s[2][0] && s[2][1] && s[2][2] && !s[2][3] && !s[2][4];
    assert !s[3][0] && !s[3][1] && !s[3][2] && !s[3][3] && !s[3][4];
    assert !s[4][0] && !s[4][1] && !s[4][2] && !s[4][3] && !s[4][4];
    SameRow(s[2], BlockBoard[2]);
    SameRow(s[3], BlockBoard[3]);
    SameRow(s[4], BlockBoard[4]);
  }

  /** A board whose live cells are exactly the block steps to the block. */
  lemma StepOfBlock(b: Board)
    requires IsBoard(b)
    requires forall p, q :: AliveAt(b, p, q) == IsBlockCell(p, q)
    ensures Step(b) == BlockBoard
  {
    StepOfBlockTop(b);
    StepOfBlockBottom(b);
    SameBoard(Step(b), BlockBoard);
  }

  /** The block is a still life. */
  lemma BlockIsStillLife()
    ensures Step(BlockBoard) == BlockBoard
  {
    assert forall p, q :: AliveAt(BlockBoard, p, q) == IsBlockCell(p, q);
    StepOfBlock(BlockBoard);
  }
}
