/**
 The board and the transition engine: the status of one cell from its eight
 wrapped neighbours, and the synchronous step of the whole board.
 A board is a two-dimensional array of statuses; its row and column counts
 are the array's dimensions.
 */
module Board {
  import opened Rule
  import opened Torus

  /** Row offset of the k-th neighbour, in the order above-left .. below-right. */
  function RowOffset(k: nat): (d: int)
    requires k < 8
  {
    if k < 3 then -1 else if k < 5 then 0 else 1
  }

  /** Column offset of the k-th neighbour, in the order above-left .. below-right. */
  function ColOffset(k: nat): (d: int)
    requires k < 8
  {
    if k in {0, 3, 5} then -1 else if k in {1, 6} then 0 else 1
  }

  /** The index reached from `i` by moving `d` (one of -1, 0, 1) on a ring of `n` positions. */
  function Shift(i: nat, n: nat, d: int): (r: nat)
    requires i < n && -1 <= d <= 1
    ensures r < n
    ensures r == (i + d) % n
  {
    if d < 0 then WrapPrev(i, n) else if d > 0 then WrapNext(i, n) else i
  }

  /** The row of the k-th neighbour of (row, _) on a torus of `rows` rows. */
  function NeighbourRow(row: nat, rows: nat, k: nat): (r: nat)
    requires row < rows && k < 8
  {
    Shift(row, rows, RowOffset(k))
  }

  /** The column of the k-th neighbour of (_, col) on a torus of `cols` columns. */
  function NeighbourCol(col: nat, cols: nat, k: nat): (c: nat)
    requires col < cols && k < 8
  {
    Shift(col, cols, ColOffset(k))
  }

  /**
   The eight surrounding cells of (row, col), in the order above-left, above,
   above-right, left, right, below-left, below, below-right, with the indices
   wrapped at every edge.
   */
  function Neighbours(board: array2<Status>, row: nat, col: nat): (s: Surroundings)
    reads board
    requires row < board.Length0 && col < board.Length1
    ensures forall k :: 0 <= k < 8 ==>
      s[k] == board[NeighbourRow(row, board.Length0, k), NeighbourCol(col, board.Length1, k)]
  {
    var leftCol := WrapPrev(col, board.Length1);
    var rightCol := WrapNext(col, board.Length1);
    var rowAbove := WrapPrev(row, board.Length0);
    var rowBelow := WrapNext(row, board.Length0);
    [ board[rowAbove, leftCol], board[rowAbove, col], board[rowAbove, rightCol],
      board[row, leftCol], board[row, rightCol],
      board[rowBelow, leftCol], board[rowBelow, col], board[rowBelow, rightCol] ]
  }

  /** The next status of the cell at (row, col), read from `board`. */
  function UpdateStatus(board: array2<Status>, row: nat, col: nat): (r: Status)
    reads board
    requires row < board.Length0 && col < board.Length1
  {
    AliveOrDead(Neighbours(board, row, col))
  }

  /**
   A cell becomes alive exactly when two or three of its eight wrapped
   neighbour positions hold a live cell, whatever its own state.
   */
  lemma UpdateStatusRule(board: array2<Status>, row: nat, col: nat)
    requires row < board.Length0 && col < board.Length1
    ensures UpdateStatus(board, row, col) == Alive
      <==> |LiveNeighbourPositions(board, row, col)| in {2, 3}
  {
    var s := Neighbours(board, row, col);
    LivePositionsCount(board, row, col, s);
    AliveOrDeadRule(s);
  }

  /** Which of the eight neighbour positions (by their index 0..7) hold a live cell. */
  ghost function LiveNeighbourPositions(board: array2<Status>, row: nat, col: nat): set<nat>
    reads board
    requires row < board.Length0 && col < board.Length1
  {
    set k: nat | k < 8 &&
      board[NeighbourRow(row, board.Length0, k), NeighbourCol(col, board.Length1, k)] == Alive
  }

  /** The set of live positions has as many members as the surroundings have live entries. */
  lemma LivePositionsCount(board: array2<Status>, row: nat, col: nat, s: Surroundings)
    requires row < board.Length0 && col < board.Length1
    requires s == Neighbours(board, row, col)
    ensures |LiveNeighbourPositions(board, row, col)| == multiset(s)[Alive]
  {
    var live := LiveNeighbourPositions(board, row, col);
    var fromS := set k: nat | k < 8 && s[k] == Alive;
    forall k | k in live ensures k in fromS {}
    forall k | k in fromS ensures k in live {}
    assert live == fromS;
    LivePrefixCount(s, 8);
    assert s[..8] == s;
  }

  /** Counting live entries of a prefix of `s` by index positions agrees with the multiset count. */
  lemma {:induction false} LivePrefixCount(s: seq<Status>, m: nat)
    requires m <= |s|
    ensures |set k: nat | k < m && s[k] == Alive| == multiset(s[..m])[Alive]
  {
    if m > 0 {
      LivePrefixCount(s, m - 1);
      var prev := set k: nat | k < m - 1 && s[k] == Alive;
      var cur := set k: nat | k < m && s[k] == Alive;
      assert s[..m] == s[..m - 1] + [s[m - 1]];
      if s[m - 1] == Alive {
        assert cur == prev + {m - 1};
      } else {
        assert cur == prev;
      }
    }
  }

  /**
   The next status depends only on the eight neighbour cells: two boards of
   the same size that agree there give the same result.
   */
  lemma UpdateStatusReadsOnlyNeighbours(b1: array2<Status>, b2: array2<Status>, row: nat, col: nat)
    requires b1.Length0 == b2.Length0 && b1.Length1 == b2.Length1
    requires row < b1.Length0 && col < b1.Length1
    requires forall k :: 0 <= k < 8 ==>
      b1[NeighbourRow(row, b1.Length0, k), NeighbourCol(col, b1.Length1, k)]
        == b2[NeighbourRow(row, b1.Length0, k), NeighbourCol(col, b1.Length1, k)]
    ensures UpdateStatus(b1, row, col) == UpdateStatus(b2, row, col)
  {
    assert Neighbours(b1, row, col) == Neighbours(b2, row, col);
  }

  /**
   On a board of at least two rows and two columns, the cell's own state is
   never among the cells read: changing it alone does not change the result.
   */
  lemma UpdateStatusIgnoresCentre(b1: array2<Status>, b2: array2<Status>, row: nat, col: nat)
    requires b1.Length0 == b2.Length0 >= 2 && b1.Length1 == b2.Length1 >= 2
    requires row < b1.Length0 && col < b1.Length1
    requires forall i, j ::
      0 <= i < b1.Length0 && 0 <= j < b1.Length1 && (i != row || j != col) ==> b1[i, j] == b2[i, j]
    ensures UpdateStatus(b1, row, col) == UpdateStatus(b2, row, col)
  {
    WrapMoves(row, b1.Length0);
    WrapMoves(col, b1.Length1);
    assert Neighbours(b1, row, col) == Neighbours(b2, row, col);
  }

  /**
   On a board one column wide, the left and right neighbours of a cell are the
   cell itself, so its own state is read twice.
   */
  lemma OneColumnReadsCentre(board: array2<Status>, row: nat)
    requires board.Length1 == 1 && row < board.Length0
    ensures Neighbours(board, row, 0)[3] == board[row, 0]
    ensures Neighbours(board, row, 0)[4] == board[row, 0]
  {
    WrapSingleton(0);
  }

  /** A cell whose eight neighbours are all dead becomes dead. */
  lemma IsolatedCellDies(board: array2<Status>, row: nat, col: nat)
    requires row < board.Length0 && col < board.Length1
    requires forall k :: 0 <= k < 8 ==>
      board[NeighbourRow(row, board.Length0, k), NeighbourCol(col, board.Length1, k)] == Dead
    ensures UpdateStatus(board, row, col) == Dead
  {
    AllDeadSurroundings(Neighbours(board, row, col));
  }

  /** Every cell of an all-dead board becomes dead. */
  lemma AllDeadBoardStaysDead(board: array2<Status>)
    requires forall i, j :: 0 <= i < board.Length0 && 0 <= j < board.Length1 ==> board[i, j] == Dead
    ensures forall i, j :: 0 <= i < board.Length0 && 0 <= j < board.Length1 ==>
      UpdateStatus(board, i, j) == Dead
  {
    forall i, j | 0 <= i < board.Length0 && 0 <= j < board.Length1
      ensures UpdateStatus(board, i, j) == Dead
    {
      IsolatedCellDies(board, i, j);
    }
  }

  /**
   One synchronous step: a fresh board of the same size whose every cell is
   the next status of that cell of the input. Only the input is read, and the
   input is not modified, so the order in which cells are filled does not matter.
   */
  method UpdateBoard(board: array2<Status>) returns (newBoard: array2<Status>)
    ensures fresh(newBoard)
    ensures newBoard.Length0 == board.Length0 && newBoard.Length1 == board.Length1
    ensures forall i, j :: 0 <= i < board.Length0 && 0 <= j < board.Length1 ==>
      newBoard[i, j] == UpdateStatus(board, i, j)
  {
    newBoard := new Status[board.Length0, board.Length1]((_, _) => Dead);
    for row := 0 to board.Length0
      invariant newBoard != board
      invariant forall i, j :: 0 <= i < row && 0 <= j < board.Length1 ==>
        newBoard[i, j] == UpdateStatus(board, i, j)
      invariant forall i, j :: row <= i < board.Length0 && 0 <= j < board.Length1 ==>
        newBoard[i, j] == Dead
    {
      for col := 0 to board.Length1
        invariant newBoard != board
        invariant forall i, j :: 0 <= i < row && 0 <= j < board.Length1 ==>
          newBoard[i, j] == UpdateStatus(board, i, j)
        invariant forall j :: 0 <= j < col ==> newBoard[row, j] == UpdateStatus(board, row, j)
        invariant forall i, j ::
          row <= i < board.Length0 && 0 <= j < board.Length1 && (i != row || j >= col) ==>
          newBoard[i, j] == Dead
      {
        newBoard[row, col] := UpdateStatus(board, row, col);
      }
    }
  }
}
