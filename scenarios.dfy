/**
 The fixed scenario of the test suite: a 5 x 5 board whose only live cells
 are the 2 x 2 block at rows 1-2, columns 1-2.
 */
module Scenarios {
  import opened Rule
  import opened Board

  /** The state of cell (r, c) of the block board. */
  function BlockCell(r: nat, c: nat): (s: Status)
  {
    if 1 <= r <= 2 && 1 <= c <= 2 then Alive else Dead
  }

  /** `board` is the 5 x 5 block board. */
  ghost predicate IsBlockBoard(board: array2<Status>)
    reads board
  {
    board.Length0 == 5 && board.Length1 == 5 &&
    forall r, c :: 0 <= r < 5 && 0 <= c < 5 ==> board[r, c] == BlockCell(r, c)
  }

  /** The eight cells around (4, 1), listed by hand, hold no live cell. */
  lemma NotEnough(board: array2<Status>)
    requires IsBlockBoard(board)
    ensures AliveOrDead([board[3, 0], board[3, 1], board[3, 2], board[4, 0],
                         board[4, 2], board[0, 0], board[0, 1], board[0, 2]]) == Dead
  {
    assert [board[3, 0], board[3, 1], board[3, 2], board[4, 0],
            board[4, 2], board[0, 0], board[0, 1], board[0, 2]] == [Dead, Dead, Dead, Dead, Dead, Dead, Dead, Dead];
    AliveOrDeadRule([Dead, Dead, Dead, Dead, Dead, Dead, Dead, Dead]);
  }

  /** Cell (1, 0) becomes alive: its wrapped neighbours include two block cells. */
  lemma CheckAlive(board: array2<Status>)
    requires IsBlockBoard(board)
    ensures UpdateStatus(board, 1, 0) == Alive
  {
    assert Neighbours(board, 1, 0) == [Dead, Dead, Dead, Dead, Alive, Dead, Dead, Alive];
    AliveOrDeadRule([Dead, Dead, Dead, Dead, Alive, Dead, Dead, Alive]);
  }

  /** Cell (4, 4) stays dead: no live cell among its wrapped neighbours. */
  lemma CheckDead(board: array2<Status>)
    requires IsBlockBoard(board)
    ensures UpdateStatus(board, 4, 4) == Dead
  {
    assert Neighbours(board, 4, 4) == [Dead, Dead, Dead, Dead, Dead, Dead, Dead, Dead];
    AliveOrDeadRule([Dead, Dead, Dead, Dead, Dead, Dead, Dead, Dead]);
  }

  /**
   After one step of the block board, (0, 1), (2, 2) and (2, 3) are alive and
   (4, 2) is dead; in particular the block is not a still life under this rule.
   */
  lemma BlockStep(board: array2<Status>)
    requires IsBlockBoard(board)
    ensures UpdateStatus(board, 0, 1) == Alive
    ensures UpdateStatus(board, 2, 2) == Alive
    ensures UpdateStatus(board, 2, 3) == Alive
    ensures UpdateStatus(board, 4, 2) == Dead
  {
    assert UpdateStatus(board, 0, 1) == Alive by {
      assert Neighbours(board, 0, 1) == [Dead, Dead, Dead, Dead, Dead, Dead, Alive, Alive];
      AliveOrDeadRule([Dead, Dead, Dead, Dead, Dead, Dead, Alive, Alive]);
    }
    assert UpdateStatus(board, 2, 2) == Alive by {
      assert Neighbours(board, 2, 2) == [Alive, Alive, Dead, Alive, Dead, Dead, Dead, Dead];
      AliveOrDeadRule([Alive, Alive, Dead, Alive, Dead, Dead, Dead, Dead]);
    }
    assert UpdateStatus(board, 2, 3) == Alive by {
      assert Neighbours(board, 2, 3) == [Alive, Dead, Dead, Alive, Dead, Dead, Dead, Dead];
      AliveOrDeadRule([Alive, Dead, Dead, Alive, Dead, Dead, Dead, Dead]);
    }
    assert UpdateStatus(board, 4, 2) == Dead by {
      assert Neighbours(board, 4, 2) == [Dead, Dead, Dead, Dead, Dead, Dead, Dead, Dead];
      AliveOrDeadRule([Dead, Dead, Dead, Dead, Dead, Dead, Dead, Dead]);
    }
  }

  /** Builds the block board, steps it once, and states the four checked cells. */
  method CheckBoardUpdate() returns (next: array2<Status>)
    ensures next.Length0 == 5 && next.Length1 == 5
    ensures next[0, 1] == Alive && next[2, 2] == Alive && next[2, 3] == Alive
    ensures next[4, 2] == Dead
  {
    var board := new Status[5, 5]((_, _) => Dead);
    board[1, 1], board[1, 2], board[2, 1], board[2, 2] := Alive, Alive, Alive, Alive;
    assert IsBlockBoard(board);
    BlockStep(board);
    next := UpdateBoard(board);
  }
}
