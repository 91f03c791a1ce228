/**
 * `impl Minesweeper`: the field set-up, the adjacency computation and the
 * move engine `game_move` with its ordered early returns, its lose branch
 * and its recursive reveal cascade.
 */
module MinesweeperGame {
  import opened MineGrid

  /** `MoveResult`: the outcome of one move. */
  datatype MoveResult = Useless | Continue | Won | Lost | NotStarted | UserMineThere | UserMineToggled

  class Minesweeper {
    const width: nat
    const height: nat
    var gameStarted: bool
    /** Where the mines are. */
    var mineBoard: seq<seq<bool>>
    /** The cells the player has flagged. */
    var userMineBoard: seq<seq<bool>>
    /** What the player sees: -1 hidden, 0..8 a revealed count, 9 a revealed mine. */
    var gameBoard: seq<seq<int>>
    /** The window count of every cell. */
    var adjacencyBoard: seq<seq<nat>>

    /** Every board has `height` rows of `width` cells. */
    ghost predicate Shaped()
      reads this
    {
      IsGrid(mineBoard, width, height) && IsGrid(userMineBoard, width, height)
      && IsGrid(gameBoard, width, height) && IsGrid(adjacencyBoard, width, height)
    }

    /** The adjacency board matches the mines and the visible board is honest. */
    ghost predicate Valid()
      reads this
    {
      Shaped() && adjacencyBoard == AdjacencyOf(mineBoard, width, height)
      && Honest(gameBoard, mineBoard, adjacencyBoard, width, height)
    }

    ghost function Hidden(): set<(nat, nat)>
      reads this
      requires Shaped()
    {
      HiddenCells(gameBoard, width, height)
    }

    /** `Minesweeper::empty`: no mines, no flags, every cell hidden, the game started. */
    constructor Empty(width: nat, height: nat)
      ensures this.width == width && this.height == height && gameStarted
      ensures mineBoard == Filled(width, height, false) && userMineBoard == Filled(width, height, false)
      ensures gameBoard == Filled(width, height, -1) && adjacencyBoard == Filled<nat>(width, height, 0)
      ensures Valid()
    {
      this.width := width;
      this.height := height;
      gameStarted := true;
      mineBoard := Filled(width, height, false);
      userMineBoard := Filled(width, height, false);
      gameBoard := Filled(width, height, -1);
      adjacencyBoard := Filled<nat>(width, height, 0);
      new;
      NoMinesAdjacency(width, height);
      assert Honest(gameBoard, mineBoard, adjacencyBoard, width, height);
    }

    /**
     * `with_random_mines` with the mine count given directly: starting from
     * `empty`, each of `count` rounds mines a random cell not mined yet,
     * then the adjacency board is computed.
     */
    static method WithRandomMines(width: nat, height: nat, count: nat) returns (ms: Minesweeper)
      requires count <= width * height
      ensures fresh(ms) && ms.Valid()
      ensures ms.width == width && ms.height == height && ms.gameStarted
      ensures MineCount(ms.mineBoard) == count
      ensures ms.userMineBoard == Filled(width, height, false) && ms.gameBoard == Filled(width, height, -1)
    {
      ms := new Minesweeper.Empty(width, height);
      MineCountNone(width, height);
      for i := 0 to count
        invariant ms.Shaped() && MineCount(ms.mineBoard) == i
        invariant ms.gameStarted
        invariant ms.userMineBoard == Filled(width, height, false) && ms.gameBoard == Filled(width, height, -1)
      {
        MineCountBound(ms.mineBoard, width, height);
        var x: nat, y: nat :| x < width && y < height && !ms.mineBoard[y][x];
        MineCountSet(ms.mineBoard, width, height, x, y);
        ms.mineBoard := ms.mineBoard[y := ms.mineBoard[y][x := true]];
      }
      ms.ComputeAdjacencyBoard();
    }

    /** `compute_adjacency_board`: stores `count_adjacent` of every cell. */
    method ComputeAdjacencyBoard()
      requires Shaped()
      modifies this
      ensures Shaped() && adjacencyBoard == AdjacencyOf(mineBoard, width, height)
      ensures mineBoard == old(mineBoard) && userMineBoard == old(userMineBoard)
      ensures gameBoard == old(gameBoard) && gameStarted == old(gameStarted)
    {
      for y := 0 to height
        invariant Shaped()
        invariant mineBoard == old(mineBoard) && userMineBoard == old(userMineBoard)
        invariant gameBoard == old(gameBoard) && gameStarted == old(gameStarted)
        invariant forall r :: 0 <= r < y ==> adjacencyBoard[r] == AdjacencyOf(mineBoard, width, height)[r]
      {
        for x := 0 to width
          invariant Shaped()
          invariant mineBoard == old(mineBoard) && userMineBoard == old(userMineBoard)
          invariant gameBoard == old(gameBoard) && gameStarted == old(gameStarted)
          invariant forall r :: 0 <= r < y ==> adjacencyBoard[r] == AdjacencyOf(mineBoard, width, height)[r]
          invariant forall c :: 0 <= c < x ==> adjacencyBoard[y][c] == WindowMines(mineBoard, width, height, c, y)
        {
          var n := CountAdjacent(x, y);
          adjacencyBoard := adjacencyBoard[y := adjacencyBoard[y][x := n]];
        }
        assert adjacencyBoard[y] == AdjacencyOf(mineBoard, width, height)[y];
      }
    }

    /**
     * `count_adjacent`: counts the mines of rows y-1..y+1 and columns
     * x-1..x+1, skipping cells off the field; the centre is counted too.
     */
    method CountAdjacent(x: nat, y: nat) returns (count: nat)
      requires Shaped()
      ensures count == WindowMines(mineBoard, width, height, x, y)
    {
      count := 0;
      for row := Lo(y) to y + 2
        invariant count == CountRows(mineBoard, width, height, x, Lo(y), row)
      {
        for column := Lo(x) to x + 2
          invariant count == CountRows(mineBoard, width, height, x, Lo(y), row)
                             + CountColumns(mineBoard, width, height, row, Lo(x), column)
        {
          if row < height && column < width {
            if mineBoard[row][column] {
              count := count + 1;
            }
          }
        }
      }
    }

    /** `is_won`: false at the first hidden safe cell, true if there is none. */
    method IsWon() returns (won: bool)
      requires Shaped()
      ensures won == AllSafeRevealed(gameBoard, mineBoard, width, height)
    {
      for y := 0 to height
        invariant forall r, c :: 0 <= r < y && 0 <= c < width ==> !(gameBoard[r][c] == -1 && !mineBoard[r][c])
      {
        for x := 0 to width
          invariant forall r, c :: 0 <= r < y && 0 <= c < width ==> !(gameBoard[r][c] == -1 && !mineBoard[r][c])
          invariant forall c :: 0 <= c < x ==> !(gameBoard[y][c] == -1 && !mineBoard[y][c])
        {
          if gameBoard[y][x] == -1 && !mineBoard[y][x] {
            return false;
          }
        }
      }
      return true;
    }

    /**
     * `game_move` at (x, y), which its caller keeps on the field. In order:
     * a revealed cell is Useless; a stopped game is NotStarted; a flag
     * request toggles the flag; a flagged cell is UserMineThere; a mine
     * reveals every mine and stops the game (Lost); otherwise the cell
     * shows its count, a 0 count reveals its window recursively, and the
     * result is Won or Continue. Winning leaves the game started.
     */
    method GameMove(x: nat, y: nat, markBomb: bool) returns (result: MoveResult)
      requires Valid() && x < width && y < height
      modifies this
      decreases Hidden(), 0
      ensures Valid() && Hidden() <= old(Hidden())
      ensures mineBoard == old(mineBoard) && adjacencyBoard == old(adjacencyBoard)
      ensures old(gameBoard[y][x]) != -1 ==>
        result == Useless && gameBoard == old(gameBoard) && userMineBoard == old(userMineBoard) && gameStarted == old(gameStarted)
      ensures old(gameBoard[y][x]) == -1 && !old(gameStarted) ==>
        result == NotStarted && gameBoard == old(gameBoard) && userMineBoard == old(userMineBoard) && !gameStarted
      ensures old(gameBoard[y][x]) == -1 && old(gameStarted) && markBomb ==>
        result == UserMineToggled && gameBoard == old(gameBoard) && gameStarted
        && userMineBoard == Toggle(old(userMineBoard), width, height, x, y)
      ensures old(gameBoard[y][x]) == -1 && old(gameStarted) && !markBomb && old(userMineBoard[y][x]) ==>
        result == UserMineThere && gameBoard == old(gameBoard) && userMineBoard == old(userMineBoard) && gameStarted
      ensures old(gameBoard[y][x]) == -1 && old(gameStarted) && !markBomb && !old(userMineBoard[y][x]) && mineBoard[y][x] ==>
        result == Lost && gameBoard == RevealMines(old(gameBoard), mineBoard, width, height)
        && userMineBoard == old(userMineBoard) && !gameStarted
      ensures old(gameBoard[y][x]) == -1 && old(gameStarted) && !markBomb && !old(userMineBoard[y][x]) && !mineBoard[y][x] ==>
        && userMineBoard == old(userMineBoard) && gameStarted
        && gameBoard[y][x] == adjacencyBoard[y][x]
        && RevealsSafe(old(gameBoard), gameBoard, mineBoard, userMineBoard, adjacencyBoard, width, height)
        && ZeroClosed(old(gameBoard), gameBoard, userMineBoard, width, height)
        && RevealsConnected(old(gameBoard), gameBoard, width, height, x, y)
        && result == (if AllSafeRevealed(gameBoard, mineBoard, width, height) then Won else Continue)
    {
      if gameBoard[y][x] != -1 {
        return Useless;
      }
      if !gameStarted {
        return NotStarted;
      }
      if markBomb {
        userMineBoard := userMineBoard[y := userMineBoard[y][x := !userMineBoard[y][x]]];
        return UserMineToggled;
      }
      if userMineBoard[y][x] {
        return UserMineThere;
      }
      if mineBoard[y][x] {
        RevealAllMines();
        gameStarted := false;
        return Lost;
      }
      ghost var g0 := gameBoard;
      HiddenReveal(g0, width, height, x, y, adjacencyBoard[y][x]);
      gameBoard := gameBoard[y := gameBoard[y][x := adjacencyBoard[y][x]]];
      ghost var g1 := gameBoard;
      if adjacencyBoard[y][x] == 0 {
        Cascade(x, y);
      }
      RevealThenCascade(g0, gameBoard, mineBoard, userMineBoard, adjacencyBoard, width, height, x, y);
      var won := IsWon();
      result := if won then Won else Continue;
    }

    /** The lose branch of `game_move`: every mined cell is set to 9. */
    method RevealAllMines()
      requires Valid()
      modifies this
      ensures Valid() && Hidden() <= old(Hidden())
      ensures gameBoard == RevealMines(old(gameBoard), mineBoard, width, height)
      ensures mineBoard == old(mineBoard) && adjacencyBoard == old(adjacencyBoard)
      ensures userMineBoard == old(userMineBoard) && gameStarted == old(gameStarted)
    {
      ghost var g0 := gameBoard;
      ghost var revealed := RevealMines(g0, mineBoard, width, height);
      for y := 0 to height
        invariant IsGrid(gameBoard, width, height)
        invariant mineBoard == old(mineBoard) && adjacencyBoard == old(adjacencyBoard)
        invariant userMineBoard == old(userMineBoard) && gameStarted == old(gameStarted)
        invariant forall r :: 0 <= r < y ==> gameBoard[r] == revealed[r]
        invariant forall r :: y <= r < height ==> gameBoard[r] == g0[r]
      {
        for x := 0 to width
          invariant IsGrid(gameBoard, width, height)
          invariant mineBoard == old(mineBoard) && adjacencyBoard == old(adjacencyBoard)
          invariant userMineBoard == old(userMineBoard) && gameStarted == old(gameStarted)
          invariant forall r :: 0 <= r < y ==> gameBoard[r] == revealed[r]
          invariant forall r :: y < r < height ==> gameBoard[r] == g0[r]
          invariant forall c :: 0 <= c < x ==> gameBoard[y][c] == revealed[y][c]
          invariant forall c :: x <= c < width ==> gameBoard[y][c] == g0[y][c]
        {
          if mineBoard[y][x] {
            gameBoard := gameBoard[y := gameBoard[y][x := 9]];
          }
        }
        assert gameBoard[y] == revealed[y];
      }
      assert gameBoard == revealed;
      RevealMinesFacts(g0, mineBoard, adjacencyBoard, width, height);
    }

    /**
     * The cascade of `game_move` from a revealed cell whose count is 0:
     * every hidden field cell of its window is played, unflagged, row by
     * row.
     */
    method Cascade(x: nat, y: nat)
      requires Valid() && x < width && y < height && gameStarted
      requires adjacencyBoard[y][x] == 0 && gameBoard[y][x] == 0
      modifies this
      decreases Hidden(), 3
      ensures Valid() && gameStarted && Hidden() <= old(Hidden())
      ensures mineBoard == old(mineBoard) && adjacencyBoard == old(adjacencyBoard) && userMineBoard == old(userMineBoard)
      ensures RevealsSafe(old(gameBoard), gameBoard, mineBoard, userMineBoard, adjacencyBoard, width, height)
      ensures ZeroClosed(old(gameBoard), gameBoard, userMineBoard, width, height)
      ensures RevealsConnected(old(gameBoard), gameBoard, width, height, x, y)
      ensures WindowSettled(gameBoard, userMineBoard, width, height, x, y)
    {
      ghost var g0 := gameBoard;
      WindowMinesFacts(mineBoard, width, height, x, y);
      for row := Lo(y) to y + 2
        invariant Valid() && gameStarted && Hidden() <= old(Hidden())
        invariant mineBoard == old(mineBoard) && adjacencyBoard == old(adjacencyBoard) && userMineBoard == old(userMineBoard)
        invariant RevealsSafe(g0, gameBoard, mineBoard, userMineBoard, adjacencyBoard, width, height)
        invariant ZeroClosed(g0, gameBoard, userMineBoard, width, height)
        invariant RevealsConnected(g0, gameBoard, width, height, x, y) && gameBoard[y][x] == 0
        invariant forall r, c :: 0 <= r < height && 0 <= c < width && InWindow(c, r, x, y) && r < row ==>
          gameBoard[r][c] != -1 || userMineBoard[r][c]
      {
        ghost var g1 := gameBoard;
        CascadeRow(x, y, row);
        RevealsSafeMonotone(g1, gameBoard, mineBoard, userMineBoard, adjacencyBoard, width, height);
        RevealsSafeMonotone(g0, g1, mineBoard, userMineBoard, adjacencyBoard, width, height);
        RevealsSafeTrans(g0, g1, gameBoard, mineBoard, userMineBoard, adjacencyBoard, width, height);
        ZeroClosedTrans(g0, g1, gameBoard, userMineBoard, width, height);
        RevealsConnectedTrans(g0, g1, gameBoard, width, height, x, y);
      }
    }

    /** One row of the cascade's window: each hidden field cell is played, unflagged. */
    method CascadeRow(x: nat, y: nat, row: nat)
      requires Valid() && gameStarted
      requires forall c, r :: 0 <= r < height && 0 <= c < width && InWindow(c, r, x, y) ==> !mineBoard[r][c]
      requires Lo(y) <= row <= y + 1 && x < width && y < height && gameBoard[y][x] == 0
      modifies this
      decreases Hidden(), 2
      ensures Valid() && gameStarted && Hidden() <= old(Hidden())
      ensures mineBoard == old(mineBoard) && adjacencyBoard == old(adjacencyBoard) && userMineBoard == old(userMineBoard)
      ensures RevealsSafe(old(gameBoard), gameBoard, mineBoard, userMineBoard, adjacencyBoard, width, height)
      ensures ZeroClosed(old(gameBoard), gameBoard, userMineBoard, width, height)
      ensures RevealsConnected(old(gameBoard), gameBoard, width, height, x, y) && gameBoard[y][x] == 0
      ensures forall c :: 0 <= c < width && InWindow(c, row, x, y) && row < height ==>
        gameBoard[row][c] != -1 || userMineBoard[row][c]
    {
      ghost var g0 := gameBoard;
      for column := Lo(x) to x + 2
        invariant Valid() && gameStarted && Hidden() <= old(Hidden())
        invariant mineBoard == old(mineBoard) && adjacencyBoard == old(adjacencyBoard) && userMineBoard == old(userMineBoard)
        invariant RevealsSafe(g0, gameBoard, mineBoard, userMineBoard, adjacencyBoard, width, height)
        invariant ZeroClosed(g0, gameBoard, userMineBoard, width, height)
        invariant RevealsConnected(g0, gameBoard, width, height, x, y) && gameBoard[y][x] == 0
        invariant forall c :: 0 <= c < width && InWindow(c, row, x, y) && c < column && row < height ==>
          gameBoard[row][c] != -1 || userMineBoard[row][c]
      {
        if row < height && column < width && gameBoard[row][column] == -1 {
          ghost var g1 := gameBoard;
          PlayCell(x, y, column, row);
          RevealsSafeMonotone(g1, gameBoard, mineBoard, userMineBoard, adjacencyBoard, width, height);
          RevealsSafeMonotone(g0, g1, mineBoard, userMineBoard, adjacencyBoard, width, height);
          RevealsSafeTrans(g0, g1, gameBoard, mineBoard, userMineBoard, adjacencyBoard, width, height);
          ZeroClosedTrans(g0, g1, gameBoard, userMineBoard, width, height);
          RevealsConnectedTrans(g0, g1, gameBoard, width, height, x, y);
        }
      }
    }

    /**
     * The cascade's recursive call `game_move(column, row, false)` on a
     * hidden cell of the window of the zero cell (x, y).
     */
    method PlayCell(x: nat, y: nat, column: nat, row: nat)
      requires Valid() && gameStarted && x < width && y < height && gameBoard[y][x] == 0
      requires forall c, r :: 0 <= r < height && 0 <= c < width && InWindow(c, r, x, y) ==> !mineBoard[r][c]
      requires column < width && row < height && InWindow(column, row, x, y) && gameBoard[row][column] == -1
      modifies this
      decreases Hidden(), 1
      ensures Valid() && gameStarted && Hidden() <= old(Hidden())
      ensures mineBoard == old(mineBoard) && adjacencyBoard == old(adjacencyBoard) && userMineBoard == old(userMineBoard)
      ensures RevealsSafe(old(gameBoard), gameBoard, mineBoard, userMineBoard, adjacencyBoard, width, height)
      ensures ZeroClosed(old(gameBoard), gameBoard, userMineBoard, width, height)
      ensures RevealsConnected(old(gameBoard), gameBoard, width, height, x, y) && gameBoard[y][x] == 0
      ensures gameBoard[row][column] != -1 || userMineBoard[row][column]
    {
      ghost var g0 := gameBoard;
      var _ := GameMove(column, row, false);
      RevealsSafeMonotone(g0, gameBoard, mineBoard, userMineBoard, adjacencyBoard, width, height);
      assert IsGrid(g0, width, height);
      assert Monotone(g0, g0, width, height) && RevealsConnected(g0, g0, width, height, x, y);
      RevealsConnectedStep(g0, g0, gameBoard, width, height, x, y, column, row);
    }
  }

  /**
   * On a field without mines every count is 0, so revealing one corner of
   * a 3x3 field cascades over the whole field and wins.
   */
  method RevealOnEmptyField() returns (result: MoveResult)
    ensures result == Won
  {
    var ms := new Minesweeper.Empty(3, 3);
    result := ms.GameMove(0, 0, false);
    assert InWindow(1, 1, 0, 0);
    assert ms.gameBoard[1][1] == 0;
    forall r, c | 0 <= r < 3 && 0 <= c < 3 ensures ms.gameBoard[r][c] != -1 {
      assert InWindow(c, r, 1, 1);
    }
  }

  /**
   * On a field of five cells in one row with a mine in the middle, revealing
   * the left end shows 0 and reveals its neighbour, which shows 1. The
   * cascade stops there, so the two safe cells right of the mine stay hidden
   * and the game goes on.
   */
  method RevealNextToMine() returns (result: MoveResult)
    ensures result == Continue
  {
    var ms := new Minesweeper.Empty(5, 1);
    ms.mineBoard := ms.mineBoard[0 := ms.mineBoard[0][2 := true]];
    ms.ComputeAdjacencyBoard();
    assert ms.adjacencyBoard[0][1] == WindowMines(ms.mineBoard, 5, 1, 1, 0);
    WindowMinesFacts(ms.mineBoard, 5, 1, 1, 0);
    assert InWindow(2, 0, 1, 0) && ms.mineBoard[0][2];
    assert ms.Valid();
    ghost var g0 := ms.gameBoard;
    result := ms.GameMove(0, 0, false);
    assert ms.gameBoard[0][1] != 0;
    CascadeStopsAtCount(g0, ms.gameBoard, 5, 0, 1, 3);
    assert !AllSafeRevealed(ms.gameBoard, ms.mineBoard, 5, 1);
  }
}
