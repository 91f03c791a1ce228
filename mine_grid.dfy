/**
 * The Minesweeper field as grids of rows (`Vec<Vec<_>>`, indexed
 * `[y][x]`): the clipped 3x3 window that `count_adjacent` and the reveal
 * cascade scan, the mine counts, and the predicates on the visible board
 * (`game_board`: -1 hidden, 0..8 a revealed count, 9 a revealed mine).
 */
module MineGrid {

  /** Every one of the `height` rows has `width` cells. */
  predicate IsGrid<T>(g: seq<seq<T>>, width: nat, height: nat) {
    |g| == height && forall y :: 0 <= y < height ==> |g[y]| == width
  }

  /** `vec![vec![v; width]; height]`. */
  function Filled<T>(width: nat, height: nat, v: T): (g: seq<seq<T>>)
    ensures IsGrid(g, width, height)
    ensures forall y, x :: 0 <= y < height && 0 <= x < width ==> g[y][x] == v
  {
    seq(height, _ => seq(width, _ => v))
  }

  /** `a.checked_sub(1).unwrap_or(0)`: the first row or column of a window. */
  function Lo(a: nat): (l: nat)
    ensures l <= a && a <= l + 1
  {
    if a == 0 then 0 else a - 1
  }

  /** Cell (c, r) lies in the window of (x, y), clipped at 0 but not at the far edges. */
  predicate InWindow(c: nat, r: nat, x: nat, y: nat) {
    Lo(x) <= c <= x + 1 && Lo(y) <= r <= y + 1
  }

  /** The window relation is symmetric: neighbours see each other. */
  lemma InWindowSymmetric(c: nat, r: nat, x: nat, y: nat)
    ensures InWindow(c, r, x, y) <==> InWindow(x, y, c, r)
  {
  }

  /** 1 when cell (c, r) is on the field and mined, else 0. */
  function MineAt(mines: seq<seq<bool>>, width: nat, height: nat, c: nat, r: nat): nat
    requires IsGrid(mines, width, height)
  {
    if r < height && c < width && mines[r][c] then 1 else 0
  }

  /** Mines among columns lo..hi-1 of row r (cells off the field count 0). */
  function CountColumns(mines: seq<seq<bool>>, width: nat, height: nat, r: nat, lo: nat, hi: nat): (n: nat)
    requires IsGrid(mines, width, height)
    decreases hi - lo
  {
    if hi <= lo then 0 else CountColumns(mines, width, height, r, lo, hi - 1) + MineAt(mines, width, height, hi - 1, r)
  }

  /** Mines in rows lo..hi-1 of the window columns of x. */
  function CountRows(mines: seq<seq<bool>>, width: nat, height: nat, x: nat, lo: nat, hi: nat): (n: nat)
    requires IsGrid(mines, width, height)
    decreases hi - lo
  {
    if hi <= lo then 0
    else CountRows(mines, width, height, x, lo, hi - 1) + CountColumns(mines, width, height, hi - 1, Lo(x), x + 2)
  }

  /**
   * What `count_adjacent(x, y)` computes: the mines in rows y-1..y+1 and
   * columns x-1..x+1, clipped to the field, the centre cell included.
   */
  function WindowMines(mines: seq<seq<bool>>, width: nat, height: nat, x: nat, y: nat): nat
    requires IsGrid(mines, width, height)
  {
    CountRows(mines, width, height, x, Lo(y), y + 2)
  }

  lemma {:induction false} ColumnsBound(mines: seq<seq<bool>>, width: nat, height: nat, r: nat, lo: nat, hi: nat)
    requires IsGrid(mines, width, height) && lo <= hi
    ensures CountColumns(mines, width, height, r, lo, hi) <= hi - lo
    ensures CountColumns(mines, width, height, r, lo, hi) == 0 <==>
      forall c :: lo <= c < hi && r < height && c < width ==> !mines[r][c]
    ensures forall c :: lo <= c < hi && r < height && c < width && !mines[r][c] ==>
      CountColumns(mines, width, height, r, lo, hi) < hi - lo
    decreases hi - lo
  {
    if lo < hi {
      ColumnsBound(mines, width, height, r, lo, hi - 1);
    }
  }

  lemma {:induction false} RowsBound(mines: seq<seq<bool>>, width: nat, height: nat, x: nat, lo: nat, hi: nat)
    requires IsGrid(mines, width, height) && lo <= hi
    ensures CountRows(mines, width, height, x, lo, hi) <= (hi - lo) * (x + 2 - Lo(x))
    ensures CountRows(mines, width, height, x, lo, hi) == 0 <==>
      forall c, r :: Lo(x) <= c < x + 2 && lo <= r < hi && r < height && c < width ==> !mines[r][c]
    ensures forall c, r :: Lo(x) <= c < x + 2 && lo <= r < hi && r < height && c < width && !mines[r][c] ==>
      CountRows(mines, width, height, x, lo, hi) < (hi - lo) * (x + 2 - Lo(x))
    decreases hi - lo
  {
    if lo < hi {
      RowsBound(mines, width, height, x, lo, hi - 1);
      ColumnsBound(mines, width, height, hi - 1, Lo(x), x + 2);
      assert (hi - lo) * (x + 2 - Lo(x)) == (hi - 1 - lo) * (x + 2 - Lo(x)) + (x + 2 - Lo(x));
    }
  }

  /**
   * `count_adjacent` is at most 9; it is 0 exactly when the window holds no
   * mine; a mined cell counts itself, and a safe cell's count, its mined
   * neighbours, is at most 8.
   */
  lemma WindowMinesFacts(mines: seq<seq<bool>>, width: nat, height: nat, x: nat, y: nat)
    requires IsGrid(mines, width, height)
    ensures WindowMines(mines, width, height, x, y) <= 9
    ensures WindowMines(mines, width, height, x, y) == 0 <==>
      forall c, r :: 0 <= r < height && 0 <= c < width && InWindow(c, r, x, y) ==> !mines[r][c]
    ensures x < width && y < height && mines[y][x] ==> WindowMines(mines, width, height, x, y) >= 1
    ensures x < width && y < height && !mines[y][x] ==> WindowMines(mines, width, height, x, y) <= 8
  {
    RowsBound(mines, width, height, x, Lo(y), y + 2);
    var n := x + 2 - Lo(x);
    assert n <= 3 && y + 2 - Lo(y) <= 3;
    assert (y + 2 - Lo(y)) * n <= 9;
  }

  /** `compute_adjacency_board`'s result: every cell's window count. */
  function AdjacencyOf(mines: seq<seq<bool>>, width: nat, height: nat): (a: seq<seq<nat>>)
    requires IsGrid(mines, width, height)
    ensures IsGrid(a, width, height)
  {
    seq(height, y requires 0 <= y < height => seq(width, x requires 0 <= x < width => WindowMines(mines, width, height, x, y)))
  }

  /**
   * The stored counts: at most 9, at most 8 on a safe cell, at least 1 on a
   * mine, and 0 exactly when the cell's window holds no mine.
   */
  lemma AdjacencyFacts(mines: seq<seq<bool>>, width: nat, height: nat)
    requires IsGrid(mines, width, height)
    ensures forall y, x :: 0 <= y < height && 0 <= x < width ==>
      var n := AdjacencyOf(mines, width, height)[y][x];
      n <= 9 && (mines[y][x] ==> n >= 1) && (!mines[y][x] ==> n <= 8)
      && (n == 0 <==> forall c, r :: 0 <= r < height && 0 <= c < width && InWindow(c, r, x, y) ==> !mines[r][c])
  {
    var a := AdjacencyOf(mines, width, height);
    forall y, x | 0 <= y < height && 0 <= x < width
      ensures a[y][x] <= 9 && (mines[y][x] ==> a[y][x] >= 1) && (!mines[y][x] ==> a[y][x] <= 8)
      ensures a[y][x] == 0 <==> forall c, r :: 0 <= r < height && 0 <= c < width && InWindow(c, r, x, y) ==> !mines[r][c]
    {
      assert a[y][x] == WindowMines(mines, width, height, x, y);
      WindowMinesFacts(mines, width, height, x, y);
    }
  }

  /** Without mines every count is 0: the adjacency board of `empty`. */
  lemma NoMinesAdjacency(width: nat, height: nat)
    ensures AdjacencyOf(Filled(width, height, false), width, height) == Filled<nat>(width, height, 0)
  {
    var mines := Filled(width, height, false);
    forall y, x | 0 <= y < height && 0 <= x < width
      ensures WindowMines(mines, width, height, x, y) == 0
    {
      WindowMinesFacts(mines, width, height, x, y);
    }
    assert forall y :: 0 <= y < height ==>
      AdjacencyOf(mines, width, height)[y] == Filled<nat>(width, height, 0)[y];
  }

  /** Number of true cells in a row. */
  function CountTrue(row: seq<bool>): (n: nat)
    ensures n <= |row|
  {
    if row == [] then 0 else CountTrue(row[..|row| - 1]) + (if row[|row| - 1] then 1 else 0)
  }

  /** Number of mined cells. */
  function MineCount(mines: seq<seq<bool>>): nat {
    if mines == [] then 0 else MineCount(mines[..|mines| - 1]) + CountTrue(mines[|mines| - 1])
  }

  lemma {:induction false} CountTrueFull(row: seq<bool>)
    ensures CountTrue(row) == |row| <==> forall i :: 0 <= i < |row| ==> row[i]
  {
    if row != [] {
      CountTrueFull(row[..|row| - 1]);
    }
  }

  lemma {:induction false} CountTrueSet(row: seq<bool>, i: nat)
    requires i < |row| && !row[i]
    ensures CountTrue(row[i := true]) == CountTrue(row) + 1
  {
    var n := |row| - 1;
    if i < n {
      assert row[i := true][..n] == row[..n][i := true];
      CountTrueSet(row[..n], i);
    } else {
      assert row[i := true][..n] == row[..n];
    }
  }

  lemma {:induction false} CountTrueNone(row: seq<bool>)
    requires forall i :: 0 <= i < |row| ==> !row[i]
    ensures CountTrue(row) == 0
  {
    if row != [] {
      CountTrueNone(row[..|row| - 1]);
    }
  }

  /** At most one mine per cell; width * height exactly when every cell is mined. */
  lemma {:induction false} MineCountBound(mines: seq<seq<bool>>, width: nat, height: nat)
    requires IsGrid(mines, width, height)
    ensures MineCount(mines) <= width * height
    ensures MineCount(mines) == width * height <==> forall y, x :: 0 <= y < height && 0 <= x < width ==> mines[y][x]
  {
    if height > 0 {
      var init, last := mines[..height - 1], mines[height - 1];
      MineCountBound(init, width, height - 1);
      CountTrueFull(last);
      MulStep(width, height);
      if MineCount(mines) == width * height {
        forall y, x | 0 <= y < height && 0 <= x < width ensures mines[y][x] {
          if y < height - 1 {
            assert init[y] == mines[y];
          }
        }
      }
    }
  }

  lemma MulStep(width: nat, height: nat)
    requires height > 0
    ensures width * height == width * (height - 1) + width
  {
  }

  /** Placing a mine on an unmined cell adds exactly one mine. */
  lemma {:induction false} MineCountSet(mines: seq<seq<bool>>, width: nat, height: nat, x: nat, y: nat)
    requires IsGrid(mines, width, height) && x < width && y < height && !mines[y][x]
    ensures MineCount(mines[y := mines[y][x := true]]) == MineCount(mines) + 1
  {
    var n := height - 1;
    var mines' := mines[y := mines[y][x := true]];
    if y < n {
      assert mines'[..n] == mines[..n][y := mines[y][x := true]];
      MineCountSet(mines[..n], width, n, x, y);
    } else {
      assert mines'[..n] == mines[..n];
      CountTrueSet(mines[y], x);
    }
  }

  lemma {:induction false} MineCountNone(width: nat, height: nat)
    ensures MineCount(Filled(width, height, false)) == 0
  {
    if height > 0 {
      assert Filled(width, height, false)[..height - 1] == Filled(width, height - 1, false);
      MineCountNone(width, height - 1);
      CountTrueNone(Filled(width, height, false)[height - 1]);
    }
  }

  /** The `mark_bomb` move: flips the flag of (x, y) and of no other cell. */
  function Toggle(flags: seq<seq<bool>>, width: nat, height: nat, x: nat, y: nat): (f: seq<seq<bool>>)
    requires IsGrid(flags, width, height) && x < width && y < height
    ensures IsGrid(f, width, height) && f[y][x] == !flags[y][x]
    ensures forall r, c :: 0 <= r < height && 0 <= c < width && !(r == y && c == x) ==> f[r][c] == flags[r][c]
  {
    flags[y := flags[y][x := !flags[y][x]]]
  }

  /** Marking the same cell twice restores the flags. */
  lemma ToggleTwice(flags: seq<seq<bool>>, width: nat, height: nat, x: nat, y: nat)
    requires IsGrid(flags, width, height) && x < width && y < height
    ensures Toggle(Toggle(flags, width, height, x, y), width, height, x, y) == flags
  {
    var f := Toggle(Toggle(flags, width, height, x, y), width, height, x, y);
    assert f[y] == flags[y];
  }

  /** `is_won`: no safe cell is still hidden. */
  predicate AllSafeRevealed(game: seq<seq<int>>, mines: seq<seq<bool>>, width: nat, height: nat)
    requires IsGrid(game, width, height) && IsGrid(mines, width, height)
  {
    forall y, x :: 0 <= y < height && 0 <= x < width ==> !(game[y][x] == -1 && !mines[y][x])
  }

  /** The lose branch of `game_move`: every mined cell shows 9. */
  function RevealMines(game: seq<seq<int>>, mines: seq<seq<bool>>, width: nat, height: nat): (g: seq<seq<int>>)
    requires IsGrid(game, width, height) && IsGrid(mines, width, height)
    ensures IsGrid(g, width, height)
  {
    seq(height, y requires 0 <= y < height => seq(width, x requires 0 <= x < width => if mines[y][x] then 9 else game[y][x]))
  }

  /**
   * The visible board tells no lie: a revealed cell shows 9 on a mine and
   * its window count on a safe cell.
   */
  predicate Honest(game: seq<seq<int>>, mines: seq<seq<bool>>, adjacency: seq<seq<nat>>, width: nat, height: nat)
    requires IsGrid(game, width, height) && IsGrid(mines, width, height) && IsGrid(adjacency, width, height)
  {
    forall y, x :: 0 <= y < height && 0 <= x < width ==>
      game[y][x] == -1 || (mines[y][x] && game[y][x] == 9) || (!mines[y][x] && game[y][x] == adjacency[y][x])
  }

  /** Revealing the mines keeps the board honest and hides nothing new. */
  lemma RevealMinesFacts(game: seq<seq<int>>, mines: seq<seq<bool>>, adjacency: seq<seq<nat>>, width: nat, height: nat)
    requires IsGrid(game, width, height) && IsGrid(mines, width, height) && IsGrid(adjacency, width, height)
    requires Honest(game, mines, adjacency, width, height)
    ensures Honest(RevealMines(game, mines, width, height), mines, adjacency, width, height)
    ensures Monotone(game, RevealMines(game, mines, width, height), width, height)
    ensures forall y, x :: 0 <= y < height && 0 <= x < width && mines[y][x] ==> RevealMines(game, mines, width, height)[y][x] == 9
    ensures HiddenCells(RevealMines(game, mines, width, height), width, height) <= HiddenCells(game, width, height)
  {
    HiddenMonotone(game, RevealMines(game, mines, width, height), width, height);
  }

  /**
   * From g0 to g1 only hidden, unflagged, safe cells changed, each to its
   * count.
   */
  predicate RevealsSafe(g0: seq<seq<int>>, g1: seq<seq<int>>, mines: seq<seq<bool>>, flags: seq<seq<bool>>,
                        adjacency: seq<seq<nat>>, width: nat, height: nat)
    requires IsGrid(g0, width, height) && IsGrid(g1, width, height) && IsGrid(mines, width, height)
    requires IsGrid(flags, width, height) && IsGrid(adjacency, width, height)
  {
    forall y, x :: 0 <= y < height && 0 <= x < width ==>
      g1[y][x] == g0[y][x] || (g0[y][x] == -1 && !flags[y][x] && !mines[y][x] && g1[y][x] == adjacency[y][x])
  }

  /** Every field cell of the window of (x, y) is revealed or flagged. */
  predicate WindowSettled(g: seq<seq<int>>, flags: seq<seq<bool>>, width: nat, height: nat, x: nat, y: nat)
    requires IsGrid(g, width, height) && IsGrid(flags, width, height)
  {
    forall r, c :: 0 <= r < height && 0 <= c < width && InWindow(c, r, x, y) ==> g[r][c] != -1 || flags[r][c]
  }

  /**
   * The cascade is complete: every cell revealed between g0 and g1 that
   * shows 0 has its whole window revealed or flagged.
   */
  predicate ZeroClosed(g0: seq<seq<int>>, g1: seq<seq<int>>, flags: seq<seq<bool>>, width: nat, height: nat)
    requires IsGrid(g0, width, height) && IsGrid(g1, width, height) && IsGrid(flags, width, height)
  {
    forall y, x :: 0 <= y < height && 0 <= x < width && g0[y][x] == -1 && g1[y][x] == 0 ==>
      WindowSettled(g1, flags, width, height, x, y)
  }

  /**
   * p is a chain of field cells from the played cell (x, y) along which a
   * cascade can spread: each cell lies in the window of the one before it,
   * every cell but the last shows 0 in g1, and every cell between the first
   * and the last was hidden in g0.
   */
  ghost predicate ZeroPath(g0: seq<seq<int>>, g1: seq<seq<int>>, width: nat, height: nat, x: nat, y: nat,
                           p: seq<(nat, nat)>)
    requires IsGrid(g0, width, height) && IsGrid(g1, width, height)
  {
    && |p| >= 1 && p[0] == (x, y)
    && (forall i :: 0 <= i < |p| ==> p[i].0 < width && p[i].1 < height)
    && (forall i, j :: 0 <= i && j == i + 1 && j < |p| ==>
          InWindow(p[j].0, p[j].1, p[i].0, p[i].1) && g1[p[i].1][p[i].0] == 0)
    && (forall i :: 0 < i < |p| - 1 ==> g0[p[i].1][p[i].0] == -1)
  }

  /** Some `ZeroPath` from (x, y) ends in cell (c, r). */
  ghost predicate ZeroConnected(g0: seq<seq<int>>, g1: seq<seq<int>>, width: nat, height: nat,
                                x: nat, y: nat, c: nat, r: nat)
    requires IsGrid(g0, width, height) && IsGrid(g1, width, height)
  {
    exists p: seq<(nat, nat)> :: ZeroPath(g0, g1, width, height, x, y, p) && p[|p| - 1] == (c, r)
  }

  /**
   * The cascade from (x, y) spreads only through zero cells: every cell
   * revealed between g0 and g1 is `ZeroConnected` to (x, y).
   */
  ghost predicate RevealsConnected(g0: seq<seq<int>>, g1: seq<seq<int>>, width: nat, height: nat, x: nat, y: nat)
    requires IsGrid(g0, width, height) && IsGrid(g1, width, height)
  {
    forall r: nat, c: nat {:trigger ZeroConnected(g0, g1, width, height, x, y, c, r)} ::
      r < height && c < width && g0[r][c] == -1 && g1[r][c] != -1 ==>
      ZeroConnected(g0, g1, width, height, x, y, c, r)
  }

  /** A chain stays a `ZeroPath` when more cells are revealed afterwards. */
  lemma ZeroPathLater(g0: seq<seq<int>>, g1: seq<seq<int>>, g2: seq<seq<int>>, width: nat, height: nat,
                      x: nat, y: nat, p: seq<(nat, nat)>)
    requires IsGrid(g0, width, height) && IsGrid(g1, width, height) && IsGrid(g2, width, height)
    requires Monotone(g1, g2, width, height) && ZeroPath(g0, g1, width, height, x, y, p)
    ensures ZeroPath(g0, g2, width, height, x, y, p)
  {
  }

  /** A chain stays a `ZeroPath` when it is measured from an earlier board. */
  lemma ZeroPathEarlier(g0: seq<seq<int>>, g1: seq<seq<int>>, g2: seq<seq<int>>, width: nat, height: nat,
                        x: nat, y: nat, p: seq<(nat, nat)>)
    requires IsGrid(g0, width, height) && IsGrid(g1, width, height) && IsGrid(g2, width, height)
    requires Monotone(g0, g1, width, height) && ZeroPath(g1, g2, width, height, x, y, p)
    ensures ZeroPath(g0, g2, width, height, x, y, p)
  {
  }

  /**
   * A chain from a hidden cell (c, r) of the window of the zero cell (x, y)
   * extends to a chain from (x, y).
   */
  lemma ZeroPathPrepend(g0: seq<seq<int>>, g1: seq<seq<int>>, width: nat, height: nat,
                        x: nat, y: nat, c: nat, r: nat, p: seq<(nat, nat)>)
    requires IsGrid(g0, width, height) && IsGrid(g1, width, height) && x < width && y < height
    requires ZeroPath(g0, g1, width, height, c, r, p)
    requires InWindow(c, r, x, y) && g1[y][x] == 0 && g0[r][c] == -1
    ensures ZeroPath(g0, g1, width, height, x, y, [(x, y)] + p)
  {
    var q := [(x, y)] + p;
    forall i, j | 0 <= i && j == i + 1 && j < |q|
      ensures InWindow(q[j].0, q[j].1, q[i].0, q[i].1) && g1[q[i].1][q[i].0] == 0
    {
      if i > 0 {
        assert q[i] == p[i - 1] && q[j] == p[j - 1];
      }
    }
    forall i | 0 < i < |q| - 1
      ensures g0[q[i].1][q[i].0] == -1
    {
      assert q[i] == p[i - 1];
    }
  }

  /**
   * Playing a hidden cell (c, r) of the window of the zero cell (x, y)
   * keeps the cascade from (x, y) `RevealsConnected`.
   */
  lemma RevealsConnectedStep(g0: seq<seq<int>>, g1: seq<seq<int>>, g2: seq<seq<int>>, width: nat, height: nat,
                             x: nat, y: nat, c: nat, r: nat)
    requires IsGrid(g0, width, height) && IsGrid(g1, width, height) && IsGrid(g2, width, height)
    requires x < width && y < height && c < width && r < height
    requires Monotone(g0, g1, width, height) && Monotone(g1, g2, width, height)
    requires RevealsConnected(g0, g1, width, height, x, y) && RevealsConnected(g1, g2, width, height, c, r)
    requires g1[r][c] == -1 && InWindow(c, r, x, y) && g1[y][x] == 0
    ensures RevealsConnected(g0, g2, width, height, x, y)
  {
    forall r1: nat, c1: nat | r1 < height && c1 < width && g0[r1][c1] == -1 && g2[r1][c1] != -1
      ensures ZeroConnected(g0, g2, width, height, x, y, c1, r1)
    {
      if g1[r1][c1] != -1 {
        assert ZeroConnected(g0, g1, width, height, x, y, c1, r1);
        var p :| ZeroPath(g0, g1, width, height, x, y, p) && p[|p| - 1] == (c1, r1);
        ZeroPathLater(g0, g1, g2, width, height, x, y, p);
        assert ZeroPath(g0, g2, width, height, x, y, p);
      } else {
        assert ZeroConnected(g1, g2, width, height, c, r, c1, r1);
        var p :| ZeroPath(g1, g2, width, height, c, r, p) && p[|p| - 1] == (c1, r1);
        ZeroPathEarlier(g0, g1, g2, width, height, c, r, p);
        ZeroPathPrepend(g0, g2, width, height, x, y, c, r, p);
        var q := [(x, y)] + p;
        assert q[|q| - 1] == (c1, r1);
        assert ZeroPath(g0, g2, width, height, x, y, q);
      }
    }
  }

  /**
   * On a field one row high a cascade from column x cannot get past a cell
   * k > x that shows a non-zero count: cell i of a `ZeroPath` from (x, 0)
   * lies at column k or left of it.
   */
  lemma {:induction false} ZeroPathBlocked(g0: seq<seq<int>>, g1: seq<seq<int>>, width: nat, x: nat, k: nat,
                                           p: seq<(nat, nat)>, i: nat)
    requires IsGrid(g0, width, 1) && IsGrid(g1, width, 1) && x < k < width && g1[0][k] != 0
    requires ZeroPath(g0, g1, width, 1, x, 0, p) && i < |p|
    ensures p[i].0 <= k
    decreases i
  {
    if i > 0 {
      ZeroPathBlocked(g0, g1, width, x, k, p, i - 1);
      assert InWindow(p[i].0, p[i].1, p[i - 1].0, p[i - 1].1) && g1[p[i - 1].1][p[i - 1].0] == 0;
    }
  }

  /**
   * So on a field one row high a cascade from column x leaves every hidden
   * cell beyond such a cell k hidden.
   */
  lemma CascadeStopsAtCount(g0: seq<seq<int>>, g1: seq<seq<int>>, width: nat, x: nat, k: nat, c: nat)
    requires IsGrid(g0, width, 1) && IsGrid(g1, width, 1) && x < k < c < width && g1[0][k] != 0
    requires RevealsConnected(g0, g1, width, 1, x, 0) && g0[0][c] == -1
    ensures g1[0][c] == -1
  {
    if g1[0][c] != -1 {
      assert ZeroConnected(g0, g1, width, 1, x, 0, c, 0);
      var p :| ZeroPath(g0, g1, width, 1, x, 0, p) && p[|p| - 1] == (c, 0);
      ZeroPathBlocked(g0, g1, width, x, k, p, |p| - 1);
    }
  }

  /** Two stretches of the cascade from (x, y) make one. */
  lemma RevealsConnectedTrans(g0: seq<seq<int>>, g1: seq<seq<int>>, g2: seq<seq<int>>, width: nat, height: nat,
                              x: nat, y: nat)
    requires IsGrid(g0, width, height) && IsGrid(g1, width, height) && IsGrid(g2, width, height)
    requires Monotone(g0, g1, width, height) && Monotone(g1, g2, width, height)
    requires RevealsConnected(g0, g1, width, height, x, y) && RevealsConnected(g1, g2, width, height, x, y)
    ensures RevealsConnected(g0, g2, width, height, x, y)
  {
    forall r1: nat, c1: nat | r1 < height && c1 < width && g0[r1][c1] == -1 && g2[r1][c1] != -1
      ensures ZeroConnected(g0, g2, width, height, x, y, c1, r1)
    {
      if g1[r1][c1] != -1 {
        assert ZeroConnected(g0, g1, width, height, x, y, c1, r1);
        var p :| ZeroPath(g0, g1, width, height, x, y, p) && p[|p| - 1] == (c1, r1);
        ZeroPathLater(g0, g1, g2, width, height, x, y, p);
        assert ZeroPath(g0, g2, width, height, x, y, p);
      } else {
        assert ZeroConnected(g1, g2, width, height, x, y, c1, r1);
        var p :| ZeroPath(g1, g2, width, height, x, y, p) && p[|p| - 1] == (c1, r1);
        ZeroPathEarlier(g0, g1, g2, width, height, x, y, p);
        assert ZeroPath(g0, g2, width, height, x, y, p);
      }
    }
  }

  /** The hidden cells, the measure the reveal cascade decreases. */
  function HiddenCells(g: seq<seq<int>>, width: nat, height: nat): set<(nat, nat)>
    requires IsGrid(g, width, height)
  {
    set y: nat, x: nat | y < height && x < width && g[y][x] == -1 :: (x, y)
  }

  /** Revealed cells stay as they are. */
  predicate Monotone(g0: seq<seq<int>>, g1: seq<seq<int>>, width: nat, height: nat)
    requires IsGrid(g0, width, height) && IsGrid(g1, width, height)
  {
    forall y, x :: 0 <= y < height && 0 <= x < width && g0[y][x] != -1 ==> g1[y][x] == g0[y][x]
  }

  lemma RevealsSafeMonotone(g0: seq<seq<int>>, g1: seq<seq<int>>, mines: seq<seq<bool>>, flags: seq<seq<bool>>,
                            adjacency: seq<seq<nat>>, width: nat, height: nat)
    requires IsGrid(g0, width, height) && IsGrid(g1, width, height) && IsGrid(mines, width, height)
    requires IsGrid(flags, width, height) && IsGrid(adjacency, width, height)
    requires RevealsSafe(g0, g1, mines, flags, adjacency, width, height)
    ensures Monotone(g0, g1, width, height)
  {
  }

  lemma RevealsSafeTrans(g0: seq<seq<int>>, g1: seq<seq<int>>, g2: seq<seq<int>>, mines: seq<seq<bool>>,
                         flags: seq<seq<bool>>, adjacency: seq<seq<nat>>, width: nat, height: nat)
    requires IsGrid(g0, width, height) && IsGrid(g1, width, height) && IsGrid(g2, width, height)
    requires IsGrid(mines, width, height) && IsGrid(flags, width, height) && IsGrid(adjacency, width, height)
    requires RevealsSafe(g0, g1, mines, flags, adjacency, width, height)
    requires RevealsSafe(g1, g2, mines, flags, adjacency, width, height)
    ensures RevealsSafe(g0, g2, mines, flags, adjacency, width, height)
  {
  }

  lemma SettledMonotone(g1: seq<seq<int>>, g2: seq<seq<int>>, flags: seq<seq<bool>>, width: nat, height: nat, x: nat, y: nat)
    requires IsGrid(g1, width, height) && IsGrid(g2, width, height) && IsGrid(flags, width, height)
    requires WindowSettled(g1, flags, width, height, x, y) && Monotone(g1, g2, width, height)
    ensures WindowSettled(g2, flags, width, height, x, y)
  {
  }

  lemma ZeroClosedTrans(g0: seq<seq<int>>, g1: seq<seq<int>>, g2: seq<seq<int>>, flags: seq<seq<bool>>, width: nat, height: nat)
    requires IsGrid(g0, width, height) && IsGrid(g1, width, height) && IsGrid(g2, width, height) && IsGrid(flags, width, height)
    requires ZeroClosed(g0, g1, flags, width, height) && ZeroClosed(g1, g2, flags, width, height)
    requires Monotone(g1, g2, width, height)
    ensures ZeroClosed(g0, g2, flags, width, height)
  {
    forall y, x | 0 <= y < height && 0 <= x < width && g0[y][x] == -1 && g2[y][x] == 0
      ensures WindowSettled(g2, flags, width, height, x, y)
    {
      if g1[y][x] != -1 {
        SettledMonotone(g1, g2, flags, width, height, x, y);
      }
    }
  }

  /**
   * Revealing cell (x, y) with count v and then running the cascade from it
   * when v is 0 reveals only safe cells and leaves no zero cell unsettled.
   */
  lemma RevealThenCascade(g0: seq<seq<int>>, g2: seq<seq<int>>, mines: seq<seq<bool>>, flags: seq<seq<bool>>,
                          adjacency: seq<seq<nat>>, width: nat, height: nat, x: nat, y: nat)
    requires IsGrid(g0, width, height) && IsGrid(g2, width, height) && IsGrid(mines, width, height)
    requires IsGrid(flags, width, height) && IsGrid(adjacency, width, height) && x < width && y < height
    requires g0[y][x] == -1 && !flags[y][x] && !mines[y][x]
    requires var g1 := g0[y := g0[y][x := adjacency[y][x]]];
      RevealsSafe(g1, g2, mines, flags, adjacency, width, height) && ZeroClosed(g1, g2, flags, width, height)
      && RevealsConnected(g1, g2, width, height, x, y)
    requires adjacency[y][x] == 0 ==> WindowSettled(g2, flags, width, height, x, y)
    ensures RevealsSafe(g0, g2, mines, flags, adjacency, width, height)
    ensures ZeroClosed(g0, g2, flags, width, height)
    ensures RevealsConnected(g0, g2, width, height, x, y)
    ensures g2[y][x] == adjacency[y][x]
  {
    var g1 := g0[y := g0[y][x := adjacency[y][x]]];
    assert IsGrid(g1, width, height);
    RevealsSafeTrans(g0, g1, g2, mines, flags, adjacency, width, height);
    RevealsSafeMonotone(g1, g2, mines, flags, adjacency, width, height);
    forall r1: nat, c1: nat | r1 < height && c1 < width && g0[r1][c1] == -1 && g1[r1][c1] != -1
      ensures ZeroConnected(g0, g1, width, height, x, y, c1, r1)
    {
      assert c1 == x && r1 == y;
      assert ZeroPath(g0, g1, width, height, x, y, [(x, y)]);
    }
    assert Monotone(g0, g1, width, height);
    RevealsConnectedTrans(g0, g1, g2, width, height, x, y);
  }

  lemma HiddenMonotone(g0: seq<seq<int>>, g1: seq<seq<int>>, width: nat, height: nat)
    requires IsGrid(g0, width, height) && IsGrid(g1, width, height) && Monotone(g0, g1, width, height)
    ensures HiddenCells(g1, width, height) <= HiddenCells(g0, width, height)
  {
  }

  lemma HiddenReveal(g0: seq<seq<int>>, width: nat, height: nat, x: nat, y: nat, v: int)
    requires IsGrid(g0, width, height) && x < width && y < height && g0[y][x] == -1 && v != -1
    ensures HiddenCells(g0[y := g0[y][x := v]], width, height) < HiddenCells(g0, width, height)
  {
    var g1 := g0[y := g0[y][x := v]];
    assert (x, y) in HiddenCells(g0, width, height) - HiddenCells(g1, width, height);
    HiddenMonotone(g0, g1, width, height);
  }
}
