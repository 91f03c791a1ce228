/**
 * The 9x9 Sudoku grid as 81 cells in row-major order (cell `x + 9 * y`
 * is column x of row y). This module holds the index helpers of
 * `impl Sudoku`, the predicates and the selector it evaluates on its two
 * boards (`board`: the values 0..9, 0 meaning empty; `sol_board`: one
 * exclusion mask per cell, bit v-1 set meaning "v is excluded here"), and
 * the mask update that `insert_value` performs, as functions on `seq`
 * snapshots of the two boards.
 */
module SudokuBoard {
  import opened Masks

  datatype Option<T> = None | Some(value: T)

  /** `transform_to_x_y`: column and row of a cell index. */
  function TransformToXY(idx: nat): (p: (nat, nat))
    ensures p.0 < 9
    ensures idx < 81 ==> p.1 < 9
  {
    (idx % 9, idx / 9)
  }

  /** `transform_to_idx`: the index of the cell in column x of row y. */
  function TransformToIdx(x: nat, y: nat): (idx: nat)
    ensures x < 9 && y < 9 ==> idx < 81
  {
    x + y * 9
  }

  lemma XYOfIdx(idx: nat)
    ensures TransformToIdx(TransformToXY(idx).0, TransformToXY(idx).1) == idx
  {
  }

  lemma IdxOfXY(x: nat, y: nat)
    requires x < 9
    ensures TransformToXY(TransformToIdx(x, y)) == (x, y)
  {
  }

  /** Row, column and block membership of a cell index. */
  predicate InRow(idx: nat, row: nat) { idx / 9 == row }
  predicate InColumn(idx: nat, column: nat) { idx % 9 == column }
  predicate InBlock(idx: nat, blockX: nat, blockY: nat) {
    (idx % 9) / 3 == blockX && (idx / 9) / 3 == blockY
  }

  /** `get_index_in_row`: the i-th cell of a row. */
  function IndexInRow(row: nat, i: nat): (idx: nat)
    ensures i < 9 ==> InRow(idx, row) && idx % 9 == i
    ensures row < 9 && i < 9 ==> idx < 81
  {
    row * 9 + i
  }

  /** `get_index_in_column`: the i-th cell of a column. */
  function IndexInColumn(column: nat, i: nat): (idx: nat)
    ensures column < 9 ==> InColumn(idx, column) && idx / 9 == i
    ensures column < 9 && i < 9 ==> idx < 81
  {
    i * 9 + column
  }

  /** `get_index_in_block`: the i-th cell of a 3x3 block, row by row. */
  function IndexInBlock(blockX: nat, blockY: nat, i: nat): nat {
    blockY * 3 * 9 + (i / 3) * 9 + blockX * 3 + i % 3
  }

  /** Position of a cell inside its block, the inverse of `IndexInBlock`. */
  function PosInBlock(idx: nat): nat { ((idx / 9) % 3) * 3 + (idx % 9) % 3 }

  lemma RowIndices(row: nat)
    requires row < 9
    ensures forall i :: 0 <= i < 9 ==> IndexInRow(row, i) < 81 && InRow(IndexInRow(row, i), row)
    ensures forall i, j :: 0 <= i < 9 && 0 <= j < 9 && IndexInRow(row, i) == IndexInRow(row, j) ==> i == j
    ensures forall idx :: 0 <= idx < 81 && InRow(idx, row) ==> IndexInRow(row, idx % 9) == idx
  {
  }

  lemma ColumnIndices(column: nat)
    requires column < 9
    ensures forall i :: 0 <= i < 9 ==> IndexInColumn(column, i) < 81 && InColumn(IndexInColumn(column, i), column)
    ensures forall i, j :: 0 <= i < 9 && 0 <= j < 9 && IndexInColumn(column, i) == IndexInColumn(column, j) ==> i == j
    ensures forall idx :: 0 <= idx < 81 && InColumn(idx, column) ==> IndexInColumn(column, idx / 9) == idx
  {
  }

  /** The i-th cell of block (bx, by) lies in column 3bx + i%3 of row 3by + i/3. */
  lemma BlockCell(blockX: nat, blockY: nat, i: nat)
    requires blockX < 3 && blockY < 3 && i < 9
    ensures IndexInBlock(blockX, blockY, i) < 81
    ensures IndexInBlock(blockX, blockY, i) % 9 == blockX * 3 + i % 3
    ensures IndexInBlock(blockX, blockY, i) / 9 == blockY * 3 + i / 3
    ensures InBlock(IndexInBlock(blockX, blockY, i), blockX, blockY)
    ensures PosInBlock(IndexInBlock(blockX, blockY, i)) == i
  {
    var a, b := blockY * 3 + i / 3, blockX * 3 + i % 3;
    assert IndexInBlock(blockX, blockY, i) == a * 9 + b;
    DivMod9(a, b);
    DivMod3(blockX, i % 3);
    DivMod3(blockY, i / 3);
  }

  /** Division by 9 undoes `q * 9 + r` for `r < 9`. */
  lemma DivMod9(q: nat, r: nat)
    requires r < 9
    ensures (q * 9 + r) / 9 == q && (q * 9 + r) % 9 == r
  {
  }

  /** Division by 3 undoes `q * 3 + r` for `r < 3`. */
  lemma DivMod3(q: nat, r: nat)
    requires r < 3
    ensures (q * 3 + r) / 3 == q && (q * 3 + r) % 3 == r
  {
  }

  lemma BlockIndices(blockX: nat, blockY: nat)
    requires blockX < 3 && blockY < 3
    ensures forall i :: 0 <= i < 9 ==> IndexInBlock(blockX, blockY, i) < 81 && InBlock(IndexInBlock(blockX, blockY, i), blockX, blockY)
    ensures forall i, j :: 0 <= i < 9 && 0 <= j < 9 && IndexInBlock(blockX, blockY, i) == IndexInBlock(blockX, blockY, j) ==> i == j
    ensures forall idx :: 0 <= idx < 81 && InBlock(idx, blockX, blockY) ==> IndexInBlock(blockX, blockY, PosInBlock(idx)) == idx
  {
    forall i | 0 <= i < 9
      ensures IndexInBlock(blockX, blockY, i) < 81 && InBlock(IndexInBlock(blockX, blockY, i), blockX, blockY)
      ensures PosInBlock(IndexInBlock(blockX, blockY, i)) == i
    {
      BlockCell(blockX, blockY, i);
    }
    forall idx | 0 <= idx < 81 && InBlock(idx, blockX, blockY)
      ensures IndexInBlock(blockX, blockY, PosInBlock(idx)) == idx
    {
      BlockCover(blockX, blockY, idx);
    }
  }

  /** A cell of block (bx, by) is the block's `PosInBlock`-th cell. */
  lemma BlockCover(blockX: nat, blockY: nat, idx: nat)
    requires blockX < 3 && blockY < 3 && InBlock(idx, blockX, blockY)
    ensures IndexInBlock(blockX, blockY, PosInBlock(idx)) == idx
  {
    var c, r := idx % 9, idx / 9;
    var p := PosInBlock(idx);
    assert c == blockX * 3 + c % 3 && r == blockY * 3 + r % 3;
    assert p == (r % 3) * 3 + c % 3;
    DivMod3(r % 3, c % 3);
    assert IndexInBlock(blockX, blockY, p) == (blockY * 3 + r % 3) * 9 + (blockX * 3 + c % 3);
  }

  /**
   * Two cells share a row, a column or a block. A cell is related to itself;
   * these are exactly the cells whose masks `insert_value` touches.
   */
  predicate Related(p: nat, q: nat) {
    InRow(p, q / 9) || InColumn(p, q % 9) || InBlock(p, (q % 9) / 3, (q / 9) / 3)
  }

  lemma RelatedSymmetric(p: nat, q: nat)
    ensures Related(p, q) <==> Related(q, p)
  {
  }

  /** `convert_to_bitmask` followed by the two updates of `insert_value`. */
  function CellUpdate(m: Word, prev: nat, value: nat): (r: Word)
    requires prev <= 9 && value <= 9
    ensures forall k :: 0 <= k < 16 ==>
      r[k] == ((m[k] && !(prev != 0 && k == prev - 1)) || (value != 0 && k == value - 1))
  {
    Or(And(m, Not(ToBitmask(prev))), ToBitmask(value))
  }

  /**
   * The masks after `insert_value` puts `value` into cell `idx` that held
   * `prev`: every related cell loses `prev`'s bit and gains `value`'s.
   */
  function PlaceMasks(sol: seq<Word>, idx: nat, prev: nat, value: nat): (r: seq<Word>)
    requires |sol| == 81 && prev <= 9 && value <= 9
    ensures |r| == 81
    ensures forall c :: 0 <= c < 81 && !Related(c, idx) ==> r[c] == sol[c]
    ensures value != 0 ==> forall c :: 0 <= c < 81 && Related(c, idx) ==> Excluded(r[c], value)
    ensures prev != 0 && prev != value ==> forall c :: 0 <= c < 81 && Related(c, idx) ==> !Excluded(r[c], prev)
  {
    seq(81, c requires 0 <= c < 81 => if Related(c, idx) then CellUpdate(sol[c], prev, value) else sol[c])
  }

  /**
   * Inserting into an empty cell only adds the value's bit: each related
   * mask becomes `old | (1 << (value - 1))`, every other mask is unchanged.
   */
  lemma PlaceIntoEmptyMasks(sol: seq<Word>, idx: nat, value: nat)
    requires |sol| == 81 && value <= 9
    ensures forall c :: 0 <= c < 81 ==>
      PlaceMasks(sol, idx, 0, value)[c] == if Related(c, idx) then Or(sol[c], ToBitmask(value)) else sol[c]
  {
    forall c | 0 <= c < 81 && Related(c, idx)
      ensures PlaceMasks(sol, idx, 0, value)[c] == Or(sol[c], ToBitmask(value))
    {
      var a, b := PlaceMasks(sol, idx, 0, value)[c], Or(sol[c], ToBitmask(value));
      assert forall k :: 0 <= k < 16 ==> a[k] == b[k];
    }
  }

  /**
   * The cells whose masks the first i rounds of the `for i in 0..9` loop of
   * `insert_value` at (x, y) have updated.
   */
  predicate Touched(c: nat, x: nat, y: nat, i: nat) {
    (InRow(c, y) && c % 9 < i) || (InColumn(c, x) && c / 9 < i) || (InBlock(c, x / 3, y / 3) && PosInBlock(c) < i)
  }

  /** Round i updates the i-th cell of the row, of the column and of the block. */
  lemma TouchedStep(c: nat, x: nat, y: nat, i: nat)
    requires c < 81 && x < 9 && y < 9 && i < 9
    ensures Touched(c, x, y, i + 1) <==>
      Touched(c, x, y, i) || c == IndexInRow(y, i) || c == IndexInColumn(x, i) || c == IndexInBlock(x / 3, y / 3, i)
  {
    RowIndices(y);
    ColumnIndices(x);
    BlockIndices(x / 3, y / 3);
    BlockCell(x / 3, y / 3, i);
  }

  /**
   * The invariant of the `for i in 0..9` loop: after round i the cells the
   * first i + 1 rounds reach hold their updated masks, all others the
   * original ones.
   */
  lemma TouchedRound(sol0: seq<Word>, s: seq<Word>, t: seq<Word>, x: nat, y: nat, i: nat, prev: nat, value: nat)
    requires |sol0| == 81 && |s| == 81 && |t| == 81 && x < 9 && y < 9 && i < 9 && prev <= 9 && value <= 9
    requires forall c :: 0 <= c < 81 ==>
      s[c] == if Touched(c, x, y, i) then CellUpdate(sol0[c], prev, value) else sol0[c]
    requires forall c :: 0 <= c < 81 ==>
      t[c] == if c == IndexInRow(y, i) || c == IndexInColumn(x, i) || c == IndexInBlock(x / 3, y / 3, i)
        then CellUpdate(s[c], prev, value) else s[c]
    ensures forall c :: 0 <= c < 81 ==>
      t[c] == if Touched(c, x, y, i + 1) then CellUpdate(sol0[c], prev, value) else sol0[c]
  {
    forall c | 0 <= c < 81
      ensures t[c] == if Touched(c, x, y, i + 1) then CellUpdate(sol0[c], prev, value) else sol0[c]
    {
      TouchedStep(c, x, y, i);
      CellUpdateIdem(sol0[c], prev, value);
    }
  }

  /** After all nine rounds, exactly the cells related to (x, y) are updated. */
  lemma TouchedAll(c: nat, x: nat, y: nat)
    requires c < 81 && x < 9 && y < 9
    ensures Touched(c, x, y, 9) <==> Related(c, TransformToIdx(x, y))
  {
    IdxOfXY(x, y);
  }

  /** The three clearing updates of one round of `insert_value`. */
  function ClearRound(s: seq<Word>, r: nat, co: nat, bl: nat, prev: nat): seq<Word>
    requires |s| == 81 && r < 81 && co < 81 && bl < 81 && prev <= 9
  {
    var n := Not(ToBitmask(prev));
    var s1 := s[r := And(s[r], n)];
    var s2 := s1[co := And(s1[co], n)];
    s2[bl := And(s2[bl], n)]
  }

  /** The three setting updates of one round of `insert_value`. */
  function SetRound(s: seq<Word>, r: nat, co: nat, bl: nat, value: nat): seq<Word>
    requires |s| == 81 && r < 81 && co < 81 && bl < 81 && value <= 9
  {
    var b := ToBitmask(value);
    var s1 := s[r := Or(s[r], b)];
    var s2 := s1[co := Or(s1[co], b)];
    s2[bl := Or(s2[bl], b)]
  }

  lemma AndIdem(a: Word, b: Word)
    ensures And(And(a, b), b) == And(a, b)
  {
    assert forall k :: 0 <= k < 16 ==> And(And(a, b), b)[k] == And(a, b)[k];
  }

  lemma OrIdem(a: Word, b: Word)
    ensures Or(Or(a, b), b) == Or(a, b)
  {
    assert forall k :: 0 <= k < 16 ==> Or(Or(a, b), b)[k] == Or(a, b)[k];
  }

  /**
   * One full round, whatever coincidences among its three cells: each of
   * them ends with `CellUpdate` applied, every other cell is unchanged.
   */
  lemma RoundCells(s: seq<Word>, r: nat, co: nat, bl: nat, prev: nat, value: nat)
    requires |s| == 81 && r < 81 && co < 81 && bl < 81 && prev <= 9 && value <= 9
    ensures forall c :: 0 <= c < 81 ==>
      SetRound(if prev != 0 then ClearRound(s, r, co, bl, prev) else s, r, co, bl, value)[c]
        == if c == r || c == co || c == bl then CellUpdate(s[c], prev, value) else s[c]
  {
    var n, b := Not(ToBitmask(prev)), ToBitmask(value);
    var t := if prev != 0 then ClearRound(s, r, co, bl, prev) else s;
    forall c | 0 <= c < 81
      ensures t[c] == if c == r || c == co || c == bl then (if prev != 0 then And(s[c], n) else s[c]) else s[c]
    {
      AndIdem(s[c], n);
    }
    forall c | 0 <= c < 81
      ensures SetRound(t, r, co, bl, value)[c] == if c == r || c == co || c == bl then Or(t[c], b) else t[c]
    {
      OrIdem(t[c], b);
    }
    forall c | 0 <= c < 81 && (c == r || c == co || c == bl)
      ensures Or(t[c], b) == CellUpdate(s[c], prev, value)
    {
      assert forall k :: 0 <= k < 16 ==> Or(t[c], b)[k] == CellUpdate(s[c], prev, value)[k];
    }
  }

  lemma CellUpdateIdem(m: Word, prev: nat, value: nat)
    requires prev <= 9 && value <= 9
    ensures CellUpdate(CellUpdate(m, prev, value), prev, value) == CellUpdate(m, prev, value)
  {
    assert forall k :: 0 <= k < 16 ==>
      CellUpdate(CellUpdate(m, prev, value), prev, value)[k] == CellUpdate(m, prev, value)[k];
  }

  /** Masks below 512: only the bits of the values 1..9 are ever set. */
  predicate AllNineBits(sol: seq<Word>) {
    forall c :: 0 <= c < |sol| ==> NineBits(sol[c])
  }

  lemma PlaceMasksNineBits(sol: seq<Word>, idx: nat, prev: nat, value: nat)
    requires |sol| == 81 && prev <= 9 && value <= 9 && AllNineBits(sol)
    ensures AllNineBits(PlaceMasks(sol, idx, prev, value))
  {
  }

  /** `is_valid`: no empty cell has nine or more excluded values. */
  predicate IsValid(board: seq<nat>, sol: seq<Word>)
    requires |board| == 81 && |sol| == 81
  {
    !exists idx :: 0 <= idx < 81 && board[idx] == 0 && CountOnes(sol[idx]) >= 9
  }

  /** `is_valid` means that every empty cell still has a candidate value. */
  lemma ValidIffCandidates(board: seq<nat>, sol: seq<Word>)
    requires |board| == 81 && |sol| == 81 && AllNineBits(sol)
    ensures IsValid(board, sol) <==> forall idx :: 0 <= idx < 81 && board[idx] == 0 ==> Candidates(sol[idx]) != []
  {
    forall idx | 0 <= idx < 81
      ensures CountOnes(sol[idx]) >= 9 <==> Candidates(sol[idx]) == []
    {
      FullMask(sol[idx]);
    }
  }

  /** The board of `Sudoku::new`, every cell empty and every mask zero, is valid. */
  lemma EmptyBoardValid()
    ensures IsValid(seq(81, _ => 0), seq(81, _ => Zero()))
  {
    OnesFromNone(Zero(), 0);
  }

  /** On the board of `Sudoku::new` the masks agree with the placed values. */
  lemma EmptyBoardConsistent()
    ensures Consistent(seq(81, _ => 0), seq(81, _ => Zero()))
  {
    var board: seq<nat> := seq(81, _ => 0);
    forall c | 0 <= c < 81 ensures PeerMask(board, c) == Zero() {
      assert forall k :: 0 <= k < 16 ==> !PeerMask(board, c)[k];
    }
  }

  /**
   * The three rejections of `insert_value`: a coordinate above 8, a value
   * above 9, or a value already excluded in the target cell.
   */
  predicate InsertAccepted(sol: seq<Word>, x: nat, y: nat, value: nat)
    requires |sol| == 81
  {
    x <= 8 && y <= 8 && value <= 9 && (value == 0 || !Excluded(sol[TransformToIdx(x, y)], value))
  }

  /** `is_solved`: no cell is empty. */
  predicate IsSolved(board: seq<nat>)
    requires |board| == 81
  {
    forall idx :: 0 <= idx < 81 ==> board[idx] != 0
  }

  /** The empty cells, the measure `fill_board` decreases. */
  function EmptyCells(board: seq<nat>): (e: set<nat>)
    requires |board| == 81
    ensures e == {} <==> IsSolved(board)
  {
    var e := set idx | 0 <= idx < 81 && board[idx] == 0;
    if !IsSolved(board) then
      var idx :| 0 <= idx < 81 && board[idx] == 0;
      assert idx in e;
      e
    else
      e
  }

  /** Filling one empty cell, and nothing else, shrinks the set of empty cells. */
  lemma FillShrinks(board0: seq<nat>, board1: seq<nat>, idx: nat)
    requires |board0| == 81 && |board1| == 81 && idx < 81
    requires board0[idx] == 0 && board1[idx] != 0
    requires forall j :: 0 <= j < 81 && j != idx ==> board1[j] == board0[j]
    ensures EmptyCells(board1) < EmptyCells(board0)
  {
    assert EmptyCells(board1) == EmptyCells(board0) - {idx};
  }

  /**
   * Cell i is preferred to cell j by `find_lowest`: the pair
   * (`count_zeros` of the mask, index) is lexicographically not larger.
   */
  predicate Preferred(sol: seq<Word>, i: nat, j: nat)
    requires i < |sol| && j < |sol|
  {
    CountZeros(sol[i]) < CountZeros(sol[j]) || (CountZeros(sol[i]) == CountZeros(sol[j]) && i <= j)
  }

  /** The `count_zeros` of every mask, the first half of the pairs `find_lowest` compares. */
  function ZeroCounts(sol: seq<Word>): (z: seq<nat>)
    ensures |z| == |sol|
  {
    seq(|sol|, i requires 0 <= i < |sol| => CountZeros(sol[i]))
  }

  /** The pair (z[i], i) is lexicographically not larger than (z[j], j). */
  predicate KeyBefore(z: seq<nat>, i: nat, j: nat)
    requires i < |z| && j < |z|
  {
    z[i] < z[j] || (z[i] == z[j] && i <= j)
  }

  /** The `min` of the pairs (z[i], i) over the empty cells among the first n. */
  function LowestBelow(board: seq<nat>, z: seq<nat>, n: nat): (r: Option<nat>)
    requires |board| == 81 && |z| == 81 && n <= 81
    ensures r.None? <==> forall j :: 0 <= j < n ==> board[j] != 0
    ensures r.Some? ==> r.value < n && board[r.value] == 0
  {
    if n == 0 then None
    else
      var r := LowestBelow(board, z, n - 1);
      if board[n - 1] != 0 then r
      else if r.None? || z[n - 1] < z[r.value] then Some(n - 1)
      else r
  }

  /** The cell `LowestBelow` returns has the least pair (z[j], j) among the empty cells. */
  lemma {:induction false} LowestBelowMin(board: seq<nat>, z: seq<nat>, n: nat)
    requires |board| == 81 && |z| == 81 && n <= 81
    ensures var r := LowestBelow(board, z, n);
      r.Some? ==> forall j :: 0 <= j < n && board[j] == 0 ==> KeyBefore(z, r.value, j)
    decreases n
  {
    if n > 0 {
      LowestBelowMin(board, z, n - 1);
    }
  }

  /**
   * `find_lowest`: None when no cell is empty, otherwise the empty cell
   * with the fewest clear mask bits, the lowest index among equals.
   */
  function FindLowest(board: seq<nat>, sol: seq<Word>): (r: Option<nat>)
    requires |board| == 81 && |sol| == 81
    ensures r.None? <==> IsSolved(board)
    ensures r.Some? ==> r.value < 81 && board[r.value] == 0
    ensures r.Some? ==> forall j {:trigger Preferred(sol, r.value, j)} :: 0 <= j < 81 && board[j] == 0 ==> Preferred(sol, r.value, j)
  {
    var z := ZeroCounts(sol);
    LowestBelowMin(board, z, 81);
    LowestBelow(board, z, 81)
  }

  /** Only one cell can be the result of `find_lowest`. */
  lemma PreferredUnique(sol: seq<Word>, i: nat, j: nat)
    requires i < |sol| && j < |sol| && Preferred(sol, i, j) && Preferred(sol, j, i)
    ensures i == j
  {
  }

  /** Under masks below 512, an empty valid cell selected always has a candidate. */
  lemma LowestHasCandidate(board: seq<nat>, sol: seq<Word>)
    requires |board| == 81 && |sol| == 81 && AllNineBits(sol)
    requires IsValid(board, sol) && !IsSolved(board)
    ensures FindLowest(board, sol).Some?
    ensures Candidates(sol[FindLowest(board, sol).value]) != []
  {
    ValidIffCandidates(board, sol);
  }

  /**
   * The mask a cell should carry: the bits of the values placed in its
   * row, column and block (itself included).
   */
  function PeerMask(board: seq<nat>, c: nat): (m: Word)
    requires |board| == 81
    ensures forall k :: 0 <= k < 16 ==> (m[k] <==> exists p :: 0 <= p < 81 && Related(p, c) && board[p] == k + 1)
  {
    seq(16, k requires 0 <= k < 16 => exists p :: 0 <= p < 81 && Related(p, c) && board[p] == k + 1)
  }

  /** Every mask holds exactly the values placed among the cell's peers. */
  predicate Consistent(board: seq<nat>, sol: seq<Word>)
    requires |board| == 81 && |sol| == 81
  {
    forall c :: 0 <= c < 81 ==> sol[c] == PeerMask(board, c)
  }

  /**
   * Placing a value into an EMPTY cell keeps the masks consistent with the
   * board.
   */
  lemma PlaceIntoEmptyConsistent(board: seq<nat>, sol: seq<Word>, idx: nat, value: nat)
    requires |board| == 81 && |sol| == 81 && idx < 81 && value <= 9
    requires Consistent(board, sol) && board[idx] == 0
    ensures Consistent(board[idx := value], PlaceMasks(sol, idx, 0, value))
  {
    var board', sol' := board[idx := value], PlaceMasks(sol, idx, 0, value);
    forall c | 0 <= c < 81 ensures sol'[c] == PeerMask(board', c) {
      forall k | 0 <= k < 16 ensures sol'[c][k] == PeerMask(board', c)[k] {
        if sol'[c][k] {
          if sol[c][k] {
            var p :| 0 <= p < 81 && Related(p, c) && board[p] == k + 1;
            assert board'[p] == k + 1;
          } else {
            RelatedSymmetric(c, idx);
            assert board'[idx] == k + 1;
          }
        }
        if PeerMask(board', c)[k] {
          var p :| 0 <= p < 81 && Related(p, c) && board'[p] == k + 1;
          if p != idx {
            assert PeerMask(board, c)[k];
          } else {
            RelatedSymmetric(c, idx);
          }
        }
      }
    }
  }

  /**
   * Re-placing a value does not keep the masks consistent: clearing the old
   * value's bit from every related cell also clears it where another cell
   * holding the same value still excludes it.
   */
  lemma RePlacementLosesExclusion(board: seq<nat>, sol: seq<Word>, idx: nat, other: nat, c: nat, value: nat)
    requires |board| == 81 && |sol| == 81 && idx < 81 && other < 81 && c < 81 && value <= 9
    requires Consistent(board, sol)
    requires 1 <= board[idx] <= 9 && board[other] == board[idx] && other != idx && value != board[idx]
    requires Related(c, idx) && Related(other, c)
    ensures PlaceMasks(sol, idx, board[idx], value)[c] != PeerMask(board[idx := value], c)
    ensures !Consistent(board[idx := value], PlaceMasks(sol, idx, board[idx], value))
  {
    var k := board[idx] - 1;
    assert board[idx := value][other] == k + 1;
    assert PeerMask(board[idx := value], c)[k];
    assert !PlaceMasks(sol, idx, board[idx], value)[c][k];
  }
}
