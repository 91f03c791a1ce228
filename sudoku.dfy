/**
 * `impl Sudoku`: the two 81-cell boards updated in place, the candidate
 * decoder, the checked insertion and the randomized generator.
 */
module SudokuGenerator {
  import opened Masks
  import opened SudokuBoard

  class Sudoku {
    /** `board`: the value of each cell, 0 for an empty one. */
    const board: array<nat>
    /** `sol_board`: the exclusion mask of each cell. */
    const solBoard: array<Word>

    /** Both boards have 81 cells, values are 0..9 and masks are below 512. */
    ghost predicate Valid()
      reads board, solBoard
    {
      board.Length == 81 && solBoard.Length == 81
      && (forall i :: 0 <= i < 81 ==> board[i] <= 9)
      && AllNineBits(solBoard[..])
    }

    /** `Sudoku::new`: all cells empty, all masks zero. */
    constructor New()
      ensures Valid() && fresh(board) && fresh(solBoard)
      ensures board[..] == seq(81, _ => 0) && solBoard[..] == seq(81, _ => Zero())
    {
      board := new nat[81](_ => 0);
      solBoard := new Word[81](_ => Zero());
    }

    /**
     * `fill_board`: while a cell is empty, picks the empty cell with the
     * most excluded values, inserts a random candidate of it and, while the
     * board is not valid, redraws from the same candidate list. One redraw
     * counter serves the whole call; on its ninth redraw both boards are
     * cleared and the generator starts over. `restarts` bounds the number
     * of such restarts: when it is used up the model gives up on the
     * cleared board and returns false.
     */
    method FillBoard(restarts: nat) returns (filled: bool)
      requires Valid() && IsValid(board[..], solBoard[..])
      modifies board, solBoard
      ensures Valid()
      ensures filled ==> IsSolved(board[..]) && IsValid(board[..], solBoard[..])
      ensures !filled ==> board[..] == seq(81, _ => 0) && solBoard[..] == seq(81, _ => Zero())
      decreases restarts
    {
      var xx := 0;
      while !IsSolved(board[..])
        invariant Valid() && IsValid(board[..], solBoard[..])
        invariant xx <= 8
        decreases EmptyCells(board[..])
      {
        var valid;
        xx, valid := PlaceLowest(xx);
        if !valid {
          ClearBoards();
          if restarts == 0 {
            return false;
          }
          EmptyBoardValid();
          filled := FillBoard(restarts - 1);
          return;
        }
      }
      filled := true;
    }

    /**
     * One pass of the outer loop of `fill_board`: fills the preferred empty
     * cell with a random candidate and redraws until the board is valid.
     * On success the cell `find_lowest` selected holds one of its
     * candidates and every other cell keeps its value; otherwise the
     * counter has run out.
     */
    method PlaceLowest(xx0: nat) returns (xx: nat, valid: bool)
      requires Valid() && IsValid(board[..], solBoard[..]) && !IsSolved(board[..]) && xx0 <= 8
      modifies board, solBoard
      ensures Valid()
      ensures valid ==> xx <= 8 && IsValid(board[..], solBoard[..])
      ensures valid ==> EmptyCells(board[..]) < EmptyCells(old(board[..]))
      ensures valid ==> var i := FindLowest(old(board[..]), old(solBoard[..])).value;
        i < 81 && board[i] in Candidates(old(solBoard[i]))
        && forall j :: 0 <= j < 81 && j != i ==> board[j] == old(board[j])
      ensures !valid ==> xx == 9
    {
      ghost var board0 := board[..];
      var x, y, numbers := InsertLowest();
      xx, valid := Redraw(x, y, numbers, xx0, board0);
      if valid {
        FillShrinks(board0, board[..], TransformToIdx(x, y));
      }
    }

    /**
     * The start of one pass of the outer loop: `find_lowest` picks the
     * cell, `get_possible_numbers` lists its candidates, and one of them is
     * inserted. The insertion is always accepted, because a candidate is a
     * value the cell's mask does not exclude.
     */
    method InsertLowest() returns (x: nat, y: nat, numbers: seq<nat>)
      requires Valid() && IsValid(board[..], solBoard[..]) && !IsSolved(board[..])
      modifies board, solBoard
      ensures Valid() && x < 9 && y < 9
      ensures TransformToIdx(x, y) == FindLowest(old(board[..]), old(solBoard[..])).value
      ensures old(board[TransformToIdx(x, y)]) == 0
      ensures numbers == Candidates(old(solBoard[TransformToIdx(x, y)])) && numbers != []
      ensures forall v :: v in numbers ==> 1 <= v <= 9
      ensures board[TransformToIdx(x, y)] in numbers
      ensures forall j :: 0 <= j < 81 && j != TransformToIdx(x, y) ==> board[j] == old(board[j])
    {
      LowestHasCandidate(board[..], solBoard[..]);
      var lowest := FindLowest(board[..], solBoard[..]).value;
      var xy := TransformToXY(lowest);
      x, y := xy.0, xy.1;
      XYOfIdx(lowest);
      numbers := GetPossibleNumbers(solBoard[lowest]);
      var k :| 0 <= k < |numbers|;
      assert numbers[k] in numbers;
      var placed := InsertValue(x, y, numbers[k]);
      assert placed;
    }

    /**
     * The inner loop of `fill_board`: while the board is not valid, bumps
     * the shared counter and re-inserts a random value of the stale
     * candidate list at (x, y). Returns `valid` false, without inserting,
     * once the counter passes 8.
     */
    method Redraw(x: nat, y: nat, numbers: seq<nat>, xx0: nat, ghost board0: seq<nat>)
      returns (xx: nat, valid: bool)
      requires Valid() && x < 9 && y < 9 && xx0 <= 8 && |board0| == 81
      requires numbers != [] && forall v :: v in numbers ==> 1 <= v <= 9
      requires board[TransformToIdx(x, y)] != 0
      requires forall j :: 0 <= j < 81 && j != TransformToIdx(x, y) ==> board[j] == board0[j]
      modifies board, solBoard
      ensures Valid() && xx0 <= xx
      ensures valid ==> xx <= 8 && IsValid(board[..], solBoard[..])
      ensures !valid ==> xx == 9
      ensures board[TransformToIdx(x, y)] != 0
      ensures forall j :: 0 <= j < 81 && j != TransformToIdx(x, y) ==> board[j] == board0[j]
      ensures old(board[TransformToIdx(x, y)]) in numbers ==> board[TransformToIdx(x, y)] in numbers
      ensures forall c :: 0 <= c < 81 && !Related(c, TransformToIdx(x, y)) ==> solBoard[c] == old(solBoard[c])
    {
      xx := xx0;
      ghost var first := board[TransformToIdx(x, y)];
      ghost var sol0 := solBoard[..];
      while !IsValid(board[..], solBoard[..])
        invariant Valid() && xx0 <= xx <= 8
        invariant board[TransformToIdx(x, y)] != 0
        invariant forall j :: 0 <= j < 81 && j != TransformToIdx(x, y) ==> board[j] == board0[j]
        invariant first in numbers ==> board[TransformToIdx(x, y)] in numbers
        invariant forall c :: 0 <= c < 81 && !Related(c, TransformToIdx(x, y)) ==> solBoard[c] == sol0[c]
        decreases 8 - xx
      {
        xx := xx + 1;
        if xx > 8 {
          return xx, false;
        }
        RedrawOnce(x, y, numbers, board0, sol0, first);
      }
      valid := true;
    }

    /**
     * One redraw inside the inner loop of `fill_board`: a random candidate
     * from `numbers` goes into (x, y). Cell (x, y) stays filled, every other
     * cell keeps its value, a value from `numbers` is replaced only by
     * another one, and masks outside the row, column and block of (x, y)
     * keep what they held before the pass.
     */
    method RedrawOnce(x: nat, y: nat, numbers: seq<nat>, ghost board0: seq<nat>, ghost sol0: seq<Word>, ghost first: nat)
      requires Valid() && x < 9 && y < 9 && |board0| == 81 && |sol0| == 81
      requires numbers != [] && forall v :: v in numbers ==> 1 <= v <= 9
      requires board[TransformToIdx(x, y)] != 0
      requires forall j :: 0 <= j < 81 && j != TransformToIdx(x, y) ==> board[j] == board0[j]
      requires first in numbers ==> board[TransformToIdx(x, y)] in numbers
      requires forall c :: 0 <= c < 81 && !Related(c, TransformToIdx(x, y)) ==> solBoard[c] == sol0[c]
      modifies board, solBoard
      ensures Valid()
      ensures board[TransformToIdx(x, y)] != 0
      ensures forall j :: 0 <= j < 81 && j != TransformToIdx(x, y) ==> board[j] == board0[j]
      ensures first in numbers ==> board[TransformToIdx(x, y)] in numbers
      ensures forall c :: 0 <= c < 81 && !Related(c, TransformToIdx(x, y)) ==> solBoard[c] == sol0[c]
    {
      var k :| 0 <= k < |numbers|;
      assert numbers[k] in numbers;
      var _ := InsertValue(x, y, numbers[k]);
    }

    /** The reset of `fill_board`: every cell and every mask back to zero. */
    method ClearBoards()
      requires Valid()
      modifies board, solBoard
      ensures Valid()
      ensures board[..] == seq(81, _ => 0) && solBoard[..] == seq(81, _ => Zero())
    {
      for i := 0 to 81
        invariant Valid()
        invariant forall j :: 0 <= j < i ==> board[j] == 0 && solBoard[j] == Zero()
      {
        solBoard[i] := Zero();
        board[i] := 0;
      }
    }

    /**
     * `insert_value`: rejects out-of-range coordinates, values above 9 and
     * values the cell's mask excludes, changing nothing; otherwise stores
     * the value and, in each of nine rounds, clears the previous value's
     * bit from and sets the new value's bit in the round's row, column
     * and block cell.
     */
    method InsertValue(x: nat, y: nat, value: nat) returns (placed: bool)
      requires Valid()
      modifies board, solBoard
      ensures Valid()
      ensures placed == InsertAccepted(old(solBoard[..]), x, y, value)
      ensures placed ==> board[..] == old(board[..])[TransformToIdx(x, y) := value]
      ensures placed ==> solBoard[..] == PlaceMasks(old(solBoard[..]), TransformToIdx(x, y), old(board[TransformToIdx(x, y)]), value)
      ensures !placed ==> board[..] == old(board[..]) && solBoard[..] == old(solBoard[..])
    {
      if x > 8 || y > 8 {
        return false;
      }
      if value > 9 {
        return false;
      }
      var idx := TransformToIdx(x, y);
      var available := solBoard[idx];
      BitTest(available, value);
      if And(available, ToBitmask(value)) != Zero() {
        return false;
      }
      var prev := board[idx];
      board[idx] := value;
      UpdateMasks(x, y, prev, value);
      PlaceMasksNineBits(old(solBoard[..]), idx, prev, value);
      return true;
    }

    /**
     * The `for i in 0..9` loop of `insert_value`: round i updates the i-th
     * cell of the row, of the column and of the block of (x, y), clearing
     * `prev`'s bit (when `prev` is not 0) and then setting `value`'s.
     */
    method UpdateMasks(x: nat, y: nat, prev: nat, value: nat)
      requires x < 9 && y < 9 && prev <= 9 && value <= 9 && solBoard.Length == 81
      modifies solBoard
      ensures solBoard[..] == PlaceMasks(old(solBoard[..]), TransformToIdx(x, y), prev, value)
    {
      var row, column, blockX, blockY := y, x, x / 3, y / 3;
      ghost var sol0 := solBoard[..];
      for i := 0 to 9
        invariant forall c :: 0 <= c < 81 ==>
          solBoard[c] == if Touched(c, x, y, i) then CellUpdate(sol0[c], prev, value) else sol0[c]
      {
        var r, co, bl := IndexInRow(row, i), IndexInColumn(column, i), IndexInBlock(blockX, blockY, i);
        BlockCell(blockX, blockY, i);
        ghost var before := solBoard[..];
        RoundUpdate(r, co, bl, prev, value);
        TouchedRound(sol0, before, solBoard[..], x, y, i, prev, value);
      }
      forall c | 0 <= c < 81 ensures solBoard[c] == PlaceMasks(sol0, TransformToIdx(x, y), prev, value)[c] {
        TouchedAll(c, x, y);
      }
    }

    /**
     * One round of the loop of `insert_value`: the row, column and block
     * cell of the round each get `CellUpdate`, every other mask is kept.
     */
    method RoundUpdate(r: nat, co: nat, bl: nat, prev: nat, value: nat)
      requires solBoard.Length == 81 && r < 81 && co < 81 && bl < 81 && prev <= 9 && value <= 9
      modifies solBoard
      ensures forall c :: 0 <= c < 81 ==>
        solBoard[c] == if c == r || c == co || c == bl then CellUpdate(old(solBoard[c]), prev, value) else old(solBoard[c])
    {
      ghost var before := solBoard[..];
      if prev != 0 {
        ClearCells(r, co, bl, prev);
      }
      SetCells(r, co, bl, value);
      RoundCells(before, r, co, bl, prev, value);
    }

    /** The three clearing updates of one round of `insert_value`. */
    method ClearCells(r: nat, co: nat, bl: nat, prev: nat)
      requires solBoard.Length == 81 && r < 81 && co < 81 && bl < 81 && prev <= 9
      modifies solBoard
      ensures solBoard[..] == ClearRound(old(solBoard[..]), r, co, bl, prev)
    {
      solBoard[r] := And(solBoard[r], Not(ToBitmask(prev)));
      solBoard[co] := And(solBoard[co], Not(ToBitmask(prev)));
      solBoard[bl] := And(solBoard[bl], Not(ToBitmask(prev)));
    }

    /** The three setting updates of one round of `insert_value`. */
    method SetCells(r: nat, co: nat, bl: nat, value: nat)
      requires solBoard.Length == 81 && r < 81 && co < 81 && bl < 81 && value <= 9
      modifies solBoard
      ensures solBoard[..] == SetRound(old(solBoard[..]), r, co, bl, value)
    {
      solBoard[r] := Or(solBoard[r], ToBitmask(value));
      solBoard[co] := Or(solBoard[co], ToBitmask(value));
      solBoard[bl] := Or(solBoard[bl], ToBitmask(value));
    }

    /**
     * The `for _ in 0..ones` loop: pushes the values x, x + 1, ... of a run
     * of `ones` set bits at the bottom of `bits`, returning early (`done`)
     * once a value passes 9.
     */
    static method PushRun(ghost m: Word, bits: Word, ones: nat, vec0: seq<nat>, x0: nat)
      returns (done: bool, vec: seq<nat>, x: nat)
      requires 1 <= x0 <= 17 && bits == Shr(Not(m), x0 - 1)
      requires ones == TrailingOnes(bits)
      requires vec0 == CandidatesBelow(m, x0)
      ensures done ==> vec == Candidates(m)
      ensures !done ==> x == x0 + ones && (ones > 0 ==> x <= 10) && vec == CandidatesBelow(m, x)
    {
      vec, x := vec0, x0;
      var k := 0;
      while k < ones
        invariant k <= ones && x == x0 + k
        invariant k > 0 ==> x <= 10
        invariant vec == CandidatesBelow(m, x)
      {
        if x > 9 {
          CandidatesBelowSettled(m, 10, x);
          return true, vec, x;
        }
        ShrNotBit(m, x0 - 1, k);
        CandidatesBelowPush(m, x);
        vec := vec + [x];
        x := x + 1;
        k := k + 1;
      }
      done := false;
    }

    /**
     * The inner `while` loop: shifts out the clear bits below the next run,
     * each one an excluded value.
     */
    static method SkipClear(ghost m: Word, bits0: Word, x0: nat)
      returns (bits: Word, x: nat)
      requires 1 <= x0 <= 17 && bits0 == Shr(Not(m), x0 - 1)
      ensures x0 <= x <= 17 && bits == Shr(Not(m), x - 1)
      ensures forall v :: x0 <= v < x ==> Excluded(m, v)
      ensures bits0 != Zero() && TrailingOnes(bits0) == 0 ==> x > x0
      ensures TrailingOnes(bits) != 0 || bits == Zero()
    {
      bits, x := bits0, x0;
      while TrailingOnes(bits) == 0 && bits != Zero()
        invariant x0 <= x <= 17 && bits == Shr(Not(m), x - 1)
        invariant forall v :: x0 <= v < x ==> Excluded(m, v)
        decreases 17 - x
      {
        SkipStep(m, bits, x);
        bits := Shr(bits, 1);
        x := x + 1;
      }
    }

    /**
     * One round of the skipping loop: a clear low bit of `!m >> (x - 1)`
     * means value x is excluded, so shifting it out moves on to x + 1
     * without a candidate.
     */
    static lemma SkipStep(m: Word, bits: Word, x: nat)
      requires 1 <= x <= 17 && bits == Shr(Not(m), x - 1)
      requires TrailingOnes(bits) == 0 && bits != Zero()
      ensures x <= 16 && Shr(bits, 1) == Shr(Not(m), x)
      ensures Excluded(m, x)
    {
      if x == 17 {
        ShrAll(Not(m));
      }
      ShrNotBit(m, x - 1, 0);
      ShrCompose(Not(m), x - 1, 1);
    }

    /**
     * `get_possible_numbers`: scans the complement of the mask run by run,
     * pushing the values of set runs and skipping the clear bits between
     * them, and stops once a value passes 9.
     */
    static method GetPossibleNumbers(bitmask: Word) returns (vec: seq<nat>)
      ensures vec == Candidates(bitmask)
    {
      var bits := Not(bitmask);
      vec := [];
      var x: nat := 1;
      assert bits == Shr(Not(bitmask), 0);
      while bits != Zero()
        invariant 1 <= x <= 17
        invariant bits == Shr(Not(bitmask), x - 1)
        invariant vec == CandidatesBelow(bitmask, x)
        decreases 17 - x
      {
        ghost var x0 := x;
        var ones := TrailingOnes(bits);
        if ones > 17 - x0 {
          ShrNotBit(bitmask, x0 - 1, 17 - x0);
        }
        var done;
        done, vec, x := PushRun(bitmask, bits, ones, vec, x);
        if done {
          return;
        }
        // a u16 shift must be below 16; a run reaching past 9 has returned
        assert ones < 16;
        ShrCompose(Not(bitmask), x0 - 1, ones);
        bits := Shr(bits, ones);
        ghost var x1 := x;
        bits, x := SkipClear(bitmask, bits, x);
        CandidatesBelowSettled(bitmask, x1, x);
      }
      ScanSettled(bitmask, x);
    }

    /** Once `!m >> (x - 1)` is zero, every value from x on is excluded. */
    static lemma ScanSettled(m: Word, x: nat)
      requires 1 <= x <= 17 && Shr(Not(m), x - 1) == Zero()
      ensures CandidatesBelow(m, x) == Candidates(m)
    {
      forall v | x <= v <= 16 ensures Excluded(m, v) {
        ShrNotBit(m, x - 1, v - x);
      }
      if x <= 10 {
        CandidatesBelowSettled(m, x, 10);
      } else {
        CandidatesBelowSettled(m, 10, x);
      }
    }
  }
}
