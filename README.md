# Sudoku generator and Minesweeper engine, modelled in Dafny

This project models the two grid engines of `mod game` in `src/main.rs`.

**Sudoku.** The state is two 81-cell arrays:
- `board` holds the values 0..9;
- `sol_board` holds one 16-bit exclusion mask per cell, where bit v-1 set means "v may not go here".

`insert_value` checks its arguments and stores a value. In each of nine rounds it then updates the masks of the row, column and block cells: it clears the bit of the cell's previous value and sets the bit of the new one. `fill_board` works through the board:
- it fills the empty cell whose mask excludes the most values;
- it picks a random candidate from `get_possible_numbers`;
- while the board is invalid, it redraws from the same candidate list;
- it clears everything and starts over once its one shared redraw counter passes 8.

**Minesweeper.** `game_move` is an ordered sequence of early exits (Useless, NotStarted, flag toggle, flagged cell). The lose branch reveals every mine. Revealing a safe cell shows its count. If the count is 0, `game_move` plays every hidden cell of the 3x3 window again, recursively.

Files:
- `masks.dfy` (module `Masks`): the u16 masks as 16-bit words, `convert_to_bitmask`, the bit counts, and the candidate list that `get_possible_numbers` decodes.
- `sudoku_board.dfy` (module `SudokuBoard`):
  - the index arithmetic;
  - the mask update of `insert_value` as a function on sequences;
  - `is_valid`, `is_solved` and `find_lowest`;
  - the lemmas about them.
- `sudoku.dfy` (module `SudokuGenerator`): class `Sudoku` over two `array`s, with the imperative `insert_value`, `fill_board` and `get_possible_numbers`.
- `mine_grid.dfy` (module `MineGrid`):
  - grids as `seq<seq<_>>`;
  - the clipped 3x3 window and its mine count;
  - mine counting;
  - the predicates that describe a reveal, and the lemmas that compose them.
- `minesweeper.dfy` (module `MinesweeperGame`): the `MoveResult` datatype and class `Minesweeper`, whose methods reassign the board fields as the Rust methods mutate them.

Where the code departs from the usual rules of the two games, the model follows the code:
- `count_adjacent` counts the whole clipped window, centre included. A mined cell therefore counts itself.
- Winning does not clear `game_started`.
- One redraw counter serves the whole `fill_board` call and is not reset per cell.

## Model

| member | source | states |
|---|---|---|
| Masks.Not | src/main.rs:84 | bit i of `!a` is the complement of bit i of a |
| Masks.And | src/main.rs:211-216 | bit i of `a & b` is set exactly when it is set in both |
| Masks.Or | src/main.rs:218-223 | bit i of `a \| b` is set exactly when it is set in either |
| Masks.Shr | src/main.rs:97-100 | `a >> n`: the bits of a from position n up, followed by n clear bits; `ShrBit` states each bit |
| Masks.ShrBit | src/main.rs:97-100 | bit i of `a >> n` is bit n+i of a, and the top n bits are clear |
| Masks.ToBitmask | src/main.rs:161-166 | the mask of value v has bit v-1 set and no other; the mask of 0 is empty |
| Masks.BitTest | src/main.rs:198-201 | `convert_to_bitmask` has bit v-1 alone set (none for 0), so `(m & convert_to_bitmask(v)) > 0` holds exactly when v is not 0 and bit v-1 of m is set |
| Masks.CountOnes | src/main.rs:117 | `count_ones` is at most 16, and is 16 exactly when every bit is set |
| Masks.CountZeros | src/main.rs:130 | `count_zeros`, counted as the set bits of `!m`, plus `count_ones` is 16 |
| Masks.OnesComplement | src/main.rs:130 | from any position up, every bit is set in exactly one of m and `!m`, so their set bits there number 16 minus the position |
| Masks.TrailingOnes | src/main.rs:88 | `trailing_ones`: the bits below it are set, and the bit at it is clear (when below 16) |
| Masks.ShrNotBit | src/main.rs:97-101 | after shifting `!m` right by s, bit k is set exactly when bit k+s of m is clear |
| Masks.Candidates | src/main.rs:83-105 | v is listed exactly when 1 <= v <= 9 and bit v-1 is clear |
| Masks.CandidatesAscending | src/main.rs:83-105 | the candidates come in strictly ascending order |
| Masks.CandidatesIgnoreHighBits | src/main.rs:91-93 | masks that agree on bits 0..8 have the same candidates, so bits 9..15 play no part |
| Masks.FullMask | src/main.rs:117 | for a mask with bits 9..15 clear, `count_ones() >= 9` holds exactly when all nine values are excluded, that is when no candidate is left |
| Masks.CandidatesOfMask1FC | src/main.rs:4 | 0b111111100 decodes to [1, 2] |
| Masks.CandidatesOfMask1FE | src/main.rs:5 | 0b111111110 decodes to [1] |
| Masks.CandidatesOfZero | src/main.rs:83-105 | 0 decodes to [1, ..., 9] |
| Masks.CandidatesOfFullMask | src/main.rs:83-105 | 0b111111111 decodes to [] |
| SudokuGenerator.Sudoku.GetPossibleNumbers | src/main.rs:83-105 | the shifting loop returns exactly the candidate list of the mask, in ascending order |
| SudokuGenerator.Sudoku.PushRun | src/main.rs:90-96 | the `for _ in 0..ones` loop appends the next run of allowed values, and returns the full list once a value passes 9 |
| SudokuGenerator.Sudoku.SkipClear | src/main.rs:99-102 | the inner `while` skips only excluded values and stops at a set bit or at an all-zero word |
| SudokuBoard.TransformToXY | src/main.rs:107-109 | the column is below 9, and for an index below 81 the row is too |
| SudokuBoard.TransformToIdx | src/main.rs:157-159 | coordinates below 9 give an index below 81 |
| SudokuBoard.XYOfIdx | src/main.rs:107-109 | `transform_to_idx(transform_to_x_y(idx)) == idx` |
| SudokuBoard.IdxOfXY | src/main.rs:157-159 | `transform_to_x_y(transform_to_idx(x, y)) == (x, y)` for x < 9 |
| SudokuBoard.IndexInRow | src/main.rs:136-138 | the i-th cell of a row, for i < 9, lies in that row at column i, and is below 81 for a row below 9 |
| SudokuBoard.IndexInColumn | src/main.rs:140-142 | the i-th cell of a column below 9 lies in that column at row i, and is below 81 for i < 9 |
| SudokuBoard.IndexInBlock | src/main.rs:144-155 | the i-th cell of block (bx, by), row by row; `BlockCell` and `BlockIndices` state where it lies |
| SudokuBoard.RowIndices | src/main.rs:136-138 | the nine row indices are below 81, lie in the row, are distinct and cover the row |
| SudokuBoard.ColumnIndices | src/main.rs:140-142 | the nine column indices are below 81, lie in the column, are distinct and cover the column |
| SudokuBoard.BlockIndices | src/main.rs:144-155 | the nine block indices are below 81, lie in the 3x3 block, are distinct and cover the block |
| SudokuBoard.CellUpdate | src/main.rs:210-223 | one cell's mask after one round: the previous value's bit is cleared and the new value's bit set, and all other bits are kept |
| SudokuBoard.PlaceMasks | src/main.rs:209-224 | after `insert_value` replaces prev by value at a cell, every mask outside its row, column and block is kept; inside them every mask excludes value (if not 0) and no longer excludes prev (if not 0 and not value) |
| SudokuBoard.PlaceIntoEmptyMasks | src/main.rs:209-224 | inserting into an empty cell turns each row, column and block mask into the old mask OR the bit and leaves every other mask as it was |
| SudokuBoard.PlaceMasksNineBits | src/main.rs:161-166 | the update writes bits 0..8 only, so masks stay below 512 |
| SudokuBoard.RoundCells | src/main.rs:209-224 | one round of the loop sets its row, column and block cell to their updated masks, and no other cell changes |
| SudokuBoard.TouchedAll | src/main.rs:209-224 | the nine rounds reach exactly the cells in the row, column or block of (x, y) |
| SudokuBoard.CellUpdateIdem | src/main.rs:209-224 | repeating the update on a cell the rounds reach twice (the cell itself, or a row cell that is also in the block) changes nothing |
| SudokuBoard.IsValid | src/main.rs:111-118 | `is_valid`: no empty cell has nine or more bits set; `ValidIffCandidates` gives its meaning |
| SudokuBoard.IsSolved | src/main.rs:120-122 | `is_solved`: no cell holds 0; `EmptyCells` is empty exactly then |
| SudokuBoard.ValidIffCandidates | src/main.rs:111-118 | `is_valid` holds exactly when every empty cell still has a candidate |
| SudokuBoard.EmptyCells | src/main.rs:120-122 | no cell is empty exactly when `is_solved` holds |
| SudokuBoard.FillShrinks | src/main.rs:62-80 | filling an empty cell and changing no other cell leaves strictly fewer empty cells |
| SudokuBoard.FindLowest | src/main.rs:124-134 | None exactly when no cell is empty; otherwise an empty cell whose mask has the fewest clear bits, with the lowest index on ties |
| SudokuBoard.LowestBelowMin | src/main.rs:128-133 | the cell `min` picks has the least pair (count_zeros, index) among the empty cells |
| SudokuBoard.PreferredUnique | src/main.rs:130 | the (count_zeros, index) order is strict, so the selected cell is unique |
| SudokuBoard.LowestHasCandidate | src/main.rs:63-67 | on a valid, unsolved board, `find_lowest().unwrap()` succeeds and `choose` has a non-empty list to draw from |
| SudokuBoard.EmptyBoardValid | src/main.rs:52-57 | the all-zero board is valid |
| SudokuBoard.EmptyBoardConsistent | src/main.rs:52-57 | on the all-zero board every mask equals the bits of the values placed among its peers |
| SudokuBoard.PlaceIntoEmptyConsistent | src/main.rs:191-226 | inserting into an empty cell keeps each mask equal to the bits of the values placed among its peers |
| SudokuBoard.RePlacementLosesExclusion | src/main.rs:210-217 | overwriting a placed value clears its bit even where another cell holding that value still excludes it, so masks and board disagree afterwards |
| SudokuGenerator.Sudoku.New | src/main.rs:52-57 | both boards start all zero |
| SudokuGenerator.Sudoku.InsertValue | src/main.rs:191-226 | returns false and changes nothing when x or y is above 8, the value is above 9, or its bit is set in the cell's mask; otherwise stores the value and updates exactly the row, column and block masks |
| SudokuGenerator.Sudoku.UpdateMasks | src/main.rs:205-224 | the nine rounds leave each related mask updated once and every other mask unchanged |
| SudokuGenerator.Sudoku.RoundUpdate | src/main.rs:210-223 | one round updates its row, column and block cell once each, even where they coincide, and keeps every other mask |
| SudokuGenerator.Sudoku.ClearCells | src/main.rs:210-217 | the row, column and block cell of one round lose prev's bit, in that order, and no other mask changes |
| SudokuGenerator.Sudoku.SetCells | src/main.rs:218-223 | the row, column and block cell of one round gain value's bit, in that order, and no other mask changes |
| SudokuGenerator.Sudoku.FillBoard | src/main.rs:58-82 | on return with true the board is solved and valid; a restart clears both boards; masks keep bits 9..15 clear throughout |
| SudokuGenerator.Sudoku.PlaceLowest | src/main.rs:63-80 | one pass of the outer loop either ends valid with the counter at most 8, or has run the counter to 9; on success the cell `find_lowest` chose on the old boards holds one of the candidates its old mask allows, every other cell keeps its value, and the set of empty cells strictly shrinks |
| SudokuGenerator.Sudoku.InsertLowest | src/main.rs:63-68 | the pass's first insertion is always accepted: the cell is the one `find_lowest` chose, it was empty, `numbers` is exactly its candidate list (non-empty, values 1..9), the cell now holds one of them, and no other cell changes |
| SudokuGenerator.Sudoku.Redraw | src/main.rs:69-80 | the counter only grows; the pass ends valid with the counter at most 8, or with the counter at 9; only cell (x, y) changes, it stays filled, and a value drawn from `numbers` is only replaced by another one from `numbers`; masks outside the row, column and block of (x, y) are unchanged |
| SudokuGenerator.Sudoku.RedrawOnce | src/main.rs:78-79 | one redraw keeps every fact the inner loop maintains: (x, y) filled, other cells as before the pass, a value from `numbers` replaced by one from `numbers`, masks outside the row, column and block of (x, y) as before the pass |
| SudokuGenerator.Sudoku.ClearBoards | src/main.rs:72-75 | every cell and every mask is zero |
| MineGrid.Lo | src/main.rs:354 | `checked_sub(1).unwrap_or(0)` is a itself or a-1, never below 0 |
| MineGrid.InWindowSymmetric | src/main.rs:354-355 | cell (c, r) lies in the window of (x, y) exactly when (x, y) lies in the window of (c, r) |
| MineGrid.WindowMines | src/main.rs:352-366 | the mined cells among rows y-1..y+1 and columns x-1..x+1, clipped at 0 and at the far edges; `WindowMinesFacts` gives its bounds and its zero case |
| MineGrid.WindowMinesFacts | src/main.rs:352-366 | the clipped window holds at most 9 mines and at most 8 around a safe centre; a mined centre counts itself; 0 exactly when the window has no mine |
| MineGrid.ColumnsBound | src/main.rs:355-362 | one row of the scan counts at most one mine per column, and 0 exactly when none of those columns is mined |
| MineGrid.RowsBound | src/main.rs:354-364 | the rows of the scan count at most one mine per cell, and 0 exactly when none of those cells is mined |
| MineGrid.AdjacencyOf | src/main.rs:344-350 | a grid of the field's shape holding each cell's window count; `AdjacencyFacts` states what the counts say |
| MineGrid.AdjacencyFacts | src/main.rs:344-350 | every stored count obeys the window facts, and is 0 exactly when the cell's window has no mine |
| MineGrid.NoMinesAdjacency | src/main.rs:252-262 | a field without mines has every count 0, matching the zero `adjacency_board` of `empty` |
| MineGrid.MineCount | src/main.rs:331-339 | the number of mined cells, row by row; `MineCountBound`, `MineCountSet` and `MineCountNone` give its bounds and how mining a cell changes it |
| MineGrid.MineCountBound | src/main.rs:323-342 | a field holds at most width * height mines, and that many exactly when every cell is mined |
| MineGrid.MineCountSet | src/main.rs:338 | mining an unmined cell adds exactly one mine |
| MineGrid.MineCountNone | src/main.rs:252-262 | the empty field holds no mine |
| MineGrid.Toggle | src/main.rs:424-427 | `mark_bomb` flips the flag of (x, y) and of no other cell |
| MineGrid.ToggleTwice | src/main.rs:424-427 | marking the same cell twice restores the flags |
| MineGrid.AllSafeRevealed | src/main.rs:464-473 | `is_won`: no safe cell is still hidden |
| MineGrid.RevealMines | src/main.rs:433-439 | the board of the lose branch, of the field's shape: mined cells show 9, all others are kept; `RevealMinesFacts` states its properties |
| MineGrid.RevealMinesFacts | src/main.rs:432-439 | the lose branch shows 9 on every mine, changes no revealed cell and keeps the board honest |
| MineGrid.ZeroPathPrepend | src/main.rs:445-456 | a chain of zero cells from a hidden window cell of the zero cell (x, y) extends to a chain from (x, y) |
| MineGrid.RevealsConnectedStep | src/main.rs:445-456 | playing a hidden window cell of the zero cell (x, y) keeps every revealed cell joined to (x, y) by a chain of newly revealed zero cells |
| MineGrid.RevealsConnectedTrans | src/main.rs:445-456 | two stretches of the cascade from one cell compose |
| MineGrid.ZeroPathBlocked | src/main.rs:445-456 | on a one-row field a chain of zero cells from column x never passes a cell right of x showing a non-zero count |
| MineGrid.CascadeStopsAtCount | src/main.rs:445-456 | so on a one-row field the cascade from x leaves hidden every hidden cell beyond such a cell |
| MineGrid.RevealsSafeTrans | src/main.rs:444-456 | two reveals that each turn only hidden, unflagged, safe cells into their counts compose |
| MineGrid.ZeroClosedTrans | src/main.rs:445-456 | two cascade stretches that each leave no newly revealed zero cell with a hidden, unflagged window compose |
| MineGrid.RevealThenCascade | src/main.rs:444-457 | revealing (x, y) and cascading from it reveals only safe cells, settles every newly revealed zero cell and reveals only cells joined to (x, y) by a chain of newly revealed zero cells |
| MineGrid.HiddenReveal | src/main.rs:444 | revealing a hidden cell strictly shrinks the set of hidden cells, the measure the recursion decreases |
| MinesweeperGame.Minesweeper.Empty | src/main.rs:252-262 | the field is started, with no mines, no flags, every cell hidden and every count 0 |
| MinesweeperGame.Minesweeper.WithRandomMines | src/main.rs:323-342 | for count <= width * height: a started field from `empty` with exactly count mines, no flags, all hidden, and matching counts |
| MinesweeperGame.Minesweeper.ComputeAdjacencyBoard | src/main.rs:344-350 | every cell's stored count is its window's mine count, and nothing else changes |
| MinesweeperGame.Minesweeper.CountAdjacent | src/main.rs:352-366 | the count of mined cells in the edge-clipped window rows y-1..y+1 and columns x-1..x+1, centre included |
| MinesweeperGame.Minesweeper.IsWon | src/main.rs:464-473 | true exactly when no safe cell is still hidden |
| MinesweeperGame.Minesweeper.GameMove | src/main.rs:417-463 | the ordered cases (see the list after this table) |
| MinesweeperGame.Minesweeper.RevealAllMines | src/main.rs:433-439 | every mined cell shows 9 and no other cell or field changes |
| MinesweeperGame.Minesweeper.Cascade | src/main.rs:445-456 | the whole window of the zero cell ends revealed or flagged; only safe, unflagged, hidden cells are revealed, each showing its count, and only cells joined to (x, y) by a chain of cells each in the window of the one before, every one but the last a newly revealed zero cell |
| MinesweeperGame.Minesweeper.CascadeRow | src/main.rs:447-455 | one row of the window of the zero cell (x, y) ends revealed or flagged; only hidden, unflagged, safe cells are revealed, each showing its count; each is joined to (x, y) by a chain of newly revealed zero cells; newly revealed zero cells have their windows settled |
| MinesweeperGame.Minesweeper.PlayCell | src/main.rs:452-454 | the recursive `game_move(column, row, false)` on a hidden cell of the window of the zero cell (x, y) reveals it unless it is flagged; only hidden, unflagged, safe cells are revealed, each showing its count; each is joined to (x, y) by a chain of newly revealed zero cells; newly revealed zero cells have their windows settled |
| MinesweeperGame.RevealOnEmptyField | src/main.rs:417-463 | on an empty 3x3 field, revealing (0, 0) returns Won |
| MinesweeperGame.RevealNextToMine | src/main.rs:417-463 | on a 5x1 field mined in the middle, revealing (0, 0) cascades to the 1 beside it, stops there and returns Continue |

`MinesweeperGame.Minesweeper.GameMove` states these cases, in the source's order:
1. On a revealed cell it returns Useless and changes nothing.
2. On a stopped game it returns NotStarted and changes nothing.
3. With `mark_bomb` it flips that flag only and returns UserMineToggled.
4. On a flagged cell it returns UserMineThere and changes nothing.
5. On a mine it reveals every mine, stops the game and returns Lost.
6. Otherwise:
   - the cell shows its count;
   - only hidden, unflagged, safe cells are revealed, each showing its count;
   - every revealed cell is joined to (x, y) by a chain of cells, each in the window of the one before, all but the last newly revealed and showing 0;
   - every newly revealed zero cell has its window settled;
   - flags are kept and the game stays started;
   - the result is Won exactly when `is_won` holds, otherwise Continue.

In every case the mines and counts are kept, the board stays honest, and the set of hidden cells does not grow.

## Left out

- Printing and timing are not modelled: `main`, the Sudoku print functions and `Minesweeper::print_board` (display and I/O only).
- The interactive loop and console input are not modelled: `start`, `read_row_col_checked`, `read_row_col`, `read_int_from_stdin`, `clear_console` and `get_character_width` (stdin and terminal I/O).
- The random sources `thread_rng`, `choose` and `gen_range` are nondeterministic choices (`:|`). No claim is made about the distribution.
- MinesweeperGame.Minesweeper.WithRandomMines: the `f32` density is not modelled; the mine count is given as an integer, with count <= width * height, since otherwise the redraw loop never ends. The redraw loop of one mine is collapsed into a single choice of an unmined cell, which is the only cell the loop can stop on.
- SudokuGenerator.Sudoku.FillBoard: the restart recursion, whose termination has probability 1 but no bound, is limited by a `restarts` budget. When the budget is used up the model returns false with both boards cleared, where the code would recurse again.
- SudokuGenerator.Sudoku.FillBoard: it promises solved and valid (no empty cell left, no empty cell with a full mask), not full Sudoku correctness. That correctness is not guaranteed by the code as written: a redraw over a placed value can clear a bit that another placed peer still needs (see `RePlacementLosesExclusion`).
- Fixed-width integers: the counter `x` of `get_possible_numbers`, the mine counter and all indices are unbounded naturals; overflow of `usize`/`u16` is not modelled. The u16 masks are modelled as 16-bit words, with `!`, `&`, `|`, `>>`, `count_ones`, `count_zeros` and `trailing_ones` written out bit by bit.
- `game_move`'s coordinates are required in bounds, as its caller guarantees; the out-of-bounds panic is not modelled.
