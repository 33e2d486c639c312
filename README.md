# Sudoku backtracking solver, modelled in Dafny

This project models the `Board` type of the sudoku-solver crate (`src/lib.rs`) and proves what its
operations promise. A `Board` holds a 9×9 grid of cells, where 0 means empty and 1 to 9 are digits,
and a counter `iter` of the calls of `solve`. The operations are:

- `Board::default`: the fixed example puzzle.
- `Board::new`: reads a board from text.
- `check_row`, `check_column`, `check_square` and `check_valid`: decide whether a digit may go in a cell.
- `solve`: fills the empty cells by recursive backtracking, in place.
- `Display::fmt`: renders the board and the counter as text.

The project has five modules:

- `Wrappers` holds the `Option` and `Result` datatypes.
- `Grids` holds the grid as a value (`seq<seq<int>>`). It defines the Sudoku rules over it: a row, a
  column or a box free of a digit, `NoDuplicates`, `Full`, `Extends` (givens kept) and `IsSolution`.
  It also defines the first empty cell in row-major order (`FirstZero`), writing one cell (`Place`)
  and the example grid `DefaultGrid`.
- `Backtracking` is a pure reference definition of `solve`. `Search` finds the first empty cell, and
  `TryDigits` tries the digits from `d` to 9 there, in order. Together they give the outcome: solved
  or not, the final grid, and the number of `solve` calls made. The lemmas prove the following:
  - a failed search restores the grid;
  - a search never changes a given;
  - a success fills the grid with a solution of a legal puzzle;
  - the search fails only when no solution exists.
- `Text` holds the string side. It covers splitting on `"\n"`, the digits a line yields, the parse of
  `Board::new` (errors are `Err` values where the source panics), and the rendering of `fmt`. Its
  lemmas prove these properties:
  - the rows parse (`ParseRows`) exactly when every digit line has nine digits, and the grid
    parses (`ParseGrid`) exactly when, in addition, there are nine such lines;
  - the grid part of a rendering parses back to the same grid;
  - the full output of `fmt` never parses back, because its last line holds the counter's digits.
- `Boards` holds the class `Board`. Its fields are the cells as an `array2<int>`, the counter `iter`
  and a ghost copy `cells` of the grid, tied to the array by `Valid()`. Its methods follow the
  source's loops:
  - `Solve` increments the counter, scans for the first empty cell, and hands that cell to
    `TryCell`. `TryCell` is the loop over digits 1 to 9 of `solve`. Each digit that passes
    `CheckValid` is written with `SetCell`, then `Solve` recurses, and a failed recursion writes
    0 back.
  - `Solve` is proved equal to `Search`: the result, the final grid, and the growth of `iter`, which
    equals the number of calls `Search` counts.
  - `Fmt` builds the text row by row, with the divider block of the source as `DrawDivider`. It is
    proved to return `Display(cells, iter)`.

The example grid at src/lib.rs:14-24, which `DefaultGrid` reproduces cell by cell, has 24 givens and
57 empty cells; `Grids.DefaultGridGivens` and `Grids.DefaultGridEmpties` prove the two counts.

## Model

| member | source | states |
|---|---|---|
| Boards.Board.Default | src/lib.rs:10-28 | the board holds exactly the example grid of the source, cell by cell, and `iter` is 0 |
| Grids.DefaultGridGivens | src/lib.rs:14-24 | the example grid has 24 cells that hold a digit |
| Grids.DefaultGridEmpties | src/lib.rs:14-24 | the example grid has 57 empty cells |
| Boards.Board.FromGrid | src/lib.rs:46-50 | a board built from a parsed grid is valid, holds exactly that grid in a fresh array, and has `iter` 0 |
| Backtracking.Search | src/lib.rs:52-73 | defines one call of `solve`: one call counted, then success with the grid unchanged when no cell is empty, else `TryDigits` from digit 1 at the first empty cell; its properties are the `Search` lemmas below |
| Backtracking.TryDigits | src/lib.rs:59-69 | defines the loop over digits `d` to 9 at one cell: a digit that passes the check is written and `Search` recurses; success stops, failure writes 0 back and tries the next digit; past 9 it fails with the grid as given; its properties are the `TryDigits` lemmas below |
| Text.ParseRows | src/lib.rs:32-43 | defines the line loop of `Board::new`: lines without digits are skipped, a line with nine digits adds a row, any other digit count stops with that count; `Text.ParseRowsSpec` states its meaning |
| Text.ParseGrid | src/lib.rs:31-51 | defines `Board::new`: the rows of the lines split on `"\n"`, and an error carrying their number unless there are exactly nine; `Text.ParseGridIsGrid` and `Text.RenderRoundTrip` state its properties |
| Text.Separator | src/lib.rs:124-131 | defines what follows column `y`: nothing after the last column, a space, a bar and a space after columns 2 and 5, one space otherwise |
| Text.CellsFrom | src/lib.rs:123-133 | defines columns `y` to 8 of a row as text; `Text.RowTextLayout` states its layout |
| Text.RowText | src/lib.rs:123-133 | defines one row of the rendering; `Text.RowTextLayout` states its width, its positions and that it reads back as the row |
| Text.RenderFrom | src/lib.rs:122-146 | defines rows `x` to 8 as text, with a line break, the divider and a line break between consecutive rows and none after the last |
| Text.Render | src/lib.rs:122-146 | defines the grid part of the output of `fmt`; `Text.RenderRoundTrip` states that it parses back to the grid |
| Text.NatToString | src/lib.rs:147 | defines the decimal text of the counter; `Text.NatToStringRoundTrip` states its meaning |
| Text.Display | src/lib.rs:147 | defines the whole output of `fmt`: the rendered grid, a line break, `iterations: ` and the counter; `Text.DisplayDoesNotReparse` states that it never parses as a board |
| Boards.Board.New | src/lib.rs:31-51 | reading text fails with the parse's error (a line with digits but not nine, or not nine digit lines) exactly when `ParseGrid` fails; otherwise a fresh valid board holds the parsed rows and `iter` is 0 |
| Text.ParseRowsSpec | src/lib.rs:32-43 | the rows parse if and only if every line that yields digits yields nine; the rows are then those lines' digits in order, with digit-free lines skipped; otherwise the error carries the digit count of the first line whose count is not nine |
| Text.ParseGridIsGrid | src/lib.rs:45-49 | a successful parse is a 9×9 grid of values 0 to 9 |
| Text.Lines | src/lib.rs:32 | splitting on `"\n"` yields at least one piece, and no piece holds a line break |
| Text.LinesAppend | src/lib.rs:32 | splitting `a + "\n" + b` yields the pieces of `a` followed by the pieces of `b` |
| Text.Digits | src/lib.rs:34-35 | a line yields at most one value per character, each 0 to 9 |
| Text.DigitsAppend | src/lib.rs:34-35 | the digits of a concatenation are the digits of its parts, in order |
| Boards.Board.CheckRow | src/lib.rs:88-95 | the answer is true exactly when the target occurs nowhere in the row |
| Boards.Board.CheckColumn | src/lib.rs:97-104 | the answer is true exactly when the target occurs nowhere in the column |
| Boards.Board.CheckSquare | src/lib.rs:106-116 | the answer is true exactly when the target occurs nowhere in the 3×3 box that holds the cell |
| Boards.BoxOrigin | src/lib.rs:107 | for an index below 9, the box origin `r - r % 3` and the two indices after it stay within 0..8, and they are exactly the indices in the same box |
| Boards.Board.CheckValid | src/lib.rs:79-86 | with a row and a column, true exactly when the digit may be placed there (row, column and box free); with only a row or only a column, true exactly when that line is free; with neither, false |
| Boards.Board.Solve | src/lib.rs:52-73 | the result, the final grid and the increase of `iter` are those of `Search` on the grid at the call; `iter` strictly grows; givens are never changed; a failed call restores the grid |
| Boards.Board.TryCell | src/lib.rs:59-69 | trying digits 1 to 9 at the first empty cell, writing each one that passes the check, recursing and resetting the cell on failure, behaves as `TryDigits` from digit 1 |
| Boards.Board.SetCell | src/lib.rs:61 | writing one cell changes that cell of the grid and nothing else, and leaves `iter` alone |
| Grids.Place | src/lib.rs:61 | the written cell holds the new value, every other cell is unchanged, and the result is still a grid |
| Grids.FirstZeroFrom | src/lib.rs:54-58 | a cell it finds, scanning from (r, c) on in row-major order, is on the board and empty |
| Grids.FirstZeroSpec | src/lib.rs:54-58 | there is no empty cell exactly when the grid is full; otherwise the cell found is empty and every cell before it in row-major order is filled |
| Grids.PlaceShrinksZeros | src/lib.rs:61-62 | filling an empty cell removes exactly that cell from the empty cells, so each recursive call of `solve` has strictly fewer of them |
| Grids.PlaceUndo | src/lib.rs:61-66 | writing a digit into an empty cell and then writing 0 back restores the grid |
| Grids.PlaceKeepsNoDuplicates | src/lib.rs:60-61 | a digit that passes the check, written into an empty cell of a grid without duplicates, creates no duplicate |
| Grids.SolutionPassesCheck | src/lib.rs:60 | the digit a solution has at an empty cell passes the check on the partial grid |
| Backtracking.SearchFailureRestores | src/lib.rs:59-69 | a failed search leaves the grid exactly as it found it |
| Backtracking.TryDigitsFailureRestores | src/lib.rs:59-69 | when every candidate digit from `d` on fails, the cell is back to 0 and the grid is as before |
| Backtracking.SearchKeepsGivens | src/lib.rs:56-61 | the final grid keeps every filled cell of the starting grid, and a successful search leaves no empty cell |
| Backtracking.TryDigitsKeepsGivens | src/lib.rs:56-61 | the same for the loop over digits at one cell |
| Backtracking.SearchSound | src/lib.rs:59-63 | on a grid without duplicates, a successful search yields a solution of it: full, without duplicates, and keeping its givens |
| Backtracking.TryDigitsSound | src/lib.rs:59-63 | the same for the loop over digits at one cell |
| Backtracking.SearchComplete | src/lib.rs:59-69 | if the grid has any solution, the search succeeds |
| Backtracking.TryDigitsComplete | src/lib.rs:59-69 | if a solution puts a digit no smaller than `d` in the cell, trying the digits from `d` on succeeds |
| Backtracking.SolvedIffSolvable | src/lib.rs:52-73 | on a grid without duplicates, the search succeeds if and only if a solution exists |
| Backtracking.SearchOnFull | src/lib.rs:54-58 | on a full grid, the search succeeds at once, with the grid unchanged and one call counted |
| Backtracking.SolveAgainIsImmediate | src/lib.rs:52-73 | searching again on the grid a successful search produced succeeds at once, with that grid unchanged and one call counted |
| Backtracking.SearchGuarantees | src/lib.rs:52-73 | every promise of `solve` at once: at least one call is counted; givens are kept; failure restores the grid and means no solution exists; success leaves a full grid, which is a solution when the start had no duplicates; a full grid is returned at once |
| Boards.Board.Fmt | src/lib.rs:119-148 | the text built is `Display(cells, iter)`: the rendered grid, a line break, `iterations: ` and the decimal counter |
| Boards.Board.DrawDivider | src/lib.rs:135-142 | the divider is `9 * 2 + 9 % 2 + 2` dashes |
| Text.DigitChar | src/lib.rs:125 | a cell value's character is a digit character whose value is the cell |
| Text.Dashes | src/lib.rs:138-140 | n dashes make a string of length n, all of it dashes |
| Text.RowTextLayout | src/lib.rs:123-133 | a rendered row is 21 characters wide, as wide as the divider, holds no line break, shows column y at position `2 * y + 2 * (y / 3)`, and reads back as the row |
| Text.RenderRoundTrip | src/lib.rs:122-146 | reading the rendered grid back with the parser of `Board::new` yields the same grid |
| Text.NatToStringRoundTrip | src/lib.rs:147 | the counter's text is a non-empty run of digits with no leading zero, whose decimal value is the counter |
| Text.DisplayDoesNotReparse | src/lib.rs:147 | the full output of `fmt` never parses as a board, because its closing line holds at least one digit |

## Left out

- `read_from_file` (src/lib.rs:151-157) is left out because it is file I/O. The three `replace` calls it makes before `Board::new` are not modelled.
- `save_output` (src/lib.rs:75-77) is left out because it does nothing but return `Ok(())`.
- src/args.rs and src/main.rs are left out. They hold the command-line handling, printing and wall-clock timing.
- The `grid_size` field is left out because it only sizes a `String::with_capacity` buffer, and the capacity has no effect on the text. The grid is always 9×9.
- Boards.Board.Fmt: the model does not capture a panic of the source. `Board::new` stores `lines.len() as u8` as both parts of `grid_size` (src/lib.rs:47), which truncates the line count modulo 256. `fmt` multiplies the two `u8` values (src/lib.rs:121). That product overflows when the stored count is between 16 and 255, for example for a board read by `read_from_file` from a file laid out as `fmt` draws it, nine rows and eight dividers in 17 lines. With overflow checks (a debug build) `fmt` then panics; without them the product wraps. The model follows the unchecked behaviour, in which the output is unaffected.
- The model does not bound `iter`, so `usize` overflow of the counter is not modelled.
- Cells are `int` values kept in 0..9 by `Valid()`, not `u8`.
- The panics of `Board::new` are modelled as `Err` results. They cover a line with digits but not nine, and a digit-line count other than nine. The debug `println!` before the first panic is not modelled.
- Rust's `u8` parse is modelled only this far: one character parses exactly when it is '0' to '9'. The empty strings and other characters that `line.split("")` yields are dropped.
- `Display::fmt` is modelled as returning the string it writes. The `fmt::Error` a `Formatter` may report is not modelled.
- Boards.Board.CheckRow, CheckColumn, CheckSquare and CheckValid require indices below 9. The source panics on a larger index, and `solve` never passes one.
- Boards.Board.Solve: the method's own ensures state the equation with `Search`, the growth of `iter`, givens kept and restore on failure. The other promises are proved about `Search` by the Backtracking lemmas above: full and a solution on success, no solution on failure, and immediate success on a full grid.
- The model does not prove that the example puzzle is solvable. That would take a concrete 81-cell solution and a proof that it has no duplicates in any of its 27 rows, columns and boxes, which is beyond what the verifier checks cheaply.
