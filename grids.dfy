/**
 The 9×9 Sudoku grid of `Board` (src/lib.rs), as a value: cells are 0 (empty) or a digit 1..9,
 addressed (row, column) from zero in row-major order. This module states the placement rules
 that `check_row`, `check_column` and `check_square` test, what a legal and a solved grid are,
 and the row-major scan for the first empty cell that `solve` performs.
 */
module Grids {
  import opened Wrappers

  type Grid = seq<seq<int>>

  predicate InRange(r: int, c: int) {
    0 <= r < 9 && 0 <= c < 9
  }

  /** Nine rows of nine cells, each 0 or a digit: every grid the source ever holds. */
  predicate IsGrid(g: Grid) {
    |g| == 9 && forall r :: 0 <= r < 9 ==> |g[r]| == 9 && forall c :: 0 <= c < 9 ==> 0 <= g[r][c] <= 9
  }

  /** `t` occurs nowhere in row `r`. */
  ghost predicate RowFree(g: Grid, r: int, t: int)
    requires IsGrid(g) && 0 <= r < 9
  {
    forall c :: 0 <= c < 9 ==> g[r][c] != t
  }

  /** `t` occurs nowhere in column `c`. */
  ghost predicate ColumnFree(g: Grid, c: int, t: int)
    requires IsGrid(g) && 0 <= c < 9
  {
    forall r :: 0 <= r < 9 ==> g[r][c] != t
  }

  /** Cells (i, j) and (r, c) lie in the same 3×3 box. */
  predicate SameBox(i: int, j: int, r: int, c: int) {
    i / 3 == r / 3 && j / 3 == c / 3
  }

  /** `t` occurs nowhere in the 3×3 box that contains (r, c). */
  ghost predicate BoxFree(g: Grid, r: int, c: int, t: int)
    requires IsGrid(g) && InRange(r, c)
  {
    forall i, j :: InRange(i, j) && SameBox(i, j, r, c) ==> g[i][j] != t
  }

  /** The test `check_valid(Some(r), Some(c), t)` makes before `solve` writes `t` at (r, c). */
  ghost predicate CanPlace(g: Grid, r: int, c: int, t: int)
    requires IsGrid(g) && InRange(r, c)
  {
    RowFree(g, r, t) && ColumnFree(g, c, t) && BoxFree(g, r, c, t)
  }

  /** Two distinct cells that share a row, a column or a box. */
  predicate Peers(r1: int, c1: int, r2: int, c2: int) {
    (r1 != r2 || c1 != c2) && (r1 == r2 || c1 == c2 || SameBox(r1, c1, r2, c2))
  }

  /** No non-zero value is repeated in any row, column or box. */
  ghost predicate NoDuplicates(g: Grid)
    requires IsGrid(g)
  {
    forall r1, c1, r2, c2 ::
      InRange(r1, c1) && InRange(r2, c2) && Peers(r1, c1, r2, c2) && g[r1][c1] != 0 ==> g[r1][c1] != g[r2][c2]
  }

  /** No cell is empty. */
  ghost predicate Full(g: Grid)
    requires IsGrid(g)
  {
    forall r, c :: InRange(r, c) ==> g[r][c] != 0
  }

  /** `s` keeps every filled cell of `g`. */
  ghost predicate Extends(s: Grid, g: Grid)
    requires IsGrid(s) && IsGrid(g)
  {
    forall r, c :: InRange(r, c) && g[r][c] != 0 ==> s[r][c] == g[r][c]
  }

  /** `s` is a solution of the puzzle `g`: full, legal, and keeping the givens of `g`. */
  ghost predicate IsSolution(s: Grid, g: Grid)
    requires IsGrid(g)
  {
    IsGrid(s) && Full(s) && NoDuplicates(s) && Extends(s, g)
  }

  /** The grid with cell (r, c) set to `v`. */
  function Place(g: Grid, r: int, c: int, v: int): (g': Grid)
    requires IsGrid(g) && InRange(r, c) && 0 <= v <= 9
    ensures IsGrid(g')
    ensures g'[r][c] == v
    ensures forall i, j :: InRange(i, j) && (i != r || j != c) ==> g'[i][j] == g[i][j]
  {
    g[r := g[r][c := v]]
  }

  /** The empty cells of `g`. */
  ghost function ZeroCells(g: Grid): set<(int, int)>
    requires IsGrid(g)
  {
    set r, c | 0 <= r < 9 && 0 <= c < 9 && g[r][c] == 0 :: (r, c)
  }

  /** (i, j) comes before (r, c) in row-major order. */
  predicate Before(i: int, j: int, r: int, c: int) {
    i < r || (i == r && j < c)
  }

  /**
   The first empty cell at or after (r, c) in row-major order, scanning as `solve`'s two nested
   loops do; c == 9 stands for the end of row r.
   */
  function FirstZeroFrom(g: Grid, r: int, c: int): (p: Option<(int, int)>)
    requires IsGrid(g) && 0 <= r <= 9 && 0 <= c <= 9
    ensures p.Some? ==> InRange(p.value.0, p.value.1) && g[p.value.0][p.value.1] == 0
    decreases |g| - r, 9 - c
  {
    if r == 9 then None
    else if c == 9 then FirstZeroFrom(g, r + 1, 0)
    else if g[r][c] == 0 then Some((r, c))
    else FirstZeroFrom(g, r, c + 1)
  }

  /** The first empty cell of the whole grid in row-major order. */
  function FirstZero(g: Grid): Option<(int, int)>
    requires IsGrid(g)
  {
    FirstZeroFrom(g, 0, 0)
  }

  /** The canonical example puzzle of `Board::default`. */
  const DefaultGrid: Grid := [
    [7, 0, 2, 0, 5, 0, 6, 0, 0],
    [0, 0, 0, 0, 0, 3, 0, 0, 0],
    [1, 0, 0, 0, 0, 9, 5, 0, 0],
    [8, 0, 0, 0, 0, 0, 0, 9, 0],
    [0, 4, 3, 0, 0, 0, 7, 5, 0],
    [0, 9, 0, 0, 0, 0, 0, 0, 8],
    [0, 0, 9, 7, 0, 0, 0, 0, 5],
    [0, 0, 0, 2, 0, 0, 0, 0, 0],
    [0, 0, 7, 0, 4, 0, 2, 0, 3]
  ]

  /** The number of cells from column `c` on of a row that hold a digit (`filled`) or 0 (not `filled`). */
  function CountFrom(row: seq<int>, c: nat, filled: bool): nat
    decreases |row| - c
  {
    if c >= |row| then 0
    else (if (row[c] != 0) == filled then 1 else 0) + CountFrom(row, c + 1, filled)
  }

  /** The number of cells from row `r` on of a grid that hold a digit (`filled`) or 0 (not `filled`). */
  function Count(g: seq<seq<int>>, r: nat, filled: bool): nat
    decreases |g| - r
  {
    if r >= |g| then 0 else CountFrom(g[r], 0, filled) + Count(g, r + 1, filled)
  }

  // ---------------------------------------------------------------------------------------------
  // Lemmas

  /**
   The scan from (r, c) returns the earliest empty cell at or after (r, c), and returns None
   exactly when every cell from (r, c) on is filled.
   */
  lemma {:induction false} FirstZeroFromSpec(g: Grid, r: int, c: int)
    requires IsGrid(g) && 0 <= r <= 9 && 0 <= c <= 9
    ensures FirstZeroFrom(g, r, c).None? <==>
              forall i, j :: InRange(i, j) && !Before(i, j, r, c) ==> g[i][j] != 0
    ensures FirstZeroFrom(g, r, c).Some? ==>
              var p := FirstZeroFrom(g, r, c).value;
              !Before(p.0, p.1, r, c) &&
              forall i, j :: InRange(i, j) && !Before(i, j, r, c) && Before(i, j, p.0, p.1) ==> g[i][j] != 0
    decreases 9 - r, 9 - c
  {
    if r == 9 {
    } else if c == 9 {
      FirstZeroFromSpec(g, r + 1, 0);
    } else if g[r][c] != 0 {
      FirstZeroFromSpec(g, r, c + 1);
    }
  }

  /** `FirstZero` finds no cell exactly on a full grid, and otherwise the row-major first empty cell. */
  lemma FirstZeroSpec(g: Grid)
    requires IsGrid(g)
    ensures FirstZero(g).None? <==> Full(g)
    ensures FirstZero(g).Some? ==>
              var p := FirstZero(g).value;
              InRange(p.0, p.1) && g[p.0][p.1] == 0 &&
              forall i, j :: InRange(i, j) && Before(i, j, p.0, p.1) ==> g[i][j] != 0
  {
    FirstZeroFromSpec(g, 0, 0);
  }

  /** Filling an empty cell with a digit removes exactly that cell from the empty cells. */
  lemma PlaceShrinksZeros(g: Grid, r: int, c: int, v: int)
    requires IsGrid(g) && InRange(r, c) && g[r][c] == 0 && 1 <= v <= 9
    ensures ZeroCells(Place(g, r, c, v)) == ZeroCells(g) - {(r, c)}
    ensures ZeroCells(Place(g, r, c, v)) < ZeroCells(g)
  {
    assert (r, c) in ZeroCells(g);
  }

  /** Writing a cell and then resetting it to 0 restores a grid in which that cell was empty. */
  lemma PlaceUndo(g: Grid, r: int, c: int, v: int)
    requires IsGrid(g) && InRange(r, c) && g[r][c] == 0 && 0 <= v <= 9
    ensures Place(Place(g, r, c, v), r, c, 0) == g
  {
    assert g[r][c := v][c := 0] == g[r];
  }

  /** Writing a digit that passes the placement check into an empty cell keeps a legal grid legal. */
  lemma PlaceKeepsNoDuplicates(g: Grid, r: int, c: int, v: int)
    requires IsGrid(g) && InRange(r, c) && g[r][c] == 0 && 1 <= v <= 9
    requires NoDuplicates(g) && CanPlace(g, r, c, v)
    ensures NoDuplicates(Place(g, r, c, v))
  {
    var g' := Place(g, r, c, v);
    forall r1, c1, r2, c2 | InRange(r1, c1) && InRange(r2, c2) && Peers(r1, c1, r2, c2) && g'[r1][c1] != 0
      ensures g'[r1][c1] != g'[r2][c2]
    {
      if r1 == r && c1 == c {
        assert g'[r2][c2] == g[r2][c2];
      } else if r2 == r && c2 == c {
        assert g'[r1][c1] == g[r1][c1];
        assert Peers(r2, c2, r1, c1);
      }
    }
  }

  /**
   A solution of `g` agrees with the placement check at every empty cell of `g`: its digit there
   occurs nowhere in that cell's row, column or box of `g`.
   */
  lemma SolutionPassesCheck(g: Grid, s: Grid, r: int, c: int)
    requires IsGrid(g) && IsSolution(s, g) && InRange(r, c) && g[r][c] == 0
    ensures 1 <= s[r][c] <= 9
    ensures CanPlace(g, r, c, s[r][c])
  {
    forall j | 0 <= j < 9 ensures g[r][j] != s[r][c] {
      if j != c { assert Peers(r, c, r, j); }
    }
    forall i | 0 <= i < 9 ensures g[i][c] != s[r][c] {
      if i != r { assert Peers(r, c, i, c); }
    }
    forall i, j | InRange(i, j) && SameBox(i, j, r, c) ensures g[i][j] != s[r][c] {
      if i != r || j != c { assert Peers(r, c, i, j); }
    }
  }

  /** A solution of a grid with one more digit placed is a solution of the grid itself. */
  lemma SolutionOfPlaced(g: Grid, s: Grid, r: int, c: int, v: int)
    requires IsGrid(g) && InRange(r, c) && g[r][c] == 0 && 1 <= v <= 9
    ensures IsSolution(s, Place(g, r, c, v)) ==> IsSolution(s, g)
    ensures IsSolution(s, g) && s[r][c] == v ==> IsSolution(s, Place(g, r, c, v))
  {
  }

  lemma CountStep(g: seq<seq<int>>, r: nat, filled: bool)
    requires r < |g|
    ensures Count(g, r, filled) == CountFrom(g[r], 0, filled) + Count(g, r + 1, filled)
  {
  }

  /** The count over nine rows is the sum of the nine row counts. */
  lemma CountNineRows(g: seq<seq<int>>, filled: bool)
    requires |g| == 9
    ensures Count(g, 0, filled) ==
              CountFrom(g[0], 0, filled) + CountFrom(g[1], 0, filled) + CountFrom(g[2], 0, filled) +
              CountFrom(g[3], 0, filled) + CountFrom(g[4], 0, filled) + CountFrom(g[5], 0, filled) +
              CountFrom(g[6], 0, filled) + CountFrom(g[7], 0, filled) + CountFrom(g[8], 0, filled)
  {
    CountStep(g, 0, filled); CountStep(g, 1, filled); CountStep(g, 2, filled);
    CountStep(g, 3, filled); CountStep(g, 4, filled); CountStep(g, 5, filled);
    CountStep(g, 6, filled); CountStep(g, 7, filled); CountStep(g, 8, filled);
  }

  /** Givens in the top four rows of the example puzzle. */
  lemma DefaultGivensTop()
    ensures CountFrom(DefaultGrid[0], 0, true) == 4 && CountFrom(DefaultGrid[1], 0, true) == 1
    ensures CountFrom(DefaultGrid[2], 0, true) == 3 && CountFrom(DefaultGrid[3], 0, true) == 2
  {
  }

  /** Givens in the bottom five rows of the example puzzle. */
  lemma DefaultGivensBottom()
    ensures CountFrom(DefaultGrid[4], 0, true) == 4 && CountFrom(DefaultGrid[5], 0, true) == 2
    ensures CountFrom(DefaultGrid[6], 0, true) == 3 && CountFrom(DefaultGrid[7], 0, true) == 1
    ensures CountFrom(DefaultGrid[8], 0, true) == 4
  {
  }

  /** The example puzzle has 24 givens. */
  lemma DefaultGridGivens()
    ensures Count(DefaultGrid, 0, true) == 24
  {
    DefaultGivensTop();
    DefaultGivensBottom();
    CountNineRows(DefaultGrid, true);
  }

  /** Empty cells in the top four rows of the example puzzle. */
  lemma DefaultEmptiesTop()
    ensures CountFrom(DefaultGrid[0], 0, false) == 5 && CountFrom(DefaultGrid[1], 0, false) == 8
    ensures CountFrom(DefaultGrid[2], 0, false) == 6 && CountFrom(DefaultGrid[3], 0, false) == 7
  {
  }

  /** Empty cells in the bottom five rows of the example puzzle. */
  lemma DefaultEmptiesBottom()
    ensures CountFrom(DefaultGrid[4], 0, false) == 5 && CountFrom(DefaultGrid[5], 0, false) == 7
    ensures CountFrom(DefaultGrid[6], 0, false) == 6 && CountFrom(DefaultGrid[7], 0, false) == 8
    ensures CountFrom(DefaultGrid[8], 0, false) == 5
  {
  }

  /** The example puzzle has 57 empty cells. */
  lemma DefaultGridEmpties()
    ensures Count(DefaultGrid, 0, false) == 57
  {
    DefaultEmptiesTop();
    DefaultEmptiesBottom();
    CountNineRows(DefaultGrid, false);
  }
}
