/**
 A reference definition of `Board::solve` (src/lib.rs) as a function on grid values, and what it
 achieves. `Search` is one call of `solve`: it takes the first empty cell in row-major order and
 tries the digits 1 to 9 in ascending order through `TryDigits`, recursing after each digit that
 passes the placement check, undoing it when the recursion fails, and stopping at the first
 success. The result records whether a call succeeded, the grid it leaves, and how many calls of
 `solve` were made in all (the amount by which `iter` grows).
 */
module Backtracking {
  import opened Wrappers
  import opened Grids

  datatype Outcome = Outcome(solved: bool, grid: Grid, calls: nat) {
    /** The same outcome reached after `k` more calls. */
    function After(k: nat): Outcome {
      Outcome(solved, grid, calls + k)
    }
  }

  /** One call of `solve` on the grid `g`. */
  ghost function Search(g: Grid): Outcome
    requires IsGrid(g)
    decreases ZeroCells(g), 1
  {
    match FirstZero(g)
    case None => Outcome(true, g, 1)
    case Some(p) => TryDigits(g, p.0, p.1, 1).After(1)
  }

  /** The candidates d, d + 1, ..., 9 for the empty cell (r, c), in that order. */
  ghost function TryDigits(g: Grid, r: int, c: int, d: int): Outcome
    requires IsGrid(g) && InRange(r, c) && g[r][c] == 0 && 1 <= d <= 10
    decreases ZeroCells(g), 0, 10 - d
  {
    if d == 10 then Outcome(false, g, 0)
    else if CanPlace(g, r, c, d) then
      PlaceShrinksZeros(g, r, c, d);
      var sub := Search(Place(g, r, c, d));
      if sub.solved then sub
      else TryDigits(g, r, c, d + 1).After(sub.calls)
    else TryDigits(g, r, c, d + 1)
  }

  lemma AfterAfter(o: Outcome, a: nat, b: nat)
    ensures o.After(a).After(b) == o.After(a + b)
  {
  }

  /** One step of `Search` and of `TryDigits`, for callers that follow the search step by step. */
  lemma SearchAt(g: Grid, r: int, c: int)
    requires IsGrid(g) && FirstZero(g) == Some((r, c))
    ensures InRange(r, c) && g[r][c] == 0
    ensures Search(g) == TryDigits(g, r, c, 1).After(1)
  {
  }

  lemma TryDigitsAt(g: Grid, r: int, c: int, d: int)
    requires IsGrid(g) && InRange(r, c) && g[r][c] == 0 && 1 <= d <= 9
    ensures !CanPlace(g, r, c, d) ==> TryDigits(g, r, c, d) == TryDigits(g, r, c, d + 1)
    ensures CanPlace(g, r, c, d) && Search(Place(g, r, c, d)).solved ==>
              TryDigits(g, r, c, d) == Search(Place(g, r, c, d))
    ensures CanPlace(g, r, c, d) && !Search(Place(g, r, c, d)).solved ==>
              TryDigits(g, r, c, d) == TryDigits(g, r, c, d + 1).After(Search(Place(g, r, c, d)).calls)
  {
  }

  // ---------------------------------------------------------------------------------------------
  // What a call of solve guarantees

  /** A failed search leaves the grid exactly as it found it. */
  lemma SearchFailureRestores(g: Grid)
    requires IsGrid(g)
    ensures !Search(g).solved ==> Search(g).grid == g
  {
    match FirstZero(g)
    case None =>
    case Some(p) => TryDigitsFailureRestores(g, p.0, p.1, 1);
  }

  lemma {:induction false} TryDigitsFailureRestores(g: Grid, r: int, c: int, d: int)
    requires IsGrid(g) && InRange(r, c) && g[r][c] == 0 && 1 <= d <= 10
    ensures !TryDigits(g, r, c, d).solved ==> TryDigits(g, r, c, d).grid == g
    decreases 10 - d
  {
    if d < 10 {
      TryDigitsFailureRestores(g, r, c, d + 1);
    }
  }

  /**
   A search only writes digits 1..9 into cells that were empty: it keeps every given, and on
   success no cell is left empty.
   */
  lemma {:induction false} SearchKeepsGivens(g: Grid)
    requires IsGrid(g)
    ensures IsGrid(Search(g).grid) && Extends(Search(g).grid, g)
    ensures Search(g).solved ==> Full(Search(g).grid)
    decreases ZeroCells(g), 1
  {
    FirstZeroSpec(g);
    match FirstZero(g)
    case None =>
    case Some(p) => TryDigitsKeepsGivens(g, p.0, p.1, 1);
  }

  lemma {:induction false} TryDigitsKeepsGivens(g: Grid, r: int, c: int, d: int)
    requires IsGrid(g) && InRange(r, c) && g[r][c] == 0 && 1 <= d <= 10
    ensures IsGrid(TryDigits(g, r, c, d).grid) && Extends(TryDigits(g, r, c, d).grid, g)
    ensures TryDigits(g, r, c, d).solved ==> Full(TryDigits(g, r, c, d).grid)
    decreases ZeroCells(g), 0, 10 - d
  {
    if d < 10 {
      if CanPlace(g, r, c, d) {
        PlaceShrinksZeros(g, r, c, d);
        SearchKeepsGivens(Place(g, r, c, d));
        if !Search(Place(g, r, c, d)).solved {
          TryDigitsKeepsGivens(g, r, c, d + 1);
        }
      } else {
        TryDigitsKeepsGivens(g, r, c, d + 1);
      }
    }
  }

  /** On a legal grid, a successful search leaves a solution of that grid. */
  lemma {:induction false} SearchSound(g: Grid)
    requires IsGrid(g) && NoDuplicates(g) && Search(g).solved
    ensures IsSolution(Search(g).grid, g)
    decreases ZeroCells(g), 1
  {
    FirstZeroSpec(g);
    match FirstZero(g)
    case None =>
    case Some(p) => TryDigitsSound(g, p.0, p.1, 1);
  }

  lemma {:induction false} TryDigitsSound(g: Grid, r: int, c: int, d: int)
    requires IsGrid(g) && InRange(r, c) && g[r][c] == 0 && 1 <= d <= 10
    requires NoDuplicates(g) && TryDigits(g, r, c, d).solved
    ensures IsSolution(TryDigits(g, r, c, d).grid, g)
    decreases ZeroCells(g), 0, 10 - d
  {
    if d <= 9 {
      TryDigitsAt(g, r, c, d);
      var g' := Place(g, r, c, d);
      PlaceShrinksZeros(g, r, c, d);
      if CanPlace(g, r, c, d) && Search(g').solved {
        PlaceKeepsNoDuplicates(g, r, c, d);
        SearchSound(g');
        SolutionOfPlaced(g, Search(g').grid, r, c, d);
      } else {
        TryDigitsSound(g, r, c, d + 1);
      }
    }
  }

  /** If the grid has any solution at all, the search succeeds. */
  lemma {:induction false} SearchComplete(g: Grid, s: Grid)
    requires IsGrid(g) && IsSolution(s, g)
    ensures Search(g).solved
    decreases ZeroCells(g), 1
  {
    FirstZeroSpec(g);
    match FirstZero(g)
    case None =>
    case Some(p) =>
      SolutionPassesCheck(g, s, p.0, p.1);
      TryDigitsComplete(g, p.0, p.1, 1, s);
  }

  lemma {:induction false} TryDigitsComplete(g: Grid, r: int, c: int, d: int, s: Grid)
    requires IsGrid(g) && InRange(r, c) && g[r][c] == 0 && 1 <= d <= 10
    requires IsSolution(s, g) && d <= s[r][c]
    ensures TryDigits(g, r, c, d).solved
    decreases ZeroCells(g), 0, 10 - d
  {
    SolutionPassesCheck(g, s, r, c);
    if s[r][c] == d {
      PlaceShrinksZeros(g, r, c, d);
      SolutionOfPlaced(g, s, r, c, d);
      SearchComplete(Place(g, r, c, d), s);
    } else {
      TryDigitsComplete(g, r, c, d + 1, s);
    }
  }

  /** On a legal grid the search succeeds exactly when the puzzle has a solution. */
  lemma SolvedIffSolvable(g: Grid)
    requires IsGrid(g) && NoDuplicates(g)
    ensures Search(g).solved <==> exists s :: IsSolution(s, g)
  {
    if Search(g).solved {
      SearchSound(g);
    }
    forall s | IsSolution(s, g) ensures Search(g).solved {
      SearchComplete(g, s);
    }
  }

  /** A full grid is reported solved at once, unchanged, after a single call. */
  lemma SearchOnFull(g: Grid)
    requires IsGrid(g) && Full(g)
    ensures Search(g) == Outcome(true, g, 1)
  {
    FirstZeroSpec(g);
  }

  /** Solving again after a success returns at once and changes nothing. */
  lemma SolveAgainIsImmediate(g: Grid)
    requires IsGrid(g) && Search(g).solved
    ensures IsGrid(Search(g).grid) && Search(Search(g).grid) == Outcome(true, Search(g).grid, 1)
  {
    SearchKeepsGivens(g);
    SearchOnFull(Search(g).grid);
  }

  /** Everything a call of `solve` promises, in terms of the grid it starts from. */
  lemma SearchGuarantees(g: Grid)
    requires IsGrid(g)
    ensures Search(g).calls >= 1
    ensures IsGrid(Search(g).grid) && Extends(Search(g).grid, g)
    ensures !Search(g).solved ==> Search(g).grid == g
    ensures Search(g).solved ==> Full(Search(g).grid)
    ensures Search(g).solved && NoDuplicates(g) ==> IsSolution(Search(g).grid, g)
    ensures !Search(g).solved ==> forall s :: !IsSolution(s, g)
    ensures Full(g) ==> Search(g) == Outcome(true, g, 1)
  {
    SearchFailureRestores(g);
    SearchKeepsGivens(g);
    if Search(g).solved && NoDuplicates(g) {
      SearchSound(g);
    }
    forall s | IsSolution(s, g) ensures Search(g).solved {
      SearchComplete(g, s);
    }
    if Full(g) {
      SearchOnFull(g);
    }
  }
}
