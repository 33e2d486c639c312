/**
 `Board` (src/lib.rs): a 9×9 grid stored in place and the count `iter` of calls of `solve`. The
 grid is a two-dimensional array that `solve` overwrites cell by cell; the ghost field `cells`
 is the grid it holds, as a value, so that contracts can speak of it with the definitions of the
 Grids, Backtracking and Text modules.
 */
module Boards {
  import opened Wrappers
  import opened Grids
  import opened Backtracking
  import opened Text

  /** The box of a row (or column) index starts at `r - r % 3` and spans three indices, all on the board. */
  lemma BoxOrigin(r: int)
    requires 0 <= r < 9
    ensures 0 <= r - r % 3 && r - r % 3 + 2 <= 8
    ensures forall a :: 0 <= a < 9 ==> (a / 3 == r / 3 <==> r - r % 3 <= a < r - r % 3 + 3)
  {
    assert r == 0 || r == 1 || r == 2 || r == 3 || r == 4 || r == 5 || r == 6 || r == 7 || r == 8;
  }

  class Board {
    /** The cells, row by row: the source's `data: [[u8; 9]; 9]`. */
    const data: array2<int>
    /** How many times `solve` has been called on this board. */
    var iter: nat
    /** The grid `data` holds. */
    ghost var cells: Grid

    ghost predicate Valid()
      reads this, data
    {
      data.Length0 == 9 && data.Length1 == 9 && IsGrid(cells) &&
      forall r, c :: InRange(r, c) ==> data[r, c] == cells[r][c]
    }

    /** `Board::default`: the example puzzle, not yet searched. */
    constructor Default()
      ensures Valid() && fresh(data)
      ensures cells == DefaultGrid && iter == 0
    {
      data := new int[9, 9]((r, c) requires InRange(r, c) => DefaultGrid[r][c]);
      cells := DefaultGrid;
      iter := 0;
    }

    /** A board holding the grid `g`, not yet searched: the end of `Board::new`. */
    constructor FromGrid(g: Grid)
      requires IsGrid(g)
      ensures Valid() && fresh(data)
      ensures cells == g && iter == 0
    {
      data := new int[9, 9]((r, c) requires InRange(r, c) && |g| == 9 && |g[r]| == 9 => g[r][c]);
      cells := g;
      iter := 0;
    }

    /** `Board::new`: read a board from text, or report why the source panics. */
    static method New(s: string) returns (result: Result<Board, ParseError>)
      ensures ParseGrid(s).Err? ==> result == Err(ParseGrid(s).error)
      ensures ParseGrid(s).Ok? ==>
                result.Ok? && fresh(result.value) && fresh(result.value.data) && result.value.Valid() &&
                result.value.cells == ParseGrid(s).value && result.value.iter == 0
    {
      var lines := Lines(s);
      var rows: seq<seq<int>> := [];
      var k := 0;
      assert lines[k..] == lines;
      if ParseRows(lines).Ok? {
        assert [] + ParseRows(lines).value == ParseRows(lines).value;
      }
      while k < |lines|
        invariant 0 <= k <= |lines|
        invariant ParseRows(lines) == Prepend(rows, ParseRows(lines[k..]))
      {
        var digits := Digits(lines[k]);
        ParseRowsAt(lines, k);
        if |digits| < 1 {
          k := k + 1;
          continue;
        }
        if |digits| != 9 {
          return Err(DigitCount(|digits|));
        }
        PrependRow(rows, digits, ParseRows(lines[k + 1..]));
        rows := rows + [digits];
        k := k + 1;
      }
      assert lines[k..] == [];
      assert rows + [] == rows;
      if |rows| != 9 {
        return Err(LineCount(|rows|));
      }
      ParseGridIsGrid(s);
      var board := new Board.FromGrid(rows);
      return Ok(board);
    }

    /** `check_row`: `target` occurs nowhere in row `row`. */
    method CheckRow(row: int, target: int) returns (ok: bool)
      requires Valid() && 0 <= row < 9
      ensures ok == RowFree(cells, row, target)
    {
      var c := 0;
      while c < 9
        invariant 0 <= c <= 9
        invariant forall j :: 0 <= j < c ==> cells[row][j] != target
      {
        if data[row, c] == target {
          return false;
        }
        c := c + 1;
      }
      return true;
    }

    /** `check_column`: `target` occurs nowhere in column `column`. */
    method CheckColumn(column: int, target: int) returns (ok: bool)
      requires Valid() && 0 <= column < 9
      ensures ok == ColumnFree(cells, column, target)
    {
      var r := 0;
      while r < 9
        invariant 0 <= r <= 9
        invariant forall i :: 0 <= i < r ==> cells[i][column] != target
      {
        if data[r, column] == target {
          return false;
        }
        r := r + 1;
      }
      return true;
    }

    /** `check_square`: `target` occurs nowhere in the 3×3 box that contains (r, c). */
    method CheckSquare(r: int, c: int, target: int) returns (ok: bool)
      requires Valid() && InRange(r, c)
      ensures ok == BoxFree(cells, r, c, target)
    {
      var top, left := r - r % 3, c - c % 3;
      BoxOrigin(r);
      BoxOrigin(c);
      for i := 0 to 3
        invariant forall a, b :: top <= a < top + i && left <= b < left + 3 ==> cells[a][b] != target
      {
        var a := top + i;
        for j := 0 to 3
          invariant forall a, b :: top <= a < top + i && left <= b < left + 3 ==> cells[a][b] != target
          invariant forall b :: left <= b < left + j ==> cells[a][b] != target
        {
          if data[a, left + j] == target {
            assert SameBox(a, left + j, r, c);
            return false;
          }
        }
      }
      return true;
    }

    /**
     `check_valid`: with a row and a column, `target` may be placed at that cell; with only one of
     them, `target` is absent from that row or column; with neither, the answer is no.
     */
    method CheckValid(row: Option<int>, column: Option<int>, target: int) returns (ok: bool)
      requires Valid()
      requires row.Some? ==> 0 <= row.value < 9
      requires column.Some? ==> 0 <= column.value < 9
      ensures row.Some? && column.Some? ==> (ok <==> CanPlace(cells, row.value, column.value, target))
      ensures row.Some? && column.None? ==> (ok <==> RowFree(cells, row.value, target))
      ensures row.None? && column.Some? ==> (ok <==> ColumnFree(cells, column.value, target))
      ensures row.None? && column.None? ==> !ok
    {
      match (row, column)
      case (Some(r), Some(c)) =>
        ok := CheckRow(r, target);
        if ok {
          ok := CheckColumn(c, target);
        }
        if ok {
          ok := CheckSquare(r, c, target);
        }
      case (Some(r), None) =>
        ok := CheckRow(r, target);
      case (None, Some(c)) =>
        ok := CheckColumn(c, target);
      case (None, None) =>
        ok := false;
    }

    /**
     `solve`: count the call, find the first empty cell in row-major order, and try the digits
     1 to 9 there in ascending order, each one that passes `check_valid` written in place and
     searched on recursively, and reset to 0 when that search fails. The call does what `Search`
     describes, and so it never changes a given, restores the grid when it fails, and fills the
     grid with a solution when it succeeds on a legal grid; it fails only when there is none.
     */
    method Solve() returns (solved: bool)
      requires Valid()
      modifies this, data
      ensures Valid() && iter > old(iter)
      ensures Search(old(cells)) == Outcome(solved, cells, iter - old(iter))
      ensures Extends(cells, old(cells))
      ensures !solved ==> cells == old(cells)
      decreases ZeroCells(cells), 1
    {
      ghost var g := cells;
      iter := iter + 1;
      var r := 0;
      while r < 9
        invariant 0 <= r <= 9
        invariant Valid() && cells == g && iter == old(iter) + 1
        invariant FirstZeroFrom(g, r, 0) == FirstZero(g)
      {
        var c := 0;
        while c < 9
          invariant 0 <= c <= 9
          invariant Valid() && cells == g && iter == old(iter) + 1
          invariant FirstZeroFrom(g, r, c) == FirstZero(g)
        {
          if data[r, c] > 0 {
            c := c + 1;
            continue;
          }
          SearchAt(g, r, c);
          solved := TryCell(r, c);
          SearchGuarantees(g);
          return;
        }
        r := r + 1;
      }
      SearchGuarantees(g);
      return true;
    }

    /**
     The body of `solve` at its first empty cell (r, c): each digit from 1 to 9 that passes
     `check_valid` is written there and searched on, until a search succeeds; a failed search
     resets the cell to 0. The call does what `TryDigits` describes from digit 1.
     */
    method TryCell(r: int, c: int) returns (solved: bool)
      requires Valid() && InRange(r, c) && cells[r][c] == 0
      modifies this, data
      ensures Valid() && iter >= old(iter)
      ensures TryDigits(old(cells), r, c, 1) == Outcome(solved, cells, iter - old(iter))
      decreases ZeroCells(cells), 0
    {
      ghost var g := cells;
      var i := 1;
      while i <= 9
        invariant 1 <= i <= 10
        invariant Valid() && cells == g && iter >= old(iter)
        invariant TryDigits(g, r, c, 1) == TryDigits(g, r, c, i).After(iter - old(iter))
      {
        var ok := CheckValid(Some(r), Some(c), i);
        TryDigitsAt(g, r, c, i);
        if ok {
          ghost var before := iter;
          SetCell(r, c, i);
          PlaceShrinksZeros(g, r, c, i);
          solved := Solve();
          if solved {
            return true;
          } else {
            SetCell(r, c, 0);
            PlaceUndo(g, r, c, i);
            AfterAfter(TryDigits(g, r, c, i + 1), iter - before, before - old(iter));
          }
        }
        i := i + 1;
      }
      return false;
    }

    /** `self.data[r][c] = v`: one cell overwritten, every other cell and the count unchanged. */
    method SetCell(r: int, c: int, v: int)
      requires Valid() && InRange(r, c) && 0 <= v <= 9
      modifies this, data
      ensures Valid() && cells == Place(old(cells), r, c, v) && iter == old(iter)
    {
      data[r, c] := v;
      cells := Place(cells, r, c, v);
    }

    /** `Display::fmt`: the grid as text, rows separated by divider lines, then the call count. */
    method Fmt() returns (s: string)
      requires Valid()
      ensures s == Display(cells, iter)
    {
      var output := "";
      var x := 0;
      while x < 9
        invariant 0 <= x <= 9
        invariant Render(cells) == output + RenderFrom(cells, x)
      {
        ghost var rowStart := output;
        ghost var row := cells[x];
        RenderFromStep(rowStart, cells, x);
        var y := 0;
        while y < 9
          invariant 0 <= y <= 9
          invariant rowStart + RowText(row) == output + CellsFrom(row, y)
        {
          var value := [DigitChar(data[x, y])];
          var line := if y == data.Length1 - 1 then value
                      else if y % 3 == 2 then value + " | "
                      else value + " ";
          CellsFromStep(output, row, y, line);
          output := output + line;
          y := y + 1;
        }
        var divider := DrawDivider();
        if x != data.Length0 - 1 {
          output := output + "\n" + divider + "\n";
        }
        x := x + 1;
      }
      DisplayAfterRender(output, cells, iter);
      s := output + "\n" + "iterations: " + NatToString(iter);
    }

    /** The divider block of `fmt`: `data[0].len() * 2 + data.len() % 2 + 2` dashes. */
    method DrawDivider() returns (divider: string)
      requires Valid()
      ensures divider == Divider
    {
      var length := data.Length1 * 2 + data.Length0 % 2 + 2;
      divider := "";
      var k := 0;
      while k < length
        invariant 0 <= k <= length
        invariant divider == Dashes(k)
      {
        divider := divider + "-";
        k := k + 1;
      }
    }
  }
}
