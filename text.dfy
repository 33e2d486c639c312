/**
 The text side of `Board` (src/lib.rs): `Board::new` reads a grid from text, keeping only the
 characters that are single decimal digits and skipping lines without any, and `Display::fmt`
 renders a grid with `|` between the boxes of a row, a line of dashes between rows and a closing
 `iterations:` line. Strings are sequences of characters; the source's panics are `Err` values.
 */
module Text {
  import opened Wrappers
  import opened Grids

  /** Why `Board::new` gives up: a line with digits but not nine of them, or not nine digit lines. */
  datatype ParseError = DigitCount(found: nat) | LineCount(found: nat)

  predicate IsDigitChar(ch: char) {
    '0' <= ch <= '9'
  }

  /** The character `v.to_string()` yields for a cell value. */
  function DigitChar(v: int): (ch: char)
    requires 0 <= v <= 9
    ensures IsDigitChar(ch) && ch as int - '0' as int == v
  {
    (v + '0' as int) as char
  }

  /** Nine cells, each 0 or a digit: one row of a grid. */
  predicate IsRow(row: seq<int>) {
    |row| == 9 && forall c :: 0 <= c < 9 ==> 0 <= row[c] <= 9
  }

  // ---------------------------------------------------------------------------------------------
  // Reading: Board::new

  /** `s.split("\n")`: the pieces between newline characters, in order; there is always one. */
  function Lines(s: string): (ls: seq<string>)
    ensures |ls| >= 1
    ensures forall i :: 0 <= i < |ls| ==> '\n' !in ls[i]
  {
    if s == [] then [""]
    else
      var rest := Lines(s[1..]);
      if s[0] == '\n' then [""] + rest
      else [[s[0]] + rest[0]] + rest[1..]
  }

  /** The values of the characters of `line` that parse as a single digit, in order; the rest is dropped. */
  function Digits(line: string): (ds: seq<int>)
    ensures |ds| <= |line|
    ensures forall i :: 0 <= i < |ds| ==> 0 <= ds[i] <= 9
  {
    if line == [] then []
    else (if IsDigitChar(line[0]) then [line[0] as int - '0' as int] else []) + Digits(line[1..])
  }

  function Prepend(rows: seq<seq<int>>, res: Result<seq<seq<int>>, ParseError>): Result<seq<seq<int>>, ParseError> {
    match res
    case Ok(rest) => Ok(rows + rest)
    case Err(e) => Err(e)
  }

  /**
   The rows `Board::new` collects from `lines`, front to back: a line without digits is skipped,
   a line with nine digits becomes a row, and any other line stops the parse.
   */
  function ParseRows(lines: seq<string>): Result<seq<seq<int>>, ParseError> {
    if lines == [] then Ok([])
    else
      var d := Digits(lines[0]);
      if |d| == 0 then ParseRows(lines[1..])
      else if |d| != 9 then Err(DigitCount(|d|))
      else Prepend([d], ParseRows(lines[1..]))
  }

  /** `Board::new(s)`'s grid, or the reason it panics. */
  function ParseGrid(s: string): Result<Grid, ParseError> {
    match ParseRows(Lines(s))
    case Err(e) => Err(e)
    case Ok(rows) => if |rows| != 9 then Err(LineCount(|rows|)) else Ok(rows)
  }

  /** The digit lists of the lines that have any digits, in order. */
  function DigitLines(lines: seq<string>): (rows: seq<seq<int>>)
    ensures forall i :: 0 <= i < |rows| ==> rows[i] != []
    ensures forall i, j :: 0 <= i < |rows| && 0 <= j < |rows[i]| ==> 0 <= rows[i][j] <= 9
  {
    if lines == [] then []
    else (if Digits(lines[0]) == [] then [] else [Digits(lines[0])]) + DigitLines(lines[1..])
  }

  // ---------------------------------------------------------------------------------------------
  // Writing: Display::fmt

  /** What follows the value in column `y` of a row. */
  function Separator(y: int): string {
    if y == 8 then "" else if y % 3 == 2 then " | " else " "
  }

  /** Columns y..8 of a row, as text. */
  function CellsFrom(row: seq<int>, y: int): string
    requires IsRow(row) && 0 <= y <= 9
    decreases |row| - y
  {
    if y == 9 then "" else [DigitChar(row[y])] + Separator(y) + CellsFrom(row, y + 1)
  }

  function RowText(row: seq<int>): string
    requires IsRow(row)
  {
    CellsFrom(row, 0)
  }

  /** A run of `n` dashes. */
  function Dashes(n: nat): (s: string)
    ensures |s| == n && forall i :: 0 <= i < n ==> s[i] == '-'
  {
    if n == 0 then "" else Dashes(n - 1) + "-"
  }

  /** The divider line between rows: 9 * 2 + 9 % 2 + 2 dashes. */
  const Divider: string := Dashes(9 * 2 + 9 % 2 + 2)

  /** Rows x..8 of the grid, as text, with a divider line between consecutive rows. */
  function RenderFrom(g: Grid, x: int): string
    requires IsGrid(g) && 0 <= x <= 9
    decreases |g| - x
  {
    if x == 9 then ""
    else RowText(g[x]) + (if x == 8 then "" else "\n" + Divider + "\n") + RenderFrom(g, x + 1)
  }

  function Render(g: Grid): string
    requires IsGrid(g)
  {
    RenderFrom(g, 0)
  }

  /** The decimal text of `n`, as `usize`'s `Display` writes it. */
  function NatToString(n: nat): string
  {
    if n < 10 then [DigitChar(n)] else NatToString(n / 10) + [DigitChar(n % 10)]
  }

  /** The closing line of the rendering. */
  function IterationsLine(iter: nat): string {
    "iterations: " + NatToString(iter)
  }

  /** What `format!("{board}")` yields for grid `g` after `iter` calls of `solve`. */
  function Display(g: Grid, iter: nat): string
    requires IsGrid(g)
  {
    Render(g) + "\n" + IterationsLine(iter)
  }

  /** The number whose decimal digits are `ds`, most significant first. */
  function DecimalValue(ds: seq<int>): int {
    if ds == [] then 0 else DecimalValue(ds[..|ds| - 1]) * 10 + ds[|ds| - 1]
  }

  // ---------------------------------------------------------------------------------------------
  // Lemmas: splitting and digits

  /** A piece without newlines is a single line. */
  lemma {:induction false} LinesOfLine(a: string)
    requires '\n' !in a
    ensures Lines(a) == [a]
  {
    if a != [] {
      LinesOfLine(a[1..]);
      assert [a[0]] + a[1..] == a;
    }
  }

  /** Splitting at a newline splits the lines: `a + "\n" + b` has the lines of `a`, then those of `b`. */
  lemma {:induction false} LinesAppend(a: string, b: string)
    ensures Lines(a + "\n" + b) == Lines(a) + Lines(b)
  {
    if a == [] {
      assert a + "\n" + b == "\n" + b;
      assert ("\n" + b)[1..] == b;
    } else {
      assert (a + "\n" + b)[1..] == a[1..] + "\n" + b;
      LinesAppend(a[1..], b);
    }
  }

  lemma {:induction false} DigitsAppend(a: string, b: string)
    ensures Digits(a + b) == Digits(a) + Digits(b)
  {
    if a == [] {
      assert a + b == b;
    } else {
      assert (a + b)[0] == a[0];
      assert (a + b)[1..] == a[1..] + b;
      DigitsAppend(a[1..], b);
    }
  }

  /** A string with no digit characters yields no digits. */
  lemma {:induction false} DigitsOfNonDigits(s: string)
    requires forall i :: 0 <= i < |s| ==> !IsDigitChar(s[i])
    ensures Digits(s) == []
  {
    if s != [] {
      DigitsOfNonDigits(s[1..]);
    }
  }

  /** A string of digit characters yields one digit per character. */
  lemma {:induction false} DigitsOfDigitString(s: string)
    requires forall i :: 0 <= i < |s| ==> IsDigitChar(s[i])
    ensures |Digits(s)| == |s|
  {
    if s != [] {
      DigitsOfDigitString(s[1..]);
    }
  }

  lemma {:induction false} ParseRowsAppend(a: seq<string>, b: seq<string>)
    ensures ParseRows(a + b) ==
              match ParseRows(a)
              case Err(e) => Err(e)
              case Ok(rows) => Prepend(rows, ParseRows(b))
  {
    if a == [] {
      assert a + b == b;
      match ParseRows(b)
      case Err(e) =>
      case Ok(rest) => assert [] + rest == rest;
    } else {
      assert (a + b)[0] == a[0];
      assert (a + b)[1..] == a[1..] + b;
      ParseRowsAppend(a[1..], b);
      var d := Digits(a[0]);
      if |d| == 9 {
        match ParseRows(a[1..])
        case Err(e) =>
        case Ok(rows) =>
          match ParseRows(b)
          case Err(e) =>
          case Ok(rest) => assert [d] + (rows + rest) == ([d] + rows) + rest;
      }
    }
  }

  /** One step of `ParseRows` at line k, for a reader that walks the lines in order. */
  lemma ParseRowsAt(lines: seq<string>, k: int)
    requires 0 <= k < |lines|
    ensures Digits(lines[k]) == [] ==> ParseRows(lines[k..]) == ParseRows(lines[k + 1..])
    ensures Digits(lines[k]) != [] && |Digits(lines[k])| != 9 ==>
              ParseRows(lines[k..]) == Err(DigitCount(|Digits(lines[k])|))
    ensures |Digits(lines[k])| == 9 ==> ParseRows(lines[k..]) == Prepend([Digits(lines[k])], ParseRows(lines[k + 1..]))
  {
    assert lines[k..][0] == lines[k];
    assert lines[k..][1..] == lines[k + 1..];
  }

  /** Rows collected so far, then one more, then the rest: the same as collecting both at once. */
  lemma PrependRow(rows: seq<seq<int>>, d: seq<int>, res: Result<seq<seq<int>>, ParseError>)
    ensures Prepend(rows, Prepend([d], res)) == Prepend(rows + [d], res)
  {
    if res.Ok? {
      assert rows + ([d] + res.value) == (rows + [d]) + res.value;
    }
  }

  /**
   `Board::new` succeeds exactly when every line that has digits has nine of them, and the rows
   are then those lines' digits; otherwise it reports the count of the first line that has digits
   but not nine.
   */
  lemma ParseRowsSpec(lines: seq<string>)
    ensures ParseRows(lines).Ok? ==> forall i :: 0 <= i < |DigitLines(lines)| ==> |DigitLines(lines)[i]| == 9
    ensures (forall i :: 0 <= i < |DigitLines(lines)| ==> |DigitLines(lines)[i]| == 9) ==> ParseRows(lines).Ok?
    ensures ParseRows(lines).Ok? ==> ParseRows(lines).value == DigitLines(lines)
    ensures ParseRows(lines).Err? ==>
              ParseRows(lines).error.DigitCount? &&
              exists i :: 0 <= i < |DigitLines(lines)| &&
                          |DigitLines(lines)[i]| == ParseRows(lines).error.found != 9 &&
                          forall j :: 0 <= j < i ==> |DigitLines(lines)[j]| == 9
  {
    RowsReadHolds(lines);
    assert RowsRead(lines);
  }

  /** What `ParseRows` yields, stated over the digit lines: the three facts of `ParseRowsSpec`. */
  ghost predicate RowsRead(lines: seq<string>) {
    (ParseRows(lines).Ok? <==> forall i :: 0 <= i < |DigitLines(lines)| ==> |DigitLines(lines)[i]| == 9) &&
    (ParseRows(lines).Ok? ==> ParseRows(lines).value == DigitLines(lines)) &&
    (ParseRows(lines).Err? ==>
       ParseRows(lines).error.DigitCount? &&
       exists i :: 0 <= i < |DigitLines(lines)| &&
                   |DigitLines(lines)[i]| == ParseRows(lines).error.found != 9 &&
                   forall j :: 0 <= j < i ==> |DigitLines(lines)[j]| == 9)
  }

  lemma {:induction false} RowsReadHolds(lines: seq<string>)
    ensures RowsRead(lines)
  {
    if lines != [] {
      RowsReadHolds(lines[1..]);
      var d := Digits(lines[0]);
      if |d| == 0 {
        BlankLineStep(lines);
      } else if |d| != 9 {
        BadLineStep(lines);
      } else {
        RowLineStep(lines);
      }
    }
  }

  lemma BlankLineStep(lines: seq<string>)
    requires lines != [] && Digits(lines[0]) == [] && RowsRead(lines[1..])
    ensures RowsRead(lines)
  {
    assert DigitLines(lines) == DigitLines(lines[1..]);
    assert ParseRows(lines) == ParseRows(lines[1..]);
  }

  lemma BadLineStep(lines: seq<string>)
    requires lines != [] && Digits(lines[0]) != [] && |Digits(lines[0])| != 9
    ensures RowsRead(lines)
  {
    var all := DigitLines(lines);
    assert all == [Digits(lines[0])] + DigitLines(lines[1..]);
    assert all[0] == Digits(lines[0]);
    assert ParseRows(lines) == Err(DigitCount(|Digits(lines[0])|));
  }

  lemma RowLineStep(lines: seq<string>)
    requires lines != [] && |Digits(lines[0])| == 9 && RowsRead(lines[1..])
    ensures RowsRead(lines)
  {
    var d := Digits(lines[0]);
    var rest := DigitLines(lines[1..]);
    var all := DigitLines(lines);
    assert all == [d] + rest;
    assert all[0] == d;
    assert forall j :: 1 <= j < |all| ==> all[j] == rest[j - 1];
    if ParseRows(lines[1..]).Err? {
      var i :| 0 <= i < |rest| && |rest[i]| == ParseRows(lines[1..]).error.found != 9 &&
               forall j :: 0 <= j < i ==> |rest[j]| == 9;
      assert all[i + 1] == rest[i];
    } else {
      assert ParseRows(lines) == Ok([d] + rest);
    }
  }

  /** A successful parse yields nine rows of nine digits. */
  lemma ParseGridIsGrid(s: string)
    ensures ParseGrid(s).Ok? ==> IsGrid(ParseGrid(s).value)
  {
    ParseRowsSpec(Lines(s));
  }

  // ---------------------------------------------------------------------------------------------
  // Lemmas: layout and round trips

  function Offset(y: int): int {
    if y == 9 then 21 else 2 * y + 2 * (y / 3)
  }

  /** Each cell with its separator advances the row's text from one offset to the next. */
  lemma OffsetStep(y: int)
    requires 0 <= y < 9
    ensures Offset(y + 1) - Offset(y) == 1 + |Separator(y)|
  {
    assert y == 0 || y == 1 || y == 2 || y == 3 || y == 4 || y == 5 || y == 6 || y == 7 || y == 8;
  }

  lemma {:induction false} CellsFromLength(row: seq<int>, y: int)
    requires IsRow(row) && 0 <= y <= 9
    ensures |CellsFrom(row, y)| == 21 - Offset(y)
    ensures '\n' !in CellsFrom(row, y)
    decreases 9 - y
  {
    if y < 9 {
      CellsFromLength(row, y + 1);
      OffsetStep(y);
    }
  }

  /** A cell's character reads back as its value. */
  lemma DigitsOfCell(v: int)
    requires 0 <= v <= 9
    ensures Digits([DigitChar(v)]) == [v]
  {
    assert [DigitChar(v)][1..] == [];
  }

  /** A separator adds no digits to the text after it. */
  lemma SeparatorThenText(y: int, t: string)
    ensures Digits(Separator(y) + t) == Digits(t)
  {
    var sep := Separator(y);
    forall i | 0 <= i < |sep| ensures !IsDigitChar(sep[i]) {
    }
    DigitsOfNonDigits(sep);
    DigitsAppend(sep, t);
  }

  lemma {:induction false} CellsFromDigits(row: seq<int>, y: int)
    requires IsRow(row) && 0 <= y <= 9
    ensures Digits(CellsFrom(row, y)) == row[y..]
    decreases 9 - y
  {
    if y < 9 {
      var cell := [DigitChar(row[y])];
      var rest := Separator(y) + CellsFrom(row, y + 1);
      assert CellsFrom(row, y) == cell + rest;
      DigitsAppend(cell, rest);
      DigitsOfCell(row[y]);
      SeparatorThenText(y, CellsFrom(row, y + 1));
      CellsFromDigits(row, y + 1);
      assert row[y..] == [row[y]] + row[y + 1..];
    }
  }

  /** Cell k of a row sits at its offset, counted from the start of the text of cells y..8. */
  lemma {:induction false} CellsFromPosition(row: seq<int>, y: int, k: int)
    requires IsRow(row) && 0 <= y <= k < 9
    ensures Offset(k) - Offset(y) < |CellsFrom(row, y)|
    ensures CellsFrom(row, y)[Offset(k) - Offset(y)] == DigitChar(row[k])
    decreases 9 - y
  {
    var head := [DigitChar(row[y])] + Separator(y);
    var tail := CellsFrom(row, y + 1);
    assert CellsFrom(row, y) == head + tail;
    CellsFromLength(row, y + 1);
    OffsetStep(y);
    if y < k {
      CellsFromPosition(row, y + 1, k);
      assert (head + tail)[Offset(k) - Offset(y)] == tail[Offset(k) - Offset(y + 1)];
    }
  }

  /**
   A rendered row is 21 characters wide, as wide as the divider, holds no line break, shows
   column y's value at position 2 * y + 2 * (y / 3), and reads back as the row itself.
   */
  lemma RowTextLayout(row: seq<int>)
    requires IsRow(row)
    ensures |RowText(row)| == |Divider| == 21
    ensures '\n' !in RowText(row)
    ensures Digits(RowText(row)) == row
    ensures forall y :: 0 <= y < 9 ==> RowText(row)[2 * y + 2 * (y / 3)] == DigitChar(row[y])
  {
    CellsFromLength(row, 0);
    CellsFromDigits(row, 0);
    forall y | 0 <= y < 9 ensures RowText(row)[2 * y + 2 * (y / 3)] == DigitChar(row[y]) {
      CellsFromPosition(row, 0, y);
    }
  }

  /** Rows x..8 of a rendering: row x alone when it is the last, else row x, a divider and the rest. */
  lemma RenderFromUnfold(g: Grid, x: int)
    requires IsGrid(g) && 0 <= x < 9
    ensures x == 8 ==> RenderFrom(g, x) == RowText(g[x])
    ensures x < 8 ==> RenderFrom(g, x) == RowText(g[x]) + "\n" + (Divider + "\n" + RenderFrom(g, x + 1))
  {
    var row := RowText(g[x]);
    if x == 8 {
      assert RenderFrom(g, x) == row + "" + "";
      assert row + "" + "" == row;
    } else {
      assert RenderFrom(g, x) == row + ("\n" + Divider + "\n") + RenderFrom(g, x + 1);
      Reassociate(row, Divider, RenderFrom(g, x + 1));
    }
  }

  /** Text before `CellsFrom(row, y)`, then cell y's text `cell`, then the rest of the row. */
  lemma CellsFromStep(pre: string, row: seq<int>, y: int, cell: string)
    requires IsRow(row) && 0 <= y < 9
    requires cell == if y == 8 then [DigitChar(row[y])]
                     else if y % 3 == 2 then [DigitChar(row[y])] + " | "
                     else [DigitChar(row[y])] + " "
    ensures pre + CellsFrom(row, y) == pre + cell + CellsFrom(row, y + 1)
  {
  }

  /** Text before `RenderFrom(g, x)`, then row x, its divider and the rows below. */
  lemma RenderFromStep(pre: string, g: Grid, x: int)
    requires IsGrid(g) && 0 <= x < 9
    ensures x < 8 ==> pre + RenderFrom(g, x) == pre + RowText(g[x]) + "\n" + Divider + "\n" + RenderFrom(g, x + 1)
    ensures x == 8 ==> pre + RenderFrom(g, x) == pre + RowText(g[x])
  {
  }

  /** The board's text followed by the iterations line is its `Display`. */
  lemma DisplayAfterRender(out: string, g: Grid, iter: nat)
    requires IsGrid(g) && out == Render(g)
    ensures out + "\n" + "iterations: " + NatToString(iter) == Display(g, iter)
  {
  }

  lemma Reassociate(a: string, d: string, b: string)
    ensures a + ("\n" + d + "\n") + b == a + "\n" + (d + "\n" + b)
  {
  }

  /** The lines of rows x..8 of a rendering: row x, then a divider and the lines of the rest. */
  lemma LinesOfRenderFrom(g: Grid, x: int)
    requires IsGrid(g) && 0 <= x < 9
    ensures x == 8 ==> Lines(RenderFrom(g, x)) == [RowText(g[x])]
    ensures x < 8 ==> Lines(RenderFrom(g, x)) == [RowText(g[x])] + ([Divider] + Lines(RenderFrom(g, x + 1)))
  {
    var row := RowText(g[x]);
    CellsFromLength(g[x], 0);
    LinesOfLine(row);
    RenderFromUnfold(g, x);
    if x < 8 {
      var rest := RenderFrom(g, x + 1);
      LinesAppend(row, Divider + "\n" + rest);
      LinesAppend(Divider, rest);
      DividerIsBlank();
      LinesOfLine(Divider);
    }
  }

  /** The divider line holds neither digits nor line breaks. */
  lemma DividerIsBlank()
    ensures Digits(Divider) == [] && '\n' !in Divider
  {
    DigitsOfNonDigits(Divider);
  }

  /** A rendered row is read back as that row. */
  lemma ParseRow(row: seq<int>)
    requires IsRow(row)
    ensures ParseRows([RowText(row)]) == Ok([row])
  {
    RowTextLayout(row);
    assert [RowText(row)][1..] == [];
    assert [row] + [] == [row];
  }

  /** A rendered row followed by a divider line is read back as that row; the divider is skipped. */
  lemma ParseRowThenDivider(row: seq<int>, more: seq<string>)
    requires IsRow(row)
    ensures ParseRows([RowText(row)] + ([Divider] + more)) == Prepend([row], ParseRows(more))
  {
    RowTextLayout(row);
    DividerIsBlank();
    var ls := [RowText(row)] + ([Divider] + more);
    assert ls[0] == RowText(row);
    assert ls[1..] == [Divider] + more;
    assert ([Divider] + more)[1..] == more;
  }

  lemma EmptyTextReadsBack()
    ensures ParseRows(Lines("")) == Ok([])
  {
    assert Lines("") == [""];
    assert Digits("") == [];
    assert [""][1..] == [];
  }

  lemma {:induction false} RenderFromReadsBack(g: Grid, x: int)
    requires IsGrid(g) && 0 <= x <= 9
    ensures ParseRows(Lines(RenderFrom(g, x))) == Ok(g[x..])
    decreases 9 - x
  {
    if x == 9 {
      assert RenderFrom(g, x) == "";
      EmptyTextReadsBack();
      assert g[x..] == [];
    } else if x == 8 {
      assert g[x..] == [g[x]];
      LinesOfRenderFrom(g, x);
      ParseRow(g[x]);
    } else {
      assert g[x..] == [g[x]] + g[x + 1..];
      var more := Lines(RenderFrom(g, x + 1));
      LinesOfRenderFrom(g, x);
      ParseRowThenDivider(g[x], more);
      RenderFromReadsBack(g, x + 1);
    }
  }

  /** Reading a rendered grid back gives the grid: separators and dividers are skipped by the parser. */
  lemma RenderRoundTrip(g: Grid)
    requires IsGrid(g)
    ensures ParseGrid(Render(g)) == Ok(g)
  {
    RenderFromReadsBack(g, 0);
    assert g[0..] == g;
  }

  /** The decimal text of `n` is a non-empty run of digits, without a leading zero, whose value is `n`. */
  lemma {:induction false} NatToStringRoundTrip(n: nat)
    ensures |NatToString(n)| >= 1
    ensures forall i :: 0 <= i < |NatToString(n)| ==> IsDigitChar(NatToString(n)[i])
    ensures NatToString(n)[0] == '0' ==> n == 0
    ensures DecimalValue(Digits(NatToString(n))) == n
  {
    if n < 10 {
      assert Digits(NatToString(n)) == [n];
      assert [n][..0] == [];
    } else {
      NatToStringRoundTrip(n / 10);
      var prefix := NatToString(n / 10);
      DigitsAppend(prefix, [DigitChar(n % 10)]);
      assert Digits([DigitChar(n % 10)]) == [n % 10];
      var ds := Digits(prefix) + [n % 10];
      assert ds[..|ds| - 1] == Digits(prefix);
    }
  }

  /** The caption of the closing line holds no digit and no line break. */
  lemma CaptionIsBlank()
    ensures Digits("iterations: ") == []
    ensures '\n' !in "iterations: "
  {
    CaptionHasNoDigits();
    CaptionIsOneLine();
  }

  lemma CaptionHasNoDigits()
    ensures Digits("iterations: ") == []
  {
    var caption := "iterations: ";
    forall i | 0 <= i < |caption| ensures !IsDigitChar(caption[i]) {
    }
    DigitsOfNonDigits(caption);
  }

  lemma CaptionIsOneLine()
    ensures '\n' !in "iterations: "
  {
  }

  /** A digit-free, single-line caption followed by a number reads as one line with the number's digits. */
  lemma CaptionThenNumber(caption: string, number: string)
    requires Digits(caption) == [] && '\n' !in caption
    requires forall i :: 0 <= i < |number| ==> IsDigitChar(number[i])
    ensures '\n' !in caption + number
    ensures Digits(caption + number) == Digits(number) && |Digits(number)| == |number|
  {
    DigitsAppend(caption, number);
    DigitsOfDigitString(number);
    forall i | 0 <= i < |caption + number| ensures (caption + number)[i] != '\n' {
      if i < |caption| {
        assert (caption + number)[i] == caption[i];
      } else {
        assert (caption + number)[i] == number[i - |caption|];
      }
    }
  }

  /** The closing line holds no line break. */
  lemma IterationsLineIsOneLine(iter: nat)
    ensures '\n' !in IterationsLine(iter)
  {
    CaptionIsBlank();
    NatToStringRoundTrip(iter);
    CaptionThenNumber("iterations: ", NatToString(iter));
  }

  /** The digits of the closing line are those of the count: at least one of them. */
  lemma IterationsLineDigits(iter: nat)
    ensures Digits(IterationsLine(iter)) == Digits(NatToString(iter))
    ensures |Digits(IterationsLine(iter))| >= 1
  {
    CaptionIsBlank();
    NatToStringRoundTrip(iter);
    CaptionThenNumber("iterations: ", NatToString(iter));
  }

  /** A text that parses, followed by one more line that has digits, no longer parses. */
  lemma ExtraDigitLineFails(t: string, last: string)
    requires ParseGrid(t).Ok? && '\n' !in last && Digits(last) != []
    ensures ParseGrid(t + "\n" + last).Err?
  {
    LinesAppend(t, last);
    LinesOfLine(last);
    ParseRowsAppend(Lines(t), [last]);
    assert [last][1..] == [];
  }

  /**
   The full `Display` output never reads back through `Board::new`: the closing `iterations:`
   line contributes its digits as one more digit line.
   */
  lemma DisplayDoesNotReparse(g: Grid, iter: nat)
    requires IsGrid(g)
    ensures ParseGrid(Display(g, iter)).Err?
  {
    IterationsLineIsOneLine(iter);
    IterationsLineDigits(iter);
    RenderRoundTrip(g);
    ExtraDigitLineFails(Render(g), IterationsLine(iter));
  }
}
