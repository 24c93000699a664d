/** The month grid built by `generarDiasDelMes`: six week rows of seven
    Monday-first columns; each day of the month sits, as its `%2d` rendering, in
    the column of its weekday, and the row advances after every Sunday. */
module Grid {
  import opened Dates
  import opened Format

  const WeekRows := 6
  const WeekDays := 7

  /** What a cell holds when no day is written into it: two spaces, the width of `%2d`. */
  const Blank := "  "

  /** Column of a Sunday-first weekday index in a Monday-first week. */
  function MondayColumn(w: int): (c: int)
    requires Sunday <= w <= Saturday
    ensures 0 <= c < WeekDays
    ensures c == (w + 6) % 7
  {
    if w == Sunday then 6 else w - 1
  }

  /** Column of day `d` of month `m` of year `y`. */
  function DayColumn(y: int, m: int, d: int): (c: int)
    requires ValidDate(Date(y, m, d))
    ensures 0 <= c < WeekDays
    ensures c == WeekDays - 1 <==> Weekday(Date(y, m, d)) == Sunday
  {
    MondayColumn(Weekday(Date(y, m, d)))
  }

  /** Column of the first day of the month. */
  function FirstColumn(y: int, m: int): (c: int)
    requires January <= m <= December
    ensures 0 <= c < WeekDays
  {
    DayColumn(y, m, 1)
  }

  /** Row of day `d`: the row starts at 0 and moves on after each Sunday, so it
      is the number of Sundays among the days of the month before `d`. */
  function WeekRow(y: int, m: int, d: int): nat
    requires ValidDate(Date(y, m, d))
    decreases d
  {
    if d == 1 then 0
    else WeekRow(y, m, d - 1) + (if Weekday(Date(y, m, d - 1)) == Sunday then 1 else 0)
  }

  /** The cell at row-major position `i` when `count` days are laid out from position `first`. */
  function CellAtIndex(first: int, count: int, i: int): string
  {
    if first <= i < first + count then Width2(i - first + 1) else Blank
  }

  /** The six-by-seven grid with `count` days laid out from position `first` of row 0. */
  function GridOf(first: int, count: int): (g: seq<seq<string>>)
    ensures |g| == WeekRows
    ensures forall r :: 0 <= r < WeekRows ==> |g[r]| == WeekDays
  {
    seq(WeekRows, r => seq(WeekDays, c => CellAtIndex(first, count, WeekDays * r + c)))
  }

  /** The grid `generarDiasDelMes(y, m)` returns. */
  function MonthGrid(y: int, m: int): (g: seq<seq<string>>)
    requires January <= m <= December
    ensures |g| == WeekRows
    ensures forall r :: 0 <= r < WeekRows ==> |g[r]| == WeekDays
  {
    GridOf(FirstColumn(y, m), DaysInMonth(y, m))
  }

  /** The rows of a two-dimensional array, as a sequence of sequences. */
  function Rows(a: array2<string>): (s: seq<seq<string>>)
    reads a
    ensures |s| == a.Length0
    ensures forall r :: 0 <= r < a.Length0 ==> |s[r]| == a.Length1
    ensures forall r, c :: 0 <= r < a.Length0 && 0 <= c < a.Length1 ==> s[r][c] == a[r, c]
  {
    seq(a.Length0, r requires 0 <= r < a.Length0 reads a =>
      seq(a.Length1, c requires 0 <= c < a.Length1 reads a => a[r, c]))
  }

  /** `generarDiasDelMes`: allocate the grid, blank every cell, then walk the dates
      of the month from the first, writing each day into its weekday's column of
      the current row and moving to the next row after a Sunday. */
  method BuildMonthGrid(year: int, month: int) returns (grid: array2<string>)
    requires January <= month <= December
    ensures Rows(grid) == MonthGrid(year, month)
  {
    grid := NewBlankGrid();

    ghost var first := FirstColumn(year, month);
    ghost var n := DaysInMonth(year, month);
    ghost var k := 1;  // the day of the month `day` denotes while it is in the month
    var row := 0;
    var day := Date(year, month, 1);
    while day.month == month
      invariant 1 <= k <= n + 1
      invariant k <= n ==> day == Date(year, month, k)
      invariant k == n + 1 ==> day.month != month
      invariant row == (first + k - 1) / WeekDays
      invariant forall r, c :: 0 <= r < WeekRows && 0 <= c < WeekDays ==>
                  grid[r, c] == CellAtIndex(first, k - 1, WeekDays * r + c)
      decreases n + 1 - k
    {
      DayColumnFromFirst(year, month, k);
      PlacementStep(first, k, n);
      var column := Weekday(day);
      if column == Sunday {
        column := 6;
      } else {
        column := column - 1;
      }
      grid[row, column] := Width2(day.day);
      if column == 6 {
        row := row + 1;
      }
      day := NextDay(day);
      k := k + 1;
    }

    RowsOfLayout(grid, first, n);
  }

  /** An array holding the layout of `count` days from `first`, cell by cell, has its rows. */
  lemma RowsOfLayout(a: array2<string>, first: int, count: int)
    requires a.Length0 == WeekRows && a.Length1 == WeekDays
    requires forall r, c :: 0 <= r < WeekRows && 0 <= c < WeekDays ==>
               a[r, c] == CellAtIndex(first, count, WeekDays * r + c)
    ensures Rows(a) == GridOf(first, count)
  {
    forall r | 0 <= r < WeekRows
      ensures Rows(a)[r] == GridOf(first, count)[r]
    {
      assert forall c :: 0 <= c < WeekDays ==> Rows(a)[r][c] == GridOf(first, count)[r][c];
    }
  }

  /** The first part of `generarDiasDelMes`: a new six-by-seven grid of blank cells. */
  method NewBlankGrid() returns (grid: array2<string>)
    ensures fresh(grid)
    ensures grid.Length0 == WeekRows && grid.Length1 == WeekDays
    ensures forall r, c :: 0 <= r < WeekRows && 0 <= c < WeekDays ==> grid[r, c] == Blank
  {
    grid := new string[WeekRows, WeekDays];
    for i := 0 to WeekRows
      invariant forall r, c :: 0 <= r < i && 0 <= c < WeekDays ==> grid[r, c] == Blank
    {
      for j := 0 to WeekDays
        invariant forall r, c :: 0 <= r < i && 0 <= c < WeekDays ==> grid[r, c] == Blank
        invariant forall c :: 0 <= c < j ==> grid[i, c] == Blank
      {
        grid[i, j] := Blank;
      }
    }
  }

  /** Writing day `k` at position `first + k - 1` turns the layout of `k - 1` days
      into that of `k` days; the position is in the grid, and the row moves on
      exactly after the last column. */
  lemma PlacementStep(first: int, k: int, n: int)
    requires 0 <= first < WeekDays && 1 <= k <= n <= 31
    ensures var p := first + k - 1;
      0 <= p / WeekDays < WeekRows && WeekDays * (p / WeekDays) + p % WeekDays == p &&
      (p + 1) / WeekDays == p / WeekDays + (if p % WeekDays == 6 then 1 else 0)
    ensures forall i :: CellAtIndex(first, k, i) ==
                        (if i == first + k - 1 then Width2(k) else CellAtIndex(first, k - 1, i))
  {
    DivStep(first + k - 1);
  }

  /** Division and remainder by seven when the dividend grows by one. */
  lemma DivStep(a: int)
    ensures (a + 1) / 7 == a / 7 + (if a % 7 == 6 then 1 else 0)
    ensures (a + 1) % 7 == (a % 7 + 1) % 7
  {
  }

  /** Day `d` sits `d - 1` columns, wrapping around the week, after day 1. */
  lemma DayColumnFromFirst(y: int, m: int, d: int)
    requires ValidDate(Date(y, m, d))
    ensures DayColumn(y, m, d) == (FirstColumn(y, m) + d - 1) % 7
  {
    var n := DayNumber(Date(y, m, 1)) + Monday;
    assert DayNumber(Date(y, m, d)) + Monday == n + d - 1;
    calc {
      (FirstColumn(y, m) + d - 1) % 7;
      ((n % 7 + 6) % 7 + (d - 1)) % 7;
      { ModShift(n % 7 + 6, d - 1); }
      (n % 7 + 6 + d - 1) % 7;
      { ModShift(n, 6 + d - 1); }
      (n + 6 + d - 1) % 7;
      { ModShift(n + d - 1, 6); }
      ((n + d - 1) % 7 + 6) % 7;
      DayColumn(y, m, d);
    }
  }

  /** Counting Sundays gives the row the row-major layout from `FirstColumn` predicts. */
  lemma {:induction false} WeekRowFromFirst(y: int, m: int, d: int)
    requires ValidDate(Date(y, m, d))
    ensures WeekRow(y, m, d) == (FirstColumn(y, m) + d - 1) / 7
    decreases d
  {
    if d > 1 {
      WeekRowFromFirst(y, m, d - 1);
      DayColumnFromFirst(y, m, d - 1);
      DivStep(FirstColumn(y, m) + d - 2);
    }
  }

  /** A day label is never the blank filler: it ends with a digit. */
  lemma LabelNotBlank(d: int)
    requires d >= 0
    ensures Width2(d) != Blank
  {
    Width2EndsWithDigit(d);
    assert Blank[|Blank| - 1] == ' ';
  }

  /** Cell `(r, c)` of a grid is the cell at row-major position `7 * r + c`. */
  lemma GridOfCell(first: int, count: int, r: int, c: int)
    requires 0 <= r < WeekRows && 0 <= c < WeekDays
    ensures GridOf(first, count)[r][c] == CellAtIndex(first, count, WeekDays * r + c)
  {
  }

  /** Position `a` of the first six weeks is row `a / 7`, column `a % 7`. */
  lemma PositionSplit(a: int)
    requires 0 <= a < WeekRows * WeekDays
    ensures 0 <= a / 7 < WeekRows && WeekDays * (a / 7) + a % 7 == a
  {
  }

  /** Day `d` is written, as its `%2d` label, on its week row in the column of its
      weekday, and that row is inside the grid, for every month of every year. */
  lemma DayPlacement(y: int, m: int, d: int)
    requires January <= m <= December && 1 <= d <= DaysInMonth(y, m)
    ensures WeekRow(y, m, d) < WeekRows
    ensures MonthGrid(y, m)[WeekRow(y, m, d)][DayColumn(y, m, d)] == Width2(d)
  {
    var first, n := FirstColumn(y, m), DaysInMonth(y, m);
    WeekRowFromFirst(y, m, d);
    DayColumnFromFirst(y, m, d);
    var row, col := WeekRow(y, m, d), DayColumn(y, m, d);
    assert row == (first + d - 1) / 7 && col == (first + d - 1) % 7;
    LayoutPlacement(first, n, d);
    assert MonthGrid(y, m) == GridOf(first, n);
  }

  /** In a layout from column `first` of at most 31 days, day `d` is at row-major
      position `first + d - 1`, which lies in the first six rows. */
  lemma LayoutPlacement(first: int, count: int, d: int)
    requires 0 <= first < WeekDays && 1 <= d <= count <= 31
    ensures (first + d - 1) / 7 < WeekRows
    ensures GridOf(first, count)[(first + d - 1) / 7][(first + d - 1) % 7] == Width2(d)
  {
    var a := first + d - 1;
    PositionSplit(a);
    GridOfCell(first, count, a / 7, a % 7);
  }

  /** Day 1 is on the first row, in the Monday-first column of the weekday of the 1st. */
  lemma FirstDayPlacement(y: int, m: int)
    requires January <= m <= December
    ensures MonthGrid(y, m)[0][MondayColumn(Weekday(Date(y, m, 1)))] == Width2(1)
  {
    DayPlacement(y, m, 1);
  }

  /** The day whose label stands at position `i`, if any, is `i - first + 1`. */
  lemma CellHoldsLabel(first: int, count: int, i: int, d: int)
    requires d >= 1
    requires CellAtIndex(first, count, i) == Width2(d)
    ensures first <= i < first + count && i - first + 1 == d
  {
    LabelNotBlank(d);
    Width2Injective(i - first + 1, d);
  }

  /** Each day appears exactly once: its label is in a cell if and only if the cell
      is that day's place. */
  lemma DayAppearsOnce(y: int, m: int, d: int, r: int, c: int)
    requires January <= m <= December && 1 <= d <= DaysInMonth(y, m)
    requires 0 <= r < WeekRows && 0 <= c < WeekDays
    ensures MonthGrid(y, m)[r][c] == Width2(d) <==> r == WeekRow(y, m, d) && c == DayColumn(y, m, d)
  {
    var first, n := FirstColumn(y, m), DaysInMonth(y, m);
    assert MonthGrid(y, m) == GridOf(first, n);
    DayPlacement(y, m, d);
    WeekRowFromFirst(y, m, d);
    DayColumnFromFirst(y, m, d);
    GridOfCell(first, n, r, c);
    if MonthGrid(y, m)[r][c] == Width2(d) {
      CellHoldsLabel(first, n, WeekDays * r + c, d);
      PositionSplit(first + d - 1);
    }
  }

  /** A cell is blank exactly when no day of the month is placed in it. */
  lemma BlankCells(y: int, m: int, r: int, c: int)
    requires January <= m <= December
    requires 0 <= r < WeekRows && 0 <= c < WeekDays
    ensures MonthGrid(y, m)[r][c] == Blank <==>
            forall d :: 1 <= d <= DaysInMonth(y, m) ==> !(r == WeekRow(y, m, d) && c == DayColumn(y, m, d))
  {
    var first, n := FirstColumn(y, m), DaysInMonth(y, m);
    var i := WeekDays * r + c;
    assert MonthGrid(y, m) == GridOf(first, n);
    GridOfCell(first, n, r, c);
    if MonthGrid(y, m)[r][c] == Blank {
      forall d | 1 <= d <= n
        ensures !(r == WeekRow(y, m, d) && c == DayColumn(y, m, d))
      {
        DayPlacement(y, m, d);
        LabelNotBlank(d);
      }
    } else {
      var d := i - first + 1;
      assert 1 <= d <= n;
      WeekRowFromFirst(y, m, d);
      DayColumnFromFirst(y, m, d);
      PositionSplit(i);
    }
  }

  /** The rows after the week of the last day are entirely blank. */
  lemma TrailingRowsBlank(y: int, m: int, r: int, c: int)
    requires January <= m <= December
    requires WeekRow(y, m, DaysInMonth(y, m)) < r < WeekRows && 0 <= c < WeekDays
    ensures MonthGrid(y, m)[r][c] == Blank
  {
    var first, n := FirstColumn(y, m), DaysInMonth(y, m);
    assert MonthGrid(y, m) == GridOf(first, n);
    WeekRowFromFirst(y, m, n);
    GridOfCell(first, n, r, c);
    assert WeekDays * r + c >= first + n;
  }

  /** Consecutive days: the column moves one step around the week, and the row
      moves down by one exactly when the earlier day is in the Sunday column. */
  lemma ConsecutiveDays(y: int, m: int, d: int)
    requires January <= m <= December && 1 <= d < DaysInMonth(y, m)
    ensures DayColumn(y, m, d + 1) == (DayColumn(y, m, d) + 1) % 7
    ensures WeekRow(y, m, d + 1) == WeekRow(y, m, d) + (if DayColumn(y, m, d) == 6 then 1 else 0)
  {
    DayColumnFromFirst(y, m, d);
    DayColumnFromFirst(y, m, d + 1);
    DivStep(FirstColumn(y, m) + d - 1);
  }

  /** Concatenation of the rows, in order. */
  function Flatten(rows: seq<seq<string>>): seq<string>
  {
    if rows == [] then [] else Flatten(rows[..|rows| - 1]) + rows[|rows| - 1]
  }

  /** The cells that are not blank, in their order. */
  function NonBlank(cells: seq<string>): (s: seq<string>)
    ensures |s| <= |cells|
  {
    if cells == [] then []
    else NonBlank(cells[..|cells| - 1]) + (if cells[|cells| - 1] == Blank then [] else [cells[|cells| - 1]])
  }

  /** The first `j` cells of a layout, in row-major order. */
  function LayoutCells(first: int, count: int, j: nat): (s: seq<string>)
    ensures |s| == j
  {
    if j == 0 then [] else LayoutCells(first, count, j - 1) + [CellAtIndex(first, count, j - 1)]
  }

  /** The labels of days 1 to `k`, in order. */
  function DayLabels(k: nat): (s: seq<string>)
    ensures |s| == k
  {
    if k == 0 then [] else DayLabels(k - 1) + [Width2(k)]
  }

  /** The `i`-th of the labels of days 1 to `k` is the label of day `i + 1`. */
  lemma {:induction false} DayLabelsContents(k: nat)
    ensures forall i :: 0 <= i < k ==> DayLabels(k)[i] == Width2(i + 1)
  {
    if k > 0 {
      DayLabelsContents(k - 1);
    }
  }

  /** The `i`-th of the first `j` cells is the cell at position `i`. */
  lemma {:induction false} LayoutCellsContents(first: int, count: int, j: nat)
    ensures forall i :: 0 <= i < j ==> LayoutCells(first, count, j)[i] == CellAtIndex(first, count, i)
  {
    if j > 0 {
      LayoutCellsContents(first, count, j - 1);
    }
  }

  /** Reading the first `rows` rows of the grid row by row gives its cells in position order. */
  lemma {:induction false} FlattenGrid(first: int, count: int, rows: nat)
    requires rows <= WeekRows
    ensures Flatten(GridOf(first, count)[..rows]) == LayoutCells(first, count, WeekDays * rows)
  {
    var g := GridOf(first, count);
    if rows > 0 {
      FlattenGrid(first, count, rows - 1);
      assert g[..rows][..rows - 1] == g[..rows - 1];
      RowOfLayout(first, count, rows - 1);
    }
  }

  /** Row `r` of the grid continues the cells of the rows above it. */
  lemma RowOfLayout(first: int, count: int, r: nat)
    requires r < WeekRows
    ensures LayoutCells(first, count, WeekDays * r) + GridOf(first, count)[r] == LayoutCells(first, count, WeekDays * (r + 1))
  {
    var s := LayoutCells(first, count, WeekDays * r) + GridOf(first, count)[r];
    var t := LayoutCells(first, count, WeekDays * (r + 1));
    LayoutCellsContents(first, count, WeekDays * r);
    LayoutCellsContents(first, count, WeekDays * (r + 1));
    forall i | 0 <= i < WeekDays * (r + 1)
      ensures s[i] == t[i]
    {
      if i >= WeekDays * r {
        GridOfCell(first, count, r, i - WeekDays * r);
      }
    }
  }

  /** Among the first `j` cells, the non-blank ones are the labels of days 1, 2, ...
      up to the last day placed before position `j`. */
  lemma {:induction false} NonBlankPrefix(first: int, count: int, j: nat)
    requires 0 <= first && 0 <= count
    ensures NonBlank(LayoutCells(first, count, j)) ==
            DayLabels(if j <= first then 0 else if j - first <= count then j - first else count)
  {
    if j > 0 {
      NonBlankPrefix(first, count, j - 1);
      var last := CellAtIndex(first, count, j - 1);
      NonBlankSnoc(LayoutCells(first, count, j - 1), last);
      if first <= j - 1 < first + count {
        LabelNotBlank(j - first);
      }
    }
  }

  /** Appending one cell appends it to the non-blank cells unless it is blank. */
  lemma NonBlankSnoc(cells: seq<string>, x: string)
    ensures NonBlank(cells + [x]) == NonBlank(cells) + (if x == Blank then [] else [x])
  {
    assert (cells + [x])[..|cells|] == cells;
  }

  /** Reading the non-blank cells row by row gives the labels of days 1, 2, ..., N
      in this order, each once. */
  lemma RowMajorOrder(y: int, m: int)
    requires January <= m <= December
    ensures NonBlank(Flatten(MonthGrid(y, m))) == DayLabels(DaysInMonth(y, m))
  {
    var first, n := FirstColumn(y, m), DaysInMonth(y, m);
    FlattenGrid(first, n, WeekRows);
    assert GridOf(first, n)[..WeekRows] == MonthGrid(y, m);
    NonBlankPrefix(first, n, WeekRows * WeekDays);
  }

  /** February 2024 (a leap year) starts on a Thursday; its 29th is on row 4 in
      the Thursday column and the last row stays empty. */
  lemma February2024()
    ensures MonthGrid(2024, 2)[0][3] == " 1"
    ensures MonthGrid(2024, 2)[4][3] == "29"
    ensures forall c :: 0 <= c < WeekDays ==> MonthGrid(2024, 2)[5][c] == Blank
  {
    KnownWeekdays();
    assert FirstColumn(2024, 2) == 3 && DaysInMonth(2024, 2) == 29;
    GridOfCell(3, 29, 0, 3);
    GridOfCell(3, 29, 4, 3);
    forall c | 0 <= c < WeekDays
      ensures MonthGrid(2024, 2)[5][c] == Blank
    {
      GridOfCell(3, 29, 5, c);
    }
    Width2OfSmall(1);
    Width2OfSmall(29);
  }

  /** December 2024 has 31 days and starts on a Sunday, so it needs all six rows:
      the 30th and 31st are on row 5. */
  lemma December2024()
    ensures MonthGrid(2024, 12)[0][6] == " 1"
    ensures MonthGrid(2024, 12)[5][0] == "30"
    ensures MonthGrid(2024, 12)[5][1] == "31"
  {
    KnownWeekdays();
    assert FirstColumn(2024, 12) == 6 && DaysInMonth(2024, 12) == 31;
    GridOfCell(6, 31, 0, 6);
    GridOfCell(6, 31, 5, 0);
    GridOfCell(6, 31, 5, 1);
    Width2OfSmall(1);
    Width2OfSmall(30);
    Width2OfSmall(31);
  }
}
