/** The month grid of the calendar page: the days of one month, preceded by the last days of
    the month before and followed by the first days of the month after, so that the grid
    spans whole weeks starting on Sunday. */
module CalendarGrid {
  import opened Text
  import opened Gregorian

  /** One grid position. Its `iso` key is always built from its own parts, so it is derived
      here rather than stored. */
  datatype DayCell = DayCell(year: int, month: int, day: int, inCurrentMonth: bool)
  {
    function iso(): string {
      IsoFromParts(year, month, day)
    }
  }

  /** `cell(y, m0, d, inCurrentMonth)`. */
  function Cell(y: int, m0: int, d: int, inCurrentMonth: bool): (c: DayCell)
    ensures c.year == y && c.month == m0 && c.day == d && c.inCurrentMonth == inCurrentMonth
  {
    DayCell(y, m0, d, inCurrentMonth)
  }

  /** A cell that names a day that exists, as `new Date` counts days. */
  predicate RealCell(c: DayCell) {
    0 <= c.month <= 11 && 1 <= c.day <= DaysInMonth(c.year, c.month)
  }

  /** Padding after the month: as many days as complete the last week. */
  function TrailingCount(year: int, month: int): (t: int)
    requires 0 <= month <= 11
    ensures 0 <= t < 7 && (FirstWeekday(year, month) + DaysInMonth(year, month) + t) % 7 == 0
  {
    var rem := (FirstWeekday(year, month) + DaysInMonth(year, month)) % 7;
    if rem == 0 then 0 else 7 - rem
  }

  /** The number of cells: whole weeks covering the month. */
  function GridLength(year: int, month: int): nat
    requires 0 <= month <= 11
  {
    FirstWeekday(year, month) + DaysInMonth(year, month) + TrailingCount(year, month)
  }

  /** The cell at position `k`: leading padding from the previous month, then the month,
      then trailing padding from the next month. */
  function GridCell(year: int, month: int, k: int): DayCell
    requires 0 <= month <= 11
  {
    var start, n := FirstWeekday(year, month), DaysInMonth(year, month);
    if k < start then
      var (py, pm) := PrevMonth(year, month);
      Cell(py, pm, DaysInMonth(py, pm) - start + 1 + k, false)
    else if k < start + n then
      Cell(year, month, k - start + 1, true)
    else
      var (ny, nm) := NextMonth(year, month);
      Cell(ny, nm, k - start - n + 1, false)
  }

  function MonthGrid(year: int, month: int): (g: seq<DayCell>)
    requires 0 <= month <= 11
    ensures |g| == GridLength(year, month)
    ensures forall k :: 0 <= k < |g| ==> g[k] == GridCell(year, month, k)
  {
    seq(GridLength(year, month), k requires 0 <= k < GridLength(year, month) => GridCell(year, month, k))
  }

  /** `buildMonthCells(year, month)`: the leading days are pushed by a count-down loop, the
      month and the trailing days are generated by index. */
  method BuildMonthCells(year: int, month: int) returns (cells: seq<DayCell>)
    requires 0 <= month <= 11
    ensures cells == MonthGrid(year, month)
    ensures |cells| % 7 == 0 && 28 <= |cells| <= 42
  {
    var start := FirstWeekday(year, month);
    var daysThis := DaysInMonth(year, month);

    var prevMonth := if month == 0 then 11 else month - 1;
    var prevYear := if month == 0 then year - 1 else year;
    var daysPrev := DaysInMonth(prevYear, prevMonth);

    var leading: seq<DayCell> := [];
    var i := start - 1;
    while i >= 0
      invariant -1 <= i <= start - 1
      invariant |leading| == start - 1 - i
      invariant forall k :: 0 <= k < |leading| ==> leading[k] == GridCell(year, month, k)
    {
      var d := daysPrev - i;
      assert Cell(prevYear, prevMonth, d, false) == GridCell(year, month, |leading|);
      leading := leading + [Cell(prevYear, prevMonth, d, false)];
      i := i - 1;
    }
    var current := seq(daysThis, k => Cell(year, month, k + 1, true));

    var total := |leading| + |current|;
    var rem := total % 7;
    var trailingCount := if rem == 0 then 0 else 7 - rem;

    var nextMonth := if month == 11 then 0 else month + 1;
    var nextYear := if month == 11 then year + 1 else year;

    var trailing := seq(trailingCount, k => Cell(nextYear, nextMonth, k + 1, false));
    assert |leading| == start;
    cells := leading + current + trailing;
    GridFromParts(year, month, leading, current, trailing);
    GridShape(year, month);
  }

  /** The leading, current and trailing runs, each described by index, make up the grid. */
  lemma GridFromParts(year: int, month: int, leading: seq<DayCell>, current: seq<DayCell>, trailing: seq<DayCell>)
    requires 0 <= month <= 11
    requires |leading| == FirstWeekday(year, month)
    requires forall k :: 0 <= k < |leading| ==> leading[k] == GridCell(year, month, k)
    requires |current| == DaysInMonth(year, month)
    requires forall k :: 0 <= k < |current| ==> current[k] == Cell(year, month, k + 1, true)
    requires |trailing| == TrailingCount(year, month)
    requires forall k :: 0 <= k < |trailing| ==>
      trailing[k] == Cell(NextMonth(year, month).0, NextMonth(year, month).1, k + 1, false)
    ensures leading + current + trailing == MonthGrid(year, month)
  {
    var cells, g := leading + current + trailing, MonthGrid(year, month);
    forall k | 0 <= k < |g| ensures cells[k] == g[k] {
      if k < |leading| {
        assert cells[k] == leading[k];
      } else if k < |leading| + |current| {
        assert cells[k] == current[k - |leading|];
      } else {
        assert cells[k] == trailing[k - |leading| - |current|];
      }
    }
  }

  /** Whole weeks, four to six of them; the leading padding is the weekday of the first. */
  lemma GridShape(year: int, month: int)
    requires 0 <= month <= 11
    ensures var g := MonthGrid(year, month);
      |g| == FirstWeekday(year, month) + DaysInMonth(year, month) + TrailingCount(year, month) &&
      TrailingCount(year, month) < 7 && |g| % 7 == 0 && 28 <= |g| <= 42
  {
  }

  /** Where each kind of cell is, and that every cell is a real day under its own key:
      days 1..n of the month form one run after the leading padding; the leading cells are
      the last days of the previous month, ending on its last day; the trailing cells are
      days 1.. of the next month. */
  lemma GridCells(year: int, month: int, k: int)
    requires 0 <= month <= 11
    requires 0 <= k < |MonthGrid(year, month)|
    ensures var g, start, n := MonthGrid(year, month), FirstWeekday(year, month), DaysInMonth(year, month);
      RealCell(g[k]) &&
      (g[k].inCurrentMonth <==> start <= k < start + n) &&
      (g[k].inCurrentMonth <==> (g[k].year, g[k].month) == (year, month)) &&
      (k < start ==> (g[k].year, g[k].month) == PrevMonth(year, month) &&
                     g[k].day == DaysInMonth(g[k].year, g[k].month) - (start - 1 - k)) &&
      (start <= k < start + n ==> g[k].day == k - start + 1) &&
      (start + n <= k ==> (g[k].year, g[k].month) == NextMonth(year, month) &&
                          g[k].day == k - start - n + 1)
  {
  }

  /** For a year whose neighbours `new Date` reads as they are, the grid is a run of
      consecutive days whose columns are the weekdays, Sunday first. */
  lemma GridConsecutive(year: int, month: int, k: int)
    requires 0 <= month <= 11 && PlainYear(year)
    requires 0 <= k < |MonthGrid(year, month)|
    ensures var c, start := MonthGrid(year, month)[k], FirstWeekday(year, month);
      0 <= c.month <= 11 &&
      DayNumber(c.year, c.month, c.day) == DayNumber(year, month, 1) - start + k &&
      Weekday(c.year, c.month, c.day) == k % 7
  {
    var g := MonthGrid(year, month);
    var start, n := FirstWeekday(year, month), DaysInMonth(year, month);
    var first := DayNumber(year, month, 1);
    var (py, pm) := PrevMonth(year, month);
    var (ny, nm) := NextMonth(year, month);
    assert JsYear(year) == year && JsYear(py) == py && JsYear(ny) == ny;
    assert start == first % 7;
    var c := g[k];
    if k < start {
      NextMonthStart(py, pm);
      assert NextMonth(py, pm) == (year, month);
      assert DayNumber(c.year, c.month, c.day) == first - start + k;
    } else if k < start + n {
      assert DayNumber(c.year, c.month, c.day) == first - start + k;
    } else {
      NextMonthStart(year, month);
      assert DayNumber(c.year, c.month, c.day) == first - start + k;
    }
    WeekdayOffset(first, k);
  }

  lemma WeekdayOffset(first: int, k: int)
    ensures (first - first % 7 + k) % 7 == k % 7
  {
    var q := first / 7;
    assert first - first % 7 == 7 * q;
  }

  /** Consecutive months agree: the trailing padding of a month is exactly what the next
      month's leading padding leaves of its first week. */
  lemma ConsecutiveGridsAlign(year: int, month: int)
    requires 0 <= month <= 11 && PlainYear(year)
    ensures var (ny, nm) := NextMonth(year, month);
      0 <= nm <= 11 && TrailingCount(year, month) == (7 - FirstWeekday(ny, nm)) % 7
  {
    var (ny, nm) := NextMonth(year, month);
    NextMonthWeekday(year, month);
    assert JsYear(year) == year && JsYear(ny) == ny;
  }

  /** The number of cells marked as belonging to the shown month. */
  function InMonthCount(cells: seq<DayCell>): nat {
    if cells == [] then 0
    else InMonthCount(cells[..|cells| - 1]) + (if cells[|cells| - 1].inCurrentMonth then 1 else 0)
  }

  lemma {:induction false} InMonthCountConcat(a: seq<DayCell>, b: seq<DayCell>)
    ensures InMonthCount(a + b) == InMonthCount(a) + InMonthCount(b)
    decreases |b|
  {
    if b == [] {
      assert a + b == a;
    } else {
      InMonthCountConcat(a, b[..|b| - 1]);
      assert (a + b)[..|a + b| - 1] == a + b[..|b| - 1];
    }
  }

  lemma {:induction false} InMonthCountUniform(cells: seq<DayCell>, flag: bool)
    requires forall k :: 0 <= k < |cells| ==> cells[k].inCurrentMonth == flag
    ensures InMonthCount(cells) == if flag then |cells| else 0
  {
    if cells != [] {
      InMonthCountUniform(cells[..|cells| - 1], flag);
    }
  }

  /** A sequence whose flagged cells are exactly one run of `n` positions from `s` on. */
  lemma InMonthCountOfRun(cells: seq<DayCell>, s: int, n: int)
    requires 0 <= s && 0 <= n && s + n <= |cells|
    requires forall k :: 0 <= k < |cells| ==> (cells[k].inCurrentMonth <==> s <= k < s + n)
    ensures InMonthCount(cells) == n
  {
    var a, b, c := cells[..s], cells[s..s + n], cells[s + n..];
    SliceThree(cells, s, s + n);
    InMonthCountConcat(a + b, c);
    InMonthCountConcat(a, b);
    forall k | 0 <= k < |a| ensures !a[k].inCurrentMonth {
      assert a[k] == cells[k];
    }
    forall k | 0 <= k < |b| ensures b[k].inCurrentMonth {
      assert b[k] == cells[s + k];
    }
    forall k | 0 <= k < |c| ensures !c[k].inCurrentMonth {
      assert c[k] == cells[s + n + k];
    }
    InMonthCountUniform(a, false);
    InMonthCountUniform(b, true);
    InMonthCountUniform(c, false);
  }

  /** The grid flags exactly as many cells as the month has days. */
  lemma InMonthCountIsMonthLength(year: int, month: int)
    requires 0 <= month <= 11
    ensures InMonthCount(MonthGrid(year, month)) == DaysInMonth(year, month)
  {
    var g := MonthGrid(year, month);
    var start, n := FirstWeekday(year, month), DaysInMonth(year, month);
    GridShape(year, month);
    forall k | 0 <= k < |g| ensures g[k].inCurrentMonth <==> start <= k < start + n {
      GridCells(year, month, k);
    }
    InMonthCountOfRun(g, start, n);
  }

  /** February has 29 flagged cells in 2024 and 28 in 2023. */
  lemma FebruaryExamples()
    ensures InMonthCount(MonthGrid(2024, 1)) == 29
    ensures InMonthCount(MonthGrid(2023, 1)) == 28
  {
    InMonthCountIsMonthLength(2024, 1);
    InMonthCountIsMonthLength(2023, 1);
  }

  /** For a year whose neighbours `new Date` reads as they are, no two cells of a grid share a
      key, so a key names one cell. */
  lemma GridKeysDistinct(year: int, month: int, j: int, k: int)
    requires 0 <= month <= 11 && PlainYear(year)
    requires 0 <= j < k < |MonthGrid(year, month)|
    ensures MonthGrid(year, month)[j].iso() != MonthGrid(year, month)[k].iso()
  {
    var g := MonthGrid(year, month);
    GridConsecutive(year, month, j);
    GridConsecutive(year, month, k);
    GridCells(year, month, j);
    GridCells(year, month, k);
    if g[j].iso() == g[k].iso() {
      IsoInjective(g[j].year, g[j].month, g[j].day, g[k].year, g[k].month, g[k].day);
      assert false;
    }
  }

  /** September 2025 starts on a Monday: one leading day (31 August), 30 days, four
      trailing days up to 4 October. */
  lemma September2025()
    ensures var g := MonthGrid(2025, 8);
      |g| == 35 && g[0] == DayCell(2025, 7, 31, false) && g[1] == DayCell(2025, 8, 1, true) &&
      g[30] == DayCell(2025, 8, 30, true) && g[34] == DayCell(2025, 9, 4, false) &&
      g[0].iso() == "2025-08-31" && g[34].iso() == "2025-10-04"
  {
    var g := MonthGrid(2025, 8);
    KnownDates();
    assert FirstWeekday(2025, 8) == 1;
    assert DaysInMonth(2025, 8) == 30 && DaysInMonth(2025, 7) == 31;
    assert TrailingCount(2025, 8) == 4;
    assert |g| == 35;
    assert g[0] == GridCell(2025, 8, 0) == DayCell(2025, 7, 31, false);
    assert g[1] == GridCell(2025, 8, 1) == DayCell(2025, 8, 1, true);
    assert g[30] == GridCell(2025, 8, 30) == DayCell(2025, 8, 30, true);
    assert g[34] == GridCell(2025, 8, 34) == DayCell(2025, 9, 4, false);
    IsoExamples();
  }

  lemma IsoExamples()
    ensures IsoFromParts(2025, 7, 31) == "2025-08-31" && IsoFromParts(2025, 9, 4) == "2025-10-04"
  {
    Year2025Text();
    PadInt2Nat(8);
    Pad2Digits(8);
    PadInt2Nat(31);
    Pad2Digits(31);
    PadInt2Nat(10);
    Pad2Digits(10);
    PadInt2Nat(4);
    Pad2Digits(4);
  }
}
