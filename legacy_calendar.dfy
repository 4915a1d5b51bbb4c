/** The earlier calendar page: the same month grid built with three counted loops, the same
    month navigation, and a single selected date that a click toggles. */
module LegacyCalendar {
  import opened Wrappers
  import opened Gregorian
  import opened CalendarGrid
  import opened CalendarView

  /** `buildMonthCells(year, month)` of the earlier page: leading, current and trailing days are
      each pushed by a loop. It builds exactly the grid of the current page. */
  method BuildMonthCells(year: int, month: int) returns (cells: seq<DayCell>)
    requires 0 <= month <= 11
    ensures cells == MonthGrid(year, month)
  {
    var startWeekday := FirstWeekday(year, month);
    var daysInThisMonth := DaysInMonth(year, month);

    var prevMonth := if month == 0 then 11 else month - 1;
    var prevYear := if month == 0 then year - 1 else year;
    var daysInPrevMonth := DaysInMonth(prevYear, prevMonth);

    var leading: seq<DayCell> := [];
    var i := startWeekday - 1;
    while i >= 0
      invariant -1 <= i <= startWeekday - 1
      invariant |leading| == startWeekday - 1 - i
      invariant forall k :: 0 <= k < |leading| ==> leading[k] == GridCell(year, month, k)
    {
      var day := daysInPrevMonth - i;
      assert DayCell(prevYear, prevMonth, day, false) == GridCell(year, month, |leading|);
      leading := leading + [DayCell(prevYear, prevMonth, day, false)];
      i := i - 1;
    }

    var current: seq<DayCell> := [];
    var d := 1;
    while d <= daysInThisMonth
      invariant 1 <= d <= daysInThisMonth + 1
      invariant |current| == d - 1
      invariant forall k :: 0 <= k < |current| ==> current[k] == Cell(year, month, k + 1, true)
    {
      current := current + [DayCell(year, month, d, true)];
      d := d + 1;
    }

    var totalSoFar := |leading| + |current|;
    var remainder := totalSoFar % 7;
    var trailingCount := if remainder == 0 then 0 else 7 - remainder;

    var nextMonth := if month == 11 then 0 else month + 1;
    var nextYear := if month == 11 then year + 1 else year;

    var trailing: seq<DayCell> := [];
    d := 1;
    while d <= trailingCount
      invariant 1 <= d <= trailingCount + 1
      invariant |trailing| == d - 1
      invariant forall k :: 0 <= k < |trailing| ==> trailing[k] == Cell(nextYear, nextMonth, k + 1, false)
    {
      trailing := trailing + [DayCell(nextYear, nextMonth, d, false)];
      d := d + 1;
    }

    cells := leading + current + trailing;
    GridFromParts(year, month, leading, current, trailing);
  }

  /** `selectDate(iso)`: choosing the selected date again clears the selection, choosing any
      other date selects it. */
  function Toggle(selected: Option<string>, iso: string): (r: Option<string>)
    ensures r == None <==> selected == Some(iso)
    ensures r != None ==> r == Some(iso)
  {
    if selected == Some(iso) then None else Some(iso)
  }

  /** Choosing the same date twice gives back the earlier selection exactly when nothing or
      that same date was selected before; from another date it ends with nothing selected. */
  lemma ToggleTwice(selected: Option<string>, iso: string)
    ensures Toggle(Toggle(selected, iso), iso) == selected <==> selected == None || selected == Some(iso)
    ensures selected != None && selected != Some(iso) ==> Toggle(Toggle(selected, iso), iso) == None
  {
  }

  class LegacyCalendarState {
    var viewYear: int
    var viewMonth: int
    var selectedISO: Option<string>

    predicate Valid()
      reads this
    {
      0 <= viewMonth <= 11
    }

    /** `init`: the month of the clock's date, nothing selected. */
    constructor (nowYear: int, nowMonth: int)
      requires 0 <= nowMonth <= 11
      ensures Valid() && viewYear == nowYear && viewMonth == nowMonth && selectedISO == None
    {
      viewYear, viewMonth, selectedISO := nowYear, nowMonth, None;
    }

    /** `navigateMonth(delta)`; the selection stays. */
    method NavigateMonth(delta: int)
      modifies this`viewYear, this`viewMonth
      ensures Valid()
      ensures (viewYear, viewMonth) == StepMonth(old(viewYear), old(viewMonth), delta)
    {
      var m := viewMonth + delta;
      var y := viewYear;
      if m < 0 {
        m, y := 11, y - 1;
      }
      if m > 11 {
        m, y := 0, y + 1;
      }
      viewMonth, viewYear := m, y;
    }

    /** `selectDate(iso)`. */
    method SelectDate(iso: string)
      modifies this`selectedISO
      ensures selectedISO == Toggle(old(selectedISO), iso)
    {
      if selectedISO == Some(iso) {
        selectedISO := None;
      } else {
        selectedISO := Some(iso);
      }
    }
  }
}
