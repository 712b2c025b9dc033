/** `calendar_view`: picks the month to show from the `year` and `month`
    query parameters, lays the month out as a Monday-first grid, puts each
    visible task on the day it is due, and links the previous and next
    months. `today` is a parameter instead of a clock reading. */
module CalendarView {
  import opened Optional
  import opened Seqs
  import opened Dates
  import opened PyInt
  import opened Models
  import opened TaskViews

  /** A query parameter: absent, or the text submitted. */
  type Param = Option<string>

  /** `int(request.GET.get(name, default))`: an absent parameter yields the
      default, a present one must parse as an integer. */
  function ParamValue(p: Param, default: int): (r: Option<int>)
    ensures p.None? ==> r == Some(default)
  {
    match p
    case None => Some(default)
    case Some(s) => ParseInt(s)
  }

  /** The month as the view resolves it: both parameters must be integers
      and the month must lie in 1..12, otherwise today's year and month are
      used. The year is not checked. */
  function ResolveMonthAsWritten(yearParam: Param, monthParam: Param, today: Date): (ym: (int, int))
    requires ValidDate(today)
    ensures 1 <= ym.1 <= 12
    ensures var (y, m) := (ParamValue(yearParam, today.year), ParamValue(monthParam, today.month));
      if y.Some? && m.Some? && 1 <= m.value <= 12
      then ym == (y.value, m.value)
      else ym == (today.year, today.month)
  {
    match (ParamValue(yearParam, today.year), ParamValue(monthParam, today.month))
    case (Some(y), Some(m)) => if m < 1 || m > 12 then (today.year, today.month) else (y, m)
    case _ => (today.year, today.month)
  }

  /** A year longer than `int()`'s digit limit raises inside the `try`
      block, so the view falls back to today's month. */
  lemma LongYearFallsBack(yearText: string, monthParam: Param, today: Date)
    requires ValidDate(today)
    requires IsDigitRun(yearText) && DigitCount(yearText) > MaxStrDigits
    ensures ResolveMonthAsWritten(Some(yearText), monthParam, today) == (today.year, today.month)
  {
    TooManyDigitsNoInt(yearText);
  }

  /** A year outside 1..9999 passes the view's checks and reaches
      `datetime(year, month, 1)`, which raises outside the `try` block:
      `?year=0&month=5` ends in a server error. */
  lemma YearZeroReachesDatetime(db: Db, requester: Requester, today: Date)
    requires ValidDate(today)
    ensures ResolveMonthAsWritten(Some("0"), Some("5"), today) == (0, 5)
    ensures MakeDate(0, 5, 1) == None
    ensures CalendarAsWritten(db, requester, Some("0"), Some("5"), today) == None
  {
    ParseShowRoundTrip(0);
    ParseShowRoundTrip(5);
    assert ShowInt(0) == "0" && ShowInt(5) == "5";
  }

  /** The month to show, with the year checked as well: a year outside
      `datetime`'s range falls back to today's month like a bad month does. */
  function ResolveMonth(yearParam: Param, monthParam: Param, today: Date): (ym: (int, int))
    requires ValidDate(today)
    ensures MinYear <= ym.0 <= MaxYear && 1 <= ym.1 <= 12
    ensures MakeDate(ym.0, ym.1, 1).Some?
    ensures var (y, m) := (ParamValue(yearParam, today.year), ParamValue(monthParam, today.month));
      if y.Some? && m.Some? && 1 <= m.value <= 12 && MinYear <= y.value <= MaxYear
      then ym == (y.value, m.value)
      else ym == (today.year, today.month)
    ensures var w := ResolveMonthAsWritten(yearParam, monthParam, today);
      MinYear <= w.0 <= MaxYear ==> ym == w
  {
    var (y, m) := ResolveMonthAsWritten(yearParam, monthParam, today);
    if MinYear <= y <= MaxYear then (y, m) else (today.year, today.month)
  }

  /** Months counted from a fixed origin, so that neighbouring months differ by one. */
  function MonthIndex(y: int, m: int): int
  {
    y * 12 + (m - 1)
  }

  /** The month before (y, m). */
  function PrevMonth(y: int, m: int): (p: (int, int))
    requires 1 <= m <= 12
    ensures 1 <= p.1 <= 12
    ensures MonthIndex(p.0, p.1) == MonthIndex(y, m) - 1
  {
    if m == 1 then (y - 1, 12) else (y, m - 1)
  }

  /** The month after (y, m). */
  function NextMonth(y: int, m: int): (n: (int, int))
    requires 1 <= m <= 12
    ensures 1 <= n.1 <= 12
    ensures MonthIndex(n.0, n.1) == MonthIndex(y, m) + 1
  {
    if m == 12 then (y + 1, 1) else (y, m + 1)
  }

  /** A month is determined by its index. */
  lemma MonthIndexInjective(y1: int, m1: int, y2: int, m2: int)
    requires 1 <= m1 <= 12 && 1 <= m2 <= 12
    requires MonthIndex(y1, m1) == MonthIndex(y2, m2)
    ensures y1 == y2 && m1 == m2
  {
  }

  /** January steps back to December of the year before, December forward
      to January of the year after, and the two steps undo each other. */
  lemma NavigationWraps(y: int, m: int)
    requires 1 <= m <= 12
    ensures m == 1 ==> PrevMonth(y, m) == (y - 1, 12)
    ensures m == 12 ==> NextMonth(y, m) == (y + 1, 1)
    ensures var p := PrevMonth(y, m); NextMonth(p.0, p.1) == (y, m)
    ensures var n := NextMonth(y, m); PrevMonth(n.0, n.1) == (y, m)
  {
    var p := PrevMonth(y, m);
    var n := NextMonth(y, m);
    MonthIndexInjective(NextMonth(p.0, p.1).0, NextMonth(p.0, p.1).1, y, m);
    MonthIndexInjective(PrevMonth(n.0, n.1).0, PrevMonth(n.0, n.1).1, y, m);
  }

  /** One square of the grid: a blank before the first day, or a day of the
      month with the keys of its tasks and its position relative to today. */
  datatype Cell =
    | Blank
    | Day(day: int, date: Date, tasks: seq<int>, isToday: bool, isPast: bool)

  /** The tasks a cell shows; a blank shows none. */
  function CellTasks(c: Cell): seq<int>
  {
    match c
    case Blank => []
    case Day(_, _, ts, _, _) => ts
  }

  /** The task's due date lies between `first` and `last`, both included
      (`due_date__gte=first_day, due_date__lte=last_day`). */
  predicate DueBetween(db: Db, id: int, first: Date, last: Date)
  {
    && id in db.tasks
    && db.tasks[id].dueDate.Some?
    && !Before(db.tasks[id].dueDate.value, first)
    && !Before(last, db.tasks[id].dueDate.value)
  }

  /** The task is due on `date`. */
  predicate DueOn(db: Db, id: int, date: Date)
  {
    id in db.tasks && db.tasks[id].dueDate == Some(date)
  }

  /** The month's query: the requester's visible tasks due between the
      first and last day, newest first. */
  function MonthTasks(db: Db, requester: Requester, first: Date, last: Date): (r: seq<int>)
    ensures forall id :: id in r <==>
      id in db.tasks && Visible(db.tasks[id], requester) && DueBetween(db, id, first, last)
    ensures NoDup(r)
    ensures NewestFirst(r, CreatedKey(db))
  {
    var due := (id: int) => DueBetween(db, id, first, last);
    var visible := VisibleNewestFirst(db, requester);
    FilterKeepsOrder(visible, due, CreatedKey(db));
    Filter(visible, due)
  }

  /** The cell of day `d` of month (y, m): the month's tasks due that day,
      newest first, and whether the day is today or already past. */
  function DayCell(db: Db, monthTasks: seq<int>, y: int, m: int, d: int, today: Date): (c: Cell)
    ensures c.Day? && c.day == d && c.date == Date(y, m, d)
    ensures forall id :: id in c.tasks <==> id in monthTasks && DueOn(db, id, Date(y, m, d))
    ensures c.isToday <==> Date(y, m, d) == today
    ensures c.isPast <==> Before(Date(y, m, d), today)
  {
    var date := Date(y, m, d);
    var on := (id: int) => DueOn(db, id, date);
    Day(d, date, Filter(monthTasks, on), date == today, Before(date, today))
  }

  /** `first_weekday` blanks followed by one cell per day 1..`days`. */
  function Grid(db: Db, monthTasks: seq<int>, y: int, m: int, firstWeekday: nat, days: nat, today: Date): (cells: seq<Cell>)
    ensures |cells| == firstWeekday + days
    ensures forall i :: 0 <= i < firstWeekday ==> cells[i] == Blank
    ensures forall i :: firstWeekday <= i < |cells| ==>
      cells[i] == DayCell(db, monthTasks, y, m, i - firstWeekday + 1, today)
  {
    seq(firstWeekday, _ => Blank)
      + seq(days, i => DayCell(db, monthTasks, y, m, i + 1, today))
  }

  /** The grid's layout: `fw` blanks, then one cell per day of month
      (y, m) in order, each marked today or past relative to `today`. */
  predicate Layout(cells: seq<Cell>, fw: int, y: int, m: int, today: Date)
  {
    && 0 <= fw <= |cells|
    && (forall i :: 0 <= i < fw ==> cells[i] == Blank)
    && forall i :: fw <= i < |cells| ==>
      && cells[i].Day?
      && cells[i].day == i - fw + 1
      && cells[i].date == Date(y, m, i - fw + 1)
      && (cells[i].isToday <==> cells[i].date == today)
      && (cells[i].isPast <==> Before(cells[i].date, today))
  }

  /** Every day cell from `fw` on lists exactly the requester's visible
      tasks due on its date. */
  ghost predicate ShowsDueTasks(cells: seq<Cell>, fw: int, db: Db, requester: Requester)
  {
    forall i, id :: 0 <= fw <= i < |cells| && cells[i].Day? ==>
      (id in CellTasks(cells[i]) <==>
        id in db.tasks && Visible(db.tasks[id], requester) && DueOn(db, id, cells[i].date))
  }

  /** The context `calendar_view` renders. */
  datatype CalendarPage = CalendarPage(
    year: int,
    month: int,
    firstDay: Date,
    lastDay: Date,
    daysInMonth: int,
    firstWeekday: int,
    cells: seq<Cell>,
    prevYear: int,
    prevMonth: int,
    nextYear: int,
    nextMonth: int,
    today: Date)

  /** The page of month (year, month): its first and last day, the grid
      and the neighbouring months. */
  function MonthPage(db: Db, requester: Requester, year: int, month: int, today: Date): (p: CalendarPage)
    requires ValidDate(today)
    requires MinYear <= year <= MaxYear && 1 <= month <= 12
    ensures p.year == year && p.month == month
    ensures p.firstDay == Date(p.year, p.month, 1) && ValidDate(p.firstDay)
    ensures p.lastDay == Date(p.year, p.month, p.daysInMonth) && ValidDate(p.lastDay)
    ensures p.daysInMonth == DaysInMonth(p.year, p.month)
    ensures 0 <= p.firstWeekday <= 6 && p.firstWeekday == Weekday(p.firstDay)
    ensures |p.cells| == p.firstWeekday + p.daysInMonth
    ensures Layout(p.cells, p.firstWeekday, p.year, p.month, today)
    ensures forall i :: p.firstWeekday <= i < |p.cells| ==> ValidDate(p.cells[i].date)
    ensures ShowsDueTasks(p.cells, p.firstWeekday, db, requester)
    ensures forall i :: p.firstWeekday <= i < |p.cells| ==>
      NoDup(p.cells[i].tasks) && NewestFirst(p.cells[i].tasks, CreatedKey(db))
    ensures (p.prevYear, p.prevMonth) == PrevMonth(p.year, p.month)
    ensures (p.nextYear, p.nextMonth) == NextMonth(p.year, p.month)
    ensures p.today == today
  {
    var first := Date(year, month, 1);
    var days := DaysInMonth(year, month);
    var last := Date(year, month, days);
    var monthTasks := MonthTasks(db, requester, first, last);
    var weekday := Weekday(first);
    var cells := Grid(db, monthTasks, year, month, weekday, days, today);
    CellsShowTheirDaysTasks(db, requester, monthTasks, year, month, weekday, days, today, cells);
    GridLayout(db, monthTasks, year, month, weekday, days, today);
    var (py, pm) := PrevMonth(year, month);
    var (ny, nm) := NextMonth(year, month);
    CalendarPage(year, month, first, last, days, weekday, cells, py, pm, ny, nm, today)
  }

  /** `calendar_view` with the year range-checked: the page of the month
      `ResolveMonth` picks from the query parameters. The requested month
      is shown when both parameters are integers, the month lies in 1..12
      and the year in 1..9999; otherwise today's month is shown. */
  function Calendar(db: Db, requester: Requester, yearParam: Param, monthParam: Param, today: Date): (p: CalendarPage)
    requires ValidDate(today)
    ensures MinYear <= p.year <= MaxYear && 1 <= p.month <= 12
    ensures var (y, m) := (ParamValue(yearParam, today.year), ParamValue(monthParam, today.month));
      if y.Some? && m.Some? && 1 <= m.value <= 12 && MinYear <= y.value <= MaxYear
      then (p.year, p.month) == (y.value, m.value)
      else (p.year, p.month) == (today.year, today.month)
    ensures p.firstDay == Date(p.year, p.month, 1) && p.daysInMonth == DaysInMonth(p.year, p.month)
    ensures p.firstWeekday == Weekday(p.firstDay)
    ensures |p.cells| == p.firstWeekday + p.daysInMonth
    ensures Layout(p.cells, p.firstWeekday, p.year, p.month, today)
    ensures ShowsDueTasks(p.cells, p.firstWeekday, db, requester)
    ensures (p.prevYear, p.prevMonth) == PrevMonth(p.year, p.month)
    ensures (p.nextYear, p.nextMonth) == NextMonth(p.year, p.month)
  {
    var (year, month) := ResolveMonth(yearParam, monthParam, today);
    MonthPage(db, requester, year, month, today)
  }

  /** `calendar_view` as written: None stands for the `ValueError` that
      `datetime(year, month, 1)` raises outside the `try` block, which
      happens exactly when the resolved year lies outside 1..9999. In every
      other case the page is the one `Calendar` renders. */
  function CalendarAsWritten(db: Db, requester: Requester, yearParam: Param, monthParam: Param, today: Date): (r: Option<CalendarPage>)
    requires ValidDate(today)
    ensures var w := ResolveMonthAsWritten(yearParam, monthParam, today);
      && (r.None? <==> MakeDate(w.0, w.1, 1).None?)
      && (r.None? <==> !(MinYear <= w.0 <= MaxYear))
    ensures r.Some? ==> r.value == Calendar(db, requester, yearParam, monthParam, today)
  {
    var (year, month) := ResolveMonthAsWritten(yearParam, monthParam, today);
    if MinYear <= year <= MaxYear then Some(MonthPage(db, requester, year, month, today))
    else None
  }

  /** Every day cell of the grid lists exactly the visible tasks due that
      day, newest first. */
  lemma CellsShowTheirDaysTasks(db: Db, requester: Requester, monthTasks: seq<int>, y: int, m: int,
                                firstWeekday: nat, days: nat, today: Date, cells: seq<Cell>)
    requires 1 <= m <= 12 && days == DaysInMonth(y, m)
    requires forall id :: id in monthTasks <==>
      id in db.tasks && Visible(db.tasks[id], requester) && DueBetween(db, id, Date(y, m, 1), Date(y, m, days))
    requires NoDup(monthTasks) && NewestFirst(monthTasks, CreatedKey(db))
    requires cells == Grid(db, monthTasks, y, m, firstWeekday, days, today)
    ensures ShowsDueTasks(cells, firstWeekday, db, requester)
    ensures forall i :: firstWeekday <= i < |cells| ==>
      NoDup(cells[i].tasks) && NewestFirst(cells[i].tasks, CreatedKey(db))
  {
    forall i | firstWeekday <= i < |cells|
      ensures forall id :: id in cells[i].tasks <==>
        id in db.tasks && Visible(db.tasks[id], requester) && db.tasks[id].dueDate == Some(cells[i].date)
      ensures NoDup(cells[i].tasks) && NewestFirst(cells[i].tasks, CreatedKey(db))
    {
      var date := Date(y, m, i - firstWeekday + 1);
      var on := (id: int) => DueOn(db, id, date);
      assert cells[i].tasks == Filter(monthTasks, on);
      FilterKeepsOrder(monthTasks, on, CreatedKey(db));
      forall id | DueOn(db, id, date)
        ensures DueBetween(db, id, Date(y, m, 1), Date(y, m, days))
      {
      }
    }
  }

  /** The grid of a real month has the page layout, and every day cell
      carries a real date. */
  lemma GridLayout(db: Db, monthTasks: seq<int>, y: int, m: int, firstWeekday: nat, days: nat, today: Date)
    requires MinYear <= y <= MaxYear && 1 <= m <= 12 && days == DaysInMonth(y, m)
    ensures var cells := Grid(db, monthTasks, y, m, firstWeekday, days, today);
      && Layout(cells, firstWeekday, y, m, today)
      && forall i :: firstWeekday <= i < |cells| ==> ValidDate(cells[i].date)
  {
  }

  /** The grid holds between 28 and 37 cells: at most six blanks before
      a month of 28 to 31 days. */
  lemma GridSize(db: Db, requester: Requester, year: int, month: int, today: Date)
    requires ValidDate(today)
    requires MinYear <= year <= MaxYear && 1 <= month <= 12
    ensures var p := MonthPage(db, requester, year, month, today);
      28 <= |p.cells| <= 37 && 28 <= p.daysInMonth <= 31
  {
  }

  /** In a grid of `fw` blanks followed by the days of month (y, m), the
      only cell dated (y, m, d) is the one at `fw + d - 1`. */
  lemma OneCellPerDate(cells: seq<Cell>, fw: int, y: int, m: int, d: int, today: Date)
    requires Layout(cells, fw, y, m, today)
    ensures forall i :: 0 <= i < |cells| && cells[i].Day? && cells[i].date == Date(y, m, d) ==> i == fw + d - 1
  {
  }

  /** A visible task due in the shown month appears in the cell of its due day. */
  lemma TaskInItsCell(db: Db, requester: Requester, year: int, month: int, today: Date, id: int)
    requires ValidDate(today)
    requires MinYear <= year <= MaxYear && 1 <= month <= 12
    requires id in db.tasks && WellFormedTask(db.tasks[id]) && Visible(db.tasks[id], requester)
    requires var due := db.tasks[id].dueDate; due.Some? && due.value.year == year && due.value.month == month
    ensures var p := MonthPage(db, requester, year, month, today);
      var k := p.firstWeekday + db.tasks[id].dueDate.value.day - 1;
      0 <= k < |p.cells| && id in CellTasks(p.cells[k])
  {
    var p := MonthPage(db, requester, year, month, today);
    TaskInItsDayCell(p.cells, p.firstWeekday, p.year, p.month, p.daysInMonth, today, db, requester, id);
  }

  /** ... and in no other cell: a task shows up in the grid at most once. */
  lemma TaskInOneCellOnly(db: Db, requester: Requester, year: int, month: int, today: Date, id: int)
    requires ValidDate(today)
    requires MinYear <= year <= MaxYear && 1 <= month <= 12
    requires id in db.tasks && WellFormedTask(db.tasks[id]) && Visible(db.tasks[id], requester)
    requires var due := db.tasks[id].dueDate; due.Some? && due.value.year == year && due.value.month == month
    ensures var p := MonthPage(db, requester, year, month, today);
      var k := p.firstWeekday + db.tasks[id].dueDate.value.day - 1;
      forall i :: 0 <= i < |p.cells| && id in CellTasks(p.cells[i]) ==> i == k
  {
    var p := MonthPage(db, requester, year, month, today);
    TaskInItsDayCell(p.cells, p.firstWeekday, p.year, p.month, p.daysInMonth, today, db, requester, id);
  }

  /** The grid-level argument of `TaskInItsCell` and `TaskInOneCellOnly`. */
  lemma TaskInItsDayCell(cells: seq<Cell>, fw: int, y: int, m: int, days: int, today: Date,
                         db: Db, requester: Requester, id: int)
    requires |cells| == fw + days && 1 <= m <= 12 && days == DaysInMonth(y, m)
    requires Layout(cells, fw, y, m, today)
    requires ShowsDueTasks(cells, fw, db, requester)
    requires id in db.tasks && WellFormedTask(db.tasks[id]) && Visible(db.tasks[id], requester)
    requires var due := db.tasks[id].dueDate; due.Some? && due.value.year == y && due.value.month == m
    ensures var k := fw + db.tasks[id].dueDate.value.day - 1;
      && 0 <= k < |cells|
      && id in CellTasks(cells[k])
      && forall i :: 0 <= i < |cells| && id in CellTasks(cells[i]) ==> i == k
  {
    var due := db.tasks[id].dueDate.value;
    var k := fw + due.day - 1;
    assert due == Date(y, m, due.day);
    assert cells[k].date == due;
    OneCellPerDate(cells, fw, y, m, due.day, today);
  }

  /** A task without a due date, due in another month, or not visible to
      the requester appears in no cell. */
  lemma OtherTasksInNoCell(db: Db, requester: Requester, year: int, month: int,
                           today: Date, id: int)
    requires ValidDate(today)
    requires MinYear <= year <= MaxYear && 1 <= month <= 12
    requires var p := MonthPage(db, requester, year, month, today);
      || id !in db.tasks
      || !Visible(db.tasks[id], requester)
      || db.tasks[id].dueDate.None?
      || db.tasks[id].dueDate.value.year != p.year
      || db.tasks[id].dueDate.value.month != p.month
    ensures var p := MonthPage(db, requester, year, month, today);
      forall i :: 0 <= i < |p.cells| ==> id !in CellTasks(p.cells[i])
  {
    var p := MonthPage(db, requester, year, month, today);
    forall i | 0 <= i < |p.cells|
      ensures id !in CellTasks(p.cells[i])
    {
      if i >= p.firstWeekday {
        assert CellTasks(p.cells[i]) == p.cells[i].tasks;
      }
    }
  }

  /** A day is marked past exactly when it comes before today on the day
      count, and marked today only on today's date; no day is both. */
  lemma PastMeansEarlierDay(db: Db, requester: Requester, year: int, month: int,
                            today: Date, i: int)
    requires ValidDate(today)
    requires MinYear <= year <= MaxYear && 1 <= month <= 12
    requires var p := MonthPage(db, requester, year, month, today);
      p.firstWeekday <= i < |p.cells|
    ensures var c := MonthPage(db, requester, year, month, today).cells[i];
      && (c.isPast <==> Ordinal(c.date) < Ordinal(today))
      && (c.isToday <==> Ordinal(c.date) == Ordinal(today))
      && !(c.isPast && c.isToday)
  {
    var c := MonthPage(db, requester, year, month, today).cells[i];
    BeforeIffOrdinalLess(c.date, today);
    BeforeIffOrdinalLess(today, c.date);
  }

  /** The month after (y, m) starts on the weekday after (y, m)'s last day. */
  lemma NextMonthStartsAfter(y: int, m: int)
    requires MinYear <= y <= MaxYear && 1 <= m <= 12
    requires NextMonth(y, m).0 <= MaxYear
    ensures var n := NextMonth(y, m);
      Weekday(Date(n.0, n.1, 1)) == (Weekday(Date(y, m, 1)) + DaysInMonth(y, m)) % 7
  {
    NextMonthWeekday(y, m);
  }

  /** The next month's grid starts on the weekday after this month's last
      day: weeks run on across the "next" link. */
  lemma NextGridContinuesWeek(db: Db, requester: Requester, year: int, month: int, today: Date)
    requires ValidDate(today)
    requires MinYear <= year <= MaxYear && 1 <= month <= 12
    requires var p := MonthPage(db, requester, year, month, today);
      p.nextYear <= MaxYear
    ensures var p := MonthPage(db, requester, year, month, today);
      Weekday(Date(p.nextYear, p.nextMonth, 1)) == (p.firstWeekday + p.daysInMonth) % 7
  {
    var p := MonthPage(db, requester, year, month, today);
    NextMonthStartsAfter(p.year, p.month);
  }

  /** Following the "previous" link shows the previous month: the numbers
      the page writes into the link parse back to that month. */
  lemma PrevLinkShowsPrevMonth(db: Db, requester: Requester, yearParam: Param, monthParam: Param, today: Date)
    requires ValidDate(today)
    requires Calendar(db, requester, yearParam, monthParam, today).prevYear >= MinYear
    ensures var p := Calendar(db, requester, yearParam, monthParam, today);
      ResolveMonth(Some(ShowInt(p.prevYear)), Some(ShowInt(p.prevMonth)), today) == (p.prevYear, p.prevMonth)
  {
    var p := Calendar(db, requester, yearParam, monthParam, today);
    SmallNumberRoundTrip(p.prevYear);
    SmallNumberRoundTrip(p.prevMonth);
  }

  /** Following the "next" link shows the next month. */
  lemma NextLinkShowsNextMonth(db: Db, requester: Requester, yearParam: Param, monthParam: Param, today: Date)
    requires ValidDate(today)
    requires Calendar(db, requester, yearParam, monthParam, today).nextYear <= MaxYear
    ensures var p := Calendar(db, requester, yearParam, monthParam, today);
      ResolveMonth(Some(ShowInt(p.nextYear)), Some(ShowInt(p.nextMonth)), today) == (p.nextYear, p.nextMonth)
  {
    var p := Calendar(db, requester, yearParam, monthParam, today);
    SmallNumberRoundTrip(p.nextYear);
    SmallNumberRoundTrip(p.nextMonth);
  }
}
