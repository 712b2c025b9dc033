# To-do application core in Dafny

A Dafny model of the logic inside a small Django to-do application
(`todo_app`): the task table with its ownership-gated mutations, the
monthly calendar page, and the record rules and string forms of the two
models `Task` and `ContactMessage`.

- `task_views.dfy` (`TaskViews`): the task table is a map from primary keys
  to `Task` rows plus the autoincrement counter; the requester is an
  optional user id. `ListTasks` is `task_list`, and `Create`, `Toggle` and
  `Delete` are `task_create`, `task_toggle` and `task_delete`. Each returns
  an abstract reply together with the table afterwards.
- `forms.dfy` (`Forms`): `TaskForm` cleaning. Only the title and the due
  date are read. The title is stripped and must then be 1..200 characters
  long, and a given due date must be a real date.
- `calendar_view.dfy` (`CalendarView`): `calendar_view` picks the month from
  the `year` and `month` query parameters, lays out `first_weekday` blanks
  followed by the days of the month, puts every visible task on its due
  day, marks today and past days, and links the previous and next months.
- `dates.dfy` (`Dates`): the parts of Python's `datetime` and `calendar`
  that the view uses. It covers the proleptic Gregorian calendar for years
  1..9999, `monthrange`, `toordinal`, `weekday` and date comparison.
- `pyint.dfy` (`PyInt`) and `text.dfy` (`Text`): Python's `int(str)` on a
  query parameter, `str(int)` for the links, and `str.strip()`. On ASCII
  input, `int()` skips only C white space and refuses more than 4300 digits, while
  `str.strip()` also removes the information separators U+001C..U+001F.
- `models.dfy` (`Models`): the `Task` and `ContactMessage` records. It
  covers their bounds and defaults, the `-created_at` default ordering, and
  both `__str__` methods.
- `admin.dfy` (`Admin`): the 50-character `message_preview` column.
- `seqs.dfy` (`Seqs`) and `optional.dfy` (`Optional`): a queryset filter that
  keeps order, a newest-first insertion sort, an enumeration of an id set,
  and the option type.

Time is abstract. A mutation takes the clock reading `now` as an integer,
and the calendar takes `today` as a parameter. The model does not read a
clock, a database or a request.

The code differs from the behaviour its docstrings describe in two places,
and the model follows the code there:
- `task_list` shows an anonymous visitor only the tasks nobody owns, not all
  tasks.
- `task_toggle` checks ownership exactly as `task_delete` does.

`calendar_view` does not range-check the year (see "## Findings").
`CalendarView.CalendarAsWritten` is the view as written, with the server
error as `None`. `CalendarView.Calendar` is the corrected view, which falls
back to today's month for a year outside 1..9999. The two agree on every
request that does not end in that error.

## Model

| member | source | states |
|---|---|---|
| TaskViews.ListTasks | todo_app/views.py:35-48 | An authenticated user sees exactly their own tasks and an anonymous visitor exactly the ownerless ones. The active list holds exactly the visible uncompleted tasks and the completed list exactly the visible completed ones, each without repeats and newest first. `total_tasks` is the number of visible tasks and equals the active count plus `completed_count`. |
| TaskViews.ListingSplitsVisible | todo_app/views.py:41-42 | The active and completed lists are disjoint, and together they hold exactly the visible tasks. |
| TaskViews.VisibleNewestFirst | todo_app/views.py:35-38 | The visible query yields every visible task once, newest first, as many as there are visible keys. |
| TaskViews.MayMutateRule | todo_app/views.py:112-117 | The permission check of toggle and delete allows a change exactly when the task has no owner, or the requester is authenticated and owns it. |
| TaskViews.VisibleTasksAreMutable | todo_app/views.py:109-117 | Any task the requester sees in the list passes the permission check. |
| TaskViews.OwnerlessTaskHiddenButMutable | todo_app/views.py:35-38 | An authenticated user does not see an ownerless task in the list, yet passes the permission check for it. |
| TaskViews.Create | todo_app/views.py:69-92 | An invalid form leaves the table unchanged and replies `success: false` to AJAX requests, otherwise it redirects. A valid form adds exactly one task under the next key: the cleaned title and due date, not completed, owned by the requester when authenticated and ownerless otherwise, both timestamps `now`. All other rows stay as they were, the reply carries id, title and `completed`, and the table invariant is kept. |
| TaskViews.SaveForm | todo_app/views.py:71-90 | The saving half of `task_create`, given the cleaned form or none. With none, the table is unchanged. With a cleaned form, exactly one row is added under the next key and built as `Create` states. |
| TaskViews.CreateKeepsInvariant | todo_app/views.py:72-75 | A create keeps the table invariant and the clock order: every key below the counter and every row well formed. A valid create stores its row under a key that was free, so the table grows by exactly one. |
| TaskViews.Toggle | todo_app/views.py:109-126 | A missing id gives not-found and a refused permission gives permission-denied, both with the table unchanged. A permitted toggle flips only that task's `completed` flag and refreshes only its `updated_at`. It replies with the new flag and the id, and every other row is unchanged. |
| TaskViews.Delete | todo_app/views.py:143-159 | A missing id or a refused permission leaves the table unchanged. A permitted delete removes exactly that key, so the table shrinks by one, and keeps every other row as it was. It replies `success: true` to AJAX and redirects otherwise. |
| TaskViews.ToggleTwiceRestores | todo_app/views.py:119-126 | Toggling the same task twice restores the table, apart from the task's `updated_at`. The two replies report the flipped flag and then the original one. A refused or missing toggle changes nothing both times. |
| TaskViews.DeletedTaskIsGone | todo_app/views.py:143-153 | After a permitted delete, toggling or deleting that id again, by anyone, hits the not-found path and changes nothing. |
| TaskViews.CreateNeverReusesKey | todo_app/views.py:72-75 | A task created after a delete gets a fresh key, never the deleted one. |
| TaskViews.ToggleMovesToCompleted | todo_app/views.py:119-120 | Toggling a visible active task moves it to the completed list. The active count drops by one, `completed_count` rises by one, and the total stays the same. |
| TaskViews.DeleteShrinksListing | todo_app/views.py:153 | Deleting a visible task removes it from both lists and lowers `total_tasks` by one. |
| TaskViews.CreatedTaskIsListedActive | todo_app/views.py:72-75 | A task created through a valid form is listed among the creator's active tasks, and the total grows by one. |
| TaskViews.CreateAddsVisibleTask | todo_app/views.py:73-75 | A valid create adds exactly the new key to the creator's visible set, and that task is not completed. |
| Forms.CleanTaskForm | todo_app/forms.py:19-21 | The form is valid exactly when the stripped title is 1..200 characters long and the due date is blank or a real date. The cleaned title is the stripped title, and a blank due date becomes no due date. |
| Forms.BlankTitleRejected | todo_app/models.py:21-25 | A title made only of white space is rejected as missing. |
| Models.NewTask | todo_app/models.py:21-54 | A new task is not completed, carries the given title, due date and owner, and has `created_at == updated_at == now`. With a title of at most 200 characters and a real due date, it is well formed. |
| Models.Saved | todo_app/models.py:31-40 | A save refreshes only `updated_at`, so `created_at <= updated_at` still holds when the clock does not run backwards. |
| Models.TaskLabel | todo_app/models.py:62-65 | `Task.__str__` is the check mark for a completed task or the open circle otherwise, then a space, then the title. |
| Models.TaskLabelRoundTrip | todo_app/models.py:62-65 | A task's label gives back its completion flag and its title. |
| Models.NewContactMessage | todo_app/models.py:74-96 | A new contact message is unread and carries the given fields. It is well formed exactly when the name is at most 200 characters and the email at most 254, `EmailField`'s default `max_length`. |
| Models.ContactLabel | todo_app/models.py:104-107 | `ContactMessage.__str__` is the read mark, a space, the name, `" - "`, then the email, each at its exact position. |
| Models.ContactLabelInjective | todo_app/models.py:104-107 | Two messages with equal labels and equally long names have the same read flag, name and email. |
| Models.TasksNewestFirst | todo_app/models.py:60 | The default task order sorts by `created_at` descending and keeps every task: the result is a permutation of the input. |
| Models.MessagesNewestFirst | todo_app/models.py:102 | The default contact-message order sorts by `created_at` descending and keeps every message. |
| Admin.MessagePreview | todo_app/admin.py:61-63 | A message of at most 50 characters, including exactly 50, is shown unchanged. A longer one becomes its first 50 characters followed by `"..."`, which is 53 characters. The preview is never longer than 53, and its first min(len, 50) characters equal those of the message. |
| Admin.PreviewIdempotent | todo_app/admin.py:63 | Previewing a preview changes nothing. |
| Admin.EqualPreviews | todo_app/admin.py:63 | Equal previews come either from equal short messages or from long messages that share their first 50 characters. |
| CalendarView.ParamValue | todo_app/views.py:259-264 | An absent parameter yields the default (today's year or month). |
| CalendarView.ResolveMonthAsWritten | todo_app/views.py:257-271 | The view's own resolution: if both parameters are integers and the month is in 1..12, the requested year and month, with no check on the year. Otherwise today's year and month. |
| CalendarView.LongYearFallsBack | todo_app/views.py:262-271 | A year of more than 4300 digits makes `int()` raise inside the `try` block, so the view shows today's month. |
| CalendarView.YearZeroReachesDatetime | todo_app/views.py:262-274 | `?year=0&month=5` passes the view's checks as (0, 5), `datetime(0, 5, 1)` has no date, and the view as written fails on that request. |
| CalendarView.CalendarAsWritten | todo_app/views.py:257-351 | The view as written fails exactly when the resolved year is outside 1..9999, which is exactly when `datetime(year, month, 1)` has no date. Otherwise it renders the same page as `Calendar`. |
| CalendarView.ResolveMonth | todo_app/views.py:257-274 | If both parameters are integers, the month is in 1..12 and the year is in 1..9999, the month shown is the requested one. Otherwise it is today's year and month. It agrees with the view's resolution whenever that yields a year in range, and it always yields a valid first day. |
| CalendarView.PrevMonth | todo_app/views.py:296-301 | The previous month lies in 1..12 and is exactly one month earlier in month count. |
| CalendarView.NextMonth | todo_app/views.py:303-308 | The next month lies in 1..12 and is exactly one month later in month count. |
| CalendarView.MonthIndexInjective | todo_app/views.py:295-308 | The month count identifies the year and month. |
| CalendarView.NavigationWraps | todo_app/views.py:295-308 | The month before January is December of the year before, and the month after December is January of the year after. Next-of-previous and previous-of-next are both the identity. |
| CalendarView.MonthTasks | todo_app/views.py:281-284 | The month's query holds exactly the visible tasks due between the first and the last day, without repeats and newest first. |
| CalendarView.DayCell | todo_app/views.py:320-331 | Day `d`'s cell is dated (year, month, d) and lists exactly the month's tasks due that day. It is marked today exactly on `today` and past exactly before it. |
| CalendarView.Grid | todo_app/views.py:313-331 | The grid has `first_weekday` blank cells followed by one cell per day 1..N in order, so its length is `first_weekday + N`. |
| CalendarView.MonthPage | todo_app/views.py:273-349 | The page's first day is day 1 and its last day is day `monthrange` of the month, and both are real dates. `first_weekday` is the weekday of the first day, in 0..6. The grid has that layout and those flags, every day cell lists exactly the visible tasks due that day, newest first, and the links point to the neighbouring months. |
| CalendarView.Calendar | todo_app/views.py:244-351 | The corrected view. The year is in 1..9999 and the month in 1..12. The requested month is shown when both parameters are integers, the month is in 1..12 and the year in 1..9999; otherwise today's month is shown. The grid has `first_weekday` blanks followed by the month's days, so `first_weekday + days_in_month` cells. Each day cell is dated, flagged and filled with exactly the visible tasks due that day, and the links point to the neighbouring months. |
| CalendarView.CellsShowTheirDaysTasks | todo_app/views.py:286-293 | Grouping the month's tasks by due date gives each day cell exactly the visible tasks due that day, without repeats and newest first. |
| CalendarView.GridLayout | todo_app/views.py:313-331 | The grid of a real month has `first_weekday` blanks, then one cell per day with its date, today flag and past flag, and every day cell carries a real date. |
| CalendarView.GridSize | todo_app/views.py:276 | A month has 28 to 31 days, and the grid holds 28 to 37 cells. |
| CalendarView.OneCellPerDate | todo_app/views.py:316-331 | In such a grid, the only cell dated (y, m, d) is the one at `first_weekday + d - 1`. |
| CalendarView.TaskInItsCell | todo_app/views.py:286-328 | A visible task due in the shown month appears in the cell of its due day. |
| CalendarView.TaskInOneCellOnly | todo_app/views.py:286-328 | Such a task appears in no other cell. |
| CalendarView.TaskInItsDayCell | todo_app/views.py:286-328 | The grid-level form of the two lemmas above. |
| CalendarView.OtherTasksInNoCell | todo_app/views.py:281-293 | A task that is missing, invisible to the requester, without a due date or due in another month appears in no cell. |
| CalendarView.PastMeansEarlierDay | todo_app/views.py:329-330 | A day is past exactly when its day number is below today's, and today exactly when the two are equal. No day is both. |
| CalendarView.NextMonthStartsAfter | todo_app/views.py:303-311 | The month after (y, m) starts on the weekday after (y, m)'s last day. |
| CalendarView.NextGridContinuesWeek | todo_app/views.py:303-311 | The next month's grid begins with as many blanks as `(first_weekday + days_in_month) mod 7`, so weeks run on across the link. |
| CalendarView.PrevLinkShowsPrevMonth | todo_app/views.py:295-301 | The numbers written into the "previous" link parse back to the previous month, whenever its year is at least 1. |
| CalendarView.NextLinkShowsNextMonth | todo_app/views.py:303-308 | The numbers written into the "next" link parse back to the next month, whenever its year is at most 9999. |
| Dates.DaysInMonth | todo_app/views.py:276 | `monthrange(y, m)[1]` lies in 28..31. |
| Dates.MakeDate | todo_app/views.py:274 | `datetime(y, m, d)` yields a date exactly when year, month and day are valid, and that date carries the given fields. |
| Dates.Weekday | todo_app/views.py:311 | `weekday()` lies in 0..6. |
| Dates.CalendarExamples | todo_app/views.py:311 | Fixed points of the calendar: 2000-01-01 is day 730120 and a Saturday, and 2026-10-01 is a Thursday. February has 29 days in 2024 and 2000 and 28 in 2100. |
| Dates.WeekdayAdvance | todo_app/views.py:311 | A date `n` days after another falls `n` weekdays later, modulo 7. |
| Dates.NextYearStart | todo_app/views.py:276 | Year `y + 1` starts right after the last day of year `y`, under the Gregorian leap rule. |
| Dates.MonthsTile | todo_app/views.py:276 | Each month starts right after the previous month's last day, and December ends the year. |
| Dates.OrdinalIncreasing | todo_app/views.py:330 | An earlier date has a smaller day number. |
| Dates.BeforeIffOrdinalLess | todo_app/views.py:330 | Python's date comparison agrees with the day numbers in both directions. |
| Dates.NextMonthFirstOrdinal | todo_app/views.py:303-308 | The next month's first day comes `monthrange` days after this month's first day, across a year boundary too. |
| Dates.NextMonthWeekday | todo_app/views.py:303-311 | The next month starts on the weekday after this month's last day. |
| PyInt.ParseInt | todo_app/views.py:262-271 | Whatever `int()` accepts holds a digit, and a negative result holds a minus sign. |
| PyInt.ParseIntAcceptsLiterals | todo_app/views.py:263-264 | Text made of C white space, an optional `+` or `-`, a run of at most 4300 digits with single underscores between digits, and C white space parses to the signed value of the run. |
| PyInt.ParseIntOnlyLiterals | todo_app/views.py:262-271 | Conversely, any text `int()` accepts splits into exactly those four parts, and its value is the signed value of the digit run. Anything else, such as `"5x"`, raises, so the view falls back to today's month. |
| PyInt.ParseIntIgnoresPadding | todo_app/views.py:263-264 | A space, tab, line feed, vertical tab, form feed or carriage return at either end does not change what `int()` returns. |
| PyInt.SeparatorIsNotIntSpace | todo_app/views.py:263-264 | U+001C counts as white space for `str.isspace()` but not for `int()`: `int("\x1c5")` raises, while `int(" 5") == 5`. |
| PyInt.TooManyDigitsNoInt | todo_app/views.py:263-264 | A digit run of more than 4300 digits makes `int()` raise, whatever its value. |
| PyInt.ParseShowRoundTrip | todo_app/views.py:263-264 | `int(str(n)) == n` for every integer `n` of at most 4300 digits. |
| PyInt.SmallNumberRoundTrip | todo_app/views.py:295-308 | Every number between -10000 and 10000, which covers every year and month a calendar link carries, reads back as itself. |
| PyInt.NoDigitNoInt | todo_app/views.py:262-271 | Text without any digit is not an integer, so the view falls back to today's month. |

## Left out

- Registration, login, logout and `contact_view` (`todo_app/views.py:162-241`
  and `354-390`) are thin calls into Django's auth, session and form layers.
- Templates, the `messages` flash texts, redirects and JSON encoding are not
  modelled. A reply is an abstract `Reply` value.
- `require_POST` and its 405 response are not modelled: only POST requests
  reach the mutations.
- The ORM is not modelled. `get_object_or_404` is a key lookup whose miss is
  `NotFound`, and the table is a map plus an autoincrement counter whose
  keys are never reused.
- Requests are modelled as applied one after another, each as a whole.
  Concurrent requests are not modelled, so neither is the lost update when
  two overlapping `task_toggle` calls read the same row and both save it.
  `TaskViews.ToggleTwiceRestores` is about two toggles in sequence.
- `timezone.now()` is not modelled. Mutations take the reading `now` and
  the calendar takes `today`.
- `created_at` and `updated_at` are read from one `now` at creation. Django
  reads the clock twice within the same save.
- Rows with equal `created_at` may come back from the database in any order.
  The model only promises newest-first by `created_at`.
- `strftime('%B')` and the Russian month-name lookup (`todo_app/views.py:336-338`)
  are locale-dependent presentation.
- Django's parsing of the submitted date text into a year, month and day is
  not modelled. The form receives it as `Blank`, `Entered(date)` or
  `Garbled`.
- Django's rejection of NUL characters in `CharField` input is not modelled.
- Email syntax validation of `ContactMessage.email` is not modelled. Only its
  254-character bound is.
- `int()` and `strip()` are modelled on ASCII only. Unicode digits and
  non-ASCII white space are not. For example, CPython's `int()` turns
  non-ASCII white space into a space before it parses, so `int("\u00a05")`
  is 5.
- `int()`'s 4300-digit limit is modelled at CPython's default. A program
  that changes it with `sys.set_int_max_str_digits` is not modelled, and
  neither is the same limit inside `str()`. The calendar only writes
  numbers of at most five digits.
- Form widgets and labels, URL routing, app configuration and the
  declarative admin options are configuration without behaviour.
- CalendarView.Calendar: models the corrected view. For a year outside
  1..9999 it shows today's month, where the code as written fails with a
  server error. `CalendarView.CalendarAsWritten` states that failure.
- CalendarView.PrevLinkShowsPrevMonth: requires the previous month's year
  to be at least 1. From January of year 1 the link leads to year 0, which
  is the crash described under Findings.
- CalendarView.NextLinkShowsNextMonth: requires the next month's year to be
  at most 9999, for the same reason.

## Findings

| source | as written | input that shows it | evidently intended | confidence | as-written member | corrected member |
|---|---|---|---|---|---|---|
| todo_app/views.py:262-274 | Only the month is range-checked. Any integer year of at most 4300 digits is kept, and `datetime(year, month, 1)` runs outside the `try` block. | `?year=0&month=5`, or the "previous" link shown for January of year 1. `datetime(0, 5, 1)` raises `ValueError` and the request ends in a server error. | A year outside 1..9999 falls back to today's year and month, as a bad month does. | medium, not executed | CalendarView.ResolveMonthAsWritten, CalendarView.CalendarAsWritten, CalendarView.YearZeroReachesDatetime | CalendarView.ResolveMonth, CalendarView.Calendar |
