/** `TaskForm`: the model form through which a task is created. It takes
    only `title` and `due_date` from the submitted data and validates them
    the way Django's `CharField(max_length=200)` and `DateField(null=True,
    blank=True)` do. */
module Forms {
  import opened Optional
  import opened Text
  import opened Dates
  import opened Models

  /** The submitted `due_date` field: left blank, a year-month-day triple the
      date widget produced (not necessarily a real date), or text that
      matches no accepted date format. */
  datatype DueDateField = Blank | Entered(date: Date) | Garbled

  /** The two fields the form reads from the POST data; anything else
      submitted is ignored. A missing title arrives as "". */
  datatype TaskFormData = TaskFormData(title: string, dueDate: DueDateField)

  /** The cleaned data of a valid form. */
  datatype CleanedTask = CleanedTask(title: string, dueDate: Option<Date>)

  /** `form.is_valid()` with `form.cleaned_data`: the title is stripped, must
      then be non-empty and at most 200 characters long; the due date is
      optional but, when given, must be a real date. */
  function CleanTaskForm(data: TaskFormData): (r: Option<CleanedTask>)
    ensures r.Some? <==>
      && 0 < |Strip(data.title)| <= TitleMaxLength
      && !data.dueDate.Garbled?
      && (data.dueDate.Entered? ==> ValidDate(data.dueDate.date))
    ensures r.Some? ==> r.value.title == Strip(data.title)
    ensures r.Some? ==> 0 < |r.value.title| <= TitleMaxLength
    ensures r.Some? ==> !IsSpace(r.value.title[0]) && !IsSpace(r.value.title[|r.value.title| - 1])
    ensures r.Some? && data.dueDate.Blank? ==> r.value.dueDate == None
    ensures r.Some? && data.dueDate.Entered? ==> r.value.dueDate == Some(data.dueDate.date)
    ensures r.Some? && r.value.dueDate.Some? ==> ValidDate(r.value.dueDate.value)
  {
    var title := Strip(data.title);
    if |title| == 0 || |title| > TitleMaxLength then None
    else
      match data.dueDate
      case Blank => Some(CleanedTask(title, None))
      case Entered(d) => if ValidDate(d) then Some(CleanedTask(title, Some(d))) else None
      case Garbled => None
  }

  /** A title made only of white space is rejected as missing. */
  lemma BlankTitleRejected(data: TaskFormData)
    requires forall k :: 0 <= k < |data.title| ==> IsSpace(data.title[k])
    ensures CleanTaskForm(data) == None
  {
    StripEmptyIffBlank(data.title, StrSpace);
  }
}
