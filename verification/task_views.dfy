/** The task views `task_list`, `task_create`, `task_toggle` and
    `task_delete` as pure functions over the task table. A request carries
    the requesting user, and for the mutations whether the client asked for
    JSON (`X-Requested-With: XMLHttpRequest`); a mutation returns the reply
    and the table afterwards. */
module TaskViews {
  import opened Optional
  import opened Seqs
  import opened Models
  import opened Forms

  /** The requesting user: Some(id) when authenticated, None when anonymous. */
  type Requester = Option<UserId>

  /** The task table: rows by primary key, and the key the autoincrement
      counter hands out next (keys are never reused). */
  datatype Db = Db(tasks: map<int, Task>, nextId: int)

  /** Every key was handed out by the counter and every row is well formed. */
  predicate Inv(db: Db)
  {
    && db.nextId >= 1
    && forall id :: id in db.tasks ==> 1 <= id < db.nextId && WellFormedTask(db.tasks[id])
  }

  /** The clock reads `now` or later than every stored update: time does not
      run backwards between requests. */
  predicate ClockAfter(db: Db, now: Timestamp)
  {
    forall id :: id in db.tasks ==> db.tasks[id].updatedAt <= now
  }

  /** The list filter: an authenticated user's own tasks, or for an
      anonymous visitor the tasks nobody owns. */
  predicate Visible(t: Task, requester: Requester)
  {
    match requester
    case Some(u) => t.owner == Some(u)
    case None => t.owner.None?
  }

  /** The permission check of toggle and delete, branch for branch: an
      authenticated user is refused a task owned by someone else, an
      anonymous one any owned task. */
  predicate MayMutate(t: Task, requester: Requester)
  {
    match requester
    case Some(u) => !(t.owner.Some? && t.owner.value != u)
    case None => !t.owner.Some?
  }

  /** The permission rule in one line: a task may be changed when nobody
      owns it, or when the requester is authenticated and owns it. */
  lemma MayMutateRule(t: Task, requester: Requester)
    ensures MayMutate(t, requester) <==> t.owner.None? || (requester.Some? && t.owner == requester)
  {
  }

  /** Whoever sees a task in the list may change it. */
  lemma VisibleTasksAreMutable(t: Task, requester: Requester)
    requires Visible(t, requester)
    ensures MayMutate(t, requester)
  {
  }

  /** The converse fails: an authenticated user does not see ownerless
      tasks in the list, yet may toggle or delete them by id. */
  lemma OwnerlessTaskHiddenButMutable(t: Task, u: UserId)
    requires t.owner.None?
    ensures !Visible(t, Some(u)) && MayMutate(t, Some(u))
  {
  }

  /** Keys of the tasks the requester sees, and their split by status. */
  function VisibleIds(db: Db, requester: Requester): set<int>
  {
    set id | id in db.tasks && Visible(db.tasks[id], requester)
  }

  function ActiveIds(db: Db, requester: Requester): set<int>
  {
    set id | id in db.tasks && Visible(db.tasks[id], requester) && !db.tasks[id].completed
  }

  function CompletedIds(db: Db, requester: Requester): set<int>
  {
    set id | id in db.tasks && Visible(db.tasks[id], requester) && db.tasks[id].completed
  }

  /** The `created_at` of the task stored under a key. */
  function CreatedKey(db: Db): int -> int
  {
    id => if id in db.tasks then CreatedAtOf(db.tasks[id]) else 0
  }

  /** The requester's tasks in the default order, newest first. */
  function VisibleNewestFirst(db: Db, requester: Requester): (r: seq<int>)
    ensures forall id :: id in r <==> id in db.tasks && Visible(db.tasks[id], requester)
    ensures NoDup(r)
    ensures |r| == |VisibleIds(db, requester)|
    ensures NewestFirst(r, CreatedKey(db))
  {
    var ids := Ascending(VisibleIds(db, requester));
    SortKeepsNoDup(ids, CreatedKey(db));
    SortNewestFirst(ids, CreatedKey(db))
  }

  /** The context `task_list` renders. Tasks are listed by key. */
  datatype Listing = Listing(
    activeTasks: seq<int>,
    completedTasks: seq<int>,
    totalTasks: nat,
    completedCount: nat)

  /** `task_list`: the visible tasks split into active and completed ones,
      each newest first, with the counters. */
  function ListTasks(db: Db, requester: Requester): (l: Listing)
    ensures forall id :: id in l.activeTasks <==>
      id in db.tasks && Visible(db.tasks[id], requester) && !db.tasks[id].completed
    ensures forall id :: id in l.completedTasks <==>
      id in db.tasks && Visible(db.tasks[id], requester) && db.tasks[id].completed
    ensures NoDup(l.activeTasks) && NoDup(l.completedTasks)
    ensures NewestFirst(l.activeTasks, CreatedKey(db)) && NewestFirst(l.completedTasks, CreatedKey(db))
    ensures l.totalTasks == |VisibleIds(db, requester)|
    ensures l.completedCount == |l.completedTasks| == |CompletedIds(db, requester)|
    ensures |l.activeTasks| == |ActiveIds(db, requester)|
    ensures l.totalTasks == |l.activeTasks| + l.completedCount
  {
    var ordered := VisibleNewestFirst(db, requester);
    var isActive := (id: int) => id in db.tasks && !db.tasks[id].completed;
    var isDone := (id: int) => id in db.tasks && db.tasks[id].completed;
    var active := Filter(ordered, isActive);
    var done := Filter(ordered, isDone);
    FilterKeepsOrder(ordered, isActive, CreatedKey(db));
    FilterKeepsOrder(ordered, isDone, CreatedKey(db));
    FilterPartition(ordered, isActive, isDone);
    SameElementsSameSize(active, ActiveIds(db, requester));
    SameElementsSameSize(done, CompletedIds(db, requester));
    Listing(active, done, |ordered|, |done|)
  }

  /** The two lists split the visible tasks: no task is in both, and every
      visible task is in one of them. */
  lemma ListingSplitsVisible(db: Db, requester: Requester)
    ensures var l := ListTasks(db, requester);
      && (forall id :: !(id in l.activeTasks && id in l.completedTasks))
      && (forall id :: id in l.activeTasks || id in l.completedTasks <==> id in VisibleIds(db, requester))
  {
  }

  /** Why a JSON reply says `success: false`. */
  datatype Refusal = PermissionDenied | FormErrors

  /** The reply of a mutation view. */
  datatype Reply =
    | TaskCreated(id: int, title: string, completed: bool)  // {success: true, task: {...}}
    | TaskToggled(completed: bool, taskId: int)             // {success: true, completed, task_id}
    | TaskDeleted                                           // {success: true}
    | Refused(reason: Refusal)                              // {success: false, ...}
    | RedirectToList                                        // redirect to the list page
    | NotFound                                              // HTTP 404 from get_object_or_404

  /** A reply together with the task table after the request. */
  datatype Outcome = Outcome(reply: Reply, db: Db)

  /** The row a valid form creates: the cleaned title and due date, not
      completed, owned by the requester (nobody when anonymous), and both
      timestamps reading `now`. */
  predicate RowFromForm(t: Task, c: CleanedTask, requester: Requester, now: Timestamp)
  {
    && t.title == c.title
    && t.dueDate == c.dueDate
    && !t.completed
    && t.owner == requester
    && t.createdAt == now && t.updatedAt == now
  }

  /** The saving half of `task_create`, given the form's cleaned data or
      None when the form was invalid. */
  function SaveForm(db: Db, requester: Requester, form: Option<CleanedTask>, ajax: bool, now: Timestamp): (r: Outcome)
    ensures form.None? ==>
      r.db == db && r.reply == (if ajax then Refused(FormErrors) else RedirectToList)
    ensures form.Some? ==>
      var c := form.value;
      var id := db.nextId;
      && r.db.nextId == id + 1
      && r.db.tasks.Keys == db.tasks.Keys + {id}
      && (forall k :: k in db.tasks && k != id ==> r.db.tasks[k] == db.tasks[k])
      && RowFromForm(r.db.tasks[id], c, requester, now)
      && r.reply == (if ajax then TaskCreated(id, c.title, false) else RedirectToList)
  {
    match form
    case None =>
      Outcome(if ajax then Refused(FormErrors) else RedirectToList, db)
    case Some(c) =>
      var id := db.nextId;
      var task := NewTask(c.title, c.dueDate, requester, now);
      var db' := Db(db.tasks[id := task], id + 1);
      Outcome(if ajax then TaskCreated(id, task.title, task.completed) else RedirectToList, db')
  }

  /** `task_create`: a valid form adds one task under the next key, owned by
      the requester when authenticated; an invalid one adds nothing. */
  function Create(db: Db, requester: Requester, data: TaskFormData, ajax: bool, now: Timestamp): (r: Outcome)
    ensures CleanTaskForm(data).None? ==>
      r.db == db && r.reply == (if ajax then Refused(FormErrors) else RedirectToList)
    ensures CleanTaskForm(data).Some? ==>
      var c := CleanTaskForm(data).value;
      var id := db.nextId;
      && r.db.nextId == id + 1
      && r.db.tasks.Keys == db.tasks.Keys + {id}
      && (forall k :: k in db.tasks && k != id ==> r.db.tasks[k] == db.tasks[k])
      && RowFromForm(r.db.tasks[id], c, requester, now)
      && r.reply == (if ajax then TaskCreated(id, c.title, false) else RedirectToList)
  {
    SaveForm(db, requester, CleanTaskForm(data), ajax, now)
  }

  /** A create keeps the table invariant and the clock order, and a valid
      one adds a row under a key that was free. */
  lemma CreateKeepsInvariant(db: Db, requester: Requester, data: TaskFormData, ajax: bool, now: Timestamp)
    ensures var after := Create(db, requester, data, ajax, now).db;
      && (Inv(db) ==> Inv(after))
      && (ClockAfter(db, now) ==> ClockAfter(after, now))
      && (Inv(db) && CleanTaskForm(data).Some? ==> db.nextId !in db.tasks && |after.tasks| == |db.tasks| + 1)
  {
    if CleanTaskForm(data).Some? {
      var c := CleanTaskForm(data).value;
      var t := NewTask(c.title, c.dueDate, requester, now);
      assert Create(db, requester, data, ajax, now).db == Db(db.tasks[db.nextId := t], db.nextId + 1);
      AddRowKeepsInvariant(db, t, now);
    }
  }

  /** Storing a well-formed row under the counter's key and advancing the
      counter keeps the invariant; the key was free, so the table grows by one. */
  lemma AddRowKeepsInvariant(db: Db, t: Task, now: Timestamp)
    requires t.updatedAt <= now
    ensures var after := Db(db.tasks[db.nextId := t], db.nextId + 1);
      && (Inv(db) && WellFormedTask(t) ==> Inv(after))
      && (ClockAfter(db, now) ==> ClockAfter(after, now))
      && (Inv(db) ==> db.nextId !in db.tasks && |after.tasks| == |db.tasks| + 1)
  {
  }

  /** `task_toggle`: flips the completion flag of a task the requester may
      change and replies with the new flag. */
  function Toggle(db: Db, requester: Requester, id: int, now: Timestamp): (r: Outcome)
    ensures id !in db.tasks ==> r == Outcome(NotFound, db)
    ensures id in db.tasks && !MayMutate(db.tasks[id], requester) ==>
      r == Outcome(Refused(PermissionDenied), db)
    ensures id in db.tasks && MayMutate(db.tasks[id], requester) ==>
      var t := db.tasks[id];
      && r.reply == TaskToggled(!t.completed, id)
      && r.db.nextId == db.nextId
      && r.db.tasks.Keys == db.tasks.Keys
      && (forall k :: k in db.tasks && k != id ==> r.db.tasks[k] == db.tasks[k])
      && r.db.tasks[id].completed == !t.completed
      && r.db.tasks[id].title == t.title && r.db.tasks[id].owner == t.owner
      && r.db.tasks[id].dueDate == t.dueDate && r.db.tasks[id].createdAt == t.createdAt
      && r.db.tasks[id].updatedAt == now
    ensures Inv(db) && ClockAfter(db, now) ==> Inv(r.db)
    ensures ClockAfter(db, now) ==> ClockAfter(r.db, now)
  {
    if id !in db.tasks then Outcome(NotFound, db)
    else
      var t := db.tasks[id];
      if !MayMutate(t, requester) then Outcome(Refused(PermissionDenied), db)
      else
        var t' := Saved(t.(completed := !t.completed), now);
        Outcome(TaskToggled(t'.completed, id), db.(tasks := db.tasks[id := t']))
  }

  /** `task_delete`: removes a task the requester may change. */
  function Delete(db: Db, requester: Requester, id: int, ajax: bool): (r: Outcome)
    ensures id !in db.tasks ==> r == Outcome(NotFound, db)
    ensures id in db.tasks && !MayMutate(db.tasks[id], requester) ==>
      r == Outcome(Refused(PermissionDenied), db)
    ensures id in db.tasks && MayMutate(db.tasks[id], requester) ==>
      && r.reply == (if ajax then TaskDeleted else RedirectToList)
      && r.db.nextId == db.nextId
      && r.db.tasks.Keys == db.tasks.Keys - {id}
      && (forall k :: k in r.db.tasks ==> r.db.tasks[k] == db.tasks[k])
      && |r.db.tasks| == |db.tasks| - 1
    ensures Inv(db) ==> Inv(r.db)
  {
    if id !in db.tasks then Outcome(NotFound, db)
    else if !MayMutate(db.tasks[id], requester) then Outcome(Refused(PermissionDenied), db)
    else Outcome(if ajax then TaskDeleted else RedirectToList, db.(tasks := db.tasks - {id}))
  }

  /** Toggling the same task twice restores the table, except that the
      task's `updated_at` holds the second save's time; a refused or
      missing toggle changes nothing either time. */
  lemma ToggleTwiceRestores(db: Db, requester: Requester, id: int, t1: Timestamp, t2: Timestamp)
    ensures var first := Toggle(db, requester, id, t1);
      var second := Toggle(first.db, requester, id, t2);
      && (id in db.tasks && MayMutate(db.tasks[id], requester) ==>
            && second.db == db.(tasks := db.tasks[id := db.tasks[id].(updatedAt := t2)])
            && first.reply == TaskToggled(!db.tasks[id].completed, id)
            && second.reply == TaskToggled(db.tasks[id].completed, id))
      && (id !in db.tasks || !MayMutate(db.tasks[id], requester) ==>
            second.db == db && first.reply == second.reply)
  {
    if id in db.tasks && MayMutate(db.tasks[id], requester) {
      var first := Toggle(db, requester, id, t1);
      var second := Toggle(first.db, requester, id, t2);
      assert second.db.tasks == db.tasks[id := db.tasks[id].(updatedAt := t2)];
    }
  }

  /** After a task is deleted, toggling or deleting its key again finds
      nothing and changes nothing, whoever asks. */
  lemma DeletedTaskIsGone(db: Db, requester: Requester, id: int, ajax: bool,
                          other: Requester, now: Timestamp, ajax2: bool)
    requires id in db.tasks && MayMutate(db.tasks[id], requester)
    ensures var after := Delete(db, requester, id, ajax).db;
      && Toggle(after, other, id, now) == Outcome(NotFound, after)
      && Delete(after, other, id, ajax2) == Outcome(NotFound, after)
  {
  }

  /** Keys are never reused: a task created after a deletion gets a key
      different from the deleted one. */
  lemma CreateNeverReusesKey(db: Db, requester: Requester, id: int, ajax: bool,
                             other: Requester, data: TaskFormData, now: Timestamp)
    requires Inv(db)
    requires id in db.tasks && MayMutate(db.tasks[id], requester)
    requires CleanTaskForm(data).Some?
    ensures var after := Delete(db, requester, id, ajax).db;
      var created := Create(after, other, data, ajax, now).db;
      created.tasks.Keys == after.tasks.Keys + {db.nextId} && db.nextId != id
  {
  }

  /** A visible active task that is toggled moves to the completed list:
      one fewer active task, one more completed, the same total. */
  lemma ToggleMovesToCompleted(db: Db, requester: Requester, id: int, now: Timestamp)
    requires id in db.tasks && Visible(db.tasks[id], requester) && !db.tasks[id].completed
    ensures var before := ListTasks(db, requester);
      var after := ListTasks(Toggle(db, requester, id, now).db, requester);
      && id in before.activeTasks && id in after.completedTasks
      && |after.activeTasks| == |before.activeTasks| - 1
      && after.completedCount == before.completedCount + 1
      && after.totalTasks == before.totalTasks
  {
    VisibleTasksAreMutable(db.tasks[id], requester);
    var t := db.tasks[id];
    var t' := Saved(t.(completed := true), now);
    assert Toggle(db, requester, id, now).db == db.(tasks := db.tasks[id := t']);
    CompleteRowSets(db, requester, id, t');
  }

  /** Replacing a visible active row by a visible completed one moves its
      key from the active set to the completed set. */
  lemma CompleteRowSets(db: Db, requester: Requester, id: int, t': Task)
    requires id in db.tasks && Visible(db.tasks[id], requester) && !db.tasks[id].completed
    requires Visible(t', requester) && t'.completed
    ensures var after := db.(tasks := db.tasks[id := t']);
      && VisibleIds(after, requester) == VisibleIds(db, requester)
      && ActiveIds(after, requester) == ActiveIds(db, requester) - {id}
      && CompletedIds(after, requester) == CompletedIds(db, requester) + {id}
      && |ActiveIds(after, requester)| == |ActiveIds(db, requester)| - 1
      && |CompletedIds(after, requester)| == |CompletedIds(db, requester)| + 1
  {
    var after := db.(tasks := db.tasks[id := t']);
    var active, active' := ActiveIds(db, requester), ActiveIds(after, requester);
    var done, done' := CompletedIds(db, requester), CompletedIds(after, requester);
    assert active' == active - {id} && id in active;
    assert done' == done + {id} && id !in done;
  }

  /** Deleting a visible task removes it from the listing and lowers the
      total by one. */
  lemma DeleteShrinksListing(db: Db, requester: Requester, id: int, ajax: bool)
    requires id in db.tasks && Visible(db.tasks[id], requester)
    ensures var before := ListTasks(db, requester);
      var after := ListTasks(Delete(db, requester, id, ajax).db, requester);
      && id !in after.activeTasks && id !in after.completedTasks
      && after.totalTasks == before.totalTasks - 1
  {
    VisibleTasksAreMutable(db.tasks[id], requester);
    var db' := Delete(db, requester, id, ajax).db;
    assert VisibleIds(db', requester) == VisibleIds(db, requester) - {id};
  }

  /** A task created through a valid form is listed among the creator's
      active tasks, and the total grows by one. */
  lemma CreatedTaskIsListedActive(db: Db, requester: Requester, data: TaskFormData, ajax: bool, now: Timestamp)
    requires Inv(db) && CleanTaskForm(data).Some?
    ensures var after := Create(db, requester, data, ajax, now).db;
      && db.nextId in ListTasks(after, requester).activeTasks
      && ListTasks(after, requester).totalTasks == ListTasks(db, requester).totalTasks + 1
  {
    CreateAddsVisibleTask(db, requester, data, ajax, now);
  }

  /** The set-level content of `CreatedTaskIsListedActive`. */
  lemma CreateAddsVisibleTask(db: Db, requester: Requester, data: TaskFormData, ajax: bool, now: Timestamp)
    requires Inv(db) && CleanTaskForm(data).Some?
    ensures var after := Create(db, requester, data, ajax, now).db;
      && db.nextId !in VisibleIds(db, requester)
      && VisibleIds(after, requester) == VisibleIds(db, requester) + {db.nextId}
      && db.nextId in after.tasks && Visible(after.tasks[db.nextId], requester)
      && !after.tasks[db.nextId].completed
  {
    var c := CleanTaskForm(data).value;
    var t := NewTask(c.title, c.dueDate, requester, now);
    assert Create(db, requester, data, ajax, now).db == Db(db.tasks[db.nextId := t], db.nextId + 1);
    AddRowVisible(db, requester, t);
  }

  /** Storing a row the requester sees under the counter's key adds exactly
      that key to the requester's visible set. */
  lemma AddRowVisible(db: Db, requester: Requester, t: Task)
    requires Inv(db) && Visible(t, requester)
    ensures db.nextId !in VisibleIds(db, requester)
    ensures VisibleIds(Db(db.tasks[db.nextId := t], db.nextId + 1), requester)
      == VisibleIds(db, requester) + {db.nextId}
  {
  }
}
