/** The two records of the application, `Task` and `ContactMessage`: their
    field bounds and defaults, their default ordering and their string forms. */
module Models {
  import opened Optional
  import opened Dates
  import opened Seqs

  /** `max_length` of `Task.title`. */
  const TitleMaxLength := 200
  /** `max_length` of `ContactMessage.name`. */
  const NameMaxLength := 200
  /** `max_length` of `ContactMessage.email`: `EmailField`'s default. */
  const EmailMaxLength := 254

  /** Primary key of a Django `User`. */
  type UserId = int

  /** A reading of the clock. Only its order matters: later saves read
      larger or equal values. */
  type Timestamp = int

  /** One to-do item. `owner` and `dueDate` are nullable (`null=True`). */
  datatype Task = Task(
    title: string,
    completed: bool,
    createdAt: Timestamp,
    updatedAt: Timestamp,
    owner: Option<UserId>,
    dueDate: Option<Date>)

  /** The constraints every stored task meets: the title fits its column,
      the last update is no earlier than the creation, and a due date is a
      real calendar date. */
  predicate WellFormedTask(t: Task)
  {
    && |t.title| <= TitleMaxLength
    && t.createdAt <= t.updatedAt
    && (t.dueDate.Some? ==> ValidDate(t.dueDate.value))
  }

  /** A freshly saved task: `completed` takes its default, and both
      `created_at` (`auto_now_add`) and `updated_at` (`auto_now`) read the
      clock at the first save. */
  function NewTask(title: string, dueDate: Option<Date>, owner: Option<UserId>, now: Timestamp): (t: Task)
    ensures !t.completed
    ensures t.title == title && t.dueDate == dueDate && t.owner == owner
    ensures t.createdAt == now && t.updatedAt == now
    ensures (|title| <= TitleMaxLength && (dueDate.Some? ==> ValidDate(dueDate.value)))
      ==> WellFormedTask(t)
  {
    Task(title, false, now, now, owner, dueDate)
  }

  /** `task.save()` on an existing task: only `updated_at` is refreshed. */
  function Saved(t: Task, now: Timestamp): (t': Task)
    ensures t'.title == t.title && t'.completed == t.completed && t'.owner == t.owner
    ensures t'.dueDate == t.dueDate && t'.createdAt == t.createdAt
    ensures t'.updatedAt == now
    ensures WellFormedTask(t) && t.updatedAt <= now ==> WellFormedTask(t') && t'.updatedAt >= t'.createdAt
  {
    t.(updatedAt := now)
  }

  /** The check mark and the open circle used by both `__str__` methods. */
  const CheckMark: char := '\U{2713}'
  const OpenMark: char := '\U{25CB}'

  function StatusMark(done: bool): char
  {
    if done then CheckMark else OpenMark
  }

  /** `Task.__str__`: the status mark, a space, the title. */
  function TaskLabel(t: Task): (s: string)
    ensures |s| == |t.title| + 2
    ensures s[0] == (if t.completed then CheckMark else OpenMark)
    ensures s[1] == ' ' && s[2..] == t.title
  {
    [StatusMark(t.completed), ' '] + t.title
  }

  /** Reads a task label back into its completion flag and title. */
  function ParseTaskLabel(s: string): Option<(bool, string)>
  {
    if |s| >= 2 && s[1] == ' ' && (s[0] == CheckMark || s[0] == OpenMark) then
      Some((s[0] == CheckMark, s[2..]))
    else None
  }

  /** A task label determines the completion flag and the title. */
  lemma TaskLabelRoundTrip(t: Task)
    ensures ParseTaskLabel(TaskLabel(t)) == Some((t.completed, t.title))
  {
  }

  /** A message sent through the contact form. */
  datatype ContactMessage = ContactMessage(
    name: string,
    email: string,
    message: string,
    createdAt: Timestamp,
    isRead: bool)

  /** The column bounds on the sender's name and email address. */
  predicate WellFormedContactMessage(m: ContactMessage)
  {
    |m.name| <= NameMaxLength && |m.email| <= EmailMaxLength
  }

  /** A freshly saved contact message: `is_read` takes its default and
      `created_at` reads the clock. */
  function NewContactMessage(name: string, email: string, message: string, now: Timestamp): (m: ContactMessage)
    ensures !m.isRead
    ensures m.name == name && m.email == email && m.message == message && m.createdAt == now
    ensures WellFormedContactMessage(m) <==> |name| <= NameMaxLength && |email| <= EmailMaxLength
  {
    ContactMessage(name, email, message, now, false)
  }

  /** `ContactMessage.__str__`: the read mark, a space, the name, " - ", the email. */
  function ContactLabel(m: ContactMessage): (s: string)
    ensures |s| == |m.name| + |m.email| + 5
    ensures s[0] == (if m.isRead then CheckMark else OpenMark) && s[1] == ' '
    ensures s[2..2 + |m.name|] == m.name
    ensures s[2 + |m.name|..5 + |m.name|] == " - "
    ensures s[5 + |m.name|..] == m.email
  {
    [StatusMark(m.isRead), ' '] + m.name + " - " + m.email
  }

  /** Two messages with the same label and equally long names agree on the
      read flag, the name and the email. */
  lemma ContactLabelInjective(a: ContactMessage, b: ContactMessage)
    requires ContactLabel(a) == ContactLabel(b) && |a.name| == |b.name|
    ensures a.isRead == b.isRead && a.name == b.name && a.email == b.email
  {
    var s := ContactLabel(a);
    assert s[2..2 + |a.name|] == a.name && s[2..2 + |b.name|] == b.name;
    assert s[5 + |a.name|..] == a.email && s[5 + |b.name|..] == b.email;
  }

  /** Sort keys for `ordering = ['-created_at']`. */
  function CreatedAtOf(t: Task): int
  {
    t.createdAt
  }

  function SentAtOf(m: ContactMessage): int
  {
    m.createdAt
  }

  /** The default order of tasks: newest first, every task kept. */
  function TasksNewestFirst(ts: seq<Task>): (r: seq<Task>)
    ensures NewestFirst(r, CreatedAtOf)
    ensures multiset(r) == multiset(ts)
  {
    SortNewestFirst(ts, CreatedAtOf)
  }

  /** The default order of contact messages: newest first, every message kept. */
  function MessagesNewestFirst(ms: seq<ContactMessage>): (r: seq<ContactMessage>)
    ensures NewestFirst(r, SentAtOf)
    ensures multiset(r) == multiset(ms)
  {
    SortNewestFirst(ms, SentAtOf)
  }
}
