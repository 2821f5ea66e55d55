/** The task record, the form the dialog submits, and the stored record that
    `localStorage` holds, with the field defaults applied when tasks are loaded. */
module Tasks {
  import opened Calendar

  datatype Option<T> = None | Some(value: T)

  /** `TaskRecurrence`: 'none' | 'daily' | 'weekly' | 'monthly'. */
  datatype Recurrence = NoRecurrence | Daily | Weekly | Monthly

  datatype Task = Task(
    id: string,
    title: string,
    description: Option<string>,
    dueDate: Option<Instant>,
    category: string,
    completed: bool,
    recurrence: Recurrence,
    lastCompletedDate: Option<Instant>)

  /** The values of the add/edit dialog: title, description, due date, category, recurrence. */
  datatype Form = Form(
    title: string,
    description: string,
    dueDate: Option<Instant>,
    category: string,
    recurrence: Recurrence)

  /** A stored record as `JSON.parse` returns it: every field but `id` and `title` may be
      missing. Dates are already turned into instants. */
  datatype StoredRecord = StoredRecord(
    id: string,
    title: string,
    description: Option<string>,
    dueDate: Option<Instant>,
    category: Option<string>,
    completed: Option<bool>,
    recurrence: Option<Recurrence>,
    lastCompletedDate: Option<Instant>)

  /** `initialCategories[0]`, the category a loaded record without one receives. */
  const DefaultCategory: string := "Work"

  /** White space and line terminators as `String.prototype.trim` strips them. */
  predicate IsWhitespace(c: char)
  {
    || c == '\t' || c == '\n' || c == '\U{000B}' || c == '\U{000C}' || c == '\r' || c == ' '
    || c == '\U{00A0}' || c == '\U{1680}' || ('\U{2000}' <= c <= '\U{200A}')
    || c == '\U{2028}' || c == '\U{2029}' || c == '\U{202F}' || c == '\U{205F}'
    || c == '\U{3000}' || c == '\U{FEFF}'
  }

  /** Drops the leading white space of `s`. */
  function TrimStart(s: string): (r: string)
    ensures |r| <= |s| && r == s[|s| - |r|..]
    ensures forall i :: 0 <= i < |s| - |r| ==> IsWhitespace(s[i])
    ensures r != [] ==> !IsWhitespace(r[0])
  {
    if s != [] && IsWhitespace(s[0]) then TrimStart(s[1..]) else s
  }

  /** Drops the trailing white space of `s`. */
  function TrimEnd(s: string): (r: string)
    ensures |r| <= |s| && r == s[..|r|]
    ensures forall i :: |r| <= i < |s| ==> IsWhitespace(s[i])
    ensures r != [] ==> !IsWhitespace(r[|r| - 1])
  {
    if s != [] && IsWhitespace(s[|s| - 1]) then TrimEnd(s[..|s| - 1]) else s
  }

  /** `r` is the slice of `s` that starts at `k`, and everything outside it is white space. */
  ghost predicate StripsTo(s: string, k: int, r: string)
  {
    && 0 <= k <= |s| - |r|
    && r == s[k..k + |r|]
    && (forall i :: 0 <= i < k ==> IsWhitespace(s[i]))
    && (forall i :: k + |r| <= i < |s| ==> IsWhitespace(s[i]))
  }

  /** `s.trim()`: neither end of the result is white space, and every character dropped
      from either end is. */
  function Trim(s: string): (r: string)
    ensures r != [] ==> !IsWhitespace(r[0]) && !IsWhitespace(r[|r| - 1])
    ensures exists k :: StripsTo(s, k, r)
  {
    StripsToOf(s, TrimStart(s), TrimEnd(TrimStart(s)));
    TrimEnd(TrimStart(s))
  }

  /** Dropping white space from the front and then from the back of `s` strips it. */
  lemma StripsToOf(s: string, front: string, r: string)
    requires |front| <= |s| && front == s[|s| - |front|..]
    requires forall i :: 0 <= i < |s| - |front| ==> IsWhitespace(s[i])
    requires |r| <= |front| && r == front[..|r|]
    requires forall i :: |r| <= i < |front| ==> IsWhitespace(front[i])
    ensures StripsTo(s, |s| - |front|, r)
  {
    var k := |s| - |front|;
    forall i | k + |r| <= i < |s| ensures IsWhitespace(s[i]) {
      assert s[i] == front[i - k];
    }
  }

  /** `!s.trim()`: the title the dialog refuses, which is one made only of white space. */
  predicate IsBlank(s: string)
    ensures IsBlank(s) <==> forall i :: 0 <= i < |s| ==> IsWhitespace(s[i])
  {
    Trim(s) == ""
  }

  /** The record a new task is built from (`handleFormSubmit`, create branch): pending and
      never completed. */
  function NewTask(form: Form, id: string): (t: Task)
    ensures t.id == id && !t.completed && t.lastCompletedDate == None
    ensures t.title == form.title && t.description == Some(form.description)
    ensures t.dueDate == form.dueDate && t.category == form.category
    ensures t.recurrence == form.recurrence
  {
    Task(id, form.title, Some(form.description), form.dueDate, form.category, false,
         form.recurrence, None)
  }

  /** The load-time record mapping: `category || 'Work'`, `completed || false`,
      `recurrence || 'none'`; the other fields are copied. */
  function Normalize(r: StoredRecord): (t: Task)
    ensures t.id == r.id && t.title == r.title && t.description == r.description
    ensures t.dueDate == r.dueDate && t.lastCompletedDate == r.lastCompletedDate
    ensures t.category != ""
    ensures r.category.Some? && r.category.value != "" ==> t.category == r.category.value
    ensures r.category.None? || r.category == Some("") ==> t.category == DefaultCategory
    ensures t.completed <==> r.completed == Some(true)
    ensures r.recurrence.Some? ==> t.recurrence == r.recurrence.value
    ensures r.recurrence.None? ==> t.recurrence == NoRecurrence
  {
    Task(
      r.id, r.title, r.description, r.dueDate,
      if r.category.Some? && r.category.value != "" then r.category.value else DefaultCategory,
      r.completed == Some(true),
      if r.recurrence.Some? then r.recurrence.value else NoRecurrence,
      r.lastCompletedDate)
  }

  /** The record `JSON.stringify` writes for a task: undefined fields are omitted. */
  function ToStored(t: Task): (r: StoredRecord)
    ensures r.category.Some? && r.completed.Some? && r.recurrence.Some?
    ensures t.category != "" ==> Normalize(r) == t
  {
    StoredRecord(t.id, t.title, t.description, t.dueDate, Some(t.category), Some(t.completed),
                 Some(t.recurrence), t.lastCompletedDate)
  }

  /** Saving and loading a task gives it back exactly when its category is not empty
      (an empty category comes back as the default category). */
  lemma StoredRoundTrip(t: Task)
    ensures Normalize(ToStored(t)) == t <==> t.category != ""
    ensures t.category == "" ==> Normalize(ToStored(t)) == t.(category := DefaultCategory)
  {
  }
}
