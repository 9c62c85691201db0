/** The task entity of the to-do list (ToDoListApp/Item.swift). */
module Items {

  datatype Option<+T> = None | Some(value: T)

  /** A point in time. The app's `Date` is a floating-point interval; here it is an integer. */
  type Timestamp = int

  /** One task. Dates are timestamps; the due date is optional. */
  datatype Item = Item(
    name: string,
    details: string,
    isCompleted: bool,
    creationDate: Timestamp,
    dueDate: Option<Timestamp>,
    category: string)

  /** The category a task gets when none is given. */
  const DefaultCategory: string := "Default"

  /**
   * The initialiser. Every argument is stored unchanged in its field; the
   * ones a caller leaves out take the documented defaults. The creation date
   * defaults to "now" in the app, so here the caller always supplies it.
   */
  function NewItem(
    name: string,
    details: string := "",
    isCompleted: bool := false,
    creationDate: Timestamp,
    dueDate: Option<Timestamp> := None,
    category: string := DefaultCategory): (it: Item)
    ensures it.name == name && it.details == details && it.isCompleted == isCompleted
    ensures it.creationDate == creationDate && it.dueDate == dueDate && it.category == category
  {
    Item(name, details, isCompleted, creationDate, dueDate, category)
  }

  /** A task built from a name and a creation date alone carries the defaults. */
  lemma NewItemDefaults(name: string, now: Timestamp)
    ensures NewItem(name, creationDate := now).details == ""
    ensures !NewItem(name, creationDate := now).isCompleted
    ensures NewItem(name, creationDate := now).dueDate == None
    ensures NewItem(name, creationDate := now).category == "Default"
  {
  }

  /** Every task is what the initialiser builds from its own fields. */
  lemma NewItemFromFields(it: Item)
    ensures NewItem(it.name, it.details, it.isCompleted, creationDate := it.creationDate,
                    dueDate := it.dueDate, category := it.category) == it
  {
  }

  /**
   * The derived `isOverdue` property. The start of the current day, which the
   * app takes from the calendar and the clock, is a parameter.
   */
  predicate IsOverdue(it: Item, todayStart: Timestamp)
    ensures IsOverdue(it, todayStart) ==> it.dueDate.Some? && !it.isCompleted
  {
    if it.dueDate.Some? && !it.isCompleted then it.dueDate.value < todayStart else false
  }

  /** A task without a due date is never overdue, completed or not. */
  lemma NotOverdueWithoutDueDate(it: Item, todayStart: Timestamp)
    requires it.dueDate == None
    ensures !IsOverdue(it, todayStart)
  {
  }

  /** A completed task is never overdue, whatever its due date. */
  lemma NotOverdueWhenCompleted(it: Item, todayStart: Timestamp)
    requires it.isCompleted
    ensures !IsOverdue(it, todayStart)
  {
  }

  /**
   * An open task due at `due` is overdue exactly when `due` lies strictly
   * before the start of today; a task due at the very start of today is not.
   */
  lemma OverdueIffDueBeforeToday(it: Item, due: Timestamp, todayStart: Timestamp)
    requires !it.isCompleted && it.dueDate == Some(due)
    ensures IsOverdue(it, todayStart) <==> due < todayStart
    ensures due == todayStart ==> !IsOverdue(it, todayStart)
  {
  }

  /** Once overdue, a task stays overdue as the day advances. */
  lemma OverdueMonotone(it: Item, s: Timestamp, s': Timestamp)
    requires IsOverdue(it, s) && s <= s'
    ensures IsOverdue(it, s')
  {
  }
}
