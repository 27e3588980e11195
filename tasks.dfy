/**
 * The task record shared by the store, the board, the due-status
 * calculator and the analytics. Dates are day ordinals (day 1 is
 * 0001-01-01, as in Python's date.toordinal) and times of day are minutes
 * after midnight; whether a stored text parses is decided once, when the
 * value is built, so the model carries the parse outcome instead of text.
 */
module Tasks {

  datatype Option<T> = None | Some(value: T)

  /** A stored or submitted due date. */
  datatype DateField =
    | Absent                 // None, or a pandas NaN/NaT
    | Day(ordinal: int)      // a value that parses as a calendar date
    | Text(raw: string)      // a string that does not parse as a date ("" included)

  /** A time of day in minutes after midnight, as HH:MM parses. */
  type Minute = m: int | 0 <= m < 1440

  /** A stored or submitted due time. */
  datatype TimeField =
    | NoTime                 // None, or a pandas NaN
    | At(minute: Minute)     // a value that parses as HH:MM, minutes after midnight
    | BadTime(raw: string)   // a string that does not parse as HH:MM ("" included)

  /** Python truthiness of a date argument: None and "" are false. */
  predicate DateGiven(d: DateField) {
    match d
    case Absent => false
    case Day(_) => true
    case Text(raw) => raw != ""
  }

  /** Python truthiness of a time argument: None and "" are false. */
  predicate TimeGiven(t: TimeField) {
    match t
    case NoTime => false
    case At(_) => true
    case BadTime(raw) => raw != ""
  }

  /** One row of the tasks table. */
  datatype Task = Task(
    id: int,
    title: string,
    description: Option<string>,
    status: string,
    priority: string,
    created: int,
    dueDate: DateField,
    dueTime: TimeField,
    position: int,
    labels: Option<string>,
    parentId: Option<int>,
    lastUpdated: int)

  const ToDo := "To Do"
  const InProgress := "In Progress"
  const Done := "Done"
  const Blocked := "Blocked"

  const Critical := "Critical"
  const High := "High"
  const Medium := "Medium"
  const Low := "Low"

  predicate KnownStatus(s: string) {
    s == ToDo || s == InProgress || s == Done || s == Blocked
  }

  predicate KnownPriority(p: string) {
    p == Critical || p == High || p == Medium || p == Low
  }

  /** The due day as pandas sees it after `to_datetime(..., errors='coerce')`. */
  function DueDay(t: Task): Option<int> {
    if t.dueDate.Day? then Some(t.dueDate.ordinal) else None
  }
}
