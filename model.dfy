/** The usual optional-value wrapper. */
module Wrappers {

  datatype Option<+T> = None | Some(value: T) {

    /** The wrapped value, or the default when there is none. */
    function GetOr(default: T): T
    {
      match this
      case Some(v) => v
      case None => default
    }
  }
}

/** The records the allocator reads and produces. */
module Model {
  import opened Wrappers
  import opened Config

  /**
   * The lecturer of a course row: a name, or none recorded. The allocator
   * itself works on the identity string that Identity gives.
   */
  datatype Lecturer = Assigned(name: string) | Unassigned

  /**
   * One course row. `sks` is the credit-unit count after numeric parsing:
   * None when the cell does not parse as a number.
   */
  datatype Course = Course(
    title: string,
    sks: Option<int>,
    lecturer: Lecturer,
    classLabel: string,
    semester: int)

  /** One committed placement: day, [start, end) in minutes, course fields and room. */
  datatype Entry = Entry(
    day: string,
    start: int,
    end: int,
    title: string,
    sks: int,
    semester: int,
    classLabel: string,
    lecturer: string,
    room: string)

  /** A lecturer time window, both ends inclusive when compared. */
  datatype TimeRange = TimeRange(from: int, to: int)

  /**
   * An availability rule: the keys `days`, `time_ranges` and `max_sks_daily`,
   * each possibly absent.
   */
  datatype Rule = Rule(
    days: Option<seq<string>>,
    timeRanges: Option<seq<TimeRange>>,
    maxSksDaily: Option<int>)

  /** The rule of a lecturer without an entry in the rule map. */
  const NO_RULE: Rule := Rule(None, None, None)

  /** The identity string under which the allocator books a lecturer. */
  function Identity(l: Lecturer): (id: string)
    ensures id == UNASSIGNED_NAME <==> l == Unassigned || l == Assigned(UNASSIGNED_NAME)
    ensures l.Assigned? ==> id == l.name
  {
    match l
    case Assigned(name) => name
    case Unassigned => UNASSIGNED_NAME
  }

  /** A course whose credit units parse but are not positive: it is dropped silently. */
  predicate NonPositive(c: Course)
    ensures NonPositive(c) <==> c.sks.Some? && c.sks.value <= 0
  {
    c.sks.Some? && c.sks.value * MINUTES_PER_SKS <= 0
  }

  /** The entry came from this course row. */
  predicate MadeFrom(e: Entry, c: Course)
  {
    && c.sks == Some(e.sks)
    && e.title == c.title
    && e.semester == c.semester
    && e.classLabel == c.classLabel
    && e.lecturer == Identity(c.lecturer)
  }
}
