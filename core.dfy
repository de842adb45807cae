/** The values the calendar engine works on: days, the orders scheduled on them and the two
    day-keyed maps of the store. */
module Core {

  datatype Option<T> = None | Some(value: T)

  /** A calendar day, keyed by value as the (year, month, day) triple. */
  datatype DateKey = DateKey(year: int, month: int, day: int)

  /** One order placed on a day: its order number and its company. */
  datatype Assignment = Assignment(orderNumber: string, company: string)

  type Notes = map<DateKey, string>
  type Assignments = map<DateKey, seq<Assignment>>

  /** The two maps the application persists. */
  datatype CalendarState = CalendarState(notes: Notes, assignments: Assignments)

  /** The store never maps a day to an empty list: an emptied day loses its key. */
  ghost predicate NoEmptyDays(m: Assignments) {
    forall k :: k in m ==> m[k] != []
  }

  /** `dict.get(key, [])` on the assignments map. */
  function DayOrders(m: Assignments, k: DateKey): (r: seq<Assignment>)
    ensures k in m ==> r == m[k]
    ensures k !in m ==> r == []
  {
    if k in m then m[k] else []
  }

  /** `_normalize_assignment`: the first two values as strings, each defaulting to "". The pair
      keeps the first two values and ignores the rest; a shorter row is padded with blanks. */
  function NormalizeAssignment(values: seq<string>): (a: Assignment)
    ensures |values| >= 2 ==> AssignmentValues(a) == values[..2]
    ensures |values| <= 2 ==> AssignmentValues(a) == values + seq(2 - |values|, _ => "")
  {
    Assignment(if |values| > 0 then values[0] else "", if |values| > 1 then values[1] else "")
  }

  /** The values a tree row or a stored pair carries. */
  function AssignmentValues(a: Assignment): seq<string> {
    [a.orderNumber, a.company]
  }

  /** Normalising the values of a pair gives the pair back, so normalisation is idempotent. */
  lemma NormalizeAssignmentValues(a: Assignment)
    ensures NormalizeAssignment(AssignmentValues(a)) == a
  {
  }

  /** `_normalize_date_key`: a history key is usable when it is a triple. Date keys in history
      actions are modelled as integer sequences; anything but a triple is rejected. */
  function NormalizeDateKey(raw: seq<int>): (r: Option<DateKey>)
    ensures r.Some? <==> |raw| == 3
    ensures r.Some? ==> KeyTuple(r.value) == raw
  {
    if |raw| == 3 then Some(DateKey(raw[0], raw[1], raw[2])) else None
  }

  /** The tuple form of a date key. */
  function KeyTuple(k: DateKey): seq<int> {
    [k.year, k.month, k.day]
  }

  lemma NormalizeKeyTuple(k: DateKey)
    ensures NormalizeDateKey(KeyTuple(k)) == Some(k)
  {
  }
}
