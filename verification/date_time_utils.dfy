/**
 * Weekday names (api/src/utils/dateTimeUtils.ts). `Date.prototype.getDay`
 * is not modelled: its value, the weekday index 0 (Sunday) to 6 (Saturday),
 * is the input.
 */
module DateTimeUtils {
  import opened TextOrder
  import Gtfs

  /** What `getDay()` returns: 0 for Sunday up to 6 for Saturday. */
  type DayIndex = d: int | 0 <= d <= 6

  /** The names in the order of `getDay()`, as the lookup array lists them. */
  const DayNames: seq<Str> := ["sunday", "monday", "tuesday", "wednesday", "thursday", "friday", "saturday"]

  /** `getDayOfWeekName`: the lower-case English name of the weekday. */
  function DayOfWeekName(d: DayIndex): (r: Str)
    ensures Gtfs.IsDayColumn(r)
    ensures d == 0 <==> r == "sunday"
    ensures d == 1 <==> r == "monday"
    ensures d == 2 <==> r == "tuesday"
    ensures d == 3 <==> r == "wednesday"
    ensures d == 4 <==> r == "thursday"
    ensures d == 5 <==> r == "friday"
    ensures d == 6 <==> r == "saturday"
  {
    DayNames[d]
  }

  /** Different weekdays have different names, so the name picks the calendar column back. */
  lemma DayOfWeekNameInjective(d: DayIndex, e: DayIndex)
    requires DayOfWeekName(d) == DayOfWeekName(e)
    ensures d == e
  {
  }

  /** Every calendar column is the name of exactly one weekday. */
  lemma DayOfWeekNameOnto(name: Str)
    requires Gtfs.IsDayColumn(name)
    ensures exists d: DayIndex :: DayOfWeekName(d) == name
  {
    if name == "sunday" { assert DayOfWeekName(0) == name; }
    else if name == "monday" { assert DayOfWeekName(1) == name; }
    else if name == "tuesday" { assert DayOfWeekName(2) == name; }
    else if name == "wednesday" { assert DayOfWeekName(3) == name; }
    else if name == "thursday" { assert DayOfWeekName(4) == name; }
    else if name == "friday" { assert DayOfWeekName(5) == name; }
    else { assert DayOfWeekName(6) == name; }
  }

  /** Monday through Friday are the weekdays 1 through 5. */
  lemma WorkdayNames(d: DayIndex)
    ensures 1 <= d <= 5 <==> DayOfWeekName(d) in {"monday", "tuesday", "wednesday", "thursday", "friday"}
  {
  }
}
