/**
 * The week-over-week trend card: this week's and last week's time ranges, the coercion of the averages the
 * server returns, and the percentage change with its arrow and colour.
 */
module CurrentTrend {
  import opened Wrappers
  import opened JsNumbers

  // ---------------------------------------------------------------------------
  // Local dates, as milliseconds on the local clock
  // ---------------------------------------------------------------------------

  const OneDay: int := 86_400_000
  const OneWeek: int := 7 * OneDay

  /** `getDay()`: 0 is Sunday, 1 Monday, ...; day 0 of the clock, 1 January 1970, was a Thursday. */
  function DayOfWeek(t: int): int {
    (t / OneDay + 4) % 7
  }

  /** The start of a Monday-to-Sunday week: a Monday at 00:00:00.000. */
  predicate IsWeekStart(t: int) {
    DayOfWeek(t) == 1 && t % OneDay == 0
  }

  /** `getMondayOfWeek`: back to the Monday of the date's week (6 days on a Sunday), then to midnight. */
  method MondayOfWeek(date: int) returns (d: int)
    ensures IsWeekStart(d)
    ensures d <= date < d + OneWeek
  {
    d := date;
    var dayOfWeek := DayOfWeek(d);
    var diff := if dayOfWeek == 0 then 6 else dayOfWeek - 1;
    d := d - diff * OneDay;
    assert d / OneDay == date / OneDay - diff;
    d := d - d % OneDay;
    assert d / OneDay == date / OneDay - diff;
  }

  /** A week start is the only one within a week of a date: `MondayOfWeek` has exactly one possible answer. */
  lemma {:induction false} WeekStartIsUnique(date: int, a: int, b: int)
    requires IsWeekStart(a) && a <= date < a + OneWeek
    requires IsWeekStart(b) && b <= date < b + OneWeek
    ensures a == b
  {
    var da, db := a / OneDay, b / OneDay;
    assert a == da * OneDay && b == db * OneDay;
    assert -7 < da - db < 7;
    assert (da + 4) % 7 == (db + 4) % 7;
    assert (da - db) % 7 == 0;
  }

  /** `getEndOfDay`: the same date at 23:59:59.999. */
  method EndOfDay(date: int) returns (d: int)
    ensures d / OneDay == date / OneDay
    ensures d % OneDay == OneDay - 1
  {
    d := date;
    d := d - d % OneDay + (OneDay - 1);
  }

  /**
   * The two ranges compared: this week from its Monday to the end of today, last week from the Monday
   * seven days earlier to the end of the Sunday before this week.
   */
  method WeekRanges(today: int) returns (thisStart: int, thisEnd: int, lastStart: int, lastEnd: int)
    ensures IsWeekStart(thisStart) && thisStart <= today < thisStart + OneWeek
    ensures today <= thisEnd && thisEnd / OneDay == today / OneDay && thisEnd % OneDay == OneDay - 1
    ensures IsWeekStart(lastStart) && lastStart == thisStart - OneWeek
    ensures lastEnd == thisStart - 1
  {
    thisStart := MondayOfWeek(today);
    thisEnd := EndOfDay(today);
    var lastWeekMonday := thisStart - 7 * OneDay;
    var lastWeekSunday := thisStart - OneDay;
    lastStart := MondayOfWeek(lastWeekMonday);
    assert IsWeekStart(lastWeekMonday) by {
      assert lastWeekMonday / OneDay == thisStart / OneDay - 7;
    }
    WeekStartIsUnique(lastWeekMonday, lastStart, lastWeekMonday);
    lastEnd := EndOfDay(lastWeekSunday);
    assert lastWeekSunday / OneDay == thisStart / OneDay - 1;
  }

  // ---------------------------------------------------------------------------
  // The averages and their change
  // ---------------------------------------------------------------------------

  /** `toNumberOrNull`: a number stays, anything else goes through `Number(...)`; non-finite results are null. */
  function ToNumberOrNull(value: JsValue, parse: string -> Num): (r: Option<real>)
    ensures r.None? <==> !IsFinite(ToNumber(value, parse))
    ensures r.Some? ==> ToNumber(value, parse) == Finite(r.value)
  {
    var num := if value.Number? then value.n else ToNumber(value, parse);
    if IsFinite(num) then Some(num.value) else None
  }

  /** The null the average endpoints send for an empty week coerces to 0, not to null. */
  lemma {:induction false} NullAverageBecomesZero(parse: string -> Num)
    ensures ToNumberOrNull(Null, parse) == Some(0.0)
  {
  }

  /** The percentage change, previous 0 counting as 100 for a rise and 0 otherwise. */
  function PercentChange(current: real, previous: real): (r: real)
    ensures previous != 0.0 ==> r * previous == (current - previous) * 100.0
    ensures previous == 0.0 ==> r == (if current > 0.0 then 100.0 else 0.0)
  {
    if previous == 0.0 then (if current > 0.0 then 100.0 else 0.0)
    else ((current - previous) / previous) * 100.0
  }

  /** The change is positive exactly when the value moved away from 0 upwards or rose from 0. */
  lemma {:induction false} PercentChangeSign(current: real, previous: real)
    ensures PercentChange(current, previous) > 0.0 <==>
      (previous > 0.0 && current > previous) || (previous < 0.0 && current < previous) || (previous == 0.0 && current > 0.0)
    ensures PercentChange(current, previous) == 0.0 <==> current == previous || (previous == 0.0 && current <= 0.0)
  {
    if previous != 0.0 {
      var q := (current - previous) / previous;
      assert q * previous == current - previous;
      if previous > 0.0 {
        assert q > 0.0 <==> current - previous > 0.0 by { SignOfQuotient(current - previous, previous, q); }
      } else {
        assert q > 0.0 <==> current - previous < 0.0 by { SignOfQuotient(current - previous, previous, q); }
      }
      assert q == 0.0 <==> current == previous;
    }
  }

  lemma SignOfQuotient(x: real, y: real, q: real)
    requires y != 0.0 && q * y == x
    ensures y > 0.0 ==> (q > 0.0 <==> x > 0.0)
    ensures y < 0.0 ==> (q > 0.0 <==> x < 0.0)
  {
  }

  datatype Arrow = NoArrow | Up | Down

  const Rising: string := "#3f8600"
  const Falling: string := "#cf1322"
  const Steady: string := "rgba(0, 0, 0, 0.45)"
  const Inherit: string := "inherit"

  /**
   * `calculateDevelopment`: with either value null nothing is computed and the colour is inherited;
   * otherwise the percentage change, up and green above 0, down and red below 0, grey at 0.
   */
  method CalculateDevelopment(current: Option<real>, previous: Option<real>)
    returns (development: Option<real>, arrow: Arrow, color: string)
    ensures current.None? || previous.None? ==> development.None? && arrow == NoArrow && color == Inherit
    ensures current.Some? && previous.Some? ==> development == Some(PercentChange(current.value, previous.value))
    ensures development.Some? ==> (arrow == Up <==> development.value > 0.0) && (arrow == Down <==> development.value < 0.0)
    ensures development.Some? ==> color == (if arrow == Up then Rising else if arrow == Down then Falling else Steady)
  {
    development := None;
    arrow := NoArrow;
    color := Inherit;
    if previous.Some? && current.Some? {
      var change: real;
      if previous.value == 0.0 {
        change := if current.value > 0.0 then 100.0 else 0.0;
      } else {
        change := ((current.value - previous.value) / previous.value) * 100.0;
      }
      development := Some(change);
      if change > 0.0 {
        arrow, color := Up, Rising;
      } else if change < 0.0 {
        arrow, color := Down, Falling;
      } else {
        arrow, color := NoArrow, Steady;
      }
    }
  }

  /** A week without data, read as 0 after a week with a positive average, shows a fall of 100 percent. */
  lemma {:induction false} EmptyWeekReadsAsFullDrop(previous: real, parse: string -> Num)
    requires previous > 0.0
    ensures ToNumberOrNull(Null, parse).Some?
    ensures PercentChange(ToNumberOrNull(Null, parse).value, previous) == -100.0
  {
    assert (0.0 - previous) / previous == -1.0;
  }
}
