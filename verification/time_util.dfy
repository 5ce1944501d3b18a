/**
 * The calendar-free part of TimeUtil.java. The result of `compareTimeStr`
 * (a `Calendar` comparison, or null when the time text could not be parsed)
 * is an `Option<int>`; a calendar day is its `(year, dayOfYear)` pair.
 */
module TimeUtil {
  import opened Wrappers
  import JavaLang

  // ---------------------------------------------------------------- comparisons

  /** `isBeforeTimeStr`: the comparison exists and is negative; an
      unparsable time text never satisfies it. */
  function IsBefore(compared: Option<int>): (b: bool)
    ensures b ==> compared.Some?
    ensures compared.Some? ==> (b <==> compared.value < 0)
  {
    compared.Some? && compared.value < 0
  }

  /** `isAfterTimeStr`: the comparison exists and is positive; an
      unparsable time text never satisfies it. */
  function IsAfter(compared: Option<int>): (b: bool)
    ensures b ==> compared.Some?
    ensures compared.Some? ==> (b <==> compared.value > 0)
  {
    compared.Some? && compared.value > 0
  }

  /** `isBeforeOrEqualTimeStr`: the comparison exists and is not positive. */
  function IsBeforeOrEqual(compared: Option<int>): (b: bool)
    ensures b ==> compared.Some?
    ensures compared.Some? ==> (b <==> compared.value <= 0)
  {
    compared.Some? && compared.value <= 0
  }

  /** `isAfterOrEqualTimeStr`: the comparison exists and is not negative. */
  function IsAfterOrEqual(compared: Option<int>): (b: bool)
    ensures b ==> compared.Some?
    ensures compared.Some? ==> (b <==> compared.value >= 0)
  {
    compared.Some? && compared.value >= 0
  }

  /** `isBeforeOrCompareTimeStr`, written in the source with an explicit null test. */
  function IsBeforeOrCompare(compared: Option<int>): (b: bool)
    ensures b == IsBeforeOrEqual(compared)
  {
    if compared.Some? then compared.value <= 0 else false
  }

  /** `isAfterOrCompareTimeStr`, written in the source with an explicit null test. */
  function IsAfterOrCompare(compared: Option<int>): (b: bool)
    ensures b == IsAfterOrEqual(compared)
  {
    if compared.Some? then compared.value >= 0 else false
  }

  /** How the four predicates relate: none holds without a comparison, the
      strict ones exclude each other, and both non-strict ones hold exactly on
      an equal comparison. */
  lemma ComparisonFamily(compared: Option<int>)
    ensures compared.None? ==>
              !IsBefore(compared) && !IsAfter(compared)
              && !IsBeforeOrEqual(compared) && !IsAfterOrEqual(compared)
    ensures !(IsBefore(compared) && IsAfter(compared))
    ensures IsBefore(compared) ==> IsBeforeOrEqual(compared) && !IsAfterOrEqual(compared)
    ensures IsAfter(compared) ==> IsAfterOrEqual(compared) && !IsBeforeOrEqual(compared)
    ensures IsBeforeOrEqual(compared) && IsAfterOrEqual(compared) <==> compared == Some(0)
    ensures compared.Some? ==>
              (IsBefore(compared) || IsAfter(compared) || compared == Some(0))
  {
  }

  /** `isInTimeRange(timeMillis, startTime, endTime)`. `compare(t)` stands for
      `compareTimeStr(timeMillis, t)` at the fixed instant. */
  function IsInTimeRange(startTime: Option<string>, endTime: Option<string>,
                         compare: string -> Option<int>): (b: bool)
    ensures startTime.None? || endTime.None? ==> b
    ensures startTime.Some? && endTime.Some? ==>
              (b <==> (exists c :: compare(startTime.value) == Some(c) && c >= 0)
                      && (exists c :: compare(endTime.value) == Some(c) && c <= 0))
  {
    if startTime.None? || endTime.None? then true
    else
      var afterStart := IsAfterOrEqual(compare(startTime.value));
      var beforeEnd := IsBeforeOrEqual(compare(endTime.value));
      afterStart && beforeEnd
  }

  /** An unparsable bound puts every instant outside a fully given range. */
  lemma UnparsableBoundExcludes(startTime: string, endTime: string, compare: string -> Option<int>)
    requires compare(startTime).None? || compare(endTime).None?
    ensures !IsInTimeRange(Some(startTime), Some(endTime), compare)
  {
  }

  /** `checkInTimeRange(timeMillis, timeRangeList)`: whether some range in the
      list holds, by the single-range test `inRange` (not part of this model). */
  method CheckInTimeRanges(timeRanges: seq<string>, inRange: string -> bool) returns (b: bool)
    ensures b <==> exists i :: 0 <= i < |timeRanges| && inRange(timeRanges[i])
    ensures |timeRanges| == 0 ==> !b
  {
    for i := 0 to |timeRanges|
      invariant forall j :: 0 <= j < i ==> !inRange(timeRanges[j])
    {
      if inRange(timeRanges[i]) {
        return true;
      }
    }
    return false;
  }

  // ---------------------------------------------------------------- days

  /** The fields of a `Calendar` that the day comparisons read. */
  datatype Day = Day(year: int, dayOfYear: int)

  /** `isSameDay(first, second)`: the same calendar day. */
  function IsSameDay(first: Day, second: Day): (b: bool)
    ensures b <==> first == second
  {
    first.year == second.year && first.dayOfYear == second.dayOfYear
  }

  /** `isLessThanSecondOfDays(first, second)`: the first day comes earlier,
      ordered by year and then by day of the year. */
  function IsLessThanSecondOfDays(first: Day, second: Day): (b: bool)
    ensures b ==> first != second
    ensures first.year != second.year ==> (b <==> first.year < second.year)
    ensures first.year == second.year ==> (b <==> first.dayOfYear < second.dayOfYear)
  {
    first.year < second.year
    || (first.year == second.year && first.dayOfYear < second.dayOfYear)
  }

  /** Same-day is equality of the two fields, hence reflexive and symmetric. */
  lemma SameDayIsEquality(a: Day, b: Day)
    ensures IsSameDay(a, b) <==> a == b
    ensures IsSameDay(a, a)
    ensures IsSameDay(a, b) ==> IsSameDay(b, a)
  {
  }

  /** Day-less-than is a strict order. */
  lemma LessThanIsStrictOrder(a: Day, b: Day, c: Day)
    ensures !IsLessThanSecondOfDays(a, a)
    ensures IsLessThanSecondOfDays(a, b) ==> !IsLessThanSecondOfDays(b, a)
    ensures IsLessThanSecondOfDays(a, b) && IsLessThanSecondOfDays(b, c) ==> IsLessThanSecondOfDays(a, c)
  {
  }

  /** Exactly one of earlier, same day, later. */
  lemma DayTrichotomy(a: Day, b: Day)
    ensures IsLessThanSecondOfDays(a, b) || IsSameDay(a, b) || IsLessThanSecondOfDays(b, a)
    ensures !(IsLessThanSecondOfDays(a, b) && IsSameDay(a, b))
    ensures !(IsSameDay(a, b) && IsLessThanSecondOfDays(b, a))
    ensures !(IsLessThanSecondOfDays(a, b) && IsLessThanSecondOfDays(b, a))
  {
  }

  // ---------------------------------------------------------------- durations

  const MsPerSecond := 1000
  const MsPerMinute := 60000
  const MsPerHour := 3600000
  const MsPerDay := 86400000

  /** The two numbers `formatTimeDifference` prints, by the branch it takes. */
  datatype Elapsed =
    | DaysHours(days: int, hours: int)
    | HoursMinutes(hours: int, minutes: int)
    | MinutesSeconds(minutes: int, seconds: int)
    | SecondsOnly(seconds: int)

  /** The unit arithmetic of `formatTimeDifference(milliseconds)`, with Java's
      truncating `/` and `%`. For a non-negative span the branch is that of the
      largest non-zero unit, the smaller figure is below its unit's range, and
      the two figures give the span truncated to the smaller unit. */
  function TimeDifference(milliseconds: int): (e: Elapsed)
    ensures milliseconds >= 0 ==> match e
      case DaysHours(d, h) =>
        && milliseconds >= MsPerDay
        && 0 <= h < 24 && (d * 24 + h) * MsPerHour <= milliseconds < (d * 24 + h + 1) * MsPerHour
      case HoursMinutes(h, m) =>
        && MsPerHour <= milliseconds < MsPerDay
        && 0 <= m < 60 && (h * 60 + m) * MsPerMinute <= milliseconds < (h * 60 + m + 1) * MsPerMinute
      case MinutesSeconds(m, s) =>
        && MsPerMinute <= milliseconds < MsPerHour
        && 0 <= s < 60 && (m * 60 + s) * MsPerSecond <= milliseconds < (m * 60 + s + 1) * MsPerSecond
      case SecondsOnly(s) =>
        && milliseconds < MsPerMinute
        && 0 <= s < 60 && s * MsPerSecond <= milliseconds < (s + 1) * MsPerSecond
  {
    var seconds := JavaLang.Div(milliseconds, 1000);
    var minutes := JavaLang.Div(seconds, 60);
    var hours := JavaLang.Div(minutes, 60);
    var days := JavaLang.Div(hours, 24);
    UnitChain(milliseconds);
    if days > 0 then DaysHours(days, JavaLang.Rem(hours, 24))
    else if hours > 0 then HoursMinutes(hours, JavaLang.Rem(minutes, 60))
    else if minutes > 0 then MinutesSeconds(minutes, JavaLang.Rem(seconds, 60))
    else SecondsOnly(seconds)
  }

  /** For a non-negative span, dividing unit by unit is dividing by the unit's
      length in milliseconds. */
  lemma UnitChain(milliseconds: int)
    ensures milliseconds >= 0 ==>
      var seconds := JavaLang.Div(milliseconds, 1000);
      var minutes := JavaLang.Div(seconds, 60);
      var hours := JavaLang.Div(minutes, 60);
      && seconds == milliseconds / MsPerSecond
      && minutes == milliseconds / MsPerMinute
      && hours == milliseconds / MsPerHour
      && JavaLang.Div(hours, 24) == milliseconds / MsPerDay
  {
    if milliseconds >= 0 {
      JavaLang.DivDiv(milliseconds, 1000, 60);
      JavaLang.DivDiv(milliseconds, 60000, 60);
      JavaLang.DivDiv(milliseconds, 3600000, 24);
    }
  }

  /** The text of each branch. */
  function RenderElapsed(e: Elapsed): string {
    match e
    case DaysHours(d, h) => JavaLang.IntToString(d) + "天" + JavaLang.IntToString(h) + "小时"
    case HoursMinutes(h, m) => JavaLang.IntToString(h) + "小时" + JavaLang.IntToString(m) + "分钟"
    case MinutesSeconds(m, s) => JavaLang.IntToString(m) + "分钟" + JavaLang.IntToString(s) + "秒"
    case SecondsOnly(s) => JavaLang.IntToString(s) + "秒"
  }

  /** `formatTimeDifference(milliseconds)`. */
  function FormatTimeDifference(milliseconds: int): (r: string)
    ensures 0 <= milliseconds < 1000 ==> r == "0秒"
    ensures |r| >= 2
    ensures milliseconds >= 0 ==> (r[|r| - 1] == '秒' <==> milliseconds < MsPerHour)
  {
    RenderElapsed(TimeDifference(milliseconds))
  }
}
