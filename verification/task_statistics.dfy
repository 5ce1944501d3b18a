/**
 * The derived figures of TaskStatistics.java. The counters come from atomic
 * counters that only count up from zero, so they are natural numbers here.
 */
module Statistics {
  import opened Wrappers
  import JavaLang

  datatype TaskStatistics = TaskStatistics(
    taskId: Option<string>,
    isRunning: bool,
    startTime: int,
    lastExecuteTime: int,
    executeCount: nat,
    errorCount: nat,
    runDuration: int,
    childTaskCount: int)

  /** `getSuccessRate()`, over the reals: the percentage of executions that did
      not fail, 0 when nothing ran. */
  function SuccessRate(s: TaskStatistics): (r: real)
    ensures s.executeCount == 0 ==> r == 0.0
    ensures s.executeCount > 0 ==>
              r * s.executeCount as real == (s.executeCount - s.errorCount) as real * 100.0
    ensures s.errorCount <= s.executeCount ==> 0.0 <= r <= 100.0
    ensures s.executeCount > 0 && s.errorCount == 0 ==> r == 100.0
  {
    if s.executeCount == 0 then 0.0
    else
      var n := s.executeCount as real;
      var ok := (s.executeCount - s.errorCount) as real;
      assert ok / n * 100.0 * n == ok * 100.0;
      RatioAtMostOne(ok, n);
      ok / n * 100.0
  }

  lemma RatioAtMostOne(x: real, n: real)
    requires n > 0.0
    ensures 0.0 <= x <= n ==> 0.0 <= x / n <= 1.0
  {
  }

  /** `getAverageExecutionTime()`: the run duration over the execution count,
      truncated, and 0 when nothing ran. */
  function AverageExecutionTime(s: TaskStatistics): (r: int)
    ensures s.executeCount == 0 ==> r == 0
    ensures s.executeCount > 0 && s.runDuration >= 0 ==>
              && r * s.executeCount <= s.runDuration < (r + 1) * s.executeCount
              && 0 <= r <= s.runDuration
  {
    if s.executeCount == 0 then 0
    else
      var q := JavaLang.Div(s.runDuration, s.executeCount);
      QuotientAtMostDividend(s.runDuration, s.executeCount, q);
      q
  }

  lemma QuotientAtMostDividend(d: int, n: nat, q: int)
    requires n >= 1
    ensures d >= 0 && 0 <= q && q * n <= d ==> q <= d
  {
    if q >= 0 {
      JavaLang.MulMono(1, n, q);
      assert q * n == n * q;
    }
  }

  /** The figures `getFormattedRunDuration()` prints, by the branch it takes. */
  datatype DurationText =
    | HoursText(hours: int, minutes: int, seconds: int)
    | MinutesText(minutes: int, seconds: int)
    | SecondsText(seconds: int)

  const MsPerHour := 3600000
  const MsPerMinute := 60000

  /** The hour/minute/second split of `getFormattedRunDuration()`, with Java's
      truncating `/` and `%`. For a non-negative duration the figures rebuild
      the duration to the second, minutes and seconds stay below 60, and the
      branch is that of the largest non-zero unit. */
  function RunDurationParts(duration: int): (t: DurationText)
    ensures duration >= 0 ==> match t
      case HoursText(h, m, s) =>
        && duration >= MsPerHour
        && 0 <= m < 60 && 0 <= s < 60
        && h * MsPerHour + m * MsPerMinute + s * 1000 <= duration < h * MsPerHour + m * MsPerMinute + s * 1000 + 1000
      case MinutesText(m, s) =>
        && MsPerMinute <= duration < MsPerHour
        && 0 <= s < 60
        && m * MsPerMinute + s * 1000 <= duration < m * MsPerMinute + s * 1000 + 1000
      case SecondsText(s) =>
        && duration < MsPerMinute
        && 0 <= s < 60 && s * 1000 <= duration < s * 1000 + 1000
  {
    var hours := JavaLang.Div(duration, 1000 * 60 * 60);
    var minutes := JavaLang.Div(JavaLang.Rem(duration, 1000 * 60 * 60), 1000 * 60);
    var seconds := JavaLang.Div(JavaLang.Rem(duration, 1000 * 60), 1000);
    SplitAgrees(duration);
    if hours > 0 then HoursText(hours, minutes, seconds)
    else if minutes > 0 then MinutesText(minutes, seconds)
    else SecondsText(seconds)
  }

  /** For a non-negative duration, the remainder by a minute is the remainder
      of the remainder by an hour. */
  lemma SplitAgrees(d: int)
    ensures d >= 0 ==>
      var h := d / MsPerHour;
      var m := (d % MsPerHour) / MsPerMinute;
      && d % MsPerMinute == (d % MsPerHour) % MsPerMinute
      && d == h * MsPerHour + m * MsPerMinute + d % MsPerMinute
      && m < 60
  {
    if d >= 0 {
      var h := d / MsPerHour;
      var r1 := d % MsPerHour;
      var m := r1 / MsPerMinute;
      var r2 := r1 % MsPerMinute;
      assert r1 == m * MsPerMinute + r2;
      assert d == (h * 60 + m) * MsPerMinute + r2;
      JavaLang.DivUnique(d, MsPerMinute, h * 60 + m, r2);
    }
  }

  /** `getFormattedRunDuration()`. */
  function FormattedRunDuration(s: TaskStatistics): (r: string)
    ensures |r| >= 2 && r[|r| - 1] == '秒'
  {
    match RunDurationParts(s.runDuration)
    case HoursText(h, m, sec) =>
      JavaLang.IntToString(h) + "小时" + JavaLang.IntToString(m) + "分钟" + JavaLang.IntToString(sec) + "秒"
    case MinutesText(m, sec) =>
      JavaLang.IntToString(m) + "分钟" + JavaLang.IntToString(sec) + "秒"
    case SecondsText(sec) =>
      JavaLang.IntToString(sec) + "秒"
  }
}
