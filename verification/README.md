# Sesame-TK utility core in Dafny

This project models the small sequential components of the Sesame-TK Xposed module and proves properties of them. The components are:

- the null-safe string helpers (`StringUtil`);
- the RPC parameter envelope builders and UUID text helpers (`RpcHelper`);
- the calendar-free part of `TimeUtil`;
- the sliding-window `Average`;
- the derived figures of `TaskStatistics`;
- the `TaskStatus` record and its updates;
- the `TaskManager` registry;
- the routing table of `Log`.

Modelling choices:

- A Java `String` that may be null is `Option<string>`. Text is a sequence of Dafny `char`s, which are Unicode scalar values, not Java's UTF-16 code units (see "Left out").
- Java's truncating `long` division and remainder are written out (`JavaLang.Div` and `JavaLang.Rem`).
- `String.valueOf(long)` and `%d` are `JavaLang.IntToString`. Parsing undoes it.
- The random UUID, the clock, the record-log setting and calls into unseen classes are parameters:
  - a task's `check()`, `countChildTask()` and whether its start or stop throws;
  - `compareTimeStr` and the single-range `checkInTimeRange`.

Files, one module each:

| file | module | source |
|---|---|---|
| `wrappers.dfy` | `Wrappers` | `Option`, for Java null |
| `java_lang.dfy` | `JavaLang` | Java arithmetic, decimal text, null concatenation |
| `string_util.dfy` | `StringUtil` | StringUtil.java |
| `rpc_helper.dfy` | `RpcHelper` | RpcHelper.java |
| `time_util.dfy` | `TimeUtil` | TimeUtil.java (pure part) |
| `average.dfy` | `Averages` | Average.java |
| `task_statistics.dfy` | `Statistics` | TaskStatistics.java |
| `task_status.dfy` | `Status` | TaskStatus.java |
| `task_manager.dfy` | `Manager` | TaskManager.java |
| `log.dfy` | `Log` | Log.java |

Source paths below are relative to the repository root.

## Model

| member | source | states |
|---|---|---|
| JavaLang.Div | app/src/main/java/fansirsqi/xposed/sesame/util/TimeUtil.java:140-143 | Java's `long` division by a positive divisor: the floor quotient for a non-negative dividend, rounded toward zero (q·b − b < a ≤ q·b) for a negative one |
| JavaLang.Rem | app/src/main/java/fansirsqi/xposed/sesame/util/TimeUtil.java:146-150 | Java's `%`: quotient·b + remainder is the dividend; in [0, b) for a non-negative dividend, in (−b, 0] for a negative one |
| JavaLang.DivDiv | app/src/main/java/fansirsqi/xposed/sesame/util/TimeUtil.java:140-143 | dividing by b and then by c is dividing by b·c, so the chained unit conversions agree with one division |
| JavaLang.Truncate | app/src/main/java/fansirsqi/xposed/sesame/util/Average.java:55 | the `(int)` cast of a real rounds toward zero: below 1 away from the value, and never past it |
| JavaLang.NatToString | app/src/main/java/fansirsqi/xposed/sesame/util/StringUtil.java:132 | decimal text of a natural number: at least one digit, only digits, no leading zero |
| JavaLang.IntToString | app/src/main/java/fansirsqi/xposed/sesame/util/StringUtil.java:131-140 | `String.valueOf(long)`: non-empty, digits for a non-negative value, and starts with '-' exactly for a negative one |
| JavaLang.NatToStringRoundTrip | app/src/main/java/fansirsqi/xposed/sesame/util/StringUtil.java:132 | parsing the decimal text of n gives back n |
| JavaLang.IntToStringRoundTrip | app/src/main/java/fansirsqi/xposed/sesame/util/StringUtil.java:131-140 | parsing the text of any `long` gives back the value |
| JavaLang.IntToStringInjective | app/src/main/java/fansirsqi/xposed/sesame/util/StringUtil.java:131-140 | different numbers never print the same |
| JavaLang.Text | app/src/main/java/fansirsqi/xposed/sesame/util/StringUtil.java:66 | string concatenation renders null as "null" and a string as itself |
| StringUtil.IsEmpty | app/src/main/java/fansirsqi/xposed/sesame/util/StringUtil.java:16-18 | empty exactly when null or of length zero, and such a string consists only of trimmed chars |
| StringUtil.IsNotEmpty | app/src/main/java/fansirsqi/xposed/sesame/util/StringUtil.java:23-25 | not empty exactly when non-null with at least one char |
| StringUtil.Trim | app/src/main/java/fansirsqi/xposed/sesame/util/StringUtil.java:31 | `String.trim`: a slice of the input with only chars ≤ U+0020 cut from both ends; empty exactly when every char is ≤ U+0020; otherwise both ends are kept chars |
| StringUtil.IsBlank | app/src/main/java/fansirsqi/xposed/sesame/util/StringUtil.java:30-32 | blank exactly when null or every char is ≤ U+0020 |
| StringUtil.IsNotBlank | app/src/main/java/fansirsqi/xposed/sesame/util/StringUtil.java:37-39 | not blank exactly when non-null with some char above U+0020 |
| StringUtil.EmptyIsBlank | app/src/main/java/fansirsqi/xposed/sesame/util/StringUtil.java:16-32 | `isEmpty` implies `isBlank` |
| StringUtil.TrimOrEmpty | app/src/main/java/fansirsqi/xposed/sesame/util/StringUtil.java:188-190 | `trim(null)` is ""; otherwise `String.trim` of the text, so no longer than it and empty exactly when it is blank |
| StringUtil.SafeString | app/src/main/java/fansirsqi/xposed/sesame/util/StringUtil.java:44-46 | the string itself when non-null; empty exactly when the input is null or empty |
| StringUtil.SafeStringOr | app/src/main/java/fansirsqi/xposed/sesame/util/StringUtil.java:51-53 | the default exactly when the input is null or empty, else the input |
| StringUtil.SafeStringIsSafeStringOrEmpty | app/src/main/java/fansirsqi/xposed/sesame/util/StringUtil.java:44-53 | the one-argument overload equals the two-argument one with default "" |
| StringUtil.SafeStringOrNotEmpty | app/src/main/java/fansirsqi/xposed/sesame/util/StringUtil.java:51-53 | the result is non-empty exactly when the input or the default is |
| StringUtil.ToStringOrEmpty | app/src/main/java/fansirsqi/xposed/sesame/util/StringUtil.java:96-98 | a null element renders as "", any other as its text |
| StringUtil.Render | app/src/main/java/fansirsqi/xposed/sesame/util/StringUtil.java:64-66 | the elements' texts, element by element, in order |
| StringUtil.JoinedLength | app/src/main/java/fansirsqi/xposed/sesame/util/StringUtil.java:62-67 | a join of n texts has their total length plus exactly n−1 separators |
| StringUtil.JoinedSingle | app/src/main/java/fansirsqi/xposed/sesame/util/StringUtil.java:78-83 | a one-element join is that element, with no separator |
| StringUtil.JoinedAppend | app/src/main/java/fansirsqi/xposed/sesame/util/StringUtil.java:62-67 | joining two non-empty lists back to back puts one separator at the seam |
| StringUtil.JoinCollection | app/src/main/java/fansirsqi/xposed/sesame/util/StringUtil.java:58-69 | "" for a null or empty collection; otherwise the reference join of the rendered elements with the conjunction's text |
| StringUtil.JoinArray | app/src/main/java/fansirsqi/xposed/sesame/util/StringUtil.java:74-84 | the array overload: the same result as the collection overload |
| StringUtil.JoinDefault | app/src/main/java/fansirsqi/xposed/sesame/util/StringUtil.java:89-91 | the comma join; for a single element, that element's text |
| StringUtil.PadLeft | app/src/main/java/fansirsqi/xposed/sesame/util/StringUtil.java:103-112 | null counts as ""; length max(|s|, width); ends with s; every added char is the pad char; s itself when width ≤ |s| |
| StringUtil.PadRight | app/src/main/java/fansirsqi/xposed/sesame/util/StringUtil.java:117-126 | the mirror of padLeft: starts with s, pads on the right |
| StringUtil.PadLeftInt | app/src/main/java/fansirsqi/xposed/sesame/util/StringUtil.java:131-133 | left padding of the decimal text of the value |
| StringUtil.PadRightInt | app/src/main/java/fansirsqi/xposed/sesame/util/StringUtil.java:138-140 | right padding of the decimal text of the value |
| StringUtil.IndexOf | app/src/main/java/fansirsqi/xposed/sesame/util/StringUtil.java:156 | `indexOf(pat, from)` is −1 or a position at or after `from` where the pattern fits |
| StringUtil.IndexOfIsFirst | app/src/main/java/fansirsqi/xposed/sesame/util/StringUtil.java:150-156 | `indexOf` returns the first occurrence at or after `from`, and −1 exactly when there is none |
| StringUtil.FirstOccurrenceUnique | app/src/main/java/fansirsqi/xposed/sesame/util/StringUtil.java:150-156 | there is only one first occurrence |
| StringUtil.LeftIndex | app/src/main/java/fansirsqi/xposed/sesame/util/StringUtil.java:150 | 0 for an empty left marker, else `indexOf(left)`; −1 or a position where the marker fits |
| StringUtil.RightIndex | app/src/main/java/fansirsqi/xposed/sesame/util/StringUtil.java:156-159 | the first occurrence of a non-empty right marker from the start index, else the text length; never before the start index |
| StringUtil.SubstringBetween | app/src/main/java/fansirsqi/xposed/sesame/util/StringUtil.java:145-162 | "" when any argument is null; never longer than the text |
| StringUtil.SubstringBetweenMissingLeft | app/src/main/java/fansirsqi/xposed/sesame/util/StringUtil.java:150-153 | a non-empty left marker that never occurs gives "" |
| StringUtil.SubstringBetweenFound | app/src/main/java/fansirsqi/xposed/sesame/util/StringUtil.java:150-161 | with left first at i and right first at j after it, the result is exactly the text strictly between them |
| StringUtil.SubstringBetweenToEnd | app/src/main/java/fansirsqi/xposed/sesame/util/StringUtil.java:155-161 | with right empty or absent after the left marker, the result runs to the end of the text |
| StringUtil.SubstringBetweenIsSubstring | app/src/main/java/fansirsqi/xposed/sesame/util/StringUtil.java:145-162 | the result is always a contiguous slice of the text |
| StringUtil.Contains | app/src/main/java/fansirsqi/xposed/sesame/util/StringUtil.java:167-169 | true exactly when both are non-null and the search text occurs somewhere |
| StringUtil.StartsWith | app/src/main/java/fansirsqi/xposed/sesame/util/StringUtil.java:174-176 | true exactly when both are non-null and the prefix occurs at 0 |
| StringUtil.EndsWith | app/src/main/java/fansirsqi/xposed/sesame/util/StringUtil.java:181-183 | true exactly when both are non-null and the suffix occurs at the end |
| StringUtil.StartsOrEndsImpliesContains | app/src/main/java/fansirsqi/xposed/sesame/util/StringUtil.java:167-183 | a prefix or a suffix is also contained |
| RpcHelper.GenerateUuid | app/src/main/java/fansirsqi/xposed/sesame/util/RpcHelper.java:13-15 | the UUID text with every '-' removed: no dash left, length reduced by the dash count, every other char kept with its multiplicity |
| RpcHelper.GenerateUuidAppend | app/src/main/java/fansirsqi/xposed/sesame/util/RpcHelper.java:14 | removing dashes distributes over concatenation |
| RpcHelper.SplitAll | app/src/main/java/fansirsqi/xposed/sesame/util/RpcHelper.java:22 | splitting at every dash gives one more part than there are dashes, none holding a dash, and joining the parts with '-' gives back the text |
| RpcHelper.SplitAllOfJoin | app/src/main/java/fansirsqi/xposed/sesame/util/RpcHelper.java:22 | the converse round trip: dash-free parts joined with '-' split back into exactly those parts |
| RpcHelper.DropTrailingEmpty | app/src/main/java/fansirsqi/xposed/sesame/util/RpcHelper.java:22 | `split` drops exactly the trailing empty parts: a prefix of the parts that ends in a non-empty one, followed only by empty ones |
| RpcHelper.SplitDash | app/src/main/java/fansirsqi/xposed/sesame/util/RpcHelper.java:22 | `split("-")`: the whole text as one part when it has no dash; otherwise the full split cut back to a prefix that is empty or ends in a non-empty part, with only empty parts dropped after it; no part holds a dash |
| RpcHelper.GenerateShortUuid | app/src/main/java/fansirsqi/xposed/sesame/util/RpcHelper.java:20-26 | the second halves of the dash-separated groups: no dash, never longer than the input |
| RpcHelper.UuidSplit | app/src/main/java/fansirsqi/xposed/sesame/util/RpcHelper.java:22 | the 8-4-4-4-12 UUID text splits into exactly its five groups |
| RpcHelper.ShortUuidShape | app/src/main/java/fansirsqi/xposed/sesame/util/RpcHelper.java:20-26 | for the standard UUID text the short form is a[4..]+b[2..]+c[2..]+d[2..]+e[6..], 16 chars |
| RpcHelper.UuidShape | app/src/main/java/fansirsqi/xposed/sesame/util/RpcHelper.java:13-15 | for the standard UUID text the dashless form is the five groups run together, 32 chars |
| RpcHelper.BuildParams | app/src/main/java/fansirsqi/xposed/sesame/util/RpcHelper.java:34-39 | "[{}]" for null or blank parameters; otherwise the parameters verbatim between '[' and ']', with no braces added |
| RpcHelper.BuildParamsRoundTrip | app/src/main/java/fansirsqi/xposed/sesame/util/RpcHelper.java:34-39 | stripping the brackets gives back non-blank parameters |
| RpcHelper.Envelope | app/src/main/java/fansirsqi/xposed/sesame/util/RpcHelper.java:49-52 | the shared shape: "[{field}]" when blank; else "[{field," followed by the parameters minus their first char, with no closing "}]" |
| RpcHelper.EnvelopeDropsFirstChar | app/src/main/java/fansirsqi/xposed/sesame/util/RpcHelper.java:52 | the first char of the parameters, whatever it is, never reaches the result |
| RpcHelper.BuildParamsWithBizNo | app/src/main/java/fansirsqi/xposed/sesame/util/RpcHelper.java:47-53 | the envelope with field "outBizNo":"uuid" |
| RpcHelper.BuildParamsWithTimestamp | app/src/main/java/fansirsqi/xposed/sesame/util/RpcHelper.java:61-67 | the envelope with field "timestamp":t, t in decimal |
| RpcHelper.BuildParamsWithVersion | app/src/main/java/fansirsqi/xposed/sesame/util/RpcHelper.java:76-81 | the envelope with field "version":"v" |
| RpcHelper.CallerShapeBreaksEnvelopes | app/src/main/java/fansirsqi/xposed/sesame/task/antSports/AntSportsRpcCall.java:24 | for the field list `"k":1` that callers pass, neither `buildParams` nor the envelopes produce an array of one object |
| RpcHelper.BuildParamsFixed | app/src/main/java/fansirsqi/xposed/sesame/util/RpcHelper.java:34-39 | corrected: always an array of one object, holding the parameters verbatim |
| RpcHelper.EnvelopeFixed | app/src/main/java/fansirsqi/xposed/sesame/util/RpcHelper.java:47-53 | corrected: always an array of one object |
| RpcHelper.EnvelopeFixedPrependsField | app/src/main/java/fansirsqi/xposed/sesame/util/RpcHelper.java:47-81 | the corrected envelope is the corrected `buildParams` of the field followed by all of the caller's fields |
| TimeUtil.IsBefore | app/src/main/java/fansirsqi/xposed/sesame/util/TimeUtil.java:107-110 | never for an unparsable time text; otherwise exactly when the instant compares below the time |
| TimeUtil.IsAfter | app/src/main/java/fansirsqi/xposed/sesame/util/TimeUtil.java:115-118 | never for an unparsable time text; otherwise exactly when the instant compares above the time |
| TimeUtil.IsBeforeOrEqual | app/src/main/java/fansirsqi/xposed/sesame/util/TimeUtil.java:123-126 | never for an unparsable time text; otherwise exactly when the comparison is not positive |
| TimeUtil.IsAfterOrEqual | app/src/main/java/fansirsqi/xposed/sesame/util/TimeUtil.java:131-134 | never for an unparsable time text; otherwise exactly when the comparison is not negative |
| TimeUtil.IsBeforeOrCompare | app/src/main/java/fansirsqi/xposed/sesame/util/TimeUtil.java:202-208 | agrees with `isBeforeOrEqualTimeStr` on every comparison result |
| TimeUtil.IsAfterOrCompare | app/src/main/java/fansirsqi/xposed/sesame/util/TimeUtil.java:210-216 | agrees with `isAfterOrEqualTimeStr` on every comparison result |
| TimeUtil.ComparisonFamily | app/src/main/java/fansirsqi/xposed/sesame/util/TimeUtil.java:107-134 | all four are false without a comparison; the strict ones exclude each other; both non-strict ones hold exactly on an equal comparison |
| TimeUtil.IsInTimeRange | app/src/main/java/fansirsqi/xposed/sesame/util/TimeUtil.java:159-168 | true when either bound is null; else true exactly when the instant compares at or after the start and at or before the end |
| TimeUtil.UnparsableBoundExcludes | app/src/main/java/fansirsqi/xposed/sesame/util/TimeUtil.java:164-167 | a bound that cannot be compared puts the instant outside the range |
| TimeUtil.CheckInTimeRanges | app/src/main/java/fansirsqi/xposed/sesame/util/TimeUtil.java:181-188 | true exactly when some range in the list holds, so false for an empty list |
| TimeUtil.IsSameDay | app/src/main/java/fansirsqi/xposed/sesame/util/TimeUtil.java:357-360 | the same day exactly when the two days are equal |
| TimeUtil.IsLessThanSecondOfDays | app/src/main/java/fansirsqi/xposed/sesame/util/TimeUtil.java:321-325 | lexicographic order on (year, day of year): by year when they differ, else by day; never for equal days |
| TimeUtil.SameDayIsEquality | app/src/main/java/fansirsqi/xposed/sesame/util/TimeUtil.java:357-360 | same day exactly when year and day of year agree: reflexive and symmetric |
| TimeUtil.LessThanIsStrictOrder | app/src/main/java/fansirsqi/xposed/sesame/util/TimeUtil.java:321-325 | day-less-than is irreflexive, asymmetric and transitive |
| TimeUtil.DayTrichotomy | app/src/main/java/fansirsqi/xposed/sesame/util/TimeUtil.java:321-360 | exactly one of earlier, same day, later |
| TimeUtil.UnitChain | app/src/main/java/fansirsqi/xposed/sesame/util/TimeUtil.java:140-143 | for a non-negative span the chained divisions equal division by 1000, 60000, 3600000 and 86400000 |
| TimeUtil.TimeDifference | app/src/main/java/fansirsqi/xposed/sesame/util/TimeUtil.java:139-153 | for a non-negative span: the branch of the largest non-zero unit; the smaller figure below 24, 60 or 60; the two figures bracket the span to the smaller unit |
| TimeUtil.FormatTimeDifference | app/src/main/java/fansirsqi/xposed/sesame/util/TimeUtil.java:139-153 | "0秒" below one second; for a non-negative span the text ends in '秒' exactly when the span is under an hour |
| Averages.SumAppend | app/src/main/java/fansirsqi/xposed/sesame/util/Average.java:41-42 | adding a value at the back adds it to the sum |
| Averages.New | app/src/main/java/fansirsqi/xposed/sesame/util/Average.java:18-23 | empty window, sum 0, average 0, the given bound |
| Averages.StepKeepsLatest | app/src/main/java/fansirsqi/xposed/sesame/util/Average.java:33-41 | one step appends the value and keeps the latest values that fit, at least one and at most the capacity |
| Averages.StepSum | app/src/main/java/fansirsqi/xposed/sesame/util/Average.java:33-42 | subtracting the evicted value and adding the new one gives the sum of the new window |
| Averages.StepValid | app/src/main/java/fansirsqi/xposed/sesame/util/Average.java:31-45 | a step keeps the invariant: the running sum is the window's sum, the window fits, the average is its mean |
| Averages.NextDouble | app/src/main/java/fansirsqi/xposed/sesame/util/Average.java:31-46 | keeps the invariant; the window is the latest values that fit; the result is the stored average, sum / window length |
| Averages.NextInteger | app/src/main/java/fansirsqi/xposed/sesame/util/Average.java:54-56 | the same step, returning the new mean cast toward zero |
| Averages.AverageDouble | app/src/main/java/fansirsqi/xposed/sesame/util/Average.java:63-65 | the mean of the current window |
| Averages.AverageInteger | app/src/main/java/fansirsqi/xposed/sesame/util/Average.java:72-74 | the mean of the current window cast toward zero |
| Averages.Clear | app/src/main/java/fansirsqi/xposed/sesame/util/Average.java:79-83 | empty window, sum 0, average 0, same bound |
| Averages.AverageDoubleAfterNext | app/src/main/java/fansirsqi/xposed/sesame/util/Average.java:45-65 | `averageDouble` reports what the last `nextDouble` returned |
| Averages.Feed | app/src/main/java/fansirsqi/xposed/sesame/util/Average.java:31-46 | any run of `nextDouble` calls keeps the invariant |
| Averages.FeedIsSlide | app/src/main/java/fansirsqi/xposed/sesame/util/Average.java:33-42 | the window after a run depends only on the window, the capacity and the values |
| Averages.SlideKeepsLatest | app/src/main/java/fansirsqi/xposed/sesame/util/Average.java:33-42 | sliding keeps the most recent values in arrival order, as many as capacity allows |
| Averages.FeedWindow | app/src/main/java/fansirsqi/xposed/sesame/util/Average.java:33-42 | from any valid state, the window after a run is the latest min(old + new count, capacity) values |
| Averages.WindowAfterCalls | app/src/main/java/fansirsqi/xposed/sesame/util/Average.java:33-42 | after n calls from empty: min(n, maxSize) values, the latest ones, for maxSize ≥ 1; exactly one for maxSize < 1 |
| Statistics.SuccessRate | app/src/main/java/fansirsqi/xposed/sesame/task/TaskStatistics.java:59-64 | 0 with no executions; else rate·count = (count − errors)·100, in [0, 100] when errors ≤ count, 100 without errors |
| Statistics.AverageExecutionTime | app/src/main/java/fansirsqi/xposed/sesame/task/TaskStatistics.java:69-74 | 0 with no executions; else the truncated quotient, bracketing the duration and never above it |
| Statistics.RunDurationParts | app/src/main/java/fansirsqi/xposed/sesame/task/TaskStatistics.java:80-91 | for a non-negative duration: hours branch iff ≥ 1 h, minutes iff 1 min ≤ d < 1 h, else seconds; minutes and seconds below 60; h·3600000 + m·60000 + s·1000 ≤ d < that + 1000 |
| Statistics.SplitAgrees | app/src/main/java/fansirsqi/xposed/sesame/task/TaskStatistics.java:81-83 | the remainder-then-divide figures are the hour, minute and second digits of the duration |
| Statistics.FormattedRunDuration | app/src/main/java/fansirsqi/xposed/sesame/task/TaskStatistics.java:79-92 | every branch ends with '秒' |
| Status.TaskState.Description | app/src/main/java/fansirsqi/xposed/sesame/task/TaskStatus.java:57-74 | each state's Chinese label, two or three chars long; "错误" exactly for ERROR |
| Status.StatesAndDescriptions | app/src/main/java/fansirsqi/xposed/sesame/task/TaskStatus.java:57-74 | exactly six distinct states, with distinct descriptions |
| Status.BuilderDefaults | app/src/main/java/fansirsqi/xposed/sesame/task/TaskStatus.java:34-52 | the builder's defaults: state UNKNOWN, counts 0, other fields zero or null |
| Status.CreateDefault | app/src/main/java/fansirsqi/xposed/sesame/task/TaskStatus.java:79-86 | the given name, not executable, no children, UNKNOWN, counts 0 |
| Status.UpdateExecution | app/src/main/java/fansirsqi/xposed/sesame/task/TaskStatus.java:91-94 | execute count + 1 and last-execute time = now; nothing else changes |
| Status.UpdateError | app/src/main/java/fansirsqi/xposed/sesame/task/TaskStatus.java:99-102 | error count + 1 and state ERROR; nothing else changes |
| Status.Reset | app/src/main/java/fansirsqi/xposed/sesame/task/TaskStatus.java:107-111 | IDLE with both counts 0; name, flags, child count and last-execute time unchanged |
| Status.ResetIdempotent | app/src/main/java/fansirsqi/xposed/sesame/task/TaskStatus.java:107-111 | a second reset changes nothing |
| Status.ResetForgetsUpdates | app/src/main/java/fansirsqi/xposed/sesame/task/TaskStatus.java:91-111 | a reset forgets an error update entirely, and an execution update except for its time |
| Status.UpdatesCommute | app/src/main/java/fansirsqi/xposed/sesame/task/TaskStatus.java:91-102 | the execution and error updates commute |
| Manager.Empty | app/src/main/java/fansirsqi/xposed/sesame/task/TaskManager.java:20-21 | no tasks and not initialised |
| Manager.RegisterTask | app/src/main/java/fansirsqi/xposed/sesame/task/TaskManager.java:29-34 | null changes nothing; otherwise the task under its name, last registration wins, other entries and the flag unchanged |
| Manager.GetTask | app/src/main/java/fansirsqi/xposed/sesame/task/TaskManager.java:41-43 | the registered task exactly when the name is registered, else null |
| Manager.StartTask | app/src/main/java/fansirsqi/xposed/sesame/task/TaskManager.java:51-65 | unknown name: false and no call; else one start call, and true exactly when it does not throw |
| Manager.StopTask | app/src/main/java/fansirsqi/xposed/sesame/task/TaskManager.java:71-77 | unknown name: no call; else one stop call whose exception escapes |
| Manager.StartAllTasks | app/src/main/java/fansirsqi/xposed/sesame/task/TaskManager.java:83-92 | one start call per registered task, in map order, whether or not earlier ones throw |
| Manager.StopAllTasks | app/src/main/java/fansirsqi/xposed/sesame/task/TaskManager.java:97-100 | stop calls in map order up to and including the first that throws; an exception escapes exactly when some task's stop throws |
| Manager.GetTaskStatus | app/src/main/java/fansirsqi/xposed/sesame/task/TaskManager.java:107-113 | (name, false, 0) for an unknown name, else (name, check(), countChildTask()) |
| Manager.GetAllTaskStatus | app/src/main/java/fansirsqi/xposed/sesame/task/TaskManager.java:119-124 | exactly the registered names, each with the status `getTaskStatus` gives |
| Manager.Initialize | app/src/main/java/fansirsqi/xposed/sesame/task/TaskManager.java:129-133 | sets the flag, keeps the tasks, and reports a first initialisation exactly when the flag was clear |
| Manager.InitializeIdempotent | app/src/main/java/fansirsqi/xposed/sesame/task/TaskManager.java:129-133 | a second initialisation changes nothing and is not a first one |
| Manager.Cleanup | app/src/main/java/fansirsqi/xposed/sesame/task/TaskManager.java:138-143 | the stop calls are those of `stopAllTasks`, in map order; if no stop throws, every registered task got a stop call and the registry is empty with the flag clear; if one throws, that is the last call, all earlier stops returned normally, and the registry and flag are left as they were |
| Log.Render | app/src/main/java/fansirsqi/xposed/sesame/util/Log.java:13 | the global prefix is empty, so a message is written as given |
| Log.Route | app/src/main/java/fansirsqi/xposed/sesame/util/Log.java:47-61 | RUNTIME and RECORD go to SYSTEM at info first; RECORD stops there when record logging is off; any other type writes exactly one entry to its own logger, at error level exactly when flagged |
| Log.Plain | app/src/main/java/fansirsqi/xposed/sesame/util/Log.java:66-68 | the one-argument loggers write only info-level entries of the message |
| Log.TagText | app/src/main/java/fansirsqi/xposed/sesame/util/Log.java:73-75 | a tagged message reads "[" + tag + "]: " + message |
| Log.Tagged | app/src/main/java/fansirsqi/xposed/sesame/util/Log.java:73-75 | the tagged loggers write only info-level entries of the tagged text |
| Log.ErrorMessage | app/src/main/java/fansirsqi/xposed/sesame/util/Log.java:141-143 | `error(msg)`: one error-level entry on the error logger |
| Log.ErrorTagged | app/src/main/java/fansirsqi/xposed/sesame/util/Log.java:145-147 | `error(tag, msg)`: one INFO-level entry on the error logger |
| Log.RecordSwitchOnlyAffectsRecord | app/src/main/java/fansirsqi/xposed/sesame/util/Log.java:52-54 | the record switch changes nothing for other types and only drops the second entry of a record message |
| Log.PrintStackTrace | app/src/main/java/fansirsqi/xposed/sesame/util/Log.java:159-177 | one error-level entry: "error: " + trace for a Throwable, "Exception error: " + trace for an Exception |
| Log.PrintStackTraceWithMessage | app/src/main/java/fansirsqi/xposed/sesame/util/Log.java:164-182 | one info-level entry on the error logger: the message as tag, then "Throwable error: " + trace, as `error(msg, …)` tags it |
| Log.PrintStackTraceWithTag | app/src/main/java/fansirsqi/xposed/sesame/util/Log.java:169-187 | one info-level entry on the error logger: the message as tag, then "[TAG] Throwable error: " + trace |

## Left out

- I/O and the environment are parameters:
  - the random UUID of `generateUuid`, `generateShortUuid` and `buildParamsWithBizNo`;
  - `System.currentTimeMillis()` in `buildParamsWithTimestamp` and `updateExecution`;
  - the record-log setting;
  - the logger back ends and Android's stack-trace text.
- TimeUtil's `Calendar`, `SimpleDateFormat` and `DateFormat` parts (`compareTimeStr`, `getCalendarByTimeStr`, the `getDateStr*` and `getFormat*` family, `timeToStamp`, `getWeekNumber`, `sleep`, the `isNow*` wrappers) are left out. They are time-zone and locale dependent. A comparison result is an `Option<int>`, a calendar day is its (year, dayOfYear) pair, and the single-range `checkInTimeRange(Long, String)` is a predicate parameter because it is not part of this model.
- TimeUtil.TimeDifference: the arithmetic is modelled for every input with Java's truncating operators, but the properties are stated only for spans ≥ 0.
- Averages.NextDouble: the running sum is an exact integer and the average an exact real, not IEEE doubles, so rounding of the `double` sum is not modelled.
- Statistics.SuccessRate: computed over reals, not doubles.
- The `%.2f` formatting of `getFormattedStatistics` is left out, because it is floating-point formatting.
- `long` and `int` overflow is not modelled. Integers are unbounded; `String.valueOf` and `%d` are plain decimal with ASCII digits.
- The following StringUtil helpers are left out:
  - `isNumeric`, `toInt`, `toLong`, `toDouble`, which rest on Java's number parsers;
  - `split`, which takes a regular expression;
  - `toUpperCase` and `toLowerCase`, which are Unicode and locale dependent;
  - `replace`.
- Java strings are sequences of UTF-16 code units, but a Dafny `char` is a whole Unicode scalar value. A character outside the Basic Multilingual Plane (an emoji, say) is two Java chars but one Dafny char. So every length and position in this model counts code points, not UTF-16 units:
  - `StringUtil.PadLeft` and `StringUtil.PadRight` reach the width with more pad chars than Java when the text holds such a character. Java's `padLeft("😀", 3, ' ')` adds one space; the model adds two.
  - `StringUtil.IndexOf`, `StringUtil.SubstringBetween`, `StringUtil.Trim` and `RpcHelper.GenerateShortUuid` count indices and halves in code points.
  - For the texts these helpers receive in practice (ASCII field lists, UUIDs, Chinese labels in the Basic Multilingual Plane), the two units agree.
- Task names, log tags and log messages are never null in this model. Java differs in these cases:
  - `ConcurrentHashMap` rejects a null key, so `registerTask` throws for a task whose name is null (TaskManager.java:31).
  - `startTask(null, …)` throws at the lookup, which is outside its `try` (TaskManager.java:52).
  - A null log tag is printed as "[null]: …" (Log.java:73-75).
  A null task itself is modelled, as `RegisterTask` with `None`.
- `join` receives its elements' texts. Their `toString` is the `Some` payload, and the collection's iteration order is the sequence order.
- The following are not part of this model:
  - `BaseTask` and `TaskExecutor`: threads, `synchronized` sections, futures;
  - `ExtendActivity` (Android UI);
  - `ExceptionHandler` (wrappers around `org.json`);
  - the RPC call classes, which only concatenate constants and call an unseen request manager.
- The TaskManager's own log lines (`Log.runtime`, `Log.printStackTrace`) are not part of its model. The exception caught in `startTask` and `startAllTasks` is reported only as the `false` result or as nothing.
- TaskManager's registry is a map from name to task. The iteration order of the concurrent map is a parameter: any duplicate-free listing of its keys.
- `getTaskStatus` and `getAllTaskStatus` call a three-argument `TaskStatus` constructor that TaskStatus.java does not declare, so their result is the triple (name, executable, childTaskCount) as a `StatusView`.

## Findings

| source | as written | input that shows it | evidently intended | confidence | as-written member | corrected member |
|---|---|---|---|---|---|---|
| app/src/main/java/fansirsqi/xposed/sesame/util/RpcHelper.java:34-81 | `buildParams` wraps the parameters in "[" … "]" only. The `buildParamsWith*` builders drop the first character of the parameters and never close the object or the array. Yet callers such as app/src/main/java/fansirsqi/xposed/sesame/task/antSports/AntSportsRpcCall.java:24 and app/src/main/java/fansirsqi/xposed/sesame/task/omegakoiTown/OmegakoiTownRpcCall.java:25-27 pass a bare field list. | params `"k":1` gives `["k":1]` from `buildParams`, and `[{"outBizNo":"u",k":1` from `buildParamsWithBizNo` | `[{` + params + `}]`, and `[{` + field + `,` + params + `}]` | medium, not executed | RpcHelper.CallerShapeBreaksEnvelopes | RpcHelper.EnvelopeFixedPrependsField |
