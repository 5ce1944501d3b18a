/**
 * The sliding-window average of Average.java. The source keeps the running
 * sum in a `double`; here it is an exact integer, and the average a real.
 */
module Averages {
  import JavaLang

  function Sum(w: seq<int>): int {
    if w == [] then 0 else w[0] + Sum(w[1..])
  }

  lemma {:induction false} SumAppend(w: seq<int>, v: int)
    ensures Sum(w + [v]) == Sum(w) + v
  {
    if w != [] {
      assert (w + [v])[1..] == w[1..] + [v];
      SumAppend(w[1..], v);
    }
  }

  /** A running sum divided by a count. */
  function Ratio(sum: int, count: nat): real
    requires count > 0
  {
    sum as real / count as real
  }

  /** The mean of the window, 0 for an empty one. */
  function Mean(w: seq<int>): real {
    if |w| == 0 then 0.0 else Ratio(Sum(w), |w|)
  }

  /** How many values the window holds at most: a bound below 1 behaves as 1,
      because the eviction test `size >= maxSize` then always succeeds. */
  function Capacity(maxSize: int): nat {
    if maxSize < 1 then 1 else maxSize
  }

  function Min(a: int, b: int): int {
    if a < b then a else b
  }

  /** The last `n` values of `s`. */
  function Last(s: seq<int>, n: nat): seq<int>
    requires n <= |s|
  {
    s[|s| - n..]
  }

  datatype Average = Average(window: seq<int>, maxSize: int, sum: int, average: real)

  /** The running sum is the sum of the window, the window is within capacity,
      and the stored average is the window's mean. */
  predicate Valid(a: Average) {
    && a.sum == Sum(a.window)
    && |a.window| <= Capacity(a.maxSize)
    && a.average == Mean(a.window)
  }

  /** `new Average(size)`. */
  function New(size: int): (a: Average)
    ensures Valid(a) && a.maxSize == size
    ensures a.window == [] && a.sum == 0 && a.average == 0.0
  {
    Average([], size, 0, 0.0)
  }

  /** The window after one `nextDouble(value)`: the oldest value is evicted
      when the window already holds `maxSize` or more. */
  function Step(w: seq<int>, maxSize: int, value: int): seq<int> {
    (if |w| >= maxSize && |w| > 0 then w[1..] else w) + [value]
  }

  /** One step appends `value` and keeps as many recent values as fit. */
  lemma StepKeepsLatest(w: seq<int>, maxSize: int, value: int)
    requires |w| <= Capacity(maxSize)
    ensures Step(w, maxSize, value) == Last(w + [value], Min(|w| + 1, Capacity(maxSize)))
    ensures 1 <= |Step(w, maxSize, value)| <= Capacity(maxSize)
  {
  }

  /** The running sum after one step, kept as the source keeps it: subtract
      the evicted value, add the new one. */
  function StepSumOf(w: seq<int>, sum: int, maxSize: int, value: int): int
  {
    (if |w| >= maxSize && |w| > 0 then sum - w[0] else sum) + value
  }

  /** Keeping the running sum that way gives the sum of the new window. */
  lemma StepSum(w: seq<int>, maxSize: int, value: int)
    ensures Sum(Step(w, maxSize, value)) == StepSumOf(w, Sum(w), maxSize, value)
  {
    var kept := if |w| >= maxSize && |w| > 0 then w[1..] else w;
    SumAppend(kept, value);
  }

  /** One step from a valid state gives a valid state. */
  lemma StepValid(a: Average, value: int)
    requires Valid(a)
    ensures var w := Step(a.window, a.maxSize, value);
            var sum := StepSumOf(a.window, a.sum, a.maxSize, value);
            && |w| >= 1
            && Valid(Average(w, a.maxSize, sum, Ratio(sum, |w|)))
            && w == Last(a.window + [value], Min(|a.window| + 1, Capacity(a.maxSize)))
  {
    var w := Step(a.window, a.maxSize, value);
    var sum := StepSumOf(a.window, a.sum, a.maxSize, value);
    StepKeepsLatest(a.window, a.maxSize, value);
    StepSum(a.window, a.maxSize, value);
    assert sum == Sum(w);
    assert Ratio(sum, |w|) == Mean(w);
  }

  /** `nextDouble(value)`: evict the oldest value when the window is full, add
      `value`, and return (and store) the new mean. The window keeps the most
      recent values in arrival order. */
  function NextDouble(a: Average, value: int): (r: (Average, real))
    requires Valid(a)
    ensures Valid(r.0) && r.0.maxSize == a.maxSize
    ensures r.0.window == Last(a.window + [value], Min(|a.window| + 1, Capacity(a.maxSize)))
    ensures |r.0.window| >= 1
    ensures r.1 == r.0.average == Ratio(Sum(r.0.window), |r.0.window|)
  {
    StepValid(a, value);
    var window := Step(a.window, a.maxSize, value);
    var sum := StepSumOf(a.window, a.sum, a.maxSize, value);
    (Average(window, a.maxSize, sum, Ratio(sum, |window|)), Ratio(sum, |window|))
  }

  /** `nextInteger(value)`: the new mean cast to an integer. */
  function NextInteger(a: Average, value: int): (r: (Average, int))
    requires Valid(a)
    ensures r.0 == NextDouble(a, value).0
    ensures r.1 == JavaLang.Truncate(Mean(r.0.window))
  {
    var (a', average) := NextDouble(a, value);
    (a', JavaLang.Truncate(average))
  }

  /** `averageDouble()`: the mean stored by the last `nextDouble`, 0 after `clear`. */
  function AverageDouble(a: Average): (r: real)
    requires Valid(a)
    ensures r == Mean(a.window)
  {
    a.average
  }

  /** `getAverageInteger()`. */
  function AverageInteger(a: Average): (r: int)
    requires Valid(a)
    ensures r == JavaLang.Truncate(Mean(a.window))
  {
    JavaLang.Truncate(a.average)
  }

  /** `clear()`: an empty window, sum and average 0, same bound. */
  function Clear(a: Average): (r: Average)
    ensures Valid(r) && r.maxSize == a.maxSize
    ensures r.window == [] && r.sum == 0 && r.average == 0.0
  {
    a.(window := [], sum := 0, average := 0.0)
  }

  /** `averageDouble` reports what the last `nextDouble` returned. */
  lemma AverageDoubleAfterNext(a: Average, value: int)
    requires Valid(a)
    ensures AverageDouble(NextDouble(a, value).0) == NextDouble(a, value).1
  {
  }

  /** The state after feeding `values` one by one to `nextDouble`. */
  function Feed(a: Average, values: seq<int>): (r: Average)
    requires Valid(a)
    ensures Valid(r) && r.maxSize == a.maxSize
    decreases |values|
  {
    if values == [] then a else Feed(NextDouble(a, values[0]).0, values[1..])
  }

  lemma LastAppend(x: seq<int>, k: nat, rest: seq<int>)
    requires k <= |x|
    ensures Last(x, k) + rest == Last(x + rest, k + |rest|)
  {
    var y := x + rest;
    assert |y| - (k + |rest|) == |x| - k;
    assert y[|x| - k..|x|] == x[|x| - k..];
    assert y[|x|..] == rest;
    assert y[|x| - k..] == y[|x| - k..|x|] + y[|x|..];
  }

  lemma LastLast(y: seq<int>, m: nat, n: nat)
    requires n <= m <= |y|
    ensures Last(Last(y, m), n) == Last(y, n)
  {
    assert y[|y| - m..][m - n..] == y[|y| - n..];
  }

  /** The window alone under a run of `nextDouble` calls. */
  function Slide(w: seq<int>, cap: nat, values: seq<int>): seq<int>
    requires 1 <= cap && |w| <= cap
    decreases |values|
  {
    if values == [] then w
    else Slide(Last(w + [values[0]], Min(|w| + 1, cap)), cap, values[1..])
  }

  lemma {:induction false} FeedIsSlide(a: Average, values: seq<int>)
    requires Valid(a)
    ensures Feed(a, values).window == Slide(a.window, Capacity(a.maxSize), values)
    decreases |values|
  {
    if values != [] {
      FeedIsSlide(NextDouble(a, values[0]).0, values[1..]);
    }
  }

  /** Sliding keeps the most recent values, oldest first, as many as fit. */
  lemma {:induction false} SlideKeepsLatest(w: seq<int>, cap: nat, values: seq<int>)
    requires 1 <= cap && |w| <= cap
    ensures Slide(w, cap, values) == Last(w + values, Min(|w| + |values|, cap))
    decreases |values|
  {
    if values == [] {
      assert w + values == w;
    } else {
      var w' := Last(w + [values[0]], Min(|w| + 1, cap));
      SlideKeepsLatest(w', cap, values[1..]);
      LastStep(w, values[0], values[1..], cap);
      assert w + [values[0]] + values[1..] == w + values;
    }
  }

  /** One sliding step followed by keeping the latest values is the same as
      keeping the latest values of the whole run. */
  lemma LastStep(w: seq<int>, v: int, rest: seq<int>, cap: nat)
    requires 1 <= cap && |w| <= cap
    ensures var w' := Last(w + [v], Min(|w| + 1, cap));
      Last(w' + rest, Min(|w'| + |rest|, cap)) == Last(w + [v] + rest, Min(|w| + 1 + |rest|, cap))
  {
    var x := w + [v];
    var k1 := Min(|w| + 1, cap);
    var w' := Last(x, k1);
    assert |w'| == k1;
    var n := Min(k1 + |rest|, cap);
    assert n == Min(|w| + 1 + |rest|, cap);
    assert n <= k1 + |rest| <= |x + rest|;
    LastAppend(x, k1, rest);
    assert w' + rest == Last(x + rest, k1 + |rest|);
    LastLast(x + rest, k1 + |rest|, n);
    assert x + rest == w + [v] + rest;
  }

  /** Starting from any valid state, the window after a run of calls holds the
      most recent values, oldest first, as many as capacity allows. */
  lemma {:induction false} FeedWindow(a: Average, values: seq<int>)
    requires Valid(a)
    ensures Feed(a, values).window
            == Last(a.window + values, Min(|a.window| + |values|, Capacity(a.maxSize)))
  {
    FeedIsSlide(a, values);
    SlideKeepsLatest(a.window, Capacity(a.maxSize), values);
  }

  /** After `n` calls since creation or `clear`, the window holds the last
      `min(n, capacity)` values; for a bound below 1 that is exactly one. */
  lemma {:induction false} WindowAfterCalls(a: Average, values: seq<int>)
    requires Valid(a) && a.window == []
    ensures var w := Feed(a, values).window;
      && |w| == Min(|values|, Capacity(a.maxSize))
      && w == Last(values, |w|)
      && (a.maxSize >= 1 ==> |w| == Min(|values|, a.maxSize))
      && (a.maxSize < 1 && |values| >= 1 ==> |w| == 1)
      && Feed(a, values).sum == Sum(w)
  {
    FeedWindow(a, values);
    assert a.window + values == values;
  }
}
