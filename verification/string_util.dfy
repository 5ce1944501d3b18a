/**
 * Null-safe string helpers (StringUtil.java). A Java `String` that may be null
 * is an `Option<string>`. Lengths and positions count Unicode scalar values
 * (Dafny `char`s), not Java's UTF-16 code units.
 */
module StringUtil {
  import opened Wrappers
  import JavaLang

  type JString = Option<string>

  /** Java's `String.trim` removes every character up to U+0020 at either end. */
  predicate IsTrimmed(c: char) {
    c <= ' '
  }

  predicate AllTrimmed(s: string) {
    forall k :: 0 <= k < |s| ==> IsTrimmed(s[k])
  }

  // ---------------------------------------------------------------- emptiness

  /** `isEmpty`: null or of length zero; such a string is also all trimmed. */
  function IsEmpty(s: JString): (b: bool)
    ensures b <==> s.None? || s.value == []
    ensures b ==> s.None? || AllTrimmed(s.value)
  {
    s.None? || |s.value| == 0
  }

  /** `isNotEmpty`: a string with at least one character. */
  function IsNotEmpty(s: JString): (b: bool)
    ensures b <==> s.Some? && |s.value| >= 1
  {
    !IsEmpty(s)
  }

  /** Index of the first non-trimmed character at or after `i`, or `|s|`. */
  function FirstKept(s: string, i: nat): (k: nat)
    requires i <= |s|
    ensures i <= k <= |s|
    ensures AllTrimmed(s[i..k])
    ensures k < |s| ==> !IsTrimmed(s[k])
    decreases |s| - i
  {
    if i == |s| || !IsTrimmed(s[i]) then i
    else
      var k := FirstKept(s, i + 1);
      assert s[i..k] == [s[i]] + s[i + 1..k];
      k
  }

  /** One past the last non-trimmed character before `j`, or `0`. */
  function EndKept(s: string, j: nat): (k: nat)
    requires j <= |s|
    ensures k <= j
    ensures AllTrimmed(s[k..j])
    ensures k > 0 ==> !IsTrimmed(s[k - 1])
  {
    if j == 0 || !IsTrimmed(s[j - 1]) then j
    else
      var k := EndKept(s, j - 1);
      assert s[k..j] == s[k..j - 1] + [s[j - 1]];
      k
  }

  /** Java's `String.trim`: the text between the leading and the trailing
      characters up to U+0020. */
  function Trim(s: string): (r: string)
    ensures |r| == 0 <==> AllTrimmed(s)
    ensures |r| > 0 ==> !IsTrimmed(r[0]) && !IsTrimmed(r[|r| - 1])
    ensures exists lo, hi :: 0 <= lo <= hi <= |s| && r == s[lo..hi]
                          && AllTrimmed(s[..lo]) && AllTrimmed(s[hi..])
  {
    var lo := FirstKept(s, 0);
    if lo == |s| then
      assert s[..0] == [] && s[0..] == s;
      ""
    else
      var hi := EndKept(s, |s|);
      var r := s[lo..hi];
      assert s[..lo] == s[0..lo];
      assert s[hi..] == s[hi..|s|];
      assert !AllTrimmed(s) by { assert !IsTrimmed(s[lo]); }
      r
  }

  /** `isBlank`: null, or nothing left after trimming. */
  function IsBlank(s: JString): (b: bool)
    ensures b <==> s.None? || AllTrimmed(s.value)
    ensures !b ==> |s.value| > 0
  {
    s.None? || |Trim(s.value)| == 0
  }

  function IsNotBlank(s: JString): (b: bool)
    ensures b <==> s.Some? && exists k :: 0 <= k < |s.value| && !IsTrimmed(s.value[k])
  {
    !IsBlank(s)
  }

  /** An empty string is blank. */
  lemma EmptyIsBlank(s: JString)
    ensures IsEmpty(s) ==> IsBlank(s)
  {
  }

  /** `trim(str)`: null becomes the empty string. */
  function TrimOrEmpty(s: JString): (r: string)
    ensures s.None? ==> r == ""
    ensures s.Some? ==> r == Trim(s.value)
    ensures s.Some? ==> |r| <= |s.value|
    ensures |r| == 0 <==> IsBlank(s)
  {
    match s
    case None => ""
    case Some(v) => Trim(v)
  }

  // ---------------------------------------------------------------- defaults

  /** `safeString(str)`: the string itself, or "" for null. */
  function SafeString(s: JString): (r: string)
    ensures |r| == 0 <==> IsEmpty(s)
    ensures s.Some? ==> r == s.value
  {
    s.GetOr("")
  }

  /** `safeString(str, defaultValue)`: the string unless it is null or empty. */
  function SafeStringOr(s: JString, default: JString): (r: JString)
    ensures IsEmpty(s) ==> r == default
    ensures IsNotEmpty(s) ==> r == s && r.Some?
  {
    if IsNotEmpty(s) then s else default
  }

  /** The one-argument overload is the two-argument one with default "". */
  lemma SafeStringIsSafeStringOrEmpty(s: JString)
    ensures SafeStringOr(s, Some("")) == Some(SafeString(s))
  {
  }

  /** `safeString(str, d)` is non-empty whenever either argument is. */
  lemma SafeStringOrNotEmpty(s: JString, default: JString)
    ensures IsNotEmpty(SafeStringOr(s, default)) <==> IsNotEmpty(s) || IsNotEmpty(default)
  {
  }

  // ---------------------------------------------------------------- joining

  /** `toStringOrEmpty` (`Objects.toString(obj, "")`): an element is its text, or
      "" for null. The element's own `toString` is its `Some` payload. */
  function ToStringOrEmpty(o: Option<string>): (r: string)
    ensures o.None? ==> r == ""
    ensures o.Some? ==> r == o.value
  {
    o.GetOr("")
  }

  function Render(xs: seq<Option<string>>): (ts: seq<string>)
    ensures |ts| == |xs|
    ensures forall i :: 0 <= i < |xs| ==> ts[i] == ToStringOrEmpty(xs[i])
  {
    seq(|xs|, i requires 0 <= i < |xs| => ToStringOrEmpty(xs[i]))
  }

  /** Reference definition of joining a non-empty list: the elements in order
      with one separator between each neighbouring pair. */
  function Joined(sep: string, ts: seq<string>): string
    requires |ts| >= 1
  {
    if |ts| == 1 then ts[0] else Joined(sep, ts[..|ts| - 1]) + sep + ts[|ts| - 1]
  }

  function TotalLength(ts: seq<string>): nat {
    if ts == [] then 0 else TotalLength(ts[..|ts| - 1]) + |ts[|ts| - 1]|
  }

  /** A join of n elements holds the n elements and exactly n-1 separators. */
  lemma {:induction false} JoinedLength(sep: string, ts: seq<string>)
    requires |ts| >= 1
    ensures |Joined(sep, ts)| == TotalLength(ts) + (|ts| - 1) * |sep|
  {
    if |ts| == 1 {
      assert ts[..0] == [];
    } else {
      var init := ts[..|ts| - 1];
      JoinedLength(sep, init);
      assert Joined(sep, ts) == Joined(sep, init) + sep + ts[|ts| - 1];
      assert (|ts| - 1) * |sep| == (|init| - 1) * |sep| + |sep|;
    }
  }

  /** A one-element join is that element, with no separator. */
  lemma JoinedSingle(sep: string, t: string)
    ensures Joined(sep, [t]) == t
  {
  }

  /** Joining a concatenation puts one separator at the seam. */
  lemma {:induction false} JoinedAppend(sep: string, xs: seq<string>, ys: seq<string>)
    requires |xs| >= 1 && |ys| >= 1
    ensures Joined(sep, xs + ys) == Joined(sep, xs) + sep + Joined(sep, ys)
    decreases |ys|
  {
    if |ys| == 1 {
      assert (xs + ys)[..|xs + ys| - 1] == xs;
    } else {
      var ys' := ys[..|ys| - 1];
      assert (xs + ys)[..|xs + ys| - 1] == xs + ys';
      JoinedAppend(sep, xs, ys');
    }
  }

  /** `join(conjunction, collection)`: "" for a null or empty collection, else
      the elements' texts separated by the conjunction (whose text is "null"
      when it is null, as `StringBuilder.append` renders it). */
  method JoinCollection(conjunction: JString, collection: Option<seq<Option<string>>>)
    returns (r: string)
    ensures collection.None? || |collection.value| == 0 ==> r == ""
    ensures collection.Some? && |collection.value| > 0 ==>
              r == Joined(JavaLang.Text(conjunction), Render(collection.value))
  {
    if collection.None? || |collection.value| == 0 {
      return "";
    }
    var items := collection.value;
    var ts := Render(items);
    var sep := JavaLang.Text(conjunction);
    var b := ToStringOrEmpty(items[0]);
    var next := 1;
    assert ts[..1] == [ts[0]];
    while next < |items|
      invariant 1 <= next <= |items|
      invariant b == Joined(sep, ts[..next])
    {
      assert ts[..next + 1][..next] == ts[..next];
      b := b + sep + ToStringOrEmpty(items[next]);
      next := next + 1;
    }
    assert ts[..|items|] == ts;
    r := b;
  }

  /** `join(conjunction, array...)`: the same contract as the collection form. */
  method JoinArray(conjunction: JString, elements: Option<seq<Option<string>>>)
    returns (r: string)
    ensures elements.None? || |elements.value| == 0 ==> r == ""
    ensures elements.Some? && |elements.value| > 0 ==>
              r == Joined(JavaLang.Text(conjunction), Render(elements.value))
  {
    if elements.None? || |elements.value| == 0 {
      return "";
    }
    var a := elements.value;
    var ts := Render(a);
    var sep := JavaLang.Text(conjunction);
    r := ToStringOrEmpty(a[0]);
    assert ts[..1] == [ts[0]];
    for i := 1 to |a|
      invariant r == Joined(sep, ts[..i])
    {
      assert ts[..i + 1][..i] == ts[..i];
      r := r + sep + ToStringOrEmpty(a[i]);
    }
    assert ts[..|a|] == ts;
  }

  /** `join(array...)`: joined with a comma. */
  method JoinDefault(elements: Option<seq<Option<string>>>) returns (r: string)
    ensures elements.None? || |elements.value| == 0 ==> r == ""
    ensures elements.Some? && |elements.value| > 0 ==> r == Joined(",", Render(elements.value))
    ensures elements.Some? && |elements.value| == 1 ==> r == ToStringOrEmpty(elements.value[0])
  {
    r := JoinArray(Some(","), elements);
  }

  // ---------------------------------------------------------------- padding

  function Max(a: int, b: int): int {
    if a < b then b else a
  }

  /** `padLeft(str, totalWidth, padChar)`: prepends `padChar` until the text is
      `totalWidth` long; null counts as "". */
  method PadLeft(s: JString, totalWidth: int, padChar: char) returns (r: string)
    ensures var base := SafeString(s);
      && |r| == Max(|base|, totalWidth)
      && r[|r| - |base|..] == base
      && (forall k :: 0 <= k < |r| - |base| ==> r[k] == padChar)
      && (totalWidth <= |base| ==> r == base)
  {
    var base := SafeString(s);
    r := base;
    while |r| < totalWidth
      invariant |base| <= |r| <= Max(|base|, totalWidth)
      invariant r[|r| - |base|..] == base
      invariant forall k :: 0 <= k < |r| - |base| ==> r[k] == padChar
      decreases totalWidth - |r|
    {
      r := [padChar] + r;
    }
  }

  /** `padRight(str, totalWidth, padChar)`: the mirror of `PadLeft`. */
  method PadRight(s: JString, totalWidth: int, padChar: char) returns (r: string)
    ensures var base := SafeString(s);
      && |r| == Max(|base|, totalWidth)
      && r[..|base|] == base
      && (forall k :: |base| <= k < |r| ==> r[k] == padChar)
      && (totalWidth <= |base| ==> r == base)
  {
    var base := SafeString(s);
    r := base;
    while |r| < totalWidth
      invariant |base| <= |r| <= Max(|base|, totalWidth)
      invariant r[..|base|] == base
      invariant forall k :: |base| <= k < |r| ==> r[k] == padChar
      decreases totalWidth - |r|
    {
      r := r + [padChar];
    }
  }

  /** `padLeft(int value, …)`: pads the decimal text of the value. */
  method PadLeftInt(value: int, totalWidth: int, padChar: char) returns (r: string)
    ensures var base := JavaLang.IntToString(value);
      && |r| == Max(|base|, totalWidth)
      && r[|r| - |base|..] == base
      && (forall k :: 0 <= k < |r| - |base| ==> r[k] == padChar)
  {
    r := PadLeft(Some(JavaLang.IntToString(value)), totalWidth, padChar);
  }

  /** `padRight(int value, …)`: pads the decimal text of the value. */
  method PadRightInt(value: int, totalWidth: int, padChar: char) returns (r: string)
    ensures var base := JavaLang.IntToString(value);
      && |r| == Max(|base|, totalWidth)
      && r[..|base|] == base
      && (forall k :: |base| <= k < |r| ==> r[k] == padChar)
  {
    r := PadRight(Some(JavaLang.IntToString(value)), totalWidth, padChar);
  }

  // ---------------------------------------------------------------- searching

  predicate OccursAt(text: string, pat: string, k: int) {
    0 <= k && k + |pat| <= |text| && text[k..k + |pat|] == pat
  }

  /** `k` is the first occurrence of `pat` in `text` at or after `from`. */
  predicate IsFirstOccurrence(text: string, pat: string, from: int, k: int) {
    from <= k && OccursAt(text, pat, k)
    && forall j :: from <= j < k ==> !OccursAt(text, pat, j)
  }

  /** Java's `text.indexOf(pat, from)` for `from <= |text|`: the first occurrence
      at or after `from`, or -1. */
  function IndexOf(text: string, pat: string, from: nat): (r: int)
    requires from <= |text|
    ensures r == -1 || (from <= r && r + |pat| <= |text|)
    decreases |text| - from
  {
    if from + |pat| > |text| then -1
    else if text[from..from + |pat|] == pat then from
    else IndexOf(text, pat, from + 1)
  }

  /** `indexOf` finds the first occurrence at or after `from`, and reports -1
      exactly when there is none. */
  lemma {:induction false} IndexOfIsFirst(text: string, pat: string, from: nat)
    requires from <= |text|
    ensures var r := IndexOf(text, pat, from);
      && (r == -1 || IsFirstOccurrence(text, pat, from, r))
      && (r == -1 <==> forall j :: from <= j ==> !OccursAt(text, pat, j))
    decreases |text| - from
  {
    if from + |pat| > |text| {
    } else if text[from..from + |pat|] == pat {
    } else {
      IndexOfIsFirst(text, pat, from + 1);
      assert !OccursAt(text, pat, from);
    }
  }

  /** The first occurrence is unique. */
  lemma FirstOccurrenceUnique(text: string, pat: string, from: int, i: int, j: int)
    requires IsFirstOccurrence(text, pat, from, i) && IsFirstOccurrence(text, pat, from, j)
    ensures i == j
  {
  }

  /** Where `substringBetween` finds `left`: position 0 for an empty `left`,
      otherwise its first occurrence, or -1. */
  function LeftIndex(t: string, l: string): (r: int)
    ensures r == -1 || (0 <= r && r + |l| <= |t|)
    ensures |l| == 0 ==> r == 0
    ensures |l| > 0 ==> r == IndexOf(t, l, 0)
  {
    if |l| == 0 then 0 else IndexOf(t, l, 0)
  }

  /** Where `substringBetween` stops: the first occurrence of a non-empty
      `rt` at or after `start`, or the end of the text. */
  function RightIndex(t: string, rt: string, start: nat): (r: int)
    requires start <= |t|
    ensures start <= r <= |t|
    ensures |rt| > 0 && IndexOf(t, rt, start) != -1 ==> r == IndexOf(t, rt, start)
    ensures |rt| == 0 || IndexOf(t, rt, start) == -1 ==> r == |t|
  {
    var found := if |rt| == 0 then |t| else IndexOf(t, rt, start);
    if found == -1 then |t| else found
  }

  /** `substringBetween(text, left, right)`. */
  function SubstringBetween(text: JString, left: JString, right: JString): (r: string)
    ensures text.None? || left.None? || right.None? ==> r == ""
    ensures text.Some? ==> |r| <= |text.value|
  {
    if text.None? || left.None? || right.None? then ""
    else
      var t, l, rt := text.value, left.value, right.value;
      var leftIndex := LeftIndex(t, l);
      if leftIndex == -1 then ""
      else
        var startIndex := leftIndex + |l|;
        t[startIndex..RightIndex(t, rt, startIndex)]
  }

  /** `indexOf` reports -1 when there is no occurrence. */
  lemma IndexOfMissing(text: string, pat: string, from: nat)
    requires from <= |text| && forall j :: from <= j ==> !OccursAt(text, pat, j)
    ensures IndexOf(text, pat, from) == -1
  {
    IndexOfIsFirst(text, pat, from);
  }

  /** `indexOf` returns the first occurrence when there is one. */
  lemma IndexOfFinds(text: string, pat: string, from: nat, k: int)
    requires from <= |text| && IsFirstOccurrence(text, pat, from, k)
    ensures IndexOf(text, pat, from) == k
  {
    var found := IndexOf(text, pat, from);
    IndexOfIsFirst(text, pat, from);
    assert found != -1 by { assert OccursAt(text, pat, k); }
    FirstOccurrenceUnique(text, pat, from, k, found);
  }

  /** The position `substringBetween` computes for `left` is its first occurrence. */
  lemma LeftIndexIs(text: string, left: string, i: int)
    requires (|left| == 0 && i == 0) || (|left| > 0 && IsFirstOccurrence(text, left, 0, i))
    ensures i + |left| <= |text|
    ensures LeftIndex(text, left) == i
  {
    if |left| > 0 {
      IndexOfFinds(text, left, 0, i);
    }
  }

  /** With the first occurrence of `left` at `i` (position 0 for an empty
      `left`) and the first occurrence of a non-empty `right` after it at `j`,
      the result is the text strictly between them. */
  lemma SubstringBetweenFound(text: string, left: string, right: string, i: int, j: int)
    requires (|left| == 0 && i == 0) || (|left| > 0 && IsFirstOccurrence(text, left, 0, i))
    requires |right| > 0 && IsFirstOccurrence(text, right, i + |left|, j)
    ensures SubstringBetween(Some(text), Some(left), Some(right)) == text[i + |left|..j]
  {
    LeftIndexIs(text, left, i);
    IndexOfFinds(text, right, i + |left|, j);
    BetweenCuts(text, left, right, i, j);
  }

  /** With `right` empty or absent after the start, the result runs to the end. */
  lemma SubstringBetweenToEnd(text: string, left: string, right: string, i: int)
    requires (|left| == 0 && i == 0) || (|left| > 0 && IsFirstOccurrence(text, left, 0, i))
    requires |right| == 0 || forall j :: i + |left| <= j ==> !OccursAt(text, right, j)
    ensures SubstringBetween(Some(text), Some(left), Some(right)) == text[i + |left|..]
  {
    LeftIndexIs(text, left, i);
    if |right| > 0 {
      IndexOfMissing(text, right, i + |left|);
    }
    BetweenCuts(text, left, right, i, |text|);
  }

  /** The result is always a piece of the text. */
  lemma SubstringBetweenIsSubstring(text: string, left: JString, right: JString)
    ensures exists a, b :: 0 <= a <= b <= |text|
              && SubstringBetween(Some(text), left, right) == text[a..b]
  {
    if left.None? || right.None? || LeftIndex(text, left.value) == -1 {
      assert text[0..0] == "";
    } else {
      var i := LeftIndex(text, left.value);
      BetweenCuts(text, left.value, right.value, i, RightIndex(text, right.value, i + |left.value|));
    }
  }

  /** A non-empty `left` that never occurs gives the empty string. */
  lemma SubstringBetweenMissingLeft(text: string, left: string, right: JString)
    requires |left| > 0 && forall j :: 0 <= j ==> !OccursAt(text, left, j)
    ensures SubstringBetween(Some(text), Some(left), right) == ""
  {
    IndexOfMissing(text, left, 0);
  }

  /** Once `left` is found at `i`, `substringBetween` cuts from its end to
      the right index `j`. */
  lemma BetweenCuts(text: string, left: string, right: string, i: int, j: int)
    requires i != -1 && LeftIndex(text, left) == i
    requires RightIndex(text, right, i + |left|) == j
    ensures SubstringBetween(Some(text), Some(left), Some(right)) == text[i + |left|..j]
  {
  }

  /** `contains`: false when either argument is null. */
  function Contains(s: JString, search: JString): (b: bool)
    ensures b <==> s.Some? && search.Some? && exists k :: OccursAt(s.value, search.value, k)
  {
    if s.None? || search.None? then false
    else
      IndexOfIsFirst(s.value, search.value, 0);
      IndexOf(s.value, search.value, 0) >= 0
  }

  /** `startsWith`: false when either argument is null. */
  function StartsWith(s: JString, prefix: JString): (b: bool)
    ensures b <==> s.Some? && prefix.Some? && OccursAt(s.value, prefix.value, 0)
  {
    s.Some? && prefix.Some? && |prefix.value| <= |s.value| && s.value[..|prefix.value|] == prefix.value
  }

  /** `endsWith`: false when either argument is null. */
  function EndsWith(s: JString, suffix: JString): (b: bool)
    ensures b <==> s.Some? && suffix.Some? && OccursAt(s.value, suffix.value, |s.value| - |suffix.value|)
  {
    s.Some? && suffix.Some? && |suffix.value| <= |s.value|
    && s.value[|s.value| - |suffix.value|..] == suffix.value
  }

  /** A prefix or a suffix is contained. */
  lemma StartsOrEndsImpliesContains(s: JString, t: JString)
    ensures StartsWith(s, t) ==> Contains(s, t)
    ensures EndsWith(s, t) ==> Contains(s, t)
  {
  }
}
