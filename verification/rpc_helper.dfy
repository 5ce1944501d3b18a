/**
 * Request-parameter envelopes (RpcHelper.java). The random UUID text and the
 * clock reading the source draws internally are parameters here.
 */
module RpcHelper {
  import opened Wrappers
  import JavaLang
  import StringUtil

  type JString = Option<string>

  function Count(s: string, c: char): (n: nat)
    ensures n <= |s|
  {
    if s == [] then 0 else (if s[0] == c then 1 else 0) + Count(s[1..], c)
  }

  // ---------------------------------------------------------------- UUIDs

  /** `generateUuid`: the UUID text with every '-' removed. */
  function GenerateUuid(uuid: string): (r: string)
    ensures '-' !in r
    ensures |r| == |uuid| - Count(uuid, '-')
    ensures forall c :: c != '-' ==> multiset(r)[c] == multiset(uuid)[c]
  {
    if uuid == [] then []
    else
      var rest := GenerateUuid(uuid[1..]);
      assert uuid == [uuid[0]] + uuid[1..];
      if uuid[0] == '-' then rest else [uuid[0]] + rest
  }

  /** Removing dashes leaves dash-free text alone and distributes over `+`. */
  lemma {:induction false} GenerateUuidAppend(a: string, b: string)
    ensures GenerateUuid(a + b) == GenerateUuid(a) + GenerateUuid(b)
    ensures '-' !in a ==> GenerateUuid(a) == a
    decreases |a|
  {
    if a == [] {
      assert a + b == b;
    } else {
      assert (a + b)[1..] == a[1..] + b;
      GenerateUuidAppend(a[1..], b);
      assert a == [a[0]] + a[1..];
    }
  }

  /** The parts joined back together with '-' between neighbours. */
  function JoinDash(parts: seq<string>): string
    requires |parts| >= 1
  {
    if |parts| == 1 then parts[0] else parts[0] + "-" + JoinDash(parts[1..])
  }

  /** Every part of a dash-split, keeping empty parts (the regex split before
      Java drops the trailing empty strings). Joining the parts with '-'
      gives back the text. */
  function SplitAll(s: string): (parts: seq<string>)
    ensures |parts| == Count(s, '-') + 1
    ensures forall i :: 0 <= i < |parts| ==> '-' !in parts[i]
    ensures JoinDash(parts) == s
  {
    if s == [] then [""]
    else
      var rest := SplitAll(s[1..]);
      assert s == [s[0]] + s[1..];
      if s[0] == '-' then
        assert JoinDash([""] + rest) == "" + "-" + JoinDash(rest);
        [""] + rest
      else
        JoinConsFirst(s[0], rest);
        [[s[0]] + rest[0]] + rest[1..]
  }

  /** Putting a character in front of the first part puts it in front of the
      joined text. */
  lemma JoinConsFirst(c: char, parts: seq<string>)
    requires |parts| >= 1
    ensures JoinDash([[c] + parts[0]] + parts[1..]) == [c] + JoinDash(parts)
  {
    var ps := [[c] + parts[0]] + parts[1..];
    assert ps[1..] == parts[1..];
  }

  /** Java's `split` removes the empty strings at the end of the result. */
  function DropTrailingEmpty(parts: seq<string>): (r: seq<string>)
    ensures |r| <= |parts| && r == parts[..|r|]
    ensures |r| == 0 || r[|r| - 1] != ""
    ensures forall i :: |r| <= i < |parts| ==> parts[i] == ""
  {
    if parts == [] || parts[|parts| - 1] != "" then parts
    else DropTrailingEmpty(parts[..|parts| - 1])
  }

  /** Java's `s.split("-")`: with no dash the whole string as the one part;
      else the full split with its trailing empty parts removed, so the
      result is a prefix of the full split that ends in a non-empty part (or
      is empty), and only empty parts follow it. */
  function SplitDash(s: string): (parts: seq<string>)
    ensures forall i :: 0 <= i < |parts| ==> '-' !in parts[i]
    ensures '-' !in s ==> parts == [s]
    ensures |parts| <= |SplitAll(s)| && parts == SplitAll(s)[..|parts|]
    ensures forall i :: |parts| <= i < |SplitAll(s)| ==> SplitAll(s)[i] == ""
    ensures '-' in s ==> |parts| == 0 || parts[|parts| - 1] != ""
  {
    if '-' !in s then
      SplitAllNoDash(s);
      [s]
    else DropTrailingEmpty(SplitAll(s))
  }

  lemma {:induction false} SplitAllNoDash(a: string)
    requires '-' !in a
    ensures SplitAll(a) == [a]
  {
    if a != [] {
      SplitAllNoDash(a[1..]);
      assert a == [a[0]] + a[1..];
    }
  }

  /** A leading dash-free segment splits off as one part. */
  lemma {:induction false} SplitAllSegment(a: string, rest: string)
    requires '-' !in a
    ensures SplitAll(a + "-" + rest) == [a] + SplitAll(rest)
    decreases |a|
  {
    var s := a + "-" + rest;
    if a == [] {
      assert s[1..] == rest;
    } else {
      assert s[1..] == a[1..] + "-" + rest;
      SplitAllSegment(a[1..], rest);
      assert a == [a[0]] + a[1..];
    }
  }

  /** Dash-free parts joined with '-' split back into exactly those parts. */
  lemma {:induction false} SplitAllOfJoin(parts: seq<string>)
    requires |parts| >= 1
    requires forall i :: 0 <= i < |parts| ==> '-' !in parts[i]
    ensures SplitAll(JoinDash(parts)) == parts
    decreases |parts|
  {
    if |parts| == 1 {
      SplitAllNoDash(parts[0]);
    } else {
      SplitAllOfJoin(parts[1..]);
      SplitAllSegment(parts[0], JoinDash(parts[1..]));
    }
  }

  /** The suffix of each part from its midpoint, concatenated. */
  function SecondHalves(parts: seq<string>): string {
    if parts == [] then "" else parts[0][|parts[0]| / 2..] + SecondHalves(parts[1..])
  }

  /** `generateShortUuid`: each dash-separated segment's second half. */
  function GenerateShortUuid(uuid: string): (r: string)
    ensures '-' !in r
    ensures |r| <= |uuid|
  {
    ShortUuidBounds(uuid);
    SecondHalves(SplitDash(uuid))
  }

  lemma {:induction false} SecondHalvesBounds(parts: seq<string>)
    requires forall i :: 0 <= i < |parts| ==> '-' !in parts[i]
    ensures '-' !in SecondHalves(parts)
    ensures |SecondHalves(parts)| <= TotalLength(parts)
  {
    if parts != [] {
      SecondHalvesBounds(parts[1..]);
    }
  }

  function TotalLength(parts: seq<string>): nat {
    if parts == [] then 0 else |parts[0]| + TotalLength(parts[1..])
  }

  lemma {:induction false} SplitAllLength(s: string)
    ensures TotalLength(SplitAll(s)) + Count(s, '-') == |s|
  {
    if s != [] {
      SplitAllLength(s[1..]);
      var rest := SplitAll(s[1..]);
      if s[0] != '-' {
        assert TotalLength(rest) == |rest[0]| + TotalLength(rest[1..]);
      }
    }
  }

  lemma {:induction false} PrefixTotalLength(parts: seq<string>, n: nat)
    requires n <= |parts|
    ensures TotalLength(parts[..n]) <= TotalLength(parts)
  {
    if n > 0 {
      assert parts[..n][1..] == parts[1..][..n - 1];
      PrefixTotalLength(parts[1..], n - 1);
    }
  }

  lemma ShortUuidBounds(uuid: string)
    ensures '-' !in SecondHalves(SplitDash(uuid))
    ensures |SecondHalves(SplitDash(uuid))| <= |uuid|
  {
    var parts := SplitDash(uuid);
    SecondHalvesBounds(parts);
    if '-' in uuid {
      var all := SplitAll(uuid);
      SplitAllLength(uuid);
      PrefixTotalLength(all, |parts|);
    } else {
      assert TotalLength(parts) == |uuid| + TotalLength([]);
    }
  }

  /** The standard 8-4-4-4-12 UUID text splits into its five groups. */
  lemma UuidSplit(a: string, b: string, c: string, d: string, e: string)
    requires |a| == 8 && |e| > 0
    requires '-' !in a && '-' !in b && '-' !in c && '-' !in d && '-' !in e
    ensures SplitDash(a + "-" + b + "-" + c + "-" + d + "-" + e) == [a, b, c, d, e]
  {
    var u := a + "-" + b + "-" + c + "-" + d + "-" + e;
    DashJoinAssoc(a, b, c, d, e);
    SplitAllFive(a, b, c, d, e);
    assert u[8] == '-';
    assert DropTrailingEmpty([a, b, c, d, e]) == [a, b, c, d, e];
  }

  /** Regrouping the dash-joined text to the right. */
  lemma DashJoinAssoc(a: string, b: string, c: string, d: string, e: string)
    ensures a + "-" + b + "-" + c + "-" + d + "-" + e
            == a + "-" + (b + "-" + (c + "-" + (d + "-" + e)))
  {
  }

  /** Five dash-free groups joined by dashes split back into the groups. */
  lemma {:induction false} SplitAllFive(a: string, b: string, c: string, d: string, e: string)
    requires '-' !in a && '-' !in b && '-' !in c && '-' !in d && '-' !in e
    ensures SplitAll(a + "-" + (b + "-" + (c + "-" + (d + "-" + e)))) == [a, b, c, d, e]
  {
    SplitAllNoDash(e);
    SplitAllSegment(d, e);
    SplitAllSegment(c, d + "-" + e);
    SplitAllSegment(b, c + "-" + (d + "-" + e));
    SplitAllSegment(a, b + "-" + (c + "-" + (d + "-" + e)));
  }

  /** For the standard 8-4-4-4-12 UUID text, `generateShortUuid` gives
      4+2+2+2+6 = 16 characters: the second half of each group. */
  lemma ShortUuidShape(a: string, b: string, c: string, d: string, e: string)
    requires |a| == 8 && |b| == 4 && |c| == 4 && |d| == 4 && |e| == 12
    requires '-' !in a && '-' !in b && '-' !in c && '-' !in d && '-' !in e
    ensures var u := a + "-" + b + "-" + c + "-" + d + "-" + e;
      && GenerateShortUuid(u) == a[4..] + b[2..] + c[2..] + d[2..] + e[6..]
      && |GenerateShortUuid(u)| == 16
  {
    UuidSplit(a, b, c, d, e);
    var parts := [a, b, c, d, e];
    assert SecondHalves(parts[4..]) == e[6..] by {
      assert parts[4..] == [e] && [e][1..] == [];
    }
    assert SecondHalves(parts[3..]) == d[2..] + e[6..] by {
      assert parts[3..][1..] == parts[4..];
    }
    assert SecondHalves(parts[2..]) == c[2..] + d[2..] + e[6..] by {
      assert parts[2..][1..] == parts[3..];
    }
    assert SecondHalves(parts[1..]) == b[2..] + c[2..] + d[2..] + e[6..] by {
      assert parts[1..][1..] == parts[2..];
    }
    assert SecondHalves(parts) == a[4..] + b[2..] + c[2..] + d[2..] + e[6..];
  }

  /** Removing dashes around one dash joins the two sides. */
  lemma GenerateUuidAroundDash(x: string, y: string)
    ensures GenerateUuid(x + "-" + y) == GenerateUuid(x) + GenerateUuid(y)
  {
    assert x + "-" + y == x + ("-" + y);
    GenerateUuidAppend(x, "-" + y);
    GenerateUuidAppend("-", y);
    assert GenerateUuid("-") == "";
  }

  /** For the standard 8-4-4-4-12 UUID text, `generateUuid` gives the 32
      characters of the groups. */
  lemma UuidShape(a: string, b: string, c: string, d: string, e: string)
    requires |a| == 8 && |b| == 4 && |c| == 4 && |d| == 4 && |e| == 12
    requires '-' !in a && '-' !in b && '-' !in c && '-' !in d && '-' !in e
    ensures var u := a + "-" + b + "-" + c + "-" + d + "-" + e;
      && GenerateUuid(u) == a + b + c + d + e
      && |GenerateUuid(u)| == 32
  {
    GenerateUuidAppend(a, ""); GenerateUuidAppend(b, ""); GenerateUuidAppend(c, "");
    GenerateUuidAppend(d, ""); GenerateUuidAppend(e, "");
    var x1 := a + "-" + b;
    GenerateUuidAroundDash(a, b);
    var x2 := x1 + "-" + c;
    GenerateUuidAroundDash(x1, c);
    var x3 := x2 + "-" + d;
    GenerateUuidAroundDash(x2, d);
    GenerateUuidAroundDash(x3, e);
  }

  // ---------------------------------------------------------------- envelopes

  /** `buildParams(params)`: "[{}]" for null or blank parameters, else the
      parameters wrapped verbatim in square brackets. */
  function BuildParams(params: JString): (r: string)
    ensures StringUtil.IsBlank(params) ==> r == "[{}]"
    ensures !StringUtil.IsBlank(params) ==>
              |r| == |params.value| + 2 && r[0] == '[' && r[|r| - 1] == ']'
    ensures !StringUtil.IsBlank(params) ==> r[1..|r| - 1] == params.value
  {
    if StringUtil.IsBlank(params) then "[{}]" else "[" + params.value + "]"
  }

  /** The shape shared by the three builders that add one leading field: a
      one-field object for blank parameters, else "[{", the field, a comma and
      the parameters with their first character cut off. */
  function Envelope(field: string, params: JString): (r: string)
    ensures StringUtil.IsBlank(params) ==> r == "[{" + field + "}]"
    ensures !StringUtil.IsBlank(params) ==>
              |params.value| >= 1 && |r| >= |field| + 3
    ensures !StringUtil.IsBlank(params) ==>
              && |r| == |field| + 2 + |params.value|
              && r[..|field| + 3] == "[{" + field + ","
              && r[|field| + 3..] == params.value[1..]
  {
    if StringUtil.IsBlank(params) then "[{" + field + "}]"
    else "[{" + field + "," + params.value[1..]
  }

  /** Whatever the first character of parameters that hold a field is, it is
      dropped: two such parameters differing only there give the same text. */
  lemma EnvelopeDropsFirstChar(field: string, c: char, c': char, rest: string)
    requires !StringUtil.AllTrimmed(rest)
    ensures !StringUtil.IsBlank(Some([c] + rest)) && !StringUtil.IsBlank(Some([c'] + rest))
    ensures Envelope(field, Some([c] + rest)) == Envelope(field, Some([c'] + rest))
  {
    var k :| 0 <= k < |rest| && !StringUtil.IsTrimmed(rest[k]);
    assert ([c] + rest)[k + 1] == rest[k];
    assert ([c'] + rest)[k + 1] == rest[k];
    assert ([c] + rest)[1..] == rest;
    assert ([c'] + rest)[1..] == rest;
  }

  function BizNoField(uuid: string): string {
    "\"outBizNo\":\"" + GenerateUuid(uuid) + "\""
  }

  function TimestampField(timestamp: int): string {
    "\"timestamp\":" + JavaLang.IntToString(timestamp)
  }

  function VersionField(version: JString): string {
    "\"version\":\"" + JavaLang.Text(version) + "\""
  }

  /** `buildParamsWithBizNo(params)`, with the random UUID text as `uuid`: the
      field `"outBizNo":"<uuid without dashes>"` put in front. */
  function BuildParamsWithBizNo(params: JString, uuid: string): (r: string)
    ensures StringUtil.IsBlank(params) ==> r == "[{" + BizNoField(uuid) + "}]"
    ensures !StringUtil.IsBlank(params) ==>
              && |r| >= |BizNoField(uuid)| + 3
              && r[..|BizNoField(uuid)| + 3] == "[{" + BizNoField(uuid) + ","
              && r[|BizNoField(uuid)| + 3..] == params.value[1..]
  {
    Envelope(BizNoField(uuid), params)
  }

  /** `buildParamsWithTimestamp(params)`, with the clock reading as `timestamp`:
      the field `"timestamp":<decimal>` put in front. */
  function BuildParamsWithTimestamp(params: JString, timestamp: int): (r: string)
    ensures StringUtil.IsBlank(params) ==> r == "[{" + TimestampField(timestamp) + "}]"
    ensures !StringUtil.IsBlank(params) ==>
              && |r| >= |TimestampField(timestamp)| + 3
              && r[..|TimestampField(timestamp)| + 3] == "[{" + TimestampField(timestamp) + ","
              && r[|TimestampField(timestamp)| + 3..] == params.value[1..]
  {
    Envelope(TimestampField(timestamp), params)
  }

  /** `buildParamsWithVersion(params, version)`: the field `"version":"<v>"` put
      in front; a null version prints as "null". */
  function BuildParamsWithVersion(params: JString, version: JString): (r: string)
    ensures StringUtil.IsBlank(params) ==> r == "[{" + VersionField(version) + "}]"
    ensures !StringUtil.IsBlank(params) ==>
              && |r| >= |VersionField(version)| + 3
              && r[..|VersionField(version)| + 3] == "[{" + VersionField(version) + ","
              && r[|VersionField(version)| + 3..] == params.value[1..]
  {
    Envelope(VersionField(version), params)
  }

  /** Non-blank parameters are recovered from `buildParams` by removing the
      brackets. */
  lemma BuildParamsRoundTrip(p: string)
    requires !StringUtil.IsBlank(Some(p))
    ensures var r := BuildParams(Some(p)); |r| >= 2 && r[1..|r| - 1] == p
  {
  }

  // ---------------------------------------------------------------- finding

  /** A JSON array holding one object: "[{" … "}]". */
  predicate IsObjectArray(r: string) {
    |r| >= 4 && r[..2] == "[{" && r[|r| - 2..] == "}]"
  }

  /** The callers pass a bare field list such as `"k":1` (no braces). As
      written, `buildParams` then yields `["k":1]`, which is not an array of
      one object, and the one-field envelopes cut the opening quote of the
      first key and never close the object or the array. */
  lemma CallerShapeBreaksEnvelopes(field: string)
    ensures BuildParams(Some("\"k\":1")) == "[\"k\":1]"
    ensures !IsObjectArray(BuildParams(Some("\"k\":1")))
    ensures Envelope(field, Some("\"k\":1")) == "[{" + field + ",k\":1"
    ensures !IsObjectArray(Envelope(field, Some("\"k\":1")))
  {
    var p: string := "\"k\":1";
    assert !StringUtil.IsTrimmed(p[0]);
    var r := Envelope(field, Some(p));
    assert r[|r| - 2..] == "\":1"[1..] by {
      assert r == "[{" + field + "," + p[1..];
    }
  }

  /** Corrected `buildParams`: the field list wrapped as one object in an array. */
  function BuildParamsFixed(params: JString): (r: string)
    ensures IsObjectArray(r)
    ensures !StringUtil.IsBlank(params) ==> r[2..|r| - 2] == params.value
    ensures StringUtil.IsBlank(params) ==> r == "[{}]"
  {
    if StringUtil.IsBlank(params) then "[{}]" else "[{" + params.value + "}]"
  }

  /** Corrected one-field envelope: the field, then the caller's fields, in
      one object. */
  function EnvelopeFixed(field: string, params: JString): (r: string)
    ensures IsObjectArray(r)
  {
    if StringUtil.IsBlank(params) then "[{" + field + "}]"
    else "[{" + (field + "," + params.value) + "}]"
  }

  /** The corrected envelope is exactly the corrected `buildParams` of the
      field list with the extra field put first, so no caller field is lost. */
  lemma EnvelopeFixedPrependsField(field: string, params: JString)
    ensures !StringUtil.IsBlank(params) ==>
              EnvelopeFixed(field, params) == BuildParamsFixed(Some(field + "," + params.value))
    ensures StringUtil.IsBlank(params) && !StringUtil.IsBlank(Some(field)) ==>
              EnvelopeFixed(field, params) == BuildParamsFixed(Some(field))
  {
    if !StringUtil.IsBlank(params) {
      var t := field + "," + params.value;
      assert t[|field|] == ',';
      assert !StringUtil.AllTrimmed(t);
      assert BuildParamsFixed(Some(t)) == "[{" + t + "}]";
    } else if !StringUtil.IsBlank(Some(field)) {
      assert EnvelopeFixed(field, params) == "[{" + field + "}]";
    }
  }
}
