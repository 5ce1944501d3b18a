/**
 * The few pieces of Java's own semantics the utilities rely on: truncating
 * integer division and remainder on `long`, the `(int)`/`(long)` cast of a
 * floating value, decimal rendering of integers (`String.valueOf(long)`,
 * `"%d"`, string concatenation) and the text `"null"` that concatenation
 * produces for a null reference.
 */
module JavaLang {
  import opened Wrappers

  /** Java's `a / b` on integers for a positive divisor: the quotient rounded
      toward zero. */
  function Div(a: int, b: int): (q: int)
    requires b > 0
    ensures a >= 0 ==> q == a / b && q >= 0
    ensures a >= 0 ==> q * b <= a < q * b + b
    ensures a < 0 ==> q <= 0 && q * b - b < a <= q * b
  {
    if a >= 0 then
      EuclidBounds(a, b);
      a / b
    else
      EuclidBounds(-a, b);
      -((-a) / b)
  }

  /** Java's `a % b` on integers for a positive divisor: the remainder takes the
      sign of `a`. */
  function Rem(a: int, b: int): (r: int)
    requires b > 0
    ensures Div(a, b) * b + r == a
    ensures a >= 0 ==> 0 <= r < b && r == a % b
    ensures a < 0 ==> -b < r <= 0
  {
    a - Div(a, b) * b
  }

  lemma EuclidBounds(a: nat, b: nat)
    requires b > 0
    ensures (a / b) * b <= a < (a / b) * b + b
    ensures a / b >= 0
  {
    assert a == (a / b) * b + a % b;
  }

  /** Dividing by `b` and then by `c` is dividing by `b * c` (non-negative operands). */
  lemma DivDiv(a: nat, b: nat, c: nat)
    requires b > 0 && c > 0
    ensures (a / b) / c == a / (b * c)
  {
    var q := a / b;
    var q2 := q / c;
    var r1 := a % b;
    var r2 := q % c;
    assert a == q * b + r1;
    assert q == q2 * c + r2;
    MulAssoc(q2, c, b, r2);
    assert q * b == q2 * (b * c) + r2 * b;
    assert r2 <= c - 1;
    MulMono(r2, c - 1, b);
    assert (c - 1) * b == b * c - b;
    DivUnique(a, b * c, q2, r2 * b + r1);
  }

  lemma MulAssoc(q2: int, c: int, b: int, r2: int)
    ensures (q2 * c + r2) * b == q2 * (b * c) + r2 * b
  {
  }

  lemma MulMono(x: int, y: int, d: nat)
    requires x <= y
    ensures x * d <= y * d
  {
    assert y * d - x * d == (y - x) * d;
  }

  /** Quotient and remainder are determined by the division identity. */
  lemma DivUnique(a: nat, d: nat, q: nat, r: nat)
    requires d > 0 && r < d && a == q * d + r
    ensures a / d == q && a % d == r
  {
    var q' := a / d;
    var r' := a % d;
    assert a == q' * d + r';
    if q' < q {
      assert (q' + 1) * d == q' * d + d;
      MulMono(q' + 1, q, d);
    } else if q' > q {
      assert (q + 1) * d == q * d + d;
      MulMono(q + 1, q', d);
    }
  }

  /** Java's `(long)` or `(int)` cast of a floating value, read over the reals:
      truncation toward zero (saturation at the type's bounds is not modelled). */
  function Truncate(x: real): (r: int)
    ensures r as real <= x < r as real + 1.0 || r as real - 1.0 < x <= r as real
    ensures x >= 0.0 ==> 0 <= r && r as real <= x
    ensures x <= 0.0 ==> r <= 0 && x <= r as real
  {
    if x >= 0.0 then x.Floor else -((-x).Floor)
  }

  function DigitChar(d: nat): (c: char)
    requires d < 10
    ensures '0' <= c <= '9'
  {
    "0123456789"[d]
  }

  function DigitValue(c: char): (d: nat)
    requires '0' <= c <= '9'
    ensures d < 10 && DigitChar(d) == c
  {
    (c as int - '0' as int)
  }

  predicate IsDigits(s: string) {
    forall i :: 0 <= i < |s| ==> '0' <= s[i] <= '9'
  }

  /** Decimal text of a natural number, most significant digit first. */
  function NatToString(n: nat): (s: string)
    ensures |s| >= 1 && IsDigits(s)
    ensures |s| > 1 ==> s[0] != '0'
  {
    if n < 10 then [DigitChar(n)] else NatToString(n / 10) + [DigitChar(n % 10)]
  }

  /** Java's decimal rendering of a `long` (`String.valueOf`, `"" + n`, `%d`). */
  function IntToString(i: int): (s: string)
    ensures |s| >= 1
    ensures i >= 0 ==> IsDigits(s)
    ensures i < 0 <==> s[0] == '-'
  {
    if i < 0 then "-" + NatToString(-i) else NatToString(i)
  }

  /** Reads a run of decimal digits back as a number. */
  function ParseDigits(s: string): nat
    requires IsDigits(s)
  {
    if s == [] then 0 else ParseDigits(s[..|s| - 1]) * 10 + DigitValue(s[|s| - 1])
  }

  /** Reads Java's decimal text of a `long` back. */
  function ParseInt(s: string): (i: int)
    requires |s| >= 1
    requires s[0] == '-' ==> IsDigits(s[1..])
    requires s[0] != '-' ==> IsDigits(s)
  {
    if s[0] == '-' then 0 - ParseDigits(s[1..]) else ParseDigits(s)
  }

  lemma DigitRoundTrip(d: nat)
    requires d < 10
    ensures DigitValue(DigitChar(d)) == d
  {
  }

  /** Decimal rendering of a natural number is undone by parsing. */
  lemma {:induction false} NatToStringRoundTrip(n: nat)
    ensures ParseDigits(NatToString(n)) == n
  {
    var s := NatToString(n);
    if n < 10 {
      DigitRoundTrip(n);
      assert s[..|s| - 1] == [];
    } else {
      NatToStringRoundTrip(n / 10);
      DigitRoundTrip(n % 10);
      assert s[..|s| - 1] == NatToString(n / 10);
    }
  }

  /** Decimal rendering of a `long` is undone by parsing, so it is injective. */
  lemma IntToStringRoundTrip(i: int)
    ensures var s := IntToString(i); ParseInt(s) == i
  {
    if i < 0 {
      NatToStringRoundTrip(-i);
      ParseNegative(NatToString(-i));
    } else {
      NatToStringRoundTrip(i);
    }
  }

  /** A minus sign before digits negates their value. */
  lemma ParseNegative(t: string)
    requires |t| >= 1 && IsDigits(t)
    ensures ParseInt("-" + t) == 0 - ParseDigits(t)
  {
    assert ("-" + t)[1..] == t;
  }

  lemma IntToStringInjective(a: int, b: int)
    requires IntToString(a) == IntToString(b)
    ensures a == b
  {
    IntToStringRoundTrip(a);
    IntToStringRoundTrip(b);
  }

  /** The text Java's string concatenation produces for a possibly-null string. */
  function Text(s: Option<string>): (r: string)
    ensures s.Some? ==> r == s.value
    ensures s.None? ==> r == "null"
  {
    match s
    case Some(v) => v
    case None => "null"
  }
}
