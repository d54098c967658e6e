/** The percentage helpers: `getPercentage`, `getIncreaseDecreasePercentage`, `getPercentageStr`
    and the KPI arrow chosen from the sign of a change. */
module Metrics {
  import opened Decimal

  /** A number read from the API. `Missing` stands for `undefined` and `NaN`. */
  datatype Num = Missing | Num(n: int)

  /** JavaScript truthiness of a number: missing values and 0 are both falsy. */
  predicate Falsy(x: Num) {
    x.Missing? || x.n == 0
  }

  /** JavaScript `a - b`: NaN as soon as one side is missing. */
  function Minus(a: Num, b: Num): Num {
    if a.Missing? || b.Missing? then Missing else Num(a.n - b.n)
  }

  /** What `getPercentage` returns: `NaN`, or the string `toFixed(decimals)` produced, held as
      its sign mark (`neg`, set when the unrounded value was below zero) and the rounded
      magnitude `units / 10^decimals`. */
  datatype Pct = NaN | Fixed(neg: bool, units: nat, decimals: nat)

  function Magnitude(p: Pct): (m: real)
    requires p.Fixed?
    ensures m >= 0.0 && (m > 0.0 <==> p.units > 0)
  {
    PositiveQuotient(p.units, Pow10(p.decimals));
    p.units as real / Pow10(p.decimals) as real
  }

  lemma PositiveQuotient(u: nat, q: nat)
    requires q >= 1
    ensures u as real / q as real >= 0.0
    ensures u as real / q as real > 0.0 <==> u > 0
  {
    var x := u as real / q as real;
    assert x * q as real == u as real;
  }

  /** The number the string stands for when JavaScript compares it with a number. */
  function Value(p: Pct): real
    requires p.Fixed?
  {
    if p.neg then -Magnitude(p) else Magnitude(p)
  }

  function Abs(x: real): (a: real)
    ensures a >= 0.0 && (a == x || a == -x)
  {
    if x < 0.0 then -x else x
  }

  /** `x` is what the `toFixed` result `p` stands for: the sign mark is the sign of `x`, and
      `units` is the integer nearest to `|x| * 10^decimals`, the larger one on a tie. */
  ghost predicate RoundsTo(x: real, p: Pct) {
    p.Fixed?
    && p.neg == (x < 0.0)
    && p.units as real - 0.5 <= Abs(x) * Pow10(p.decimals) as real < p.units as real + 0.5
  }

  /** `Number.prototype.toFixed(d)` on the exact value `x`. */
  function ToFixed(x: real, d: nat): (p: Pct)
    ensures p.Fixed? && p.decimals == d && RoundsTo(x, p)
  {
    var y := Abs(x) * Pow10(d) as real;
    assert y >= 0.0;
    var u := (y + 0.5).Floor;
    assert u >= 0;
    Fixed(x < 0.0, u, d)
  }

  /** `u` is at least as close to `y` as `v` is, and is the larger of the two on a tie. */
  ghost predicate AsNearAs(u: int, y: real, v: int) {
    Abs(u as real - y) <= Abs(v as real - y)
    && (Abs(u as real - y) == Abs(v as real - y) ==> v <= u)
  }

  /** The rounding `toFixed` performs is to the nearest integer, ties going to the larger one. */
  lemma ToFixedNearest(x: real, d: nat, v: int)
    ensures AsNearAs(ToFixed(x, d).units, Abs(x) * Pow10(d) as real, v)
  {
    var p := ToFixed(x, d);
    var y := Abs(x) * Pow10(d) as real;
    var u := p.units;
    assert RoundsTo(x, p);
    assert u as real - 0.5 <= y < u as real + 0.5;
    assert Abs(u as real - y) <= 0.5;
    if v < u {
      assert v as real <= u as real - 1.0;
      assert v as real - y <= -0.5;
    } else if v > u {
      assert v as real >= u as real + 1.0;
      assert v as real - y >= 0.5;
    }
    assert AsNearAs(u, y, v);
  }

  /** `value * 100 / base` over the exact reals. */
  function Ratio(base: int, value: int): real
    requires base != 0
  {
    (value as real * 100.0) / base as real
  }

  lemma RatioSign(base: int, value: int)
    requires base != 0
    ensures value != 0 ==> (Ratio(base, value) < 0.0 <==> (value < 0) != (base < 0))
    ensures Ratio(base, value) == 0.0 <==> value == 0
  {
    var r, b, a := Ratio(base, value), base as real, value as real * 100.0;
    assert r * b == a;
    if b > 0.0 {
      if r < 0.0 { assert r * b < 0.0; }
      if r > 0.0 { assert r * b > 0.0; }
    } else {
      if r < 0.0 { assert r * b > 0.0; }
      if r > 0.0 { assert r * b < 0.0; }
    }
  }

  /** `getPercentage(base, value, decimals)`: NaN when either argument is falsy, otherwise
      `value * 100 / base` rounded by `toFixed(decimals)`. */
  function Percentage(base: Num, value: Num, decimals: nat): (p: Pct)
    ensures p.NaN? <==> Falsy(base) || Falsy(value)
    ensures p.Fixed? ==> p.decimals == decimals && RoundsTo(Ratio(base.n, value.n), p)
    ensures p.Fixed? ==> (p.neg <==> (value.n < 0) != (base.n < 0))
  {
    if Falsy(base) || Falsy(value) then NaN
    else
      RatioSign(base.n, value.n);
      ToFixed(Ratio(base.n, value.n), decimals)
  }

  /** `getIncreaseDecreasePercentage(oldValue, newValue, decimals)`, which is `getPercentage(oldValue, oldValue - newValue)`:
      the change is unknown when the previous value is falsy, the latest one is missing or nothing
      changed, and its sign is inverted: an increase is marked negative. */
  function IncreaseDecrease(previous: Num, latest: Num, decimals: nat): (p: Pct)
    ensures p.NaN? <==> Falsy(previous) || latest.Missing? || previous.n == latest.n
    ensures p.Fixed? ==> p.decimals == decimals && RoundsTo(Ratio(previous.n, previous.n - latest.n), p)
    ensures p.Fixed? && previous.n > 0 ==> (p.neg <==> latest.n > previous.n)
    ensures p.Fixed? && previous.n > 0 && latest.n < previous.n ==> Value(p) >= 0.0
  {
    Percentage(previous, Minus(previous, latest), decimals)
  }

  lemma ValueNegative(p: Pct)
    requires p.Fixed?
    ensures Value(p) < 0.0 <==> p.neg && p.units > 0
  {
  }

  datatype Arrow = UpArrow | DownArrow

  /** The KPI arrow: `(percentage < 0) ? "downArrow" : "upArrow"`; a NaN fails the comparison. */
  function KpiArrow(p: Pct): (a: Arrow)
    ensures a == DownArrow <==> p.Fixed? && p.neg && p.units > 0
  {
    if p.Fixed? && Value(p) < 0.0 then DownArrow else UpArrow
  }

  /** With a positive previous value the arrow points down only on an increase, and an
      unchanged or falling value always gets the up arrow. An increase too small to survive
      the rounding (`-0.00`) also gets the up arrow. */
  lemma KpiArrowTrend(previous: Num, latest: Num, decimals: nat)
    requires previous.Num? && previous.n > 0 && latest.Num?
    ensures KpiArrow(IncreaseDecrease(previous, latest, decimals)) == DownArrow ==> latest.n > previous.n
    ensures latest.n <= previous.n ==> KpiArrow(IncreaseDecrease(previous, latest, decimals)) == UpArrow
  {
  }

  // ---------------------------------------------------------------------------------------
  // Rendering.

  /** The string `toFixed` returned: a "-" for a negative input, then the digits. */
  function FixedString(p: Pct): string
    requires p.Fixed?
  {
    (if p.neg then "-" else "") + FixedDigits(p.units, p.decimals)
  }

  /** Whether `s` begins with a minus sign directly followed by a digit. */
  predicate MinusBeforeDigit(s: string) {
    |s| >= 2 && s[0] == '-' && IsDigit(s[1])
  }

  /** `getPercentageStr` as written: "Unknown" for NaN, "- |p|%" when the value compares below
      zero (the magnitude goes through Number's own rendering), otherwise the `toFixed` string
      and "%". A negative value that rounded to zero keeps its "-" directly before the digits. */
  function PercentageStr(p: Pct): (s: string)
    ensures s == "Unknown" <==> p.NaN?
    ensures p.Fixed? ==> |s| >= 2 && s[|s| - 1] == '%'
    ensures MinusBeforeDigit(s) <==> p.Fixed? && p.neg && p.units == 0
  {
    if p.NaN? then "Unknown"
    else if Value(p) < 0.0 then SignedStr(p)
    else
      ValueNegative(p);
      FixedStringShown(p);
      FixedString(p) + "%"
  }

  /** The `toFixed` string and "%" for a value that does not compare below zero: it starts with
      a "-" before a digit exactly when a negative value rounded to zero. */
  lemma FixedStringShown(p: Pct)
    requires p.Fixed? && !(p.neg && p.units > 0)
    ensures var s := FixedString(p) + "%";
            && |s| >= 2 && s[|s| - 1] == '%' && s != "Unknown" && s[..2] != "- "
            && (MinusBeforeDigit(s) <==> p.neg)
  {
    var digits := FixedDigits(p.units, p.decimals);
    var s := FixedString(p) + "%";
    assert "Unknown"[0] == 'U';
    if p.neg {
      assert s == "-" + digits + "%";
      assert s[0] == '-' && s[1] == digits[0];
    } else {
      assert s == digits + "%";
      assert s[0] == digits[0] && s[..2][0] == s[0];
    }
  }

  /** A rise of 1 on 100000 is -0.001 %, which `toFixed(2)` writes as "-0.00", and the page shows
      "-0.00%" with the up arrow. */
  lemma NegativeZeroShown()
    ensures IncreaseDecrease(Num(100000), Num(100001), 2) == Fixed(true, 0, 2)
    ensures PercentageStr(Fixed(true, 0, 2)) == "-0.00%"
    ensures KpiArrow(Fixed(true, 0, 2)) == UpArrow
  {
    var p := IncreaseDecrease(Num(100000), Num(100001), 2);
    assert Ratio(100000, -1) == -0.001;
    assert Pow10(2) == 100;
    assert Abs(-0.001) * 100.0 == 0.1;
    assert p.units == 0;
    assert NatToString(0) == "0";
    assert Zeros(2) == "00";
    assert Padded(0, 2) == "000";
    assert FixedDigits(0, 2) == "0.00";
  }

  /** The negative branch of `getPercentageStr`: "- ", Number's rendering of the magnitude, "%". */
  function SignedStr(p: Pct): (s: string)
    requires p.Fixed? && Value(p) < 0.0
    ensures |s| >= 2 && s[..2] == "- " && s[|s| - 1] == '%'
    ensures !MinusBeforeDigit(s) && s != "Unknown"
  {
    var s := "- " + NumberString(p.units, p.decimals) + "%";
    assert s[0] == '-' && s[1] == ' ';
    s
  }

  /** `getPercentageStr` with the sign of a zero-valued result dropped, so that every value that
      does not compare below zero is shown without a sign. */
  function PercentageStrFixed(p: Pct): (s: string)
    ensures s == "Unknown" <==> p.NaN?
    ensures !MinusBeforeDigit(s)
    ensures p.Fixed? ==> |s| >= 2 && s[|s| - 1] == '%'
    ensures p.Fixed? ==> (s[..2] == "- " <==> Value(p) < 0.0)
    ensures p.Fixed? && Value(p) >= 0.0 ==> s == FixedDigits(p.units, p.decimals) + "%"
    ensures p.Fixed? && Value(p) < 0.0 ==> s == "- " + NumberString(p.units, p.decimals) + "%"
    ensures !(p.Fixed? && p.neg && p.units == 0) ==> s == PercentageStr(p)
  {
    if p.NaN? then "Unknown"
    else if Value(p) < 0.0 then SignedStr(p)
    else
      ValueNegative(p);
      var unsigned := p.(neg := false);
      FixedStringShown(unsigned);
      assert FixedString(unsigned) == FixedDigits(p.units, p.decimals);
      assert !p.neg ==> unsigned == p;
      FixedString(unsigned) + "%"
  }

  /** A negative value loses its trailing fraction zeros. */
  lemma PercentageStrNegativeExample()
    ensures PercentageStrFixed(Fixed(true, 1250, 2)) == "- 12.5%"
  {
    assert Shortest(125, 1) == (125, 1);
    assert Shortest(1250, 2) == (125, 1);
    assert NatToString(12) == "12";
    assert NatToString(125) == "125";
    assert Padded(125, 1) == "125";
    assert FixedDigits(125, 1) == "12.5";
    assert Value(Fixed(true, 1250, 2)) < 0.0;
  }

  /** A non-negative value keeps the `toFixed` layout. */
  lemma PercentageStrPositiveExample()
    ensures PercentageStrFixed(Fixed(false, 700, 2)) == "7.00%"
  {
    assert NatToString(70) == "70";
    assert NatToString(700) == "700";
    assert Padded(700, 2) == "700";
    assert FixedDigits(700, 2) == "7.00";
  }
}
