/** Decimal renderings of numbers, as JavaScript's `Number.prototype.toString` and `toFixed` produce them. */
module Decimal {

  predicate IsDigit(c: char) {
    '0' <= c <= '9'
  }

  predicate AllDigits(s: string) {
    forall i :: 0 <= i < |s| ==> IsDigit(s[i])
  }

  function DigitValue(c: char): (d: nat)
    requires IsDigit(c)
    ensures d < 10
  {
    c as int - '0' as int
  }

  function DigitChar(d: nat): (c: char)
    requires d < 10
    ensures IsDigit(c) && DigitValue(c) == d
  {
    ('0' as int + d) as char
  }

  function Pow10(d: nat): (p: nat)
    ensures p >= 1
  {
    if d == 0 then 1 else 10 * Pow10(d - 1)
  }

  /** The shortest decimal rendering of a non-negative integer. */
  function NatToString(n: nat): (s: string)
    ensures |s| >= 1 && AllDigits(s)
    ensures s[0] == '0' ==> n == 0
  {
    if n < 10 then [DigitChar(n)] else NatToString(n / 10) + [DigitChar(n % 10)]
  }

  /** `String(n)` for an integer: a minus sign before the digits of a negative number. */
  function IntToString(n: int): (s: string)
    ensures |s| >= 1 && (IsDigit(s[0]) || s[0] == '-')
  {
    if n < 0 then "-" + NatToString(-n) else NatToString(n)
  }

  /** The value of a string of decimal digits (most significant first). */
  function ParseNat(s: string): nat
    requires AllDigits(s)
  {
    if s == [] then 0 else ParseNat(s[..|s| - 1]) * 10 + DigitValue(s[|s| - 1])
  }

  lemma {:induction false} ParseNatToString(n: nat)
    ensures ParseNat(NatToString(n)) == n
  {
    var s := NatToString(n);
    if n >= 10 {
      assert s[..|s| - 1] == NatToString(n / 10);
      ParseNatToString(n / 10);
    }
  }

  /** `s` with every '.' deleted. */
  function DropDots(s: string): (t: string)
    ensures '.' !in t && |t| <= |s|
  {
    if s == [] then []
    else (if s[0] == '.' then [] else [s[0]]) + DropDots(s[1..])
  }

  lemma {:induction false} DropDotsAppend(a: string, b: string)
    ensures DropDots(a + b) == DropDots(a) + DropDots(b)
  {
    if a == [] {
      assert a + b == b;
    } else {
      var head := if a[0] == '.' then [] else [a[0]];
      calc {
        DropDots(a + b);
        { assert (a + b)[0] == a[0]; assert (a + b)[1..] == a[1..] + b; }
        head + DropDots(a[1..] + b);
        { DropDotsAppend(a[1..], b); }
        head + (DropDots(a[1..]) + DropDots(b));
        (head + DropDots(a[1..])) + DropDots(b);
      }
    }
  }

  lemma {:induction false} DropDotsNoDot(s: string)
    requires '.' !in s
    ensures DropDots(s) == s
  {
    if s != [] {
      DropDotsNoDot(s[1..]);
    }
  }

  lemma DigitsHaveNoDot(s: string)
    requires AllDigits(s)
    ensures '.' !in s
  {
  }

  function Zeros(k: nat): (z: string)
    ensures |z| == k && AllDigits(z)
  {
    if k == 0 then "" else Zeros(k - 1) + "0"
  }

  lemma {:induction false} ZerosParse(k: nat)
    ensures ParseNat(Zeros(k)) == 0
  {
    if k > 0 {
      assert Zeros(k)[..k - 1] == Zeros(k - 1);
      ZerosParse(k - 1);
    }
  }

  /** ParseNat ignores leading zeros. */
  lemma {:induction false} ParseNatLeadingZeros(k: nat, s: string)
    requires AllDigits(s)
    ensures AllDigits(Zeros(k) + s) && ParseNat(Zeros(k) + s) == ParseNat(s)
  {
    var t := Zeros(k) + s;
    assert AllDigits(t) by {
      forall i | 0 <= i < |t| ensures IsDigit(t[i]) {
        if i < k { assert t[i] == Zeros(k)[i]; } else { assert t[i] == s[i - k]; }
      }
    }
    if s == [] {
      assert t == Zeros(k);
      ZerosParse(k);
    } else {
      assert t[..|t| - 1] == Zeros(k) + s[..|s| - 1];
      assert t[|t| - 1] == s[|s| - 1];
      ParseNatLeadingZeros(k, s[..|s| - 1]);
    }
  }

  lemma DropDotsSingle(c: char)
    ensures DropDots([c]) == if c == '.' then [] else [c]
  {
    assert [c][1..] == [];
  }

  /** Deleting the dots around one "." before a dot-free tail. */
  lemma DropDotsJoin(a: string, b: string)
    requires '.' !in b
    ensures DropDots(a + "." + b) == DropDots(a) + b
  {
    DropDotsAppend(a + ".", b);
    DropDotsAppend(a, ".");
    DropDotsSingle('.');
    DropDotsNoDot(b);
  }

  /** Deleting the one point between two digit strings joins them. */
  lemma DropPoint(a: string, b: string)
    requires AllDigits(a) && AllDigits(b)
    ensures DropDots(a + "." + b) == a + b
  {
    DigitsHaveNoDot(a);
    DigitsHaveNoDot(b);
    DropDotsNoDot(a);
    DropDotsJoin(a, b);
  }

  /** The digits `toFixed` pads `units` to: leading zeros up to at least `d + 1` digits. */
  function Padded(units: nat, d: nat): (p: string)
    ensures AllDigits(p) && |p| >= d + 1 && ParseNat(p) == units
  {
    var m := NatToString(units);
    ParseNatToString(units);
    if |m| <= d then
      ParseNatLeadingZeros(d + 1 - |m|, m);
      Zeros(d + 1 - |m|) + m
    else m
  }

  /** The digits `toFixed(d)` writes for the rounded magnitude `units / 10^d`: integer digits
      (at least one), then, when `d > 0`, a '.' and exactly `d` fraction digits. */
  function FixedDigits(units: nat, d: nat): (s: string)
    ensures d == 0 ==> s == NatToString(units)
    ensures d > 0 ==> |s| >= d + 2 && s[|s| - 1 - d] == '.'
                      && AllDigits(s[..|s| - 1 - d]) && AllDigits(s[|s| - d..])
    ensures |s| >= 1 && IsDigit(s[0]) && IsDigit(s[|s| - 1])
  {
    var padded := Padded(units, d);
    if d == 0 then NatToString(units)
    else
      var s := padded[..|padded| - d] + "." + padded[|padded| - d..];
      assert s[..|s| - 1 - d] == padded[..|padded| - d];
      assert s[|s| - d..] == padded[|padded| - d..];
      s
  }

  /** Removing the point from the `toFixed` layout gives back digits whose value is `units`. */
  lemma FixedDigitsValue(units: nat, d: nat)
    ensures DropDots(FixedDigits(units, d)) == Padded(units, d)
    ensures AllDigits(DropDots(FixedDigits(units, d)))
    ensures ParseNat(DropDots(FixedDigits(units, d))) == units
  {
    var padded := Padded(units, d);
    var s := FixedDigits(units, d);
    if d == 0 {
      DigitsHaveNoDot(NatToString(units));
      DropDotsNoDot(NatToString(units));
    } else {
      var a, b := padded[..|padded| - d], padded[|padded| - d..];
      assert s == a + "." + b;
      assert padded == a + b;
      DropPoint(a, b);
    }
  }

  /** The integer part of the `toFixed` layout has no leading zero: a '0' in front is the whole
      integer part. */
  lemma FixedDigitsLeading(units: nat, d: nat)
    ensures var s := FixedDigits(units, d);
            s[0] == '0' ==> (d == 0 && s == "0") || (d > 0 && |s| >= 2 && s[1] == '.')
  {
    var s := FixedDigits(units, d);
    var m := NatToString(units);
    if s[0] == '0' && d == 0 {
      assert units == 0;
      assert m == [DigitChar(0)];
    } else if d > 0 && |m| <= d {
      var padded := Padded(units, d);
      assert |padded| == d + 1;
      assert s == padded[..1] + "." + padded[1..];
    }
  }

  /** The exponent and mantissa left once trailing fraction zeros are dropped:
      `u / 10^d == r.0 / 10^r.1`, with no zero left at the end of the fraction. */
  function Shortest(u: nat, d: nat): (r: (nat, nat))
    ensures r.1 <= d && r.0 * Pow10(d - r.1) == u
    ensures r.1 == 0 || r.0 % 10 != 0
  {
    if d > 0 && u % 10 == 0 then
      var r := Shortest(u / 10, d - 1);
      assert Pow10(d - r.1) == 10 * Pow10(d - 1 - r.1);
      r
    else (u, d)
  }

  /** `Number.prototype.toString` of the exact value `u / 10^d`: the `toFixed` layout of the
      same value with the trailing fraction zeros (and a bare point) removed. */
  function NumberString(u: nat, d: nat): (s: string)
    ensures |s| >= 1 && IsDigit(s[0])
  {
    var r := Shortest(u, d);
    FixedDigits(r.0, r.1)
  }

  lemma NatToStringLast(n: nat)
    ensures NatToString(n)[|NatToString(n)| - 1] == DigitChar(n % 10)
  {
  }

  lemma PaddedLast(units: nat, d: nat)
    ensures Padded(units, d)[|Padded(units, d)| - 1] == NatToString(units)[|NatToString(units)| - 1]
  {
  }

  lemma FixedDigitsLast(units: nat, d: nat)
    ensures FixedDigits(units, d)[|FixedDigits(units, d)| - 1] == Padded(units, d)[|Padded(units, d)| - 1]
  {
    var padded := Padded(units, d);
    if d > 0 {
      var s := padded[..|padded| - d] + "." + padded[|padded| - d..];
      assert s[|s| - 1] == padded[|padded| - 1];
    } else if |NatToString(units)| <= d {
    }
  }

  /** The Number rendering of `u / 10^d`: its digits, point removed, read as the mantissa
      `r.0` of `u == r.0 * 10^(d - r.1)`; exactly `r.1` digits follow the point, and the last
      of them is not a zero; without a fraction there is no point at all; and a leading '0' is
      the whole integer part. */
  lemma NumberStringShortest(u: nat, d: nat)
    ensures var s := NumberString(u, d);
            var r := Shortest(u, d);
            && r.1 <= d && r.0 * Pow10(d - r.1) == u
            && AllDigits(DropDots(s)) && ParseNat(DropDots(s)) == r.0
            && (r.1 == 0 ==> s == NatToString(r.0))
            && (r.1 > 0 ==> s[|s| - 1 - r.1] == '.' && AllDigits(s[|s| - r.1..]) && s[|s| - 1] != '0')
            && (s[0] == '0' ==> (r.1 == 0 && s == "0") || (r.1 > 0 && |s| >= 2 && s[1] == '.'))
  {
    var r := Shortest(u, d);
    FixedDigitsValue(r.0, r.1);
    FixedDigitsLeading(r.0, r.1);
    if r.1 > 0 {
      FixedDigitsLast(r.0, r.1);
      PaddedLast(r.0, r.1);
      NatToStringLast(r.0);
      assert DigitValue(DigitChar(r.0 % 10)) != 0;
    }
  }
}
