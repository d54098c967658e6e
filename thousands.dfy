/** The thousands separator the table and KPI cells apply to a count:
    `n.toString().replace(/\B(?=(\d{3})+(?!\d))/g, ".")`. */
module Thousands {
  import opened Decimal

  /** A character the regex class `\w` accepts. */
  predicate IsWordChar(c: char) {
    IsDigit(c) || ('a' <= c <= 'z') || ('A' <= c <= 'Z') || c == '_'
  }

  /** `\B` at position `i`: both neighbours are word characters, or neither is. */
  predicate NonBoundary(s: string, i: nat)
    requires i <= |s|
  {
    (i > 0 && IsWordChar(s[i - 1])) == (i < |s| && IsWordChar(s[i]))
  }

  /** The length of the run of digits that starts at position `i`. */
  function DigitRun(s: string, i: nat): (r: nat)
    requires i <= |s|
    ensures i + r <= |s|
    decreases |s| - i
  {
    if i < |s| && IsDigit(s[i]) then 1 + DigitRun(s, i + 1) else 0
  }

  /** The look-ahead `(?=(\d{3})+(?!\d))` at position `i`: the digits that follow form whole
      groups of three and are not followed by a further digit. */
  predicate GroupsAhead(s: string, i: nat)
    requires i <= |s|
  {
    var r := DigitRun(s, i);
    r > 0 && r % 3 == 0
  }

  /** Whether the (empty) pattern matches at position `i`, where the global replace inserts ".". */
  predicate MatchAt(s: string, i: nat)
    requires i <= |s|
  {
    NonBoundary(s, i) && GroupsAhead(s, i)
  }

  /** The output of the global replace for positions `0 .. j - 1`: at each position a "." if the
      pattern matches there, then the character itself. */
  function ReplaceUpTo(s: string, j: nat): string
    requires j <= |s|
  {
    if j == 0 then []
    else ReplaceUpTo(s, j - 1) + (if MatchAt(s, j - 1) then "." else "") + [s[j - 1]]
  }

  /** The whole replace, including a possible match at the end of the string. On any string it
      only inserts dots: deleting every "." from the output gives back the input with its own
      dots deleted. */
  function RegexSeparate(s: string): (r: string)
    ensures DropDots(r) == DropDots(s)
  {
    ReplaceUpToDropDots(s, |s|);
    assert s[..|s|] == s;
    assert DigitRun(s, |s|) == 0 && !MatchAt(s, |s|);
    assert ReplaceUpTo(s, |s|) + "" == ReplaceUpTo(s, |s|);
    ReplaceUpTo(s, |s|) + (if MatchAt(s, |s|) then "." else "")
  }

  /** The string a count is shown as in the table and KPI cells: deleting the dots gives back
      the count's decimal digits, with its sign. */
  function FormatCount(n: int): (r: string)
    ensures DropDots(r) == IntToString(n)
  {
    IntToStringNoDot(n);
    DropDotsNoDot(IntToString(n));
    RegexSeparate(IntToString(n))
  }

  lemma IntToStringNoDot(n: int)
    ensures '.' !in IntToString(n)
  {
    var s := IntToString(n);
    if n < 0 {
      DigitsHaveNoDot(NatToString(-n));
      assert s == "-" + NatToString(-n);
    } else {
      DigitsHaveNoDot(NatToString(n));
    }
  }

  /** The intended layout on a digit string: groups of three, counted from the right. */
  function Group(s: string): string {
    if |s| <= 3 then s else Group(s[..|s| - 3]) + "." + s[|s| - 3..]
  }

  /** A well-formed separated number: a first group of one to three digits, then groups of
      exactly three digits, each after one ".". */
  predicate Grouped(t: string) {
    (1 <= |t| <= 3 && AllDigits(t))
    || (|t| >= 5 && t[|t| - 4] == '.' && AllDigits(t[|t| - 3..]) && Grouped(t[..|t| - 4]))
  }

  // ---------------------------------------------------------------------------------------
  // The regex on any string only inserts dots.

  lemma {:induction false} ReplaceUpToDropDots(s: string, j: nat)
    requires j <= |s|
    ensures DropDots(ReplaceUpTo(s, j)) == DropDots(s[..j])
  {
    if j > 0 {
      var r, c := ReplaceUpTo(s, j - 1), s[j - 1];
      ReplaceUpToDropDots(s, j - 1);
      assert s[..j] == s[..j - 1] + [c];
      DropDotsAppend(s[..j - 1], [c]);
      if MatchAt(s, j - 1) {
        assert ReplaceUpTo(s, j) == r + "." + [c];
        DropDotsAppend(r + ".", [c]);
        DropDotsAppend(r, ".");
        DropDotsSingle('.');
      } else {
        assert ReplaceUpTo(s, j) == r + [c];
        DropDotsAppend(r, [c]);
      }
    }
  }

  // ---------------------------------------------------------------------------------------
  // On a digit string the regex is the right-to-left grouping.

  /** Whether a separator belongs before position `i` of an `n`-digit string. */
  predicate SeparatorBefore(n: nat, i: nat) {
    0 < i < n && (n - i) % 3 == 0
  }

  lemma {:induction false} DigitRunOfDigits(s: string, i: nat)
    requires AllDigits(s) && i <= |s|
    ensures DigitRun(s, i) == |s| - i
    decreases |s| - i
  {
    if i < |s| {
      DigitRunOfDigits(s, i + 1);
    }
  }

  lemma MatchAtDigits(s: string, i: nat)
    requires AllDigits(s) && i <= |s|
    ensures MatchAt(s, i) <==> SeparatorBefore(|s|, i)
  {
    DigitRunOfDigits(s, i);
  }

  /** A digit string and its prefix without the last three digits agree on every position
      before the cut. */
  lemma {:induction false} ReplaceUpToPrefix(s: string, j: nat)
    requires AllDigits(s) && |s| > 3 && j <= |s| - 3
    ensures ReplaceUpTo(s, j) == ReplaceUpTo(s[..|s| - 3], j)
  {
    if j > 0 {
      var p := s[..|s| - 3];
      ReplaceUpToPrefix(s, j - 1);
      MatchAtDigits(s, j - 1);
      MatchAtDigits(p, j - 1);
      assert p[j - 1] == s[j - 1];
    }
  }

  /** The global replace on a digit string is the right-to-left grouping. */
  lemma {:induction false} RegexIsGroup(s: string)
    requires AllDigits(s)
    ensures RegexSeparate(s) == Group(s)
    decreases |s|
  {
    if |s| <= 3 {
      RegexShort(s);
    } else {
      var p := s[..|s| - 3];
      assert AllDigits(p);
      RegexIsGroup(p);
      RegexStep(s);
    }
  }

  lemma RegexShort(s: string)
    requires AllDigits(s) && |s| <= 3
    ensures RegexSeparate(s) == s
  {
    forall j | 0 <= j <= |s| ensures !MatchAt(s, j) {
      MatchAtDigits(s, j);
    }
    NoMatchCopies(s, |s|);
    assert s[..|s|] == s;
  }

  /** Peeling the last three digits off a longer digit string. */
  lemma RegexStep(s: string)
    requires AllDigits(s) && |s| > 3
    ensures RegexSeparate(s) == RegexSeparate(s[..|s| - 3]) + "." + s[|s| - 3..]
  {
    var n := |s|;
    var p := s[..n - 3];
    assert AllDigits(p);
    MatchAtDigits(p, n - 3);
    MatchAtDigits(s, n);
    ReplaceUpToPrefix(s, n - 3);
    MatchAtDigits(s, n - 3);
    MatchAtDigits(s, n - 2);
    MatchAtDigits(s, n - 1);
    var r := ReplaceUpTo(s, n - 3);
    assert ReplaceUpTo(s, n - 2) == r + "." + [s[n - 3]];
    assert ReplaceUpTo(s, n - 1) == r + "." + [s[n - 3]] + [s[n - 2]];
    assert ReplaceUpTo(s, n) == r + "." + [s[n - 3]] + [s[n - 2]] + [s[n - 1]];
    assert s[n - 3..] == [s[n - 3]] + [s[n - 2]] + [s[n - 1]];
  }

  lemma {:induction false} NoMatchCopies(s: string, j: nat)
    requires j <= |s|
    requires forall i :: 0 <= i < j ==> !MatchAt(s, i)
    ensures ReplaceUpTo(s, j) == s[..j]
  {
    if j > 0 {
      NoMatchCopies(s, j - 1);
      assert s[..j] == s[..j - 1] + [s[j - 1]];
    }
  }

  // ---------------------------------------------------------------------------------------
  // Properties of the grouping.

  /** Deleting the dots from the grouping gives back the digits. */
  lemma {:induction false} GroupDropDots(s: string)
    requires AllDigits(s)
    ensures DropDots(Group(s)) == s
    decreases |s|
  {
    if |s| <= 3 {
      DigitsHaveNoDot(s);
      DropDotsNoDot(s);
    } else {
      var p, tail := s[..|s| - 3], s[|s| - 3..];
      assert AllDigits(p) && AllDigits(tail);
      GroupDropDots(p);
      DigitsHaveNoDot(tail);
      DropDotsJoin(Group(p), tail);
      assert p + tail == s;
    }
  }

  /** The grouping of a non-empty digit string is well grouped and adds one dot per
      complete group of three after the first group. */
  lemma {:induction false} GroupShape(s: string)
    requires AllDigits(s) && |s| >= 1
    ensures Grouped(Group(s))
    ensures |Group(s)| == |s| + (|s| - 1) / 3
    decreases |s|
  {
    if |s| > 3 {
      var p, tail := s[..|s| - 3], s[|s| - 3..];
      assert AllDigits(p) && AllDigits(tail);
      GroupShape(p);
      var t := Group(s);
      assert t == Group(p) + "." + tail;
      assert t[..|t| - 4] == Group(p);
      assert t[|t| - 3..] == tail;
    }
  }

  /** A well-grouped string has no dot at either end. */
  lemma {:induction false} GroupedEdges(t: string)
    requires Grouped(t)
    ensures |t| >= 1 && IsDigit(t[0]) && IsDigit(t[|t| - 1])
    decreases |t|
  {
    if !(1 <= |t| <= 3 && AllDigits(t)) {
      GroupedEdges(t[..|t| - 4]);
      assert t[0] == t[..|t| - 4][0];
    }
  }

  lemma GroupedSplit(t: string)
    requires Grouped(t) && !(1 <= |t| <= 3 && AllDigits(t))
    ensures |t| >= 5 && Grouped(t[..|t| - 4]) && AllDigits(t[|t| - 3..])
    ensures t == t[..|t| - 4] + "." + t[|t| - 3..]
  {
    var k := |t| - 4;
    assert t == t[..k] + t[k..];
    assert t[k..] == [t[k]] + t[k + 1..];
  }

  /** Deleting the dots from a well-grouped string leaves a non-empty digit string. */
  lemma {:induction false} GroupedDigits(t: string)
    requires Grouped(t)
    ensures AllDigits(DropDots(t)) && |DropDots(t)| >= 1
    decreases |t|
  {
    if 1 <= |t| <= 3 && AllDigits(t) {
      DigitsHaveNoDot(t);
      DropDotsNoDot(t);
    } else {
      var u, tail := t[..|t| - 4], t[|t| - 3..];
      GroupedSplit(t);
      GroupedDigits(u);
      DigitsHaveNoDot(tail);
      DropDotsJoin(u, tail);
      var r := DropDots(t);
      assert r == DropDots(u) + tail;
      assert forall i :: 0 <= i < |r| ==> IsDigit(r[i]) by {
        forall i | 0 <= i < |r| ensures IsDigit(r[i]) {
          if i < |DropDots(u)| { assert r[i] == DropDots(u)[i]; }
          else { assert r[i] == tail[i - |DropDots(u)|]; }
        }
      }
    }
  }

  /** The grouping is the ONLY well-grouped way of putting dots into a digit string. */
  lemma {:induction false} GroupUnique(s: string, t: string)
    requires AllDigits(s) && Grouped(t) && DropDots(t) == s
    ensures t == Group(s)
    decreases |t|
  {
    if 1 <= |t| <= 3 && AllDigits(t) {
      DigitsHaveNoDot(t);
      DropDotsNoDot(t);
    } else {
      var u, tail := t[..|t| - 4], t[|t| - 3..];
      GroupedSplit(t);
      DigitsHaveNoDot(tail);
      DropDotsJoin(u, tail);
      GroupedDigits(u);
      var su := DropDots(u);
      assert s == su + tail;
      assert s[..|s| - 3] == su && s[|s| - 3..] == tail;
      GroupUnique(su, u);
    }
  }

  /** What the cells show for a non-negative count: its digits grouped in threes from the
      right; deleting the dots and reading the digits gives back the count. */
  lemma FormatCountNonNegative(n: nat)
    ensures FormatCount(n) == Group(NatToString(n))
    ensures Grouped(FormatCount(n))
    ensures AllDigits(DropDots(FormatCount(n))) && ParseNat(DropDots(FormatCount(n))) == n
    ensures n < 1000 ==> FormatCount(n) == NatToString(n)
  {
    var s := NatToString(n);
    RegexIsGroup(s);
    GroupDropDots(s);
    GroupShape(s);
    ParseNatToString(n);
    if n < 1000 {
      NatToStringShort(n);
    }
  }

  lemma NatToStringShort(n: nat)
    requires n < 1000
    ensures |NatToString(n)| <= 3
  {
    if n >= 100 {
      assert |NatToString(n / 10 / 10)| == 1;
      assert |NatToString(n / 10)| == 2;
    } else if n >= 10 {
      assert |NatToString(n / 10)| == 1;
    }
  }

  lemma NatToStringExample()
    ensures NatToString(1234567) == "1234567"
  {
    assert NatToString(1) == "1";
    assert NatToString(12) == "12";
    assert NatToString(123) == "123";
    assert NatToString(1234) == "1234";
    assert NatToString(12345) == "12345";
    assert NatToString(123456) == "123456";
  }

  lemma GroupExample()
    ensures Group("1234567") == "1.234.567"
  {
    var s := "1234567";
    assert s[..4] == "1234" && s[4..] == "567";
    assert "1234"[..1] == "1" && "1234"[1..] == "234";
    assert Group("1234") == "1.234";
  }

  /** The example the KPI cells show. */
  lemma FormatCountExample()
    ensures FormatCount(1234567) == "1.234.567"
  {
    NatToStringExample();
    RegexIsGroup("1234567");
    GroupExample();
  }
}
