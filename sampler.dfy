/** The monthly history of `printDetailsCharts`: from a country's newest-first history, pick
    the value recorded on the 1st of each month, going back one month per point, at most
    ten points, and present them oldest first. */
module Sampler {

  type Month = m: int | 1 <= m <= 12 witness 1
  type Day = d: int | 1 <= d <= 31 witness 1

  /** A calendar day, as the date part of a history key compares (`toLocaleDateString`). */
  datatype Date = Date(year: int, month: Month, day: Day)

  /** Months counted from January of year 0, so that one month back is one less. */
  function MonthIndex(d: Date): int {
    d.year * 12 + (d.month - 1)
  }

  /** The 1st of the month with the given index. */
  function FromIndex(mi: int): (d: Date)
    ensures d.day == 1 && MonthIndex(d) == mi
  {
    Date(mi / 12, mi % 12 + 1, 1)
  }

  /** `date.setDate(1)`: the 1st of the same month. */
  function MonthStart(d: Date): (s: Date)
    ensures s.day == 1 && MonthIndex(s) == MonthIndex(d)
  {
    Date(d.year, d.month, 1)
  }

  /** A 1st of the month is determined by its month index. */
  lemma MonthIndexInjective(a: Date, b: Date)
    requires a.day == 1 && b.day == 1 && MonthIndex(a) == MonthIndex(b)
    ensures a == b
  {
  }

  lemma FromIndexOfStart(t: Date)
    requires t.day == 1
    ensures FromIndex(MonthIndex(t)) == t
  {
    var mi := MonthIndex(t);
    assert mi / 12 == t.year && mi % 12 == t.month - 1;
  }

  /** `date.setMonth(date.getMonth() - 1); date.setDate(1)`: the 1st of the previous month,
      January rolling back to December of the year before. */
  function PrevMonthStart(t: Date): (p: Date)
    ensures p.day == 1 && MonthIndex(p) == MonthIndex(t) - 1
  {
    FromIndex(MonthIndex(t) - 1)
  }

  /** The 1st of the month `k` months before `t`. */
  function Back(t: Date, k: int): (b: Date)
    ensures b.day == 1 && MonthIndex(b) == MonthIndex(t) - k
  {
    FromIndex(MonthIndex(t) - k)
  }

  /** The data points the scan picks, newest first: walking the keys in order, a key is taken
      when its day is exactly the current target, which then moves one month back; at most
      `room` points are taken. */
  function Sample(h: seq<(Date, int)>, target: Date, room: nat): (r: seq<(Date, int)>)
    ensures |r| <= room && |r| <= |h|
    decreases |h|
  {
    if h == [] || room == 0 then []
    else if h[0].0 == target then [h[0]] + Sample(h[1..], PrevMonthStart(target), room - 1)
    else Sample(h[1..], target, room)
  }

  /** The k-th point taken is the 1st of the month `k` months before the first target, and it is
      a point of the history. */
  lemma {:induction false} SampleShape(h: seq<(Date, int)>, target: Date, room: nat)
    requires target.day == 1
    ensures forall k :: 0 <= k < |Sample(h, target, room)| ==>
              Sample(h, target, room)[k].0 == Back(target, k) && Sample(h, target, room)[k] in h
    decreases |h|
  {
    var s := Sample(h, target, room);
    if h != [] && room != 0 {
      if h[0].0 == target {
        var prev := PrevMonthStart(target);
        SampleShape(h[1..], prev, room - 1);
        var tail := Sample(h[1..], prev, room - 1);
        assert s == [h[0]] + tail;
        forall k | 0 <= k < |s| ensures s[k].0 == Back(target, k) && s[k] in h {
          if k == 0 {
            FromIndexOfStart(target);
          } else {
            assert s[k] == tail[k - 1];
            assert Back(prev, k - 1) == Back(target, k);
            assert s[k] in h[1..];
          }
        }
      } else {
        SampleShape(h[1..], target, room);
        forall k | 0 <= k < |s| ensures s[k] in h {
          assert s[k] in h[1..];
        }
      }
    }
  }

  /** The quirk of the exact-day match: when no key is the 1st of the month `g` months before the
      first target, nothing from that month or earlier is ever taken. */
  lemma {:induction false} SampleStopsAtGap(h: seq<(Date, int)>, target: Date, room: nat, g: nat)
    requires target.day == 1
    requires forall i :: 0 <= i < |h| ==> h[i].0 != Back(target, g)
    ensures |Sample(h, target, room)| <= g
    decreases |h|
  {
    if h != [] && room != 0 {
      if h[0].0 == target {
        FromIndexOfStart(target);
        assert g != 0 by { assert h[0].0 != Back(target, g); }
        var prev := PrevMonthStart(target);
        assert Back(prev, g - 1) == Back(target, g);
        SampleStopsAtGap(h[1..], prev, room - 1, g - 1);
      } else {
        SampleStopsAtGap(h[1..], target, room, g);
      }
    }
  }

  /** `pos` lists, in increasing order, positions of `h` whose key is the 1st of the month `k`
      months before `target`, for `k = 0, 1, ...`. */
  predicate Occurs(h: seq<(Date, int)>, target: Date, pos: seq<nat>) {
    (forall k :: 0 <= k < |pos| ==> pos[k] < |h| && h[pos[k]].0 == Back(target, k))
    && (forall j, k :: 0 <= j < k < |pos| ==> pos[j] < pos[k])
  }

  /** Going back one month from the target is going back one more month from the one before. */
  lemma BackStep(target: Date, k: nat)
    ensures Back(PrevMonthStart(target), k) == Back(target, k + 1)
  {
    MonthIndexInjective(Back(PrevMonthStart(target), k), Back(target, k + 1));
  }

  /** Positions one place earlier, once the first key is dropped. */
  function Shifted(pos: seq<nat>): (r: seq<nat>)
    requires forall k :: 0 <= k < |pos| ==> pos[k] > 0
    ensures |r| == |pos| && forall k :: 0 <= k < |pos| ==> r[k] == pos[k] - 1
  {
    seq(|pos|, k requires 0 <= k < |pos| => pos[k] - 1)
  }

  /** A key that is not the target: the listed months all occur after it. */
  lemma OccursSkip(h: seq<(Date, int)>, target: Date, pos: seq<nat>)
    requires |h| > 0 && Occurs(h, target, pos) && forall k :: 0 <= k < |pos| ==> pos[k] > 0
    ensures Occurs(h[1..], target, Shifted(pos))
  {
  }

  /** A key that is the target: the months after the first occur after it, counted from the
      month before. */
  lemma OccursTake(h: seq<(Date, int)>, target: Date, pos: seq<nat>)
    requires |pos| > 0 && Occurs(h, target, pos)
    ensures forall k :: 0 <= k < |pos[1..]| ==> pos[1..][k] > 0
    ensures |h| > 0 && Occurs(h[1..], PrevMonthStart(target), Shifted(pos[1..]))
  {
    assert forall k :: 0 <= k < |pos[1..]| ==> pos[0] < pos[1..][k];
    var rest := Shifted(pos[1..]);
    forall k | 0 <= k < |rest|
      ensures rest[k] < |h[1..]| && h[1..][rest[k]].0 == Back(PrevMonthStart(target), k)
    {
      assert pos[1..][k] == pos[k + 1];
      BackStep(target, k);
    }
  }

  /** The scan misses nothing: when the 1st of each of the `|pos|` months from the target back
      occurs in the history, newest first, it picks at least that many points, or fills its
      room. */
  lemma {:induction false} SampleComplete(h: seq<(Date, int)>, target: Date, room: nat, pos: seq<nat>)
    requires target.day == 1 && Occurs(h, target, pos)
    ensures |Sample(h, target, room)| >= (if |pos| < room then |pos| else room)
    decreases |h|
  {
    if |pos| > 0 && room > 0 {
      assert pos[0] < |h|;
      if h[0].0 == target {
        OccursTake(h, target, pos);
        SampleComplete(h[1..], PrevMonthStart(target), room - 1, Shifted(pos[1..]));
      } else {
        FromIndexOfStart(target);
        assert pos[0] != 0;
        assert forall k :: 0 <= k < |pos| ==> pos[0] <= pos[k];
        OccursSkip(h, target, pos);
        SampleComplete(h[1..], target, room, Shifted(pos));
      }
    }
  }

  function Labels(s: seq<(Date, int)>): (r: seq<Date>)
    ensures |r| == |s| && forall k :: 0 <= k < |s| ==> r[k] == s[k].0
  {
    seq(|s|, k requires 0 <= k < |s| => s[k].0)
  }

  function Values(s: seq<(Date, int)>): (r: seq<int>)
    ensures |r| == |s| && forall k :: 0 <= k < |s| ==> r[k] == s[k].1
  {
    seq(|s|, k requires 0 <= k < |s| => s[k].1)
  }

  /** `Array.prototype.reverse`. */
  function Reverse<T>(s: seq<T>): (r: seq<T>)
    ensures |r| == |s| && forall k :: 0 <= k < |s| ==> r[k] == s[|s| - 1 - k]
  {
    seq(|s|, k requires 0 <= k < |s| => s[|s| - 1 - k])
  }

  /** The 1st of the newest key's month, where the scan starts. */
  function Start(h: seq<(Date, int)>): (t: Date)
    requires |h| > 0
    ensures t.day == 1
  {
    MonthStart(h[0].0)
  }

  /** One step of the scan at key `i` keeps "picked so far, then the rest of the scan" equal
      to the whole scan. */
  lemma SampleAt(h: seq<(Date, int)>, i: nat, target: Date, picked: seq<(Date, int)>, all: seq<(Date, int)>)
    requires i < |h| && |picked| < 10
    requires picked + Sample(h[i..], target, 10 - |picked|) == all
    ensures h[i].0 == target && |picked| == 9 ==> picked + [h[i]] == all
    ensures h[i].0 == target ==>
              (picked + [h[i]]) + Sample(h[i + 1..], PrevMonthStart(target), 10 - |picked| - 1) == all
    ensures h[i].0 != target ==> picked + Sample(h[i + 1..], target, 10 - |picked|) == all
  {
    assert h[i..][0] == h[i] && h[i..][1..] == h[i + 1..];
    if h[i].0 == target {
      var rest := Sample(h[i + 1..], PrevMonthStart(target), 10 - |picked| - 1);
      assert picked + ([h[i]] + rest) == (picked + [h[i]]) + rest;
      if |picked| == 9 {
        assert rest == [];
      }
    }
  }

  lemma PickedAppend(picked: seq<(Date, int)>, x: (Date, int))
    ensures Labels(picked + [x]) == Labels(picked) + [x.0]
    ensures Values(picked + [x]) == Values(picked) + [x.1]
  {
  }

  /** The sampling loop of `printDetailsCharts` over the history keys (newest first), followed by
      the two reversals. An empty history leaves both series empty. */
  method MonthlySample(h: seq<(Date, int)>) returns (labels: seq<Date>, values: seq<int>)
    ensures h == [] ==> labels == [] && values == []
    ensures h != [] ==> labels == Reverse(Labels(Sample(h, Start(h), 10)))
                        && values == Reverse(Values(Sample(h, Start(h), 10)))
    ensures |labels| == |values| <= 10
  {
    labels, values := [], [];
    if h == [] {
      return;
    }
    var date := Start(h);
    ghost var all := Sample(h, Start(h), 10);
    ghost var picked: seq<(Date, int)> := [];
    var i := 0;
    while i < |h|
      invariant 0 <= i <= |h|
      invariant |picked| < 10
      invariant labels == Labels(picked) && values == Values(picked)
      invariant picked + Sample(h[i..], date, 10 - |picked|) == all
    {
      SampleAt(h, i, date, picked, all);
      if h[i].0 == date {
        PickedAppend(picked, h[i]);
        labels := labels + [date];
        values := values + [h[i].1];
        picked := picked + [h[i]];
        if |values| == 10 {
          break;
        }
        date := PrevMonthStart(date);
      }
      i := i + 1;
    }
    assert picked == all;
    labels := Reverse(labels);
    values := Reverse(values);
  }

  /** The two series stay index-aligned and at most ten long; every label is the 1st of a month;
      the months are consecutive and increasing, the last one being the newest key's month; and
      each value is the history's value under its label's key. */
  lemma {:induction false} MonthlySampleProperties(h: seq<(Date, int)>)
    requires h != []
    ensures var s := Sample(h, Start(h), 10);
            var labels, values := Reverse(Labels(s)), Reverse(Values(s));
            && |labels| == |values| <= 10
            && (forall k :: 0 <= k < |labels| ==> labels[k].day == 1 && (labels[k], values[k]) in h)
            && (forall j, k :: 0 <= j < k < |labels| ==> MonthIndex(labels[k]) == MonthIndex(labels[j]) + (k - j))
            && (|labels| > 0 ==> labels[|labels| - 1] == MonthStart(h[0].0))
  {
    var s := Sample(h, Start(h), 10);
    SampleShape(h, Start(h), 10);
    var labels, values := Reverse(Labels(s)), Reverse(Values(s));
    forall k | 0 <= k < |labels| ensures labels[k].day == 1 && (labels[k], values[k]) in h {
      assert (labels[k], values[k]) == s[|s| - 1 - k];
    }
    if |labels| > 0 {
      FromIndexOfStart(Start(h));
    }
  }

  /** One month back, stated through the month index. */
  lemma StepBack(t: Date, p: Date)
    requires t.day == 1 && p.day == 1 && MonthIndex(p) == MonthIndex(t) - 1
    ensures PrevMonthStart(t) == p
  {
    MonthIndexInjective(PrevMonthStart(t), p);
  }

  /** January rolls back to December of the year before. */
  lemma PrevMonthExample(t: Date)
    requires t == Date(2021, 1, 1)
    ensures PrevMonthStart(t) == Date(2020, 12, 1)
  {
    StepBack(t, Date(2020, 12, 1));
  }
}
