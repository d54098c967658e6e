/** The two top-5 bar charts of `getTopConfirmedCountries`: sort the records in place by a
    count, take the entries after the first, and track the freshest `updated` value. */
module Ranker {
  import opened Wrappers
  import opened Metrics
  import opened Records
  import opened Classifier

  /** The count a chart ranks by. */
  datatype Metric = Confirmed | Deaths

  function Count(r: Record, m: Metric): Num {
    match m
    case Confirmed => r.confirmed
    case Deaths => r.deaths
  }

  /** The count as a number (0 for a missing count, which the ranking never sees). */
  function Key(r: Record, m: Metric): int {
    if Count(r, m).Num? then Count(r, m).n else 0
  }

  /** Every record has the count: the comparator `b.x - a.x` is NaN otherwise, and the order a
      sort with an inconsistent comparator leaves is implementation-defined. */
  predicate AllKnown(s: seq<Record>, m: Metric) {
    forall i :: 0 <= i < |s| ==> Count(s[i], m).Num?
  }

  /** A chart series that never rises: every value present, each at least the next. */
  predicate NonIncreasing(s: seq<Num>) {
    (forall i :: 0 <= i < |s| ==> s[i].Num?)
    && forall i, j :: 0 <= i < j < |s| ==> s[i].n >= s[j].n
  }

  /** Non-increasing in the count. */
  predicate Descending(s: seq<Record>, m: Metric) {
    forall i, j :: 0 <= i < j < |s| ==> Key(s[i], m) >= Key(s[j], m)
  }

  method Swap(a: array<Record>, i: nat, j: nat)
    requires i < a.Length && j < a.Length
    modifies a
    ensures a[..] == old(a[..])[i := old(a[j])][j := old(a[i])]
    ensures multiset(a[..]) == multiset(old(a[..]))
  {
    a[i], a[j] := a[j], a[i];
  }

  /** One pass of the insertion sort: the element at `i` moves down past every smaller one, so
      that the first `i + 1` elements end in order. */
  method InsertDown(a: array<Record>, i: nat, m: Metric)
    requires i < a.Length && Descending(a[..i], m)
    modifies a
    ensures Descending(a[..i + 1], m)
    ensures multiset(a[..]) == multiset(old(a[..]))
  {
    var j := i;
    while j > 0 && Key(a[j - 1], m) < Key(a[j], m)
      invariant 0 <= j <= i
      invariant forall p, q :: 0 <= p < q <= i && p != j && q != j ==> Key(a[p], m) >= Key(a[q], m)
      invariant forall q :: j < q <= i ==> Key(a[j], m) > Key(a[q], m)
      invariant multiset(a[..]) == multiset(old(a[..]))
    {
      Swap(a, j - 1, j);
      j := j - 1;
    }
  }

  /** `countries.sort(function(a, b) {return b.x - a.x})`: the array is rearranged in place
      into non-increasing order of the count. */
  method SortDescending(a: array<Record>, m: Metric)
    requires AllKnown(a[..], m)
    modifies a
    ensures Descending(a[..], m)
    ensures multiset(a[..]) == multiset(old(a[..]))
  {
    var i := 0;
    while i < a.Length
      invariant 0 <= i <= a.Length
      invariant Descending(a[..i], m)
      invariant multiset(a[..]) == multiset(old(a[..]))
    {
      InsertDown(a, i, m);
      i := i + 1;
    }
    assert a[..a.Length] == a[..];
  }

  /** `labels` and `data` are the names and counts at positions 1 to 5 of `s`, index-aligned. */
  predicate TopOf(s: seq<Record>, m: Metric, labels: seq<Option<string>>, data: seq<Num>) {
    |s| >= 6 && |labels| == 5 && |data| == 5
    && forall k :: 0 <= k < 5 ==> labels[k] == s[k + 1].country && data[k] == Count(s[k + 1], m)
  }

  /** `date` is the latest of `date0` and the `updated` values present at positions 1 to 5. */
  predicate Freshest(s: seq<Record>, date0: int, date: int) {
    |s| >= 6 && date >= date0
    && (forall k :: 1 <= k < 6 && s[k].updated.Some? ==> date >= s[k].updated.value)
    && (date == date0 || exists k :: 1 <= k < 6 && s[k].updated == Some(date))
  }

  /** `s` is `t` rearranged into non-increasing order of the count. */
  predicate SortedFrom(s: seq<Record>, t: seq<Record>, m: Metric) {
    multiset(s) == multiset(t) && Descending(s, m)
  }

  /** The selection loop `for (let i = 1; i < 6; i++)`: labels and data are the names and
      counts at positions 1 to 5, and the date ends as the latest of its starting value and
      the selected `updated` values. */
  method TakeTop(a: array<Record>, m: Metric, date0: int)
    returns (labels: seq<Option<string>>, data: seq<Num>, date: int)
    requires a.Length >= 6
    ensures TopOf(a[..], m, labels, data)
    ensures Freshest(a[..], date0, date)
    ensures Descending(a[..], m) && AllKnown(a[..], m) ==> NonIncreasing(data)
  {
    labels, data, date := [], [], date0;
    for i := 1 to 6
      invariant |labels| == i - 1 && |data| == i - 1
      invariant forall k :: 0 <= k < i - 1 ==> labels[k] == a[..][k + 1].country && data[k] == Count(a[..][k + 1], m)
      invariant date >= date0
      invariant forall k :: 1 <= k < i && a[..][k].updated.Some? ==> date >= a[..][k].updated.value
      invariant date == date0 || exists k :: 1 <= k < i && a[..][k].updated == Some(date)
    {
      labels := labels + [a[i].country];
      data := data + [Count(a[i], m)];
      if a[i].updated.Some? && date < a[i].updated.value {
        date := a[i].updated.value;
      }
    }
    if Descending(a[..], m) && AllKnown(a[..], m) {
      TopNonIncreasing(a[..], m, labels, data);
    }
  }

  /** After a sort by the same count, the selected counts never rise. */
  lemma TopNonIncreasing(s: seq<Record>, m: Metric, labels: seq<Option<string>>, data: seq<Num>)
    requires TopOf(s, m, labels, data) && Descending(s, m) && AllKnown(s, m)
    ensures NonIncreasing(data)
  {
    forall p | 0 <= p < 5 ensures data[p].Num? {
      assert data[p] == Count(s[p + 1], m);
    }
    forall p, q | 0 <= p < q < 5 ensures data[p].n >= data[q].n {
      assert Key(s[p + 1], m) >= Key(s[q + 1], m);
    }
  }

  /** What the two bar charts are drawn from. */
  datatype TopCharts = TopCharts(casesLabels: seq<Option<string>>, casesData: seq<Num>, casesDate: int,
                                 deathsLabels: seq<Option<string>>, deathsData: seq<Num>, deathsDate: int)

  /** The counts of every record that the two sorts rank by are present. */
  predicate CountsKnown(data: Source) {
    forall i :: 0 <= i < |data| && |data[i].1| > 0 ==>
      data[i].1[0].1.confirmed.Num? && data[i].1[0].1.deaths.Num?
  }

  /** Every record has a name and both counts. */
  predicate Ready(s: seq<Record>) {
    forall i :: 0 <= i < |s| ==> s[i].country.Some? && s[i].confirmed.Num? && s[i].deaths.Num?
  }

  lemma ReadyNormalized(data: Source)
    requires WellShaped(data) && CountsKnown(data)
    ensures Ready(Normalized(data))
  {
    forall i | 0 <= i < |data|
      ensures Normalized(data)[i].country.Some?
      ensures Normalized(data)[i].confirmed.Num? && Normalized(data)[i].deaths.Num?
    {
      NormalizedNamed(data, i);
    }
  }

  /** Rearranging the records keeps them ready. */
  lemma ReadyPermutation(s: seq<Record>, t: seq<Record>)
    requires multiset(s) == multiset(t) && Ready(t)
    ensures Ready(s) && AllKnown(s, Confirmed) && AllKnown(s, Deaths)
  {
    forall i | 0 <= i < |s| ensures s[i].country.Some? && s[i].confirmed.Num? && s[i].deaths.Num? {
      assert s[i] in multiset(s);
      var j :| 0 <= j < |t| && t[j] == s[i];
    }
  }

  /** Both charts from the normalized records: sort by cases and take positions 1 to 5, then
      sort the same array by deaths and take positions 1 to 5, the date carrying over. The
      cases chart is read from the array as the first sort left it. */
  method DrawCharts(a: array<Record>, now: int) returns (charts: TopCharts)
    requires a.Length >= 6 && Ready(a[..])
    modifies a
    ensures exists s :: SortedFrom(s, old(a[..]), Confirmed)
                        && TopOf(s, Confirmed, charts.casesLabels, charts.casesData)
                        && Freshest(s, now, charts.casesDate)
    ensures SortedFrom(a[..], old(a[..]), Deaths)
    ensures TopOf(a[..], Deaths, charts.deathsLabels, charts.deathsData)
    ensures Freshest(a[..], charts.casesDate, charts.deathsDate)
    ensures forall k :: 0 <= k < 5 ==> charts.casesLabels[k].Some? && charts.deathsLabels[k].Some?
    ensures NonIncreasing(charts.casesData) && NonIncreasing(charts.deathsData)
  {
    ghost var original := a[..];
    ReadyPermutation(a[..], original);
    SortDescending(a, Confirmed);
    ReadyPermutation(a[..], original);
    ghost var byCases := a[..];
    var casesLabels, casesData, casesDate := TakeTop(a, Confirmed, now);
    LabelsNamed(byCases, Confirmed, casesLabels, casesData);
    SortDescending(a, Deaths);
    ReadyPermutation(a[..], original);
    var deathsLabels, deathsData, deathsDate := TakeTop(a, Deaths, casesDate);
    LabelsNamed(a[..], Deaths, deathsLabels, deathsData);
    charts := TopCharts(casesLabels, casesData, casesDate, deathsLabels, deathsData, deathsDate);
    assert SortedFrom(byCases, original, Confirmed);
  }

  /** The selected labels of named records are all present. */
  lemma LabelsNamed(s: seq<Record>, m: Metric, labels: seq<Option<string>>, data: seq<Num>)
    requires TopOf(s, m, labels, data) && Ready(s)
    ensures forall k :: 0 <= k < 5 ==> labels[k].Some?
  {
  }

  /** The response handler of `getTopConfirmedCountries`, after the fetch: normalize, fill the
      data table, then the cases chart and the deaths chart. The freshness date starts at
      `now`. Fewer than six records make the loop read `.country` of `undefined`, which throws
      after the table is filled. */
  method GetTopConfirmedCountries(data: Source, now: int, table: StatusColorTable)
    returns (rows: seq<Row>, r: Result<TopCharts>)
    requires CountsKnown(data)
    modifies table
    ensures !WellShaped(data) ==> r.Err? && rows == [] && table.colors == old(table.colors)
    ensures WellShaped(data) ==>
              table.colors == Painted(old(table.colors), Normalized(data)) && rows == Rows(Normalized(data))
    ensures r.Ok? <==> WellShaped(data) && |data| >= 6
    ensures r.Ok? ==> exists s :: SortedFrom(s, Normalized(data), Confirmed)
                                  && TopOf(s, Confirmed, r.value.casesLabels, r.value.casesData)
                                  && Freshest(s, now, r.value.casesDate)
    ensures r.Ok? ==> exists s :: SortedFrom(s, Normalized(data), Deaths)
                                  && TopOf(s, Deaths, r.value.deathsLabels, r.value.deathsData)
                                  && Freshest(s, r.value.casesDate, r.value.deathsDate)
    ensures r.Ok? ==> forall k :: 0 <= k < 5 ==> r.value.casesLabels[k].Some? && r.value.deathsLabels[k].Some?
    ensures r.Ok? ==> NonIncreasing(r.value.casesData) && NonIncreasing(r.value.deathsData)
  {
    var normalized := Normalize(data);
    if normalized.Err? {
      return [], Err(normalized.error);
    }
    var countries := normalized.value;
    rows := table.PrintDataTable(countries);
    if |countries| < 6 {
      return rows, Err("TypeError: Cannot read properties of undefined (reading 'country')");
    }
    ReadyNormalized(data);
    var a := new Record[|countries|](i requires 0 <= i < |countries| => countries[i]);
    assert a[..] == countries;
    var charts := DrawCharts(a, now);
    assert SortedFrom(a[..], countries, Deaths);
    return rows, Ok(charts);
  }
}
