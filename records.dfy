/** The per-country records of the `/cases` response and the loop that flattens it. */
module Records {
  import opened Wrappers
  import opened Metrics

  /** One country's data object. `country` is absent on the aggregate entry; `updated` is the
      freshness timestamp, abstracted to an ordered number. */
  datatype Record = Record(country: Option<string>, confirmed: Num, deaths: Num, population: Num,
                           updated: Option<int>)

  /** JavaScript falsiness of the `country` field: absent or the empty string. */
  predicate NameMissing(c: Option<string>) {
    c.None? || c.value == ""
  }

  /** An object's properties in key iteration order. */
  type Inner = seq<(string, Record)>

  /** The parsed `/cases` response: each outer key wraps an object whose first property holds
      that country's record. */
  type Source = seq<(string, Inner)>

  /** Every wrapper has at least one property, so that the loop finds a record under its first key. */
  predicate WellShaped(data: Source) {
    forall i :: 0 <= i < |data| ==> |data[i].1| > 0
  }

  /** The record the loop keeps for outer key `key`: the name is filled in from the key only
      when it was missing, and nothing else changes. */
  function Named(key: string, r: Record): (n: Record)
    ensures n.country == if NameMissing(r.country) then Some(key) else r.country
    ensures n.confirmed == r.confirmed && n.deaths == r.deaths
    ensures n.population == r.population && n.updated == r.updated
  {
    if NameMissing(r.country) then r.(country := Some(key)) else r
  }

  /** The flattened list: one record per outer key, in key order, each taken from under the
      first inner key. */
  function Normalized(data: Source): (rs: seq<Record>)
    requires WellShaped(data)
    ensures |rs| == |data|
    ensures forall i :: 0 <= i < |data| ==> rs[i] == Named(data[i].0, data[i].1[0].1)
  {
    if data == [] then []
    else
      var last := data[|data| - 1];
      Normalized(data[..|data| - 1]) + [Named(last.0, last.1[0].1)]
  }

  /** After normalization every record has a name, and it is non-empty unless it came from an
      empty outer key. */
  lemma NormalizedNamed(data: Source, i: nat)
    requires WellShaped(data) && i < |data|
    ensures Normalized(data)[i].country.Some?
    ensures Normalized(data)[i].country.value == "" ==> data[i].0 == ""
  {
    var r := data[i].1[0].1;
    assert Normalized(data)[i] == Named(data[i].0, r);
    if !NameMissing(r.country) {
      assert r.country.Some? && r.country.value != "";
    }
  }

  /** Normalizing one more wrapper appends its record. */
  lemma NormalizedStep(data: Source, i: nat)
    requires i < |data| && WellShaped(data[..i]) && |data[i].1| > 0
    ensures WellShaped(data[..i + 1])
    ensures Normalized(data[..i + 1]) == Normalized(data[..i]) + [Named(data[i].0, data[i].1[0].1)]
  {
    assert data[..i + 1][..i] == data[..i];
    assert data[..i + 1][i] == data[i];
  }

  /** The normalization loop. An empty wrapper makes the source read `.country` of `undefined`,
      which throws. */
  method Normalize(data: Source) returns (r: Result<seq<Record>>)
    ensures r.Ok? <==> WellShaped(data)
    ensures r.Ok? ==> r.value == Normalized(data)
  {
    var countries: seq<Record> := [];
    var i := 0;
    while i < |data|
      invariant 0 <= i <= |data|
      invariant WellShaped(data[..i])
      invariant countries == Normalized(data[..i])
    {
      var key, inner := data[i].0, data[i].1;
      if |inner| == 0 {
        assert !WellShaped(data) by { assert |data[i].1| == 0; }
        return Err("TypeError: Cannot read properties of undefined (reading 'country')");
      }
      NormalizedStep(data, i);
      ghost var before := countries;
      countries := countries + [inner[0].1];
      if NameMissing(countries[|countries| - 1].country) {
        countries := countries[|countries| - 1 := countries[|countries| - 1].(country := Some(key))];
      }
      assert countries == before + [Named(key, inner[0].1)];
      i := i + 1;
    }
    assert data[..i] == data;
    return Ok(countries);
  }
}
