/** The severity colours of the data table and the text of its cells. */
module Classifier {
  import opened Wrappers
  import opened Decimal
  import opened Thousands
  import opened Metrics
  import opened Records

  /** The four severity colours, mildest first. */
  datatype Tier = Teal | Yellow | Red | Grey

  /** The colour `printDataTable` writes for a tier. */
  function Hex(t: Tier): string {
    match t
    case Teal => "#01B8AA"
    case Yellow => "#F2C80F"
    case Red => "#FD625E"
    case Grey => "#5F6B6D"
  }

  function Rank(t: Tier): nat {
    match t
    case Teal => 0
    case Yellow => 1
    case Red => 2
    case Grey => 3
  }

  /** The four colours are distinct, so a cell's colour tells its tier. */
  lemma HexDistinct(a: Tier, b: Tier)
    ensures Hex(a) == Hex(b) <==> a == b
  {
    if a != b {
      assert Hex(a)[2] != Hex(b)[2];
    }
  }

  /** The colour chain of `printDataTable`: `<= 10`, `<= 25`, `<= 100` on the number the string
      stands for; NaN fails every comparison and lands in the last tier. Each tier is exactly
      one band of values. */
  function Classify(p: Pct): (t: Tier)
    ensures t == Teal <==> p.Fixed? && Value(p) <= 10.0
    ensures t == Yellow <==> p.Fixed? && 10.0 < Value(p) <= 25.0
    ensures t == Red <==> p.Fixed? && 25.0 < Value(p) <= 100.0
    ensures t == Grey <==> p.NaN? || Value(p) > 100.0
  {
    if p.Fixed? && Value(p) <= 10.0 then Teal
    else if p.Fixed? && Value(p) <= 25.0 then Yellow
    else if p.Fixed? && Value(p) <= 100.0 then Red
    else Grey
  }

  /** A larger percentage never gets a milder colour, and an unknown one gets the last tier. */
  lemma ClassifyMonotone(p: Pct, q: Pct)
    requires p.Fixed? && q.Fixed? && Value(p) <= Value(q)
    ensures Rank(Classify(p)) <= Rank(Classify(q))
    ensures Rank(Classify(q)) <= Rank(Classify(NaN))
  {
  }

  /** The boundary values: 10 and 100 belong to the lower tier, and the colours written. */
  lemma ClassifyExamples()
    ensures Hex(Classify(Fixed(false, 1000, 2))) == "#01B8AA"
    ensures Hex(Classify(Fixed(false, 1001, 2))) == "#F2C80F"
    ensures Hex(Classify(Fixed(false, 10000, 2))) == "#FD625E"
    ensures Hex(Classify(Fixed(false, 10100, 2))) == "#5F6B6D"
    ensures Hex(Classify(NaN)) == "#5F6B6D"
  {
    assert Pow10(2) == 100;
  }

  /** The colours `countryStatusColor` holds for one country. */
  datatype StatusColor = StatusColor(cases: Tier, deaths: Tier)

  /** The cases / population percentage of a row. */
  function CasesPercentage(r: Record): Pct {
    Percentage(r.population, r.confirmed, 2)
  }

  /** The deaths / cases percentage of a row. */
  function DeathsPercentage(r: Record): Pct {
    Percentage(r.confirmed, r.deaths, 2)
  }

  /** Both colours come from the same rule; a falsy count on either side gives the grey tier. */
  function StatusOf(r: Record): (c: StatusColor)
    ensures c.cases == Grey <==> Falsy(r.population) || Falsy(r.confirmed)
                                 || Value(CasesPercentage(r)) > 100.0
    ensures c.deaths == Grey <==> Falsy(r.confirmed) || Falsy(r.deaths)
                                  || Value(DeathsPercentage(r)) > 100.0
  {
    StatusColor(Classify(CasesPercentage(r)), Classify(DeathsPercentage(r)))
  }

  /** The property a record is stored under: JavaScript turns a missing name into "undefined". */
  function TableKey(r: Record): string {
    if r.country.Some? then r.country.value else "undefined"
  }

  /** The table after recording `rows` in order over `m`: a later row with the same name
      overwrites an earlier one. */
  function Painted(m: map<string, StatusColor>, rows: seq<Record>): (r: map<string, StatusColor>)
    ensures r.Keys == m.Keys + set j | 0 <= j < |rows| :: TableKey(rows[j])
  {
    if rows == [] then m
    else
      var last := rows[|rows| - 1];
      Painted(m, rows[..|rows| - 1])[TableKey(last) := StatusOf(last)]
  }

  lemma PaintedStep(m: map<string, StatusColor>, rows: seq<Record>, i: nat)
    requires i < |rows|
    ensures Painted(m, rows[..i + 1]) == Painted(m, rows[..i])[TableKey(rows[i]) := StatusOf(rows[i])]
  {
    assert rows[..i + 1][..i] == rows[..i];
  }

  /** The last row with a given name decides that name's colours. */
  lemma {:induction false} PaintedLast(m: map<string, StatusColor>, rows: seq<Record>, i: nat)
    requires i < |rows|
    requires forall j :: i < j < |rows| ==> TableKey(rows[j]) != TableKey(rows[i])
    ensures TableKey(rows[i]) in Painted(m, rows)
    ensures Painted(m, rows)[TableKey(rows[i])] == StatusOf(rows[i])
  {
    if i < |rows| - 1 {
      var init := rows[..|rows| - 1];
      assert forall j :: i < j < |init| ==> init[j] == rows[j];
      PaintedLast(m, init, i);
    }
  }

  /** Names that no row carries keep whatever the table held before. */
  lemma {:induction false} PaintedOthers(m: map<string, StatusColor>, rows: seq<Record>, k: string)
    requires forall j :: 0 <= j < |rows| ==> TableKey(rows[j]) != k
    ensures k in Painted(m, rows) <==> k in m
    ensures k in m ==> Painted(m, rows)[k] == m[k]
  {
    if rows != [] {
      var init := rows[..|rows| - 1];
      assert forall j :: 0 <= j < |init| ==> init[j] == rows[j];
      PaintedOthers(m, init, k);
    }
  }

  /** A count cell: the grouped digits, or "Unknown" for a falsy count. */
  function CountCell(x: Num): (s: string)
    ensures s == "Unknown" <==> Falsy(x)
    ensures x.Num? && x.n > 0 ==> Grouped(s) && AllDigits(DropDots(s)) && ParseNat(DropDots(s)) == x.n
  {
    if Falsy(x) then "Unknown"
    else
      var s := FormatCount(x.n);
      assert s != "Unknown" by {
        DropDotsNoDot("Unknown");
        assert "Unknown"[0] == 'U' && IntToString(x.n)[0] != 'U';
      }
      if x.n > 0 then FormatCountNonNegative(x.n); s else s
  }

  /** The text and colours of one table row. */
  datatype Row = Row(name: string, cases: string, casesPercent: string, deaths: string,
                     deathsPercent: string, population: string, color: StatusColor)

  /** The row `printDataTable` builds for one record, the percentages rendered by
      `getPercentageStr` as written. */
  function RowOf(r: Record): Row {
    Row(TableKey(r), CountCell(r.confirmed), PercentageStr(CasesPercentage(r)),
        CountCell(r.deaths), PercentageStr(DeathsPercentage(r)), CountCell(r.population),
        StatusOf(r))
  }

  /** The rows of a list of records, in order. */
  function Rows(data: seq<Record>): (rows: seq<Row>)
    ensures |rows| == |data|
    ensures forall i :: 0 <= i < |data| ==> rows[i] == RowOf(data[i])
  {
    if data == [] then []
    else
      var init := data[..|data| - 1];
      assert forall i :: 0 <= i < |init| ==> init[i] == data[i];
      Rows(init) + [RowOf(data[|data| - 1])]
  }

  lemma RowsStep(data: seq<Record>, i: nat)
    requires i < |data|
    ensures Rows(data[..i + 1]) == Rows(data[..i]) + [RowOf(data[i])]
  {
    assert data[..i + 1][..i] == data[..i];
  }

  /** A cell reads "Unknown" exactly when a count it depends on is falsy, and the row carries its
      record's colours. */
  lemma RowCells(r: Record)
    ensures RowOf(r).name == TableKey(r) && RowOf(r).color == StatusOf(r)
    ensures RowOf(r).cases == "Unknown" <==> Falsy(r.confirmed)
    ensures RowOf(r).deaths == "Unknown" <==> Falsy(r.deaths)
    ensures RowOf(r).population == "Unknown" <==> Falsy(r.population)
    ensures RowOf(r).casesPercent == "Unknown" <==> Falsy(r.population) || Falsy(r.confirmed)
    ensures RowOf(r).deathsPercent == "Unknown" <==> Falsy(r.confirmed) || Falsy(r.deaths)
  {
  }

  /** `countryStatusColor`: the colours recorded per country name for the page session. */
  class StatusColorTable {
    var colors: map<string, StatusColor>

    constructor ()
      ensures colors == map[]
    {
      colors := map[];
    }

    /** The pass of `printDataTable` over the records: each record's colours are recorded under
        its name, and its row is built. */
    method PrintDataTable(data: seq<Record>) returns (rows: seq<Row>)
      modifies this
      ensures colors == Painted(old(colors), data)
      ensures rows == Rows(data)
    {
      rows := [];
      var i := 0;
      while i < |data|
        invariant 0 <= i <= |data|
        invariant colors == Painted(old(colors), data[..i])
        invariant rows == Rows(data[..i])
      {
        var obj := data[i];
        var entry := StatusColor(Grey, Grey);
        entry := entry.(cases := Classify(CasesPercentage(obj)));
        entry := entry.(deaths := Classify(DeathsPercentage(obj)));
        assert entry == StatusOf(obj);
        colors := colors[TableKey(obj) := entry];
        rows := rows + [RowOf(obj)];
        PaintedStep(old(colors), data, i);
        RowsStep(data, i);
        i := i + 1;
      }
      assert data[..i] == data;
    }
  }
}
