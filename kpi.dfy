/** The confirmed-cases and deaths indicators of `getGlobalData`: the newest global count with
    thousands separators, the change from the day before as a percentage, and an arrow. */
module Kpi {
  import opened Wrappers
  import opened Decimal
  import opened Thousands
  import opened Metrics

  /** What one indicator shows. */
  datatype Indicator = Indicator(display: string, change: string, arrow: Arrow)

  /** The day before the newest, `data[dataKeys[1]]`: absent (undefined) for a one-day history. */
  function PreviousDay(values: seq<int>): Num {
    if |values| >= 2 then Num(values[1]) else Missing
  }

  /** One indicator from the global history, newest first. The change is
      `getIncreaseDecreasePercentage(data[dataKeys[1]], data[dataKeys[0]])`, whose sign is
      inverted: growth gives a negative change, shown with a down arrow. An empty history makes
      `data[dataKeys[0]].toString()` throw. */
  function GlobalIndicator(values: seq<int>): (r: Result<Indicator>)
    ensures r.Err? <==> values == []
    ensures r.Ok? ==> !MinusBeforeDigit(r.value.change)
  {
    if values == [] then Err("TypeError: Cannot read properties of undefined (reading 'toString')")
    else
      var change := IncreaseDecrease(PreviousDay(values), Num(values[0]), 2);
      Ok(Indicator(FormatCount(values[0]), PercentageStrFixed(change), KpiArrow(change)))
  }

  /** The shown count reads back as the newest count; the change is "Unknown", with an up arrow,
      exactly when there is no earlier day, the earlier count is 0, or nothing changed; otherwise
      the change and the arrow both come from `(previous - newest) * 100 / previous` rounded to
      two places; the arrow points down only when the count grew, and up whenever it did not. */
  lemma GlobalIndicatorProperties(values: seq<int>)
    requires values != []
    ensures var ind := GlobalIndicator(values).value;
            && (values[0] >= 0 ==>
                 Grouped(ind.display) && AllDigits(DropDots(ind.display))
                 && ParseNat(DropDots(ind.display)) == values[0])
            && (ind.change == "Unknown" <==> |values| == 1 || values[1] == 0 || values[0] == values[1])
            && (ind.change == "Unknown" ==> ind.arrow == UpArrow)
            && (|values| >= 2 && values[1] != 0 && values[0] != values[1] ==>
                 exists p :: RoundsTo(Ratio(values[1], values[1] - values[0]), p) && p.decimals == 2
                             && ind.change == PercentageStrFixed(p) && ind.arrow == KpiArrow(p))
            && (|values| >= 2 && values[1] > 0 ==>
                 (ind.arrow == DownArrow ==> values[0] > values[1])
                 && (values[0] <= values[1] ==> ind.arrow == UpArrow))
  {
    if values[0] >= 0 {
      FormatCountNonNegative(values[0]);
    }
    var change := IncreaseDecrease(PreviousDay(values), Num(values[0]), 2);
    if |values| >= 2 && values[1] > 0 {
      KpiArrowTrend(PreviousDay(values), Num(values[0]), 2);
    }
    if |values| >= 2 && values[1] != 0 && values[0] != values[1] {
      assert RoundsTo(Ratio(values[1], values[1] - values[0]), change) && change.decimals == 2;
    }
  }

  lemma GrowthChange()
    ensures IncreaseDecrease(Num(1000), Num(1100), 2) == Fixed(true, 1000, 2)
  {
    assert ToFixed(-10.0, 2) == Fixed(true, 1000, 2);
  }

  lemma GrowthChangeString()
    ensures PercentageStrFixed(Fixed(true, 1000, 2)) == "- 10%"
  {
    assert Shortest(1000, 2) == (10, 0) by {
      assert Shortest(10, 0) == (10, 0);
      assert Shortest(100, 1) == (10, 0);
    }
    assert NatToString(10) == "10";
    assert Value(Fixed(true, 1000, 2)) < 0.0;
  }

  lemma DigitsOf1100()
    ensures NatToString(1100) == "1100"
  {
    assert NatToString(1) == "1" && NatToString(11) == "11" && NatToString(110) == "110";
  }

  lemma GroupOf1100()
    ensures Group("1100") == "1.100"
  {
    assert "1100"[..1] == "1" && "1100"[1..] == "100";
  }

  lemma GrowthDisplay()
    ensures FormatCount(1100) == "1.100"
  {
    DigitsOf1100();
    RegexIsGroup("1100");
    GroupOf1100();
  }

  /** A history that grew from 1000 to 1100: a "- 10%" change and a down arrow. */
  lemma GrowthShownDown()
    ensures GlobalIndicator([1100, 1000]) == Ok(Indicator("1.100", "- 10%", DownArrow))
  {
    GrowthChange();
    GrowthChangeString();
    GrowthDisplay();
    assert PreviousDay([1100, 1000]) == Num(1000);
  }
}
