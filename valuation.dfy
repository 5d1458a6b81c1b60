/**
 * The valuation of a position against a price series: purchase value, latest
 * price, current value, profit, profit percent, and the portfolio-value and
 * profit series aligned to the price series' rows.
 *
 * Arithmetic on prices is exact (reals); a missing quote propagates through
 * the pointwise series the way NaN does.
 */
module Valuation {
  import opened Wrappers
  import opened PriceData

  /** `Series.dropna()` on a price column: the quoted prices, in row order. */
  function DropMissing(s: seq<Price>): (r: seq<real>)
    ensures |r| <= |s|
    ensures |r| == 0 <==> forall i :: 0 <= i < |s| ==> s[i].None?
    ensures forall x :: x in r <==> Some(x) in s
  {
    if s == [] then []
    else
      assert s == s[..|s| - 1] + [s[|s| - 1]];
      var rest := DropMissing(s[..|s| - 1]);
      match s[|s| - 1]
      case None => rest
      case Some(x) => rest + [x]
  }

  /** Row `k` holds a price and no later row does. */
  predicate IsLastQuotedRow(s: seq<Price>, k: int)
  {
    0 <= k < |s| && s[k].Some? && forall j :: k < j < |s| ==> s[j].None?
  }

  /**
   * Dropping missing entries distributes over concatenation: together with
   * `DropMissing([None]) == []` and `DropMissing([Some(x)]) == [x]` this fixes
   * the result completely, so the quoted prices keep their row order.
   */
  lemma {:induction false} DropMissingAppend(a: seq<Price>, b: seq<Price>)
    ensures DropMissing(a + b) == DropMissing(a) + DropMissing(b)
    decreases |b|
  {
    if b == [] {
      assert a + b == a;
    } else {
      var init := b[..|b| - 1];
      DropMissingAppend(a, init);
      assert (a + b)[..|a + b| - 1] == a + init;
      assert (a + b)[|a + b| - 1] == b[|b| - 1];
    }
  }

  /** The row of the last quoted price, or `None` when every entry is missing. */
  function LastPresent(s: seq<Price>): (r: Option<nat>)
    ensures r.None? <==> forall i :: 0 <= i < |s| ==> s[i].None?
    ensures r.Some? ==> r.value < |s| && s[r.value].Some?
    ensures r.Some? ==> forall j :: r.value < j < |s| ==> s[j].None?
  {
    if s == [] then None
    else if s[|s| - 1].Some? then Some(|s| - 1)
    else LastPresent(s[..|s| - 1])
  }

  /**
   * `price_series.dropna().iloc[-1]`. `None` where pandas raises IndexError:
   * nothing is left once the missing entries are dropped.
   */
  function LatestPrice(s: seq<Price>): (r: Option<real>)
    ensures r.None? <==> forall i :: 0 <= i < |s| ==> s[i].None?
    ensures r.Some? ==> Some(r.value) in s
  {
    var quoted := DropMissing(s);
    if |quoted| == 0 then None else Some(quoted[|quoted| - 1])
  }

  /** The latest price is the price on the last quoted row. */
  lemma {:induction false} LatestPriceIsLastPresent(s: seq<Price>)
    ensures LastPresent(s).None? ==> LatestPrice(s).None?
    ensures LastPresent(s).Some? ==> LatestPrice(s) == s[LastPresent(s).value]
  {
    if s != [] && s[|s| - 1].None? {
      var init := s[..|s| - 1];
      LatestPriceIsLastPresent(init);
      assert DropMissing(s) == DropMissing(init);
    }
  }

  /** What `shares` shares are worth at `price` per share. */
  function Worth(shares: real, price: real): real
  {
    shares * price
  }

  /** `shares * buy_price`: what the position cost. */
  function PurchaseValue(shares: real, buyPrice: real): (r: real)
    ensures shares >= 0.0 && buyPrice >= 0.0 ==> r >= 0.0
    ensures r == 0.0 <==> shares == 0.0 || buyPrice == 0.0
  {
    Worth(shares, buyPrice)
  }

  /**
   * Profit as a percentage of the purchase value, defined as zero when the
   * purchase value is zero instead of dividing by zero.
   */
  function ProfitPercent(profit: real, purchaseValue: real): (r: real)
    ensures purchaseValue == 0.0 ==> r == 0.0
    ensures purchaseValue != 0.0 ==> r * purchaseValue == profit * 100.0
  {
    if purchaseValue != 0.0 then (profit / purchaseValue) * 100.0 else 0.0
  }

  /** A price times a share count; a missing price stays missing. */
  function Scale(p: Price, shares: real): Price
  {
    match p
    case None => None
    case Some(x) => Some(Worth(shares, x))
  }

  /** A value less a constant; a missing value stays missing. */
  function Offset(v: Price, amount: real): Price
  {
    match v
    case None => None
    case Some(x) => Some(x - amount)
  }

  /** `price_series * shares`: the portfolio value on every row. */
  function ValueSeries(prices: seq<Price>, shares: real): (r: seq<Price>)
    ensures |r| == |prices|
    ensures forall i :: 0 <= i < |r| ==> (r[i].Some? <==> prices[i].Some?)
    ensures forall i :: 0 <= i < |r| ==> r[i] == Scale(prices[i], shares)
  {
    seq(|prices|, i requires 0 <= i < |prices| => Scale(prices[i], shares))
  }

  /** `value_series - purchase_value`: the profit on every row. */
  function ProfitSeries(values: seq<Price>, purchaseValue: real): (r: seq<Price>)
    ensures |r| == |values|
    ensures forall i :: 0 <= i < |r| ==> (r[i].Some? <==> values[i].Some?)
    ensures forall i :: 0 <= i < |r| ==> r[i] == Offset(values[i], purchaseValue)
  {
    seq(|values|, i requires 0 <= i < |values| => Offset(values[i], purchaseValue))
  }

  /** The summary figures: purchase value, latest price, current value, profit and profit percent. */
  datatype Summary = Summary(
    purchaseValue: real,
    latestPrice: real,
    currentValue: real,
    profit: real,
    profitPct: real)

  /** Everything the valuation produces for one price series and one position. */
  datatype Report = Report(
    prices: Series,
    values: Series,
    profits: Series,
    summary: Summary)

  /**
   * The summary figures for `shares` bought at `buyPrice`, read at the latest
   * price of `prices`; `None` where `dropna().iloc[-1]` raises.
   */
  function Summarize(prices: seq<Price>, shares: real, buyPrice: real): (r: Option<Summary>)
    ensures r.None? <==> forall i :: 0 <= i < |prices| ==> prices[i].None?
    ensures r.Some? ==>
      && Some(r.value.latestPrice) == LatestPrice(prices)
      && r.value.purchaseValue == PurchaseValue(shares, buyPrice)
      && r.value.currentValue == Worth(shares, r.value.latestPrice)
      && r.value.profit == r.value.currentValue - r.value.purchaseValue
      && (r.value.purchaseValue == 0.0 ==> r.value.profitPct == 0.0)
      && (r.value.purchaseValue != 0.0 ==> r.value.profitPct * r.value.purchaseValue == r.value.profit * 100.0)
  {
    match LatestPrice(prices)
    case None => None
    case Some(latest) =>
      var purchaseValue := PurchaseValue(shares, buyPrice);
      var currentValue := Worth(shares, latest);
      var profit := currentValue - purchaseValue;
      Some(Summary(purchaseValue, latest, currentValue, profit, ProfitPercent(profit, purchaseValue)))
  }

  /**
   * The valuation of `shares` bought at `buyPrice` against `prices`. `None`
   * when every price is missing, where `dropna().iloc[-1]` raises.
   */
  function Valuate(prices: Series, shares: real, buyPrice: real): (r: Option<Report>)
    requires prices.Valid()
    ensures r.None? <==> forall i :: 0 <= i < |prices.values| ==> prices.values[i].None?
    ensures r.Some? ==> LastPresent(prices.values).Some?
    // the three series share one row index
    ensures r.Some? ==>
      && r.value.prices == prices
      && r.value.values.index == prices.index && r.value.values.Valid()
      && r.value.profits.index == prices.index && r.value.profits.Valid()
    // pointwise value and profit
    ensures r.Some? ==> forall i :: 0 <= i < |prices.values| ==>
      && r.value.values.values[i] == Scale(prices.values[i], shares)
      && r.value.profits.values[i] == Offset(r.value.values.values[i], r.value.summary.purchaseValue)
    // the summary is that of the position against this price column
    ensures r.Some? ==> Summarize(prices.values, shares, buyPrice) == Some(r.value.summary)
  {
    match Summarize(prices.values, shares, buyPrice)
    case None => None
    case Some(sum) =>
      var values := ValueSeries(prices.values, shares);
      Some(Report(
        prices,
        Series(prices.index, values),
        Series(prices.index, ProfitSeries(values, sum.purchaseValue)),
        sum))
  }

  /**
   * The summary is the derived series read at the last quoted row: there the
   * price is the latest price, the portfolio value is the current value and
   * the profit is the summary profit.
   */
  lemma {:induction false} SummaryIsSeriesAtLatest(prices: Series, shares: real, buyPrice: real)
    requires prices.Valid() && Valuate(prices, shares, buyPrice).Some?
    ensures
      var rep := Valuate(prices, shares, buyPrice).value;
      var k := LastPresent(prices.values).value;
      && prices.values[k] == Some(rep.summary.latestPrice)
      && rep.values.values[k] == Some(rep.summary.currentValue)
      && rep.profits.values[k] == Some(rep.summary.profit)
  {
    var rep := Valuate(prices, shares, buyPrice).value;
    var k := LastPresent(prices.values).value;
    var sum := rep.summary;
    assert prices.values[k] == Some(sum.latestPrice) by {
      LatestPriceIsLastPresent(prices.values);
    }
    var v := rep.values.values[k];
    assert v.Some? && v.value == sum.currentValue by {
      assert v == Scale(Some(sum.latestPrice), shares);
    }
    var g := rep.profits.values[k];
    assert g.Some? && g.value == sum.profit by {
      assert g == Offset(v, sum.purchaseValue);
    }
  }

  /**
   * The date of the latest price: the row of the last quoted price, `None`
   * when there is none. This is the date the latest-data row should carry.
   */
  function LatestRowDate(prices: Series): (r: Option<Date>)
    requires prices.Valid()
    ensures r.None? <==> LatestPrice(prices.values).None?
    ensures r.Some? ==> forall k :: IsLastQuotedRow(prices.values, k) ==> r.value == prices.index[k]
  {
    LatestPriceIsLastPresent(prices.values);
    match LastPresent(prices.values)
    case None => None
    case Some(k) => Some(prices.index[k])
  }

  /**
   * The date stock-tracker.py puts on its latest-data row: the date of the last row,
   * whether or not that row has a price.
   */
  function LatestRowDateAsWritten(prices: Series): (r: Date)
    requires prices.Valid() && |prices.index| > 0
    ensures r in prices.index
  {
    prices.index[|prices.index| - 1]
  }

  /**
   * With a missing quote on the last row, the latest-data row as written pairs the
   * last row's date with the previous row's price.
   */
  lemma LatestRowDateAsWrittenMislabels()
    ensures
      var s := Series([Date(0), Date(1)], [Some(100.0), None]);
      && LatestPrice(s.values) == Some(100.0)
      && LatestRowDateAsWritten(s) == Date(1)
      && LatestRowDate(s) == Some(Date(0))
  {
  }

  /** No date appears on two rows of the series. */
  predicate DistinctDates(prices: Series)
  {
    forall i, j :: 0 <= i < j < |prices.index| ==> prices.index[i] != prices.index[j]
  }

  /**
   * The as-written date is the corrected one whenever the last row has a
   * price; when it has none but an earlier row does, and no date repeats,
   * the two dates differ.
   */
  lemma LatestRowDateAsWrittenIsCorrectIff(prices: Series)
    requires prices.Valid() && |prices.index| > 0
    ensures prices.values[|prices.values| - 1].Some? ==>
      LatestRowDate(prices) == Some(LatestRowDateAsWritten(prices))
    ensures DistinctDates(prices) && prices.values[|prices.values| - 1].None? && LatestPrice(prices.values).Some? ==>
      LatestRowDate(prices) != Some(LatestRowDateAsWritten(prices))
  {
    var last := |prices.values| - 1;
    if prices.values[last].Some? {
      assert IsLastQuotedRow(prices.values, last);
    }
    if DistinctDates(prices) && prices.values[last].None? && LatestPrice(prices.values).Some? {
      var k := LastPresent(prices.values).value;
      assert IsLastQuotedRow(prices.values, k);
      assert k < last;
      assert prices.index[k] != prices.index[last];
    }
  }

  /**
   * The percentage does not depend on the number of shares held: it is the
   * relative change from the buy price to the latest price.
   */
  lemma ProfitPercentIsPriceChange(shares: real, buyPrice: real, latest: real)
    requires shares > 0.0 && buyPrice > 0.0
    ensures ProfitPercent(shares * latest - PurchaseValue(shares, buyPrice), PurchaseValue(shares, buyPrice))
      == (latest - buyPrice) / buyPrice * 100.0
  {
  }

  /** With a positive purchase value the percentage has the sign of the profit. */
  lemma ProfitPercentSign(profit: real, purchaseValue: real)
    requires purchaseValue > 0.0
    ensures ProfitPercent(profit, purchaseValue) > 0.0 <==> profit > 0.0
    ensures ProfitPercent(profit, purchaseValue) < 0.0 <==> profit < 0.0
  {
  }

  /**
   * On every quoted row the profit is the share count times the change from
   * the buy price; on every unquoted row value and profit are missing too.
   */
  lemma ProfitSeriesIsPriceGain(prices: Series, shares: real, buyPrice: real, i: nat)
    requires prices.Valid() && Valuate(prices, shares, buyPrice).Some? && i < |prices.values|
    ensures
      var rep := Valuate(prices, shares, buyPrice).value;
      match prices.values[i]
      case None => rep.values.values[i].None? && rep.profits.values[i].None?
      case Some(p) => rep.profits.values[i] == Some(shares * (p - buyPrice))
  {
    var rep := Valuate(prices, shares, buyPrice).value;
    if prices.values[i].Some? {
      var p := prices.values[i].value;
      assert rep.values.values[i] == Scale(prices.values[i], shares) == Some(Worth(shares, p));
      assert rep.summary.purchaseValue == Worth(shares, buyPrice);
      var g := rep.profits.values[i];
      assert g.Some? && g.value == Worth(shares, p) - Worth(shares, buyPrice);
    }
  }

  /**
   * Ten shares bought at 130 and last quoted at 150: bought for 1300, worth
   * 1500, a profit of 200, which is 200/13 (about 15.38) percent.
   */
  lemma ExampleValuation()
    ensures
      var prices := Series([Date(0), Date(1)], [Some(140.0), Some(150.0)]);
      var sum := Valuate(prices, 10.0, 130.0).value.summary;
      && sum.purchaseValue == 1300.0
      && sum.latestPrice == 150.0
      && sum.currentValue == 1500.0
      && sum.profit == 200.0
      && sum.profitPct == 200.0 / 13.0
  {
  }
}
