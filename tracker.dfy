/**
 * One render pass of the tracker: ticker check, fetch acceptance, choice of
 * the price column and valuation, with the pass's terminal outcome.
 */
module Tracker {
  import opened Wrappers
  import opened PriceData
  import opened Valuation

  /** How a render pass ends. */
  datatype Outcome =
    | NoTicker                 // the ticker is blank: nothing is fetched
    | Unavailable              // no usable history for the ticker and dates
    | NoClosePrices            // the history has neither price column
    | LatestPriceMissing       // every price is missing: `iloc[-1]` raises
    | Valued(report: Report)   // the valuation and its derived series

  /**
   * A render pass for the normalised `ticker`, where `provided` is what the
   * price provider returned for it (`None` when the provider raised), for
   * `shares` bought at `buyPrice`.
   */
  function Run(ticker: string, provided: Option<Table>, shares: real, buyPrice: real): (r: Outcome)
    requires provided.Some? ==> provided.value.Valid()
    ensures r.NoTicker? <==> ticker == ""
    ensures r.Unavailable? <==> ticker != "" && AcceptFetched(provided).None?
    ensures r.Valued? <==>
      && ticker != ""
      && AcceptFetched(provided).Some?
      && exists i :: 0 <= i < |provided.value.index| && provided.value.columns[CLOSE][i].Some?
    ensures r.Valued? ==> r.report.prices.index == provided.value.index
    ensures r.Valued? ==>
      Some(r.report) == Valuate(Series(provided.value.index, provided.value.columns[CLOSE]), shares, buyPrice)
  {
    if ticker == "" then NoTicker
    else
      var hist := AcceptFetched(provided);
      if hist.None? || hist.value.IsEmpty() then Unavailable
      else
        match SelectPriceSeries(hist.value)
        case None => NoClosePrices
        case Some(prices) =>
          match Valuate(prices, shares, buyPrice)
          case None => LatestPriceMissing
          case Some(report) => Valued(report)
  }

  /**
   * The fallback to the adjusted close is dead code: every accepted table has
   * a close column, so the valuation always reads it and a pass never ends
   * for want of a price column.
   */
  lemma AdjustedCloseNeverUsed(ticker: string, provided: Option<Table>, shares: real, buyPrice: real)
    requires provided.Some? ==> provided.value.Valid()
    ensures !Run(ticker, provided, shares, buyPrice).NoClosePrices?
    ensures Run(ticker, provided, shares, buyPrice).Valued? ==>
      Run(ticker, provided, shares, buyPrice).report.prices.values == provided.value.columns[CLOSE]
  {
  }

  /**
   * A pass raises at `iloc[-1]` exactly when the table is accepted but every
   * close price in it is missing.
   */
  lemma LatestPriceMissingIff(ticker: string, provided: Option<Table>, shares: real, buyPrice: real)
    requires provided.Some? ==> provided.value.Valid()
    ensures Run(ticker, provided, shares, buyPrice).LatestPriceMissing? <==>
      && ticker != ""
      && AcceptFetched(provided).Some?
      && forall i :: 0 <= i < |provided.value.index| ==> provided.value.columns[CLOSE][i].None?
  {
  }
}
