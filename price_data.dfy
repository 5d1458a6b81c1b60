/**
 * The history table returned by the price provider, the filter that
 * `fetch_history` applies to it, and the choice of the price column.
 *
 * A table is a row index of trading days and named columns with one entry per
 * row. A missing quote (pandas' NaN) is `None`; prices are exact reals.
 */
module PriceData {
  import opened Wrappers

  /** A trading day. Only its identity matters to the valuation. */
  datatype Date = Date(ordinal: int)

  /** One entry of a price column: `None` where the provider has no quote. */
  type Price = Option<real>

  /** The column the valuation reads first. */
  const CLOSE: string := "Close"

  /** The column the valuation falls back to when there is no `CLOSE`. */
  const ADJ_CLOSE: string := "Adj Close"

  /** A history table: one row per trading day, columns by name. */
  datatype Table = Table(index: seq<Date>, columns: map<string, seq<Price>>)
  {
    /** Every column holds one entry per row, as in any data frame. */
    predicate Valid()
    {
      forall name :: name in columns ==> |columns[name]| == |index|
    }

    /** `DataFrame.empty`: the table has no rows or no columns. */
    predicate IsEmpty()
    {
      |index| == 0 || |columns| == 0
    }
  }

  /** One column of a table together with the table's row index. */
  datatype Series = Series(index: seq<Date>, values: seq<Price>)
  {
    predicate Valid()
    {
      |index| == |values|
    }
  }

  /**
   * The filter at the end of `fetch_history`. `provided` is what the provider
   * returned, `None` when it raised (every exception is swallowed). A table is
   * passed on only when it has a `CLOSE` column and is not empty.
   */
  function AcceptFetched(provided: Option<Table>): (r: Option<Table>)
    ensures r.Some? <==> provided.Some? && CLOSE in provided.value.columns && |provided.value.index| > 0
    ensures r.Some? ==> r == provided && !r.value.IsEmpty()
  {
    match provided
    case None => None
    case Some(df) => if CLOSE !in df.columns || df.IsEmpty() then None else Some(df)
  }

  /**
   * The price column the valuation uses: `CLOSE` when present, otherwise
   * `ADJ_CLOSE`, otherwise none at all.
   */
  function SelectPriceSeries(hist: Table): (r: Option<Series>)
    requires hist.Valid()
    ensures r.Some? <==> CLOSE in hist.columns || ADJ_CLOSE in hist.columns
    ensures r.Some? ==> r.value.Valid() && r.value.index == hist.index
    ensures CLOSE in hist.columns ==> r.value.values == hist.columns[CLOSE]
    ensures CLOSE !in hist.columns && ADJ_CLOSE in hist.columns ==> r.value.values == hist.columns[ADJ_CLOSE]
  {
    if CLOSE in hist.columns then Some(Series(hist.index, hist.columns[CLOSE]))
    else if ADJ_CLOSE in hist.columns then Some(Series(hist.index, hist.columns[ADJ_CLOSE]))
    else None
  }
}
