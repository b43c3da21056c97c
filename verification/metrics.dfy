/** The derived metrics of `update_tabs`: pandas arithmetic on aligned series,
    where a missing operand makes the period missing, `.round(2)`, the
    zero-filled quarterly ratios and the yearly metrics table. */
module Metrics {
  import opened Wrappers
  import opened Tables

  // ---------------------------------------------------------------------
  // Rounding
  // ---------------------------------------------------------------------

  /** Round to the nearest integer, ties to the even one (numpy's rule). */
  function RoundHalfEven(y: real): (n: int)
    ensures -0.5 <= n as real - y <= 0.5
    ensures (n as real - y == 0.5 || y - n as real == 0.5) ==> n % 2 == 0
  {
    var f := y.Floor;
    var d := y - f as real;
    if d < 0.5 then f
    else if d > 0.5 then f + 1
    else if f % 2 == 0 then f
    else f + 1
  }

  /** `.round(2)` on an exact value: the nearest hundredth, ties to even. */
  function Round2(x: real): (r: real)
    ensures (r * 100.0).Floor as real == r * 100.0
    ensures -0.005 <= r - x <= 0.005
    ensures (r - x == 0.005 || x - r == 0.005) ==> (r * 100.0).Floor % 2 == 0
  {
    var n := RoundHalfEven(x * 100.0);
    assert n as real / 100.0 * 100.0 == n as real;
    assert (n as real).Floor == n;
    n as real / 100.0
  }

  /** A value already given in hundredths is left as it is, so rounding twice is rounding once. */
  lemma Round2Idempotent(x: real)
    ensures Round2(Round2(x)) == Round2(x)
  {
    var n := RoundHalfEven(x * 100.0);
    assert Round2(x) * 100.0 == n as real;
    assert (n as real).Floor == n;
  }

  // ---------------------------------------------------------------------
  // Arithmetic with missing values
  // ---------------------------------------------------------------------

  function Plus(a: Option<real>, b: Option<real>): Option<real> {
    if a.Some? && b.Some? then Some(a.value + b.value) else None
  }

  function Minus(a: Option<real>, b: Option<real>): Option<real> {
    if a.Some? && b.Some? then Some(a.value - b.value) else None
  }

  /** Division; a zero divisor gives a missing value rather than an infinity. */
  function Divide(a: Option<real>, b: Option<real>): Option<real> {
    if a.Some? && b.Some? && b.value != 0.0 then Some(a.value / b.value) else None
  }

  function Percent(a: Option<real>): Option<real> {
    if a.Some? then Some(a.value * 100.0) else None
  }

  function Rounded(a: Option<real>): Option<real> {
    if a.Some? then Some(Round2(a.value)) else None
  }

  /** The value of period `i`, missing when the series is shorter. */
  function At(s: Series, i: nat): Option<real> {
    if i < |s| then s[i] else None
  }

  /** Period `i` of a series that may never have been set. */
  function ValueAt(s: Option<Series>, i: nat): Option<real> {
    if s.Some? then At(s.value, i) else None
  }

  // ---------------------------------------------------------------------
  // Quarterly ratios
  // ---------------------------------------------------------------------

  /** One row of the quarterly metrics table: a metric and its value per quarter column. */
  datatype QuarterlyRow = QuarterlyRow(metric: string, columns: seq<string>, values: seq<real>)

  const MarginName := "Operating Profit % of Sales"
  const CoverageName := "Interest Coverage Ratio"

  /** `(op / sales * 100).round(2)` for one quarter. */
  function MarginAt(op: Option<real>, sales: Option<real>): Option<real> {
    Rounded(Percent(Divide(op, sales)))
  }

  /** `(op / interest).round(2)` for one quarter. */
  function CoverageAt(op: Option<real>, interest: Option<real>): Option<real> {
    Rounded(Divide(op, interest))
  }

  /** Operating margin per quarter, with `fillna(0)`: a quarter whose operands
      are missing, or whose sales are zero, shows 0; any other shows the rounded ratio. */
  function MarginValues(op: Series, sales: Series): (v: seq<real>)
    requires |op| == |sales|
    ensures |v| == |op|
    ensures forall i :: 0 <= i < |v| ==>
      if op[i].Some? && sales[i].Some? && sales[i].value != 0.0
      then v[i] == Round2(op[i].value / sales[i].value * 100.0)
      else v[i] == 0.0
  {
    seq(|op|, i requires 0 <= i < |op| => MarginAt(op[i], sales[i]).ValueOr(0.0))
  }

  /** Interest coverage per quarter, with `fillna(0)`. */
  function CoverageValues(op: Series, interest: Series): (v: seq<real>)
    requires |op| == |interest|
    ensures |v| == |op|
    ensures forall i :: 0 <= i < |v| ==>
      if op[i].Some? && interest[i].Some? && interest[i].value != 0.0
      then v[i] == Round2(op[i].value / interest[i].value)
      else v[i] == 0.0
  {
    seq(|op|, i requires 0 <= i < |op| => CoverageAt(op[i], interest[i]).ValueOr(0.0))
  }

  // ---------------------------------------------------------------------
  // Yearly metrics
  // ---------------------------------------------------------------------

  /** What the Market Cap lookup in the top-ratios table found: no such row, or
      the row's value coerced to a number (missing when it is not one). */
  datatype MarketCapCell = NoMarketCapRow | MarketCapValue(value: Option<real>)

  /** The series collected from the sections, each `None` until a matching row
      set it, all aligned on the master window. */
  datatype YearlyInputs = YearlyInputs(
    sales: Option<Series>,
    operatingProfit: Option<Series>,
    netProfit: Option<Series>,
    eps: Option<Series>,
    cashEquivalents: Option<Series>,
    longTermBorrowings: Option<Series>,
    shortTermBorrowings: Option<Series>,
    equity: Option<Series>,
    reserves: Option<Series>,
    cashFromOperations: Option<Series>,
    fixedAssetsPurchased: Option<Series>,
    marketCap: MarketCapCell,
    debtorDays: Option<Series>)

  /** One row of the yearly table: a metric and its value per master period. */
  datatype MetricRow = MetricRow(metric: string, values: seq<Option<real>>)

  /** The yearly table is not built (a required series is unset), is dropped by
      the exception handler, or is built. */
  datatype YearlyOutcome = NotComputed | Dropped | Computed(rows: seq<MetricRow>)

  const YearlyMetricNames: seq<string> := [
    "Sales", "Operating Profit", "Net Profit", "Cash Equivalents",
    "Long Term Borrowings", "Short Term Borrowings",
    "Cash from Operating Activity +", "Fixed Assets Purchased",
    "Free Cash Flow", "Total Capital Employed",
    "ROCE (%)", "ROE (%)", "EV/EBIT", "EPS (Rs)", "DSO/Debtor Days"]

  /** Positions of the derived rows in the table. */
  const FcfRow := 8
  const TceRow := 9
  const RoceRow := 10
  const RoeRow := 11
  const EvEbitRow := 12

  /** `(cash_operating + fixed_assets).round(2)`, only when both series are set. */
  function FreeCashFlow(inp: YearlyInputs, n: nat): Option<Series> {
    if inp.cashFromOperations.Some? && inp.fixedAssetsPurchased.Some? then
      Some(seq(n, i requires 0 <= i < n =>
        Rounded(Plus(ValueAt(inp.cashFromOperations, i), ValueAt(inp.fixedAssetsPurchased, i)))))
    else None
  }

  /** `(equity + reserves + long_term + short_term).round(2)`, only when all four are set. */
  function CapitalEmployed(inp: YearlyInputs, n: nat): Option<Series> {
    if inp.equity.Some? && inp.reserves.Some? && inp.longTermBorrowings.Some? && inp.shortTermBorrowings.Some? then
      Some(seq(n, i requires 0 <= i < n =>
        Rounded(Plus(Plus(Plus(ValueAt(inp.equity, i), ValueAt(inp.reserves, i)),
                          ValueAt(inp.longTermBorrowings, i)),
                     ValueAt(inp.shortTermBorrowings, i)))))
    else None
  }

  /** `(operating_profit / tce * 100).round(2)`, only when the capital employed exists. */
  function ReturnOnCapital(inp: YearlyInputs, n: nat): Option<Series> {
    var tce := CapitalEmployed(inp, n);
    if tce.Some? then
      Some(seq(n, i requires 0 <= i < n =>
        Rounded(Percent(Divide(ValueAt(inp.operatingProfit, i), ValueAt(tce, i))))))
    else None
  }

  /** `(net_profit / (equity + reserves) * 100).round(2)`, only when both are set. */
  function ReturnOnEquity(inp: YearlyInputs, n: nat): Option<Series> {
    if inp.equity.Some? && inp.reserves.Some? then
      Some(seq(n, i requires 0 <= i < n =>
        Rounded(Percent(Divide(ValueAt(inp.netProfit, i),
                               Plus(ValueAt(inp.equity, i), ValueAt(inp.reserves, i)))))))
    else None
  }

  /** The EV/EBIT expression adds and subtracts unset series when a Market Cap row
      exists, which raises and loses the whole table. */
  predicate EvEbitRaises(inp: YearlyInputs) {
    && inp.marketCap.MarketCapValue?
    && (inp.longTermBorrowings.None? || inp.shortTermBorrowings.None? || inp.cashEquivalents.None?)
  }

  /** `((market_cap + long_term + short_term - cash) / operating_profit).round(2)`,
      only when a Market Cap row exists. */
  function EvToEbit(inp: YearlyInputs, n: nat): Option<Series> {
    match inp.marketCap
    case NoMarketCapRow => None
    case MarketCapValue(mc) =>
      Some(seq(n, i requires 0 <= i < n =>
        Rounded(Divide(Minus(Plus(Plus(mc, ValueAt(inp.longTermBorrowings, i)),
                                  ValueAt(inp.shortTermBorrowings, i)),
                             ValueAt(inp.cashEquivalents, i)),
                       ValueAt(inp.operatingProfit, i)))))
  }

  /** A table column for one series: its values, or missing throughout when unset. */
  function Column(s: Option<Series>, n: nat): seq<Option<real>> {
    seq(n, i requires 0 <= i < n => ValueAt(s, i))
  }

  /** The yearly metrics table: built only when operating and net profit are both
      set and EV/EBIT does not raise; fifteen rows in a fixed order, one value per
      master period. */
  function YearlyMetrics(inp: YearlyInputs, n: nat): (r: YearlyOutcome)
    ensures r.Computed? <==> inp.operatingProfit.Some? && inp.netProfit.Some? && !EvEbitRaises(inp)
    ensures r.Dropped? <==> inp.operatingProfit.Some? && inp.netProfit.Some? && EvEbitRaises(inp)
    ensures r.Computed? ==> |r.rows| == |YearlyMetricNames|
    ensures r.Computed? ==> forall k :: 0 <= k < |r.rows| ==>
      r.rows[k].metric == YearlyMetricNames[k] && |r.rows[k].values| == n
  {
    if inp.operatingProfit.None? || inp.netProfit.None? then NotComputed
    else if EvEbitRaises(inp) then Dropped
    else
      Computed(seq(|YearlyMetricNames|, k requires 0 <= k < |YearlyMetricNames| =>
        MetricRow(YearlyMetricNames[k], YearlyColumn(inp, n, k))))
  }

  /** The values of row `k` of the yearly table, in row order. */
  function YearlyColumn(inp: YearlyInputs, n: nat, k: nat): (c: seq<Option<real>>)
    ensures |c| == n
  {
    Column(
      if k == 0 then inp.sales
      else if k == 1 then inp.operatingProfit
      else if k == 2 then inp.netProfit
      else if k == 3 then inp.cashEquivalents
      else if k == 4 then inp.longTermBorrowings
      else if k == 5 then inp.shortTermBorrowings
      else if k == 6 then inp.cashFromOperations
      else if k == 7 then inp.fixedAssetsPurchased
      else if k == FcfRow then FreeCashFlow(inp, n)
      else if k == TceRow then CapitalEmployed(inp, n)
      else if k == RoceRow then ReturnOnCapital(inp, n)
      else if k == RoeRow then ReturnOnEquity(inp, n)
      else if k == EvEbitRow then EvToEbit(inp, n)
      else if k == 13 then inp.eps
      else inp.debtorDays,
      n)
  }

  /** The rows copied from the sections show each series as collected, and an
      unset series as missing in every period, never as zero. */
  lemma YearlyPassThrough(inp: YearlyInputs, n: nat, i: nat)
    requires YearlyMetrics(inp, n).Computed? && i < n
    ensures var rows := YearlyMetrics(inp, n).rows;
      && rows[0].values[i] == ValueAt(inp.sales, i)
      && rows[1].values[i] == ValueAt(inp.operatingProfit, i)
      && rows[2].values[i] == ValueAt(inp.netProfit, i)
      && rows[3].values[i] == ValueAt(inp.cashEquivalents, i)
      && rows[4].values[i] == ValueAt(inp.longTermBorrowings, i)
      && rows[5].values[i] == ValueAt(inp.shortTermBorrowings, i)
      && rows[6].values[i] == ValueAt(inp.cashFromOperations, i)
      && rows[7].values[i] == ValueAt(inp.fixedAssetsPurchased, i)
      && rows[13].values[i] == ValueAt(inp.eps, i)
      && rows[14].values[i] == ValueAt(inp.debtorDays, i)
  {
  }

  /** Free cash flow exists for a period exactly when both of its inputs have a
      value there, and is then their rounded sum. */
  lemma YearlyFreeCashFlow(inp: YearlyInputs, n: nat, i: nat)
    requires YearlyMetrics(inp, n).Computed? && i < n
    ensures var v := YearlyMetrics(inp, n).rows[FcfRow].values[i];
      var cfo := ValueAt(inp.cashFromOperations, i);
      var fa := ValueAt(inp.fixedAssetsPurchased, i);
      && (v.Some? <==> cfo.Some? && fa.Some?)
      && (v.Some? ==> v.value == Round2(cfo.value + fa.value))
  {
  }

  /** Capital employed exists for a period exactly when all four inputs have a
      value there, and is then their rounded sum. */
  lemma YearlyCapitalEmployed(inp: YearlyInputs, n: nat, i: nat)
    requires YearlyMetrics(inp, n).Computed? && i < n
    ensures var v := YearlyMetrics(inp, n).rows[TceRow].values[i];
      var e := ValueAt(inp.equity, i);
      var res := ValueAt(inp.reserves, i);
      var lt := ValueAt(inp.longTermBorrowings, i);
      var st := ValueAt(inp.shortTermBorrowings, i);
      && (v.Some? <==> e.Some? && res.Some? && lt.Some? && st.Some?)
      && (v.Some? ==> v.value == Round2(e.value + res.value + lt.value + st.value))
  {
  }

  /** ROCE exists for a period exactly when operating profit and all four capital
      inputs have a value there and the rounded capital employed is not zero. */
  lemma YearlyReturnOnCapital(inp: YearlyInputs, n: nat, i: nat)
    requires YearlyMetrics(inp, n).Computed? && i < n
    ensures var v := YearlyMetrics(inp, n).rows[RoceRow].values[i];
      var op := ValueAt(inp.operatingProfit, i);
      var e := ValueAt(inp.equity, i);
      var res := ValueAt(inp.reserves, i);
      var lt := ValueAt(inp.longTermBorrowings, i);
      var st := ValueAt(inp.shortTermBorrowings, i);
      && (v.Some? <==> op.Some? && e.Some? && res.Some? && lt.Some? && st.Some?
                       && Round2(e.value + res.value + lt.value + st.value) != 0.0)
      && (v.Some? ==> v.value == Round2(op.value / Round2(e.value + res.value + lt.value + st.value) * 100.0))
  {
    var tce := CapitalEmployed(inp, n);
    if tce.Some? {
      assert ValueAt(tce, i) == tce.value[i];
    }
  }

  /** ROE exists for a period exactly when net profit, equity and reserves have a
      value there and equity plus reserves is not zero. */
  lemma YearlyReturnOnEquity(inp: YearlyInputs, n: nat, i: nat)
    requires YearlyMetrics(inp, n).Computed? && i < n
    ensures var v := YearlyMetrics(inp, n).rows[RoeRow].values[i];
      var np := ValueAt(inp.netProfit, i);
      var e := ValueAt(inp.equity, i);
      var res := ValueAt(inp.reserves, i);
      && (v.Some? <==> np.Some? && e.Some? && res.Some? && e.value + res.value != 0.0)
      && (v.Some? ==> v.value == Round2(np.value / (e.value + res.value) * 100.0))
  {
  }

  /** EV/EBIT exists for a period exactly when the Market Cap row holds a number,
      borrowings, cash and operating profit have a value there and operating profit
      is not zero. */
  lemma YearlyEvToEbit(inp: YearlyInputs, n: nat, i: nat)
    requires YearlyMetrics(inp, n).Computed? && i < n
    ensures var v := YearlyMetrics(inp, n).rows[EvEbitRow].values[i];
      var op := ValueAt(inp.operatingProfit, i);
      var lt := ValueAt(inp.longTermBorrowings, i);
      var st := ValueAt(inp.shortTermBorrowings, i);
      var cash := ValueAt(inp.cashEquivalents, i);
      && (v.Some? <==> inp.marketCap.MarketCapValue? && inp.marketCap.value.Some?
                       && lt.Some? && st.Some? && cash.Some? && op.Some? && op.value != 0.0)
      && (v.Some? ==> v.value == Round2((inp.marketCap.value.value + lt.value + st.value - cash.value) / op.value))
  {
  }
}
