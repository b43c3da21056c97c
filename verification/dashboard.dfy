/** The computational slice of the `update_tabs` callback: which tables are
    shown and with which columns, how each series is found across a section's
    tables, the quarterly metrics, and the assembly of the whole view. Widget
    styling, charts and the spreadsheet download are not modelled. */
module Dashboard {
  import opened Wrappers
  import opened Text
  import opened Tables
  import opened Scrape
  import opened Periods
  import opened Metrics

  /** The order `section_tables` lists its sections in. */
  const SectionOrder: seq<string> := SectionIds + [TopRatiosId]

  const EnterSymbolMessage := "Please enter a stock symbol."
  const NoYearsMessage := "No fiscal year columns found."
  const ScrapeErrorMessage := "Error scraping stock: list index out of range"

  /** Row-label patterns, as literal text matched ignoring case. */
  const SalesPattern := "Sales"
  const OperatingProfitPattern := "Operating Profit"
  const InterestPattern := "Interest"
  const NetProfitPattern := "Net Profit"
  const EpsPattern := "EPS in Rs"
  const CashPattern := "Cash"
  const LongTermPattern := "Long term Borrowings"
  const ShortTermPattern := "Short term Borrowings"
  const EquityPattern := "Equity"
  const ReservesPattern := "Reserves"
  const CashFromOperationsPattern := "Cash from Operating Activity +"
  const FixedAssetsPattern := "Fixed assets purchased"
  const MarketCapPattern := "Market Cap"
  const DebtorDaysPattern := "Debtor Days"

  const CompanyColumn := "Company"
  const ValueColumn := "Value"

  /** `SECTION_NAMES.get(section_id, section_id)`. */
  function SectionTitle(id: string): string {
    if id == "quarters" then "Qtrly. P&L"
    else if id == "profit-loss" then "Yearly P&L"
    else if id == "peers" then "Peers"
    else if id == "balance-sheet" then "Balance Sheet"
    else if id == "cash-flow" then "Cash Flow"
    else if id == "ratios" then "Ratios"
    else if id == "shareholding" then "Shareholding"
    else if id == "top-ratios" then "Top Ratios"
    else id
  }

  /** The name a section's first column is given. */
  function LabelColumn(id: string): string {
    if id == "peers" then CompanyColumn else ParametersColumn
  }

  /** The tables of a section, or none when the section is absent. */
  function SectionTables(sections: map<string, seq<Table>>, id: string): seq<Table> {
    if id in sections then sections[id] else []
  }

  /** The non-empty tables, in order. */
  function NonEmpty(ts: seq<Table>): (r: seq<Table>)
    ensures |r| <= |ts|
    ensures forall k :: 0 <= k < |r| ==> !IsEmpty(r[k]) && r[k] in ts
    ensures forall t :: t in ts && !IsEmpty(t) ==> t in r
  {
    if |ts| == 0 then []
    else
      var rest := NonEmpty(ts[1..]);
      assert forall t :: t in ts ==> t == ts[0] || t in ts[1..];
      if IsEmpty(ts[0]) then rest else [ts[0]] + rest
  }

  /** Skipping empty tables keeps the order and the repetitions of the others. */
  lemma {:induction false} NonEmptyAppend(a: seq<Table>, b: seq<Table>)
    ensures NonEmpty(a + b) == NonEmpty(a) + NonEmpty(b)
  {
    if |a| == 0 {
      assert a + b == b;
    } else {
      assert (a + b)[0] == a[0];
      assert (a + b)[1..] == a[1..] + b;
      NonEmptyAppend(a[1..], b);
    }
  }

  /** The tables the callback walks for one section: only the first for the yearly
      P&L and shareholding, empty ones skipped, the first column renamed to the
      section's label column. */
  function ShownTables(id: string, ts: seq<Table>): (r: seq<Table>)
    ensures (id == "profit-loss" || id == "shareholding") ==> |r| <= 1
    ensures forall k :: 0 <= k < |r| ==> !IsEmpty(r[k]) && r[k].header[0] == LabelColumn(id)
  {
    var walked := if (id == "profit-loss" || id == "shareholding") && |ts| > 1 then ts[..1] else ts;
    RenameEach(NonEmpty(walked), LabelColumn(id))
  }

  /** Every table with its first column renamed to `name`. */
  function RenameEach(ts: seq<Table>, name: string): (r: seq<Table>)
    ensures |r| == |ts|
  {
    seq(|ts|, k requires 0 <= k < |ts| => RenameFirst(ts[k], name))
  }

  lemma RenameEachAppend(a: seq<Table>, b: seq<Table>, name: string)
    ensures RenameEach(a + b, name) == RenameEach(a, name) + RenameEach(b, name)
  {
    var l, r := RenameEach(a + b, name), RenameEach(a, name) + RenameEach(b, name);
    forall k | 0 <= k < |l|
      ensures l[k] == r[k]
    {
      if k < |a| {
        assert (a + b)[k] == a[k];
      } else {
        assert (a + b)[k] == b[k - |a|];
      }
    }
  }

  /** The yearly P&L and shareholding show at most their first table, and only when it is non-empty. */
  lemma FirstTableOnly(id: string, ts: seq<Table>)
    requires id == "profit-loss" || id == "shareholding"
    ensures ShownTables(id, ts) == if |ts| > 0 && !IsEmpty(ts[0]) then [RenameFirst(ts[0], ParametersColumn)] else []
  {
    if |ts| > 0 {
      var first := ts[..1];
      assert first == [ts[0]];
      assert first[1..] == [];
      assert NonEmpty(first) == (if IsEmpty(ts[0]) then [] else [ts[0]]);
    }
  }

  /** Every other section shows one renamed table for each non-empty table it has, in order. */
  lemma ShownTablesAppend(id: string, a: seq<Table>, b: seq<Table>)
    requires id != "profit-loss" && id != "shareholding"
    ensures ShownTables(id, a + b) == ShownTables(id, a) + ShownTables(id, b)
  {
    NonEmptyAppend(a, b);
    RenameEachAppend(NonEmpty(a), NonEmpty(b), LabelColumn(id));
  }

  lemma ShownTablesSingle(id: string, t: Table)
    requires id != "profit-loss" && id != "shareholding"
    ensures ShownTables(id, [t]) == if IsEmpty(t) then [] else [RenameFirst(t, LabelColumn(id))]
  {
    assert [t][1..] == [];
  }

  /** The columns of `cols` that are master-window labels, in table order. */
  function KeepMaster(cols: seq<string>, master: seq<string>): (r: seq<string>)
    ensures |r| <= |cols|
    ensures forall c :: c in r <==> c in cols && c in master
  {
    if |cols| == 0 then []
    else
      var rest := KeepMaster(cols[1..], master);
      assert forall c :: c in cols <==> c == cols[0] || c in cols[1..];
      if cols[0] in master then [cols[0]] + rest else rest
  }

  /** Filtering keeps table order: the filter of two pieces is the two filters in sequence. */
  lemma {:induction false} KeepMasterAppend(a: seq<string>, b: seq<string>, master: seq<string>)
    ensures KeepMaster(a + b, master) == KeepMaster(a, master) + KeepMaster(b, master)
  {
    if |a| == 0 {
      assert a + b == b;
    } else {
      assert (a + b)[1..] == a[1..] + b;
      KeepMasterAppend(a[1..], b, master);
    }
  }

  /** The columns a section's tab shows: every column for quarters, peers,
      shareholding and top ratios; otherwise the label column followed by the
      master-window columns of the table. */
  function DisplayColumns(id: string, header: seq<string>, master: seq<string>): (r: seq<string>)
    ensures id !in {"quarters", "peers", "shareholding", "top-ratios"} ==>
      && |r| > 0 && r[0] == ParametersColumn
      && (forall c :: c in r[1..] <==> c in (if |header| > 0 then header[1..] else []) && c in master)
    ensures id in {"quarters", "peers", "shareholding", "top-ratios"} ==> r == header
  {
    if id in {"quarters", "peers", "shareholding", "top-ratios"} then header
    else
      var r := [ParametersColumn] + KeepMaster(if |header| > 0 then header[1..] else [], master);
      assert r[1..] == KeepMaster(if |header| > 0 then header[1..] else [], master);
      r
  }

  /** `df[display_cols].fillna('')` for one record. */
  function ProjectRow(r: Row, cols: seq<string>): (p: Row)
    ensures forall c :: c in p <==> c in cols
    ensures forall c :: c in cols && c in r ==> p[c] == r[c]
    ensures forall c :: c in cols && c !in r ==> p[c] == ""
  {
    map c | c in cols :: if c in r then r[c] else ""
  }

  /** A record that has exactly the displayed columns is shown unchanged. */
  lemma ProjectWholeRow(r: Row, cols: seq<string>)
    requires forall c :: c in r <==> c in cols
    ensures ProjectRow(r, cols) == r
  {
    var p := ProjectRow(r, cols);
    assert p.Keys == r.Keys;
  }

  datatype Tab =
    | SectionTab(section: string, title: string, columns: seq<string>, rows: seq<Row>)
    | CalculatedTab(quarterly: seq<QuarterlyRow>, yearly: seq<MetricRow>)
    | NoDataTab

  /** What the callback returns: a bare message with no tabs, or tabs and the status line. */
  datatype View = Message(status: string) | Tabs(tabs: seq<Tab>, status: string)

  /** One tab per shown table of the section. */
  function SectionTabs(id: string, ts: seq<Table>, master: seq<string>): (r: seq<Tab>)
    ensures |r| == |ShownTables(id, ts)|
    ensures ts == [] ==> r == []
    ensures forall k :: 0 <= k < |r| ==>
      var t := ShownTables(id, ts)[k];
      && r[k].SectionTab? && r[k].section == id && r[k].title == SectionTitle(id)
      && r[k].columns == DisplayColumns(id, t.header, master)
      && |r[k].rows| == |t.rows|
      && forall j :: 0 <= j < |t.rows| ==> r[k].rows[j] == ProjectRow(t.rows[j], r[k].columns)
  {
    var shown := ShownTables(id, ts);
    seq(|shown|, k requires 0 <= k < |shown| =>
      var cols := DisplayColumns(id, shown[k].header, master);
      SectionTab(id, SectionTitle(id), cols,
                 seq(|shown[k].rows|, j requires 0 <= j < |shown[k].rows| => ProjectRow(shown[k].rows[j], cols))))
  }

  function AllSectionTabs(sections: map<string, seq<Table>>, ids: seq<string>, master: seq<string>): seq<Tab> {
    if |ids| == 0 then []
    else SectionTabs(ids[0], SectionTables(sections, ids[0]), master) + AllSectionTabs(sections, ids[1..], master)
  }

  // ---------------------------------------------------------------------
  // Series across a section's tables
  // ---------------------------------------------------------------------

  /** The loop body for one table: a matching row replaces the series, otherwise it is kept. */
  function Overwrite(acc: Option<Series>, t: Table, pat: string, cols: seq<string>): Option<Series> {
    match MatchedSeries(t, pat, cols)
    case Some(s) => Some(s)
    case None => acc
  }

  /** The section loop, tables in order, starting from `acc`. */
  function ScanSeries(ts: seq<Table>, pat: string, cols: seq<string>, acc: Option<Series>): Option<Series> {
    if |ts| == 0 then acc else ScanSeries(ts[1..], pat, cols, Overwrite(acc, ts[0], pat, cols))
  }

  /** Index of the last table with a matching row. */
  function LastMatchingTable(ts: seq<Table>, pat: string): (m: Option<nat>)
    ensures m.None? <==> forall k :: 0 <= k < |ts| ==> !HasLabel(ts[k], pat)
    ensures m.Some? ==> m.value < |ts| && HasLabel(ts[m.value], pat)
    ensures m.Some? ==> forall k :: m.value < k < |ts| ==> !HasLabel(ts[k], pat)
  {
    if |ts| == 0 then None
    else
      assert forall k :: 1 <= k < |ts| ==> ts[k] == ts[1..][k - 1];
      match LastMatchingTable(ts[1..], pat)
      case Some(k) => Some(k + 1)
      case None => if HasLabel(ts[0], pat) then Some(0) else None
  }

  /** The series a section ends with comes from the last table holding a matching
      row (its first such row); with no match anywhere it is whatever it was before. */
  lemma {:induction false} ScanSeriesIsLastMatch(ts: seq<Table>, pat: string, cols: seq<string>, acc: Option<Series>)
    ensures ScanSeries(ts, pat, cols, acc) ==
      match LastMatchingTable(ts, pat)
      case Some(k) => MatchedSeries(ts[k], pat, cols)
      case None => acc
  {
    if |ts| > 0 {
      ScanSeriesIsLastMatch(ts[1..], pat, cols, Overwrite(acc, ts[0], pat, cols));
    }
  }

  /** Where a section's series comes from: the first matching row of its last
      table holding one, and nothing when no table has a matching row. */
  function SectionSeries(ts: seq<Table>, pat: string, cols: seq<string>): (s: Option<Series>)
    ensures s.Some? <==> exists k :: 0 <= k < |ts| && HasLabel(ts[k], pat)
    ensures s.Some? ==> |s.value| == |cols|
  {
    match LastMatchingTable(ts, pat)
    case Some(k) => MatchedSeries(ts[k], pat, cols)
    case None => None
  }

  /** The last table walked for a section, if any (`ratios_df`, `top_ratios_df`). */
  function LastTable(ts: seq<Table>): Option<Table> {
    if |ts| == 0 then None else Some(ts[|ts| - 1])
  }

  /** The Market Cap lookup in the top-ratios table. */
  function MarketCapOf(topRatios: Option<Table>): (m: MarketCapCell)
    ensures m.NoMarketCapRow? <==> topRatios.None? || !HasLabel(topRatios.value, MarketCapPattern)
  {
    match topRatios
    case None => NoMarketCapRow
    case Some(t) =>
      match FirstMatch(t.rows, ParametersColumn, MarketCapPattern)
      case None => NoMarketCapRow
      case Some(k) =>
        MarketCapValue(if ValueColumn in t.rows[k] then ParseNumber(t.rows[k][ValueColumn]) else None)
  }

  /** The figure is the coerced Value cell of the first row labelled Market Cap;
      a row without that cell gives a missing figure. */
  lemma MarketCapFirstRow(t: Table, k: nat)
    requires k < |t.rows| && LabelMatches(t.rows[k], ParametersColumn, MarketCapPattern)
    requires forall j :: 0 <= j < k ==> !LabelMatches(t.rows[j], ParametersColumn, MarketCapPattern)
    ensures MarketCapOf(Some(t)) ==
      MarketCapValue(if ValueColumn in t.rows[k] then ParseNumber(t.rows[k][ValueColumn]) else None)
  {
    var m := FirstMatch(t.rows, ParametersColumn, MarketCapPattern);
    assert m.Some?;
    assert !(m.value < k) && !(m.value > k);
  }

  /** The Debtor Days row, looked up only in the last ratios table. */
  function DebtorDaysOf(ratios: Option<Table>, master: seq<string>): (s: Option<Series>)
    ensures s.Some? <==> ratios.Some? && HasLabel(ratios.value, DebtorDaysPattern)
    ensures s.Some? ==> |s.value| == |master|
  {
    match ratios
    case None => None
    case Some(t) => MatchedSeries(t, DebtorDaysPattern, master)
  }

  /** Everything the yearly metrics read, collected from the shown tables. */
  function CollectInputs(sections: map<string, seq<Table>>, master: seq<string>): YearlyInputs
  {
    var pl := ShownTables("profit-loss", SectionTables(sections, "profit-loss"));
    var bs := ShownTables("balance-sheet", SectionTables(sections, "balance-sheet"));
    var cf := ShownTables("cash-flow", SectionTables(sections, "cash-flow"));
    var ratios := ShownTables("ratios", SectionTables(sections, "ratios"));
    var top := ShownTables(TopRatiosId, SectionTables(sections, TopRatiosId));
    YearlyInputs(
      ScanSeries(pl, SalesPattern, master, None),
      ScanSeries(pl, OperatingProfitPattern, master, None),
      ScanSeries(pl, NetProfitPattern, master, None),
      ScanSeries(pl, EpsPattern, master, None),
      ScanSeries(bs, CashPattern, master, None),
      ScanSeries(bs, LongTermPattern, master, None),
      ScanSeries(bs, ShortTermPattern, master, None),
      ScanSeries(bs, EquityPattern, master, None),
      ScanSeries(bs, ReservesPattern, master, None),
      ScanSeries(cf, CashFromOperationsPattern, master, None),
      ScanSeries(cf, FixedAssetsPattern, master, None),
      MarketCapOf(LastTable(top)),
      DebtorDaysOf(LastTable(ratios), master))
  }

  /** Each yearly input comes from its own section: the P&L series from the yearly
      P&L, the borrowings, cash, equity and reserves from the balance sheet, the
      operating cash flow and fixed assets from the cash flow, each from the last
      shown table holding a matching row; Market Cap from the last top-ratios table
      and Debtor Days from the last ratios table. */
  lemma CollectInputsSources(sections: map<string, seq<Table>>, master: seq<string>)
    ensures var inp := CollectInputs(sections, master);
      var pl := ShownTables("profit-loss", SectionTables(sections, "profit-loss"));
      && inp.sales == SectionSeries(pl, SalesPattern, master)
      && inp.operatingProfit == SectionSeries(pl, OperatingProfitPattern, master)
      && inp.netProfit == SectionSeries(pl, NetProfitPattern, master)
      && inp.eps == SectionSeries(pl, EpsPattern, master)
    ensures var inp := CollectInputs(sections, master);
      var bs := ShownTables("balance-sheet", SectionTables(sections, "balance-sheet"));
      && inp.cashEquivalents == SectionSeries(bs, CashPattern, master)
      && inp.longTermBorrowings == SectionSeries(bs, LongTermPattern, master)
      && inp.shortTermBorrowings == SectionSeries(bs, ShortTermPattern, master)
      && inp.equity == SectionSeries(bs, EquityPattern, master)
      && inp.reserves == SectionSeries(bs, ReservesPattern, master)
    ensures var inp := CollectInputs(sections, master);
      var cf := ShownTables("cash-flow", SectionTables(sections, "cash-flow"));
      && inp.cashFromOperations == SectionSeries(cf, CashFromOperationsPattern, master)
      && inp.fixedAssetsPurchased == SectionSeries(cf, FixedAssetsPattern, master)
    ensures CollectInputs(sections, master).marketCap == MarketCapOf(LastTable(ShownTables(TopRatiosId, SectionTables(sections, TopRatiosId))))
    ensures CollectInputs(sections, master).debtorDays == DebtorDaysOf(LastTable(ShownTables("ratios", SectionTables(sections, "ratios"))), master)
  {
    var pl := ShownTables("profit-loss", SectionTables(sections, "profit-loss"));
    var bs := ShownTables("balance-sheet", SectionTables(sections, "balance-sheet"));
    var cf := ShownTables("cash-flow", SectionTables(sections, "cash-flow"));
    SeriesFromLastTable(pl, SalesPattern, master);
    SeriesFromLastTable(pl, OperatingProfitPattern, master);
    SeriesFromLastTable(pl, NetProfitPattern, master);
    SeriesFromLastTable(pl, EpsPattern, master);
    SeriesFromLastTable(bs, CashPattern, master);
    SeriesFromLastTable(bs, LongTermPattern, master);
    SeriesFromLastTable(bs, ShortTermPattern, master);
    SeriesFromLastTable(bs, EquityPattern, master);
    SeriesFromLastTable(bs, ReservesPattern, master);
    SeriesFromLastTable(cf, CashFromOperationsPattern, master);
    SeriesFromLastTable(cf, FixedAssetsPattern, master);
  }

  lemma SeriesFromLastTable(ts: seq<Table>, pat: string, cols: seq<string>)
    ensures ScanSeries(ts, pat, cols, None) == SectionSeries(ts, pat, cols)
  {
    ScanSeriesIsLastMatch(ts, pat, cols, None);
  }

  // ---------------------------------------------------------------------
  // Quarterly metrics
  // ---------------------------------------------------------------------

  /** The quarterly metrics of one shown quarters table, over all its non-label
      columns: the margin when Sales and Operating Profit rows exist, and the
      interest coverage when an Interest row exists as well. */
  function QuarterlyRows(t: Table): (r: seq<QuarterlyRow>)
    ensures |r| <= 2
    ensures |r| > 0 <==> HasLabel(t, SalesPattern) && HasLabel(t, OperatingProfitPattern)
    ensures |r| == 2 <==> |r| > 0 && HasLabel(t, InterestPattern)
    ensures forall k :: 0 <= k < |r| ==>
      r[k].metric == [MarginName, CoverageName][k] && r[k].columns == (if |t.header| > 0 then t.header[1..] else [])
      && |r[k].values| == |r[k].columns|
    ensures var cols := if |t.header| > 0 then t.header[1..] else [];
      |r| > 0 ==> r[0].values == MarginValues(MatchedSeries(t, OperatingProfitPattern, cols).value,
                                              MatchedSeries(t, SalesPattern, cols).value)
    ensures var cols := if |t.header| > 0 then t.header[1..] else [];
      |r| == 2 ==> r[1].values == CoverageValues(MatchedSeries(t, OperatingProfitPattern, cols).value,
                                                 MatchedSeries(t, InterestPattern, cols).value)
  {
    var cols := if |t.header| > 0 then t.header[1..] else [];
    var sales := MatchedSeries(t, SalesPattern, cols);
    var op := MatchedSeries(t, OperatingProfitPattern, cols);
    var interest := MatchedSeries(t, InterestPattern, cols);
    if sales.Some? && op.Some? then
      var margin := QuarterlyRow(MarginName, cols, MarginValues(op.value, sales.value));
      if interest.Some? then [margin, QuarterlyRow(CoverageName, cols, CoverageValues(op.value, interest.value))]
      else [margin]
    else []
  }

  /** A quarter's margin is non-zero only when both of its cells are numbers and sales are not zero. */
  lemma QuarterlyMarginZeroFill(t: Table, i: nat)
    requires |QuarterlyRows(t)| > 0 && i < |QuarterlyRows(t)[0].values|
    ensures var cols := if |t.header| > 0 then t.header[1..] else [];
      var sales := MatchedSeries(t, SalesPattern, cols).value;
      var op := MatchedSeries(t, OperatingProfitPattern, cols).value;
      var v := QuarterlyRows(t)[0].values[i];
      && (v != 0.0 ==> op[i].Some? && sales[i].Some? && sales[i].value != 0.0)
      && (op[i].Some? && sales[i].Some? && sales[i].value != 0.0 ==> v == Round2(op[i].value / sales[i].value * 100.0))
  {
    var cols := if |t.header| > 0 then t.header[1..] else [];
    var sales := MatchedSeries(t, SalesPattern, cols).value;
    var op := MatchedSeries(t, OperatingProfitPattern, cols).value;
    assert QuarterlyRows(t)[0].values == MarginValues(op, sales);
  }

  function AllQuarterlyRows(ts: seq<Table>): seq<QuarterlyRow> {
    if |ts| == 0 then [] else QuarterlyRows(ts[0]) + AllQuarterlyRows(ts[1..])
  }

  // ---------------------------------------------------------------------
  // The callback
  // ---------------------------------------------------------------------

  /** Every table of every section, in section order: where fiscal years are looked for. */
  function AllTables(sections: map<string, seq<Table>>, ids: seq<string>): seq<Table> {
    if |ids| == 0 then [] else SectionTables(sections, ids[0]) + AllTables(sections, ids[1..])
  }

  /** `update_tabs(n_clicks, symbol)` with the page the scraper would render given as `doc`. */
  function UpdateTabs(symbol: string, doc: Document): (v: View)
    ensures symbol == "" <==> v == Message(EnterSymbolMessage)
    ensures v.Tabs? ==> v.status == StatusLine(Upper(symbol)) && |v.tabs| > 0
  {
    if symbol == "" then Message(EnterSymbolMessage)
    else
      match ScrapeStock(Upper(symbol), doc)
      case Failure(_) => Message(ScrapeErrorMessage)
      case Success(scraped) =>
        var years := CollectYears(AllTables(scraped.sections, SectionOrder));
        if |years| == 0 then Message(NoYearsMessage)
        else
          Tabs(AllTabs(scraped.sections, MasterLabels(years)), scraped.status)
  }

  /** The tabs of a scraped page once the master window is known. */
  function AllTabs(sections: map<string, seq<Table>>, master: seq<string>): (tabs: seq<Tab>)
    ensures |tabs| > 0
  {
    var sectionTabs := AllSectionTabs(sections, SectionOrder, master);
    var quarterly := AllQuarterlyRows(ShownTables("quarters", SectionTables(sections, "quarters")));
    var yearly := YearlyMetrics(CollectInputs(sections, master), |master|);
    var calculated :=
      if |quarterly| > 0 || yearly.Computed? then
        [CalculatedTab(quarterly, if yearly.Computed? then yearly.rows else [])]
      else [];
    var tabs := sectionTabs + calculated;
    if |tabs| == 0 then [NoDataTab] else tabs
  }

  /** Once a symbol is given, the callback stops with the no-fiscal-year message
      exactly when no table of any section has a "Mar <year>" column. */
  lemma UpdateTabsNeedsYears(symbol: string, doc: Document)
    requires symbol != ""
    ensures var sections := ScrapeStock(Upper(symbol), doc).value.sections;
      UpdateTabs(symbol, doc) == Message(NoYearsMessage) <==> |CollectYears(AllTables(sections, SectionOrder))| == 0
  {
    assert EnterSymbolMessage != NoYearsMessage by { assert EnterSymbolMessage[0] != NoYearsMessage[0]; }
  }

  /** The section tabs come first, in section order; one calculated tab follows
      exactly when there is a quarterly metric or the yearly metrics were computed;
      the placeholder tab appears only when there is nothing else to show. */
  lemma AllTabsLayout(sections: map<string, seq<Table>>, master: seq<string>)
    ensures var sectionTabs := AllSectionTabs(sections, SectionOrder, master);
      var quarterly := AllQuarterlyRows(ShownTables("quarters", SectionTables(sections, "quarters")));
      var yearly := YearlyMetrics(CollectInputs(sections, master), |master|);
      var tabs := AllTabs(sections, master);
      && ((|quarterly| > 0 || yearly.Computed?) ==>
            tabs == sectionTabs + [CalculatedTab(quarterly, if yearly.Computed? then yearly.rows else [])])
      && (!(|quarterly| > 0 || yearly.Computed?) ==>
            tabs == if |sectionTabs| == 0 then [NoDataTab] else sectionTabs)
  {
  }

  /** With a symbol and at least one fiscal year, the view is the tabs for the
      scraped sections over the last eight years, under the scraper's status line. */
  lemma UpdateTabsShowsTabs(symbol: string, doc: Document)
    requires symbol != ""
    requires |CollectYears(AllTables(ScrapeStock(Upper(symbol), doc).value.sections, SectionOrder))| > 0
    ensures var sections := ScrapeStock(Upper(symbol), doc).value.sections;
      UpdateTabs(symbol, doc) ==
        Tabs(AllTabs(sections, MasterLabels(CollectYears(AllTables(sections, SectionOrder)))), StatusLine(Upper(symbol)))
  {
    assert |Upper(symbol)| > 0;
  }

  /** Every section tab belongs to a listed section, and outside quarters, peers,
      shareholding and top ratios it shows the label column and then only
      master-window columns. */
  lemma {:induction false} SectionTabColumns(sections: map<string, seq<Table>>, ids: seq<string>, master: seq<string>, k: nat)
    requires k < |AllSectionTabs(sections, ids, master)|
    ensures var tab := AllSectionTabs(sections, ids, master)[k];
      && tab.SectionTab? && tab.section in ids
      && (tab.section !in {"quarters", "peers", "shareholding", "top-ratios"} ==>
            |tab.columns| > 0 && tab.columns[0] == ParametersColumn
            && forall c :: c in tab.columns[1..] ==> c in master)
  {
    var here := SectionTabs(ids[0], SectionTables(sections, ids[0]), master);
    var rest := AllSectionTabs(sections, ids[1..], master);
    assert AllSectionTabs(sections, ids, master) == here + rest;
    if k < |here| {
      assert (here + rest)[k] == here[k];
      SectionTabColumnsHere(ids[0], SectionTables(sections, ids[0]), master, k);
    } else {
      assert (here + rest)[k] == rest[k - |here|];
      SectionTabColumns(sections, ids[1..], master, k - |here|);
    }
  }

  lemma SectionTabColumnsHere(id: string, ts: seq<Table>, master: seq<string>, k: nat)
    requires k < |SectionTabs(id, ts, master)|
    ensures var tab := SectionTabs(id, ts, master)[k];
      && tab.SectionTab? && tab.section == id
      && (id !in {"quarters", "peers", "shareholding", "top-ratios"} ==>
            |tab.columns| > 0 && tab.columns[0] == ParametersColumn
            && forall c :: c in tab.columns[1..] ==> c in master)
  {
    var shown := ShownTables(id, ts)[k];
    assert SectionTabs(id, ts, master)[k].columns == DisplayColumns(id, shown.header, master);
  }

  /** The worked example: an "Equity Capital" row with cells 100 and 120 gives the
      equity series 100, 120 for the two years. */
  lemma EquitySeriesExample()
    ensures MatchedSeries(
      Table(["Parameters", "Mar 2023", "Mar 2024"],
            [map["Parameters" := "Equity Capital", "Mar 2023" := "100", "Mar 2024" := "120"]]),
      EquityPattern, ["Mar 2023", "Mar 2024"]) == Some([Some(100.0), Some(120.0)])
  {
    var r: Row := map["Parameters" := "Equity Capital", "Mar 2023" := "100", "Mar 2024" := "120"];
    EquityRowMatches(r);
    var t := Table(["Parameters", "Mar 2023", "Mar 2024"], [r]);
    assert FirstMatch(t.rows, ParametersColumn, EquityPattern) == Some(0);
    EquityRowValues(r);
  }

  lemma EquityRowMatches(r: Row)
    requires r == map["Parameters" := "Equity Capital", "Mar 2023" := "100", "Mar 2024" := "120"]
    ensures LabelMatches(r, ParametersColumn, EquityPattern)
  {
    assert Lower("Equity") == "equity";
    assert Lower("Equity Capital")[..6] == "equity";
  }

  lemma EquityRowValues(r: Row)
    requires r == map["Parameters" := "Equity Capital", "Mar 2023" := "100", "Mar 2024" := "120"]
    ensures AlignRow(r, ["Mar 2023", "Mar 2024"]) == [Some(100.0), Some(120.0)]
  {
    var cols := ["Mar 2023", "Mar 2024"];
    assert NatToString(100) == "100";
    assert NatToString(120) == "120";
    AlignRowReadsNumbers(r, cols, [100, 120]);
    var a := AlignRow(r, cols);
    assert a[0] == Some(100.0) && a[1] == Some(120.0);
  }
}
