/** The section-assembly part of `scrape_stock`: which sections the result
    holds, how their tables are named, the synthetic "top-ratios" section, and
    the status line. The browser session and the HTML parsing are replaced by
    a `Document` that already holds each section's tables and the ratio items. */
module Scrape {
  import opened Wrappers
  import opened Text
  import opened Tables
  import opened TopRatios

  /** The table sections read from the page, in the order the result lists them. */
  const SectionIds: seq<string> :=
    ["quarters", "profit-loss", "peers", "balance-sheet", "cash-flow", "ratios", "shareholding"]

  /** The synthetic section built from the key-ratios list. */
  const TopRatiosId := "top-ratios"

  /** Header `pd.read_html` gives an unlabelled first column, and the name it is given. */
  const UnnamedColumn := "Unnamed: 0"

  const StatusPrefix := "[INFO]: URL: https://www.screener.in/company/"
  const StatusSuffix := "/consolidated/"

  /** The rendered page as the extraction sees it: the tables found under each
      element id (an id with no element is simply absent) and the texts of the
      `<li>` items of the key-ratios list (empty when the list is absent). */
  datatype Document = Document(sections: map<string, seq<Table>>, ratioItems: seq<string>)

  /** `extract_tables_in_section`: the section's tables, or none. */
  function TablesIn(doc: Document, id: string): seq<Table> {
    if id in doc.sections then doc.sections[id] else []
  }

  datatype Scraped = Scraped(status: string, sections: map<string, seq<Table>>)

  /** `results[0]` on an empty list. */
  datatype ScrapeError = IndexError

  /** The first message `scrape_stock` records: the page address it visits. */
  function StatusLine(name: string): string {
    StatusPrefix + name + StatusSuffix
  }

  /** The address can be read back out of the status line. */
  lemma StatusLineNamesStock(name: string)
    ensures var s := StatusLine(name);
      && StartsWith(s, StatusPrefix)
      && |s| == |StatusPrefix| + |name| + |StatusSuffix|
      && s[|StatusPrefix|..|s| - |StatusSuffix|] == name
  {
    var s := StatusLine(name);
    assert s[..|StatusPrefix|] == StatusPrefix;
    assert s[|StatusPrefix|..|s| - |StatusSuffix|] == name;
  }

  /** The ratios DataFrame `pd.DataFrame(ratios)`: columns Metric and Value, one row per record. */
  function RatiosTable(rs: seq<Ratio>): (t: Table)
    ensures t.header == ["Metric", "Value"]
    ensures |t.rows| == |rs|
    ensures forall k :: 0 <= k < |rs| ==>
      Cell(t.rows[k], "Metric") == Some(rs[k].metric) && Cell(t.rows[k], "Value") == Some(rs[k].value)
  {
    Table(["Metric", "Value"],
          seq(|rs|, k requires 0 <= k < |rs| => map["Metric" := rs[k].metric, "Value" := rs[k].value]))
  }

  /** A section's tables with the unlabelled first column renamed. */
  function NameColumns(ts: seq<Table>): seq<Table> {
    seq(|ts|, k requires 0 <= k < |ts| => RenameColumn(ts[k], UnnamedColumn, ParametersColumn))
  }

  /** The `top-ratios` entry: one table when the list yields records, none otherwise. */
  function TopRatiosTables(items: seq<string>): seq<Table> {
    var rs := ExtractTopRatios(items);
    if |rs| > 0 then [RatiosTable(rs)] else []
  }

  /** `scrape_stock(name)` against an already rendered page. An empty name
      records no message, so reading the first message fails. */
  function ScrapeStock(name: string, doc: Document): (r: Result<Scraped, ScrapeError>)
    ensures r.Failure? <==> name == ""
    ensures r.Success? ==> r.value.status == StatusLine(name)
    ensures r.Success? ==> r.value.sections.Keys == (set id | id in SectionIds) + {TopRatiosId}
    ensures r.Success? ==> forall id :: id in SectionIds ==> |r.value.sections[id]| == |TablesIn(doc, id)|
  {
    if name == "" then Failure(IndexError)
    else
      var tables := map id | id in SectionIds :: NameColumns(TablesIn(doc, id));
      Success(Scraped(StatusLine(name), tables[TopRatiosId := TopRatiosTables(doc.ratioItems)]))
  }

  /** Every section table keeps its columns and cells; only an unlabelled first
      column is renamed to "Parameters". */
  lemma ScrapeStockRenamesOnlyUnnamed(name: string, doc: Document, id: string, k: nat)
    requires name != "" && id in SectionIds && k < |TablesIn(doc, id)|
    requires WellFormed(TablesIn(doc, id)[k])
    requires UnnamedColumn in TablesIn(doc, id)[k].header
    requires ParametersColumn !in TablesIn(doc, id)[k].header
    ensures var t := TablesIn(doc, id)[k];
      var t' := ScrapeStock(name, doc).value.sections[id][k];
      && WellFormed(t')
      && UnnamedColumn !in t'.header && ParametersColumn in t'.header
      && |t'.rows| == |t.rows|
      && (forall i :: 0 <= i < |t.header| && t.header[i] != UnnamedColumn ==> t'.header[i] == t.header[i])
      && (forall j :: 0 <= j < |t.rows| ==> Cell(t'.rows[j], ParametersColumn) == Cell(t.rows[j], UnnamedColumn))
      && (forall j, c :: 0 <= j < |t.rows| && c != UnnamedColumn && c != ParametersColumn ==>
            Cell(t'.rows[j], c) == Cell(t.rows[j], c))
  {
    RenameColumnMovesOnlyThatColumn(TablesIn(doc, id)[k], UnnamedColumn, ParametersColumn);
  }

  /** A table without an unlabelled column is passed through unchanged. */
  lemma ScrapeStockKeepsNamedTables(name: string, doc: Document, id: string, k: nat)
    requires name != "" && id in SectionIds && k < |TablesIn(doc, id)|
    requires WellFormed(TablesIn(doc, id)[k])
    requires UnnamedColumn !in TablesIn(doc, id)[k].header
    ensures ScrapeStock(name, doc).value.sections[id][k] == TablesIn(doc, id)[k]
  {
    var t := TablesIn(doc, id)[k];
    var t' := RenameColumn(t, UnnamedColumn, ParametersColumn);
    assert t'.header == t.header;
    forall j | 0 <= j < |t.rows|
      ensures t'.rows[j] == t.rows[j]
    {
      assert UnnamedColumn !in t.rows[j];
    }
  }

  /** The top-ratios section is empty exactly when the list has no items; otherwise it
      is one Metric/Value table with a row per record, in item order. */
  lemma ScrapeStockTopRatios(name: string, doc: Document)
    requires name != ""
    ensures var ts := ScrapeStock(name, doc).value.sections[TopRatiosId];
      && (ts == [] <==> |doc.ratioItems| == 0)
      && (|doc.ratioItems| > 0 ==> ts == [RatiosTable(ExtractTopRatios(doc.ratioItems))])
  {
    ExtractTopRatiosEmpty(doc.ratioItems);
  }
}
