# Screener scraping and metrics pipeline — Dafny model

This project models the pure core of a stock-screener tool written in Python.
The tool loads a company page from screener.in, pulls out its financial tables,
and shows them in a Dash dashboard together with derived metrics. The model
covers three pieces:

- **Key-ratios parser** (`web_extract_data_from_screener_site.py`):
  - `clean_value`, the cell cleaner;
  - the per-item logic of `extract_top_ratios`, which turns each `<li>` text of
    the key-ratios list into `Metric`/`Value` records;
  - the section assembly and status line of `scrape_stock`.
- **Fiscal-year window** (`web_dash_wrapper.py`): the `"Mar <year>"` columns
  found across all tables, reduced to the eight most recent years in ascending
  order.
- **Row matching and metrics** (`web_dash_wrapper.py`):
  - `align_row` and the case-insensitive first-match row lookup;
  - how a series is carried across a section's tables;
  - the zero-filled quarterly margin and interest coverage;
  - the yearly metrics table (FCF, capital employed, ROCE, ROE, EV/EBIT, pass-through rows);
  - the tab and column selection of `update_tabs`.

Modules, leaves first:

| file | module | contents |
|---|---|---|
| `wrappers.dfy` | `Wrappers` | `Option` (a missing cell / unset series) and `Result` |
| `text.dfy` | `Text` | Python string semantics: `strip`, `replace`, `in`, `split`, `upper`, `int()`, decimal `to_numeric` |
| `tables.dfy` | `Tables` | DataFrames as ordered headers plus records (`map<string,string>`), rename, `align_row`, first-match lookup |
| `top_ratios.dfy` | `TopRatios` | `clean_value`, `extract_top_ratios` |
| `scrape.dfy` | `Scrape` | `scrape_stock` against an already rendered `Document` |
| `periods.dfy` | `Periods` | year recognition, the sorted distinct years, the 8-year master window and its labels |
| `metrics.dfy` | `Metrics` | `.round(2)`, arithmetic with missing values, quarterly and yearly metrics |
| `dashboard.dfy` | `Dashboard` | the computational slice of `update_tabs` and the whole callback as one function |

Modelling choices:

- A missing cell is a column absent from a record. A NaN value is `None`.
- Numbers are `real`.
- `.round(2)` is exact rounding to hundredths with ties to even, as numpy does.
  The model ignores binary floating-point error.
- A division by zero gives a missing value (see "Left out").
- The regular expressions passed to `str.contains` are matched as literal text,
  ignoring ASCII case. For `Cash\s*Equivalents|Cash` this is exact, because both
  alternatives contain "Cash". For the other patterns, `\s*` is read as one space.
- The dictionary `scrape_stock` returns has exactly the seven section ids plus
  `top-ratios`, in that insertion order. The callback walks the sections in that
  order.
- Each yearly series is assigned in exactly one section, so each is modelled as
  its own loop over that section's tables (`Dashboard.ScanSeries`).

Behaviour of the code that the model keeps:

- No cleaning is applied to section tables. Only the key-ratios values pass through `clean_value`.
- `scrape_stock` renames only a column called `Unnamed: 0`. The callback renames the first column of every table it shows.
- Having no fiscal-year column is not an error. It returns the message "No fiscal year columns found." with no tabs.
- The quarterly ratios are zero-filled, so a missing quarter shows 0.
- The yearly metrics keep missing values.
- Debtor Days is looked up only in the last non-empty table of the `ratios` section.
- The market cap comes from the key-ratios table.

The quarterly margin formula in `dash_wrapper.py:82-96` and
`stock_scraper_streamlit.py:60-75` is the same formula as `Metrics.MarginValues`.

## Model

| member | source | states |
|---|---|---|
| `Text.Strip` | web_extract_data_from_screener_site.py:52 | the result has no outer whitespace, is never longer than the input and keeps only characters of the input |
| `Text.StripPadded` | web_extract_data_from_screener_site.py:52 | the stripped text is a contiguous part of the input with only whitespace before and after it |
| `Text.StripIdempotent` | web_extract_data_from_screener_site.py:52 | stripping twice is stripping once |
| `Text.RemoveAll` | web_extract_data_from_screener_site.py:48-51 | one pass of `replace(t, "")` never lengthens the text and adds no character; a one-character token is gone afterwards; the text is unchanged exactly when the token does not occur, and strictly shorter when it does; with `Text.RemoveAllFirst` this fixes the result on every input |
| `Text.RemoveAllFirst` | web_extract_data_from_screener_site.py:48-51 | for a token of any length, the text before its first occurrence is kept, that occurrence is deleted, and the pass goes on deleting every later occurrence from the rest |
| `Text.RemoveEach` | web_extract_data_from_screener_site.py:47-51 | the chain of `replace` calls never lengthens the text and adds no character; every one-character token is gone afterwards; the text is unchanged when no token occurs |
| `Text.RemoveAllChar` | web_extract_data_from_screener_site.py:48-51 | replacing a one-character token by "" is the same as deleting every copy of that character and nothing else |
| `Text.WithoutKeepsOthers` | web_extract_data_from_screener_site.py:48-51 | after deleting a character, a character remains exactly when it was in the text and is not the deleted one |
| `Text.WithoutAppend` | web_extract_data_from_screener_site.py:48-51 | deleting a character works piecewise, so the surviving characters keep their order |
| `Text.RemoveEachThrough` | web_extract_data_from_screener_site.py:47-51 | the chain's result is the last of the intermediate texts, each pass applied to the previous one's result |
| `Text.FindFirst` | web_extract_data_from_screener_site.py:68-70 | finds the first occurrence of the key, as `split(key, 1)` uses it: there is one exactly when the key is contained, and none occurs earlier |
| `Text.AfterFirstOf` | web_extract_data_from_screener_site.py:70 | for a text cut as prefix, key, rest with no earlier occurrence of the key, `split(key, 1)[1]` is the rest |
| `Text.AfterFirstSplits` | web_extract_data_from_screener_site.py:70 | `split(key, 1)[1]` is what follows the first occurrence: the text is a key-free prefix, the key, then the remainder |
| `Text.FindLastChar` | web_extract_data_from_screener_site.py:94-95 | the split point of `rsplit(" ", 1)` is a space with no space after it, and exists exactly when the text holds a space |
| `Text.ParseIntOfIntToString` | web_dash_wrapper.py:82-88 | `int()` reads back every year that `f"Mar {y}"` renders |
| `Text.ParseNumberOfNatToString` | web_dash_wrapper.py:49 | the numeric coercion reads a cell written as a whole number as exactly that number |
| `Text.ParseNumberOfIntToString` | web_dash_wrapper.py:49 | the numeric coercion reads a cell written as an integer, a leading minus sign included, as exactly that integer |
| `Text.ParseNumberOfDecimal` | web_dash_wrapper.py:49 | a cell written as digits, a point and digits (leading zeros allowed), with or without a leading minus sign, reads as the whole part plus the fraction digits scaled by their count, negated under the minus sign |
| `Text.ParseNumberChars` | web_dash_wrapper.py:49 | every cell the coercion reads as a number consists of digits and points, apart from one leading sign |
| `Text.ParseNumberRejectsSeparators` | web_dash_wrapper.py:49 | a cell holding a comma or a percent sign, such as "1,234" or "21%", coerces to a missing value |
| `Tables.RenameColumnMovesOnlyThatColumn` | web_extract_data_from_screener_site.py:157-158 | renaming a column to an unused name moves its cells to the new name and leaves every other column and cell unchanged; the table stays well formed |
| `Tables.RenameColumnRoundTrip` | web_extract_data_from_screener_site.py:157-158 | renaming back restores the table |
| `Tables.AlignRow` | web_dash_wrapper.py:48-49 | one entry per requested column in order; an absent cell is missing, and a present cell gives exactly its coerced value |
| `Tables.AlignRowReadsNumbers` | web_dash_wrapper.py:48-49 | cells holding numbers are aligned to exactly those numbers |
| `Tables.FirstMatch` | web_dash_wrapper.py:182-186 | finds the first row in source order whose label contains the pattern ignoring case; there is none exactly when no row matches |
| `Tables.MatchedSeries` | web_dash_wrapper.py:217-228 | a series exists exactly when some row's label matches, with one value per requested column |
| `Tables.MatchedSeriesUsesFirstRow` | web_dash_wrapper.py:221-228 | the series comes from the first matching row, whatever later rows hold |
| `TopRatios.CleanValue` | web_extract_data_from_screener_site.py:45-54 | the result has no rupee sign, comma or percent sign, has no outer whitespace, and is never longer than the input; `TopRatios.CleanValueOfNoCr` and `TopRatios.CleanValueCrCut` give the exact result |
| `TopRatios.CleanValueFixedPoints` | web_extract_data_from_screener_site.py:47-53 | `clean_value` leaves a string unchanged exactly when the string is already clean and holds no "Cr." |
| `TopRatios.CleanValueOfNoCr` | web_extract_data_from_screener_site.py:47-53 | for text holding no "Cr." once the rupee signs are gone, the result is the text with every rupee sign, comma and percent sign deleted, all other characters kept in order, then stripped |
| `TopRatios.CleanValueCrCut` | web_extract_data_from_screener_site.py:47-53 | once the rupee signs are gone, the text up to the first "Cr." is kept, that "Cr." is deleted and so is every later one, then commas and percent signs are deleted and the ends stripped |
| `TopRatios.CleanValueOfCrore` | web_extract_data_from_screener_site.py:45-54 | a crore amount "₹ a,b Cr." with digit groups a and b cleans to the bare digits a followed by b |
| `TopRatios.MarketCapCroreItem` | web_extract_data_from_screener_site.py:45-72 | the item "Market Cap ₹ a,b Cr." yields the single record Market Cap with the digits a followed by b |
| `TopRatios.CleanValueNotIdempotent` | web_extract_data_from_screener_site.py:47-53 | "C,r." cleans to "Cr.", and cleaning that again gives "", because commas are removed after "Cr." |
| `TopRatios.ParseItem` | web_extract_data_from_screener_site.py:64-99 | every `<li>` item yields one or two records |
| `TopRatios.ParseItemCount` | web_extract_data_from_screener_site.py:82-91 | an item yields two records exactly when it is a "High / Low" item (no Market Cap or Current Price) whose remainder holds a slash |
| `TopRatios.MarketCapItem` | web_extract_data_from_screener_site.py:67-72 | an item cut as prefix, "Market Cap", rest, with no earlier "Market Cap", yields the single record Market Cap whose value is the rest stripped and cleaned |
| `TopRatios.CurrentPriceItem` | web_extract_data_from_screener_site.py:74-79 | an item without "Market Cap", cut as prefix, "Current Price", rest with no earlier key, yields the single Current Price record holding the rest stripped and cleaned |
| `TopRatios.HighLowWhole` | web_extract_data_from_screener_site.py:82-91 | an item with neither earlier key, cut at its first "High / Low" so that the stripped rest holds no slash, yields the single High / Low record holding that rest cleaned |
| `TopRatios.HighLowSplit` | web_extract_data_from_screener_site.py:82-88 | a High / Low remainder with a slash splits at its first slash into "High" then "Low" |
| `TopRatios.GenericItem` | web_extract_data_from_screener_site.py:93-99 | other items split at the last space into the stripped metric and the cleaned value; without a space the whole stripped text is the metric and the value is empty |
| `TopRatios.ExtractTopRatiosAppend` | web_extract_data_from_screener_site.py:64-99 | records come out in item order |
| `TopRatios.ExtractTopRatiosLength` | web_extract_data_from_screener_site.py:60-99 | one record per item plus one per split High / Low item |
| `TopRatios.ExtractTopRatiosEmpty` | web_extract_data_from_screener_site.py:60-63 | there are no records exactly when there are no items |
| `TopRatios.ParseItemClean` | web_extract_data_from_screener_site.py:64-99 | every record of one item has a clean value and a metric without outer whitespace |
| `TopRatios.ExtractTopRatiosClean` | web_extract_data_from_screener_site.py:68-99 | every record's value is clean and every metric has no outer whitespace |
| `Scrape.StatusLineNamesStock` | web_extract_data_from_screener_site.py:115-117 | the status line is the fixed prefix, the stock name and the fixed suffix, so the name can be read back out of it |
| `Scrape.RatiosTable` | web_extract_data_from_screener_site.py:101-102 | the ratios table has the columns Metric and Value and one row per record, holding its metric and its value |
| `Scrape.ScrapeStock` | web_extract_data_from_screener_site.py:106-171 | fails exactly for an empty name; otherwise the status names the stock's page, the keys are the seven section ids plus "top-ratios", and each section keeps as many tables as the page holds (none when absent) |
| `Scrape.ScrapeStockRenamesOnlyUnnamed` | web_extract_data_from_screener_site.py:152-161 | "Unnamed: 0" becomes "Parameters" and nothing else in the table changes |
| `Scrape.ScrapeStockKeepsNamedTables` | web_extract_data_from_screener_site.py:156-159 | a table without "Unnamed: 0" is passed through unchanged |
| `Scrape.ScrapeStockTopRatios` | web_extract_data_from_screener_site.py:163-168 | "top-ratios" is empty exactly when the list has no items, else one Metric/Value table |
| `Periods.YearOfYearLabel` | web_dash_wrapper.py:80-88 | every master label `Mar <y>` is recognised again as year y |
| `Periods.YearLabelInjective` | web_dash_wrapper.py:88 | distinct years give distinct labels |
| `Periods.ColumnYears` | web_dash_wrapper.py:79-84 | a year is collected exactly when some column names it |
| `Periods.CollectYears` | web_dash_wrapper.py:72-84 | a year is collected exactly when a non-first column of a non-empty table names it |
| `Periods.InsertSorted` | web_dash_wrapper.py:87 | inserting keeps the years ascending and distinct and adds exactly that year |
| `Periods.SortedDistinct` | web_dash_wrapper.py:87 | `sorted(set(...))` is strictly ascending and holds exactly the collected years |
| `Periods.MasterYears` | web_dash_wrapper.py:87 | at most 8 years, strictly ascending, all collected; empty exactly when none were collected; every collected year left out is older than all kept ones |
| `Periods.MasterYearsOfSameYears` | web_dash_wrapper.py:72-87 | the window depends only on which years occur, not on table order or repeats |
| `Periods.MasterYearsOfAscending` | web_dash_wrapper.py:87 | already ascending distinct years keep their last eight |
| `Periods.MasterYearsOfNineYears` | web_dash_wrapper.py:87-88 | 2019..2027 gives 2020..2027 |
| `Periods.MasterLabels` | web_dash_wrapper.py:88 | one label per window year, in the window's order, each the year's "Mar" label |
| `Periods.MasterLabelsRoundTrip` | web_dash_wrapper.py:87-88 | the labels are distinct and each reads back as its window year, which was collected |
| `Metrics.Round2` | web_dash_wrapper.py:188 | the result is a whole number of hundredths within half a hundredth of the input, and on an exact tie it is the even one |
| `Metrics.Round2Idempotent` | web_dash_wrapper.py:270-273 | `round(2)` is idempotent: rounding a value already rounded to two decimals, such as the capital employed used for the return on capital, changes nothing |
| `Metrics.MarginValues` | web_dash_wrapper.py:186-188 | one value per quarter: the rounded OP/Sales×100 when both cells are numbers and sales are non-zero, else 0 |
| `Metrics.CoverageValues` | web_dash_wrapper.py:193-195 | one value per quarter: the rounded OP/Interest when both are numbers and interest is non-zero, else 0 |
| `Metrics.YearlyMetrics` | web_dash_wrapper.py:268-315 | the table exists exactly when operating and net profit are set and EV/EBIT does not raise; it is dropped exactly when EV/EBIT raises; it has the 15 fixed metrics in order with one value per master year |
| `Metrics.YearlyPassThrough` | web_dash_wrapper.py:296-311 | copied rows show the collected series, and an unset series is missing in every year, never zero |
| `Metrics.YearlyFreeCashFlow` | web_dash_wrapper.py:270 | FCF exists for a year exactly when both inputs have a value there, and is then their rounded sum |
| `Metrics.YearlyCapitalEmployed` | web_dash_wrapper.py:271 | capital employed exists for a year exactly when all four inputs do, and is then their rounded sum |
| `Metrics.YearlyReturnOnCapital` | web_dash_wrapper.py:272 | ROCE exists exactly when operating profit and the four capital inputs exist and rounded capital is non-zero, and is then OP/TCE×100 rounded |
| `Metrics.YearlyReturnOnEquity` | web_dash_wrapper.py:273 | ROE exists exactly when net profit, equity and reserves exist and equity+reserves is non-zero |
| `Metrics.YearlyEvToEbit` | web_dash_wrapper.py:275-281 | EV/EBIT exists exactly when the Market Cap cell is a number, borrowings, cash and operating profit exist and operating profit is non-zero |
| `Dashboard.NonEmpty` | web_dash_wrapper.py:109-111 | keeps exactly the non-empty tables |
| `Dashboard.NonEmptyAppend` | web_dash_wrapper.py:109-111 | skipping empty tables keeps the order and repetitions of the others |
| `Dashboard.ShownTables` | web_dash_wrapper.py:104-117 | at most one table for profit-loss and shareholding; every shown table is non-empty; its first column is "Company" for peers and "Parameters" otherwise |
| `Dashboard.FirstTableOnly` | web_dash_wrapper.py:104-117 | profit-loss and shareholding show their first table, renamed, when it is non-empty, and nothing otherwise |
| `Dashboard.ShownTablesAppend` | web_dash_wrapper.py:109-117 | for every other section the shown tables of two pieces are the shown tables of each, in order |
| `Dashboard.ShownTablesSingle` | web_dash_wrapper.py:109-117 | for every other section a single table is shown, renamed, exactly when it is non-empty |
| `Dashboard.KeepMaster` | web_dash_wrapper.py:123 | keeps exactly the columns that are master labels |
| `Dashboard.KeepMasterAppend` | web_dash_wrapper.py:123 | the filter keeps table order |
| `Dashboard.DisplayColumns` | web_dash_wrapper.py:119-125 | quarters, peers, shareholding and top ratios show all columns; the other sections show "Parameters" then exactly the table's master-window columns |
| `Dashboard.ProjectRow` | web_dash_wrapper.py:156 | a displayed record has exactly the displayed columns, holding the table's cell where there is one and "" elsewhere |
| `Dashboard.ProjectWholeRow` | web_dash_wrapper.py:156 | a record that has exactly the displayed columns is shown unchanged |
| `Dashboard.SectionTabs` | web_dash_wrapper.py:99-170 | one tab per shown table, none for a section without tables; tab k carries the section, its title, the display columns of shown table k and one displayed record per row of it |
| `Dashboard.LastMatchingTable` | web_dash_wrapper.py:240-251 | finds the last table with a matching row, with no matching table after it; none exactly when no table matches |
| `Dashboard.SectionSeries` | web_dash_wrapper.py:233-251 | a section yields a series exactly when one of its shown tables has a matching row, with one value per master year |
| `Dashboard.SeriesFromLastTable` | web_dash_wrapper.py:233-251 | the section loop started from an unset series ends with the series of the last table holding a matching row |
| `Dashboard.MarketCapOf` | web_dash_wrapper.py:275-279 | there is a Market Cap cell exactly when a top-ratios table exists and some row's label contains "Market Cap" |
| `Dashboard.MarketCapFirstRow` | web_dash_wrapper.py:277-279 | the Market Cap figure is the coerced Value cell of the first row labelled Market Cap, missing when that cell is absent |
| `Dashboard.DebtorDaysOf` | web_dash_wrapper.py:283-287 | Debtor Days is set exactly when the ratios table exists and has a Debtor Days row, with one value per master year |
| `Dashboard.CollectInputsSources` | web_dash_wrapper.py:215-287 | sales, operating profit, net profit and EPS come from the yearly P&L; cash, both borrowings, equity and reserves from the balance sheet; operating cash flow and fixed assets from the cash flow; Market Cap from the last top-ratios table; Debtor Days from the last ratios table |
| `Dashboard.ScanSeriesIsLastMatch` | web_dash_wrapper.py:233-251 | after the section loop a series comes from the last table with a matching row, or stays as it was |
| `Dashboard.QuarterlyRows` | web_dash_wrapper.py:179-199 | a margin row exactly when Sales and Operating Profit rows exist, plus a coverage row exactly when an Interest row also exists, each over all non-label columns; the margin row holds the margins of the first Operating Profit and Sales rows, the coverage row the coverages of the first Operating Profit and Interest rows |
| `Dashboard.QuarterlyMarginZeroFill` | web_dash_wrapper.py:186-188 | a quarter's margin is non-zero only when both cells are numbers and sales are non-zero |
| `Dashboard.UpdateTabs` | web_dash_wrapper.py:58-405 | an empty symbol gives exactly the "Please enter a stock symbol." message; a tabbed view carries the status line of the upper-cased symbol and at least one tab |
| `Dashboard.UpdateTabsNeedsYears` | web_dash_wrapper.py:72-86 | with a symbol, the no-fiscal-year message comes exactly when no table has a "Mar <year>" column |
| `Dashboard.AllTabs` | web_dash_wrapper.py:99-405 | the tab list of a scraped page is never empty |
| `Dashboard.AllTabsLayout` | web_dash_wrapper.py:99-405 | the section tabs come first in section order; one calculated tab follows exactly when there is a quarterly metric or the yearly table was computed, holding both; the placeholder tab appears only when nothing else is shown |
| `Dashboard.UpdateTabsShowsTabs` | web_dash_wrapper.py:58-99 | with a symbol and at least one fiscal year, the view is the tabs of the scraped sections over the master window, under the scraper's status line |
| `Dashboard.SectionTabColumns` | web_dash_wrapper.py:119-125 | every section tab outside the exempt sections shows "Parameters" first and then only master-window columns |
| `Dashboard.EquitySeriesExample` | web_dash_wrapper.py:246-247 | an "Equity Capital" row with 100 and 120 yields the equity series 100, 120 |

## Left out

- Browser automation is not modelled: Selenium/Chrome setup, `click_button`, the expansion clicks, `time.sleep`, `page_source` and `driver.quit`. It is I/O. The rendered page is the `Scrape.Document` parameter.
- BeautifulSoup and `pandas.read_html` (`extract_tables_in_section`, `tables_to_dataframes`, the `<li>` text extraction) are library calls. Their output is given as input. The model leaves out these effects of `read_html`:
  - it converts a column whose every cell is numeric to numbers. Here cells are the text `read_html` leaves; a converted column is given as plain decimals. A column it keeps as text, for example because one cell reads "21%", keeps cells such as "1,234", which `to_numeric(errors='coerce')` turns into NaN, exactly as `Text.ParseNumber` gives `None` (`Text.ParseNumberRejectsSeparators`);
  - multi-level headers;
  - duplicate-header renaming.
- A missing `<ul id="top-ratios">` and an empty one are the same in the model: both give an empty item list.
- These files are network plumbing or UI and are not modelled: `extract_data_from_screener_site.py`, `extract_data_from_screener.py`, `dash_app.py`, `dash_wrapper.py` and `stock_scraper_streamlit.py`. Their one computation is the quarterly margin, modelled by `Metrics.MarginValues`.
- Dash layout, tab colours and styles, plotly charts, the Excel download callback and `print` logging are presentation only. `Dashboard.Tab` keeps a tab's section, title, columns and rows.
- Division by zero in pandas gives ±inf, or NaN for 0/0. The model gives a missing value.
  - Yearly metrics: the model shows missing where pandas would show inf.
  - Quarterly ratios: `fillna(0)` leaves inf alone, so pandas would show inf where the model shows 0.
- Binary floating-point error is ignored: values are exact reals.
- Regular expressions are read as literal text with ASCII case-insensitivity. `\s*` is read as exactly one space. Unicode case folding is left out. The same ASCII restriction applies to `Text.Upper`, used for `stock_symbol.upper()`.
- `pd.to_numeric` is modelled as a signed decimal literal. Exponents, "inf"/"nan" spellings and surrounding whitespace are left out.
- Python `int()` is modelled as a sign and ASCII digits. Underscores and non-ASCII digits are left out.
- Exceptions other than the EV/EBIT one are not modelled. One example: `.str` raising on a label column that holds no text. The model does not lose sections to them.
- The scrape-error branch of the callback is modelled only for the empty-name failure of `scrape_stock`. It cannot happen once the symbol is non-empty. Browser failures are out of scope.
