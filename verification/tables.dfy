/** The table model shared by the scraper and the dashboard: a DataFrame as
    `pd.read_html` produces it, the column rename both files apply, the
    `align_row` coercion and the first-match row lookup. */
module Tables {
  import opened Wrappers
  import opened Text

  /** One record of a DataFrame: column name to cell text. A column the map
      lacks is a NaN cell. */
  type Row = map<string, string>

  /** A DataFrame: its ordered column names and its ordered records. */
  datatype Table = Table(header: seq<string>, rows: seq<Row>)

  /** Values aligned on a list of columns, one per column; `None` is NaN. */
  type Series = seq<Option<real>>

  /** The label column every section except peers is given. */
  const ParametersColumn := "Parameters"

  /** pandas `df.empty`: no columns or no rows. */
  predicate IsEmpty(t: Table) {
    |t.header| == 0 || |t.rows| == 0
  }

  predicate Distinct(h: seq<string>) {
    forall i, j :: 0 <= i < j < |h| ==> h[i] != h[j]
  }

  /** Column names are unique and every record only holds cells of declared columns. */
  predicate WellFormed(t: Table) {
    && Distinct(t.header)
    && forall k :: 0 <= k < |t.rows| ==> forall c :: c in t.rows[k] ==> c in t.header
  }

  /** The cell of `r` in column `c`; `None` for NaN. */
  function Cell(r: Row, c: string): Option<string> {
    if c in r then Some(r[c]) else None
  }

  function RenameKey(r: Row, src: string, dst: string): Row {
    if src in r then (r - {src})[dst := r[src]] else r
  }

  /** pandas `df.rename(columns={src: dst})`. */
  function RenameColumn(t: Table, src: string, dst: string): Table {
    Table(seq(|t.header|, i requires 0 <= i < |t.header| => if t.header[i] == src then dst else t.header[i]),
          seq(|t.rows|, k requires 0 <= k < |t.rows| => RenameKey(t.rows[k], src, dst)))
  }

  /** `df.rename(columns={df.columns[0]: name})`: gives the label column its name. */
  function RenameFirst(t: Table, name: string): Table {
    if |t.header| == 0 then t else RenameColumn(t, t.header[0], name)
  }

  /** Renaming a declared column to an unused name keeps the table well formed,
      moves every cell of `src` to `dst`, and leaves every other column and cell as it was. */
  lemma RenameColumnMovesOnlyThatColumn(t: Table, src: string, dst: string)
    requires WellFormed(t) && src in t.header && dst !in t.header
    ensures var t' := RenameColumn(t, src, dst);
      && WellFormed(t')
      && src !in t'.header && dst in t'.header
      && |t'.header| == |t.header| && |t'.rows| == |t.rows|
      && (forall i :: 0 <= i < |t.header| && t.header[i] != src ==> t'.header[i] == t.header[i])
      && (forall k :: 0 <= k < |t.rows| ==> Cell(t'.rows[k], dst) == Cell(t.rows[k], src))
      && (forall k, c :: 0 <= k < |t.rows| && c != src && c != dst ==> Cell(t'.rows[k], c) == Cell(t.rows[k], c))
  {
    var t' := RenameColumn(t, src, dst);
    var i :| 0 <= i < |t.header| && t.header[i] == src;
    assert t'.header[i] == dst;
    forall k | 0 <= k < |t'.rows|
      ensures forall c :: c in t'.rows[k] ==> c in t'.header
    {
      forall c | c in t'.rows[k]
        ensures c in t'.header
      {
        if c != dst {
          var j :| 0 <= j < |t.header| && t.header[j] == c;
          assert t'.header[j] == c;
        }
      }
    }
  }

  /** Renaming back restores the original table. */
  lemma RenameColumnRoundTrip(t: Table, src: string, dst: string)
    requires WellFormed(t) && dst !in t.header
    ensures RenameColumn(RenameColumn(t, src, dst), dst, src) == t
  {
    var t' := RenameColumn(RenameColumn(t, src, dst), dst, src);
    assert t'.header == t.header;
    forall k | 0 <= k < |t.rows|
      ensures t'.rows[k] == t.rows[k]
    {
      var r := t.rows[k];
      assert dst !in r;
      if src in r {
        assert RenameKey(RenameKey(r, src, dst), dst, src) == r;
      }
    }
  }

  /** `align_row(row, cols)`: one value per requested column, in order; an absent
      cell or one that is not a number becomes missing. */
  function AlignRow(r: Row, cols: seq<string>): (s: Series)
    ensures |s| == |cols|
    ensures forall i :: 0 <= i < |cols| && cols[i] !in r ==> s[i].None?
    ensures forall i :: 0 <= i < |cols| && s[i].Some? ==> cols[i] in r && ParseNumber(r[cols[i]]) == s[i]
    ensures forall i :: 0 <= i < |cols| && cols[i] in r ==> s[i] == ParseNumber(r[cols[i]])
  {
    seq(|cols|, i requires 0 <= i < |cols| => if cols[i] in r then ParseNumber(r[cols[i]]) else None)
  }

  /** Cells written as whole numbers are read back exactly, never as a default. */
  lemma AlignRowReadsNumbers(r: Row, cols: seq<string>, v: seq<nat>)
    requires |v| == |cols|
    requires forall i :: 0 <= i < |cols| ==> cols[i] in r && r[cols[i]] == NatToString(v[i])
    ensures forall i :: 0 <= i < |cols| ==> AlignRow(r, cols)[i] == Some(v[i] as real)
  {
    forall i | 0 <= i < |cols|
      ensures AlignRow(r, cols)[i] == Some(v[i] as real)
    {
      ParseNumberOfNatToString(v[i]);
    }
  }

  /** The row's label in column `col` contains `pat`, ignoring case (pandas
      `str.contains(pat, case=False, na=False)`: a NaN label never matches). */
  predicate LabelMatches(r: Row, col: string, pat: string) {
    col in r && ContainsIgnoreCase(r[col], pat)
  }

  /** Index of the first row, in source order, whose label matches. */
  function FirstMatch(rows: seq<Row>, col: string, pat: string): (m: Option<nat>)
    ensures m.None? <==> forall k :: 0 <= k < |rows| ==> !LabelMatches(rows[k], col, pat)
    ensures m.Some? ==> m.value < |rows| && LabelMatches(rows[m.value], col, pat)
    ensures m.Some? ==> forall k :: 0 <= k < m.value ==> !LabelMatches(rows[k], col, pat)
  {
    if |rows| == 0 then None
    else if LabelMatches(rows[0], col, pat) then Some(0)
    else
      match FirstMatch(rows[1..], col, pat)
      case None => None
      case Some(k) => Some(k + 1)
  }

  /** Some row of the table is labelled with `pat`. */
  predicate HasLabel(t: Table, pat: string) {
    exists k :: 0 <= k < |t.rows| && LabelMatches(t.rows[k], ParametersColumn, pat)
  }

  /** `align_row(df[df['Parameters'].str.contains(pat)].iloc[0], cols)` when such a row exists. */
  function MatchedSeries(t: Table, pat: string, cols: seq<string>): (s: Option<Series>)
    ensures s.Some? <==> HasLabel(t, pat)
    ensures s.Some? ==> |s.value| == |cols|
  {
    match FirstMatch(t.rows, ParametersColumn, pat)
    case None => None
    case Some(k) => Some(AlignRow(t.rows[k], cols))
  }

  /** The series comes from the first matching row: a later matching row is ignored. */
  lemma MatchedSeriesUsesFirstRow(t: Table, pat: string, cols: seq<string>, k: nat)
    requires k < |t.rows| && LabelMatches(t.rows[k], ParametersColumn, pat)
    requires forall j :: 0 <= j < k ==> !LabelMatches(t.rows[j], ParametersColumn, pat)
    ensures MatchedSeries(t, pat, cols) == Some(AlignRow(t.rows[k], cols))
  {
    var m := FirstMatch(t.rows, ParametersColumn, pat);
    assert m.Some?;
    assert !(m.value < k) && !(k < m.value);
  }
}
