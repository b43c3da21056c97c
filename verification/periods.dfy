/** The master fiscal-year window of `update_tabs`: the "Mar <year>" columns
    found in every non-empty table, reduced to the eight most recent distinct
    years in ascending order and rendered back as labels. */
module Periods {
  import opened Wrappers
  import opened Text
  import opened Tables

  /** The year-end month the site labels its yearly columns with. */
  const FiscalPrefix := "Mar "

  /** How many fiscal years the window keeps. */
  const WindowSize := 8

  /** The year a column stands for: the stripped name starts with "Mar " and its
      second word reads as an integer. Anything else is skipped. */
  function YearOf(col: string): Option<int> {
    var s := Strip(col);
    if StartsWith(s, FiscalPrefix) then
      var ws := Words(s);
      if |ws| >= 2 then ParseInt(ws[1]) else None
    else None
  }

  /** `f"Mar {y}"`. */
  function YearLabel(y: int): string {
    FiscalPrefix + IntToString(y)
  }

  /** A word followed by a space and more text splits into that word and the words of the rest. */
  lemma WordsOfSpaced(w: string, rest: string)
    requires |w| > 0 && NoSpace(w)
    ensures Words(w + " " + rest) == [w] + Words(rest)
  {
    var s := w + " " + rest;
    assert LeadingSpaces(s) == 0 by { assert !IsSpace(s[0]); }
    assert WordLength(s) == |w| by {
      assert s[..|w|] == w;
      assert IsSpace(s[|w|]);
    }
    assert s[..|w|] == w;
    var t := s[|w|..];
    assert t == " " + rest;
    assert LeadingSpaces(t) == 1 + LeadingSpaces(rest) by {
      assert t[1..] == rest;
    }
    assert t[LeadingSpaces(t)..] == rest[LeadingSpaces(rest)..];
  }

  /** A whitespace-free text is a single word. */
  lemma WordsOfWord(w: string)
    requires |w| > 0 && NoSpace(w)
    ensures Words(w) == [w]
  {
    assert LeadingSpaces(w) == 0 by { assert !IsSpace(w[0]); }
    var n := WordLength(w);
    assert n == |w|;
    assert w[..n] == w;
    assert w[n..] == [];
    assert Words(w[n..]) == [] by { assert LeadingSpaces([]) == 0; }
  }

  /** Every label of the window is recognised as the year it was made from. */
  lemma YearOfYearLabel(y: int)
    ensures YearOf(YearLabel(y)) == Some(y)
  {
    var s := YearLabel(y);
    LabelStripped(y);
    assert StartsWith(s, FiscalPrefix) by { assert s[..4] == FiscalPrefix; }
    LabelWords(y);
    ParseIntOfIntToString(y);
  }

  /** A label has no outer whitespace. */
  lemma LabelStripped(y: int)
    ensures Strip(YearLabel(y)) == YearLabel(y)
  {
    var d := IntToString(y);
    var s := YearLabel(y);
    assert s[|s| - 1] == d[|d| - 1];
    assert !IsSpace(s[0]) && !IsSpace(s[|s| - 1]);
    StripNoOp(s);
  }

  /** A label reads as two words: the month and the year's digits. */
  lemma LabelWords(y: int)
    ensures Words(YearLabel(y)) == ["Mar", IntToString(y)]
  {
    var d := IntToString(y);
    assert YearLabel(y) == "Mar" + " " + d;
    WordsOfSpaced("Mar", d);
    WordsOfWord(d);
  }

  /** Different years give different labels. */
  lemma YearLabelInjective(a: int, b: int)
    requires YearLabel(a) == YearLabel(b)
    ensures a == b
  {
    YearOfYearLabel(a);
    YearOfYearLabel(b);
  }

  /** The years named by the non-first columns of one table, in column order. */
  function ColumnYears(cols: seq<string>): (ys: seq<int>)
    ensures forall y :: y in ys <==> exists k :: 0 <= k < |cols| && YearOf(cols[k]) == Some(y)
  {
    if |cols| == 0 then []
    else
      var rest := ColumnYears(cols[1..]);
      assert forall k :: 1 <= k < |cols| ==> cols[k] == cols[1..][k - 1];
      match YearOf(cols[0])
      case Some(y) => [y] + rest
      case None => rest
  }

  /** The years of every non-empty table: the loop that fills `all_years`. */
  function CollectYears(ts: seq<Table>): (ys: seq<int>)
    ensures forall y :: y in ys <==>
      exists k, i :: 0 <= k < |ts| && !IsEmpty(ts[k]) && 1 <= i < |ts[k].header| && YearOf(ts[k].header[i]) == Some(y)
  {
    if |ts| == 0 then []
    else
      var here := if IsEmpty(ts[0]) then [] else ColumnYears(ts[0].header[1..]);
      var rest := CollectYears(ts[1..]);
      assert forall k :: 1 <= k < |ts| ==> ts[k] == ts[1..][k - 1];
      assert !IsEmpty(ts[0]) ==> forall i :: 1 <= i < |ts[0].header| ==> ts[0].header[i] == ts[0].header[1..][i - 1];
      here + rest
  }

  predicate StrictlyIncreasing(s: seq<int>) {
    forall i, j :: 0 <= i < j < |s| ==> s[i] < s[j]
  }

  /** Inserts `x` into an ascending list of distinct years, keeping it so. */
  function InsertSorted(x: int, s: seq<int>): (r: seq<int>)
    requires StrictlyIncreasing(s)
    ensures StrictlyIncreasing(r)
    ensures forall y :: y in r <==> y == x || y in s
  {
    if |s| == 0 then [x]
    else if x < s[0] then [x] + s
    else if x == s[0] then s
    else
      var t := InsertSorted(x, s[1..]);
      assert forall y :: y in s[1..] ==> s[0] < y;
      assert forall j :: 0 <= j < |t| ==> t[j] in t;
      assert forall j :: 0 <= j < |t| ==> s[0] < t[j];
      [s[0]] + t
  }

  /** `sorted(set(ys))`. */
  function SortedDistinct(ys: seq<int>): (r: seq<int>)
    ensures StrictlyIncreasing(r)
    ensures forall y :: y in r <==> y in ys
  {
    if |ys| == 0 then []
    else
      var last := ys[|ys| - 1];
      var init := ys[..|ys| - 1];
      assert ys == init + [last];
      InsertSorted(last, SortedDistinct(init))
  }

  /** `lst[-n:]`. */
  function TakeLast(s: seq<int>, n: nat): seq<int> {
    if |s| <= n then s else s[|s| - n..]
  }

  /** `sorted(all_years)[-8:]`: the most recent distinct years, ascending. */
  function MasterYears(ys: seq<int>): (r: seq<int>)
    ensures |r| <= WindowSize
    ensures StrictlyIncreasing(r)
    ensures forall y :: y in r ==> y in ys
    ensures |r| == 0 <==> |ys| == 0
    ensures forall y :: y in ys && y !in r ==> |r| == WindowSize && y < r[0]
  {
    var s := SortedDistinct(ys);
    assert |ys| > 0 ==> ys[0] in s;
    var r := TakeLast(s, WindowSize);
    assert forall i :: 0 <= i < |r| ==> r[i] == s[|s| - |r| + i];
    assert forall y :: y in s && y !in r ==> exists i :: 0 <= i < |s| - |r| && s[i] == y;
    r
  }

  /** Two ascending duplicate-free lists holding the same years are the same list. */
  lemma {:induction false} StrictlyIncreasingUnique(a: seq<int>, b: seq<int>)
    requires StrictlyIncreasing(a) && StrictlyIncreasing(b)
    requires forall y :: y in a <==> y in b
    ensures a == b
  {
    assert |a| > 0 ==> a[0] in a;
    assert |b| > 0 ==> b[0] in b;
    if |a| > 0 && |b| > 0 {
      assert a[0] == b[0] by {
        assert a[0] in b && b[0] in a;
      }
      forall y
        ensures y in a[1..] <==> y in b[1..]
      {
        if y in a[1..] { assert y in b && y != b[0]; }
        if y in b[1..] { assert y in a && y != a[0]; }
      }
      StrictlyIncreasingUnique(a[1..], b[1..]);
      assert a == [a[0]] + a[1..] && b == [b[0]] + b[1..];
    }
  }

  /** The window only depends on which years were seen, not on the order or
      how often tables repeat them. */
  lemma MasterYearsOfSameYears(ys: seq<int>, zs: seq<int>)
    requires forall y :: y in ys <==> y in zs
    ensures MasterYears(ys) == MasterYears(zs)
  {
    StrictlyIncreasingUnique(SortedDistinct(ys), SortedDistinct(zs));
  }

  /** Years that are already ascending and distinct keep their last eight. */
  lemma MasterYearsOfAscending(ys: seq<int>)
    requires StrictlyIncreasing(ys)
    ensures MasterYears(ys) == TakeLast(ys, WindowSize)
  {
    StrictlyIncreasingUnique(SortedDistinct(ys), ys);
  }

  /** Nine fiscal years 2019..2027 leave the eight most recent, 2020..2027. */
  lemma MasterYearsOfNineYears()
    ensures MasterYears([2019, 2020, 2021, 2022, 2023, 2024, 2025, 2026, 2027])
         == [2020, 2021, 2022, 2023, 2024, 2025, 2026, 2027]
  {
    var ys := [2019, 2020, 2021, 2022, 2023, 2024, 2025, 2026, 2027];
    assert forall i :: 0 <= i < |ys| ==> ys[i] == 2019 + i;
    MasterYearsOfAscending(ys);
  }

  /** `master_year_cols`. */
  function MasterLabels(ys: seq<int>): (labels: seq<string>)
    ensures |labels| == |MasterYears(ys)|
    ensures forall i :: 0 <= i < |labels| ==> labels[i] == YearLabel(MasterYears(ys)[i])
  {
    var r := MasterYears(ys);
    seq(|r|, i requires 0 <= i < |r| => YearLabel(r[i]))
  }

  /** The window's labels are distinct, each names one of the collected years, and
      they are read back as the window's years. */
  lemma MasterLabelsRoundTrip(ys: seq<int>)
    ensures var labels := MasterLabels(ys);
      && Distinct(labels)
      && forall i :: 0 <= i < |labels| ==>
           YearOf(labels[i]) == Some(MasterYears(ys)[i]) && MasterYears(ys)[i] in ys
  {
    var labels := MasterLabels(ys);
    var r := MasterYears(ys);
    forall i | 0 <= i < |labels|
      ensures YearOf(labels[i]) == Some(r[i])
    {
      YearOfYearLabel(r[i]);
    }
  }
}
