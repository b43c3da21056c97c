/** The key-ratios list at the top of the company page: the cell cleaner
    `clean_value` and the per-item parser of `extract_top_ratios`. The items
    are the texts of the `<li>` elements, already joined with single spaces. */
module TopRatios {
  import opened Wrappers
  import opened Text

  const Rupee: char := '\U{20B9}'
  const MarketCap := "Market Cap"
  const CurrentPrice := "Current Price"
  const HighLow := "High / Low"

  /** One `{"Metric": ..., "Value": ...}` record of the ratios DataFrame. */
  datatype Ratio = Ratio(metric: string, value: string)

  /** What a cleaned cell looks like: no rupee sign, comma or percent sign, no outer whitespace. */
  predicate IsClean(v: string) {
    Rupee !in v && ',' !in v && '%' !in v && NoOuterSpace(v)
  }

  /** What `clean_value` deletes, in the order it deletes them. */
  const Junk: seq<string> := [[Rupee], "Cr.", ",", "%"]

  /** `clean_value`: removes every rupee sign, then every "Cr.", every comma and
      every percent sign, each in one left-to-right pass, then strips the ends. */
  function CleanValue(v: string): (r: string)
    ensures IsClean(r)
    ensures |r| <= |v|
  {
    assert Junk[0][0] == Rupee && Junk[2][0] == ',' && Junk[3][0] == '%';
    Strip(RemoveEach(v, Junk))
  }

  /** The strings `clean_value` leaves unchanged are exactly the clean ones that hold no "Cr.". */
  lemma CleanValueFixedPoints(v: string)
    ensures CleanValue(v) == v <==> IsClean(v) && !Contains(v, "Cr.")
  {
    if IsClean(v) && !Contains(v, "Cr.") {
      ContainsSingleChar(v, Rupee);
      ContainsSingleChar(v, ',');
      ContainsSingleChar(v, '%');
      StripNoOp(v);
    }
    if CleanValue(v) == v {
      ContainsSingleChar(v, Rupee);
    }
  }

  /** `clean_value` as its four passes: `v` becomes `w1`, `w2`, `w3` and then `w4`,
      whose stripped form is the result. */
  lemma CleanValueThrough(v: string, w1: string, w2: string, w3: string, w4: string)
    requires RemoveAll(v, [Rupee]) == w1 && RemoveAll(w1, "Cr.") == w2
    requires RemoveAll(w2, ",") == w3 && RemoveAll(w3, "%") == w4
    ensures CleanValue(v) == Strip(w4)
  {
    RemoveEachThrough(Junk, [v, w1, w2, w3, w4]);
  }

  /** Apart from "Cr.", `clean_value` deletes exactly the rupee signs, commas and
      percent signs, keeps every other character in order, and strips the ends. */
  lemma CleanValueOfNoCr(v: string)
    requires !Contains(Without(v, Rupee), "Cr.")
    ensures CleanValue(v) == Strip(Without(Without(Without(v, Rupee), ','), '%'))
  {
    var w1 := Without(v, Rupee);
    var w2 := Without(w1, ',');
    var w3 := Without(w2, '%');
    RemoveAllChar(v, Rupee);
    RemoveAllChar(w1, ',');
    RemoveAllChar(w2, '%');
    CleanValueThrough(v, w1, w1, w2, w3);
  }

  /** Once the rupee signs are gone, `clean_value` deletes the first "Cr." (at the
      end of `pre`) and goes on deleting every later one from `rest`, before it
      deletes the commas and percent signs and strips the ends. */
  lemma CleanValueCrCut(v: string, pre: string, rest: string)
    requires Without(v, Rupee) == pre + "Cr." + rest
    requires forall j: nat :: j < |pre| ==> !OccursAt(pre + "Cr." + rest, "Cr.", j)
    ensures CleanValue(v) == Strip(Without(Without(pre + RemoveAll(rest, "Cr."), ','), '%'))
  {
    var w1 := Without(v, Rupee);
    var w2 := pre + RemoveAll(rest, "Cr.");
    var w3 := Without(w2, ',');
    RemoveAllChar(v, Rupee);
    RemoveAllFirst(pre, "Cr.", rest);
    RemoveAllChar(w2, ',');
    RemoveAllChar(w3, '%');
    CleanValueThrough(v, w1, w2, w3, Without(w3, '%'));
  }

  /** A market capitalisation cell as the page shows it, "₹ <a>,<b> Cr." for digit
      groups `a` and `b`, cleans to the bare number `a + b`. */
  lemma CleanValueOfCrore(a: string, b: string)
    requires |a| > 0 && AllDigits(a) && AllDigits(b)
    ensures CleanValue([Rupee, ' '] + a + [','] + b + " Cr.") == a + b
  {
    var head, tail := " " + a, b + " ";
    var w2 := head + [','] + tail;
    CroreShape(a, b);
    CroreFirstPasses(w2);
    CroreLastPasses(head, tail);
    StripSpaced(a + b);
    CleanValueThrough([Rupee] + (w2 + "Cr."), w2 + "Cr.", w2, head + tail, head + tail);
  }

  /** A typical Market Cap item, "Market Cap ₹ 1,234 Cr.", gives the single
      record Market Cap with the bare digits "1234". */
  lemma MarketCapCroreItem(a: string, b: string)
    requires |a| > 0 && AllDigits(a) && AllDigits(b)
    ensures ParseItem(MarketCap + [' ', Rupee, ' '] + a + [','] + b + " Cr.") == [Ratio("Market Cap", a + b)]
  {
    var v := [Rupee, ' '] + a + [','] + b + " Cr.";
    var text := MarketCap + [' ', Rupee, ' '] + a + [','] + b + " Cr.";
    assert text == [] + MarketCap + (" " + v);
    MarketCapItem(text, [], " " + v);
    assert v[|v| - 1] == '.' && v[0] == Rupee;
    StripLeading(v);
    CleanValueOfCrore(a, b);
  }

  /** How a crore cell is put together, and which characters its pieces lack. */
  lemma CroreShape(a: string, b: string)
    requires AllDigits(a) && AllDigits(b)
    ensures var head, tail := " " + a, b + " ";
      && [Rupee, ' '] + a + [','] + b + " Cr." == [Rupee] + ((head + [','] + tail) + "Cr.")
      && head + tail == " " + (a + b) + " "
      && ',' !in head && ',' !in tail && '%' !in head + tail
      && 'C' !in head + [','] + tail && Rupee !in (head + [','] + tail) + "Cr."
      && (|a| > 0 ==> |a + b| > 0 && NoOuterSpace(a + b))
  {
  }

  /** The rupee pass and the "Cr." pass of a crore cell. */
  lemma CroreFirstPasses(w2: string)
    requires 'C' !in w2 && Rupee !in w2 + "Cr."
    ensures RemoveAll([Rupee] + (w2 + "Cr."), [Rupee]) == w2 + "Cr."
    ensures RemoveAll(w2 + "Cr.", "Cr.") == w2
  {
    var w1 := w2 + "Cr.";
    assert RemoveAll([Rupee] + w1, [Rupee]) == w1 by {
      WithoutAppend([Rupee], w1, Rupee);
      WithoutAbsent(w1, Rupee);
      assert Without([Rupee], Rupee) == [];
      RemoveAllChar([Rupee] + w1, Rupee);
    }
    assert RemoveAll(w1, "Cr.") == w2 by {
      RemoveAllAfter(w2, "Cr.", "Cr.");
      assert RemoveAll("Cr.", "Cr.") == "";
    }
  }

  /** The comma pass and the percent pass of a crore cell. */
  lemma CroreLastPasses(head: string, tail: string)
    requires ',' !in head && ',' !in tail && '%' !in head + tail
    ensures RemoveAll(head + [','] + tail, ",") == head + tail
    ensures RemoveAll(head + tail, "%") == head + tail
  {
    WithoutAround(head, tail, ',');
    RemoveAllChar(head + [','] + tail, ',');
    WithoutAbsent(head + tail, '%');
    RemoveAllChar(head + tail, '%');
  }

  /** `clean_value` is not idempotent: a comma inside "Cr." hides it from the "Cr." pass. */
  lemma CleanValueNotIdempotent()
    ensures CleanValue("C,r.") == "Cr."
    ensures CleanValue(CleanValue("C,r.")) == ""
  {
    CleanCommaCr();
    CleanCr();
  }

  /** First pass: only the comma goes, which puts "Cr." together. */
  lemma CleanCommaCr()
    ensures CleanValue("C,r.") == "Cr."
  {
    RemoveEachCommaCr();
    StripNoOp("Cr.");
  }

  lemma RemoveEachCommaCr()
    ensures RemoveEach("C,r.", Junk) == "Cr."
  {
    CommaCrPasses();
    RemoveEachThrough(Junk, ["C,r.", "C,r.", "C,r.", "Cr.", "Cr."]);
  }

  lemma CommaCrPasses()
    ensures RemoveAll("C,r.", Junk[0]) == "C,r."
    ensures RemoveAll("C,r.", Junk[1]) == "C,r."
    ensures RemoveAll("C,r.", Junk[2]) == "Cr."
    ensures RemoveAll("Cr.", Junk[3]) == "Cr."
  {
    CommaCrPass1();
    CommaCrPass2();
    ContainsSingleChar("C,r.", Rupee);
    ContainsSingleChar("Cr.", '%');
  }

  lemma CommaCrPass1()
    ensures RemoveAll("C,r.", "Cr.") == "C,r."
  {
    var s, t := "C,r.", "Cr.";
    assert s[..3][1] != t[1];
    assert s[1..][..3][0] != t[0];
    assert RemoveAll(s[2..], t) == s[2..];
    assert RemoveAll(s[1..], t) == s[1..];
  }

  lemma CommaCrPass2()
    ensures RemoveAll("C,r.", ",") == "Cr."
  {
    var s := "C,r.";
    assert RemoveAll(s[1..], ",") == RemoveAll(s[2..], ",");
    assert RemoveAll(s[2..], ",") == s[2..] by {
      ContainsSingleChar(s[2..], ',');
    }
  }

  /** Second pass: "Cr." itself is removed. */
  lemma CleanCr()
    ensures CleanValue("Cr.") == ""
  {
    assert RemoveAll("Cr.", [Rupee]) == "Cr.";
    assert RemoveAll("Cr.", "Cr.") == "";
    assert RemoveEach("Cr.", Junk) == "" by {
      assert RemoveEach("Cr.", Junk) == RemoveEach("Cr.", Junk[1..]);
      assert RemoveEach("Cr.", Junk[1..]) == RemoveEach("", Junk[2..]);
    }
    StripNoOp("");
  }

  /** The per-`<li>` logic of `extract_top_ratios`. */
  function ParseItem(text: string): (rs: seq<Ratio>)
    ensures 1 <= |rs| <= 2
  {
    if Contains(text, MarketCap) then
      [Ratio(MarketCap, CleanValue(Strip(AfterFirst(text, MarketCap))))]
    else if Contains(text, CurrentPrice) then
      [Ratio(CurrentPrice, CleanValue(Strip(AfterFirst(text, CurrentPrice))))]
    else if Contains(text, HighLow) then
      var v := Strip(AfterFirst(text, HighLow));
      match FindFirst(v, "/")
      case Some(i) => [Ratio("High", CleanValue(v[..i])), Ratio("Low", CleanValue(v[i + 1..]))]
      case None => [Ratio(HighLow, CleanValue(v))]
    else
      match FindLastChar(text, ' ')
      case Some(i) => [Ratio(Strip(text[..i]), CleanValue(text[i + 1..]))]
      case None => [Ratio(Strip(text), "")]
  }

  /** The item is a "High / Low" entry whose value holds a slash, so it yields two records. */
  predicate IsSplitHighLow(text: string) {
    && !Contains(text, MarketCap)
    && !Contains(text, CurrentPrice)
    && Contains(text, HighLow)
    && Contains(Strip(AfterFirst(text, HighLow)), "/")
  }

  lemma ParseItemCount(text: string)
    ensures |ParseItem(text)| == 2 <==> IsSplitHighLow(text)
  {
  }

  /** A "Market Cap" item, checked first: cut at the first occurrence of the key
      into `pre`, the key and `rest` (every item holding the key has such a cut, see
      `Text.AfterFirstSplits`), it yields the one record Market Cap = `rest` cleaned. */
  lemma MarketCapItem(text: string, pre: string, rest: string)
    requires text == pre + MarketCap + rest
    requires forall j: nat :: j < |pre| ==> !OccursAt(text, MarketCap, j)
    ensures ParseItem(text) == [Ratio("Market Cap", CleanValue(Strip(rest)))]
  {
    AfterFirstOf(text, MarketCap, pre, rest);
  }

  /** A "Current Price" item without "Market Cap", cut the same way, yields the one
      record Current Price = `rest` cleaned. */
  lemma CurrentPriceItem(text: string, pre: string, rest: string)
    requires !Contains(text, MarketCap)
    requires text == pre + CurrentPrice + rest
    requires forall j: nat :: j < |pre| ==> !OccursAt(text, CurrentPrice, j)
    ensures ParseItem(text) == [Ratio("Current Price", CleanValue(Strip(rest)))]
  {
    AfterFirstOf(text, CurrentPrice, pre, rest);
  }

  /** A "High / Low" item with neither earlier key, whose stripped remainder has no
      slash, stays the one record High / Low = `rest` cleaned. */
  lemma HighLowWhole(text: string, pre: string, rest: string)
    requires !Contains(text, MarketCap) && !Contains(text, CurrentPrice)
    requires text == pre + HighLow + rest
    requires forall j: nat :: j < |pre| ==> !OccursAt(text, HighLow, j)
    requires '/' !in Strip(rest)
    ensures ParseItem(text) == [Ratio("High / Low", CleanValue(Strip(rest)))]
  {
    AfterFirstOf(text, HighLow, pre, rest);
    ContainsSingleChar(Strip(rest), '/');
  }

  /** A "High / Low" item whose value holds a slash splits at the first slash:
      "High" takes the part before it and "Low" the part after. */
  lemma HighLowSplit(text: string) returns (hi: string, lo: string)
    requires IsSplitHighLow(text)
    ensures Strip(AfterFirst(text, HighLow)) == hi + "/" + lo
    ensures '/' !in hi
    ensures ParseItem(text) == [Ratio("High", CleanValue(hi)), Ratio("Low", CleanValue(lo))]
  {
    var v := Strip(AfterFirst(text, HighLow));
    assert '/' in v by { ContainsSingleChar(v, '/'); }
    var i := FirstCharSplit(v, '/');
    hi, lo := v[..i], v[i + 1..];
    assert v == hi + [v[i]] + lo;
    assert ParseItem(text) == [Ratio("High", CleanValue(hi)), Ratio("Low", CleanValue(lo))] by {
      assert FindFirst(v, "/") == Some(i);
    }
  }

  /** Any other item splits at its last space: the metric is the stripped left part,
      the value the cleaned right part; an item without a space keeps its text as the
      metric and gets an empty value. */
  lemma GenericItem(text: string) returns (left: string, right: string)
    requires !Contains(text, MarketCap) && !Contains(text, CurrentPrice) && !Contains(text, HighLow)
    ensures ' ' in text ==> text == left + " " + right && ' ' !in right
    ensures ' ' in text ==> ParseItem(text) == [Ratio(Strip(left), CleanValue(right))]
    ensures ' ' !in text ==> ParseItem(text) == [Ratio(Strip(text), "")]
  {
    match FindLastChar(text, ' ')
    case Some(i) =>
      left, right := text[..i], text[i + 1..];
      assert text == left + [text[i]] + right;
    case None =>
      left, right := text, "";
  }

  /** `extract_top_ratios` over the `<li>` texts, in order; no items, no records. */
  function ExtractTopRatios(items: seq<string>): seq<Ratio> {
    if |items| == 0 then [] else ParseItem(items[0]) + ExtractTopRatios(items[1..])
  }

  /** Records come out in item order: the parse of a concatenation is the concatenation of the parses. */
  lemma {:induction false} ExtractTopRatiosAppend(a: seq<string>, b: seq<string>)
    ensures ExtractTopRatios(a + b) == ExtractTopRatios(a) + ExtractTopRatios(b)
  {
    if |a| > 0 {
      assert (a + b)[1..] == a[1..] + b;
      ExtractTopRatiosAppend(a[1..], b);
    } else {
      assert a + b == b;
    }
  }

  /** Number of items that yield two records. */
  function SplitCount(items: seq<string>): nat {
    if |items| == 0 then 0 else (if IsSplitHighLow(items[0]) then 1 else 0) + SplitCount(items[1..])
  }

  /** One record per item, plus one more for every split "High / Low" item. */
  lemma {:induction false} ExtractTopRatiosLength(items: seq<string>)
    ensures |ExtractTopRatios(items)| == |items| + SplitCount(items)
  {
    if |items| > 0 {
      ParseItemCount(items[0]);
      ExtractTopRatiosLength(items[1..]);
    }
  }

  /** The result is empty exactly when there are no items. */
  lemma ExtractTopRatiosEmpty(items: seq<string>)
    ensures ExtractTopRatios(items) == [] <==> |items| == 0
  {
  }

  /** A record as `extract_top_ratios` writes it: a clean value and a metric without outer whitespace. */
  predicate CleanRecord(r: Ratio) {
    IsClean(r.value) && NoOuterSpace(r.metric)
  }

  /** Every record of the list is clean. */
  predicate AllClean(rs: seq<Ratio>) {
    forall k :: 0 <= k < |rs| ==> CleanRecord(rs[k])
  }

  /** Every record of one item is clean. */
  lemma ParseItemClean(text: string)
    ensures AllClean(ParseItem(text))
  {
    if Contains(text, MarketCap) {
      MarketCapClean(text);
    } else if Contains(text, CurrentPrice) {
      CurrentPriceClean(text);
    } else if Contains(text, HighLow) {
      HighLowClean(text);
    } else {
      GenericClean(text);
    }
  }

  lemma MarketCapClean(text: string)
    requires Contains(text, MarketCap)
    ensures AllClean(ParseItem(text))
  {
    assert ParseItem(text) == [Ratio(MarketCap, CleanValue(Strip(AfterFirst(text, MarketCap))))];
    assert NoOuterSpace(MarketCap);
  }

  lemma CurrentPriceClean(text: string)
    requires !Contains(text, MarketCap) && Contains(text, CurrentPrice)
    ensures AllClean(ParseItem(text))
  {
    assert ParseItem(text) == [Ratio(CurrentPrice, CleanValue(Strip(AfterFirst(text, CurrentPrice))))];
    assert NoOuterSpace(CurrentPrice);
  }

  lemma HighLowClean(text: string)
    requires !Contains(text, MarketCap) && !Contains(text, CurrentPrice) && Contains(text, HighLow)
    ensures AllClean(ParseItem(text))
  {
    if Contains(Strip(AfterFirst(text, HighLow)), "/") {
      HighLowSplitClean(text);
    } else {
      ContainsSingleChar(Strip(AfterFirst(text, HighLow)), '/');
      assert ParseItem(text) == [Ratio(HighLow, CleanValue(Strip(AfterFirst(text, HighLow))))];
      assert NoOuterSpace(HighLow);
    }
  }

  lemma HighLowSplitClean(text: string)
    requires IsSplitHighLow(text)
    ensures AllClean(ParseItem(text))
  {
    var hi, lo := HighLowSplit(text);
    SplitRecordsClean(hi, lo);
  }

  lemma SplitRecordsClean(hi: string, lo: string)
    ensures AllClean([Ratio("High", CleanValue(hi)), Ratio("Low", CleanValue(lo))])
  {
    assert NoOuterSpace("High") && NoOuterSpace("Low");
  }

  lemma GenericClean(text: string)
    requires !Contains(text, MarketCap) && !Contains(text, CurrentPrice) && !Contains(text, HighLow)
    ensures AllClean(ParseItem(text))
  {
    var left, right := GenericItem(text);
    assert IsClean("");
  }

  /** Every record is clean: its value has no rupee sign, comma or percent sign and
      no outer whitespace, and its metric has no outer whitespace. */
  lemma {:induction false} ExtractTopRatiosClean(items: seq<string>)
    ensures AllClean(ExtractTopRatios(items))
  {
    if |items| > 0 {
      ExtractTopRatiosClean(items[1..]);
      ParseItemClean(items[0]);
      AllCleanAppend(ParseItem(items[0]), ExtractTopRatios(items[1..]));
    }
  }

  /** Two lists of clean records put together are clean. */
  lemma AllCleanAppend(a: seq<Ratio>, b: seq<Ratio>)
    requires AllClean(a) && AllClean(b)
    ensures AllClean(a + b)
  {
    forall k | 0 <= k < |a + b|
      ensures CleanRecord((a + b)[k])
    {
      if k >= |a| {
        assert (a + b)[k] == b[k - |a|];
      }
    }
  }

}
