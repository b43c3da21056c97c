/** String primitives with the semantics of the Python built-ins the
    scraper and the dashboard rely on: `str.strip`, `str.replace`, `in`,
    `str.split`, `str.upper`, `int(...)` and the decimal subset of
    `pd.to_numeric`. */
module Text {
  import opened Wrappers

  // ---------------------------------------------------------------------
  // Whitespace and stripping
  // ---------------------------------------------------------------------

  /** The characters Python's `str.isspace()` accepts. */
  predicate IsSpace(c: char) {
    || c == ' ' || c == '\t' || c == '\n' || c == '\r' || c == '\U{B}' || c == '\U{C}'
    || ('\U{1C}' <= c <= '\U{1F}') || c == '\U{85}' || c == '\U{A0}' || c == '\U{1680}'
    || ('\U{2000}' <= c <= '\U{200A}') || c == '\U{2028}' || c == '\U{2029}'
    || c == '\U{202F}' || c == '\U{205F}' || c == '\U{3000}'
  }

  predicate AllSpace(s: string) {
    forall k :: 0 <= k < |s| ==> IsSpace(s[k])
  }

  predicate NoSpace(s: string) {
    forall k :: 0 <= k < |s| ==> !IsSpace(s[k])
  }

  /** Neither the first nor the last character is whitespace. */
  predicate NoOuterSpace(s: string) {
    |s| == 0 || (!IsSpace(s[0]) && !IsSpace(s[|s| - 1]))
  }

  /** Number of whitespace characters at the front of `s`. */
  function LeadingSpaces(s: string): (n: nat)
    ensures n <= |s|
    ensures AllSpace(s[..n])
    ensures n < |s| ==> !IsSpace(s[n])
  {
    if |s| > 0 && IsSpace(s[0]) then
      var n' := LeadingSpaces(s[1..]);
      assert s[..1 + n'] == [s[0]] + s[1..][..n'];
      1 + n'
    else 0
  }

  /** `s` is `r`, starting at position `a`, surrounded by whitespace only. */
  predicate PaddedAt(s: string, r: string, a: nat) {
    a + |r| <= |s| && s[a..a + |r|] == r && AllSpace(s[..a]) && AllSpace(s[a + |r|..])
  }

  /** Python `str.strip()` with no argument: drop whitespace from either end until none is left. */
  function Strip(s: string): (r: string)
    ensures NoOuterSpace(r)
    ensures |r| <= |s|
    ensures forall c :: c in r ==> c in s
    decreases |s|
  {
    if |s| > 0 && IsSpace(s[0]) then
      assert forall c :: c in s[1..] ==> c in s;
      Strip(s[1..])
    else if |s| > 0 && IsSpace(s[|s| - 1]) then
      assert forall c :: c in s[..|s| - 1] ==> c in s;
      Strip(s[..|s| - 1])
    else s
  }

  /** What `strip` keeps is a contiguous part of the input, found at position `a`,
      with only whitespace around it. */
  lemma {:induction false} StripPadded(s: string) returns (a: nat)
    ensures PaddedAt(s, Strip(s), a)
    decreases |s|
  {
    if |s| > 0 && IsSpace(s[0]) {
      var b := StripPadded(s[1..]);
      PaddedFront(s, Strip(s), b);
      a := b + 1;
    } else if |s| > 0 && IsSpace(s[|s| - 1]) {
      a := StripPadded(s[..|s| - 1]);
      PaddedBack(s, Strip(s), a);
    } else {
      a := 0;
      assert s[0..|s|] == s && s[..0] == [] && s[|s|..] == [];
    }
  }

  lemma PaddedFront(s: string, r: string, a: nat)
    requires |s| > 0 && IsSpace(s[0]) && PaddedAt(s[1..], r, a)
    ensures PaddedAt(s, r, a + 1)
  {
    var t := s[1..];
    assert s[a + 1..a + 1 + |r|] == t[a..a + |r|];
    assert s[..a + 1] == [s[0]] + t[..a];
    assert s[a + 1 + |r|..] == t[a + |r|..];
  }

  lemma PaddedBack(s: string, r: string, a: nat)
    requires |s| > 0 && IsSpace(s[|s| - 1]) && PaddedAt(s[..|s| - 1], r, a)
    ensures PaddedAt(s, r, a)
  {
    var t := s[..|s| - 1];
    assert s[a..a + |r|] == t[a..a + |r|];
    assert s[..a] == t[..a];
    assert s[a + |r|..] == t[a + |r|..] + [s[|s| - 1]];
  }

  /** One space on either side is stripped away. */
  lemma StripSpaced(x: string)
    requires |x| > 0 && NoOuterSpace(x)
    ensures Strip(" " + x + " ") == x
  {
    var s := " " + x + " ";
    assert s[1..] == x + " " && (x + " ")[..|x|] == x;
    StripNoOp(x);
  }

  /** One leading space is stripped away. */
  lemma StripLeading(x: string)
    requires |x| > 0 && NoOuterSpace(x)
    ensures Strip(" " + x) == x
  {
    assert (" " + x)[1..] == x;
    StripNoOp(x);
  }

  /** Stripping leaves a string without outer whitespace unchanged. */
  lemma StripNoOp(s: string)
    requires NoOuterSpace(s)
    ensures Strip(s) == s
  {
  }

  /** `str.strip` is idempotent. */
  lemma StripIdempotent(s: string)
    ensures Strip(Strip(s)) == Strip(s)
  {
    StripNoOp(Strip(s));
  }

  // ---------------------------------------------------------------------
  // Substrings
  // ---------------------------------------------------------------------

  predicate StartsWith(s: string, p: string) {
    |p| <= |s| && s[..|p|] == p
  }

  /** Python `p in s`. */
  predicate Contains(s: string, p: string)
    decreases |s|
  {
    StartsWith(s, p) || (|s| > 0 && Contains(s[1..], p))
  }

  /** `p` occurs in `s` at position `i`. */
  predicate OccursAt(s: string, p: string, i: nat) {
    i + |p| <= |s| && s[i..i + |p|] == p
  }

  /** Position of the first occurrence of `p` in `s` (Python `str.find`). */
  function FindFirst(s: string, p: string): (r: Option<nat>)
    ensures r.Some? <==> Contains(s, p)
    ensures r.Some? ==> OccursAt(s, p, r.value)
    ensures r.Some? ==> forall j: nat :: j < r.value ==> !OccursAt(s, p, j)
    ensures r.None? ==> forall j: nat :: !OccursAt(s, p, j)
    decreases |s|
  {
    if StartsWith(s, p) then Some(0)
    else if |s| == 0 then None
    else
      OccursAtShift(s, p);
      match FindFirst(s[1..], p)
      case None => None
      case Some(i) => Some(1 + i)
  }

  /** Occurrences in `s` past its first character are the occurrences in `s[1..]`, shifted by one. */
  lemma OccursAtShift(s: string, p: string)
    requires |s| > 0
    ensures OccursAt(s, p, 0) <==> StartsWith(s, p)
    ensures forall j: nat :: 0 < j ==> (OccursAt(s, p, j) <==> OccursAt(s[1..], p, j - 1))
  {
    forall j: nat | 0 < j
      ensures OccursAt(s, p, j) <==> OccursAt(s[1..], p, j - 1)
    {
      if j + |p| <= |s| {
        var u, v := s[j..j + |p|], s[1..][j - 1..j - 1 + |p|];
        assert forall k :: 0 <= k < |p| ==> u[k] == s[j + k] == v[k];
        assert u == v;
      }
    }
  }

  /** Python `s.split(key, 1)[1]`: what follows the first occurrence of `key`. */
  function AfterFirst(s: string, key: string): string
    requires Contains(s, key)
  {
    s[FindFirst(s, key).value + |key|..]
  }

  /** `s.split(key, 1)` cuts `s` into the text before the first occurrence of
      `key`, the key itself, and the rest. */
  lemma AfterFirstSplits(s: string, key: string) returns (pre: string)
    requires Contains(s, key)
    ensures s == pre + key + AfterFirst(s, key)
    ensures forall j: nat :: j < |pre| ==> !OccursAt(s, key, j)
  {
    var i := FindFirst(s, key).value;
    pre := s[..i];
    assert s == pre + s[i..i + |key|] + AfterFirst(s, key);
  }

  /** Conversely, a cut of `s` around an occurrence of `key` with no occurrence
      starting earlier is the cut `split(key, 1)` makes: what follows is `rest`. */
  lemma AfterFirstOf(s: string, key: string, pre: string, rest: string)
    requires s == pre + key + rest
    requires forall j: nat :: j < |pre| ==> !OccursAt(s, key, j)
    ensures Contains(s, key) && AfterFirst(s, key) == rest
  {
    assert s[|pre|..|pre| + |key|] == key;
    assert OccursAt(s, key, |pre|);
    var i := FindFirst(s, key).value;
    assert i == |pre|;
    assert s[|pre| + |key|..] == rest;
  }

  /** The same cut, seen through `str.find`: the first occurrence is where `pre` ends. */
  lemma FindFirstOfCut(s: string, key: string, pre: string, rest: string)
    requires s == pre + key + rest
    requires forall j: nat :: j < |pre| ==> !OccursAt(s, key, j)
    ensures FindFirst(s, key) == Some(|pre|)
    ensures s[..|pre|] == pre && s[|pre| + |key|..] == rest
  {
    assert s[|pre|..|pre| + |key|] == key;
    assert OccursAt(s, key, |pre|);
  }

  /** Position of the last occurrence of character `c` in `s` (Python `str.rfind`). */
  function FindLastChar(s: string, c: char): (r: Option<nat>)
    ensures r.Some? <==> c in s
    ensures r.Some? ==> r.value < |s| && s[r.value] == c && c !in s[r.value + 1..]
    decreases |s|
  {
    if |s| == 0 then None
    else if s[|s| - 1] == c then
      Some(|s| - 1)
    else
      match FindLastChar(s[..|s| - 1], c)
      case None =>
        assert s == s[..|s| - 1] + [s[|s| - 1]];
        None
      case Some(i) =>
        assert s[i + 1..] == s[..|s| - 1][i + 1..] + [s[|s| - 1]];
        Some(i)
  }

  /** For a one-character pattern, containment is membership. */
  lemma ContainsSingleChar(s: string, c: char)
    ensures Contains(s, [c]) <==> c in s
  {
    var f := FindFirst(s, [c]);
    forall j: nat | j < |s|
      ensures OccursAt(s, [c], j) <==> s[j] == c
    {
      assert s[j..j + 1] == [s[j]];
    }
    if c in s {
      var j :| 0 <= j < |s| && s[j] == c;
      assert OccursAt(s, [c], j);
    }
  }

  /** The first occurrence of a character has no copy of it before it. */
  lemma FirstCharSplit(s: string, c: char) returns (i: nat)
    requires c in s
    ensures i < |s| && s[i] == c && c !in s[..i]
    ensures FindFirst(s, [c]) == Some(i)
  {
    ContainsSingleChar(s, c);
    i := FindFirst(s, [c]).value;
    assert s[i..i + 1] == [c];
    forall j | 0 <= j < i
      ensures s[..i][j] != c
    {
      assert !OccursAt(s, [c], j);
      assert s[j..j + 1] == [s[j]];
    }
  }

  /** Python `s.replace(t, "")`: one left-to-right pass deleting non-overlapping occurrences. */
  function RemoveAll(s: string, t: string): (r: string)
    requires |t| > 0
    ensures |r| <= |s|
    ensures forall c :: c in r ==> c in s
    ensures |t| == 1 ==> t[0] !in r
    ensures !Contains(s, t) ==> r == s
    ensures Contains(s, t) ==> |r| < |s|
    decreases |s|
  {
    if |s| < |t| then
      assert FindFirst(s, t).None?;
      s
    else if s[..|t|] == t then RemoveAll(s[|t|..], t)
    else [s[0]] + RemoveAll(s[1..], t)
  }

  /** Deleting the one copy of `c` that separates two `c`-free pieces joins them. */
  lemma WithoutAround(head: string, tail: string, c: char)
    requires c !in head && c !in tail
    ensures Without(head + [c] + tail, c) == head + tail
  {
    WithoutAppend(head + [c], tail, c);
    WithoutAfter(head, c);
    WithoutAbsent(tail, c);
  }

  lemma WithoutAfter(head: string, c: char)
    requires c !in head
    ensures Without(head + [c], c) == head
  {
    WithoutAppend(head, [c], c);
    WithoutAbsent(head, c);
    assert Without([c], c) == [];
  }

  /** A token whose first character does not occur in `a` cannot start inside `a`. */
  lemma {:induction false} RemoveAllAfter(a: string, b: string, t: string)
    requires |t| > 0 && t[0] !in a
    ensures RemoveAll(a + b, t) == a + RemoveAll(b, t)
    decreases |a|
  {
    if |a| > 0 {
      var s := a + b;
      assert s[0] == a[0] && s[1..] == a[1..] + b;
      if |s| >= |t| {
        assert s[..|t|][0] != t[0];
      }
      RemoveAllAfter(a[1..], b, t);
    } else {
      assert a + b == b;
    }
  }

  /** The first occurrence of the token is removed together with everything
      `replace` removes after it; the text before it is kept as it is. */
  lemma {:induction false} RemoveAllFirst(pre: string, t: string, rest: string)
    requires |t| > 0
    requires forall j: nat :: j < |pre| ==> !OccursAt(pre + t + rest, t, j)
    ensures RemoveAll(pre + t + rest, t) == pre + RemoveAll(rest, t)
    decreases |pre|
  {
    if |pre| == 0 {
      RemoveAllFirstBase(pre, t, rest);
    } else {
      NoEarlierShift(pre, t, rest);
      RemoveAllFirst(pre[1..], t, rest);
      RemoveAllFirstStep(pre, t, rest);
    }
  }

  lemma RemoveAllFirstBase(pre: string, t: string, rest: string)
    requires |t| > 0 && |pre| == 0
    ensures RemoveAll(pre + t + rest, t) == pre + RemoveAll(rest, t)
  {
    var s := pre + t + rest;
    assert s == t + rest;
    RemoveAllAtStart(s, t);
    assert s[|t|..] == rest;
  }

  lemma RemoveAllFirstStep(pre: string, t: string, rest: string)
    requires |t| > 0 && |pre| > 0 && !OccursAt(pre + t + rest, t, 0)
    requires RemoveAll(pre[1..] + t + rest, t) == pre[1..] + RemoveAll(rest, t)
    ensures RemoveAll(pre + t + rest, t) == pre + RemoveAll(rest, t)
  {
    DropFirstOfJoin(pre + t, rest);
    DropFirstOfJoin(pre, t);
    KeepFirst(pre + t + rest, t, pre, RemoveAll(rest, t));
  }

  lemma DropFirstOfJoin(a: string, b: string)
    requires |a| > 0
    ensures (a + b)[1..] == a[1..] + b && (a + b)[0] == a[0]
  {
  }

  /** A text not starting with the token keeps its first character in front of the rest's removal. */
  lemma KeepFirst(s: string, t: string, a: string, x: string)
    requires |t| > 0 && |s| > 0 && |a| > 0 && !OccursAt(s, t, 0) && s[0] == a[0]
    requires RemoveAll(s[1..], t) == a[1..] + x
    ensures RemoveAll(s, t) == a + x
  {
    RemoveAllSkip(s, t);
    assert [a[0]] + (a[1..] + x) == a + x;
  }

  lemma RemoveAllAtStart(s: string, t: string)
    requires |t| > 0 && StartsWith(s, t)
    ensures RemoveAll(s, t) == RemoveAll(s[|t|..], t)
  {
  }

  lemma RemoveAllSkip(s: string, t: string)
    requires |t| > 0 && |s| > 0 && !OccursAt(s, t, 0)
    ensures RemoveAll(s, t) == [s[0]] + RemoveAll(s[1..], t)
  {
    if |s| < |t| {
      RemoveAllShort(s, t);
      RemoveAllShort(s[1..], t);
      assert s == [s[0]] + s[1..];
    }
  }

  lemma RemoveAllShort(s: string, t: string)
    requires |t| > 0 && |s| < |t|
    ensures RemoveAll(s, t) == s
  {
  }

  /** No occurrence before the cut in `pre + t + rest` means none before the cut once the first character is dropped. */
  lemma NoEarlierShift(pre: string, t: string, rest: string)
    requires |pre| > 0
    requires forall j: nat :: j < |pre| ==> !OccursAt(pre + t + rest, t, j)
    ensures forall j: nat :: j < |pre[1..]| ==> !OccursAt(pre[1..] + t + rest, t, j)
  {
    var s, s' := pre + t + rest, pre[1..] + t + rest;
    assert s[1..] == s';
    forall j: nat | j < |pre[1..]|
      ensures !OccursAt(s', t, j)
    {
      assert !OccursAt(s, t, j + 1);
      if j + |t| <= |s'| {
        assert s'[j..j + |t|] == s[j + 1..j + 1 + |t|];
      }
    }
  }

  /** Removing a one-character token deletes exactly the copies of that
      character and keeps every other character, in order. */
  lemma {:induction false} RemoveAllChar(s: string, c: char)
    ensures RemoveAll(s, [c]) == Without(s, c)
    decreases |s|
  {
    if |s| > 0 {
      assert s[..1] == [s[0]];
      RemoveAllChar(s[1..], c);
    }
  }

  /** `s` with every copy of `c` deleted and everything else kept in order. */
  function Without(s: string, c: char): (r: string)
    ensures c !in r
    ensures |r| <= |s|
  {
    if |s| == 0 then []
    else (if s[0] == c then [] else [s[0]]) + Without(s[1..], c)
  }

  /** Deleting a character that does not occur changes nothing. */
  lemma {:induction false} WithoutAbsent(s: string, c: char)
    requires c !in s
    ensures Without(s, c) == s
    decreases |s|
  {
    if |s| > 0 {
      assert c !in s[1..];
      WithoutAbsent(s[1..], c);
    }
  }

  /** Exactly the other characters of the text survive the deletion. */
  lemma {:induction false} WithoutKeepsOthers(s: string, c: char)
    ensures forall d :: d in Without(s, c) <==> d in s && d != c
    decreases |s|
  {
    if |s| > 0 {
      WithoutKeepsOthers(s[1..], c);
      assert forall d :: d in s <==> d == s[0] || d in s[1..];
    }
  }

  /** Deleting a character works piecewise. */
  lemma {:induction false} WithoutAppend(a: string, b: string, c: char)
    ensures Without(a + b, c) == Without(a, c) + Without(b, c)
    decreases |a|
  {
    if |a| > 0 {
      assert (a + b)[0] == a[0] && (a + b)[1..] == a[1..] + b;
      WithoutAppend(a[1..], b, c);
    } else {
      assert a + b == b;
    }
  }

  /** Chained `.replace(t, "")` calls, one per token, in order. */
  function RemoveEach(s: string, ts: seq<string>): (r: string)
    requires forall i :: 0 <= i < |ts| ==> |ts[i]| > 0
    ensures |r| <= |s|
    ensures forall c :: c in r ==> c in s
    ensures forall i :: 0 <= i < |ts| && |ts[i]| == 1 ==> ts[i][0] !in r
    ensures (forall i :: 0 <= i < |ts| ==> !Contains(s, ts[i])) ==> r == s
    ensures |ts| > 0 && Contains(s, ts[0]) ==> |r| < |s|
    decreases |ts|
  {
    if |ts| == 0 then s
    else
      var a := RemoveAll(s, ts[0]);
      var r := RemoveEach(a, ts[1..]);
      assert forall i :: 1 <= i < |ts| ==> ts[i] == ts[1..][i - 1];
      r
  }

  /** The chain of `.replace` calls passes through `mids`: `mids[i + 1]` is what is
      left of `mids[i]` once every `ts[i]` is removed. */
  lemma {:induction false} RemoveEachThrough(ts: seq<string>, mids: seq<string>)
    requires forall i :: 0 <= i < |ts| ==> |ts[i]| > 0
    requires |mids| == |ts| + 1
    requires forall i :: 0 <= i < |ts| ==> RemoveAll(mids[i], ts[i]) == mids[i + 1]
    ensures RemoveEach(mids[0], ts) == mids[|ts|]
    decreases |ts|
  {
    if |ts| > 0 {
      assert forall i :: 0 <= i < |ts| - 1 ==> ts[1..][i] == ts[i + 1] && mids[1..][i] == mids[i + 1];
      RemoveEachThrough(ts[1..], mids[1..]);
    }
  }

  // ---------------------------------------------------------------------
  // Case
  // ---------------------------------------------------------------------

  function LowerChar(c: char): char {
    if 'A' <= c <= 'Z' then (c as int + 32) as char else c
  }

  function UpperChar(c: char): char {
    if 'a' <= c <= 'z' then (c as int - 32) as char else c
  }

  /** Python `str.lower()` restricted to ASCII letters. */
  function Lower(s: string): (r: string)
    ensures |r| == |s|
    ensures forall k :: 0 <= k < |s| ==> r[k] == LowerChar(s[k])
  {
    seq(|s|, k requires 0 <= k < |s| => LowerChar(s[k]))
  }

  /** Python `str.upper()` restricted to ASCII letters. */
  function Upper(s: string): (r: string)
    ensures |r| == |s|
    ensures forall k :: 0 <= k < |s| ==> r[k] == UpperChar(s[k])
  {
    seq(|s|, k requires 0 <= k < |s| => UpperChar(s[k]))
  }

  /** pandas `str.contains(p, case=False)` for a literal pattern. */
  predicate ContainsIgnoreCase(s: string, p: string) {
    Contains(Lower(s), Lower(p))
  }

  // ---------------------------------------------------------------------
  // Words (Python `str.split()` with no argument)
  // ---------------------------------------------------------------------

  /** The maximal run of non-whitespace characters at the front of `s`. */
  function WordLength(s: string): (n: nat)
    ensures n <= |s|
    ensures NoSpace(s[..n])
    ensures n < |s| ==> IsSpace(s[n])
  {
    if |s| > 0 && !IsSpace(s[0]) then
      var n' := WordLength(s[1..]);
      assert s[..1 + n'] == [s[0]] + s[1..][..n'];
      1 + n'
    else 0
  }

  /** Python `s.split()`: the whitespace-separated words of `s`, in order. */
  function Words(s: string): (ws: seq<string>)
    ensures forall k :: 0 <= k < |ws| ==> |ws[k]| > 0 && NoSpace(ws[k])
    decreases |s|
  {
    var t := s[LeadingSpaces(s)..];
    if |t| == 0 then []
    else
      var n := WordLength(t);
      [t[..n]] + Words(t[n..])
  }

  // ---------------------------------------------------------------------
  // Numbers
  // ---------------------------------------------------------------------

  predicate IsDigit(c: char) {
    '0' <= c <= '9'
  }

  predicate AllDigits(s: string) {
    forall k :: 0 <= k < |s| ==> IsDigit(s[k])
  }

  function DigitValue(c: char): nat
    requires IsDigit(c)
  {
    c as int - '0' as int
  }

  function DigitChar(d: nat): (c: char)
    requires d < 10
    ensures IsDigit(c) && DigitValue(c) == d
  {
    ('0' as int + d) as char
  }

  /** The value of a decimal digit string, most significant digit first. */
  function DigitsValue(s: string): nat
    requires AllDigits(s)
  {
    if |s| == 0 then 0
    else DigitsValue(s[..|s| - 1]) * 10 + DigitValue(s[|s| - 1])
  }

  /** Python `str(n)` for a natural number. */
  function NatToString(n: nat): (s: string)
    ensures |s| > 0 && AllDigits(s)
  {
    if n < 10 then [DigitChar(n)]
    else NatToString(n / 10) + [DigitChar(n % 10)]
  }

  /** Python `str(y)` for an integer. */
  function IntToString(y: int): (s: string)
    ensures |s| > 0 && NoSpace(s)
  {
    if y < 0 then "-" + NatToString(-y) else NatToString(y)
  }

  /** Python `int(tok)` on a whitespace-free token: an optional sign and ASCII digits. */
  function ParseInt(tok: string): Option<int> {
    if |tok| > 0 && (tok[0] == '-' || tok[0] == '+') then
      var ds := tok[1..];
      if |ds| > 0 && AllDigits(ds) then
        Some(if tok[0] == '-' then -(DigitsValue(ds) as int) else DigitsValue(ds) as int)
      else None
    else if |tok| > 0 && AllDigits(tok) then Some(DigitsValue(tok) as int)
    else None
  }

  function Pow10(n: nat): (p: nat)
    ensures p > 0
  {
    if n == 0 then 1 else 10 * Pow10(n - 1)
  }

  /** An unsigned decimal literal: digits, optionally a point and more digits, at least one digit. */
  function ParseUnsignedDecimal(s: string): Option<real> {
    match FindFirst(s, ".")
    case None =>
      if |s| > 0 && AllDigits(s) then Some(DigitsValue(s) as real) else None
    case Some(i) =>
      var whole := s[..i];
      var frac := s[i + 1..];
      if AllDigits(whole) && AllDigits(frac) && |whole| + |frac| > 0 then
        Some(DecimalValue(whole, frac))
      else None
  }

  /** The value of the digits `whole`, a point, and the digits `frac`. */
  function DecimalValue(whole: string, frac: string): real
    requires AllDigits(whole) && AllDigits(frac)
  {
    DigitsValue(whole) as real + DigitsValue(frac) as real / Pow10(|frac|) as real
  }

  /** `pd.to_numeric(cell, errors='coerce')` on a text cell: a signed decimal, or missing. */
  function ParseNumber(s: string): Option<real> {
    if |s| > 0 && (s[0] == '-' || s[0] == '+') then
      match ParseUnsignedDecimal(s[1..])
      case None => None
      case Some(v) => Some(if s[0] == '-' then -v else v)
    else ParseUnsignedDecimal(s)
  }

  /** A decimal the coercion accepts holds only digits and at most the point. */
  lemma DecimalChars(u: string)
    requires ParseUnsignedDecimal(u).Some?
    ensures forall k :: 0 <= k < |u| ==> IsDigit(u[k]) || u[k] == '.'
  {
    match FindFirst(u, ".")
    case None =>
    case Some(i) =>
      assert u[i..i + 1] == ".";
      forall k | 0 <= k < |u|
        ensures IsDigit(u[k]) || u[k] == '.'
      {
        if k < i {
          assert u[..i][k] == u[k];
        } else if k > i {
          assert u[i + 1..][k - i - 1] == u[k];
        } else {
          assert u[i..i + 1][0] == u[k];
        }
      }
  }

  /** A cell the coercion reads as a number consists of digits and points, with
      at most a leading sign: thousands separators, percent signs, currency signs
      and any other character make it missing. */
  lemma ParseNumberChars(s: string)
    requires ParseNumber(s).Some?
    ensures forall k :: 0 <= k < |s| ==>
      IsDigit(s[k]) || s[k] == '.' || (k == 0 && (s[k] == '-' || s[k] == '+'))
  {
    if |s| > 0 && (s[0] == '-' || s[0] == '+') {
      DecimalChars(s[1..]);
      forall k | 1 <= k < |s|
        ensures IsDigit(s[k]) || s[k] == '.'
      {
        assert s[1..][k - 1] == s[k];
      }
    } else {
      DecimalChars(s);
    }
  }

  /** A cell holding a comma or a percent sign, such as "1,234" or "21%", is missing. */
  lemma ParseNumberRejectsSeparators(s: string)
    requires ',' in s || '%' in s
    ensures ParseNumber(s) == None
  {
    if ParseNumber(s).Some? {
      ParseNumberNoSeparators(s);
      assert false;
    }
  }

  lemma ParseNumberNoSeparators(s: string)
    requires ParseNumber(s).Some?
    ensures ',' !in s && '%' !in s
  {
    ParseNumberChars(s);
    forall k | 0 <= k < |s|
      ensures s[k] != ',' && s[k] != '%'
    {
    }
  }

  /** The coercion reads a signed decimal written as digits, a point and digits
      (leading zeros allowed) as its value. */
  lemma ParseNumberOfDecimal(whole: string, frac: string)
    requires |whole| > 0 && AllDigits(whole) && AllDigits(frac)
    ensures var u := whole + "." + frac;
      var v := DigitsValue(whole) as real + DigitsValue(frac) as real / Pow10(|frac|) as real;
      ParseNumber(u).Some? && ParseNumber(u).value == v &&
      ParseNumber("-" + u).Some? && ParseNumber("-" + u).value == -v
  {
    PositiveDecimal(whole, frac);
    NegativeDecimal(whole, frac);
  }

  lemma PositiveDecimal(whole: string, frac: string)
    requires |whole| > 0 && AllDigits(whole) && AllDigits(frac)
    ensures var p := ParseNumber(whole + "." + frac);
      p.Some? && p.value == DigitsValue(whole) as real + DigitsValue(frac) as real / Pow10(|frac|) as real
  {
    var u := whole + "." + frac;
    UnsignedDecimalValue(whole, frac);
    assert u[0] == whole[0];
    ParseNumberUnsigned(u);
  }

  lemma NegativeDecimal(whole: string, frac: string)
    requires |whole| > 0 && AllDigits(whole) && AllDigits(frac)
    ensures var p := ParseNumber("-" + (whole + "." + frac));
      p.Some? && p.value == -(DigitsValue(whole) as real + DigitsValue(frac) as real / Pow10(|frac|) as real)
  {
    var u := whole + "." + frac;
    UnsignedDecimalValue(whole, frac);
    assert u[0] == whole[0];
    ParseNumberSigned(u);
  }

  lemma UnsignedDecimalValue(whole: string, frac: string)
    requires |whole| > 0 && AllDigits(whole) && AllDigits(frac)
    ensures var p := ParseUnsignedDecimal(whole + "." + frac);
      p.Some? && p.value == DigitsValue(whole) as real + DigitsValue(frac) as real / Pow10(|frac|) as real
  {
    UnsignedDecimalOfCut(whole, frac);
    DecimalValueIs(whole, frac);
  }

  lemma DecimalValueIs(whole: string, frac: string)
    requires AllDigits(whole) && AllDigits(frac)
    ensures DecimalValue(whole, frac) ==
      DigitsValue(whole) as real + DigitsValue(frac) as real / Pow10(|frac|) as real
  {
  }

  /** Digits, a point and digits read as the whole part plus the scaled fraction. */
  lemma UnsignedDecimalOfCut(w: string, frac: string)
    requires |w| > 0 && AllDigits(w) && AllDigits(frac)
    ensures ParseUnsignedDecimal(w + "." + frac) == Some(DecimalValue(w, frac))
  {
    var u := w + "." + frac;
    DigitsThenPoint(w, frac);
    FindFirstOfCut(u, ".", w, frac);
    assert u[|w| + 1..] == frac;
    DecimalAtPoint(u, |w|, w, frac);
  }

  /** A text whose first point is at `i`, with digits on both sides, reads as
      the digits before it plus the scaled digits after it. */
  lemma DecimalAtPoint(u: string, i: nat, whole: string, frac: string)
    requires FindFirst(u, ".") == Some(i)
    requires u[..i] == whole && u[i + 1..] == frac
    requires |whole| > 0 && AllDigits(whole) && AllDigits(frac)
    ensures ParseUnsignedDecimal(u) == Some(DecimalValue(whole, frac))
  {
    DecimalAtFirstPoint(u, i);
    assert AllDigits(u[..i]) && AllDigits(u[i + 1..]);
  }

  lemma DecimalAtFirstPoint(u: string, i: nat)
    requires FindFirst(u, ".") == Some(i)
    ensures ParseUnsignedDecimal(u) ==
      var whole, frac := u[..i], u[i + 1..];
      if AllDigits(whole) && AllDigits(frac) && |whole| + |frac| > 0 then
        Some(DecimalValue(whole, frac))
      else None
  {
  }

  lemma DigitsThenPoint(w: string, frac: string)
    requires AllDigits(w)
    ensures forall j: nat :: j < |w| ==> !OccursAt(w + "." + frac, ".", j)
  {
    var u := w + "." + frac;
    assert forall k :: 0 <= k < |w| ==> u[k] == w[k];
    NoPointAmongDigits(u, |w|);
  }

  lemma NoPointAmongDigits(u: string, n: nat)
    requires n <= |u| && forall k :: 0 <= k < n ==> IsDigit(u[k])
    ensures forall j: nat :: j < n ==> !OccursAt(u, ".", j)
  {
    forall j: nat | j < n
      ensures !OccursAt(u, ".", j)
    {
      assert u[j..j + 1][0] == u[j];
    }
  }

  lemma ParseNumberSigned(u: string)
    requires |u| > 0 && IsDigit(u[0]) && ParseUnsignedDecimal(u).Some?
    ensures ParseNumber("-" + u) == Some(-ParseUnsignedDecimal(u).value)
  {
    assert ("-" + u)[1..] == u;
  }

  lemma ParseNumberUnsigned(u: string)
    requires |u| > 0 && IsDigit(u[0])
    ensures ParseNumber(u) == ParseUnsignedDecimal(u)
  {
  }

  /** Reading back a rendered natural number yields that number. */
  lemma {:induction false} DigitsValueOfNatToString(n: nat)
    ensures DigitsValue(NatToString(n)) == n
  {
    if n >= 10 {
      var s := NatToString(n);
      assert s[..|s| - 1] == NatToString(n / 10);
      DigitsValueOfNatToString(n / 10);
    }
  }

  /** `int(str(y)) == y`. */
  lemma ParseIntOfIntToString(y: int)
    ensures ParseInt(IntToString(y)) == Some(y)
  {
    if y < 0 {
      var d := NatToString(-y);
      DigitsValueOfNatToString(-y);
      var tok := "-" + d;
      assert tok[0] == '-' && tok[1..] == d;
      assert ParseInt(tok) == Some(-(DigitsValue(d) as int));
    } else {
      var d := NatToString(y);
      DigitsValueOfNatToString(y);
      assert IsDigit(d[0]);
      assert ParseInt(d) == Some(DigitsValue(d) as int);
    }
  }

  /** A rendered integer, sign included, is read back as that integer by the numeric coercion. */
  lemma ParseNumberOfIntToString(y: int)
    ensures ParseNumber(IntToString(y)).Some? && ParseNumber(IntToString(y)).value == y as real
  {
    ParseNumberOfNatToString(if y < 0 then -y else y);
    if y < 0 {
      var d := NatToString(-y);
      assert IsDigit(d[0]);
      assert ("-" + d)[1..] == d;
      ParseNumberUnsigned(d);
    }
  }

  /** A rendered natural number is read back as that number by the numeric coercion. */
  lemma ParseNumberOfNatToString(n: nat)
    ensures ParseNumber(NatToString(n)) == Some(n as real)
  {
    var s := NatToString(n);
    DigitsValueOfNatToString(n);
    assert IsDigit(s[0]);
    forall j: nat | j < |s|
      ensures !OccursAt(s, ".", j)
    {
      assert IsDigit(s[j]);
      assert s[j..j + 1] == [s[j]];
    }
  }
}
