/** The dashboard's counting metrics: the totals of `#`, `@` and `http` over
    the text column, the "Profile Names Found" figure taken from the
    `available_tweet_info` column, and the choice of bucket size for the
    activity timeline. */
module Metrics {
  import opened Wrappers
  import opened Text
  import opened Sequences
  import opened Records

  // ---- Occurrence totals ----------------------------------------------------

  /** What a counting widget shows: nothing when the table has no rows (the
      whole statistics tab is skipped) or the text column is missing, the
      total when it can be searched, and an error when the column exists but
      pandas' `.str` accessor refuses it because it does not hold strings. */
  datatype Metric = NotShown | Shown(total: nat) | AccessorError

  /** `str.count(pat).sum()`: each string cell's count, with the nulls that
      `count` gives for missing text skipped by the sum. The count is case
      sensitive. */
  function TotalOccurrences(rows: seq<Row>, pat: string): nat
    requires pat != []
  {
    if rows == [] then 0
    else
      var cell := rows[|rows| - 1].text;
      TotalOccurrences(rows[..|rows| - 1], pat) + (if cell.Str? then CountOccurrences(cell.value, pat) else 0)
  }

  /** All the text of the string cells, one after the other. */
  function AllText(rows: seq<Row>): string {
    if rows == [] then []
    else
      var cell := rows[|rows| - 1].text;
      AllText(rows[..|rows| - 1]) + (if cell.Str? then cell.value else [])
  }

  /** One widget: the total of `pat` when the table has rows and the column is
      there and searchable. */
  function ColumnTotal(df: Table, pat: string): (m: Metric)
    requires pat != []
    ensures m == NotShown <==> df.rows == [] || df.textColumn == Absent
    ensures m == AccessorError <==> df.rows != [] && df.textColumn == NonObject
    ensures m.Shown? ==> m.total == TotalOccurrences(df.rows, pat) && m.total * |pat| <= |AllText(df.rows)|
  {
    if df.rows == [] then NotShown
    else match df.textColumn
      case Absent => NotShown
      case NonObject => AccessorError
      case Object =>
        TotalBound(df.rows, pat);
        Shown(TotalOccurrences(df.rows, pat))
  }

  /** "Total Hashtags", "Total Mentions" and "Links Shared". */
  function HashtagTotal(df: Table): Metric { ColumnTotal(df, "#") }
  function MentionTotal(df: Table): Metric { ColumnTotal(df, "@") }
  function LinkTotal(df: Table): Metric { ColumnTotal(df, "http") }

  /** The totals of the rows of two tables add up. */
  lemma {:induction false} TotalAppend(a: seq<Row>, b: seq<Row>, pat: string)
    requires pat != []
    ensures TotalOccurrences(a + b, pat) == TotalOccurrences(a, pat) + TotalOccurrences(b, pat)
    decreases |b|
  {
    if b == [] {
      assert a + b == a;
    } else {
      var n := |b|;
      assert (a + b)[..|a + b| - 1] == a + b[..n - 1];
      assert (a + b)[|a + b| - 1] == b[n - 1];
      TotalAppend(a, b[..n - 1], pat);
    }
  }

  /** The occurrences counted in a table never need more characters than its
      text has (the scan does not count overlapping matches). */
  lemma {:induction false} TotalBound(rows: seq<Row>, pat: string)
    requires pat != []
    ensures TotalOccurrences(rows, pat) * |pat| <= |AllText(rows)|
    decreases |rows|
  {
    if rows != [] {
      var p := rows[..|rows| - 1];
      TotalBound(p, pat);
      var cell := rows[|rows| - 1].text;
      var piece := if cell.Str? then cell.value else [];
      assert AllText(rows) == AllText(p) + piece;
      var c := if cell.Str? then CountOccurrences(cell.value, pat) else 0;
      assert TotalOccurrences(rows, pat) == TotalOccurrences(p, pat) + c;
      if cell.Str? {
        CountBound(cell.value, pat);
      }
      SumBound(TotalOccurrences(p, pat), c, |pat|, |AllText(p)|, |piece|);
    }
  }

  lemma SumBound(x: nat, y: nat, w: nat, a: nat, b: nat)
    requires x * w <= a && y * w <= b
    ensures (x + y) * w <= a + b
  {
    assert (x + y) * w == x * w + y * w;
  }

  /** For a one-character pattern such as `#` or `@` the total is the number of
      times the character appears in the column's text. */
  lemma {:induction false} SingleCharTotal(rows: seq<Row>, c: char)
    ensures TotalOccurrences(rows, [c]) == multiset(AllText(rows))[c]
    decreases |rows|
  {
    if rows != [] {
      SingleCharTotal(rows[..|rows| - 1], c);
      var cell := rows[|rows| - 1].text;
      if cell.Str? {
        CountSingleChar(cell.value, c);
        assert multiset(AllText(rows)) == multiset(AllText(rows[..|rows| - 1])) + multiset(cell.value);
      } else {
        assert AllText(rows) == AllText(rows[..|rows| - 1]);
      }
    }
  }

  /** "Links Shared" is positive exactly when some post's text contains
      `http`. */
  lemma {:induction false} LinkTotalPositive(rows: seq<Row>)
    ensures TotalOccurrences(rows, "http") > 0 <==>
      exists i :: 0 <= i < |rows| && rows[i].text.Str? && Contains(rows[i].text.value, "http")
    decreases |rows|
  {
    if rows != [] {
      var p := rows[..|rows| - 1];
      LinkTotalPositive(p);
      var cell := rows[|rows| - 1].text;
      if cell.Str? {
        CountPositiveIffContains(cell.value, "http");
      }
      if exists i :: 0 <= i < |p| && p[i].text.Str? && Contains(p[i].text.value, "http") {
        var i :| 0 <= i < |p| && p[i].text.Str? && Contains(p[i].text.value, "http");
        assert rows[i] == p[i];
      }
      if exists i :: 0 <= i < |rows| && rows[i].text.Str? && Contains(rows[i].text.value, "http") {
        var i :| 0 <= i < |rows| && rows[i].text.Str? && Contains(rows[i].text.value, "http");
        if i < |p| {
          assert p[i] == rows[i];
        }
      }
    }
  }

  /** The three widgets over a searchable column: none is shown for a table
      without rows; otherwise "Total Hashtags" and "Total Mentions" count the
      `#` and `@` characters of the column's text, and "Links Shared" is
      positive exactly when some post's text contains `http`. */
  lemma WidgetTotals(df: Table)
    requires df.textColumn == Object
    ensures df.rows == [] ==> HashtagTotal(df) == MentionTotal(df) == LinkTotal(df) == NotShown
    ensures df.rows != [] ==> HashtagTotal(df) == Shown(multiset(AllText(df.rows))['#'])
    ensures df.rows != [] ==> MentionTotal(df) == Shown(multiset(AllText(df.rows))['@'])
    ensures df.rows != [] ==> LinkTotal(df).Shown? && (LinkTotal(df).total > 0 <==>
      exists i :: 0 <= i < |df.rows| && df.rows[i].text.Str? && Contains(df.rows[i].text.value, "http"))
  {
    SingleCharTotal(df.rows, '#');
    SingleCharTotal(df.rows, '@');
    LinkTotalPositive(df.rows);
  }

  // ---- Profile names ----------------------------------------------------------

  /** The tail `\s+\(@` of the name pattern matches at position `i`: one or
      more whitespace characters and then `(@`. */
  predicate MarkerAt(s: string, i: int) {
    exists k :: 0 < k <= |s| && MarkerWith(s, i, k)
  }

  /** ... with exactly `k` whitespace characters. */
  predicate MarkerWith(s: string, i: int, k: int) {
    0 < k && 0 <= i && i + k + 2 <= |s| &&
    (forall m :: i <= m < i + k ==> IsSpace(s[m])) && s[i + k] == '(' && s[i + k + 1] == '@'
  }

  /** The end of the run of whitespace starting at `j` (greedy `\s+`). */
  function SpaceRunEnd(s: string, j: nat): (e: nat)
    requires j <= |s|
    ensures j <= e <= |s|
    ensures forall m :: j <= m < e ==> IsSpace(s[m])
    ensures e == |s| || !IsSpace(s[e])
    decreases |s| - j
  {
    if j < |s| && IsSpace(s[j]) then SpaceRunEnd(s, j + 1) else j
  }

  /** The matcher's test at one position: a whitespace character, the rest of
      its run, then `(@`. Backtracking into the run cannot help, because `(`
      is not whitespace. */
  predicate MarkerTest(s: string, i: nat) {
    i < |s| && IsSpace(s[i]) &&
    var e := SpaceRunEnd(s, i);
    e + 2 <= |s| && s[e] == '(' && s[e + 1] == '@'
  }

  lemma MarkerTestIff(s: string, i: nat)
    ensures MarkerTest(s, i) <==> MarkerAt(s, i)
  {
    if MarkerTest(s, i) {
      var e := SpaceRunEnd(s, i);
      assert MarkerWith(s, i, e - i);
    }
    if MarkerAt(s, i) {
      var k :| 0 < k <= |s| && MarkerWith(s, i, k);
      assert i + k + 2 <= |s| && s[i + k] == '(';
      assert !IsSpace(s[i + k]);
      assert SpaceRunEnd(s, i) == i + k;
    }
  }

  /** The lazy `^(.*?)`: try to end the name at `i`, `i + 1`, ..., never
      stepping over a newline, which `.` does not match. */
  function NameEnd(s: string, i: nat): (r: Option<nat>)
    requires i <= |s|
    decreases |s| - i
  {
    if MarkerTest(s, i) then Some(i)
    else if i < |s| && s[i] != '\n' then NameEnd(s, i + 1)
    else None
  }

  /** A position where a name may end: no newline before it and the tail of
      the pattern right after it. */
  predicate NameEndsAt(s: string, e: int) {
    0 <= e <= |s| && '\n' !in s[..e] && MarkerAt(s, e)
  }

  lemma {:induction false} NameEndSpec(s: string, i: nat)
    requires i <= |s| && '\n' !in s[..i]
    requires forall j :: 0 <= j < i ==> !MarkerAt(s, j)
    ensures NameEnd(s, i).Some? ==>
      NameEndsAt(s, NameEnd(s, i).value) && (forall j :: 0 <= j < NameEnd(s, i).value ==> !MarkerAt(s, j))
    ensures NameEnd(s, i).None? ==> forall e :: 0 <= e <= |s| ==> !NameEndsAt(s, e)
    decreases |s| - i
  {
    MarkerTestIff(s, i);
    if MarkerTest(s, i) {
    } else if i < |s| && s[i] != '\n' {
      assert s[..i + 1] == s[..i] + [s[i]];
      NameEndSpec(s, i + 1);
    } else {
      forall e | 0 <= e <= |s| ensures !NameEndsAt(s, e) {
        if i < e {
          assert s[..e][i] == '\n';
        }
      }
    }
  }

  /** `re.match(r"^(.*?)\s+\(@", info).group(1)`, or null when it does not
      match: the shortest prefix without a newline that is followed by
      whitespace and `(@`. */
  function ExtractProfileName(info: string): (r: Option<string>)
    ensures r.Some? <==> exists e :: 0 <= e <= |info| && NameEndsAt(info, e)
    ensures r.Some? ==> |r.value| <= |info| && r.value == info[..|r.value|] && NameEndsAt(info, |r.value|)
    ensures r.Some? ==> forall j :: 0 <= j < |r.value| ==> !MarkerAt(info, j)
  {
    NameEndSpec(info, 0);
    match NameEnd(info, 0)
    case None => None
    case Some(e) => Some(info[..e])
  }

  /** The rows the name metric reads: not retweets, with the info present. */
  predicate NameRow(row: Row) {
    row.isRetweet == Some(false) && row.info.Some?
  }

  /** The lambda applied to one row of the selection; other rows give no
      name. */
  function NameOf(row: Row): Option<string> {
    if NameRow(row) then ExtractProfileName(row.info.value) else None
  }

  /** `names.dropna()`: the names found, in row order. */
  function FoundNames(rows: seq<Row>): seq<string> {
    if rows == [] then []
    else
      var name := NameOf(rows[|rows| - 1]);
      FoundNames(rows[..|rows| - 1]) + (if name.Some? then [name.value] else [])
  }

  /** The widget is computed only when both columns exist and some info cell is
      present. */
  predicate NameColumnsUsable(df: Table) {
    df.hasInfo && df.hasIsRetweet && exists i :: 0 <= i < |df.rows| && df.rows[i].info.Some?
  }

  /** "Profile Names Found": the number of distinct names (`unique()`), or 0. */
  function ProfileNamesFound(df: Table): (n: nat)
    ensures n <= |df.rows|
    ensures !NameColumnsUsable(df) ==> n == 0
  {
    FoundNamesLength(df.rows);
    if NameColumnsUsable(df) then |DropDuplicates(FoundNames(df.rows))| else 0
  }

  lemma {:induction false} FoundNamesMembership(rows: seq<Row>, n: string)
    ensures n in FoundNames(rows) <==> exists i :: 0 <= i < |rows| && NameOf(rows[i]) == Some(n)
    decreases |rows|
  {
    if rows != [] {
      var p := rows[..|rows| - 1];
      FoundNamesMembership(p, n);
      if exists i :: 0 <= i < |p| && NameOf(p[i]) == Some(n) {
        var i :| 0 <= i < |p| && NameOf(p[i]) == Some(n);
        assert rows[i] == p[i];
      }
      if exists i :: 0 <= i < |rows| && NameOf(rows[i]) == Some(n) {
        var i :| 0 <= i < |rows| && NameOf(rows[i]) == Some(n);
        if i < |p| {
          assert p[i] == rows[i];
        }
      }
    }
  }

  lemma {:induction false} FoundNamesLength(rows: seq<Row>)
    ensures |FoundNames(rows)| <= |rows|
    decreases |rows|
  {
    if rows != [] {
      FoundNamesLength(rows[..|rows| - 1]);
    }
  }

  /** A name is counted exactly when some non-retweet row with info yields
      it, and the count never exceeds the number of rows. */
  lemma ProfileNamesCounted(df: Table, n: string)
    requires NameColumnsUsable(df)
    ensures n in DropDuplicates(FoundNames(df.rows)) <==>
      exists i :: 0 <= i < |df.rows| && NameRow(df.rows[i]) && ExtractProfileName(df.rows[i].info.value) == Some(n)
    ensures ProfileNamesFound(df) <= |df.rows|
  {
    var names := FoundNames(df.rows);
    FoundNamesMembership(df.rows, n);
    FoundNamesLength(df.rows);
    var d := DropDuplicates(names);
    if n in names {
      var i :| 0 <= i < |names| && names[i] == n;
      assert d[FirstIndex(d, names[i])] == n;
    }
    if n in d {
      var i :| 0 <= i < |d| && d[i] == n;
    }
  }

  /** The display name of a typical info cell is the part before the handle. */
  lemma ExtractProfileNameExample()
    ensures ExtractProfileName("Jane Doe (@jane)") == Some("Jane Doe")
  {
    var s := "Jane Doe (@jane)";
    ExampleMarkers(s);
    assert NameEnd(s, 8) == Some(8);
    assert NameEnd(s, 7) == Some(8);
    assert NameEnd(s, 6) == Some(8);
    assert NameEnd(s, 5) == Some(8);
    assert NameEnd(s, 4) == Some(8);
    assert NameEnd(s, 3) == Some(8);
    assert NameEnd(s, 2) == Some(8);
    assert NameEnd(s, 1) == Some(8);
    assert NameEnd(s, 0) == Some(8);
    assert s[..8] == "Jane Doe";
  }

  lemma ExampleMarkers(s: string)
    requires s == "Jane Doe (@jane)"
    ensures MarkerTest(s, 8) && !MarkerTest(s, 4)
  {
    assert SpaceRunEnd(s, 9) == 9;
    assert SpaceRunEnd(s, 8) == 9;
    assert SpaceRunEnd(s, 5) == 5;
    assert SpaceRunEnd(s, 4) == 5;
  }

  // ---- Timeline granularity -------------------------------------------------

  /** The bucket size of the activity chart. */
  datatype Granularity = Daily | Monthly | Yearly

  function Coarseness(g: Granularity): nat {
    match g
    case Daily => 0
    case Monthly => 1
    case Yearly => 2
  }

  /** Daily for a span of at most 90 days, monthly up to 730 days, yearly
      beyond. */
  function TimelineGranularity(spanDays: int): (g: Granularity)
    ensures g == Daily <==> spanDays <= 90
    ensures g == Monthly <==> 90 < spanDays <= 730
    ensures g == Yearly <==> 730 < spanDays
  {
    if spanDays <= 90 then Daily else if spanDays <= 730 then Monthly else Yearly
  }

  /** The number in the chart's caption: the span in days, whole 30-day months
      or whole 365-day years, as Python's floor division `//` gives them. */
  function CaptionCount(spanDays: int): (n: int)
    ensures TimelineGranularity(spanDays) == Daily ==> n == spanDays
    ensures TimelineGranularity(spanDays) == Monthly ==> 30 * n <= spanDays < 30 * (n + 1)
    ensures TimelineGranularity(spanDays) == Yearly ==> 365 * n <= spanDays < 365 * (n + 1)
  {
    match TimelineGranularity(spanDays)
    case Daily => spanDays
    case Monthly => spanDays / 30
    case Yearly => spanDays / 365
  }

  lemma GranularityBoundaries()
    ensures TimelineGranularity(90) == Daily && TimelineGranularity(91) == Monthly
    ensures TimelineGranularity(730) == Monthly && TimelineGranularity(731) == Yearly
  {
  }

  /** A longer span never gets finer buckets. */
  lemma GranularityMonotone(a: int, b: int)
    requires a <= b
    ensures Coarseness(TimelineGranularity(a)) <= Coarseness(TimelineGranularity(b))
  {
  }

  /** A monthly chart shows between 3 and 24 months, a yearly one at least 2
      years. */
  lemma CaptionRanges(spanDays: int)
    ensures TimelineGranularity(spanDays) == Monthly ==> 3 <= CaptionCount(spanDays) <= 24
    ensures TimelineGranularity(spanDays) == Yearly ==> 2 <= CaptionCount(spanDays)
  {
  }
}
