/** The keyword filter of the analyzer: `filter_tweets_by_keywords`, the rule
    at its call site that an empty keyword list means "no filtering", and the
    per-keyword breakdown table. A keyword matches a row when it occurs in the
    row's text, ignoring case; keywords are taken literally. */
module KeywordFilter {
  import opened Wrappers
  import opened Text
  import opened Sequences
  import opened Records

  /** `str.contains(kw, case=False, na=False)` on one cell: a null never
      matches. */
  predicate CellContains(cell: TextCell, kw: string) {
    cell.Str? && Contains(Lower(cell.value), Lower(kw))
  }

  /** The guard of each masking step: the text column exists and has dtype
      `object`. */
  predicate Searchable(df: Table) {
    df.textColumn == Object
  }

  /** A row is selected when the column can be searched and the row's text
      contains at least one of the keywords. */
  predicate Selected(df: Table, row: Row, keywords: seq<string>) {
    Searchable(df) && exists k :: 0 <= k < |keywords| && CellContains(row.text, keywords[k])
  }

  /** The selection mask over an arbitrary sequence of rows. */
  function MaskOf(df: Table, rows: seq<Row>, keywords: seq<string>): (mask: seq<bool>)
    ensures |mask| == |rows|
  {
    seq(|rows|, i requires 0 <= i < |rows| => Selected(df, rows[i], keywords))
  }

  /** The mask the filter's loop accumulates, one entry per row of `df`. */
  function KeywordMask(df: Table, keywords: seq<string>): (mask: seq<bool>)
    ensures |mask| == |df.rows|
  {
    MaskOf(df, df.rows, keywords)
  }

  /** What `filter_tweets_by_keywords(df, keywords)` returns: an empty frame
      for an empty table, otherwise the masked rows with full-row duplicates
      dropped. */
  function KeywordFilterSpec(df: Table, keywords: seq<string>): (r: Table)
    ensures Distinct(r.rows) && |r.rows| <= |df.rows|
    ensures forall i :: 0 <= i < |r.rows| ==> r.rows[i] in df.rows
  {
    if df.rows == [] then EmptyFrame
    else
      var selected := Where(df.rows, KeywordMask(df, keywords));
      var kept := DropDuplicates(selected);
      assert forall i :: 0 <= i < |kept| ==> kept[i] in df.rows by {
        WhereSubset(df.rows, KeywordMask(df, keywords));
      }
      df.(rows := kept)
  }

  /** `filter_tweets_by_keywords`: the mask starts all false and is OR-ed with
      one "contains" test per keyword; then the selected rows are kept and
      duplicates dropped. */
  method FilterTweetsByKeywords(df: Table, keywords: seq<string>) returns (r: Table)
    ensures r == KeywordFilterSpec(df, keywords)
  {
    if df.rows == [] {
      return EmptyFrame;
    }
    var mask := seq(|df.rows|, i => false);
    for j := 0 to |keywords|
      invariant |mask| == |df.rows|
      invariant forall i :: 0 <= i < |mask| ==>
        mask[i] == (Searchable(df) && exists k :: 0 <= k < j && CellContains(df.rows[i].text, keywords[k]))
    {
      if df.textColumn == Object {
        var kw := keywords[j];
        mask := seq(|mask|, i requires 0 <= i < |mask| => mask[i] || CellContains(df.rows[i].text, kw));
      }
    }
    assert mask == KeywordMask(df, keywords);
    var selected := Where(df.rows, mask);
    r := df.(rows := DropDuplicates(selected));
  }

  /** The selected rows, picked by value. */
  function SelectRows(df: Table, rows: seq<Row>, keywords: seq<string>): seq<Row> {
    if rows == [] then []
    else
      var p := SelectRows(df, rows[..|rows| - 1], keywords);
      if Selected(df, rows[|rows| - 1], keywords) then p + [rows[|rows| - 1]] else p
  }

  /** Masking with the selection mask is selecting by value. */
  lemma {:induction false} WhereIsSelect(df: Table, rows: seq<Row>, keywords: seq<string>)
    ensures Where(rows, MaskOf(df, rows, keywords)) == SelectRows(df, rows, keywords)
    decreases |rows|
  {
    if rows != [] {
      var n := |rows|;
      assert MaskOf(df, rows, keywords)[..n - 1] == MaskOf(df, rows[..n - 1], keywords);
      WhereIsSelect(df, rows[..n - 1], keywords);
    }
  }

  lemma {:induction false} SelectRowsMembership(df: Table, rows: seq<Row>, keywords: seq<string>, row: Row)
    ensures row in SelectRows(df, rows, keywords) <==> row in rows && Selected(df, row, keywords)
    decreases |rows|
  {
    if rows != [] {
      var n := |rows|;
      assert rows == rows[..n - 1] + [rows[n - 1]];
      SelectRowsMembership(df, rows[..n - 1], keywords, row);
    }
  }

  lemma {:induction false} SelectRowsAppend(df: Table, a: seq<Row>, b: seq<Row>, keywords: seq<string>)
    ensures SelectRows(df, a + b, keywords) == SelectRows(df, a, keywords) + SelectRows(df, b, keywords)
    decreases |b|
  {
    if b == [] {
      assert a + b == a;
    } else {
      var n := |b|;
      assert (a + b)[..|a + b| - 1] == a + b[..n - 1];
      assert (a + b)[|a + b| - 1] == b[n - 1];
      SelectRowsAppend(df, a, b[..n - 1], keywords);
    }
  }

  /** Selecting and dropping duplicates commute, because whether a row is
      selected depends only on the row. */
  lemma {:induction false} SelectCommutesWithDropDuplicates(df: Table, rows: seq<Row>, keywords: seq<string>)
    ensures DropDuplicates(SelectRows(df, rows, keywords)) == SelectRows(df, DropDuplicates(rows), keywords)
    decreases |rows|
  {
    if rows != [] {
      var n := |rows|;
      var p, x := rows[..n - 1], rows[n - 1];
      assert rows == p + [x];
      SelectCommutesWithDropDuplicates(df, p, keywords);
      SelectRowsMembership(df, p, keywords, x);
      var sp, dp := SelectRows(df, p, keywords), DropDuplicates(p);
      DropDuplicatesSnoc(p, x);
      SelectRowsSnoc(df, p, x, keywords);
      SelectRowsSnoc(df, dp, x, keywords);
      if Selected(df, x, keywords) {
        DropDuplicatesSnoc(sp, x);
      }
    }
  }

  /** Selecting from a sequence with one more row. */
  lemma SelectRowsSnoc(df: Table, p: seq<Row>, x: Row, keywords: seq<string>)
    ensures SelectRows(df, p + [x], keywords) ==
      if Selected(df, x, keywords) then SelectRows(df, p, keywords) + [x] else SelectRows(df, p, keywords)
  {
    assert (p + [x])[..|p + [x]| - 1] == p;
  }

  /** Selecting from a sequence ordered by first occurrence in `s` keeps that
      order. */
  lemma SelectKeepsOrder(df: Table, q: seq<Row>, keywords: seq<string>, s: seq<Row>)
    requires InOrder(q, s)
    ensures InOrder(SelectRows(df, q, keywords), s)
  {
    WhereIsSelect(df, q, keywords);
    WhereInOrder(q, MaskOf(df, q, keywords), s);
  }

  /** Soundness and completeness: a row is in the result exactly when it is a
      row of the table whose text contains some keyword, ignoring case. */
  lemma FilterSelectsExactly(df: Table, keywords: seq<string>, row: Row)
    ensures row in KeywordFilterSpec(df, keywords).rows <==> row in df.rows && Selected(df, row, keywords)
  {
    if df.rows != [] {
      WhereIsSelect(df, df.rows, keywords);
      var sel := SelectRows(df, df.rows, keywords);
      var r := DropDuplicates(sel);
      SelectRowsMembership(df, df.rows, keywords, row);
      if row in sel {
        var i :| 0 <= i < |sel| && sel[i] == row;
        assert r[FirstIndex(r, sel[i])] == row;
      }
      if row in r {
        var i :| 0 <= i < |r| && r[i] == row;
      }
    }
  }

  /** The result lists the kept rows in the order in which each first occurs in
      the table. */
  lemma FilterKeepsOrder(df: Table, keywords: seq<string>)
    ensures InOrder(KeywordFilterSpec(df, keywords).rows, df.rows)
  {
    if df.rows != [] {
      WhereIsSelect(df, df.rows, keywords);
      SelectCommutesWithDropDuplicates(df, df.rows, keywords);
      DropDuplicatesOrder(df.rows);
      SelectKeepsOrder(df, DropDuplicates(df.rows), keywords, df.rows);
    }
  }

  /** Without a searchable text column nothing matches: the mask stays all
      false. */
  lemma FilterUnsearchable(df: Table, keywords: seq<string>)
    requires !Searchable(df)
    ensures KeywordFilterSpec(df, keywords).rows == []
  {
    if df.rows != [] {
      WhereNone(df.rows, KeywordMask(df, keywords));
    }
  }

  /** The filter itself, given no keywords, keeps nothing. */
  lemma FilterNoKeywords(df: Table)
    ensures KeywordFilterSpec(df, []).rows == []
  {
    if df.rows != [] {
      WhereNone(df.rows, KeywordMask(df, []));
    }
  }

  /** Filtering a table appended to itself gives what filtering the table
      gives. */
  lemma FilterDuplicatedTable(df: Table, keywords: seq<string>)
    ensures KeywordFilterSpec(df.(rows := df.rows + df.rows), keywords) == KeywordFilterSpec(df, keywords)
  {
    var dd := df.(rows := df.rows + df.rows);
    if df.rows != [] {
      assert KeywordMask(dd, keywords) == MaskOf(df, df.rows + df.rows, keywords);
      WhereIsSelect(df, df.rows + df.rows, keywords);
      WhereIsSelect(df, df.rows, keywords);
      SelectRowsAppend(df, df.rows, df.rows, keywords);
      var sel := SelectRows(df, df.rows, keywords);
      DropDuplicatesAbsorbs(sel, sel);
    }
  }

  /** The call site in `main`: the filter runs only for a non-empty keyword
      list and a non-empty table; otherwise the full table is the result. */
  method FilteredFrame(df: Table, keywords: seq<string>) returns (filtered: Table)
    ensures keywords == [] || df.rows == [] ==> filtered == df
    ensures keywords != [] && df.rows != [] ==> filtered == KeywordFilterSpec(df, keywords)
  {
    if keywords != [] && df.rows != [] {
      filtered := FilterTweetsByKeywords(df, keywords);
    } else {
      filtered := df;
    }
  }

  /** One keyword's entry in the breakdown table: the number of rows of the
      whole table whose text contains it, or 0 when the column is missing or
      not of dtype `object`. Rows are counted by position, so a row that
      appears twice counts twice. */
  function KeywordCount(df: Table, kw: string): (c: nat)
    ensures c <= |df.rows|
    ensures c == |set i | 0 <= i < |df.rows| && Searchable(df) && CellContains(df.rows[i].text, kw)|
  {
    SelectRowsLength(df, df.rows, [kw]);
    SelectRowsPositions(df, df.rows, [kw]);
    SelectedOne(df, kw);
    assert SelectedPositions(df, df.rows, [kw]) ==
      set i | 0 <= i < |df.rows| && Searchable(df) && CellContains(df.rows[i].text, kw);
    if Searchable(df) then |SelectRows(df, df.rows, [kw])| else 0
  }

  /** With one keyword, a row is selected exactly when the column is
      searchable and the row's text contains that keyword. */
  lemma SelectedOne(df: Table, kw: string)
    ensures forall row: Row :: Selected(df, row, [kw]) <==> Searchable(df) && CellContains(row.text, kw)
  {
    forall row: Row | Searchable(df) && CellContains(row.text, kw)
      ensures Selected(df, row, [kw])
    {
      assert CellContains(row.text, [kw][0]);
    }
  }

  /** The positions of `rows` that hold a selected row. */
  function SelectedPositions(df: Table, rows: seq<Row>, keywords: seq<string>): set<int> {
    set i | 0 <= i < |rows| && Selected(df, rows[i], keywords)
  }

  lemma SelectedPositionsSnoc(df: Table, p: seq<Row>, x: Row, keywords: seq<string>)
    ensures SelectedPositions(df, p + [x], keywords) ==
      SelectedPositions(df, p, keywords) + (if Selected(df, x, keywords) then {|p|} else {})
  {
    var q := p + [x];
    assert forall i :: 0 <= i < |p| ==> q[i] == p[i];
    assert q[|p|] == x;
  }

  /** The number of rows selected is the number of positions holding a
      selected row. */
  lemma {:induction false} SelectRowsPositions(df: Table, rows: seq<Row>, keywords: seq<string>)
    ensures |SelectRows(df, rows, keywords)| == |SelectedPositions(df, rows, keywords)|
    decreases |rows|
  {
    if rows == [] {
      assert SelectedPositions(df, rows, keywords) == {};
    } else {
      var n := |rows|;
      var p, x := rows[..n - 1], rows[n - 1];
      assert rows == p + [x];
      SelectRowsPositions(df, p, keywords);
      SelectRowsSnoc(df, p, x, keywords);
      SelectedPositionsSnoc(df, p, x, keywords);
      assert n - 1 !in SelectedPositions(df, p, keywords);
    }
  }

  /** Selection keeps every copy of a selected row and no copy of any other:
      a row appears in the selection as often as in the rows when it matches,
      and not at all otherwise. */
  lemma {:induction false} SelectRowsMultiplicity(df: Table, rows: seq<Row>, keywords: seq<string>, row: Row)
    ensures multiset(SelectRows(df, rows, keywords))[row] ==
      if Selected(df, row, keywords) then multiset(rows)[row] else 0
    decreases |rows|
  {
    if rows != [] {
      var n := |rows|;
      var p := rows[..n - 1];
      assert rows == p + [rows[n - 1]];
      SelectRowsMultiplicity(df, p, keywords, row);
    }
  }

  /** A keyword's count is positive exactly when the column is searchable and
      some row's text contains the keyword, ignoring case. */
  lemma KeywordCountPositive(df: Table, kw: string)
    ensures KeywordCount(df, kw) > 0 <==>
      Searchable(df) && exists i :: 0 <= i < |df.rows| && CellContains(df.rows[i].text, kw)
  {
    var sel := SelectRows(df, df.rows, [kw]);
    if Searchable(df) {
      if sel != [] {
        SelectRowsMembership(df, df.rows, [kw], sel[0]);
        var i :| 0 <= i < |df.rows| && df.rows[i] == sel[0];
        assert CellContains(df.rows[i].text, [kw][0]);
      }
      if exists i :: 0 <= i < |df.rows| && CellContains(df.rows[i].text, kw) {
        var i :| 0 <= i < |df.rows| && CellContains(df.rows[i].text, kw);
        assert CellContains(df.rows[i].text, [kw][0]);
        SelectRowsMembership(df, df.rows, [kw], df.rows[i]);
      }
    }
  }

  /** The keyword breakdown: a dictionary filled in a loop over the keywords,
      held as its items in insertion order, the order in which the table
      lists them. A keyword listed twice keeps its first place. */
  method KeywordBreakdown(df: Table, keywords: seq<string>) returns (counts: seq<(string, nat)>)
    ensures Keys(counts) == DropDuplicates(keywords)
    ensures InOrder(Keys(counts), keywords)
    ensures forall i :: 0 <= i < |counts| ==> counts[i].1 == KeywordCount(df, counts[i].0)
  {
    ghost var f: string -> nat := k => KeywordCount(df, k);
    counts := [];
    for j := 0 to |keywords|
      invariant counts == Tabulate(DropDuplicates(keywords[..j]), f)
    {
      var kw := keywords[j];
      var count: nat;
      if df.textColumn == Object {
        count := |SelectRows(df, df.rows, [kw])|;
      } else {
        count := 0;
      }
      assert keywords[..j + 1] == keywords[..j] + [kw];
      DictSetDropDuplicates(keywords[..j], kw, f);
      counts := DictSet(counts, kw, count);
    }
    assert keywords[..|keywords|] == keywords;
    DropDuplicatesOrder(keywords);
  }

  /** A row counted for a keyword may be a duplicate the filter dropped, so a
      breakdown entry is never below what the filter keeps for that keyword. */
  lemma KeywordCountBoundsFilter(df: Table, kw: string)
    ensures |KeywordFilterSpec(df, [kw]).rows| <= KeywordCount(df, kw) <= |df.rows|
  {
    if Searchable(df) {
      if df.rows != [] {
        WhereIsSelect(df, df.rows, [kw]);
      }
      SelectRowsLength(df, df.rows, [kw]);
    } else {
      FilterUnsearchable(df, [kw]);
    }
  }

  lemma {:induction false} SelectRowsLength(df: Table, rows: seq<Row>, keywords: seq<string>)
    ensures |SelectRows(df, rows, keywords)| <= |rows|
    decreases |rows|
  {
    if rows != [] {
      SelectRowsLength(df, rows[..|rows| - 1], keywords);
    }
  }

  /** The breakdown counts duplicate rows: a table holding the same snapshot
      twice, text "CEO", gets a count of 2 for "ceo" while the filter keeps one
      row. */
  lemma BreakdownCountsDuplicateRows()
    ensures var df := Table(Object, false, false, [TextRow(Str("CEO")), TextRow(Str("CEO"))]);
      KeywordCount(df, "ceo") == 2 && |KeywordFilterSpec(df, ["ceo"]).rows| == 1
  {
    var row := TextRow(Str("CEO"));
    var df := Table(Object, false, false, [row, row]);
    assert Lower("CEO") == "ceo" && Lower("ceo") == "ceo";
    assert OccursAt("ceo", "ceo", 0);
    assert CellContains(row.text, ["ceo"][0]);
    assert Selected(df, row, ["ceo"]);
    assert [row, row][..1] == [row];
    assert SelectRows(df, [row], ["ceo"]) == [row];
    assert SelectRows(df, [row, row], ["ceo"]) == [row, row];
    WhereIsSelect(df, df.rows, ["ceo"]);
    assert [row, row][..1] == [row];
    assert DropDuplicates([row]) == [row];
    assert DropDuplicates([row, row]) == [row];
  }

  /** The breakdown entry as the comment beside it describes it: the number of
      distinct rows whose text contains the keyword. */
  function UniqueKeywordCount(df: Table, kw: string): nat {
    if Searchable(df) then |DropDuplicates(SelectRows(df, df.rows, [kw]))| else 0
  }

  lemma {:induction false} DistinctCardinality(s: seq<Row>)
    requires Distinct(s)
    ensures |set x | x in s| == |s|
    decreases |s|
  {
    if s != [] {
      var p := s[..|s| - 1];
      DistinctCardinality(p);
      assert s == p + [s[|s| - 1]];
      assert (set x | x in s) == (set x | x in p) + {s[|s| - 1]};
    }
  }

  /** The corrected count is the number of distinct matching rows, and it is
      exactly the number of rows the filter keeps for that one keyword. */
  lemma UniqueKeywordCountIsDistinctMatches(df: Table, kw: string)
    requires Searchable(df)
    ensures UniqueKeywordCount(df, kw) == |set row | row in df.rows && Selected(df, row, [kw])|
    ensures UniqueKeywordCount(df, kw) == |KeywordFilterSpec(df, [kw]).rows|
  {
    var sel := SelectRows(df, df.rows, [kw]);
    var r := DropDuplicates(sel);
    DistinctCardinality(r);
    forall row | row in df.rows && Selected(df, row, [kw]) ensures row in r {
      SelectRowsMembership(df, df.rows, [kw], row);
      var i :| 0 <= i < |sel| && sel[i] == row;
    }
    forall row | row in r ensures row in df.rows && Selected(df, row, [kw]) {
      var i :| 0 <= i < |r| && r[i] == row;
      SelectRowsMembership(df, df.rows, [kw], row);
    }
    assert (set x | x in r) == (set row | row in df.rows && Selected(df, row, [kw]));
    if df.rows != [] {
      WhereIsSelect(df, df.rows, [kw]);
    }
  }

  /** The worked example: of "elite manager", "nothing here", "CEO and
      manager", a null and "board meeting", the keywords "ceo" and "manager"
      select the first and the third row. */
  lemma FilterExample()
    ensures var rows := [TextRow(Str("elite manager")), TextRow(Str("nothing here")),
                         TextRow(Str("CEO and manager")), TextRow(NoneValue), TextRow(Str("board meeting"))];
      KeywordFilterSpec(Table(Object, false, false, rows), ["ceo", "manager"]).rows == [rows[0], rows[2]]
  {
    var rows := [TextRow(Str("elite manager")), TextRow(Str("nothing here")),
                 TextRow(Str("CEO and manager")), TextRow(NoneValue), TextRow(Str("board meeting"))];
    var df := Table(Object, false, false, rows);
    var kws := ["ceo", "manager"];
    ExampleMask(df, kws);
    WhereExample(rows[0], rows[1], rows[2], rows[3], rows[4]);
    assert rows == [rows[0], rows[1], rows[2], rows[3], rows[4]];
    DropDuplicatesPair(rows[0], rows[2]);
  }

  lemma ExampleMask(df: Table, kws: seq<string>)
    requires df == Table(Object, false, false,
      [TextRow(Str("elite manager")), TextRow(Str("nothing here")),
       TextRow(Str("CEO and manager")), TextRow(NoneValue), TextRow(Str("board meeting"))])
    requires kws == ["ceo", "manager"]
    ensures KeywordMask(df, kws) == [true, false, true, false, false]
  {
    var rows := df.rows;
    ExampleSelection();
    assert Selected(df, rows[0], kws) by { assert CellContains(rows[0].text, kws[1]); }
    assert Selected(df, rows[2], kws) by { assert CellContains(rows[2].text, kws[0]); }
  }

  lemma DropDuplicatesPair<T>(a: T, b: T)
    requires a != b
    ensures DropDuplicates([a, b]) == [a, b]
  {
    assert [a, b][..1] == [a];
  }

  lemma WhereExample<T>(r0: T, r1: T, r2: T, r3: T, r4: T)
    ensures Where([r0, r1, r2, r3, r4], [true, false, true, false, false]) == [r0, r2]
  {
    assert [r0, r1][..1] == [r0] && [true, false][..1] == [true];
    assert Where([r0, r1], [true, false]) == [r0];
    assert [r0, r1, r2][..2] == [r0, r1] && [true, false, true][..2] == [true, false];
    assert Where([r0, r1, r2], [true, false, true]) == [r0, r2];
    assert [r0, r1, r2, r3][..3] == [r0, r1, r2] && [true, false, true, false][..3] == [true, false, true];
    assert Where([r0, r1, r2, r3], [true, false, true, false]) == [r0, r2];
    assert [r0, r1, r2, r3, r4][..4] == [r0, r1, r2, r3];
    assert [true, false, true, false, false][..4] == [true, false, true, false];
  }

  lemma ExampleSelection()
    ensures CellContains(Str("elite manager"), "manager")
    ensures CellContains(Str("CEO and manager"), "ceo")
    ensures !CellContains(Str("nothing here"), "ceo") && !CellContains(Str("nothing here"), "manager")
    ensures !CellContains(Str("board meeting"), "ceo") && !CellContains(Str("board meeting"), "manager")
  {
    ExampleMatches();
    ExampleMisses();
  }

  lemma ExampleMatches()
    ensures CellContains(Str("elite manager"), "manager")
    ensures CellContains(Str("CEO and manager"), "ceo")
  {
    assert Lower("ceo") == "ceo" && Lower("manager") == "manager";
    assert Lower("elite manager") == "elite manager";
    assert Lower("CEO and manager") == "ceo and manager";
    assert OccursAt("elite manager", "manager", 6);
    assert OccursAt("ceo and manager", "ceo", 0);
  }

  lemma ExampleMisses()
    ensures !CellContains(Str("nothing here"), "ceo") && !CellContains(Str("nothing here"), "manager")
    ensures !CellContains(Str("board meeting"), "ceo") && !CellContains(Str("board meeting"), "manager")
  {
    assert Lower("ceo") == "ceo" && Lower("manager") == "manager";
    assert Lower("nothing here") == "nothing here";
    assert Lower("board meeting") == "board meeting";
    FirstCharAbsent("nothing here", "ceo");
    FirstCharAbsent("nothing here", "manager");
    FirstCharAbsent("board meeting", "ceo");
    assert "manager"[..2] == "ma";
    MaAbsent();
    PrefixAbsent("board meeting", "manager", 2);
  }

  lemma MaAbsent()
    ensures !Contains("board meeting", "ma")
  {
    var h := "board meeting";
    forall i | 0 <= i <= |h| ensures !OccursAt(h, "ma", i) {
      if i + 2 <= |h| {
        assert h[i..i + 2][0] == h[i] && h[i..i + 2][1] == h[i + 1];
      }
    }
  }
}
