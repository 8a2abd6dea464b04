/** The content-type breakdown of the dashboard's Content tab:
    `categorize_tweet`, which lower-cases a post's text and gives it every
    label whose test fires (or "Standard Tweet" when none does), and the
    per-label totals over all rows, where each row counts once for each label
    it carries. */
module ContentTypes {
  import opened Wrappers
  import opened Text
  import opened Records

  /** The six labels, in the order the tests are applied. */
  datatype Label = Retweet | ContainsLink | Question | MultiMention | MultiHashtag | StandardTweet

  /** The label's name as the dashboard shows it. */
  function LabelName(l: Label): string {
    match l
    case Retweet => "Retweet"
    case ContainsLink => "Contains Link"
    case Question => "Question"
    case MultiMention => "Multi-mention"
    case MultiHashtag => "Multi-hashtag"
    case StandardTweet => "Standard Tweet"
  }

  /** No two labels share a name, so the chart's bars, one per name, are one
      per label. */
  lemma LabelNamesDistinct(a: Label, b: Label)
    requires LabelName(a) == LabelName(b)
    ensures a == b
  {
  }

  /** The position of a label's test; the fallback comes last. */
  function Rank(l: Label): nat {
    match l
    case Retweet => 0
    case ContainsLink => 1
    case Question => 2
    case MultiMention => 3
    case MultiHashtag => 4
    case StandardTweet => 5
  }

  /** `str(text)`: a string is itself; a missing value prints as `None` or
      `nan`. */
  function Stringify(cell: TextCell): string {
    match cell
    case Str(s) => s
    case NoneValue => "None"
    case NaNValue => "nan"
  }

  /** Some term of `terms` occurs in `t` (`any(term in text for term in ...)`). */
  predicate AnyTerm(t: string, terms: seq<string>) {
    exists k :: 0 <= k < |terms| && Contains(t, terms[k])
  }

  const LinkTerms: seq<string> := ["http://", "https://", "www."]
  const QuestionTerms: seq<string> := ["?", "what", "why", "how", "when", "where", "who"]

  /** The five tests, each on the lower-cased text. */
  predicate RetweetTest(t: string) {
    StartsWith(t, "rt @") || Contains(t, " retweet ")
  }

  predicate LinkTest(t: string) {
    AnyTerm(t, LinkTerms)
  }

  predicate QuestionTest(t: string) {
    AnyTerm(t, QuestionTerms)
  }

  predicate MentionTest(t: string) {
    CountOccurrences(t, "@") >= 2
  }

  predicate HashtagTest(t: string) {
    CountOccurrences(t, "#") >= 2
  }

  /** The text the tests look at. */
  function Normalized(cell: TextCell): string {
    Lower(Stringify(cell))
  }

  /** The outcome of the five tests on one text. */
  datatype Outcome = Outcome(retweet: bool, link: bool, question: bool, mentions: bool, hashtags: bool)

  function Tests(t: string): Outcome {
    Outcome(RetweetTest(t), LinkTest(t), QuestionTest(t), MentionTest(t), HashtagTest(t))
  }

  predicate NoneFired(o: Outcome) {
    !o.retweet && !o.link && !o.question && !o.mentions && !o.hashtags
  }

  /** The condition under which a text gets label `l`; the fallback needs every
      test to have failed. */
  predicate Fires(o: Outcome, l: Label) {
    match l
    case Retweet => o.retweet
    case ContainsLink => o.link
    case Question => o.question
    case MultiMention => o.mentions
    case MultiHashtag => o.hashtags
    case StandardTweet => NoneFired(o)
  }

  /** Labels in strictly increasing order of their tests, hence no label
      twice. */
  predicate Increasing(r: seq<Label>) {
    forall i, j :: 0 <= i < j < |r| ==> Rank(r[i]) < Rank(r[j])
  }

  /** Every label of `r` comes from a test before the `n`-th. */
  predicate Below(r: seq<Label>, n: nat) {
    forall i :: 0 <= i < |r| ==> Rank(r[i]) < n
  }

  /** One test's step: its label is appended when it fired. */
  function Emit(p: seq<Label>, fired: bool, l: Label): (r: seq<Label>)
    ensures forall x :: x in r <==> x in p || (fired && x == l)
    ensures |r| == |p| + Bit(fired)
    ensures Increasing(p) && Below(p, Rank(l)) ==> Increasing(r) && Below(r, Rank(l) + 1)
  {
    if fired then p + [l] else p
  }

  /** The labels that fired, in the order of the tests. */
  function FiredLabels(o: Outcome): (r: seq<Label>)
    ensures Increasing(r) && Below(r, Rank(StandardTweet))
    ensures forall x :: x in r <==> x != StandardTweet && Fires(o, x)
    ensures |r| == Bit(o.retweet) + Bit(o.link) + Bit(o.question) + Bit(o.mentions) + Bit(o.hashtags)
  {
    var p1 := Emit([], o.retweet, Retweet);
    var p2 := Emit(p1, o.link, ContainsLink);
    var p3 := Emit(p2, o.question, Question);
    var p4 := Emit(p3, o.mentions, MultiMention);
    var r := Emit(p4, o.hashtags, MultiHashtag);
    LabelCases(o, r);
    r
  }

  /** Membership by cases on the label. */
  lemma LabelCases(o: Outcome, r: seq<Label>)
    requires forall x :: x in r <==>
      ((o.retweet && x == Retweet) || (o.link && x == ContainsLink) ||
       (o.question && x == Question) || (o.mentions && x == MultiMention) || (o.hashtags && x == MultiHashtag))
    ensures forall x :: x in r <==> x != StandardTweet && Fires(o, x)
  {
    forall x ensures x in r <==> x != StandardTweet && Fires(o, x) {
      match x
      case Retweet =>
      case ContainsLink =>
      case Question =>
      case MultiMention =>
      case MultiHashtag =>
      case StandardTweet =>
    }
  }

  /** The list a text gets: the labels that fired, or the fallback alone. */
  function LabelsOf(o: Outcome): (r: seq<Label>)
    ensures r != [] && Increasing(r)
    ensures forall l :: l in r <==> Fires(o, l)
    ensures StandardTweet in r ==> r == [StandardTweet]
  {
    var fired := FiredLabels(o);
    if fired == [] then [StandardTweet] else fired
  }

  /** The labels `categorize_tweet` gives a text: each label exactly when its
      test fires on the lower-cased text, in the order of the tests, and
      "Standard Tweet" alone exactly when no test fires. */
  function ContentLabels(cell: TextCell): (r: seq<Label>)
    ensures r != [] && Increasing(r)
    ensures forall l :: l in r <==> Fires(Tests(Normalized(cell)), l)
    ensures StandardTweet in r ==> r == [StandardTweet]
  {
    LabelsOf(Tests(Normalized(cell)))
  }

  /** `categorize_tweet`: the tests run one after the other, each appending its
      label to the list. */
  method CategorizeTweet(text: TextCell) returns (categories: seq<Label>)
    ensures categories == ContentLabels(text)
  {
    var t := Lower(Stringify(text));
    ghost var o := Tests(t);
    categories := [];
    if RetweetTest(t) {
      categories := categories + [Retweet];
    }
    ghost var p1 := categories;
    assert p1 == Emit([], o.retweet, Retweet);
    if LinkTest(t) {
      categories := categories + [ContainsLink];
    }
    ghost var p2 := categories;
    assert p2 == Emit(p1, o.link, ContainsLink);
    if QuestionTest(t) {
      categories := categories + [Question];
    }
    ghost var p3 := categories;
    assert p3 == Emit(p2, o.question, Question);
    if MentionTest(t) {
      categories := categories + [MultiMention];
    }
    ghost var p4 := categories;
    assert p4 == Emit(p3, o.mentions, MultiMention);
    if HashtagTest(t) {
      categories := categories + [MultiHashtag];
    }
    assert categories == FiredLabels(o);
    if categories == [] {
      categories := [StandardTweet];
    }
  }

  /** Because lower-casing leaves `@` and `#` alone, "Multi-mention" and
      "Multi-hashtag" fire exactly when the original text has at least two of
      those characters. */
  lemma MultiMarkerIffTwo(cell: TextCell)
    ensures MultiMention in ContentLabels(cell) <==> multiset(Stringify(cell))['@'] >= 2
    ensures MultiHashtag in ContentLabels(cell) <==> multiset(Stringify(cell))['#'] >= 2
  {
    var s := Stringify(cell);
    assert "@" == ['@'] && "#" == ['#'];
    CountSingleChar(Lower(s), '@');
    CountSingleChar(Lower(s), '#');
    LowerKeepsNonLetterCount(s, '@');
    LowerKeepsNonLetterCount(s, '#');
  }

  /** A text none of whose characters starts a link or question term, a
      retweet marker, a mention or a hashtag fires no test. */
  lemma QuietText(t: string)
    requires forall i :: 0 <= i < |t| ==> t[i] !in "wh? @#"
    ensures NoneFired(Tests(t))
  {
    assert !StartsWith(t, "rt @") by {
      if |t| >= 4 {
        assert t[..4][3] == t[3];
      }
    }
    FirstCharAbsent(t, " retweet ");
    forall k | 0 <= k < |LinkTerms| ensures !Contains(t, LinkTerms[k]) {
      FirstCharAbsent(t, LinkTerms[k]);
    }
    forall k | 0 <= k < |QuestionTerms| ensures !Contains(t, QuestionTerms[k]) {
      FirstCharAbsent(t, QuestionTerms[k]);
    }
    assert "@" == ['@'] && "#" == ['#'];
    CountSingleChar(t, '@');
    CountSingleChar(t, '#');
  }

  /** A post with no text is a standard tweet: neither `none` nor `nan`
      triggers a test. */
  lemma MissingTextIsStandard(cell: TextCell)
    requires !cell.Str?
    ensures ContentLabels(cell) == [StandardTweet]
  {
    var t := Normalized(cell);
    if cell.NoneValue? {
      assert t == "none";
    } else {
      assert t == "nan";
    }
    QuietText(t);
  }

  /** A retweet with a link, a question mark and two hashtags but one mention
      gets exactly the first three labels and "Multi-hashtag". The text is
      written as the prefix before the link and the rest, so that the proof
      can lower-case each part on its own. */
  lemma CategorizeExample()
    ensures ContentLabels(Str("RT @al: see " + "http://x.co #a #b?"))
      == [Retweet, ContainsLink, Question, MultiHashtag]
  {
    var s1, b := "RT @al: see ", "http://x.co #a #b?";
    LowerAppend(s1, b);
    ExampleLowerHead();
    LowerOfLower(b);
    ExampleTests("rt @al: see ", b);
    ExampleLabels();
  }

  lemma ExampleLowerHead()
    ensures Lower("RT @al: see ") == "rt @al: see "
  {
    var a := " @al: see ";
    ExampleHeadPieces("RT @al: see ", "rt @al: see ", a);
    LowerOfLower(a);
    LowerCapitalized("RT", "rt", a);
  }

  lemma ExampleHeadPieces(big: string, small: string, a: string)
    requires big == "RT @al: see " && small == "rt @al: see "
    requires a == " @al: see "
    ensures big == "RT" + a && small == "rt" + a
  {
  }

  lemma LowerCapitalized(u: string, l: string, a: string)
    requires Lower(u) == l && Lower(a) == a
    ensures Lower(u + a) == l + a
  {
    LowerAppend(u, a);
  }

  lemma ExampleLabels()
    ensures LabelsOf(Outcome(true, true, true, false, true)) == [Retweet, ContainsLink, Question, MultiHashtag]
  {
    var e1 := Emit([], true, Retweet);
    var e2 := Emit(e1, true, ContainsLink);
    var e3 := Emit(e2, true, Question);
    var e4 := Emit(e3, false, MultiMention);
    assert e4 == [Retweet, ContainsLink, Question];
    assert FiredLabels(Outcome(true, true, true, false, true)) == e4 + [MultiHashtag];
  }

  lemma ExampleTests(q: string, b: string)
    requires q == "rt @al: see " && b == "http://x.co #a #b?"
    ensures Tests(q + b) == Outcome(true, true, true, false, true)
  {
    ExampleTerms(q, b);
    ExampleMarks(q, b);
    assert "@" == ['@'] && "#" == ['#'];
  }

  lemma ExampleTerms(q: string, b: string)
    requires q == "rt @al: see " && b == "http://x.co #a #b?"
    ensures RetweetTest(q + b) && LinkTest(q + b) && QuestionTest(q + b)
  {
    var t := q + b;
    assert t[..4] == q[..4] == "rt @";
    assert t[|q|..|q| + 7] == b[..7] == LinkTerms[0];
    assert OccursAt(t, LinkTerms[0], |q|);
    assert t[|t| - 1..] == b[|b| - 1..] == QuestionTerms[0];
    assert OccursAt(t, QuestionTerms[0], |t| - 1);
  }

  lemma ExampleMarks(q: string, b: string)
    requires q == "rt @al: see " && b == "http://x.co #a #b?"
    ensures CountOccurrences(q + b, ['@']) == 1 && CountOccurrences(q + b, ['#']) == 2
  {
    var x, y := "rt ", "@al: see ";
    var u, v, w := "http://x.co ", "#a ", "#b?";
    ExamplePieces(q, b, x, y, u, v, w);
    CountCharAppend(q, b, '@');
    CountCharAppend(q, b, '#');
    CountCharAppend(x, y, '@');
    CountCharAppend(x, y, '#');
    ExampleHeadMarks(x, y);
    ExampleTailMarks(u, v, w);
  }

  lemma ExamplePieces(q: string, b: string, x: string, y: string, u: string, v: string, w: string)
    requires q == "rt @al: see " && b == "http://x.co #a #b?"
    requires x == "rt " && y == "@al: see "
    requires u == "http://x.co " && v == "#a " && w == "#b?"
    ensures q == x + y && b == u + (v + w)
  {
    assert v + w == "#a #b?";
  }

  lemma ExampleHeadMarks(x: string, y: string)
    requires x == "rt " && y == "@al: see "
    ensures CountOccurrences(x, ['@']) == 0 && CountOccurrences(y, ['@']) == 1
    ensures CountOccurrences(x, ['#']) == 0 && CountOccurrences(y, ['#']) == 0
  {
    CountCharAbsent(x, '@');
    CountCharAbsent(x, '#');
    CountCharAbsent(y, '#');
    CountCharLeading(y, '@');
  }

  lemma ExampleTailMarks(x: string, y: string, z: string)
    requires x == "http://x.co " && y == "#a " && z == "#b?"
    ensures CountOccurrences(x + (y + z), ['#']) == 2
    ensures CountOccurrences(x + (y + z), ['@']) == 0
  {
    CountCharAbsent(x + (y + z), '@');
    CountCharAbsent(x, '#');
    CountCharLeading(y, '#');
    CountCharLeading(z, '#');
    CountCharAppend(y, z, '#');
    CountCharAppend(x, y + z, '#');
  }

  /** `apply(categorize_tweet).explode()`: every row's labels, one after the
      other. */
  function Explode(cells: seq<TextCell>): (r: seq<Label>)
    ensures |r| >= |cells|
  {
    if cells == [] then [] else Explode(cells[..|cells| - 1]) + ContentLabels(cells[|cells| - 1])
  }

  /** The number of rows that carry label `l`. */
  function RowsWith(cells: seq<TextCell>, l: Label): nat {
    if cells == [] then 0
    else RowsWith(cells[..|cells| - 1], l) + (if l in ContentLabels(cells[|cells| - 1]) then 1 else 0)
  }

  /** One row never carries a label twice. */
  lemma LabelsOnce(cell: TextCell, l: Label)
    ensures multiset(ContentLabels(cell))[l] == if l in ContentLabels(cell) then 1 else 0
  {
    var r := ContentLabels(cell);
    DistinctMultiplicity(r, l);
  }

  lemma {:induction false} DistinctMultiplicity(r: seq<Label>, l: Label)
    requires Increasing(r)
    ensures multiset(r)[l] == if l in r then 1 else 0
    decreases |r|
  {
    if r != [] {
      var p := r[..|r| - 1];
      assert r == p + [r[|r| - 1]];
      DistinctMultiplicity(p, l);
      if l in p {
        var i :| 0 <= i < |p| && p[i] == l;
        assert Rank(r[i]) < Rank(r[|r| - 1]);
      }
    }
  }

  /** `value_counts()` of the exploded labels: a label's total is the number of
      rows carrying it. */
  lemma {:induction false} LabelTotalCountsRows(cells: seq<TextCell>, l: Label)
    ensures multiset(Explode(cells))[l] == RowsWith(cells, l)
    decreases |cells|
  {
    if cells != [] {
      LabelTotalCountsRows(cells[..|cells| - 1], l);
      LabelsOnce(cells[|cells| - 1], l);
    }
  }

  /** Every row is counted under "Standard Tweet" or under at least one other
      label, so the totals together cover every exploded entry. */
  lemma {:induction false} ExplodedLengthIsLabelTotal(cells: seq<TextCell>)
    ensures |Explode(cells)| == SumRowsWith(cells)
    decreases |cells|
  {
    if cells != [] {
      ExplodedLengthIsLabelTotal(cells[..|cells| - 1]);
    }
  }

  /** The sum of the per-label row counts. */
  function SumRowsWith(cells: seq<TextCell>): nat {
    RowsWith(cells, Retweet) + RowsWith(cells, ContainsLink) + RowsWith(cells, Question) +
    RowsWith(cells, MultiMention) + RowsWith(cells, MultiHashtag) + RowsWith(cells, StandardTweet)
  }
}
