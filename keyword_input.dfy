/** The keyword list typed into the sidebar's multi-line box: one keyword per
    line, surrounding whitespace ignored, blank lines dropped; no input, or
    input of whitespace only, means no keywords. */
module KeywordInput {
  import opened Wrappers
  import opened Text

  /** A usable keyword: not empty, no whitespace at either end, one line. */
  predicate IsCleanKeyword(k: string) {
    k != [] && !IsSpace(k[0]) && !IsSpace(k[|k| - 1]) && '\n' !in k
  }

  /** Not empty, and no whitespace at either end. */
  predicate Trimmed(k: string) {
    k != [] && !IsSpace(k[0]) && !IsSpace(k[|k| - 1])
  }

  /** `[kw.strip() for kw in lines if kw.strip()]`. */
  function StrippedNonBlank(lines: seq<string>): (r: seq<string>)
    ensures |r| <= |lines|
    ensures forall k :: 0 <= k < |r| ==> Trimmed(r[k])
  {
    if lines == [] then []
    else
      var k := Strip(lines[0]);
      var rest := StrippedNonBlank(lines[1..]);
      if k == [] then rest
      else
        assert Trimmed(k);
        [k] + rest
  }

  /** The keyword list `main` builds from the text area's value. */
  function ParseKeywords(input: Option<string>): (keywords: seq<string>)
    ensures forall k :: 0 <= k < |keywords| ==> IsCleanKeyword(keywords[k]) && Strip(keywords[k]) == keywords[k]
  {
    if input.None? || Strip(input.value) == [] then []
    else
      var lines := Split(input.value, '\n');
      StrippedAreClean(lines);
      StrippedNonBlank(lines)
  }

  lemma StrippedAreClean(lines: seq<string>)
    requires forall k :: 0 <= k < |lines| ==> '\n' !in lines[k]
    ensures forall k :: 0 <= k < |StrippedNonBlank(lines)| ==>
      IsCleanKeyword(StrippedNonBlank(lines)[k]) && Strip(StrippedNonBlank(lines)[k]) == StrippedNonBlank(lines)[k]
  {
    var r := StrippedNonBlank(lines);
    StrippedHasNoNewline(lines);
    forall k | 0 <= k < |r| ensures IsCleanKeyword(r[k]) && Strip(r[k]) == r[k] {
      var w := r[k];
      assert w != [] && !IsSpace(w[0]) && !IsSpace(w[|w| - 1]) && '\n' !in w;
      StripOfStripped(w);
    }
  }

  lemma {:induction false} StrippedHasNoNewline(lines: seq<string>)
    requires forall k :: 0 <= k < |lines| ==> '\n' !in lines[k]
    ensures forall k :: 0 <= k < |StrippedNonBlank(lines)| ==> '\n' !in StrippedNonBlank(lines)[k]
    decreases |lines|
  {
    if lines != [] {
      StrippedHasNoNewline(lines[1..]);
      if '\n' in Strip(lines[0]) {
        StripKeepsChars(lines[0], '\n');
      }
    }
  }

  /** A character of a piece is a character of the joined string. */
  lemma {:induction false} JoinKeepsChars(parts: seq<string>, sep: string, k: nat, c: char)
    requires k < |parts| && c in parts[k]
    ensures c in Join(parts, sep)
    decreases |parts|
  {
    if |parts| > 1 && k > 0 {
      JoinKeepsChars(parts[1..], sep, k - 1, c);
    }
  }

  lemma {:induction false} AllBlankLines(lines: seq<string>)
    requires forall k :: 0 <= k < |lines| ==> Strip(lines[k]) == []
    ensures StrippedNonBlank(lines) == []
    decreases |lines|
  {
    if lines != [] {
      AllBlankLines(lines[1..]);
    }
  }

  /** The early return for whitespace-only input agrees with the
      comprehension: every input gives the stripped non-blank lines, in
      order. */
  lemma WhitespaceShortcutAgrees(s: string)
    ensures ParseKeywords(Some(s)) == StrippedNonBlank(Split(s, '\n'))
  {
    StripSpec(s);
    if Strip(s) == [] {
      var lines := Split(s, '\n');
      forall k | 0 <= k < |lines| ensures Strip(lines[k]) == [] {
        StripSpec(lines[k]);
        forall i | 0 <= i < |lines[k]| ensures IsSpace(lines[k][i]) {
          JoinKeepsChars(lines, "\n", k, lines[k][i]);
        }
      }
      AllBlankLines(lines);
    }
  }

  lemma {:induction false} CleanLinesKept(ks: seq<string>)
    requires forall k :: 0 <= k < |ks| ==> IsCleanKeyword(ks[k])
    ensures StrippedNonBlank(ks) == ks
    decreases |ks|
  {
    if ks != [] {
      StripOfStripped(ks[0]);
      CleanLinesKept(ks[1..]);
    }
  }

  /** Writing clean keywords one per line and parsing the text gives the same
      keywords back. */
  lemma ParseKeywordsRoundTrip(ks: seq<string>)
    requires forall k :: 0 <= k < |ks| ==> IsCleanKeyword(ks[k])
    ensures ParseKeywords(Some(Join(ks, "\n"))) == ks
  {
    var s := Join(ks, "\n");
    WhitespaceShortcutAgrees(s);
    if ks != [] {
      assert "\n" == ['\n'];
      SplitJoin(ks, '\n');
      CleanLinesKept(ks);
    }
  }
}
