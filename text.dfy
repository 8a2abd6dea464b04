/** String primitives that the analyzer's code gets from Python's `str` and from
    pandas' `.str` accessor: ASCII lower-casing, substring tests, counting
    non-overlapping occurrences, `strip()`, `split(sep)` and `sep.join(parts)`.
    Strings are sequences of characters; only the ASCII part of Python's
    case mapping and whitespace class is modelled. */
module Text {

  /** The characters `str.isspace()` accepts in the ASCII range (space, `\t`,
      `\n`, `\v`, `\f`, `\r` and the separators U+001C..U+001F); the `\s`
      class of a `re` pattern matches the same set. */
  predicate IsSpace(c: char) {
    c == ' ' || ('\U{9}' <= c <= '\U{D}') || ('\U{1C}' <= c <= '\U{1F}')
  }

  predicate IsAsciiLetter(c: char) {
    ('A' <= c <= 'Z') || ('a' <= c <= 'z')
  }

  /** `str.lower()` on one character, ASCII only. */
  function ToLower(c: char): char {
    if 'A' <= c <= 'Z' then (c as int + 32) as char else c
  }

  function Lower(s: string): string {
    seq(|s|, i requires 0 <= i < |s| => ToLower(s[i]))
  }

  /** `lower()`: same length, no capital letter left, and every character
      that is not a capital letter kept as it is. */
  lemma LowerSpec(s: string)
    ensures |Lower(s)| == |s|
    ensures forall i :: 0 <= i < |s| ==> !('A' <= Lower(s)[i] <= 'Z')
    ensures forall i :: 0 <= i < |s| && !('A' <= s[i] <= 'Z') ==> Lower(s)[i] == s[i]
    ensures forall i :: 0 <= i < |s| && 'A' <= s[i] <= 'Z' ==> Lower(s)[i] as int == s[i] as int + 32
  {
  }

  /** Lower-casing works character by character, so it distributes over
      concatenation. */
  lemma LowerAppend(a: string, b: string)
    ensures Lower(a + b) == Lower(a) + Lower(b)
  {
  }

  /** A text without capital letters is its own lower-case form. */
  lemma LowerOfLower(s: string)
    requires forall i :: 0 <= i < |s| ==> !('A' <= s[i] <= 'Z')
    ensures Lower(s) == s
  {
  }

  predicate StartsWith(s: string, prefix: string) {
    |prefix| <= |s| && s[..|prefix|] == prefix
  }

  /** `needle` occurs in `hay` starting at position `i`. */
  predicate OccursAt(hay: string, needle: string, i: int) {
    0 <= i && i + |needle| <= |hay| && hay[i..i + |needle|] == needle
  }

  /** Python's `needle in hay` on strings. */
  predicate Contains(hay: string, needle: string) {
    exists i :: 0 <= i <= |hay| && OccursAt(hay, needle, i)
  }

  /** The number of non-overlapping occurrences of `pat` in `s`, scanning left
      to right: Python's `s.count(pat)`, and pandas' `.str.count(pat)` for a
      pattern without regular-expression metacharacters. */
  function CountOccurrences(s: string, pat: string): nat
    requires pat != []
    decreases |s|
  {
    if |s| < |pat| then 0
    else if s[..|pat|] == pat then 1 + CountOccurrences(s[|pat|..], pat)
    else CountOccurrences(s[1..], pat)
  }

  /** Counting a one-character pattern counts that character: the scan agrees
      with the multiplicity of `c` in `s`. */
  lemma {:induction false} CountSingleChar(s: string, c: char)
    ensures CountOccurrences(s, [c]) == multiset(s)[c]
    decreases |s|
  {
    if s != [] {
      assert s == [s[0]] + s[1..];
      assert s[..1] == [s[0]];
      CountSingleChar(s[1..], c);
    }
  }

  /** Lower-casing changes only the letters `A`..`Z`, so the number of any
      character that is not an ASCII letter (such as `@` or `#`) is unchanged. */
  lemma {:induction false} LowerKeepsNonLetterCount(s: string, c: char)
    requires !IsAsciiLetter(c)
    ensures multiset(Lower(s))[c] == multiset(s)[c]
    decreases |s|
  {
    if s != [] {
      assert s == [s[0]] + s[1..];
      assert Lower(s) == [ToLower(s[0])] + Lower(s[1..]);
      LowerKeepsNonLetterCount(s[1..], c);
    }
  }

  /** The first position at or after `i` that is not whitespace, or `|s|`. */
  function SkipSpaces(s: string, i: nat): (a: nat)
    requires i <= |s|
    ensures i <= a <= |s|
    ensures forall j :: i <= j < a ==> IsSpace(s[j])
    ensures a == |s| || !IsSpace(s[a])
    decreases |s| - i
  {
    if i < |s| && IsSpace(s[i]) then SkipSpaces(s, i + 1) else i
  }

  /** The end of `s[a..e]` once its trailing whitespace is dropped. */
  function TrimEnd(s: string, a: nat, e: nat): (b: nat)
    requires a <= e <= |s|
    ensures a <= b <= e
    ensures forall j :: b <= j < e ==> IsSpace(s[j])
    ensures b == a || !IsSpace(s[b - 1])
    decreases e - a
  {
    if a < e && IsSpace(s[e - 1]) then TrimEnd(s, a, e - 1) else e
  }

  /** `r` is the part of `s` that starts at `a`, with only whitespace around it. */
  predicate IsStripOf(s: string, r: string, a: int) {
    0 <= a <= |s| - |r| && r == s[a..a + |r|] &&
    (forall i :: 0 <= i < a ==> IsSpace(s[i])) &&
    (forall i :: a + |r| <= i < |s| ==> IsSpace(s[i]))
  }

  /** `s.strip()`: the whitespace on both ends removed; `StripSpec` says
      that what remains is the middle of `s`. */
  function Strip(s: string): (r: string)
    ensures |r| <= |s|
    ensures r != [] ==> !IsSpace(r[0]) && !IsSpace(r[|r| - 1])
  {
    var a := SkipSpaces(s, 0);
    s[a..TrimEnd(s, a, |s|)]
  }

  /** The strip is the middle of `s` with only whitespace around it, and it
      is empty exactly when `s` is all whitespace. */
  lemma StripSpec(s: string)
    ensures IsStripOf(s, Strip(s), SkipSpaces(s, 0))
    ensures Strip(s) == [] <==> forall i :: 0 <= i < |s| ==> IsSpace(s[i])
  {
    var a := SkipSpaces(s, 0);
    var b := TrimEnd(s, a, |s|);
    assert Strip(s) == s[a..b];
    MiddleIsStrip(s, a, b);
  }

  /** The part between leading and trailing whitespace is a strip of `s`; it
      is empty only when all of `s` is whitespace. */
  lemma MiddleIsStrip(s: string, a: nat, b: nat)
    requires a <= b <= |s|
    requires forall j :: 0 <= j < a ==> IsSpace(s[j])
    requires forall j :: b <= j < |s| ==> IsSpace(s[j])
    requires a == |s| || !IsSpace(s[a])
    ensures IsStripOf(s, s[a..b], a)
    ensures a == b <==> forall i :: 0 <= i < |s| ==> IsSpace(s[i])
  {
    if a != b {
      assert !IsSpace(s[a]);
    }
  }

  /** Whatever `strip()` keeps was in the string. */
  lemma StripKeepsChars(s: string, c: char)
    requires c in Strip(s)
    ensures c in s
  {
    var a := SkipSpaces(s, 0);
    var b := TrimEnd(s, a, |s|);
    var r := s[a..b];
    assert Strip(s) == r;
    var i :| 0 <= i < |r| && r[i] == c;
    assert s[a + i] == c;
  }

  /** A string with no whitespace on either end is its own strip. */
  lemma StripOfStripped(s: string)
    requires s == [] || (!IsSpace(s[0]) && !IsSpace(s[|s| - 1]))
    ensures Strip(s) == s
  {
  }

  /** The first position of `c` in `s`. */
  function IndexOf(s: string, c: char): (i: nat)
    requires c in s
    ensures i < |s| && s[i] == c && c !in s[..i]
  {
    if s[0] == c then 0 else 1 + IndexOf(s[1..], c)
  }

  /** `sep.join(parts)`. */
  function Join(parts: seq<string>, sep: string): string {
    if |parts| == 0 then []
    else if |parts| == 1 then parts[0]
    else parts[0] + sep + Join(parts[1..], sep)
  }

  /** `s.split(sep)` for a one-character separator: the pieces between the
      separators, never an empty list; joining them back gives `s`. */
  function Split(s: string, sep: char): (parts: seq<string>)
    ensures |parts| >= 1
    ensures forall k :: 0 <= k < |parts| ==> sep !in parts[k]
    ensures Join(parts, [sep]) == s
    decreases |s|
  {
    if sep !in s then [s]
    else
      var i := IndexOf(s, sep);
      var rest := Split(s[i + 1..], sep);
      assert ([s[..i]] + rest)[1..] == rest;
      assert s == s[..i] + [sep] + s[i + 1..];
      [s[..i]] + rest
  }

  /** Splitting undoes joining whenever no piece contains the separator. */
  lemma {:induction false} SplitJoin(parts: seq<string>, sep: char)
    requires |parts| >= 1
    requires forall k :: 0 <= k < |parts| ==> sep !in parts[k]
    ensures Split(Join(parts, [sep]), sep) == parts
    decreases |parts|
  {
    if |parts| > 1 {
      var s := Join(parts, [sep]);
      var tail := Join(parts[1..], [sep]);
      assert s == parts[0] + [sep] + tail;
      assert sep in s by { assert s[|parts[0]|] == sep; }
      var i := IndexOf(s, sep);
      assert s[..i] == parts[0];
      assert s[i + 1..] == tail;
      SplitJoin(parts[1..], sep);
    }
  }

  /** A join of two or more pieces ends with the separator and the last piece. */
  lemma {:induction false} JoinLast(parts: seq<string>, sep: string)
    requires |parts| >= 2
    ensures Join(parts, sep) == Join(parts[..|parts| - 1], sep) + sep + parts[|parts| - 1]
    decreases |parts|
  {
    if |parts| > 2 {
      JoinLast(parts[1..], sep);
      assert parts[1..][..|parts| - 2] == parts[..|parts| - 1][1..];
    } else {
      assert parts[..1] == [parts[0]];
    }
  }

  /** Occurrences counted by the scan do not overlap, so they fit in the
      string side by side. */
  lemma {:induction false} CountBound(s: string, pat: string)
    requires pat != []
    ensures CountOccurrences(s, pat) * |pat| <= |s|
    decreases |s|
  {
    if |s| >= |pat| {
      if s[..|pat|] == pat {
        var t := s[|pat|..];
        CountBound(t, pat);
        MulStep(CountOccurrences(t, pat), |pat|, |t|);
      } else {
        CountBound(s[1..], pat);
      }
    }
  }

  lemma MulStep(c: nat, n: nat, m: nat)
    requires c * n <= m
    ensures (1 + c) * n <= m + n
  {
  }

  /** The scan counts something exactly when the pattern occurs somewhere. */
  lemma {:induction false} CountPositiveIffContains(s: string, pat: string)
    requires pat != []
    ensures CountOccurrences(s, pat) > 0 <==> Contains(s, pat)
    decreases |s|
  {
    if |s| < |pat| {
      forall i | 0 <= i <= |s| ensures !OccursAt(s, pat, i) {
      }
    } else if s[..|pat|] == pat {
      assert OccursAt(s, pat, 0);
    } else {
      var t := s[1..];
      CountPositiveIffContains(t, pat);
      if Contains(t, pat) {
        var i :| 0 <= i <= |t| && OccursAt(t, pat, i);
        assert s[i + 1..i + 1 + |pat|] == t[i..i + |pat|];
        assert OccursAt(s, pat, i + 1);
      }
      if Contains(s, pat) {
        var i :| 0 <= i <= |s| && OccursAt(s, pat, i);
        assert i != 0;
        assert t[i - 1..i - 1 + |pat|] == s[i..i + |pat|];
        assert OccursAt(t, pat, i - 1);
      }
    }
  }

  /** Counting one character distributes over concatenation. */
  lemma CountCharAppend(a: string, b: string, c: char)
    ensures CountOccurrences(a + b, [c]) == CountOccurrences(a, [c]) + CountOccurrences(b, [c])
  {
    CountSingleChar(a + b, c);
    CountSingleChar(a, c);
    CountSingleChar(b, c);
    assert multiset(a + b) == multiset(a) + multiset(b);
  }

  lemma CountCharAbsent(s: string, c: char)
    requires c !in s
    ensures CountOccurrences(s, [c]) == 0
  {
    CountSingleChar(s, c);
  }

  /** A string that starts with `c` and has no other `c` counts it once. */
  lemma CountCharLeading(s: string, c: char)
    requires s != [] && s[0] == c && c !in s[1..]
    ensures CountOccurrences(s, [c]) == 1
  {
    assert s[..1] == [c];
    CountCharAbsent(s[1..], c);
  }

  /** A needle whose first character is missing from the haystack does not
      occur in it. */
  lemma FirstCharAbsent(hay: string, needle: string)
    requires needle != [] && needle[0] !in hay
    ensures !Contains(hay, needle)
  {
    forall i | 0 <= i <= |hay| ensures !OccursAt(hay, needle, i) {
      if i + |needle| <= |hay| {
        assert hay[i..i + |needle|][0] == hay[i];
      }
    }
  }

  /** A needle does not occur where one of its prefixes does not. */
  lemma PrefixAbsent(hay: string, needle: string, k: nat)
    requires k <= |needle| && !Contains(hay, needle[..k])
    ensures !Contains(hay, needle)
  {
    forall i | 0 <= i <= |hay| ensures !OccursAt(hay, needle, i) {
      if i + |needle| <= |hay| {
        assert hay[i..i + |needle|][..k] == hay[i..i + k];
        assert !OccursAt(hay, needle[..k], i);
      }
    }
  }
}
