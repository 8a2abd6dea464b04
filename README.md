# X archive analyzer: a Dafny model of its analysis core

The analyzer is a Streamlit dashboard (`streamlit_app.py`). It takes a Twitter/X
handle. It looks the handle up in memory.lol's screen-name history and in the
Wayback Machine's archive of the account's tweets. It then shows statistics
about the archived tweets.

This project models the parts of the dashboard that compute something:

- **Request parameters** (`ArchiveRequest`): the keyword arguments sent to the
  archive lookup, and the default upper date bound (today as `YYYYMMDD`).
- **Keyword input** (`KeywordInput`): how the multi-line keyword box becomes a
  list of keywords.
- **Keyword filter** (`KeywordFilter`): `filter_tweets_by_keywords`. It builds
  a case-insensitive selection mask with one loop step per keyword, selects
  those rows, and drops duplicate rows. The module also covers the call site
  that picks the filtered or the full table, and the per-keyword breakdown.
- **Capture times** (`Timestamps`): the fixed-width `%Y%m%d%H%M%S` parse of
  `archived_timestamp`, where an invalid value becomes null.
- **Content types** (`ContentTypes`): `categorize_tweet`, the five ordered tests
  with the "Standard Tweet" fallback, and the per-label totals after exploding.
- **Metrics** (`Metrics`):
  - the total counts of `#`, `@` and `http`, shown only for a table with rows;
  - the profile-name extraction (`^(.*?)\s+\(@`) and its distinct count;
  - the choice of timeline granularity and its caption.
- **Identity summary** (`IdentitySummary`): the reduction of memory.lol's decoded
  answer to an account count, account ids, and one date-range text per screen
  name.

Supporting modules:

- `Wrappers`: `Option` and `Result`.
- `Text`: ASCII lower-casing, `strip`, `split`/`join`, substring search and
  counting.
- `Sequences`: boolean-mask selection and `drop_duplicates`.
- `Records`: the table and row shapes the dashboard reads.

Where the source mutates state step by step, the model is imperative and is
proved against a specification function:

- `FilterTweetsByKeywords` (the mask loop);
- `CategorizeTweet` (appending labels);
- `DisplayMemorylolSummary` (nested appending loops);
- `ApiParams` (filling a dictionary);
- `KeywordBreakdown` (a dictionary filled in a loop, held as its items in
  insertion order).

Each of these specification functions carries its own lemmas.

Two points where the model follows the code as written:

- The filter adds no `matched_keyword` column.
- A screen name seen on several dates shows all of its dates joined by
  `" to "`, not only the first and the last.

## Model

| member | source | states |
|---|---|---|
| ArchiveRequest.RequestParams | streamlit_app.py:124-131 | `username` is always sent. `timestamp_from` and `timestamp_to` are sent exactly when the option is a non-empty string, and `limit` exactly when it is a non-zero integer. Each key carries the caller's value. |
| ArchiveRequest.ApiParams | streamlit_app.py:124-131 | The dictionary filled key by key equals `RequestParams` of the same arguments. |
| ArchiveRequest.KeyNamesDistinct | streamlit_app.py:124-131 | The four argument names are pairwise different. |
| ArchiveRequest.ParamKeys | streamlit_app.py:124-131 | The keys sent are exactly the user name plus one per truthy option; nothing else is sent. |
| ArchiveRequest.ParamCount | streamlit_app.py:124-131 | The number of arguments sent is one plus the number of truthy options. |
| ArchiveRequest.OnlyUsername | streamlit_app.py:124-131 | Unset options (`None`) and falsy ones (`""`, `0`) both leave only `username`. |
| ArchiveRequest.TodayText | streamlit_app.py:285 | Today's `%Y%m%d` text is eight digits. Its year, month and day slices read back as today's year, month and day. |
| ArchiveRequest.DefaultToDate | streamlit_app.py:284-285 | A missing or whitespace-only to-date becomes today's date text. Any other entry is kept exactly as typed. |
| ArchiveRequest.ToDateAlwaysSent | streamlit_app.py:284-285 | After the default, `timestamp_to` is always sent. It holds today's date when the box was blank, and the typed text otherwise. |
| ArchiveRequest.TodayTextExample | streamlit_app.py:285 | 26 September 2025 gives `"20250926"`. |
| Text.LowerSpec | streamlit_app.py:502 | `lower()` keeps the length and every character except capital letters, which become their lower-case letters. No capital letter is left. |
| Text.LowerAppend | streamlit_app.py:502 | Lower-casing distributes over concatenation. |
| Text.Split | streamlit_app.py:303 | `split('\n')` gives at least one piece, no piece holds a newline, and joining the pieces with newlines gives the text back. |
| Text.SplitJoin | streamlit_app.py:303 | Splitting undoes joining, for pieces without the separator. |
| Text.JoinLast | streamlit_app.py:100 | A join of two or more pieces is the join of all but the last, the separator, and the last piece. |
| Text.CountSingleChar | streamlit_app.py:418-426 | `count` of a one-character pattern is that character's multiplicity. |
| Text.CountPositiveIffContains | streamlit_app.py:431 | The count is positive iff the pattern occurs in the text. |
| Text.CountBound | streamlit_app.py:418-431 | The occurrences counted do not overlap: count times pattern length is at most the text length. |
| Text.StripSpec | streamlit_app.py:303 | `strip` removes exactly the leading and the trailing whitespace and keeps the middle. The result is empty iff the text is all whitespace. |
| Text.StripOfStripped | streamlit_app.py:303 | Stripping text that has no whitespace at either end leaves it unchanged. |
| KeywordInput.StrippedNonBlank | streamlit_app.py:303 | The comprehension keeps at most one keyword per line. Each keyword is non-empty with no whitespace at either end. |
| KeywordInput.ParseKeywords | streamlit_app.py:300-303 | Every parsed keyword is non-empty, one line, unchanged by `strip()`, and has no whitespace at either end. |
| KeywordInput.WhitespaceShortcutAgrees | streamlit_app.py:300-303 | The early return for `None` or whitespace-only input agrees with the comprehension. Every input gives the stripped non-blank lines. |
| KeywordInput.ParseKeywordsRoundTrip | streamlit_app.py:300-303 | Writing clean keywords one per line and parsing the text gives back exactly those keywords, in order. |
| KeywordFilter.MaskOf | streamlit_app.py:260-263 | The mask has one entry per row. |
| KeywordFilter.KeywordMask | streamlit_app.py:260-263 | The mask over the table has one entry per row. |
| KeywordFilter.KeywordFilterSpec | streamlit_app.py:253-269 | The result has no two equal rows, is no longer than the table, and holds only rows of the table. |
| KeywordFilter.FilterTweetsByKeywords | streamlit_app.py:253-269 | The method's result (empty-table shortcut, masking loop over the keywords, selection, duplicate removal) equals `KeywordFilterSpec`. |
| KeywordFilter.WhereIsSelect | streamlit_app.py:264 | Applying the mask is the same as keeping, in order, the rows whose text contains some keyword. |
| KeywordFilter.SelectRowsMembership | streamlit_app.py:260-264 | A row is selected iff it is in the table and matches a keyword, with the column searchable. |
| KeywordFilter.SelectRowsAppend | streamlit_app.py:264 | Selection distributes over concatenation of rows. |
| KeywordFilter.SelectCommutesWithDropDuplicates | streamlit_app.py:264-267 | Selecting and then removing duplicates is the same as removing duplicates and then selecting. |
| KeywordFilter.SelectKeepsOrder | streamlit_app.py:264 | Selection keeps the relative order of rows. |
| KeywordFilter.FilterSelectsExactly | streamlit_app.py:260-267 | A row is in the output iff it is in the table, the text column is searchable, and the row's text is present and contains some keyword, ignoring case. |
| KeywordFilter.FilterKeepsOrder | streamlit_app.py:264-267 | Output rows appear in the order of their first occurrence in the table. |
| KeywordFilter.FilterUnsearchable | streamlit_app.py:262 | With the text column missing or not of dtype `object`, nothing is selected. |
| KeywordFilter.FilterNoKeywords | streamlit_app.py:260-264 | With no keywords, the all-false mask selects nothing. |
| KeywordFilter.FilterDuplicatedTable | streamlit_app.py:264-267 | Filtering a table with every row repeated gives the same result as filtering the original table. |
| KeywordFilter.FilterExample | streamlit_app.py:253-269 | With keywords `ceo` and `manager`, two of five rows are kept in order: the row with missing text is skipped, and "CEO" matches case-insensitively. |
| KeywordFilter.FilteredFrame | streamlit_app.py:345-351 | With no keywords or an empty table, the full table is used. Otherwise the filtered one is used. |
| KeywordFilter.KeywordBreakdown | streamlit_app.py:577-588 | The breakdown's items, in the dictionary's insertion order, are the distinct keywords in order of first appearance. A keyword listed twice keeps its first place. Each holds that keyword's count: matching rows when searchable, 0 otherwise. |
| KeywordFilter.KeywordCount | streamlit_app.py:579-585 | A keyword's count is the number of row positions whose text contains the keyword, ignoring case, when the column is searchable, and 0 otherwise. A row held twice counts twice. The count is at most the number of rows. |
| KeywordFilter.SelectRowsPositions | streamlit_app.py:583 | The length of the rows picked by a mask is the number of positions whose row matches. |
| KeywordFilter.SelectRowsMultiplicity | streamlit_app.py:583 | A matching row appears among the picked rows exactly as often as in the table; a row that does not match never appears. |
| KeywordFilter.KeywordCountPositive | streamlit_app.py:579-585 | A count is positive iff the column is searchable and some row's text contains the keyword, ignoring case. |
| KeywordFilter.KeywordCountBoundsFilter | streamlit_app.py:582-583 | A keyword's breakdown count is at least the size of the de-duplicated filter result for that keyword, and at most the table size. |
| KeywordFilter.BreakdownCountsDuplicateRows | streamlit_app.py:582-583 | Two equal rows reading "CEO" count as 2 in the breakdown, while the filter keeps one. |
| KeywordFilter.UniqueKeywordCountIsDistinctMatches | streamlit_app.py:582-583 | The corrected count is the number of distinct matching rows, and equals the filter's result size for that keyword. |
| Sequences.DropDuplicates | streamlit_app.py:267 | The result has no repeats, keeps every value of the input, and holds only values of the input. |
| Sequences.DropDuplicatesOrder | streamlit_app.py:267 | The values kept are in the order of their first occurrence. |
| Sequences.DropDuplicatesAbsorbs | streamlit_app.py:267 | Appending values already present does not change the de-duplicated result. |
| Sequences.WhereInOrder | streamlit_app.py:260-264 | Masking a sequence whose values appear in first-occurrence order keeps that order. |
| Sequences.DictSet | streamlit_app.py:584 | `d[k] = v` on an insertion-ordered dictionary: a new key is appended with its value; an existing key keeps its place and takes the new value. |
| Sequences.DictSetDropDuplicates | streamlit_app.py:579-586 | Setting `d[k] = f(k)` key by key leaves the distinct keys in first-appearance order, each holding `f` of itself. |
| Sequences.WhereNone | streamlit_app.py:260-264 | An all-false mask selects nothing. |
| Timestamps.Padded | streamlit_app.py:338 | A padded field has exactly the width asked for and is all digits. |
| Timestamps.PaddedValue | streamlit_app.py:338 | A number that fits its width reads back as itself. |
| Timestamps.PaddedDecimal | streamlit_app.py:338 | Every digit string is the padded form of the number it denotes. |
| Timestamps.Format | streamlit_app.py:338 | A moment's `%Y%m%d%H%M%S` form is 14 digits. |
| Timestamps.ParseTimestamp | streamlit_app.py:338 | A parsed value is a real calendar moment within pandas' timestamp range, parsed from a present string. |
| Timestamps.ParseTimestampColumn | streamlit_app.py:338 | The column is converted cell by cell, keeping its length. |
| Timestamps.ParseFormat | streamlit_app.py:338 | Formatting a valid in-range moment and parsing it gives the moment back. |
| Timestamps.FormatParse | streamlit_app.py:338 | A string that parses is the formatted form of what it parses to. |
| Timestamps.ParseTimestampIff | streamlit_app.py:338 | A string parses to a moment exactly when it is that moment's formatted form. |
| Timestamps.ParseTimestampValidExample | streamlit_app.py:338 | `"20240615123045"` parses to 2024-06-15 12:30:45. |
| Timestamps.ParseTimestampInvalidExample | streamlit_app.py:338 | `"notadate"` becomes null instead of raising. |
| ContentTypes.LabelNamesDistinct | streamlit_app.py:503-518 | No two labels share a display name. |
| ContentTypes.Emit | streamlit_app.py:504-513 | One test's step adds its label exactly when the test fired. The labels stay in test order. |
| ContentTypes.FiredLabels | streamlit_app.py:503-513 | The list holds exactly the labels whose tests fired, once each, in test order. |
| ContentTypes.LabelsOf | streamlit_app.py:503-515 | The result is never empty, has no repeated label and is in test order. A label is present iff its test fired. "Standard Tweet" appears alone, exactly when no test fired. |
| ContentTypes.ContentLabels | streamlit_app.py:501-515 | The same properties for the lower-cased `str()` of a cell. |
| ContentTypes.CategorizeTweet | streamlit_app.py:501-515 | The method appends labels one test after the other, and its result equals `ContentLabels`. |
| ContentTypes.MultiMarkerIffTwo | streamlit_app.py:510-513 | "Multi-mention" (resp. "Multi-hashtag") is given iff the text has at least two `@` (resp. `#`). Lower-casing changes neither count. |
| ContentTypes.QuietText | streamlit_app.py:504-513 | Text with none of `w`, `h`, `?`, space, `@`, `#` fires no test. |
| ContentTypes.MissingTextIsStandard | streamlit_app.py:502-515 | A missing text (`None` or `nan`, stringified) is a "Standard Tweet". |
| ContentTypes.CategorizeExample | streamlit_app.py:501-515 | "RT @al: see http://x.co #a #b?" is labelled Retweet, Contains Link, Question and Multi-hashtag, in that order. |
| ContentTypes.Explode | streamlit_app.py:517 | Exploding yields at least one label per row. |
| ContentTypes.LabelTotalCountsRows | streamlit_app.py:517-518 | After exploding, each label's total is the number of rows carrying it. |
| ContentTypes.ExplodedLengthIsLabelTotal | streamlit_app.py:517-518 | The exploded length is the sum, over all labels, of the rows carrying each label. |
| Metrics.ColumnTotal | streamlit_app.py:394-431 | A count widget is shown iff the table has rows (the `df.empty` guard) and the text column exists. It fails iff the table has rows and the column is not of dtype `object` (in the model, a column that holds no strings). When shown, it is the total number of (non-overlapping) occurrences over the present texts, and that total times the pattern length is at most the total text length. |
| Metrics.TotalAppend | streamlit_app.py:418-431 | The totals of two row sequences add up. |
| Metrics.TotalBound | streamlit_app.py:418-431 | The total occurrences times the pattern length is at most the total text length. |
| Metrics.SingleCharTotal | streamlit_app.py:418-426 | The `#` and `@` totals are the character's multiplicity in all present texts. |
| Metrics.LinkTotalPositive | streamlit_app.py:431 | "Links Shared" is positive iff some present text contains `http`. |
| Metrics.WidgetTotals | streamlit_app.py:394-431 | With a searchable column, no widget is shown for a table without rows. Otherwise "Total Hashtags" and "Total Mentions" are the number of `#` and `@` characters, and "Links Shared" is positive iff some text contains `http`. |
| Metrics.ProfileNamesFound | streamlit_app.py:368-382 | The count is at most the number of rows, and 0 when the columns are missing or hold no info. |
| Metrics.MarkerTestIff | streamlit_app.py:375 | The single-pass marker test agrees with its definition: one or more whitespace characters followed by `(@`. |
| Metrics.NameEndSpec | streamlit_app.py:375-377 | The lazy search returns the first position where the marker starts after a newline-free prefix. It finds none iff there is none. |
| Metrics.ExtractProfileName | streamlit_app.py:375-377 | A name is found iff some newline-free prefix is followed by whitespace and `(@`. The name is the shortest such prefix. |
| Metrics.FoundNamesMembership | streamlit_app.py:374-379 | A name is found iff some original-tweet row with info present yields it. |
| Metrics.FoundNamesLength | streamlit_app.py:374-379 | At most one name is found per row. |
| Metrics.ProfileNamesCounted | streamlit_app.py:368-382 | The distinct names counted are exactly the names some qualifying row yields. The count is at most the number of rows. |
| Metrics.ExtractProfileNameExample | streamlit_app.py:375-377 | `"Jane Doe (@jane)"` gives `"Jane Doe"`. |
| Metrics.TimelineGranularity | streamlit_app.py:452-466 | Daily iff the span is at most 90 days; monthly iff it is 91 to 730 days; yearly iff it is over 730 days. |
| Metrics.CaptionCount | streamlit_app.py:456-471 | The caption shows the day count for the daily view, and the whole number of 30-day months or 365-day years (floor) otherwise. |
| Metrics.GranularityBoundaries | streamlit_app.py:452-466 | 90 is daily, 91 is monthly, 730 is monthly and 731 is yearly. |
| Metrics.GranularityMonotone | streamlit_app.py:452-466 | A longer span never gets a finer granularity. |
| Metrics.CaptionRanges | streamlit_app.py:464-471 | A monthly caption says 3 to 24 months; a yearly one says at least 2 years. |
| IdentitySummary.DateRange | streamlit_app.py:100 | The date-range text fails (`IndexError`) exactly when the name has no dates. |
| IdentitySummary.NameRanges | streamlit_app.py:99-104 | When no name fails, there is one entry per screen name, in order, holding the name and its date range. |
| IdentitySummary.MemorylolSummary | streamlit_app.py:80-106 | No summary exactly for a missing or empty answer. A summary carries the user name asked for. A failure needs a non-empty `accounts` list. |
| IdentitySummary.AccountsRangesEntries | streamlit_app.py:95-104 | The entries of account `i` follow those of the accounts before it, one per screen name in the object's order, each holding the name and its date range. |
| IdentitySummary.AccountIds | streamlit_app.py:96 | There is one id per account, in order, with `'N/A'` for a missing `id_str`. |
| IdentitySummary.DisplayMemorylolSummary | streamlit_app.py:80-106 | The nested appending loops compute `MemorylolSummary`, including the failure on a screen name without dates. |
| IdentitySummary.UndatedNameFails | streamlit_app.py:95-104 | A screen name without dates, in any account, makes the whole summary fail with `IndexError`. |
| IdentitySummary.FalsyGivesNothing | streamlit_app.py:81-83 | A missing or empty answer gives no summary. |
| IdentitySummary.NameRangesFailIff | streamlit_app.py:99-100 | One account's entries fail iff one of its screen names has no dates. |
| IdentitySummary.AccountsRangesSpec | streamlit_app.py:95-104 | All accounts' entries fail iff some screen name of some account has no dates. Otherwise there is one entry per screen name, across all accounts. |
| IdentitySummary.SummaryShape | streamlit_app.py:92-106 | With a non-empty `accounts` list: the summary fails iff some name has no dates. Otherwise it has the user name, the account count, one id per account (`'N/A'` when missing) and one entry per screen name: each account's names in turn, each with its date range. |
| IdentitySummary.NoAccountsGivesEmptySummary | streamlit_app.py:85-106 | A truthy answer without a non-empty `accounts` list gives a summary with zero accounts and empty lists. |
| IdentitySummary.DateRangeShape | streamlit_app.py:100 | One date reads `since d`. Several dates start with the first date followed by " to ", and end with " to " followed by the last date. |

## Left out

- HTTP and I/O: the memory.lol fetch, the archive lookup itself and the exporter
  fallbacks are left out. `utils/` is not part of this model. Their results
  enter as parameters: the decoded answer, the table and the cells.
- The password gate, all Streamlit widgets, charts, downloads and serializers
  are presentation.
- Keywords are used by `str.contains` as regular expressions. The model matches
  them as literal substrings, which agree for keywords without regex
  metacharacters.
- Lower-casing and `strip()` are ASCII only; Unicode case mapping and Unicode
  whitespace are not modelled.
- Floating-point metrics (retweet and category percentages, average length,
  tweets per day) are left out.
- The activity span itself (`max - min` of timestamps in days) is an input to
  `TimelineGranularity`. Resampling, the `value_counts` ordering, the top-10
  hashtags and mentions, the "Date Range" metric and the retweet count are
  left out.
- IdentitySummary: accepts only answers of the documented shape (an object,
  `accounts` a list of objects, `screen_names` a name-to-dates object). Other
  JSON shapes are not modelled.
- ArchiveRequest.TodayText: pads years below 1000 to four digits, which
  glibc's `strftime` does not do. The clock is a parameter.
- Timestamps.ParseTimestamp: accepts only the full 14-digit form. The short or
  unpadded fields that `strptime` also accepts are not modelled. Seconds 60
  and 61, which the `%S` pattern accepts, are treated as invalid (null); the
  library's handling of them is not modelled.
- KeywordFilter.FilterTweetsByKeywords: index alignment between the mask
  (fresh index `0..n-1`) and the table's own index is not modelled. The table
  is taken to carry the default index.
- Metrics.ColumnTotal: the failure when the column is not string-typed is
  modelled as one `AccessorError` outcome, not as the exception's propagation.
- Records.TextColumn: a text column is either of dtype `object` or holds no
  strings. A pandas `string`-dtype column, which the filter's and the
  breakdown's `dtype == 'object'` guard rejects but `.str.count` accepts, is
  not modelled.

## Findings

| source | as written | input that shows it | evidently intended | confidence | as-written member | corrected member |
|---|---|---|---|---|---|---|
| streamlit_app.py:582-583 | The breakdown claims to count unique tweets, but counts matching rows including repeated ones. | A table with two identical rows whose text is "CEO", and the keyword `ceo`: the breakdown shows 2, while the filter keeps 1. | Count the distinct matching rows, as `drop_duplicates` does for the filter. | not executed | KeywordFilter.BreakdownCountsDuplicateRows | KeywordFilter.UniqueKeywordCountIsDistinctMatches |
