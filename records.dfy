/** The normalized table of archived posts that the dashboard works on: one
    row per archived snapshot, with the columns the analysis reads. */
module Records {
  import opened Wrappers
  import Timestamps

  /** A cell of the `available_tweet_text` column: a string, Python's `None`,
      or the float `NaN` that pandas fills in for a record without the field. */
  datatype TextCell = Str(value: string) | NoneValue | NaNValue

  /** One archived snapshot of one post. Two rows are duplicates when every
      field is equal, which is how `drop_duplicates()` compares them. */
  datatype Row = Row(
    urlKey: string,                            // archived_urlkey
    archivedAt: Option<Timestamps.DateTime>,   // archived_timestamp, after conversion
    archivedUrl: string,                       // archived_tweet_url
    originalUrl: string,                       // original_tweet_url
    text: TextCell,                            // available_tweet_text
    isRetweet: Option<bool>,                   // available_tweet_is_RT (true, false or unknown)
    info: Option<string>,                      // available_tweet_info, e.g. "Name (@handle)"
    rest: seq<Option<string>>)                 // the remaining columns, compared but never read

  /** How `available_tweet_text` exists in a table: not at all, as a column
      whose dtype is not `object` (for instance all `NaN`, stored as
      `float64`), or as an `object` column of strings and nulls. */
  datatype TextColumn = Absent | NonObject | Object

  /** A table: which of the columns the analysis reads exist, and its rows. */
  datatype Table = Table(textColumn: TextColumn, hasInfo: bool, hasIsRetweet: bool, rows: seq<Row>)

  /** `pd.DataFrame()`: no columns and no rows. */
  const EmptyFrame := Table(Absent, false, false, [])

  /** A row whose text is the given cell and whose other fields are fixed; used
      to write example tables. */
  function TextRow(cell: TextCell): Row {
    Row("", None, "", "", cell, None, None, [])
  }
}
