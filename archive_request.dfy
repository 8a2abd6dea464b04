/** The request sent to the archive lookup: the keyword arguments
    `get_waybacktweets_archive` passes on, and the upper date bound `main`
    supplies when the user leaves it blank. */
module ArchiveRequest {
  import opened Wrappers
  import opened Text
  import opened Timestamps

  /** The keyword arguments the lookup accepts. */
  datatype Key = Username | TimestampFrom | TimestampTo | Limit

  /** The argument's name as the service knows it. */
  function KeyName(k: Key): string {
    match k
    case Username => "username"
    case TimestampFrom => "timestamp_from"
    case TimestampTo => "timestamp_to"
    case Limit => "limit"
  }

  /** The four arguments have different names, so none overwrites another. */
  lemma KeyNamesDistinct(a: Key, b: Key)
    requires KeyName(a) == KeyName(b)
    ensures a == b
  {
  }

  /** A keyword argument's value: a date or user name, or the result limit. */
  datatype Param = TextParam(text: string) | LimitParam(limit: int)

  /** Python truthiness of an optional string: present and not empty. */
  predicate TextGiven(v: Option<string>) {
    v.Some? && v.value != []
  }

  /** Python truthiness of an optional integer: present and not zero. */
  predicate LimitGiven(v: Option<int>) {
    v.Some? && v.value != 0
  }

  /** The arguments of the lookup: the user name always, each optional bound
      and the limit only when truthy, and nothing for an unset one. */
  function RequestParams(username: string, fromDate: Option<string>, toDate: Option<string>, limit: Option<int>)
    : (m: map<Key, Param>)
    ensures Username in m && m[Username] == TextParam(username)
    ensures TimestampFrom in m <==> TextGiven(fromDate)
    ensures TimestampFrom in m ==> m[TimestampFrom] == TextParam(fromDate.value)
    ensures TimestampTo in m <==> TextGiven(toDate)
    ensures TimestampTo in m ==> m[TimestampTo] == TextParam(toDate.value)
    ensures Limit in m <==> LimitGiven(limit)
    ensures Limit in m ==> m[Limit] == LimitParam(limit.value)
  {
    var m0 := map[Username := TextParam(username)];
    var m1 := if TextGiven(fromDate) then m0[TimestampFrom := TextParam(fromDate.value)] else m0;
    var m2 := if TextGiven(toDate) then m1[TimestampTo := TextParam(toDate.value)] else m1;
    if LimitGiven(limit) then m2[Limit := LimitParam(limit.value)] else m2
  }

  /** `api_params`, filled key by key. */
  method ApiParams(username: string, fromDate: Option<string>, toDate: Option<string>, limit: Option<int>)
    returns (params: map<Key, Param>)
    ensures params == RequestParams(username, fromDate, toDate, limit)
  {
    params := map[Username := TextParam(username)];
    if TextGiven(fromDate) {
      params := params[TimestampFrom := TextParam(fromDate.value)];
    }
    if TextGiven(toDate) {
      params := params[TimestampTo := TextParam(toDate.value)];
    }
    if LimitGiven(limit) {
      params := params[Limit := LimitParam(limit.value)];
    }
  }

  /** The keys sent for the given truthiness of the three options. */
  function KeySet(from: bool, to: bool, limit: bool): set<Key> {
    {Username} + (if from then {TimestampFrom} else {}) +
    (if to then {TimestampTo} else {}) + (if limit then {Limit} else {})
  }

  /** The set of keys sent: the user name and each truthy optional argument. */
  function SentKeys(fromDate: Option<string>, toDate: Option<string>, limit: Option<int>): set<Key> {
    KeySet(TextGiven(fromDate), TextGiven(toDate), LimitGiven(limit))
  }

  /** Exactly those keys are sent. */
  lemma ParamKeys(username: string, fromDate: Option<string>, toDate: Option<string>, limit: Option<int>)
    ensures RequestParams(username, fromDate, toDate, limit).Keys == SentKeys(fromDate, toDate, limit)
  {
    var m := RequestParams(username, fromDate, toDate, limit);
    forall k ensures k in m.Keys <==> k in SentKeys(fromDate, toDate, limit) {
      match k
      case Username =>
      case TimestampFrom =>
      case TimestampTo =>
      case Limit =>
    }
  }

  lemma AddNew(s: set<Key>, k: Key, b: bool)
    requires k !in s
    ensures |s + (if b then {k} else {})| == |s| + Bit(b)
  {
  }

  lemma KeySetSize(from: bool, to: bool, limit: bool)
    ensures |KeySet(from, to, limit)| == 1 + Bit(from) + Bit(to) + Bit(limit)
  {
    var a := {Username} + (if from then {TimestampFrom} else {});
    var b := a + (if to then {TimestampTo} else {});
    AddNew({Username}, TimestampFrom, from);
    AddNew(a, TimestampTo, to);
    AddNew(b, Limit, limit);
  }

  /** One argument per truthy option, besides the user name. */
  lemma ParamCount(username: string, fromDate: Option<string>, toDate: Option<string>, limit: Option<int>)
    ensures |RequestParams(username, fromDate, toDate, limit)| ==
      1 + Bit(TextGiven(fromDate)) + Bit(TextGiven(toDate)) + Bit(LimitGiven(limit))
  {
    var m := RequestParams(username, fromDate, toDate, limit);
    ParamKeys(username, fromDate, toDate, limit);
    KeySetSize(TextGiven(fromDate), TextGiven(toDate), LimitGiven(limit));
    assert |m| == |m.Keys|;
  }

  /** Leaving out every optional argument asks for the whole archive of the
      user. */
  lemma OnlyUsername(username: string)
    ensures RequestParams(username, None, None, None) == map[Username := TextParam(username)]
    ensures RequestParams(username, Some(""), Some(""), Some(0)) == map[Username := TextParam(username)]
  {
    var m := RequestParams(username, None, None, None);
    assert m.Keys == {Username};
    var n := RequestParams(username, Some(""), Some(""), Some(0));
    assert n.Keys == {Username};
  }

  /** `datetime.now().strftime("%Y%m%d")`: the day of `today` as eight
      digits, year, month and day. */
  function TodayText(today: DateTime): (r: string)
    requires IsValid(today)
    ensures |r| == 8 && AllDigits(r)
    ensures DecimalValue(r[0..4]) == today.year
    ensures DecimalValue(r[4..6]) == today.month && DecimalValue(r[6..8]) == today.day
  {
    var r := Padded(today.year, 4) + Padded(today.month, 2) + Padded(today.day, 2);
    assert Pow10(2) == 100 && Pow10(4) == 10000;
    PaddedValue(today.year, 4);
    PaddedValue(today.month, 2);
    PaddedValue(today.day, 2);
    assert r[0..4] == Padded(today.year, 4);
    assert r[4..6] == Padded(today.month, 2);
    assert r[6..8] == Padded(today.day, 2);
    r
  }

  /** The to-date after `main`'s default: a missing or whitespace-only entry
      becomes today's date; anything else is kept as typed. */
  function DefaultToDate(toDate: Option<string>, today: DateTime): (r: string)
    requires IsValid(today)
    ensures toDate.None? || Strip(toDate.value) == [] ==> r == TodayText(today)
    ensures toDate.Some? && Strip(toDate.value) != [] ==> r == toDate.value
  {
    if toDate.None? || Strip(toDate.value) == [] then TodayText(today) else toDate.value
  }

  /** The default always leaves a non-empty to-date, so every lookup is
      bounded above: `timestamp_to` is always sent, with the date typed or
      today's eight-digit date. */
  lemma ToDateAlwaysSent(username: string, fromDate: Option<string>, toDate: Option<string>, limit: Option<int>, today: DateTime)
    requires IsValid(today)
    ensures var m := RequestParams(username, fromDate, Some(DefaultToDate(toDate, today)), limit);
      TimestampTo in m &&
      (toDate.None? || Strip(toDate.value) == [] ==> m[TimestampTo] == TextParam(TodayText(today))) &&
      (toDate.Some? && Strip(toDate.value) != [] ==> m[TimestampTo] == TextParam(toDate.value))
  {
  }

  /** A blank to-date on 26 September 2025 asks for captures up to
      "20250926". */
  lemma TodayTextExample()
    ensures TodayText(DateTime(2025, 9, 26, 14, 30, 0)) == "20250926"
  {
  }
}
