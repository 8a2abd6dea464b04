/** The account-history summary built from memory.lol's answer for a user
    name: how many accounts used the name, each account's id, and for every
    screen name an account has had, the dates it was seen under that name. The
    answer is taken as already decoded. */
module IdentitySummary {
  import opened Wrappers
  import opened Text

  /** One account of the answer: `id_str` when present, and the
      `screen_names` object (name to the list of dates it was observed), in
      the object's order. */
  datatype Account = Account(idStr: Option<string>, screenNames: Option<seq<(string, seq<string>)>>)

  /** The decoded answer: the `accounts` list when the key is present, and
      whether the object has any other key. */
  datatype Response = Response(accounts: Option<seq<Account>>, otherKeys: bool)

  /** An empty object is falsy; anything with a key is truthy. */
  predicate Truthy(r: Response) {
    r.accounts.Some? || r.otherKeys
  }

  datatype NameRange = NameRange(name: string, dateRange: string)

  datatype Summary = Summary(
    username: string,
    totalAccounts: nat,
    knownScreenNames: seq<NameRange>,
    accountIds: seq<string>)

  /** `dates[0]` on an empty list raises `IndexError`, which nothing in the
      dashboard catches. */
  datatype Error = IndexError

  /** `account.get('id_str', 'N/A')`. */
  function AccountId(a: Account): string {
    a.idStr.GetOr("N/A")
  }

  /** The date-range text of one screen name: all dates joined by " to " when
      there are several, "since d" for a single date, and the error for none. */
  function DateRange(dates: seq<string>): (r: Result<string, Error>)
    ensures r.Failure? <==> dates == []
  {
    if |dates| > 1 then Success(Join(dates, " to "))
    else if |dates| == 1 then Success("since " + dates[0])
    else Failure(IndexError)
  }

  /** The entries of one account's screen names, in order, or the error of the
      first one without dates. */
  function NameRanges(names: seq<(string, seq<string>)>): (r: Result<seq<NameRange>, Error>)
    ensures r.Success? ==> |r.value| == |names|
    ensures r.Success? ==> forall j :: 0 <= j < |names| ==>
      DateRange(names[j].1).Success? && r.value[j] == NameRange(names[j].0, DateRange(names[j].1).value)
  {
    if names == [] then Success([])
    else
      var last := names[|names| - 1];
      match NameRanges(names[..|names| - 1])
      case Failure(e) => Failure(e)
      case Success(p) =>
        match DateRange(last.1)
        case Failure(e) => Failure(e)
        case Success(d) => Success(p + [NameRange(last.0, d)])
  }

  function AccountNames(a: Account): seq<(string, seq<string>)> {
    a.screenNames.GetOr([])
  }

  /** The entries of all accounts, one account after the other. */
  function AccountsRanges(accounts: seq<Account>): Result<seq<NameRange>, Error> {
    if accounts == [] then Success([])
    else
      match AccountsRanges(accounts[..|accounts| - 1])
      case Failure(e) => Failure(e)
      case Success(p) =>
        match NameRanges(AccountNames(accounts[|accounts| - 1]))
        case Failure(e) => Failure(e)
        case Success(q) => Success(p + q)
  }

  function AccountIds(accounts: seq<Account>): (ids: seq<string>)
    ensures |ids| == |accounts|
    ensures forall i :: 0 <= i < |accounts| ==> ids[i] == AccountId(accounts[i])
  {
    seq(|accounts|, i requires 0 <= i < |accounts| => AccountId(accounts[i]))
  }

  /** What `display_memorylol_summary` returns for a decoded answer: nothing
      for a missing or empty answer; otherwise the summary, whose counts and
      lists stay empty unless `accounts` is a non-empty list. */
  function MemorylolSummary(username: string, info: Option<Response>): (r: Result<Option<Summary>, Error>)
    ensures r == Success(None) <==> info.None? || !Truthy(info.value)
    ensures r.Success? && r.value.Some? ==> r.value.value.username == username
    ensures r.Failure? ==> info.Some? && info.value.accounts.Some? && info.value.accounts.value != []
  {
    if info.None? || !Truthy(info.value) then Success(None)
    else
      var accounts := info.value.accounts.GetOr([]);
      if accounts == [] then Success(Some(Summary(username, 0, [], [])))
      else
        match AccountsRanges(accounts)
        case Failure(e) => Failure(e)
        case Success(names) => Success(Some(Summary(username, |accounts|, names, AccountIds(accounts))))
  }

  /** `display_memorylol_summary` after the fetch: the summary is filled by
      appending, account by account and name by name. */
  method DisplayMemorylolSummary(username: string, info: Option<Response>) returns (r: Result<Option<Summary>, Error>)
    ensures r == MemorylolSummary(username, info)
  {
    if info.None? || !Truthy(info.value) {
      return Success(None);
    }
    var total := 0;
    var names: seq<NameRange> := [];
    var ids: seq<string> := [];
    var accounts := info.value.accounts.GetOr([]);
    if accounts != [] {
      total := |accounts|;
      for i := 0 to |accounts|
        invariant ids == AccountIds(accounts[..i])
        invariant AccountsRanges(accounts[..i]) == Success(names)
      {
        var account := accounts[i];
        ids := ids + [AccountId(account)];
        ghost var before := names;
        if account.screenNames.Some? {
          var screenNames := account.screenNames.value;
          for j := 0 to |screenNames|
            invariant NameRanges(screenNames[..j]).Success?
            invariant names == before + NameRanges(screenNames[..j]).value
          {
            var (name, dates) := screenNames[j];
            var dateRange;
            if |dates| > 1 {
              dateRange := Join(dates, " to ");
            } else if dates == [] {
              UndatedNameFails(accounts, i, j);
              return Failure(IndexError);
            } else {
              dateRange := "since " + dates[0];
            }
            NameRangesStep(screenNames, j);
            names := names + [NameRange(name, dateRange)];
          }
          assert screenNames[..|screenNames|] == screenNames;
        } else {
          assert names == before + [];
        }
        AccountsStep(accounts, i);
      }
      assert accounts[..|accounts|] == accounts;
    }
    return Success(Some(Summary(username, total, names, ids)));
  }

  /** One step of the inner loop: a dated screen name adds its entry. */
  lemma NameRangesStep(names: seq<(string, seq<string>)>, j: nat)
    requires j < |names| && NameRanges(names[..j]).Success? && names[j].1 != []
    ensures NameRanges(names[..j + 1]) ==
      Success(NameRanges(names[..j]).value + [NameRange(names[j].0, DateRange(names[j].1).value)])
  {
    assert names[..j + 1][..j] == names[..j];
  }

  /** One step of the outer loop: an account whose names are all dated adds
      their entries. */
  lemma AccountsStep(accounts: seq<Account>, i: nat)
    requires i < |accounts| && AccountsRanges(accounts[..i]).Success?
    requires NameRanges(AccountNames(accounts[i])).Success?
    ensures AccountsRanges(accounts[..i + 1]) ==
      Success(AccountsRanges(accounts[..i]).value + NameRanges(AccountNames(accounts[i])).value)
    ensures AccountIds(accounts[..i + 1]) == AccountIds(accounts[..i]) + [AccountId(accounts[i])]
  {
    assert accounts[..i + 1][..i] == accounts[..i];
  }

  /** A screen name without dates anywhere makes the whole summary fail. */
  lemma UndatedNameFails(accounts: seq<Account>, i: nat, j: nat)
    requires i < |accounts| && j < |AccountNames(accounts[i])| && AccountNames(accounts[i])[j].1 == []
    ensures AccountsRanges(accounts) == Failure(IndexError)
  {
    AccountsRangesSpec(accounts);
    assert AccountsRanges(accounts).error.IndexError?;
  }

  /** A missing or empty answer gives no summary. */
  lemma FalsyGivesNothing(username: string, r: Response)
    requires !Truthy(r)
    ensures MemorylolSummary(username, Some(r)) == Success(None)
    ensures MemorylolSummary(username, None) == Success(None)
  {
  }

  /** The number of screen-name entries of a list of accounts. */
  function NameCount(accounts: seq<Account>): nat {
    if accounts == [] then 0
    else NameCount(accounts[..|accounts| - 1]) + |AccountNames(accounts[|accounts| - 1])|
  }

  /** Some screen name of some account has no dates. */
  predicate SomeNameUndated(accounts: seq<Account>) {
    exists i, j :: 0 <= i < |accounts| && 0 <= j < |AccountNames(accounts[i])| && AccountNames(accounts[i])[j].1 == []
  }

  lemma {:induction false} NameRangesFailIff(names: seq<(string, seq<string>)>)
    ensures NameRanges(names).Failure? <==> exists j :: 0 <= j < |names| && names[j].1 == []
    decreases |names|
  {
    if names != [] {
      var p := names[..|names| - 1];
      NameRangesFailIff(p);
      if exists j :: 0 <= j < |p| && p[j].1 == [] {
        var j :| 0 <= j < |p| && p[j].1 == [];
        assert names[j] == p[j];
      }
      if exists j :: 0 <= j < |names| && names[j].1 == [] {
        var j :| 0 <= j < |names| && names[j].1 == [];
        if j < |p| {
          assert p[j] == names[j];
        }
      }
    }
  }

  lemma {:induction false} AccountsRangesSpec(accounts: seq<Account>)
    ensures AccountsRanges(accounts).Failure? <==> SomeNameUndated(accounts)
    ensures AccountsRanges(accounts).Success? ==> |AccountsRanges(accounts).value| == NameCount(accounts)
    decreases |accounts|
  {
    if accounts != [] {
      var p := accounts[..|accounts| - 1];
      var a := accounts[|accounts| - 1];
      AccountsRangesSpec(p);
      NameRangesFailIff(AccountNames(a));
      if SomeNameUndated(p) {
        var i, j :| 0 <= i < |p| && 0 <= j < |AccountNames(p[i])| && AccountNames(p[i])[j].1 == [];
        assert accounts[i] == p[i];
      }
      if exists j :: 0 <= j < |AccountNames(a)| && AccountNames(a)[j].1 == [] {
        var j :| 0 <= j < |AccountNames(a)| && AccountNames(a)[j].1 == [];
        assert accounts[|accounts| - 1] == a;
      }
      if SomeNameUndated(accounts) {
        var i, j :| 0 <= i < |accounts| && 0 <= j < |AccountNames(accounts[i])| && AccountNames(accounts[i])[j].1 == [];
        if i < |p| {
          assert p[i] == accounts[i];
        }
      }
    }
  }

  /** From position `o` on, `v` holds one entry per screen name of `names`, in
      order: the name with its date range. */
  predicate EntriesAt(v: seq<NameRange>, o: nat, names: seq<(string, seq<string>)>) {
    o + |names| <= |v| &&
    forall j :: 0 <= j < |names| ==>
      DateRange(names[j].1).Success? && v[o + j] == NameRange(names[j].0, DateRange(names[j].1).value)
  }

  lemma EntriesAtAppend(v: seq<NameRange>, w: seq<NameRange>, o: nat, names: seq<(string, seq<string>)>)
    requires EntriesAt(v, o, names)
    ensures EntriesAt(v + w, o, names)
  {
    assert forall k :: 0 <= k < |v| ==> (v + w)[k] == v[k];
  }

  lemma EntriesAtEnd(v: seq<NameRange>, names: seq<(string, seq<string>)>)
    requires NameRanges(names).Success?
    ensures EntriesAt(v + NameRanges(names).value, |v|, names)
  {
    var q := NameRanges(names).value;
    forall j | 0 <= j < |names| ensures (v + q)[|v| + j] == q[j] {
    }
  }

  /** The entries of all accounts, account after account: the entries of
      account `i` follow those of the accounts before it, one per screen name
      and in the order of its `screen_names` object. */
  lemma {:induction false} AccountsRangesEntries(accounts: seq<Account>)
    requires AccountsRanges(accounts).Success?
    ensures |AccountsRanges(accounts).value| == NameCount(accounts)
    ensures forall i :: 0 <= i < |accounts| ==>
      EntriesAt(AccountsRanges(accounts).value, NameCount(accounts[..i]), AccountNames(accounts[i]))
    decreases |accounts|
  {
    if accounts != [] {
      var n := |accounts|;
      var p, a := accounts[..n - 1], accounts[n - 1];
      AccountsRangesEntries(p);
      var pv := AccountsRanges(p).value;
      var q := NameRanges(AccountNames(a)).value;
      assert AccountsRanges(accounts).value == pv + q;
      forall i | 0 <= i < n
        ensures EntriesAt(pv + q, NameCount(accounts[..i]), AccountNames(accounts[i]))
      {
        if i < n - 1 {
          assert accounts[..i] == p[..i] && accounts[i] == p[i];
          EntriesAtAppend(pv, q, NameCount(p[..i]), AccountNames(p[i]));
        } else {
          assert accounts[..i] == p && accounts[i] == a;
          EntriesAtEnd(pv, AccountNames(a));
        }
      }
    }
  }

  /** For a truthy answer with a non-empty accounts list: the summary fails
      exactly when some screen name has no dates; otherwise it counts the
      accounts, lists one id per account in order ('N/A' for a missing id),
      and has one entry per screen name: each account's names in turn, each
      with its date range. */
  lemma SummaryShape(username: string, r: Response)
    requires r.accounts.Some? && r.accounts.value != []
    ensures MemorylolSummary(username, Some(r)).Failure? <==> SomeNameUndated(r.accounts.value)
    ensures MemorylolSummary(username, Some(r)).Success? ==>
      var accounts := r.accounts.value;
      var s := MemorylolSummary(username, Some(r)).value;
      s.Some? && s.value.username == username &&
      s.value.totalAccounts == |accounts| && |s.value.accountIds| == |accounts| &&
      (forall i :: 0 <= i < |accounts| ==> s.value.accountIds[i] == accounts[i].idStr.GetOr("N/A")) &&
      |s.value.knownScreenNames| == NameCount(accounts) &&
      forall i :: 0 <= i < |accounts| ==>
        EntriesAt(s.value.knownScreenNames, NameCount(accounts[..i]), AccountNames(accounts[i]))
  {
    AccountsRangesSpec(r.accounts.value);
    if AccountsRanges(r.accounts.value).Success? {
      AccountsRangesEntries(r.accounts.value);
    }
  }

  /** An answer whose `accounts` key is missing or empty still gives a summary,
      with nothing in it. */
  lemma NoAccountsGivesEmptySummary(username: string, r: Response)
    requires Truthy(r) && (r.accounts.None? || r.accounts.value == [])
    ensures MemorylolSummary(username, Some(r)) == Success(Some(Summary(username, 0, [], [])))
  {
  }

  /** The shape of a date range: a single date reads "since d"; several read
      "first to ... to last". */
  lemma DateRangeShape(dates: seq<string>)
    requires dates != []
    ensures |dates| == 1 ==> DateRange(dates) == Success("since " + dates[0])
    ensures |dates| > 1 ==>
      var d := DateRange(dates).value;
      StartsWith(d, dates[0] + " to ") &&
      |d| >= |dates[|dates| - 1]| + 4 && d[|d| - |dates[|dates| - 1]| - 4..] == " to " + dates[|dates| - 1]
  {
    if |dates| > 1 {
      var d := Join(dates, " to ");
      assert d == dates[0] + " to " + Join(dates[1..], " to ");
      assert d[..|dates[0] + " to "|] == dates[0] + " to ";
      JoinLast(dates, " to ");
      var init := Join(dates[..|dates| - 1], " to ");
      assert d == init + (" to " + dates[|dates| - 1]);
    }
  }
}
