/** Generic operations on the rows of a table that pandas provides as library
    calls: boolean-mask selection (`df[mask]`) and `drop_duplicates()`, which
    compares whole rows and keeps the first occurrence of each. */
module Sequences {

  /** No value occurs twice. */
  predicate Distinct<T(==)>(s: seq<T>) {
    forall i, j :: 0 <= i < j < |s| ==> s[i] != s[j]
  }

  /** The position of the first occurrence of `x` in `s`. */
  function FirstIndex<T(==)>(s: seq<T>, x: T): (i: nat)
    requires x in s
    ensures i < |s| && s[i] == x && x !in s[..i]
  {
    if s[0] == x then 0 else 1 + FirstIndex(s[1..], x)
  }

  /** `drop_duplicates()` with its default `keep='first'`: every value of `s`
      once, none twice, and never more than `s` had. */
  function DropDuplicates<T(==)>(s: seq<T>): (r: seq<T>)
    ensures forall i :: 0 <= i < |r| ==> r[i] in s
    ensures forall i :: 0 <= i < |s| ==> s[i] in r
    ensures Distinct(r)
    ensures |r| <= |s|
  {
    if s == [] then []
    else
      var p := DropDuplicates(s[..|s| - 1]);
      var x := s[|s| - 1];
      assert s == s[..|s| - 1] + [x];
      if x in p then p else p + [x]
  }

  /** Appending a value keeps it exactly when it is new. */
  lemma DropDuplicatesSnoc<T>(p: seq<T>, x: T)
    ensures DropDuplicates(p + [x]) == if x in p then DropDuplicates(p) else DropDuplicates(p) + [x]
  {
    assert (p + [x])[..|p + [x]| - 1] == p;
  }

  /** Adding an element at the end moves no first occurrence. */
  lemma FirstIndexSnoc<T>(s: seq<T>, x: T, y: T)
    requires y in s
    ensures y in s + [x] && FirstIndex(s + [x], y) == FirstIndex(s, y)
  {
    var k := FirstIndex(s, y);
    assert (s + [x])[..k] == s[..k];
    assert (s + [x])[k] == y;
  }

  /** Every value of `r` occurs in `s`, and `r` lists them in the order of
      their first occurrences in `s`. */
  predicate InOrder<T(==)>(r: seq<T>, s: seq<T>) {
    (forall i :: 0 <= i < |r| ==> r[i] in s) &&
    forall i, j :: 0 <= i < j < |r| ==> FirstIndex(s, r[i]) < FirstIndex(s, r[j])
  }

  /** A value first occurring after all of `p` can be appended. */
  lemma InOrderSnoc<T>(p: seq<T>, x: T, s: seq<T>)
    requires InOrder(p, s) && x in s
    requires forall i :: 0 <= i < |p| ==> FirstIndex(s, p[i]) < FirstIndex(s, x)
    ensures InOrder(p + [x], s)
  {
    var r := p + [x];
    forall i | 0 <= i < |r| ensures r[i] in s {
      if i < |p| {
        assert r[i] == p[i];
      }
    }
    forall i, j | 0 <= i < j < |r| ensures FirstIndex(s, r[i]) < FirstIndex(s, r[j]) {
      assert r[i] == p[i];
      if j < |p| {
        assert r[j] == p[j];
      }
    }
  }

  /** A prefix of an ordered sequence is ordered. */
  lemma InOrderPrefix<T>(r: seq<T>, s: seq<T>, k: nat)
    requires InOrder(r, s) && k <= |r|
    ensures InOrder(r[..k], s)
  {
    var p := r[..k];
    assert forall i :: 0 <= i < |p| ==> p[i] == r[i];
  }

  /** Appending to `s` moves no first occurrence of a value already in it. */
  lemma InOrderExtend<T>(r: seq<T>, s: seq<T>, x: T)
    requires InOrder(r, s)
    ensures InOrder(r, s + [x])
  {
    forall i | 0 <= i < |r| ensures r[i] in s + [x] && FirstIndex(s + [x], r[i]) == FirstIndex(s, r[i]) {
      FirstIndexSnoc(s, x, r[i]);
    }
  }

  /** Kept rows come in the order in which each first occurs in the input. */
  lemma {:induction false} DropDuplicatesOrder<T>(s: seq<T>)
    ensures InOrder(DropDuplicates(s), s)
    decreases |s|
  {
    if s != [] {
      var q := s[..|s| - 1];
      var x := s[|s| - 1];
      var p := DropDuplicates(q);
      assert s == q + [x];
      DropDuplicatesOrder(q);
      InOrderExtend(p, q, x);
      if x !in q {
        assert s[..|q|] == q;
        assert FirstIndex(s, x) == |q|;
        InOrderSnoc(p, x, s);
      }
    }
  }

  /** Appending values that were already present changes nothing. */
  lemma {:induction false} DropDuplicatesAbsorbs<T>(a: seq<T>, b: seq<T>)
    requires forall i :: 0 <= i < |b| ==> b[i] in a
    ensures DropDuplicates(a + b) == DropDuplicates(a)
    decreases |b|
  {
    if b != [] {
      var b', z := b[..|b| - 1], b[|b| - 1];
      assert a + b == (a + b') + [z];
      DropDuplicatesAbsorbs(a, b');
      assert z in a + b' by {
        assert (a + b')[FirstIndex(a, z)] == z;
      }
      DropDuplicatesSnoc(a + b', z);
    } else {
      assert a + b == a;
    }
  }

  /** `df[mask]`: the elements whose mask entry is true, in their order. */
  function Where<T>(s: seq<T>, mask: seq<bool>): (r: seq<T>)
    requires |mask| == |s|
    ensures |r| <= |s|
  {
    if s == [] then []
    else
      var p := Where(s[..|s| - 1], mask[..|s| - 1]);
      if mask[|s| - 1] then p + [s[|s| - 1]] else p
  }

  /** Masking keeps only elements of the sequence. */
  lemma {:induction false} WhereSubset<T>(s: seq<T>, mask: seq<bool>)
    requires |mask| == |s|
    ensures forall i :: 0 <= i < |Where(s, mask)| ==> Where(s, mask)[i] in s
    decreases |s|
  {
    if s != [] {
      WhereSubset(s[..|s| - 1], mask[..|s| - 1]);
      assert forall x :: x in s[..|s| - 1] ==> x in s;
    }
  }

  /** Masking keeps the order of a sequence ordered by first occurrence in
      `s`. */
  lemma {:induction false} WhereInOrder<T>(q: seq<T>, mask: seq<bool>, s: seq<T>)
    requires |mask| == |q| && InOrder(q, s)
    ensures InOrder(Where(q, mask), s)
    decreases |q|
  {
    if q != [] {
      var n := |q|;
      var q', m' := q[..n - 1], mask[..n - 1];
      var p := Where(q', m');
      InOrderPrefix(q, s, n - 1);
      WhereInOrder(q', m', s);
      if mask[n - 1] {
        WhereSubset(q', m');
        forall i | 0 <= i < |p| ensures FirstIndex(s, p[i]) < FirstIndex(s, q[n - 1]) {
          var k :| 0 <= k < n - 1 && q'[k] == p[i];
          assert q[k] == p[i];
        }
        InOrderSnoc(p, q[n - 1], s);
      }
    }
  }

  /** A mask that selects nothing gives nothing. */
  lemma {:induction false} WhereNone<T>(s: seq<T>, mask: seq<bool>)
    requires |mask| == |s|
    requires forall i :: 0 <= i < |mask| ==> !mask[i]
    ensures Where(s, mask) == []
    decreases |s|
  {
    if s != [] {
      WhereNone(s[..|s| - 1], mask[..|s| - 1]);
    }
  }

  /** The keys of a dictionary held as its list of items, in insertion order. */
  function Keys<K, V>(items: seq<(K, V)>): (ks: seq<K>)
    ensures |ks| == |items| && forall i :: 0 <= i < |items| ==> ks[i] == items[i].0
  {
    seq(|items|, i requires 0 <= i < |items| => items[i].0)
  }

  /** `d[k] = v` on a Python dictionary, which keeps insertion order: a new key
      goes to the end; an existing key keeps its place and takes the new
      value. */
  function DictSet<K(==), V>(items: seq<(K, V)>, k: K, v: V): (r: seq<(K, V)>)
    ensures k !in Keys(items) ==> r == items + [(k, v)]
    ensures k in Keys(items) ==>
      var m := FirstIndex(Keys(items), k);
      r == items[..m] + [(k, v)] + items[m + 1..]
  {
    if items == [] then [(k, v)]
    else if items[0].0 == k then [(k, v)] + items[1..]
    else
      var rest := DictSet(items[1..], k, v);
      assert items == [items[0]] + items[1..];
      if k in Keys(items[1..]) then
        DictSetConsPresent(items[0], items[1..], k, v);
        [items[0]] + rest
      else
        DictSetConsAbsent(items[0], items[1..], k);
        [items[0]] + rest
  }

  /** The recursive case of `DictSet` when the key comes later: the first
      item stays in front and the key's position moves up by one. */
  lemma DictSetConsPresent<K, V>(h: (K, V), t: seq<(K, V)>, k: K, v: V)
    requires h.0 != k && k in Keys(t)
    ensures k in Keys([h] + t)
    ensures var m := FirstIndex(Keys(t), k);
      FirstIndex(Keys([h] + t), k) == m + 1 &&
      [h] + (t[..m] + [(k, v)] + t[m + 1..]) == ([h] + t)[..m + 1] + [(k, v)] + ([h] + t)[m + 2..]
  {
    KeysCons(h, t);
    FirstIndexCons(h.0, Keys(t), k);
    ReplaceCons(h, t, FirstIndex(Keys(t), k), (k, v));
  }

  lemma KeysCons<K, V>(h: (K, V), t: seq<(K, V)>)
    ensures Keys([h] + t) == [h.0] + Keys(t)
  {
  }

  lemma FirstIndexCons<T>(x: T, s: seq<T>, y: T)
    requires x != y && y in s
    ensures y in [x] + s && FirstIndex([x] + s, y) == 1 + FirstIndex(s, y)
  {
    assert ([x] + s)[1..] == s;
  }

  /** Replacing the item at position `m` of `t` commutes with putting `h` in
      front, once the position moves up by one. */
  lemma ReplaceCons<T>(h: T, t: seq<T>, m: nat, e: T)
    requires m < |t|
    ensures [h] + (t[..m] + [e] + t[m + 1..]) == ([h] + t)[..m + 1] + [e] + ([h] + t)[m + 2..]
  {
    assert ([h] + t)[..m + 1] == [h] + t[..m];
    assert ([h] + t)[m + 2..] == t[m + 1..];
  }

  /** The recursive case of `DictSet` when the key is new everywhere. */
  lemma DictSetConsAbsent<K, V>(h: (K, V), t: seq<(K, V)>, k: K)
    requires h.0 != k && k !in Keys(t)
    ensures k !in Keys([h] + t)
  {
    KeysCons(h, t);
  }

  /** The items `(k, f(k))` for the keys `ks`, in order. */
  function Tabulate<K, V>(ks: seq<K>, f: K -> V): (items: seq<(K, V)>)
    ensures Keys(items) == ks
    ensures forall i :: 0 <= i < |items| ==> items[i] == (ks[i], f(ks[i]))
  {
    seq(|ks|, i requires 0 <= i < |ks| => (ks[i], f(ks[i])))
  }

  /** One step of filling a dictionary with `d[k] = f(k)`: a key already
      present changes nothing, a new one is appended. */
  lemma DictSetTabulate<K, V>(ks: seq<K>, k: K, f: K -> V)
    ensures DictSet(Tabulate(ks, f), k, f(k)) == Tabulate(if k in ks then ks else ks + [k], f)
  {
    var t := Tabulate(ks, f);
    if k in ks {
      DictSetSame(t, k, f(k));
    } else {
      TabulateSnoc(ks, k, f);
    }
  }

  /** Setting a key to the value it already holds changes nothing. */
  lemma DictSetSame<K, V>(items: seq<(K, V)>, k: K, v: V)
    requires k in Keys(items) && items[FirstIndex(Keys(items), k)] == (k, v)
    ensures DictSet(items, k, v) == items
  {
    var m := FirstIndex(Keys(items), k);
    assert items == items[..m] + [items[m]] + items[m + 1..];
  }

  lemma TabulateSnoc<K, V>(ks: seq<K>, k: K, f: K -> V)
    ensures Tabulate(ks + [k], f) == Tabulate(ks, f) + [(k, f(k))]
  {
  }

  /** Filling a dictionary with `d[k] = f(k)` for each key of `ks` in turn
      leaves the distinct keys in first-appearance order, each with its value:
      one step of that loop. */
  lemma DictSetDropDuplicates<K, V>(ks: seq<K>, k: K, f: K -> V)
    ensures DictSet(Tabulate(DropDuplicates(ks), f), k, f(k)) == Tabulate(DropDuplicates(ks + [k]), f)
  {
    var dd := DropDuplicates(ks);
    DictSetTabulate(dd, k, f);
    DropDuplicatesSnoc(ks, k);
    assert k in dd <==> k in ks;
  }
}
