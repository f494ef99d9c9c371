/** Grouping equal keys and reducing each group, and the table of totals that summing produces. */
module Tables {
  import opened Order
  import opened Sequences
  import opened Text

  type Reducer = (string, seq<int>) -> seq<KV>

  function Sum(vs: seq<int>): int {
    if vs == [] then 0 else Sum(vs[..|vs| - 1]) + vs[|vs| - 1]
  }

  /** The reducer and the combiner of the word count example: one pair holding the sum. */
  function SumReducer(k: string, vs: seq<int>): seq<KV> {
    [(k, Sum(vs))]
  }

  function Values(s: seq<KV>): seq<int> {
    seq(|s|, i requires 0 <= i < |s| => s[i].1)
  }

  /** Length of the leading run of pairs whose key is k. */
  function RunLength(s: seq<KV>, k: string): (n: nat)
    ensures n <= |s|
    ensures s != [] && s[0].0 == k ==> n > 0
  {
    if s == [] || s[0].0 != k then 0 else 1 + RunLength(s[1..], k)
  }

  lemma {:induction false} RunEnds(s: seq<KV>, k: string)
    ensures var n := RunLength(s, k);
            (forall i :: 0 <= i < n ==> s[i].0 == k) && (n < |s| ==> s[n].0 != k)
  {
    if s != [] && s[0].0 == k {
      RunEnds(s[1..], k);
    }
  }

  lemma {:induction false} RunLengthIs(s: seq<KV>, k: string, n: nat)
    requires n <= |s| && (forall i :: 0 <= i < n ==> s[i].0 == k) && (n < |s| ==> s[n].0 != k)
    ensures RunLength(s, k) == n
  {
    if n > 0 {
      RunLengthIs(s[1..], k, n - 1);
    }
  }

  /** Hand each maximal run of equal keys to the reducer and concatenate what it emits. */
  function Grouped(s: seq<KV>, reduce: Reducer): seq<KV>
    decreases |s|
  {
    if s == [] then []
    else
      var n := RunLength(s, s[0].0);
      reduce(s[0].0, Values(s[..n])) + Grouped(s[n..], reduce)
  }

  predicate Has(s: seq<KV>, k: string) {
    exists i :: 0 <= i < |s| && s[i].0 == k
  }

  /** Sum of the values stored under k. */
  function Total(s: seq<KV>, k: string): int {
    if s == [] then 0 else (if s[0].0 == k then s[0].1 else 0) + Total(s[1..], k)
  }

  /** t holds, once and in any order, exactly the pairs (key of s, total of that key in s). */
  ghost predicate Lists(t: seq<KV>, s: seq<KV>) {
    forall p: KV :: multiset(t)[p] == if Has(s, p.0) && Total(s, p.0) == p.1 then 1 else 0
  }

  ghost predicate StrictKeys(t: seq<KV>) {
    forall i, j :: 0 <= i < j < |t| ==> StrLess(t[i].0, t[j].0)
  }

  lemma {:induction false} TotalConcat(a: seq<KV>, b: seq<KV>, k: string)
    ensures Total(a + b, k) == Total(a, k) + Total(b, k)
    ensures Has(a + b, k) <==> Has(a, k) || Has(b, k)
  {
    if a == [] {
      assert a + b == b;
    } else {
      assert (a + b)[1..] == a[1..] + b;
      TotalConcat(a[1..], b, k);
      if Has(a, k) {
        var i :| 0 <= i < |a| && a[i].0 == k;
        assert (a + b)[i].0 == k;
      }
      if Has(b, k) {
        var i :| 0 <= i < |b| && b[i].0 == k;
        assert (a + b)[|a| + i].0 == k;
      }
    }
  }

  lemma {:induction false} AbsentTotal(s: seq<KV>, k: string)
    requires !Has(s, k)
    ensures Total(s, k) == 0
  {
    if s != [] {
      assert s[0].0 != k;
      AbsentTotal(s[1..], k);
    }
  }

  lemma TotalWithout(s: seq<KV>, i: nat, k: string)
    requires i < |s|
    ensures Total(s, k) == (if s[i].0 == k then s[i].1 else 0) + Total(s[..i] + s[i + 1..], k)
  {
    var l, m, r := s[..i], [s[i]], s[i + 1..];
    assert s == l + (m + r) && m[1..] == [];
    TotalConcat(l, m + r, k);
    TotalConcat(m, r, k);
    TotalConcat(l, r, k);
  }

  /** Totals depend only on which pairs there are, not on their order. */
  lemma {:induction false} TotalPermutation(a: seq<KV>, b: seq<KV>, k: string)
    requires multiset(a) == multiset(b)
    ensures Total(a, k) == Total(b, k)
  {
    if a == [] {
      assert |multiset(b)| == |b|;
    } else {
      assert a[0] in multiset(b);
      var i :| 0 <= i < |b| && b[i] == a[0];
      RemoveEqual(a, b, i);
      TotalPermutation(a[1..], b[..i] + b[i + 1..], k);
      TotalWithout(b, i, k);
    }
  }

  lemma HasPermutation(a: seq<KV>, b: seq<KV>, k: string)
    requires multiset(a) == multiset(b) && Has(a, k)
    ensures Has(b, k)
  {
    var i :| 0 <= i < |a| && a[i].0 == k;
    assert a[i] in multiset(b);
  }

  lemma {:induction false} RunTotal(s: seq<KV>, k: string)
    requires forall i :: 0 <= i < |s| ==> s[i].0 == k
    ensures Total(s, k) == Sum(Values(s))
    ensures forall x :: x != k ==> Total(s, x) == 0
  {
    if s != [] {
      var init, last := s[..|s| - 1], s[|s| - 1];
      RunTotal(init, k);
      assert s == init + [last];
      assert Values(s)[..|s| - 1] == Values(init);
      assert [last][1..] == [];
      forall x ensures Total(s, x) == Total(init, x) + if x == last.0 then last.1 else 0 {
        TotalConcat(init, [last], x);
      }
    }
  }

  /** In key order a key never comes back after its run. */
  lemma RunIsComplete(s: seq<KV>)
    requires KeySorted(s) && s != []
    ensures var n := RunLength(s, s[0].0);
            n > 0 && KeySorted(s[n..]) &&
            (forall i :: 0 <= i < |s[..n]| ==> s[..n][i].0 == s[0].0) &&
            (forall i :: 0 <= i < |s[n..]| ==> StrLess(s[0].0, s[n..][i].0))
  {
    var k := s[0].0;
    var n := RunLength(s, k);
    RunEnds(s, k);
    forall i | n <= i < |s| ensures StrLess(k, s[i].0) {
      assert StrLeq(k, s[i].0) && StrLeq(k, s[n].0);
      StrLeqTotal(s[n].0, s[i].0);
      if s[i].0 == k {
        assert StrLeq(s[n].0, s[i].0);
        StrLeqAntisymmetric(s[n].0, k);
        assert false;
      }
    }
  }

  /** One group put in front of the listing of the remaining pairs. */
  lemma ListsPrepend(t: seq<KV>, run: seq<KV>, rest: seq<KV>, k: string)
    requires Lists(t, rest) && run != [] && (forall i :: 0 <= i < |run| ==> run[i].0 == k) && !Has(rest, k)
    ensures Lists([(k, Sum(Values(run)))] + t, run + rest)
  {
    var head := (k, Sum(Values(run)));
    RunTotal(run, k);
    AbsentTotal(rest, k);
    assert run[0].0 == k;
    forall p: KV ensures multiset([head] + t)[p] ==
                         if Has(run + rest, p.0) && Total(run + rest, p.0) == p.1 then 1 else 0
    {
      TotalConcat(run, rest, p.0);
      assert multiset([head] + t)[p] == multiset([head])[p] + multiset(t)[p];
    }
  }

  lemma StrictPrepend(p: KV, t: seq<KV>, rest: seq<KV>)
    requires StrictKeys(t) && Lists(t, rest) && forall i :: 0 <= i < |rest| ==> StrLess(p.0, rest[i].0)
    ensures StrictKeys([p] + t)
  {
    forall j: nat | j < |t| ensures StrLess(p.0, t[j].0) {
      ListedKey(t, rest, j);
    }
  }

  lemma GroupedUnfold(s: seq<KV>, reduce: Reducer)
    requires s != []
    ensures var n := RunLength(s, s[0].0);
            Grouped(s, reduce) == reduce(s[0].0, Values(s[..n])) + Grouped(s[n..], reduce)
  {
  }

  ghost predicate IsTable(t: seq<KV>, s: seq<KV>) {
    Lists(t, s) && StrictKeys(t)
  }

  lemma TablePrepend(run: seq<KV>, rest: seq<KV>, t: seq<KV>, k: string)
    requires run != [] && (forall i :: 0 <= i < |run| ==> run[i].0 == k)
    requires forall i :: 0 <= i < |rest| ==> StrLess(k, rest[i].0)
    requires IsTable(t, rest)
    ensures IsTable(SumReducer(k, Values(run)) + t, run + rest)
  {
    ListsPrepend(t, run, rest, k);
    StrictPrepend((k, Sum(Values(run))), t, rest);
  }

  lemma EmptyTable()
    ensures IsTable(Grouped([], SumReducer), [])
  {
  }

  /** Reducing key-sorted pairs by summing gives a table with strictly increasing keys that lists exactly
      the totals, whatever the order among equal keys was. */
  lemma {:induction false} GroupedSumIsTable(s: seq<KV>)
    requires KeySorted(s)
    ensures IsTable(Grouped(s, SumReducer), s)
    decreases |s|
  {
    hide *;
    if s == [] {
      EmptyTable();
    } else {
      var n := RunLength(s, s[0].0);
      RunIsComplete(s);
      GroupedSumIsTable(s[n..]);
      GroupedUnfold(s, SumReducer);
      TablePrepend(s[..n], s[n..], Grouped(s[n..], SumReducer), s[0].0);
      assert s[..n] + s[n..] == s;
    }
  }

  lemma ListedKey(t: seq<KV>, s: seq<KV>, j: nat)
    requires Lists(t, s) && j < |t|
    ensures Has(s, t[j].0) && t[j].1 == Total(s, t[j].0)
  {
    assert t[j] in multiset(t);
  }

  lemma SumOfOne(p: KV)
    ensures SumReducer(p.0, Values([p])) == [p]
  {
    var vs := Values([p]);
    assert vs == [p.1] && vs[..0] == [];
    assert Sum(vs) == Sum([]) + p.1;
  }

  /** Summing a table that already has one pair per key changes nothing: a combining pass is invisible. */
  lemma {:induction false} GroupedStrict(t: seq<KV>)
    requires StrictKeys(t)
    ensures Grouped(t, SumReducer) == t
    decreases |t|
  {
    if t != [] {
      hide Grouped, Values, SumReducer, RunLength, Sum;
      assert |t| > 1 ==> StrLess(t[0].0, t[1].0);
      RunLengthIs(t, t[0].0, 1);
      GroupedUnfold(t, SumReducer);
      assert t[..1] == [t[0]];
      SumOfOne(t[0]);
      GroupedStrict(t[1..]);
    } else {
      assert Grouped(t, SumReducer) == [];
    }
  }

  lemma StrictKeysSorted(t: seq<KV>)
    requires StrictKeys(t)
    ensures Sorted(t)
  {
    forall i, j | 0 <= i < j < |t| ensures PairLeq(t[i], t[j]) {
      assert StrLess(t[i].0, t[j].0);
    }
  }

  /** Two sorted listings of the same totals are the same table. */
  lemma TableUnique(t: seq<KV>, u: seq<KV>, s: seq<KV>)
    requires Sorted(t) && Sorted(u) && Lists(t, s) && Lists(u, s)
    ensures t == u
  {
    assert multiset(t) == multiset(u) by {
      forall p: KV ensures multiset(t)[p] == multiset(u)[p] {}
    }
    SortedUnique(t, u);
  }

  lemma ListedOnce(t: seq<KV>, s: seq<KV>, i: nat, j: nat)
    requires Lists(t, s) && i < j < |t|
    ensures t[i].0 != t[j].0
  {
    ListedKey(t, s, i);
    ListedKey(t, s, j);
    TwoOccurrences(t, i, j);
  }

  /** What a sorted listing says to a reader: keys in strict order, every key of s and no other, each with
      its total. */
  lemma TableMeaning(t: seq<KV>, s: seq<KV>)
    requires Sorted(t) && Lists(t, s)
    ensures StrictKeys(t)
    ensures forall k :: Has(t, k) <==> Has(s, k)
    ensures forall i :: 0 <= i < |t| ==> t[i].1 == Total(s, t[i].0)
  {
    forall i: nat | i < |t| ensures Has(s, t[i].0) && t[i].1 == Total(s, t[i].0) {
      ListedKey(t, s, i);
    }
    forall k ensures Has(t, k) <==> Has(s, k) {
      if Has(s, k) {
        assert multiset(t)[(k, Total(s, k))] == 1;
        assert (k, Total(s, k)) in t;
      }
    }
    forall i, j | 0 <= i < j < |t| ensures StrLess(t[i].0, t[j].0) {
      assert PairLeq(t[i], t[j]);
      ListedOnce(t, s, i, j);
    }
  }

  // ---- What the reducer is called with --------------------------------------------------------------------

  /** The values stored under k, in order. */
  function ValuesOf(s: seq<KV>, k: string): seq<int> {
    if s == [] then [] else (if s[0].0 == k then [s[0].1] else []) + ValuesOf(s[1..], k)
  }

  lemma {:induction false} ValuesConcat(a: seq<KV>, b: seq<KV>, k: string)
    ensures ValuesOf(a + b, k) == ValuesOf(a, k) + ValuesOf(b, k)
  {
    if a == [] {
      assert a + b == b;
    } else {
      var head := if a[0].0 == k then [a[0].1] else [];
      FirstValue(a, k);
      FirstValue(a + b, k);
      assert (a + b)[0] == a[0] && (a + b)[1..] == a[1..] + b;
      hide ValuesOf;
      ValuesConcat(a[1..], b, k);
      var x, y := ValuesOf(a[1..], k), ValuesOf(b, k);
      assert head + (x + y) == (head + x) + y;
    }
  }

  lemma FirstValue(s: seq<KV>, k: string)
    requires s != []
    ensures ValuesOf(s, k) == (if s[0].0 == k then [s[0].1] else []) + ValuesOf(s[1..], k)
  {
  }

  lemma {:induction false} RunValues(run: seq<KV>, k: string)
    requires forall i :: 0 <= i < |run| ==> run[i].0 == k
    ensures ValuesOf(run, k) == Values(run)
    ensures forall other :: other != k ==> ValuesOf(run, other) == []
  {
    if run != [] {
      RunValues(run[1..], k);
      assert Values(run) == [run[0].1] + Values(run[1..]);
    }
  }

  lemma {:induction false} NoValues(s: seq<KV>, k: string)
    requires forall i :: 0 <= i < |s| ==> s[i].0 != k
    ensures ValuesOf(s, k) == []
  {
    if s != [] { NoValues(s[1..], k); }
  }

  function Calls(s: seq<KV>, keys: seq<string>, reduce: Reducer): seq<seq<KV>> {
    seq(|keys|, i requires 0 <= i < |keys| => reduce(keys[i], ValuesOf(s, keys[i])))
  }

  /** The reducer is called once for each key that occurs, in byte order, with exactly the values of that key. */
  ghost predicate OnceEach(s: seq<KV>, keys: seq<string>) {
    && (forall i, j :: 0 <= i < j < |keys| ==> ByteLess(keys[i], keys[j]))
    && (forall i :: 0 <= i < |s| ==> s[i].0 in keys)
    && (forall k :: k in keys ==> exists i :: 0 <= i < |s| && s[i].0 == k)
  }

  /** For any reducer: over pairs sorted by key, it is called once for each key, and what it emits is concatenated. */
  lemma {:induction false} GroupCalls(s: seq<KV>, reduce: Reducer) returns (keys: seq<string>)
    requires KeySorted(s)
    ensures OnceEach(s, keys) && Grouped(s, reduce) == Flatten(Calls(s, keys, reduce))
    decreases |s|
  {
    if s == [] {
      keys := [];
    } else {
      hide Grouped, RunLength, ByteLess, StrLess, Values;
      var k := s[0].0;
      var n := RunLength(s, k);
      RunIsComplete(s);
      var run, rest := s[..n], s[n..];
      assert s == run + rest;
      var later := GroupCalls(rest, reduce);
      keys := [k] + later;
      GroupedUnfold(s, reduce);
      RunValues(run, k);
      assert forall i :: 0 <= i < |run| ==> s[i].0 == k;
      forall i | 0 <= i < |later| ensures ByteLess(k, later[i]) && later[i] != k {
        assert later[i] in later;
        var j :| 0 <= j < |rest| && rest[j].0 == later[i];
        FirstKeyLess(k, rest[j].0);
      }
      FirstCall(s, run, rest, k, later, reduce);
      FirstKey(s, run, rest, k, later);
    }
  }

  lemma FirstKeyLess(k: string, other: string)
    requires StrLess(k, other)
    ensures ByteLess(k, other) && other != k
  {
    StrLessIff(k, other);
  }

  lemma FirstCall(s: seq<KV>, run: seq<KV>, rest: seq<KV>, k: string, later: seq<string>, reduce: Reducer)
    requires s == run + rest && run != [] && (forall i :: 0 <= i < |run| ==> run[i].0 == k)
    requires (forall i :: 0 <= i < |rest| ==> StrLess(k, rest[i].0)) && forall i :: 0 <= i < |later| ==> later[i] != k
    ensures Flatten(Calls(s, [k] + later, reduce)) == reduce(k, Values(run)) + Flatten(Calls(rest, later, reduce))
  {
    hide StrLess, Values;
    RunValues(run, k);
    assert forall i :: 0 <= i < |rest| ==> rest[i].0 != k by { NotFirst(rest, k); }
    NoValues(rest, k);
    ValuesConcat(run, rest, k);
    assert ValuesOf(s, k) == Values(run);
    forall i | 0 <= i < |later| ensures ValuesOf(s, later[i]) == ValuesOf(rest, later[i]) {
      ValuesConcat(run, rest, later[i]);
    }
    assert Calls(s, [k] + later, reduce)[0] == reduce(k, Values(run));
    assert Calls(s, [k] + later, reduce)[1..] == Calls(rest, later, reduce);
  }

  lemma NotFirst(rest: seq<KV>, k: string)
    requires forall i :: 0 <= i < |rest| ==> StrLess(k, rest[i].0)
    ensures forall i :: 0 <= i < |rest| ==> rest[i].0 != k
  {
  }

  lemma FirstKey(s: seq<KV>, run: seq<KV>, rest: seq<KV>, k: string, later: seq<string>)
    requires s == run + rest && run != [] && (forall i :: 0 <= i < |run| ==> run[i].0 == k)
    requires OnceEach(rest, later) && forall i :: 0 <= i < |later| ==> ByteLess(k, later[i])
    ensures OnceEach(s, [k] + later)
  {
    hide ByteLess;
    var keys := [k] + later;
    forall i | 0 <= i < |s| ensures s[i].0 in keys {
      if i >= |run| { assert s[i] == rest[i - |run|]; }
    }
    forall key | key in keys ensures exists i :: 0 <= i < |s| && s[i].0 == key {
      if key == k {
        assert s[0].0 == k;
      } else {
        var i :| 0 <= i < |rest| && rest[i].0 == key;
        assert s[|run| + i].0 == key;
      }
    }
  }

  /** The values of a key sum up to its total. */
  lemma {:induction false} ValuesTotal(s: seq<KV>, k: string)
    ensures SumReducer(k, ValuesOf(s, k)) == [(k, Total(s, k))]
  {
    if s != [] {
      ValuesTotal(s[1..], k);
      SumPrepend(if s[0].0 == k then [s[0].1] else [], ValuesOf(s[1..], k));
    }
  }

  lemma {:induction false} SumPrepend(a: seq<int>, b: seq<int>)
    requires |a| <= 1
    ensures Sum(a + b) == (if a == [] then 0 else a[0]) + Sum(b)
  {
    if a == [] {
      assert a + b == b;
    } else if b == [] {
      assert a + b == a && a[..0] == [];
    } else {
      var n := |b| - 1;
      SumPrepend(a, b[..n]);
      assert (a + b)[..|a| + n] == a + b[..n];
    }
  }
}
