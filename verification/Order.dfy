/** Facts about sequences and the multisets of their elements. */
module Sequences {
  lemma MultisetHead<T>(s: seq<T>)
    requires s != []
    ensures multiset(s) == multiset(s[1..]) + multiset{s[0]}
  {
    assert s == [s[0]] + s[1..];
  }

  lemma MultisetWithout<T>(s: seq<T>, i: nat)
    requires i < |s|
    ensures multiset(s) == multiset(s[..i] + s[i + 1..]) + multiset{s[i]}
  {
    assert s == s[..i] + [s[i]] + s[i + 1..];
  }

  lemma MultisetCancel<T>(a: multiset<T>, b: multiset<T>, x: T)
    requires a + multiset{x} == b + multiset{x}
    ensures a == b
  {
    assert a == (a + multiset{x}) - multiset{x};
    assert b == (b + multiset{x}) - multiset{x};
  }

  lemma RemoveEqual<T>(a: seq<T>, b: seq<T>, i: nat)
    requires multiset(a) == multiset(b) && a != [] && i < |b| && b[i] == a[0]
    ensures multiset(a[1..]) == multiset(b[..i] + b[i + 1..])
  {
    MultisetHead(a);
    MultisetWithout(b, i);
    MultisetCancel(multiset(a[1..]), multiset(b[..i] + b[i + 1..]), a[0]);
  }

  lemma TwoOccurrences<T>(t: seq<T>, i: nat, j: nat)
    requires i < j < |t|
    ensures t[i] == t[j] ==> multiset(t)[t[j]] >= 2
  {
    MultisetWithout(t, j);
    assert t[i] == (t[..j] + t[j + 1..])[i];
  }
}

/** The orders std::sort uses: byte-wise order on strings and the lexicographic order on (key, value)
    pairs, together with the fact that makes an unstable sort predictable: under a total order the
    sorted arrangement of a multiset is unique. */
module Order {
  import opened Sequences

  type KV = (string, int)

  predicate StrLeq(a: string, b: string) {
    a == [] || (b != [] && (a[0] < b[0] || (a[0] == b[0] && StrLeq(a[1..], b[1..]))))
  }

  predicate StrLess(a: string, b: string) {
    StrLeq(a, b) && a != b
  }

  predicate PairLeq(p: KV, q: KV) {
    if p.0 == q.0 then p.1 <= q.1 else StrLeq(p.0, q.0)
  }

  /** Byte order: a proper prefix comes first, otherwise the first character that differs decides. */
  ghost predicate ByteLess(a: string, b: string) {
    (|a| < |b| && b[..|a|] == a) ||
    exists k :: 0 <= k < |a| && k < |b| && a[..k] == b[..k] && a[k] < b[k]
  }

  lemma TailLess(a: string, b: string)
    requires a != "" && b != "" && a[0] == b[0] && ByteLess(a[1..], b[1..])
    ensures ByteLess(a, b)
  {
    var c, d := a[1..], b[1..];
    assert a == [a[0]] + c && b == [b[0]] + d;
    if |c| < |d| && d[..|c|] == c {
      assert b[..|a|] == [b[0]] + d[..|c|];
    } else {
      var k :| 0 <= k < |c| && k < |d| && c[..k] == d[..k] && c[k] < d[k];
      assert a[..k + 1] == [a[0]] + c[..k] && b[..k + 1] == [b[0]] + d[..k] && a[k + 1] < b[k + 1];
    }
  }

  lemma LessTail(a: string, b: string)
    requires a != "" && b != "" && a[0] == b[0] && ByteLess(a, b)
    ensures ByteLess(a[1..], b[1..])
  {
    var c, d := a[1..], b[1..];
    if |a| < |b| && b[..|a|] == a {
      assert d[..|c|] == b[..|a|][1..];
    } else {
      var k :| 0 <= k < |a| && k < |b| && a[..k] == b[..k] && a[k] < b[k];
      assert c[..k - 1] == a[..k][1..] && d[..k - 1] == b[..k][1..] && c[k - 1] < d[k - 1];
    }
  }

  lemma FirstDiffers(a: string, b: string)
    requires a != "" && b != "" && a[0] != b[0]
    ensures ByteLess(a, b) <==> a[0] < b[0]
  {
    assert a[..0] == b[..0];
    forall k | 0 < k <= |a| && k <= |b| ensures a[..k] != b[..k] {
      assert a[..k][0] == a[0] && b[..k][0] == b[0];
    }
  }

  lemma {:induction false} StrLessIff(a: string, b: string)
    ensures StrLess(a, b) <==> ByteLess(a, b)
  {
    if a == "" || b == "" {
      assert b[..0] == "";
    } else {
      hide ByteLess;
      assert a == [a[0]] + a[1..] && b == [b[0]] + b[1..];
      if a[0] == b[0] {
        StrLessIff(a[1..], b[1..]);
        if ByteLess(a, b) { LessTail(a, b); }
        if ByteLess(a[1..], b[1..]) { TailLess(a, b); }
      } else {
        FirstDiffers(a, b);
      }
    }
  }

  lemma {:induction false} StrLeqTotal(a: string, b: string)
    ensures StrLeq(a, b) || StrLeq(b, a)
    ensures StrLeq(a, a)
  {
    if a != [] {
      StrLeqTotal(a[1..], if b != [] then b[1..] else []);
    }
  }

  lemma {:induction false} StrLeqAntisymmetric(a: string, b: string)
    requires StrLeq(a, b) && StrLeq(b, a)
    ensures a == b
  {
    if a != [] && b != [] {
      StrLeqAntisymmetric(a[1..], b[1..]);
      assert a == [a[0]] + a[1..] && b == [b[0]] + b[1..];
    }
  }

  lemma {:induction false} StrLeqTransitive(a: string, b: string, c: string)
    requires StrLeq(a, b) && StrLeq(b, c)
    ensures StrLeq(a, c)
  {
    if a != [] && a[0] == b[0] == c[0] {
      StrLeqTransitive(a[1..], b[1..], c[1..]);
    }
  }

  lemma PairLeqTotal(p: KV, q: KV)
    ensures PairLeq(p, q) || PairLeq(q, p)
  {
    StrLeqTotal(p.0, q.0);
  }

  lemma PairLeqAntisymmetric(p: KV, q: KV)
    requires PairLeq(p, q) && PairLeq(q, p)
    ensures p == q
  {
    if p.0 != q.0 {
      StrLeqAntisymmetric(p.0, q.0);
    }
  }

  lemma PairLeqTransitive(p: KV, q: KV, r: KV)
    requires PairLeq(p, q) && PairLeq(q, r)
    ensures PairLeq(p, r)
  {
    StrLeqTotal(p.0, q.0);
    StrLeqTotal(q.0, r.0);
    StrLeqTransitive(p.0, q.0, r.0);
    if p.0 == r.0 {
      StrLeqAntisymmetric(p.0, q.0);
    }
  }

  ghost predicate Sorted(s: seq<KV>) {
    forall i, j :: 0 <= i < j < |s| ==> PairLeq(s[i], s[j])
  }

  /** What sorting by key alone guarantees: pairs with equal keys may come in any order. */
  ghost predicate KeySorted(s: seq<KV>) {
    forall i, j :: 0 <= i < j < |s| ==> StrLeq(s[i].0, s[j].0)
  }

  lemma SortedIsKeySorted(s: seq<KV>)
    requires Sorted(s)
    ensures KeySorted(s)
  {
    forall i, j | 0 <= i < j < |s| ensures StrLeq(s[i].0, s[j].0) {
      assert PairLeq(s[i], s[j]);
      StrLeqTotal(s[i].0, s[j].0);
    }
  }

  function Insert(p: KV, s: seq<KV>): (r: seq<KV>)
    requires Sorted(s)
    ensures Sorted(r) && multiset(r) == multiset(s) + multiset{p}
  {
    if s == [] then [p]
    else if PairLeq(p, s[0]) then
      (forall j | 0 < j < |s| ensures PairLeq(p, s[j]) { PairLeqTransitive(p, s[0], s[j]); }
       assert multiset([p] + s) == multiset{p} + multiset(s);
       [p] + s)
    else
      var rest := Insert(p, s[1..]);
      (PairLeqTotal(p, s[0]);
       assert s == [s[0]] + s[1..];
       forall j | 0 <= j < |rest| ensures PairLeq(s[0], rest[j]) {
         assert rest[j] in multiset(rest);
         assert rest[j] == p || rest[j] in s[1..];
       }
       [s[0]] + rest)
  }

  /** std::sort with the default pair comparison. */
  function SortPairs(s: seq<KV>): (r: seq<KV>)
    ensures Sorted(r) && multiset(r) == multiset(s)
  {
    if s == [] then []
    else
      assert s == [s[0]] + s[1..];
      Insert(s[0], SortPairs(s[1..]))
  }

  lemma SortedHeadIsLeast(a: seq<KV>, x: KV)
    requires Sorted(a) && x in multiset(a)
    ensures PairLeq(a[0], x)
  {
    var i :| 0 <= i < |a| && a[i] == x;
    PairLeqTotal(x, x);
  }

  /** A sorted arrangement is determined by its multiset, so every correct sort returns the same pairs. */
  lemma {:induction false} SortedUnique(a: seq<KV>, b: seq<KV>)
    requires Sorted(a) && Sorted(b) && multiset(a) == multiset(b)
    ensures a == b
  {
    assert |multiset(a)| == |a| && |multiset(b)| == |b|;
    if a != [] {
      assert a[0] in multiset(b) && b[0] in multiset(a);
      SortedHeadIsLeast(a, b[0]);
      SortedHeadIsLeast(b, a[0]);
      PairLeqAntisymmetric(a[0], b[0]);
      MultisetHead(a);
      MultisetHead(b);
      MultisetCancel(multiset(a[1..]), multiset(b[1..]), a[0]);
      SortedUnique(a[1..], b[1..]);
      assert a == [a[0]] + a[1..] && b == [b[0]] + b[1..];
    }
  }
}
