/** CombiningCollector: totals per key in memory, passed through the combiner whenever there are many keys. */
module Combining {
  import opened Options
  import opened Order
  import opened Tables

  /** One value added to the entry of its key. */
  function Collected(buffer: map<string, int>, p: KV): map<string, int> {
    buffer[p.0 := (if p.0 in buffer then buffer[p.0] else 0) + p.1]
  }

  function Refill(buffer: map<string, int>, combined: seq<KV>): map<string, int> {
    if combined == [] then buffer
    else Refill(buffer, combined[..|combined| - 1])[combined[|combined| - 1].0 := combined[|combined| - 1].1]
  }

  /** The combiner sums, like the one of the word count example. */
  ghost predicate Sums(combiner: Reducer) {
    forall k, vs :: combiner(k, vs) == SumReducer(k, vs)
  }

  /** A list with each entry once, of some of the keys, refills exactly those entries. */
  ghost predicate ListsEntries(combined: seq<KV>, buffer: map<string, int>, keys: set<string>) {
    && (forall i :: 0 <= i < |combined| ==>
          combined[i].0 in keys && combined[i].0 in buffer && combined[i].1 == buffer[combined[i].0])
    && (forall k :: k in keys ==> Has(combined, k))
  }

  lemma {:induction false} RefillLookup(combined: seq<KV>, buffer: map<string, int>, k: string)
    requires forall i :: 0 <= i < |combined| ==> combined[i].0 in buffer && combined[i].1 == buffer[combined[i].0]
    ensures k in Refill(map[], combined) <==> Has(combined, k)
    ensures k in Refill(map[], combined) ==> k in buffer && Refill(map[], combined)[k] == buffer[k]
  {
    if combined != [] {
      var init := combined[..|combined| - 1];
      RefillLookup(init, buffer, k);
      if Has(init, k) {
        var i :| 0 <= i < |init| && init[i].0 == k;
        assert combined[i].0 == k;
      }
      if Has(combined, k) && combined[|combined| - 1].0 != k {
        var i :| 0 <= i < |combined| && combined[i].0 == k;
        assert init[i].0 == k;
      }
    }
  }

  ghost predicate LastOf(combined: seq<KV>, i: int, k: string) {
    0 <= i < |combined| && combined[i].0 == k && forall j :: i < j < |combined| ==> combined[j].0 != k
  }

  /** After refilling, a key that was emitted has the last value emitted for it. */
  lemma {:induction false} LastValueWins(combined: seq<KV>, i: int, k: string)
    requires LastOf(combined, i, k)
    ensures k in Refill(map[], combined) && Refill(map[], combined)[k] == combined[i].1
  {
    var n := |combined| - 1;
    if i < n { LastValueWins(combined[..n], i, k); }
  }

  /** And no other key is there. */
  lemma {:induction false} OnlyEmitted(combined: seq<KV>, k: string)
    requires forall i :: 0 <= i < |combined| ==> combined[i].0 != k
    ensures k !in Refill(map[], combined)
  {
    if combined != [] { OnlyEmitted(combined[..|combined| - 1], k); }
  }

  lemma RefilledSame(combined: seq<KV>, buffer: map<string, int>)
    requires ListsEntries(combined, buffer, buffer.Keys)
    ensures Refill(map[], combined) == buffer
  {
    hide Has, Refill;
    forall k ensures k in Refill(map[], combined) <==> k in buffer
      ensures k in buffer ==> k in Refill(map[], combined) && Refill(map[], combined)[k] == buffer[k]
    {
      RefillLookup(combined, buffer, k);
      if Has(combined, k) { HasEntry(combined, k); }
    }
  }

  lemma HasEntry(combined: seq<KV>, k: string)
    requires Has(combined, k)
    ensures exists i :: 0 <= i < |combined| && combined[i].0 == k
  {
  }

  lemma OneMore(combined: seq<KV>, buffer: map<string, int>, keys: set<string>, k: string)
    requires ListsEntries(combined, buffer, keys) && k in buffer
    ensures ListsEntries(combined + [(k, buffer[k])], buffer, keys + {k})
  {
    var more := combined + [(k, buffer[k])];
    assert more[|combined|].0 == k;
    forall other | other in keys ensures Has(more, other) {
      var i :| 0 <= i < |combined| && combined[i].0 == other;
      assert more[i].0 == other;
    }
  }

  lemma SumOfOneValue(k: string, v: int)
    ensures SumReducer(k, [v]) == [(k, v)]
  {
    assert [v][..0] == [];
    assert Sum([v]) == Sum([]) + v;
  }

  /** What the combiner emits for the entries of the keys, in that order. */
  function Combined(combiner: Reducer, order: seq<string>, buffer: map<string, int>): seq<KV>
    requires forall i :: 0 <= i < |order| ==> order[i] in buffer
  {
    if order == [] then []
    else
      var k := order[|order| - 1];
      Combined(combiner, order[..|order| - 1], buffer) + combiner(k, [buffer[k]])
  }

  ghost predicate Ascending(order: seq<string>) {
    forall i, j :: 0 <= i < j < |order| ==> StrLess(order[i], order[j])
  }

  /** The keys of the buffer in the order of the sorted map. */
  ghost predicate KeyOrder(order: seq<string>, buffer: map<string, int>) {
    Ascending(order) && (forall i :: 0 <= i < |order| ==> order[i] in buffer) && forall k :: k in buffer ==> k in order
  }

  /** A flush through any combiner: the buffer is refilled with what it emits, the last value of a key wins. */
  function Flushed(combiner: Reducer, order: seq<string>, buffer: map<string, int>): map<string, int>
    requires forall i :: 0 <= i < |order| ==> order[i] in buffer
  {
    Refill(map[], Combined(combiner, order, buffer))
  }

  lemma {:induction false} SummedEntries(combiner: Reducer, order: seq<string>, buffer: map<string, int>)
    requires Sums(combiner) && forall i :: 0 <= i < |order| ==> order[i] in buffer
    ensures ListsEntries(Combined(combiner, order, buffer), buffer, set k | k in order)
  {
    hide ListsEntries, Sums, SumReducer;
    if order == [] {
      NothingListed(buffer);
      assert (set k: string | k in order) == {};
    } else {
      var init, k := order[..|order| - 1], order[|order| - 1];
      assert order == init + [k];
      SummedEntries(combiner, init, buffer);
      SumsOne(combiner, k, buffer[k]);
      SumOfOneValue(k, buffer[k]);
      OneMore(Combined(combiner, init, buffer), buffer, (set x | x in init), k);
      assert (set x | x in order) == (set x | x in init) + {k};
    }
  }

  /** With a summing combiner a flush changes nothing. */
  lemma SummedFlush(combiner: Reducer, order: seq<string>, buffer: map<string, int>)
    requires Sums(combiner) && KeyOrder(order, buffer)
    ensures Flushed(combiner, order, buffer) == buffer
  {
    hide ListsEntries, Sums, Ascending;
    SummedEntries(combiner, order, buffer);
    assert (set k | k in order) == buffer.Keys;
    RefilledSame(Combined(combiner, order, buffer), buffer);
  }

  class CombiningCollector {
    var buffer: map<string, int>
    const combiner: Option<Reducer>
    const flushThreshold: int
    ghost var collected: seq<KV>

    /** Every entry is the total of the values collected for its key. */
    ghost predicate HoldsTotals()
      reads this
    {
      BufferIsTotals(buffer, collected)
    }

    constructor (combiner: Option<Reducer>, flushThreshold: int)
      ensures HoldsTotals() && collected == [] && buffer == map[]
      ensures this.combiner == combiner && this.flushThreshold == flushThreshold
    {
      buffer, collected := map[], [];
      this.combiner, this.flushThreshold := combiner, flushThreshold;
    }

    /** Adds the value and, at the threshold, flushes; `order` is the key order of that flush. */
    method Collect(key: string, value: int) returns (ghost order: seq<string>)
      modifies this
      ensures collected == old(collected) + [(key, value)]
      ensures var added := Collected(old(buffer), (key, value));
              if |added| >= flushThreshold && combiner.Some? then
                KeyOrder(order, added) && buffer == Flushed(combiner.value, order, added)
              else buffer == added
      ensures old(HoldsTotals()) && (combiner.Some? ==> Sums(combiner.value)) ==> HoldsTotals()
    {
      hide BufferIsTotals, Sums, KeyOrder, Flushed;
      if HoldsTotals() { CollectedTotals(buffer, collected, (key, value)); }
      buffer := buffer[key := (if key in buffer then buffer[key] else 0) + value];
      collected := collected + [(key, value)];
      order := [];
      if |buffer| >= flushThreshold && combiner.Some? {
        AddedKey(old(buffer), key, value);
        order := Flush();
      }
    }

    /** Combines every entry in key order and fills the buffer again. */
    method Flush() returns (ghost order: seq<string>)
      modifies `buffer
      ensures if combiner.None? || old(buffer) == map[] then buffer == old(buffer)
              else KeyOrder(order, old(buffer)) && buffer == Flushed(combiner.value, order, old(buffer))
      ensures (combiner.Some? ==> Sums(combiner.value)) ==> buffer == old(buffer)
    {
      hide Sums, SumReducer, StrLess, Refill;
      order := [];
      if combiner.None? || buffer == map[] { return; }
      var combined: seq<KV> := [];
      var keys := buffer.Keys;
      while keys != {}
        invariant keys <= buffer.Keys && buffer == old(buffer)
        invariant Ascending(order) && forall i :: 0 <= i < |order| ==> order[i] in buffer
        invariant forall k :: k in buffer ==> k in order || k in keys
        invariant forall i, k :: 0 <= i < |order| && k in keys ==> StrLess(order[i], k)
        invariant combined == Combined(combiner.value, order, buffer)
        decreases keys
      {
        LeastKey(keys);
        var k :| k in keys && IsLeast(k, keys);
        assert (order + [k])[..|order|] == order;
        combined := combined + combiner.value(k, [buffer[k]]);
        order := order + [k];
        LeastRest(k, keys);
        keys := keys - {k};
      }
      if Sums(combiner.value) { SummedFlush(combiner.value, order, buffer); }
      buffer := PutAll(combined);
    }
  }

  lemma AddedKey(buffer: map<string, int>, key: string, value: int)
    ensures buffer[key := value] != map[]
  {
    assert key in buffer[key := value];
  }

  predicate IsLeast(k: string, keys: set<string>) {
    forall other :: other in keys ==> StrLeq(k, other)
  }

  lemma {:induction false} LeastKey(keys: set<string>)
    requires keys != {}
    ensures exists k :: k in keys && IsLeast(k, keys)
    decreases keys
  {
    hide StrLeq;
    var k :| k in keys;
    StrLeqTotal(k, k);
    if keys == {k} {
      assert IsLeast(k, keys);
    } else {
      var rest := keys - {k};
      assert keys == rest + {k};
      LeastKey(rest);
      var least :| least in rest && IsLeast(least, rest);
      StrLeqTotal(k, least);
      forall other | other in rest && StrLeq(k, least) ensures StrLeq(k, other) { StrLeqTransitive(k, least, other); }
      assert IsLeast(if StrLeq(k, least) then k else least, keys);
    }
  }

  lemma LeastRest(k: string, keys: set<string>)
    requires IsLeast(k, keys)
    ensures forall other :: other in keys - {k} ==> StrLess(k, other)
  {
    hide StrLeq;
  }

  lemma SumsOne(combiner: Reducer, k: string, v: int)
    requires Sums(combiner)
    ensures combiner(k, [v]) == SumReducer(k, [v])
  {
  }

  lemma NothingListed(buffer: map<string, int>)
    ensures ListsEntries([], buffer, {})
  {
  }

  method PutAll(combined: seq<KV>) returns (buffer: map<string, int>)
    ensures buffer == Refill(map[], combined)
  {
    buffer := map[];
    for i := 0 to |combined|
      invariant buffer == Refill(map[], combined[..i])
    {
      assert combined[..i + 1][..i] == combined[..i];
      buffer := buffer[combined[i].0 := combined[i].1];
    }
    assert combined[..|combined|] == combined;
  }

  ghost predicate BufferIsTotals(buffer: map<string, int>, collected: seq<KV>) {
    forall k :: (k in buffer <==> Has(collected, k)) && (k in buffer ==> buffer[k] == Total(collected, k))
  }

  lemma CollectedTotals(buffer: map<string, int>, collected: seq<KV>, p: KV)
    requires BufferIsTotals(buffer, collected)
    ensures BufferIsTotals(Collected(buffer, p), collected + [p])
  {
    hide Has, Total;
    forall k
      ensures Has(collected + [p], k) <==> Has(collected, k) || k == p.0
      ensures Total(collected + [p], k) == Total(collected, k) + if p.0 == k then p.1 else 0
    {
      TotalConcat(collected, [p], k);
      JustOne(p, k);
    }
    if p.0 !in buffer { AbsentTotal(collected, p.0); }
  }

  lemma JustOne(p: KV, k: string)
    ensures Has([p], k) <==> k == p.0
    ensures Total([p], k) == if p.0 == k then p.1 else 0
  {
    assert [p][1..] == [] && [p][0].0 == p.0;
  }
}
