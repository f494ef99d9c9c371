/** JobTracker::RunJob, the single-process job: partition, sort, optionally combine, group, reduce, sort. */
module JobTracker {
  import opened Sequences
  import opened Order
  import opened Tables
  import opened Text
  import opened InputFormat
  import opened LocalFiles
  import opened WordCount

  type Hash = string -> nat

  /** std::sort with a comparison on keys only: some key-sorted arrangement of the pairs. */
  type KeySort = seq<KV> -> seq<KV>

  ghost predicate SortsByKey(sort: KeySort) {
    forall s :: KeySorted(sort(s)) && multiset(sort(s)) == multiset(s)
  }

  /** HashPartitioner::GetPartition. */
  function GetPartition(k: string, partitions: int, hash: Hash): (p: int)
    requires partitions >= 1
    ensures 0 <= p < partitions
  {
    (hash(k) % 0x8000_0000) % partitions
  }

  function Bucket(s: seq<KV>, p: int, partitions: int, hash: Hash): seq<KV>
    requires partitions >= 1
  {
    if s == [] then []
    else (if GetPartition(s[0].0, partitions, hash) == p then [s[0]] else []) + Bucket(s[1..], p, partitions, hash)
  }

  function SortedPart(bucket: seq<KV>, sort: KeySort, combine: bool): seq<KV> {
    if combine then Grouped(sort(bucket), SumReducer) else sort(bucket)
  }

  function ReducePartition(bucket: seq<KV>, sort: KeySort, combine: bool, reduce: Reducer): seq<KV> {
    Grouped(SortedPart(bucket, sort, combine), reduce)
  }

  /** The reduce output of the first n partitions, in partition order. */
  function ReduceAll(outs: seq<KV>, n: int, partitions: int, hash: Hash, sort: KeySort, combine: bool,
                     reduce: Reducer): seq<KV>
    requires partitions >= 1
  {
    if n <= 0 then []
    else ReduceAll(outs, n - 1, partitions, hash, sort, combine, reduce)
         + ReducePartition(Bucket(outs, n - 1, partitions, hash), sort, combine, reduce)
  }

  /** The output file: one "key TAB value" line per pair. */
  function Render(t: seq<KV>): string {
    if t == [] then "" else Render(t[..|t| - 1]) + t[|t| - 1].0 + "\t" + IntText(t[|t| - 1].1) + "\n"
  }

  lemma BucketUnfold(s: seq<KV>, p: int, R: int, hash: Hash)
    requires R >= 1 && s != []
    ensures Bucket(s, p, R, hash)
         == (if GetPartition(s[0].0, R, hash) == p then [s[0]] else []) + Bucket(s[1..], p, R, hash)
  {
  }

  lemma BucketEmpty(p: int, R: int, hash: Hash)
    requires R >= 1
    ensures Bucket([], p, R, hash) == []
  {
  }

  lemma {:induction false} BucketConcat(a: seq<KV>, b: seq<KV>, p: int, R: int, hash: Hash)
    requires R >= 1
    ensures Bucket(a + b, p, R, hash) == Bucket(a, p, R, hash) + Bucket(b, p, R, hash)
  {
    hide *;
    if a == [] {
      BucketEmpty(p, R, hash);
      assert a + b == b;
    } else {
      BucketConcat(a[1..], b, p, R, hash);
      BucketUnfold(a, p, R, hash);
      assert (a + b)[1..] == a[1..] + b;
      BucketUnfold(a + b, p, R, hash);
    }
  }

  // ---- The methods --------------------------------------------------------------------------------

  /** The inner grouping loop: collect the values of the run that starts at `start`. */
  method ReadRun(part: seq<KV>, start: nat) returns (values: seq<int>, j: nat)
    requires start < |part|
    ensures j == start + RunLength(part[start..], part[start].0) && start < j <= |part|
    ensures values == Values(part[start..j])
  {
    var key := part[start].0;
    values, j := [], start;
    while j < |part| && part[j].0 == key
      invariant start <= j <= |part|
      invariant values == Values(part[start..j])
      invariant forall i :: start <= i < j ==> part[i].0 == key
    {
      values := values + [part[j].1];
      j := j + 1;
    }
    RunLengthIs(part[start..], key, j - start);
  }

  /** The outer grouping loop: each run of equal keys goes to the reducer. */
  method GroupReduce(part: seq<KV>, reduce: Reducer) returns (results: seq<KV>)
    ensures results == Grouped(part, reduce)
  {
    assert Grouped([], reduce) == [];
    hide *;
    results := [];
    var j := 0;
    assert part[0..] == part;
    while j < |part|
      invariant 0 <= j <= |part|
      invariant results + Grouped(part[j..], reduce) == Grouped(part, reduce)
    {
      var values, next := ReadRun(part, j);
      GroupedUnfold(part[j..], reduce);
      assert part[j..][..next - j] == part[j..next] && part[j..][next - j..] == part[next..];
      results := results + reduce(part[j].0, values);
      j := next;
    }
  }

  method WriteTable(t: seq<KV>) returns (text: string)
    ensures text == Render(t)
  {
    text := "";
    for i := 0 to |t|
      invariant text == Render(t[..i])
    {
      assert t[..i + 1][..i] == t[..i];
      text := text + t[i].0 + "\t" + IntText(t[i].1) + "\n";
    }
    assert t[..|t|] == t;
  }

  ghost predicate Partitioned(parts: seq<seq<KV>>, outs: seq<KV>, R: int, hash: Hash) {
    R >= 1 && |parts| == R && forall p :: 0 <= p < R ==> parts[p] == Bucket(outs, p, R, hash)
  }

  ghost predicate SortedParts(parts: seq<seq<KV>>, outs: seq<KV>, R: int, hash: Hash, sort: KeySort,
                              combined: bool)
  {
    R >= 1 && |parts| == R &&
    forall p :: 0 <= p < R ==> parts[p] == SortedPart(Bucket(outs, p, R, hash), sort, combined)
  }

  method EmptyParts(R: int, ghost hash: Hash) returns (parts: seq<seq<KV>>)
    requires R >= 1
    ensures Partitioned(parts, [], R, hash)
  {
    parts := seq(R, i => []);
  }

  lemma CollectOne(outs: seq<KV>, p: KV, R: int, hash: Hash, b: int)
    requires R >= 1
    ensures Bucket(outs + [p], b, R, hash)
         == if b == GetPartition(p.0, R, hash) then Bucket(outs, b, R, hash) + [p] else Bucket(outs, b, R, hash)
  {
    BucketConcat(outs, [p], b, R, hash);
    assert [p][1..] == [];
  }

  /** MapCollector::Collect. */
  method CollectPair(parts: seq<seq<KV>>, ghost collected: seq<KV>, pair: KV, R: int, hash: Hash)
    returns (r: seq<seq<KV>>)
    requires Partitioned(parts, collected, R, hash)
    ensures Partitioned(r, collected + [pair], R, hash)
  {
    hide Bucket, GetPartition;
    var q := GetPartition(pair.0, R, hash);
    forall b | 0 <= b < R
      ensures Bucket(collected + [pair], b, R, hash) == if b == q then parts[b] + [pair] else parts[b]
    {
      CollectOne(collected, pair, R, hash, b);
    }
    r := parts[q := parts[q] + [pair]];
  }

  /** MapCollector::Collect for each emitted pair in turn. */
  method Collect(partitioned: seq<seq<KV>>, ghost collected: seq<KV>, emitted: seq<KV>, R: int, hash: Hash)
    returns (r: seq<seq<KV>>)
    requires Partitioned(partitioned, collected, R, hash)
    ensures Partitioned(r, collected + emitted, R, hash)
  {
    hide *;
    r := partitioned;
    assert collected + emitted[..0] == collected;
    for i := 0 to |emitted|
      invariant Partitioned(r, collected + emitted[..i], R, hash)
    {
      r := CollectPair(r, collected + emitted[..i], emitted[i], R, hash);
      assert collected + emitted[..i] + [emitted[i]] == collected + emitted[..i + 1];
    }
    assert emitted[..|emitted|] == emitted;
  }

  /** The reader loop of the map phase. */
  method MapFile(mapper: Mapper, content: string, R: int, hash: Hash) returns (partitioned: seq<seq<KV>>)
    requires R >= 1
    ensures Partitioned(partitioned, MapOutput(mapper, content, 0), R, hash)
  {
    hide *;
    partitioned := EmptyParts(R, hash);
    var reader := new TextRecordReader(content);
    ghost var collected: seq<KV> := [];
    MapStart(mapper, content);
    while true
      invariant reader.Valid() && fresh(reader)
      invariant Partitioned(partitioned, collected, R, hash)
      invariant MapSoFar(mapper, content, collected, reader.rest, reader.pos)
      decreases |reader.rest|
    {
      ghost var rest, pos := reader.rest, reader.pos;
      var ok, key, value := reader.Next();
      if !ok {
        MapFinish(mapper, content, collected, pos);
        break;
      }
      MapStep(mapper, content, collected, rest, pos);
      var emitted := mapper(key, value);
      partitioned := Collect(partitioned, collected, emitted, R, hash);
      collected := collected + emitted;
    }
  }

  method SortPhase(parts: seq<seq<KV>>, sort: KeySort, ghost outs: seq<KV>, ghost R: int, ghost hash: Hash)
    returns (r: seq<seq<KV>>)
    requires Partitioned(parts, outs, R, hash)
    ensures SortedParts(r, outs, R, hash, sort, false)
  {
    r := parts;
    for i := 0 to |parts|
      invariant |r| == |parts|
      invariant forall p :: 0 <= p < i ==> r[p] == sort(parts[p])
      invariant forall p :: i <= p < |parts| ==> r[p] == parts[p]
    {
      r := r[i := sort(r[i])];
    }
  }

  method CombinePhase(parts: seq<seq<KV>>, ghost sort: KeySort, ghost outs: seq<KV>, ghost R: int,
                      ghost hash: Hash)
    returns (r: seq<seq<KV>>)
    requires SortedParts(parts, outs, R, hash, sort, false)
    ensures SortedParts(r, outs, R, hash, sort, true)
  {
    r := parts;
    for i := 0 to |parts|
      invariant |r| == |parts|
      invariant forall p :: 0 <= p < i ==> r[p] == Grouped(parts[p], SumReducer)
      invariant forall p :: i <= p < |parts| ==> r[p] == parts[p]
    {
      hide Grouped;
      var combined := GroupReduce(r[i], SumReducer);
      r := r[i := combined];
    }
  }

  method ReducePhase(parts: seq<seq<KV>>, reduce: Reducer, ghost outs: seq<KV>, ghost R: int, ghost hash: Hash,
                     ghost sort: KeySort, ghost combine: bool)
    returns (allResults: seq<KV>)
    requires SortedParts(parts, outs, R, hash, sort, combine)
    ensures allResults == ReduceAll(outs, R, R, hash, sort, combine, reduce)
  {
    allResults := [];
    for i := 0 to |parts|
      invariant allResults == ReduceAll(outs, i, R, hash, sort, combine, reduce)
    {
      hide Grouped, Bucket;
      var results := GroupReduce(parts[i], reduce);
      allResults := allResults + results;
    }
  }

  class JobTracker {
    const files: FileStore
    var inputPath: string
    var outputPath: string
    var numReduceTasks: int
    var mapper: Mapper
    var reducer: Reducer
    var useCombiner: bool
    var jobDone: bool

    constructor (files: FileStore)
      ensures this.files == files && !jobDone
    {
      this.files := files;
      inputPath, outputPath, numReduceTasks := "", "", 1;
      mapper, reducer, useCombiner := WordMap, SumReducer, false;
      jobDone := false;
    }

    method SubmitJob(inputPath: string, outputPath: string, numReduceTasks: int, mapper: Mapper,
                     reducer: Reducer, useCombiner: bool) returns (ok: bool)
      modifies this
      ensures ok && !jobDone
      ensures this.inputPath == inputPath && this.outputPath == outputPath
      ensures this.numReduceTasks == numReduceTasks && this.mapper == mapper && this.reducer == reducer
      ensures this.useCombiner == useCombiner
    {
      this.inputPath, this.outputPath, this.numReduceTasks := inputPath, outputPath, numReduceTasks;
      this.mapper, this.reducer, this.useCombiner := mapper, reducer, useCombiner;
      jobDone := false;
      ok := true;
    }

    /** The map phase: the reader loop, with every emitted pair put at the end of its partition. */
    method MapPhase(hash: Hash) returns (partitioned: seq<seq<KV>>)
      requires numReduceTasks >= 1
      ensures Partitioned(partitioned, MapOutput(mapper, files.Read(inputPath), 0), numReduceTasks, hash)
    {
      hide *;
      partitioned := MapFile(mapper, files.Read(inputPath), numReduceTasks, hash);
    }

    method RunJob(hash: Hash, sort: KeySort) returns (ok: bool)
      requires numReduceTasks >= 1
      modifies this`jobDone, files
      ensures ok && jobDone
      ensures files.files == old(files.files)[outputPath := Render(SortPairs(
                ReduceAll(MapOutput(mapper, old(files.Read(inputPath)), 0), numReduceTasks, numReduceTasks,
                          hash, sort, useCombiner, reducer)))]
    {
      hide MapOutput, ReduceAll, Bucket, Render, SortPairs, Partitioned, SortedParts;
      var partitioned := MapPhase(hash);
      ghost var outs := MapOutput(mapper, files.Read(inputPath), 0);
      ghost var R := numReduceTasks;
      partitioned := SortPhase(partitioned, sort, outs, R, hash);
      if useCombiner {
        partitioned := CombinePhase(partitioned, sort, outs, R, hash);
      }
      var allResults := ReducePhase(partitioned, reducer, outs, R, hash, sort, useCombiner);
      var text := WriteTable(SortPairs(allResults));
      files.files := files.files[outputPath := text];
      jobDone := true;
      ok := true;
    }
  }

  // ---- What the job computes ----------------------------------------------------------------------

  lemma {:induction false} BucketTotals(s: seq<KV>, p: int, partitions: int, hash: Hash, k: string)
    requires partitions >= 1
    ensures var here := GetPartition(k, partitions, hash) == p;
            Total(Bucket(s, p, partitions, hash), k) == (if here then Total(s, k) else 0) &&
            (Has(Bucket(s, p, partitions, hash), k) <==> here && Has(s, k))
  {
    if s != [] {
      var head := if GetPartition(s[0].0, partitions, hash) == p then [s[0]] else [];
      var rest := Bucket(s[1..], p, partitions, hash);
      BucketTotals(s[1..], p, partitions, hash, k);
      TotalConcat(head, rest, k);
      assert s == [s[0]] + s[1..];
      TotalConcat([s[0]], s[1..], k);
      assert [s[0]][1..] == [];
      assert Has([s[0]], k) <==> s[0].0 == k by { assert [s[0]][0] == s[0]; }
      assert Bucket(s, p, partitions, hash) == head + rest;
    }
  }

  /** One partition, combined or not, contributes the totals of the keys hashed to it. */
  lemma PartitionIsTable(bucket: seq<KV>, sort: KeySort, combine: bool)
    requires SortsByKey(sort)
    ensures Lists(ReducePartition(bucket, sort, combine, SumReducer), bucket)
  {
    var sorted := sort(bucket);
    GroupedSumIsTable(sorted);
    var t := Grouped(sorted, SumReducer);
    GroupedStrict(t);
    ListsPermutation(t, sorted, bucket);
  }

  lemma ListsPermutation(t: seq<KV>, a: seq<KV>, b: seq<KV>)
    requires Lists(t, a) && multiset(a) == multiset(b)
    ensures Lists(t, b)
  {
    forall k ensures Total(a, k) == Total(b, k) && Has(a, k) == Has(b, k) {
      TotalPermutation(a, b, k);
      if Has(a, k) { HasPermutation(a, b, k); }
      if Has(b, k) { HasPermutation(b, a, k); }
    }
  }

  ghost function Multiplicity(outs: seq<KV>, n: int, partitions: int, hash: Hash, p: KV): nat
    requires partitions >= 1
  {
    if GetPartition(p.0, partitions, hash) < n && Has(outs, p.0) && Total(outs, p.0) == p.1 then 1 else 0
  }

  lemma ReduceAllUnfold(outs: seq<KV>, n: int, partitions: int, hash: Hash, sort: KeySort, combine: bool,
                        reduce: Reducer)
    requires partitions >= 1
    ensures ReduceAll(outs, n, partitions, hash, sort, combine, reduce)
         == if n <= 0 then []
            else ReduceAll(outs, n - 1, partitions, hash, sort, combine, reduce)
                 + ReducePartition(Bucket(outs, n - 1, partitions, hash), sort, combine, reduce)
  {
  }

  lemma MultiplicityStep(outs: seq<KV>, n: int, partitions: int, hash: Hash, p: KV)
    requires partitions >= 1 && n >= 0
    ensures Multiplicity(outs, n, partitions, hash, p)
         == if n == 0 then 0
            else Multiplicity(outs, n - 1, partitions, hash, p)
                 + if GetPartition(p.0, partitions, hash) == n - 1 && Has(outs, p.0) && Total(outs, p.0) == p.1
                   then 1 else 0
  {
  }

  lemma {:induction false} PrefixListed(outs: seq<KV>, n: int, partitions: int, hash: Hash, sort: KeySort,
                                        combine: bool, p: KV)
    requires partitions >= 1 && SortsByKey(sort) && 0 <= n <= partitions
    ensures multiset(ReduceAll(outs, n, partitions, hash, sort, combine, SumReducer))[p]
         == Multiplicity(outs, n, partitions, hash, p)
  {
    hide *;
    ReduceAllUnfold(outs, n, partitions, hash, sort, combine, SumReducer);
    MultiplicityStep(outs, n, partitions, hash, p);
    if n > 0 {
      PrefixListed(outs, n - 1, partitions, hash, sort, combine, p);
      PartitionMultiplicity(outs, n - 1, partitions, hash, sort, combine, p);
    }
  }

  lemma PartitionMultiplicity(outs: seq<KV>, n: int, partitions: int, hash: Hash, sort: KeySort, combine: bool,
                              p: KV)
    requires partitions >= 1 && SortsByKey(sort)
    ensures multiset(ReducePartition(Bucket(outs, n, partitions, hash), sort, combine, SumReducer))[p]
         == if GetPartition(p.0, partitions, hash) == n && Has(outs, p.0) && Total(outs, p.0) == p.1 then 1 else 0
  {
    hide *;
    var bucket := Bucket(outs, n, partitions, hash);
    PartitionIsTable(bucket, sort, combine);
    BucketTotals(outs, n, partitions, hash, p.0);
    ListsAt(ReducePartition(bucket, sort, combine, SumReducer), bucket, p);
  }

  lemma ListsAt(t: seq<KV>, s: seq<KV>, p: KV)
    requires Lists(t, s)
    ensures multiset(t)[p] == if Has(s, p.0) && Total(s, p.0) == p.1 then 1 else 0
  {
  }

  /** The final result lists every key once with its total, sorted, for every reduce count, hash function,
      tie order of the sort, and with or without the combiner. */
  lemma RunJobTable(outs: seq<KV>, partitions: int, hash: Hash, sort: KeySort, combine: bool)
    requires partitions >= 1 && SortsByKey(sort)
    ensures var t := SortPairs(ReduceAll(outs, partitions, partitions, hash, sort, combine, SumReducer));
            IsTable(t, outs)
  {
    var r := ReduceAll(outs, partitions, partitions, hash, sort, combine, SumReducer);
    var t := SortPairs(r);
    forall p: KV ensures multiset(t)[p] == if Has(outs, p.0) && Total(outs, p.0) == p.1 then 1 else 0 {
      PrefixListed(outs, partitions, partitions, hash, sort, combine, p);
    }
    TableMeaning(t, outs);
  }

  /** What the user's reducer sees, whatever it does: in each partition it is called once for each key, in byte order,
      with all values of the key, or with their sum alone if the combiner is used. */
  lemma ReducerCalls(outs: seq<KV>, p: int, partitions: int, hash: Hash, sort: KeySort, combine: bool, reduce: Reducer)
    returns (keys: seq<string>, values: seq<seq<int>>)
    requires partitions >= 1 && SortsByKey(sort)
    ensures |values| == |keys|
    ensures ReducePartition(Bucket(outs, p, partitions, hash), sort, combine, reduce)
         == Flatten(seq(|keys|, i requires 0 <= i < |keys| => reduce(keys[i], values[i])))
    ensures forall i, j :: 0 <= i < j < |keys| ==> ByteLess(keys[i], keys[j])
    ensures forall k :: k in keys <==> Has(outs, k) && GetPartition(k, partitions, hash) == p
    ensures forall i :: 0 <= i < |keys| ==>
      if combine then values[i] == [Total(outs, keys[i])]
      else multiset(values[i]) == multiset(ValuesOf(outs, keys[i]))
  {
    hide Grouped, Bucket, GetPartition, Flatten, ByteLess, Has, Total, ValuesOf;
    var bucket := Bucket(outs, p, partitions, hash);
    var s := SortedPart(bucket, sort, combine);
    assert KeySorted(sort(bucket)) && multiset(sort(bucket)) == multiset(bucket);
    if combine {
      GroupedSumIsTable(sort(bucket));
      StrictKeysSorted(s);
      SortedIsKeySorted(s);
    }
    keys := GroupCalls(s, reduce);
    values := seq(|keys|, i requires 0 <= i < |keys| => ValuesOf(s, keys[i]));
    assert Calls(s, keys, reduce) == seq(|keys|, i requires 0 <= i < |keys| => reduce(keys[i], values[i]));
    forall k ensures k in keys <==> Has(outs, k) && GetPartition(k, partitions, hash) == p {
      KeysAreHad(s, keys, k);
      BucketTotals(outs, p, partitions, hash, k);
      SameKeys(bucket, s, sort, combine, k);
    }
    forall i | 0 <= i < |keys|
      ensures if combine then values[i] == [Total(outs, keys[i])]
              else multiset(values[i]) == multiset(ValuesOf(outs, keys[i]))
    {
      var k := keys[i];
      assert k in keys;
      KeysAreHad(s, keys, k);
      BucketTotals(outs, p, partitions, hash, k);
      if combine {
        OneValue(s, bucket, sort(bucket), k);
      } else {
        ValuesPermutation(sort(bucket), bucket, k);
        BucketValues(outs, p, partitions, hash, k);
      }
    }
  }

  lemma KeysAreHad(s: seq<KV>, keys: seq<string>, k: string)
    requires OnceEach(s, keys)
    ensures k in keys <==> Has(s, k)
  {
    hide ByteLess;
  }

  lemma SameKeys(bucket: seq<KV>, s: seq<KV>, sort: KeySort, combine: bool, k: string)
    requires SortsByKey(sort) && s == SortedPart(bucket, sort, combine)
    ensures Has(s, k) <==> Has(bucket, k)
  {
    hide Grouped, Total;
    var sorted := sort(bucket);
    if Has(sorted, k) { HasPermutation(sorted, bucket, k); }
    if Has(bucket, k) { HasPermutation(bucket, sorted, k); }
    if combine {
      GroupedSumIsTable(sorted);
      StrictKeysSorted(s);
      TableMeaning(s, sorted);
    }
  }

  /** In a table each key has one value, its total. */
  lemma OneValue(t: seq<KV>, bucket: seq<KV>, sorted: seq<KV>, k: string)
    requires IsTable(t, sorted) && multiset(sorted) == multiset(bucket) && Has(t, k)
    ensures ValuesOf(t, k) == [Total(bucket, k)]
  {
    hide ValuesOf, Total, Lists, StrictKeys;
    StrictKeysSorted(t);
    TableMeaning(t, sorted);
    TotalPermutation(sorted, bucket, k);
    var i :| 0 <= i < |t| && t[i].0 == k;
    OnlyValue(t, i);
  }

  lemma OnlyValue(t: seq<KV>, i: nat)
    requires StrictKeys(t) && i < |t|
    ensures ValuesOf(t, t[i].0) == [t[i].1]
  {
    hide ValuesOf, StrLeq;
    var k, before, one, after := t[i].0, t[..i], [t[i]], t[i + 1..];
    assert t == before + (one + after);
    ValuesConcat(before, one + after, k);
    ValuesConcat(one, after, k);
    forall j | 0 <= j < i ensures before[j].0 != k { assert StrLess(t[j].0, t[i].0); }
    forall j | 0 <= j < |after| ensures after[j].0 != k { assert StrLess(t[i].0, t[i + 1 + j].0); }
    NoValues(before, k);
    NoValues(after, k);
    RunValues(one, k);
    assert Values(one) == [t[i].1];
  }

  lemma {:induction false} ValuesPermutation(a: seq<KV>, b: seq<KV>, k: string)
    requires multiset(a) == multiset(b)
    ensures multiset(ValuesOf(a, k)) == multiset(ValuesOf(b, k))
  {
    assert |multiset(a)| == |a| && |multiset(b)| == |b|;
    if a != [] {
      assert a[0] in multiset(b);
      var i :| 0 <= i < |b| && b[i] == a[0];
      RemoveEqual(a, b, i);
      hide ValuesOf;
      ValuesPermutation(a[1..], b[..i] + b[i + 1..], k);
      ValuesWithout(b, i, k);
      ValuesWithout(a, 0, k);
      assert a[..0] + a[1..] == a[1..];
    }
  }

  lemma ValuesWithout(s: seq<KV>, i: nat, k: string)
    requires i < |s|
    ensures multiset(ValuesOf(s, k))
         == multiset(ValuesOf(s[..i] + s[i + 1..], k)) + if s[i].0 == k then multiset{s[i].1} else multiset{}
  {
    var before, one, after := s[..i], [s[i]], s[i + 1..];
    assert s == before + (one + after);
    assert ValuesOf(one, k) == if s[i].0 == k then [s[i].1] else [] by { assert one[1..] == []; }
    hide ValuesOf;
    ValuesConcat(before, one + after, k);
    ValuesConcat(one, after, k);
    ValuesConcat(before, after, k);
  }

  lemma {:induction false} BucketValues(s: seq<KV>, p: int, partitions: int, hash: Hash, k: string)
    requires partitions >= 1 && GetPartition(k, partitions, hash) == p
    ensures ValuesOf(Bucket(s, p, partitions, hash), k) == ValuesOf(s, k)
  {
    hide GetPartition;
    if s != [] {
      BucketUnfold(s, p, partitions, hash);
      BucketValues(s[1..], p, partitions, hash, k);
      var head := if GetPartition(s[0].0, partitions, hash) == p then [s[0]] else [];
      ValuesConcat(head, Bucket(s[1..], p, partitions, hash), k);
      assert [s[0]][1..] == [];
    }
  }

  function PartResults(outs: seq<KV>, n: nat, partitions: int, hash: Hash, sort: KeySort, combine: bool,
                       reduce: Reducer): seq<seq<KV>>
    requires partitions >= 1
  {
    seq(n, p requires 0 <= p < n => ReducePartition(Bucket(outs, p, partitions, hash), sort, combine, reduce))
  }

  /** The results of the partitions follow one another in their order. */
  lemma {:induction false} ReduceInOrder(outs: seq<KV>, n: nat, partitions: int, hash: Hash, sort: KeySort,
                                         combine: bool, reduce: Reducer)
    requires partitions >= 1
    ensures ReduceAll(outs, n, partitions, hash, sort, combine, reduce)
         == Flatten(PartResults(outs, n, partitions, hash, sort, combine, reduce))
  {
    hide ReducePartition, Bucket;
    if n > 0 {
      ReduceInOrder(outs, n - 1, partitions, hash, sort, combine, reduce);
      var last := ReducePartition(Bucket(outs, n - 1, partitions, hash), sort, combine, reduce);
      FlattenSnoc(PartResults(outs, n - 1, partitions, hash, sort, combine, reduce), last);
      assert PartResults(outs, n, partitions, hash, sort, combine, reduce)
          == PartResults(outs, n - 1, partitions, hash, sort, combine, reduce) + [last];
    }
  }

  /** The partition is the low 31 bits of the hash, modulo the number of partitions. */
  lemma PartitionOfHash(k: string, partitions: int, hash: Hash, high: nat, low: nat)
    requires partitions >= 1 && hash(k) == high * 0x8000_0000 + low && low < 0x8000_0000
    ensures GetPartition(k, partitions, hash) == low % partitions
  {
  }

  /** Two runs that differ in every implementation choice write the same table. */
  lemma RunJobIndependent(outs: seq<KV>, r1: int, h1: Hash, s1: KeySort, c1: bool,
                          r2: int, h2: Hash, s2: KeySort, c2: bool)
    requires r1 >= 1 && r2 >= 1 && SortsByKey(s1) && SortsByKey(s2)
    ensures SortPairs(ReduceAll(outs, r1, r1, h1, s1, c1, SumReducer))
         == SortPairs(ReduceAll(outs, r2, r2, h2, s2, c2, SumReducer))
  {
    RunJobTable(outs, r1, h1, s1, c1);
    RunJobTable(outs, r2, h2, s2, c2);
    TableUnique(SortPairs(ReduceAll(outs, r1, r1, h1, s1, c1, SumReducer)),
                SortPairs(ReduceAll(outs, r2, r2, h2, s2, c2, SumReducer)), outs);
  }

  /** Word count: the table pairs each word of the file, in strict byte order, with its number of occurrences. What
      that is as a file says WordCountFile below. */
  lemma RunJobCountsWords(content: string, partitions: int, hash: Hash, sort: KeySort, combine: bool)
    requires partitions >= 1 && SortsByKey(sort)
    ensures var t := SortPairs(ReduceAll(MapOutput(WordMap, content, 0), partitions, partitions, hash, sort,
                                         combine, SumReducer));
            StrictKeys(t) &&
            (forall w :: Has(t, w) <==> w in Tokens(content)) &&
            (forall i :: 0 <= i < |t| ==> t[i].1 == Occurrences(Tokens(content), t[i].0))
  {
    var outs := MapOutput(WordMap, content, 0);
    var t := SortPairs(ReduceAll(outs, partitions, partitions, hash, sort, combine, SumReducer));
    WordMapOutput(content, 0);
    RunJobTable(outs, partitions, hash, sort, combine);
    TableMeaning(t, outs);
    forall w ensures Total(outs, w) == Occurrences(Tokens(content), w) && (Has(outs, w) <==> w in Tokens(content)) {
      TotalOfOnes(Tokens(content), w);
    }
  }

  // ---- The file -------------------------------------------------------------------------------------------

  function Row(pair: KV): string {
    pair.0 + "\t" + IntText(pair.1) + "\n"
  }

  lemma {:induction false} RenderHead(t: seq<KV>)
    requires t != []
    ensures Render(t) == Row(t[0]) + Render(t[1..])
  {
    hide IntText;
    var n := |t| - 1;
    if n == 0 {
      assert t[..0] == [] && t[1..] == [];
      assert Render(t) == "" + t[0].0 + "\t" + IntText(t[0].1) + "\n";
    } else {
      RenderHead(t[..n]);
      assert t[..n][1..] == t[1..][..n - 1];
      assert Render(t) == Render(t[..n]) + Row(t[n]) by { RenderLast(t); }
      assert Render(t[1..]) == Render(t[1..][..n - 1]) + Row(t[n]) by { RenderLast(t[1..]); }
    }
  }

  lemma RenderLast(t: seq<KV>)
    requires t != []
    ensures Render(t) == Render(t[..|t| - 1]) + Row(t[|t| - 1])
  {
    hide IntText;
    var last := t[|t| - 1];
    Regroup(Render(t[..|t| - 1]), last.0, IntText(last.1));
  }

  lemma Regroup(before: string, key: string, number: string)
    ensures before + key + "\t" + number + "\n" == before + (key + "\t" + number + "\n")
  {
  }

  function RowsOf(keys: seq<string>, numbers: seq<int>): seq<string>
    requires |numbers| == |keys|
  {
    seq(|keys|, i requires 0 <= i < |keys| => keys[i] + "\t" + IntText(numbers[i]) + "\n")
  }

  /** The text is one line for each key: the key, a tab, its number in decimal, a newline. */
  ghost predicate LinesOf(text: string, keys: seq<string>, numbers: seq<int>) {
    |numbers| == |keys| && text == Flatten(RowsOf(keys, numbers))
  }

  function KeysOf(t: seq<KV>): seq<string> {
    seq(|t|, i requires 0 <= i < |t| => t[i].0)
  }

  lemma {:induction false} RenderLines(t: seq<KV>)
    ensures LinesOf(Render(t), KeysOf(t), Values(t))
  {
    hide IntText, Render;
    var rows := RowsOf(KeysOf(t), Values(t));
    if t == [] {
      RenderNothing();
    } else {
      RenderHead(t);
      RenderLines(t[1..]);
      assert rows[0] == Row(t[0]);
      assert rows[1..] == RowsOf(KeysOf(t[1..]), Values(t[1..]));
    }
  }

  lemma RenderNothing()
    ensures Render([]) == ""
  {
  }

  /** The output of word count: the words of the input, in byte order, each on its own line with a tab and the number
      of times it occurs. */
  lemma WordCountFile(content: string, partitions: int, hash: Hash, sort: KeySort, combine: bool, gaps: seq<string>,
                      words: seq<string>)
    returns (keys: seq<string>)
    requires partitions >= 1 && SortsByKey(sort) && WordsOf(content, gaps, words)
    ensures LinesOf(Render(SortPairs(ReduceAll(MapOutput(WordMap, content, 0), partitions, partitions, hash, sort,
                                               combine, SumReducer))),
                    keys, seq(|keys|, i requires 0 <= i < |keys| => multiset(words)[keys[i]]))
    ensures forall w :: w in keys <==> w in words
    ensures forall i, j :: 0 <= i < j < |keys| ==> ByteLess(keys[i], keys[j])
  {
    hide Has, MapOutput, ReduceAll, SortPairs, Render, LinesOf, WordsOf, Fields, ByteLess, Occurrences, StrLess;
    var t := SortPairs(ReduceAll(MapOutput(WordMap, content, 0), partitions, partitions, hash, sort, combine,
                                 SumReducer));
    var _ := TokensAreWords(content);
    assert words == Tokens(content);
    RunJobCountsWords(content, partitions, hash, sort, combine);
    RenderLines(t);
    keys := KeysOf(t);
    forall i | 0 <= i < |t| ensures t[i].1 == multiset(words)[t[i].0] { OccurrencesAre(words, t[i].0); }
    assert Values(t) == seq(|keys|, i requires 0 <= i < |keys| => multiset(words)[keys[i]]);
    forall w ensures w in keys <==> w in words { HadKeys(t, w); }
    forall i, j | 0 <= i < j < |keys| ensures ByteLess(keys[i], keys[j]) { StrLessIff(t[i].0, t[j].0); }
  }

  lemma HadKeys(t: seq<KV>, w: string)
    ensures w in KeysOf(t) <==> Has(t, w)
  {
    if w in KeysOf(t) {
      var i :| 0 <= i < |t| && KeysOf(t)[i] == w;
      assert t[i].0 == w;
    }
    if Has(t, w) {
      var i :| 0 <= i < |t| && t[i].0 == w;
      assert KeysOf(t)[i] == w;
    }
  }

  /** For example, whatever the partitions, the hash, the sort and the combiner setting. */
  lemma WordCountExample(partitions: int, hash: Hash, sort: KeySort, combine: bool)
    requires partitions >= 1 && SortsByKey(sort)
    ensures Render(SortPairs(ReduceAll(MapOutput(WordMap, "b a\tb\n", 0), partitions, partitions, hash, sort, combine,
                                       SumReducer))) == "a\t1\nb\t2\n"
  {
    hide Render, SortPairs, ReduceAll, MapOutput, IntText;
    var gaps, words := ["", " ", "\t", "\n"], ["b", "a", "b"];
    ThreeWords();
    hide Woven, WordsOf, ByteLess;
    var keys := WordCountFile("b a\tb\n", partitions, hash, sort, combine, gaps, words);
    TwoKeys(keys, words);
    var numbers := seq(|keys|, i requires 0 <= i < |keys| => multiset(words)[keys[i]]);
    assert numbers == [1, 2];
    Digits();
    assert "a" + "\t" + "1" + "\n" == "a\t1\n" && "b" + "\t" + "2" + "\n" == "b\t2\n";
    assert RowsOf(keys, numbers) == ["a\t1\n", "b\t2\n"];
    assert ["a\t1\n", "b\t2\n"][1..] == ["b\t2\n"] && ["b\t2\n"][1..] == [];
  }

  lemma ThreeWords()
    ensures WordsOf("b a\tb\n", ["", " ", "\t", "\n"], ["b", "a", "b"])
  {
    var gaps, words := ["", " ", "\t", "\n"], ["b", "a", "b"];
    assert gaps[1..] == [" ", "\t", "\n"] && gaps[1..][1..] == ["\t", "\n"] && gaps[1..][1..][1..] == ["\n"];
    assert words[1..] == ["a", "b"] && words[1..][1..] == ["b"] && words[1..][1..][1..] == [];
    assert Woven(["\n"], []) == "\n" && Woven(["\t", "\n"], ["b"]) == "\tb\n";
    assert Woven([" ", "\t", "\n"], ["a", "b"]) == " a\tb\n";
  }

  lemma Digits()
    ensures IntText(1) == "1" && IntText(2) == "2"
  {
    DecimalText(0, 1);
    DecimalText(0, 2);
  }

  lemma TwoKeys(keys: seq<string>, words: seq<string>)
    requires words == ["b", "a", "b"] && forall w :: w in keys <==> w in words
    requires forall i, j :: 0 <= i < j < |keys| ==> ByteLess(keys[i], keys[j])
    ensures keys == ["a", "b"]
  {
    assert "a" in words && "b" in words;
    var i :| 0 <= i < |keys| && keys[i] == "a";
    var j :| 0 <= j < |keys| && keys[j] == "b";
    WhichKey(keys, words, i, j, 0);
    if |keys| > 1 { WhichKey(keys, words, i, j, 1); }
    if |keys| > 2 { WhichKey(keys, words, i, j, 2); }
    assert !ByteLess("b", "a");
  }

  lemma WhichKey(keys: seq<string>, words: seq<string>, i: nat, j: nat, k: nat)
    requires words == ["b", "a", "b"] && forall w :: w in keys <==> w in words
    requires forall i, j :: 0 <= i < j < |keys| ==> ByteLess(keys[i], keys[j])
    requires i < |keys| && j < |keys| && k < |keys| && keys[i] == "a" && keys[j] == "b"
    ensures k == i || k == j
  {
    assert keys[k] in keys;
    assert !ByteLess("a", "a") && !ByteLess("b", "b");
  }
}
