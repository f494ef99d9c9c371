/** The output file of the distributed job: what it contains, and when it does not depend on the interleaving. */
module DistOutput {
  import opened Order
  import opened Tables
  import opened Text
  import opened InputFormat
  import opened WordCount
  import opened DistJobTracker
  import opened JobTracker
  import opened TaskTracker
  import opened DistSystem
  import opened DistInvariant
  import opened DistTheorems

  /** Once the job is done, the output is that of the reduce that wrote last, after it got some number of locations;
      that is all of them if no fetch failed. */
  lemma DoneOutput(c: Config, s: System)
    requires Reachable(c, s) && s.jt.done && c.reduces >= 1
    ensures 0 <= s.lastWriter < c.reduces
    ensures s.files == c.files[c.outputPath := OutputOf(c, s.lastWriter, s.lastGot)]
    ensures s.lastGot <= Locations(c) && (s.missed == 0 ==> s.lastGot == Locations(c))
  {
    hide QueueInv, TasksInv, CountsInv, OrderInv, StoresInv, ReducesInv, DoneInv, OutputOf, Poll, ApplyPoll, Locations;
    ReachableInv(c, s);
    DoneMeansAllReported(c, s, ("", 0));
    assert s.threads[Maps(c)].stage.Reported?;
  }

  /** With nothing emitted there is no location, and any number of them comes to the same. */
  lemma AllLocations(c: Config, r: int)
    ensures OutputOf(c, r, Locations(c)) == OutputOf(c, r, Maps(c))
  {
    hide Emitted, ReduceText, SortPairs;
    if Emitted(c) == [] {
      SortedEmittedEmpty(c);
      RepeatEmpty(Maps(c));
    }
  }

  lemma {:induction false} RepeatEmpty(n: nat)
    ensures Repeat([], n) == []
  {
    if n > 0 { RepeatEmpty(n - 1); }
  }

  /** The table of the output of n maps with the summing reducer. */
  function DistTable(c: Config, n: nat): seq<KV> {
    Grouped(SortPairs(Repeat(SortedEmitted(c), n)), SumReducer)
  }

  lemma {:induction false} RepeatTotals(s: seq<KV>, n: nat, k: string)
    ensures Total(Repeat(s, n), k) == n * Total(s, k)
    ensures Has(Repeat(s, n), k) <==> n > 0 && Has(s, k)
  {
    hide Has;
    if n == 0 {
      assert !Has([], k) by { NothingHas(k); }
    } else {
      RepeatTotals(s, n - 1, k);
      TotalConcat(Repeat(s, n - 1), s, k);
    }
  }

  lemma NothingHas(k: string)
    ensures !Has([], k)
  {
  }

  lemma EmittedTotals(c: Config, k: string)
    ensures Total(SortedEmitted(c), k) == Total(Emitted(c), k) && (Has(SortedEmitted(c), k) <==> Has(Emitted(c), k))
  {
    hide Emitted, SortPairs, Total, Has;
    TotalPermutation(SortedEmitted(c), Emitted(c), k);
    if Has(SortedEmitted(c), k) { HasPermutation(SortedEmitted(c), Emitted(c), k); }
    if Has(Emitted(c), k) { HasPermutation(Emitted(c), SortedEmitted(c), k); }
  }

  /** Every key emitted, in strict order, with n times its total over the input. */
  lemma DistTableMeaning(c: Config, n: nat)
    ensures StrictKeys(DistTable(c, n))
    ensures forall k :: Has(DistTable(c, n), k) <==> n > 0 && Has(Emitted(c), k)
    ensures forall i :: 0 <= i < |DistTable(c, n)| ==>
      DistTable(c, n)[i].1 == n * Total(Emitted(c), DistTable(c, n)[i].0)
  {
    hide SortPairs, Grouped, Emitted, SortedEmitted, Total, Has, Lists, StrictKeys, Sorted, KeySorted;
    var data := Repeat(SortedEmitted(c), n);
    var sorted := SortPairs(data);
    SortedIsKeySorted(sorted);
    GroupedSumIsTable(sorted);
    ListsPermutation(DistTable(c, n), sorted, data);
    StrictKeysSorted(DistTable(c, n));
    TableMeaning(DistTable(c, n), data);
    forall k
      ensures Total(data, k) == n * Total(Emitted(c), k)
      ensures Has(data, k) <==> n > 0 && Has(Emitted(c), k)
    {
      EmittedTotals(c, k);
      RepeatTotals(SortedEmitted(c), n, k);
    }
  }

  /** For word count: each word of the input once, in strict byte order, with n times its number of occurrences. */
  lemma WordTable(c: Config, n: nat)
    requires c.mapper == WordMap
    ensures StrictKeys(DistTable(c, n))
    ensures var words := Tokens(ReadFile(c.files, c.inputPath));
            (forall w :: Has(DistTable(c, n), w) <==> n > 0 && w in words) &&
            forall i :: 0 <= i < |DistTable(c, n)| ==>
              DistTable(c, n)[i].1 == n * Occurrences(words, DistTable(c, n)[i].0)
  {
    hide SortPairs, Grouped, SortedEmitted, Total, Has, StrictKeys, Fields, Occurrences, MapOutput, Ones, ReadFile,
         DistTable;
    DistTableMeaning(c, n);
    var content := ReadFile(c.files, c.inputPath);
    WordMapOutput(content, 0);
    forall w ensures Total(Emitted(c), w) == Occurrences(Tokens(content), w) &&
                     (Has(Emitted(c), w) <==> w in Tokens(content))
    {
      TotalOfOnes(Tokens(content), w);
    }
  }

  /** And as a file: each word on its own line, in byte order, with a tab and n times its number of occurrences. */
  lemma WordTableFile(c: Config, n: nat, gaps: seq<string>, words: seq<string>) returns (keys: seq<string>)
    requires c.mapper == WordMap && WordsOf(ReadFile(c.files, c.inputPath), gaps, words)
    ensures LinesOf(Render(DistTable(c, n)), keys,
                    seq(|keys|, i requires 0 <= i < |keys| => n * multiset(words)[keys[i]]))
    ensures forall w :: w in keys <==> n > 0 && w in words
    ensures forall i, j :: 0 <= i < j < |keys| ==> ByteLess(keys[i], keys[j])
  {
    hide Has, Render, LinesOf, WordsOf, Fields, ByteLess, Occurrences, StrLess, DistTable, ReadFile;
    var t := DistTable(c, n);
    var _ := TokensAreWords(ReadFile(c.files, c.inputPath));
    assert words == Tokens(ReadFile(c.files, c.inputPath));
    WordTable(c, n);
    RenderLines(t);
    keys := KeysOf(t);
    forall i | 0 <= i < |t| ensures t[i].1 == n * multiset(words)[t[i].0] { OccurrencesAre(words, t[i].0); }
    assert Values(t) == seq(|keys|, i requires 0 <= i < |keys| => n * multiset(words)[keys[i]]);
    forall w ensures w in keys <==> n > 0 && w in words { HadKeys(t, w); }
    forall i, j | 0 <= i < j < |keys| ensures ByteLess(keys[i], keys[j]) { StrLessIff(t[i].0, t[j].0); }
  }

  /** Word count with one reduce: on every interleaving the finished file is the table of as many maps as the reduce
      got locations, which is all M of them if no fetch failed. */
  lemma WordCountOutput(c: Config, s: System)
    requires Reachable(c, s) && s.jt.done && c.reduces == 1 && c.mapper == WordMap && c.reducer == SumReducer
    ensures s.files == c.files[c.outputPath := Render(DistTable(c, s.lastGot))] && s.lastGot <= Maps(c)
    ensures s.missed == 0 ==> s.files == c.files[c.outputPath := Render(DistTable(c, Maps(c)))]
  {
    hide Reachable, DistTable, Render, Emitted, OutputOf;
    DoneOutput(c, s);
    SingleOutput(c, s.lastGot);
    SingleOutput(c, Maps(c));
    AllLocations(c, 0);
  }

  /** With one map and one reduce, and no failed fetch, the file equals the one the single-process job writes,
      whatever that job's partition count, hash, sort and combiner setting. */
  lemma SameAsSingleProcess(c: Config, s: System, partitions: int, hash: Hash, sort: KeySort, combine: bool)
    requires Reachable(c, s) && s.jt.done && c.maps == 1 && c.reduces == 1 && c.reducer == SumReducer && s.missed == 0
    requires partitions >= 1 && SortsByKey(sort)
    ensures s.files == c.files[c.outputPath := Render(SortPairs(
              ReduceAll(Emitted(c), partitions, partitions, hash, sort, combine, SumReducer)))]
  {
    hide *;
    DoneOutput(c, s);
    assert s.lastWriter == 0;
    AllLocations(c, 0);
    RunJobTable(Emitted(c), partitions, hash, sort, combine);
    var t := SortPairs(ReduceAll(Emitted(c), partitions, partitions, hash, sort, combine, SumReducer));
    OneMapTable(c, t);
  }

  lemma OneMapTable(c: Config, t: seq<KV>)
    requires c.maps == 1 && c.reducer == SumReducer && IsTable(t, Emitted(c)) && Sorted(t)
    ensures OutputOf(c, 0, Maps(c)) == Render(t)
  {
    hide SortPairs, Grouped, Emitted, Total, Has, Lists, StrictKeys, Sorted, KeySorted, Render;
    var data := SortedEmitted(c);
    assert Repeat(data, 1) == [] + data == data by { assert Repeat(data, 0) == []; }
    var sorted := SortPairs(data);
    SortedIsKeySorted(sorted);
    GroupedSumIsTable(sorted);
    ListsPermutation(DistTable(c, 1), sorted, Emitted(c));
    StrictKeysSorted(DistTable(c, 1));
    TableUnique(DistTable(c, 1), t, Emitted(c));
  }

  // ---- Several reduces share one output path --------------------------------------------------------------

  lemma OtherPartitionsWriteNothing(c: Config, r: int, n: nat)
    requires r != 0
    ensures OutputOf(c, r, n) == ""
  {
  }

  /** When a second reduce exists the first has run, and if the second has run it did not write before it. */
  ghost predicate SecondWritesLater(c: Config, s: System) {
    |s.threads| > Maps(c) + 1 ==>
      !s.threads[Maps(c)].stage.Working? && (!s.threads[Maps(c) + 1].stage.Working? ==> s.lastWriter != 0)
  }

  lemma ThreadKeepsOrder(c: Config, s: System, i: nat, up: bool)
    requires TasksInv(c, s) && SecondWritesLater(c, s) && i < |s.threads|
    requires Enabled(c, s, ThreadAction(s.threads[i], i, up))
    ensures SecondWritesLater(c, Apply(c, s, ThreadAction(s.threads[i], i, up)))
  {
    hide MapStore, ReduceText, Parts, Completed, Fetched, NewMapTask, MapTaskId, ReduceTaskId, Emitted, ReadFile;
    MapThreadIndex(c, s, i);
  }

  lemma PollKeepsOrder(c: Config, s: System, addr: Addr)
    requires QueueInv(c, s) && SecondWritesLater(c, s)
    requires forall j :: 0 <= j < |s.threads| ==> s.threads[j].stage.Reported?
    ensures SecondWritesLater(c, ApplyPoll(s, addr))
  {
    hide ApplyPoll, NewMapTasks, NewMapTask, MapTaskId, ReduceTaskId;
    PollCases(c, s, addr);
  }

  lemma NextActionKeepsOrder(c: Config, s: System, addr: Addr, up: bool)
    requires Inv(c, s) && SecondWritesLater(c, s) && Enabled(c, s, NextAction(s, addr, up))
    ensures SecondWritesLater(c, Apply(c, s, NextAction(s, addr, up)))
  {
    hide SecondWritesLater, QueueInv, TasksInv, OrderInv, CountsInv, StoresInv, ReducesInv, FilesInv, DoneInv,
         ApplyPoll, ThreadAction;
    var i := FirstUnreported(s.threads);
    if i < |s.threads| { ThreadKeepsOrder(c, s, i, up); } else { PollKeepsOrder(c, s, addr); }
  }

  /** Nothing was fetched so far. */
  ghost predicate NothingGot(s: System) {
    s.lastGot == 0 && forall j :: 0 <= j < |s.threads| && s.threads[j].stage.Working? ==> s.threads[j].stage.got == 0
  }

  lemma NextActionMisses(c: Config, s: System, addr: Addr, up: bool)
    requires Inv(c, s) && Enabled(c, s, NextAction(s, addr, up))
    ensures up ==> Apply(c, s, NextAction(s, addr, up)).missed == s.missed
    ensures !up && c.reduces == 1 && NothingGot(s) ==> NothingGot(Apply(c, s, NextAction(s, addr, up)))
  {
    hide CountsInv, OrderInv, StoresInv, ReducesInv, FilesInv, DoneInv, Repeat, Emitted, SortedEmitted, MapStore,
         ReduceText, Parts, PartLocations, Fetched, Poll, NewMapTask, MapTaskId, ReduceTaskId, NewMapTasks, OutputOf;
    var i := FirstUnreported(s.threads);
    if i < |s.threads| {
      MapThreadIndex(c, s, i);
      if !up && c.reduces == 1 && ThreadAction(s.threads[i], i, up).Fetch? { OnlyReduceFetches(c, s, i); }
    }
  }

  /** With one reduce, what fetches is that reduce, and each location it knows is of its partition. */
  lemma OnlyReduceFetches(c: Config, s: System, i: nat)
    requires Inv(c, s) && c.reduces == 1 && Enabled(c, s, Fetch(i, false))
    ensures var t := s.threads[i]; t.task.mapOutputs[t.stage.next].partition == t.task.partition
  {
    hide CountsInv, StoresInv, ReducesInv, FilesInv, DoneInv, Emitted, SortedEmitted, NewMapTasks, MapTaskId;
    MapThreadIndex(c, s, i);
    LocationStored(c, s, s.threads[i].stage.next);
  }

  /** Every state can be run to the end of the job, with connections that all work or all fail, and the schedule that
      runs threads first keeps the write order above. */
  lemma {:induction false} RunToEnd(c: Config, s: System, addr: Addr, up: bool)
    returns (acts: seq<Action>, end: System)
    requires Inv(c, s) && addr in c.trackers
    ensures Run(c, s, acts, end) && end.jt.done && Inv(c, end)
    ensures SecondWritesLater(c, s) ==> SecondWritesLater(c, end)
    ensures up ==> end.missed == s.missed
    ensures !up && c.reduces == 1 && NothingGot(s) ==> NothingGot(end)
    decreases if Measure(c, s) < 0 then 0 else Measure(c, s)
  {
    hide Inv, Apply, Measure, Enabled, NextAction, SecondWritesLater, NothingGot;
    if s.jt.done {
      acts, end := [], s;
    } else {
      var a := NextAction(s, addr, up);
      NotStuck(c, s, addr, up);
      StepInv(c, s, a);
      NextActionMisses(c, s, addr, up);
      if SecondWritesLater(c, s) { NextActionKeepsOrder(c, s, addr, up); }
      MeasureNonNegative(c, s);
      MeasureNonNegative(c, Apply(c, s, a));
      var rest;
      rest, end := RunToEnd(c, Apply(c, s, a), addr, up);
      acts := [a] + rest;
      assert acts[1..] == rest;
    }
  }

  /** With two reduces or more some interleaving ends with an empty output file, without any failed fetch. */
  lemma TableCanBeLost(c: Config) returns (s: System)
    requires c.reduces >= 2 && c.trackers != {}
    ensures Reachable(c, s) && s.jt.done && s.missed == 0 && s.files == c.files[c.outputPath := ""]
  {
    var addr :| addr in c.trackers;
    InitInv(c);
    var acts;
    assert SecondWritesLater(c, Init(c));
    acts, s := RunToEnd(c, Init(c), addr, true);
    hide Inv, OutputOf, Run, Init, Poll, ApplyPoll;
    assert Init(c).missed == 0 by { InitMissed(c); }
    assert Reachable(c, s);
    DoneOutput(c, s);
    DoneMeansAllReported(c, s, addr);
    assert s.threads[Maps(c) + 1].stage.Reported?;
    OtherPartitionsWriteNothing(c, s.lastWriter, s.lastGot);
  }

  lemma InitMissed(c: Config)
    ensures Init(c).missed == 0 && NothingGot(Init(c))
  {
  }

  ghost predicate AlwaysWritesTable(c: Config) {
    forall s :: Reachable(c, s) && s.jt.done && s.missed == 0 ==>
      s.files == c.files[c.outputPath := OutputOf(c, 0, Maps(c))]
  }

  /** Unless fetches fail, the finished file is the job's table on every interleaving exactly when the job has one
      reduce, or the table is empty anyway. */
  lemma OutputIndependentIff(c: Config)
    requires c.reduces >= 1 && c.trackers != {}
    ensures AlwaysWritesTable(c) <==> c.reduces == 1 || OutputOf(c, 0, Maps(c)) == ""
  {
    hide OutputOf, Reachable;
    if c.reduces == 1 || OutputOf(c, 0, Maps(c)) == "" {
      forall s | Reachable(c, s) && s.jt.done && s.missed == 0
        ensures s.files == c.files[c.outputPath := OutputOf(c, 0, Maps(c))]
      {
        DoneOutput(c, s);
        AllLocations(c, 0);
        if s.lastWriter != 0 { OtherPartitionsWriteNothing(c, s.lastWriter, s.lastGot); }
      }
    } else {
      var s := TableCanBeLost(c);
      assert s.files[c.outputPath] == "";
    }
  }

  lemma RenderEmpty(t: seq<KV>)
    ensures Render(t) == "" <==> t == []
  {
  }

  lemma SomeKey(t: seq<KV>)
    requires t != []
    ensures Has(t, t[0].0)
  {
  }

  lemma SingleOutput(c: Config, n: nat)
    requires c.reducer == SumReducer
    ensures OutputOf(c, 0, n) == Render(DistTable(c, n))
  {
    hide SortPairs, Grouped, Render, SortedEmitted, Repeat;
  }

  lemma WordTableEmpty(c: Config, n: nat)
    requires c.mapper == WordMap
    ensures DistTable(c, n) == [] <==> n == 0 || Tokens(ReadFile(c.files, c.inputPath)) == []
  {
    hide DistTable, Has, StrictKeys, Fields, Occurrences, ReadFile;
    WordTable(c, n);
    var words := Tokens(ReadFile(c.files, c.inputPath));
    if DistTable(c, n) != [] { SomeKey(DistTable(c, n)); }
    if words != [] && n > 0 {
      assert Has(DistTable(c, n), words[0]);
      HasSome(DistTable(c, n), words[0]);
    }
  }

  /** For word count: unless fetches fail, the finished file is the table on every interleaving exactly when there is
      one reduce, no map task, or no word. */
  lemma WordCountIndependentIff(c: Config)
    requires c.reduces >= 1 && c.trackers != {} && c.mapper == WordMap && c.reducer == SumReducer
    ensures AlwaysWritesTable(c) <==> c.reduces == 1 || c.maps <= 0 || Tokens(ReadFile(c.files, c.inputPath)) == []
  {
    hide AlwaysWritesTable, OutputOf, DistTable, Fields, Render, ReadFile;
    OutputIndependentIff(c);
    SingleOutput(c, Maps(c));
    RenderEmpty(DistTable(c, Maps(c)));
    WordTableEmpty(c, Maps(c));
  }

  lemma HasSome(t: seq<KV>, k: string)
    requires Has(t, k)
    ensures t != []
  {
  }

  // ---- Failed fetches -------------------------------------------------------------------------------------

  /** A number and the line end after it can be told from another. */
  lemma NumberEnds(m: nat, n: nat, a: string, b: string)
    requires IntText(m) + "\n" + a == IntText(n) + "\n" + b
    ensures m == n
  {
    hide NatText;
    var s, t := NatText(m), NatText(n);
    assert s + "\n" + a == s + ("\n" + a) && t + "\n" + b == t + ("\n" + b);
    WordLengthOfPrefix(s, "\n" + a, NotDigit);
    WordLengthOfPrefix(t, "\n" + b, NotDigit);
    assert (s + ("\n" + a))[..|s|] == s && (t + ("\n" + b))[..|t|] == t;
    NatValueOfText(m);
    NatValueOfText(n);
  }

  lemma SameFirstKey(t: seq<KV>, u: seq<KV>)
    requires StrictKeys(t) && StrictKeys(u) && t != [] && u != []
    requires forall k :: Has(t, k) <==> Has(u, k)
    ensures t[0].0 == u[0].0
  {
    SomeKey(t);
    SomeKey(u);
    var i :| 0 <= i < |u| && u[i].0 == t[0].0;
    var j :| 0 <= j < |t| && t[j].0 == u[0].0;
    if i > 0 && j > 0 { StrLeqAntisymmetric(t[0].0, u[0].0); }
  }

  lemma {:induction false} Occurs(words: seq<string>, w: string)
    requires w in words
    ensures Occurrences(words, w) > 0
  {
    if words[0] != w { Occurs(words[1..], w); }
  }

  /** Tables of different numbers of maps are different files, unless there is no word. */
  lemma TablesDiffer(c: Config, m: nat, n: nat)
    requires c.mapper == WordMap && m != n && Tokens(ReadFile(c.files, c.inputPath)) != []
    ensures Render(DistTable(c, m)) != Render(DistTable(c, n))
  {
    hide DistTable, Has, StrictKeys, Fields, Occurrences, ReadFile, IntText, Render;
    var t, u := DistTable(c, m), DistTable(c, n);
    WordTableEmpty(c, m);
    WordTableEmpty(c, n);
    RenderEmpty(t);
    RenderEmpty(u);
    if m > 0 && n > 0 && Render(t) == Render(u) {
      WordTable(c, m);
      WordTable(c, n);
      SameFirstKey(t, u);
      var words := Tokens(ReadFile(c.files, c.inputPath));
      var w := t[0].0;
      SomeKey(t);
      Occurs(words, w);
      var k := Occurrences(words, w);
      RenderHead(t);
      RenderHead(u);
      SplitRow(w, m * k, Render(t[1..]), n * k, Render(u[1..]));
      DifferentProducts(m, n, k);
    }
  }

  lemma SplitRow(w: string, x: nat, a: string, y: nat, b: string)
    requires Row((w, x)) + a == Row((w, y)) + b
    ensures x == y
  {
    hide IntText;
    var head := w + "\t";
    assert (Row((w, x)) + a)[|head|..] == IntText(x) + "\n" + a;
    assert (Row((w, y)) + b)[|head|..] == IntText(y) + "\n" + b;
    NumberEnds(x, y, a, b);
  }

  lemma DifferentProducts(m: nat, n: nat, k: nat)
    requires m != n && k > 0
    ensures m * k != n * k
  {
    if m < n { assert (n - m) * k > 0; } else { assert (m - n) * k > 0; }
  }

  /** With connections that may fail, a finished word count is right exactly when the reduce of partition 0 wrote last
      and got every map's output, or there is nothing to count. */
  lemma FinishedRightIff(c: Config, s: System)
    requires Reachable(c, s) && s.jt.done && c.reduces >= 1 && c.mapper == WordMap && c.reducer == SumReducer
    ensures s.files == c.files[c.outputPath := Render(DistTable(c, Maps(c)))] <==>
              (s.lastWriter == 0 && s.lastGot == Maps(c)) || c.maps <= 0 ||
              Tokens(ReadFile(c.files, c.inputPath)) == []
  {
    hide Reachable, DistTable, Render, Emitted, OutputOf, ReadFile, Fields;
    DoneOutput(c, s);
    var t := Render(DistTable(c, Maps(c)));
    WordTableEmpty(c, Maps(c));
    WordTableEmpty(c, s.lastGot);
    RenderEmpty(DistTable(c, Maps(c)));
    RenderEmpty(DistTable(c, s.lastGot));
    SingleOutput(c, s.lastGot);
    assert s.files[c.outputPath] == OutputOf(c, s.lastWriter, s.lastGot);
    if s.files == c.files[c.outputPath := t] { assert s.files[c.outputPath] == t; }
    if s.lastWriter != 0 { OtherPartitionsWriteNothing(c, s.lastWriter, s.lastGot); }
    if s.lastGot != Maps(c) && Tokens(ReadFile(c.files, c.inputPath)) != [] { TablesDiffer(c, s.lastGot, Maps(c)); }
  }

  /** With one reduce, every fetch can fail, and then the job still ends, with an empty file. */
  lemma AllFetchesFail(c: Config) returns (s: System)
    requires c.reduces == 1 && c.trackers != {}
    ensures Reachable(c, s) && s.jt.done && s.files == c.files[c.outputPath := ""]
  {
    var addr :| addr in c.trackers;
    InitInv(c);
    var acts;
    acts, s := RunToEnd(c, Init(c), addr, false);
    hide Inv, OutputOf, Run, Init;
    InitMissed(c);
    assert Reachable(c, s);
    DoneOutput(c, s);
    assert s.lastWriter == 0 && s.lastGot == 0;
    NothingWritten(c);
  }

  lemma NothingWritten(c: Config)
    ensures OutputOf(c, 0, 0) == ""
  {
  }

  ghost predicate AlwaysRight(c: Config) {
    forall s :: Reachable(c, s) && s.jt.done ==> s.files == c.files[c.outputPath := Render(DistTable(c, Maps(c)))]
  }

  /** However connections fail, the finished word count is right on every interleaving only if there is nothing to
      count. */
  lemma AlwaysRightIff(c: Config)
    requires c.reduces >= 1 && c.trackers != {} && c.mapper == WordMap && c.reducer == SumReducer
    ensures AlwaysRight(c) <==> c.maps <= 0 || Tokens(ReadFile(c.files, c.inputPath)) == []
  {
    hide Reachable, DistTable, Render, OutputOf, ReadFile, Fields;
    if c.maps <= 0 || Tokens(ReadFile(c.files, c.inputPath)) == [] {
      forall s | Reachable(c, s) && s.jt.done
        ensures s.files == c.files[c.outputPath := Render(DistTable(c, Maps(c)))]
      {
        FinishedRightIff(c, s);
      }
    } else {
      WordTableEmpty(c, Maps(c));
      RenderEmpty(DistTable(c, Maps(c)));
      var s;
      if c.reduces == 1 { s := AllFetchesFail(c); } else { s := TableCanBeLost(c); }
      assert s.files[c.outputPath] == "";
    }
  }
}
