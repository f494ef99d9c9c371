/** Every step of the distributed job keeps the invariant. */
module DistInvariant {
  import opened Order
  import opened InputFormat
  import opened DistJobTracker
  import opened TaskTracker
  import opened DistSystem

  // ---- Counting reported threads ----------------------------------------------------------------------

  lemma {:induction false} ReportedBound(threads: seq<Thread>, lo: nat, hi: nat)
    requires lo <= hi <= |threads|
    ensures ReportedIn(threads, lo, hi) <= hi - lo
    ensures ReportedIn(threads, lo, hi) == hi - lo <==> forall j :: lo <= j < hi ==> threads[j].stage.Reported?
  {
    if lo < hi {
      ReportedBound(threads, lo, hi - 1);
    }
  }

  lemma {:induction false} ReportedUpdate(threads: seq<Thread>, i: nat, t: Thread, lo: nat, hi: nat)
    requires i < |threads| && hi <= |threads| && !threads[i].stage.Reported?
    ensures ReportedIn(threads[i := t], lo, hi)
         == ReportedIn(threads, lo, hi) + if lo <= i < hi && t.stage.Reported? then 1 else 0
  {
    if lo < hi {
      ReportedUpdate(threads, i, t, lo, hi - 1);
    }
  }

  lemma {:induction false} ReportedAppend(threads: seq<Thread>, t: Thread, lo: nat, hi: nat)
    requires hi <= |threads|
    ensures ReportedIn(threads + [t], lo, hi) == ReportedIn(threads, lo, hi)
  {
    if lo < hi {
      ReportedAppend(threads, t, lo, hi - 1);
    }
  }

  // ---- The initial state ------------------------------------------------------------------------------

  lemma {:induction false} NewMapTasksLength(inputPath: string, n: int)
    ensures |NewMapTasks(inputPath, n)| == if n < 0 then 0 else n
  {
    if n > 0 {
      NewMapTasksLength(inputPath, n - 1);
    }
  }

  lemma InitInv(c: Config)
    ensures Inv(c, Init(c))
  {
    hide MapOutput, SortPairs, NewMapTask, MapTaskId, ReduceTaskId;
    NewMapTasksLength(c.inputPath, c.maps);
    var s := Init(c);
    assert s.jt.pendingMaps == NewMapTasks(c.inputPath, c.maps);
    assert NewMapTasks(c.inputPath, Maps(c)) == NewMapTasks(c.inputPath, c.maps);
  }

  // ---- Polls ------------------------------------------------------------------------------------------

  function WithMapThread(c: Config, s: System, addr: Addr): System
    requires s.jt.pendingMaps != []
  {
    var n := |s.jt.pendingMaps| - 1;
    s.(jt := s.jt.(pendingMaps := NewMapTasks(c.inputPath, n)),
       threads := s.threads + [Thread(addr, NewMapTask(c.inputPath, n), Working(0, 0, []))])
  }

  function WithReduceThread(c: Config, s: System, addr: Addr): System {
    var r := s.jt.reducesCreated;
    s.(jt := s.jt.(reducesCreated := r + 1),
       threads := s.threads + [Thread(addr, Task(ReduceTaskId(r), ReduceTask, r, "", c.outputPath, s.jt.locations),
                                      Working(0, 0, []))])
  }

  predicate ReduceReady(c: Config, s: System) {
    s.jt.pendingMaps == [] && s.jt.mapsCompleted >= c.maps && s.jt.reducesCreated < c.reduces
  }

  predicate JobComplete(c: Config, s: System) {
    s.jt.pendingMaps == [] && !ReduceReady(c, s) && s.jt.mapsCompleted >= c.maps && s.jt.reducesCompleted >= c.reduces
  }

  lemma PollMapCase(c: Config, s: System, addr: Addr)
    requires QueueInv(c, s) && s.jt.pendingMaps != []
    ensures ApplyPoll(s, addr) == WithMapThread(c, s, addr)
  {
    hide MapTaskId, Maps, Reduces;
    var n := |s.jt.pendingMaps|;
    NewMapTasksLength(c.inputPath, n - 1);
    var init := NewMapTasks(c.inputPath, n - 1);
    assert s.jt.pendingMaps == init + [NewMapTask(c.inputPath, n - 1)];
    assert s.jt.pendingMaps[..n - 1] == init;
  }

  /** The four outcomes of a poll. */
  lemma PollCases(c: Config, s: System, addr: Addr)
    requires QueueInv(c, s)
    ensures ApplyPoll(s, addr) ==
      if s.jt.pendingMaps != [] then WithMapThread(c, s, addr)
      else if ReduceReady(c, s) then WithReduceThread(c, s, addr)
      else if JobComplete(c, s) then s.(jt := s.jt.(state := Succeeded, done := true))
      else s
  {
    hide MapTaskId, ReduceTaskId, NewMapTasks, Maps, Reduces;
    if s.jt.pendingMaps != [] {
      PollMapCase(c, s, addr);
    } else if ReduceReady(c, s) {
      var t := NewReduceTask(s.jt);
      assert CreateReduce(s.jt).pendingReduces == [t];
      assert [t][..0] == [];
    }
  }

  /** A thread was appended and nothing else that the order and count clauses look at changed. */
  predicate Appended(s: System, s': System, t: Thread) {
    s'.threads == s.threads + [t] && t.stage == Working(0, 0, []) && s'.order == s.order && s'.missed == s.missed &&
    s'.jt.mapsCompleted == s.jt.mapsCompleted && s'.jt.reducesCompleted == s.jt.reducesCompleted &&
    s'.jt.locations == s.jt.locations
  }

  lemma AppendCounts(c: Config, s: System, s': System, t: Thread)
    requires QueueInv(c, s) && CountsInv(c, s) && Appended(s, s', t)
    ensures s'.jt.mapsCompleted == |s'.order| == ReportedIn(s'.threads, 0, MapThreads(c, s'))
    ensures s'.jt.reducesCompleted == ReportedIn(s'.threads, Maps(c), |s'.threads|)
  {
    ReportedAppend(s.threads, t, 0, MapThreads(c, s));
    if |s.threads| >= Maps(c) {
      ReportedAppend(s.threads, t, Maps(c), |s.threads|);
    }
  }

  lemma AppendOrder(c: Config, s: System, s': System, t: Thread)
    requires OrderInv(c, s) && Appended(s, s', t)
    ensures OrderInv(c, s')
  {
    hide MapTaskId, Emitted;
    assert forall j :: 0 <= j < |s.threads| ==> s'.threads[j] == s.threads[j];
    assert MapThreads(c, s) <= MapThreads(c, s') <= |s.threads| + 1;
    forall j | 0 <= j < MapThreads(c, s') && s'.threads[j].stage.Reported? ensures j in s'.order {
      assert j < |s.threads|;
    }
  }

  lemma AppendStores(c: Config, s: System, s': System, t: Thread)
    requires StoresInv(c, s) && Appended(s, s', t) && s'.stores == s.stores
    ensures StoresInv(c, s')
  {
    hide MapTaskId, Emitted, SortedEmitted;
    assert forall j :: 0 <= j < |s.threads| ==> s'.threads[j] == s.threads[j];
    forall m | NotRun(c, s', m) ensures NotRun(c, s, m) {}
  }

  lemma AppendReduces(c: Config, s: System, s': System, t: Thread)
    requires ReducesInv(c, s) && FilesInv(c, s) && Appended(s, s', t)
    requires s'.files == s.files && s'.lastWriter == s.lastWriter && s'.lastGot == s.lastGot
    ensures ReducesInv(c, s') && FilesInv(c, s')
  {
    hide SortedEmitted, OutputOf;
    assert forall j :: 0 <= j < |s.threads| ==> s'.threads[j] == s.threads[j];
    assert Repeat(SortedEmitted(c), 0) == [];
  }

  lemma MapThreadInv(c: Config, s: System, addr: Addr)
    requires Inv(c, s) && addr in c.trackers && s.jt.pendingMaps != []
    ensures Inv(c, WithMapThread(c, s, addr))
  {
    hide NewMapTasks, MapTaskId, ReduceTaskId, OrderInv, StoresInv, ReducesInv, FilesInv;
    var s' := WithMapThread(c, s, addr);
    NewMapTasksLength(c.inputPath, |s.jt.pendingMaps| - 1);
    var t := s'.threads[|s.threads|];
    AppendCounts(c, s, s', t);
    AppendOrder(c, s, s', t);
    AppendStores(c, s, s', t);
    AppendReduces(c, s, s', t);
  }

  lemma ReduceThreadInv(c: Config, s: System, addr: Addr)
    requires Inv(c, s) && addr in c.trackers && ReduceReady(c, s)
    ensures Inv(c, WithReduceThread(c, s, addr))
  {
    hide NewMapTasks, MapTaskId, ReduceTaskId, OrderInv, StoresInv, ReducesInv, FilesInv, ReportedIn;
    var s' := WithReduceThread(c, s, addr);
    var t := s'.threads[|s.threads|];
    ReportedBound(s.threads, 0, MapThreads(c, s));
    AppendCounts(c, s, s', t);
    AppendOrder(c, s, s', t);
    AppendStores(c, s, s', t);
    AppendReduces(c, s, s', t);
  }

  lemma CompleteInv(c: Config, s: System)
    requires Inv(c, s) && JobComplete(c, s)
    ensures Inv(c, s.(jt := s.jt.(state := Succeeded, done := true)))
  {
    hide NewMapTasks, MapTaskId, ReduceTaskId, Emitted, SortedEmitted, ReportedIn;
    ReportedBound(s.threads, 0, MapThreads(c, s));
    ReportedBound(s.threads, Maps(c), |s.threads|);
    var s' := s.(jt := s.jt.(state := Succeeded, done := true));
    forall m | NotRun(c, s', m) ensures NotRun(c, s, m) {}
  }

  lemma PollInv(c: Config, s: System, addr: Addr)
    requires Inv(c, s) && addr in c.trackers
    ensures Inv(c, ApplyPoll(s, addr))
  {
    hide QueueInv, TasksInv, CountsInv, OrderInv, StoresInv, ReducesInv, FilesInv, DoneInv, ApplyPoll;
    PollCases(c, s, addr);
    if s.jt.pendingMaps != [] {
      MapThreadInv(c, s, addr);
    } else if ReduceReady(c, s) {
      ReduceThreadInv(c, s, addr);
    } else if JobComplete(c, s) {
      CompleteInv(c, s);
    }
  }

  // ---- Steps of one thread ------------------------------------------------------------------------------

  /** Thread i, not yet reported, moved to `stage`; no thread was added. */
  predicate Staged(s: System, s': System, i: nat, stage: Stage) {
    i < |s.threads| && !s.threads[i].stage.Reported? &&
    s'.threads == s.threads[i := s.threads[i].(stage := stage)]
  }

  /** The clauses about the queue, the counters and the report order look at reported stages only. */
  lemma StageBookkeeping(c: Config, s: System, s': System, i: nat, stage: Stage)
    requires QueueInv(c, s) && TasksInv(c, s) && CountsInv(c, s) && OrderInv(c, s) && DoneInv(c, s)
    requires Staged(s, s', i, stage) && !stage.Reported?
    requires s'.jt == s.jt && s'.order == s.order && s'.stores.Keys == s.stores.Keys
    ensures QueueInv(c, s') && TasksInv(c, s') && CountsInv(c, s') && OrderInv(c, s') && DoneInv(c, s')
  {
    hide NewMapTasks, NewMapTask, MapTaskId, ReduceTaskId, Emitted, SortedEmitted, ReportedIn;
    ReportedUpdate(s.threads, i, s'.threads[i], 0, MapThreads(c, s));
    ReportedUpdate(s.threads, i, s'.threads[i], Maps(c), |s.threads|);
  }

  /** While a map has not reported, no reduce exists and no output was written. */
  lemma BeforeReduces(c: Config, s: System, i: nat)
    requires Inv(c, s) && i < MapThreads(c, s) && !s.threads[i].stage.Reported?
    ensures s.jt.reducesCreated == 0 && !s.jt.done && |s.threads| <= Maps(c) && s.lastWriter == -1
    ensures s.files == c.files && s.jt.mapsCompleted < Maps(c)
  {
    hide NewMapTasks, MapTaskId, ReduceTaskId, Emitted, ReportedIn, StoresInv, ReducesInv, TasksInv, OrderInv;
    ReportedBound(s.threads, 0, MapThreads(c, s));
  }

  lemma MapThreadIndex(c: Config, s: System, i: nat)
    requires TasksInv(c, s) && i < |s.threads|
    ensures s.threads[i].task.taskType.MapTask? <==> i < Maps(c)
    ensures i < Maps(c) ==> s.threads[i].task.taskId == MapTaskId(Maps(c) - 1 - i) && i < MapThreads(c, s) &&
                            s.threads[i].task.inputPath == c.inputPath
    ensures i >= Maps(c) ==> s.threads[i].task.partition == i - Maps(c) &&
                             s.threads[i].task.mapOutputs == s.jt.locations &&
                             s.threads[i].task.outputPath == c.outputPath
    ensures s.threads[i].addr in s.stores
  {
  }

  lemma SortedEmittedEmpty(c: Config)
    ensures SortedEmitted(c) == [] <==> Emitted(c) == []
  {
    hide SortPairs, Emitted;
    assert |multiset(SortedEmitted(c))| == |SortedEmitted(c)| && |multiset(Emitted(c))| == |Emitted(c)|;
  }

  /** The store after thread i ran its map. */
  lemma RunMapStore(c: Config, s: System, i: nat)
    requires Inv(c, s) && Enabled(c, s, RunMap(i))
    ensures var t := s.threads[i];
            ApplyRunMap(c, s, i).stores == s.stores[t.addr :=
              if Emitted(c) == [] then s.stores[t.addr]
              else s.stores[t.addr][(t.task.taskId, 0) := SortedEmitted(c)]]
  {
    MapThreadIndex(c, s, i);
    BeforeReduces(c, s, i);
    SortedEmittedEmpty(c);
    assert NotRun(c, s, Maps(c) - 1 - i);
    StorePairsEffect(s.stores[s.threads[i].addr], s.threads[i].task.taskId, c.hash, SortedEmitted(c));
  }

  /** Running map thread i stores its output under its own id and disturbs no other entry. */
  lemma RunMapStoresInv(c: Config, s: System, s': System, i: nat)
    requires TasksInv(c, s) && StoresInv(c, s) && i < MapThreads(c, s) && s.threads[i].stage.Working?
    requires Staged(s, s', i, Executed)
    requires var t := s.threads[i];
             s'.stores == s.stores[t.addr :=
               if Emitted(c) == [] then s.stores[t.addr]
               else s.stores[t.addr][(t.task.taskId, 0) := SortedEmitted(c)]]
    ensures StoresInv(c, s')
  {
    hide MapTaskId, Emitted, SortedEmitted, Stored;
    MapThreadIndex(c, s, i);
    forall m: int | NotRun(c, s', m) ensures NotRun(c, s, m) && MapTaskId(m) != s.threads[i].task.taskId {
      TaskIdInjective(m, Maps(c) - 1 - i);
    }
    forall j: nat | j < MapThreads(c, s') && !s'.threads[j].stage.Working? && Emitted(c) != []
      ensures Stored(c, s'.stores, s'.threads[j])
    {
      StoredAfterRun(c, s, s', i, j);
    }
  }

  lemma StoredAfterRun(c: Config, s: System, s': System, i: nat, j: nat)
    requires TasksInv(c, s) && i < MapThreads(c, s) && j < MapThreads(c, s) && Emitted(c) != []
    requires Staged(s, s', i, Executed) && s.threads[i].addr in s.stores
    requires var t := s.threads[i];
             s'.stores == s.stores[t.addr := s.stores[t.addr][(t.task.taskId, 0) := SortedEmitted(c)]]
    requires j != i ==> Stored(c, s.stores, s.threads[j])
    ensures Stored(c, s'.stores, s'.threads[j])
  {
    hide MapTaskId, Emitted, SortedEmitted;
    MapThreadIndex(c, s, i);
    MapThreadIndex(c, s, j);
    TaskIdInjective(Maps(c) - 1 - i, Maps(c) - 1 - j);
  }

  lemma RunMapInv(c: Config, s: System, i: nat)
    requires Inv(c, s) && Enabled(c, s, RunMap(i))
    ensures Inv(c, ApplyRunMap(c, s, i))
  {
    hide QueueInv, CountsInv, OrderInv, StoresInv, DoneInv, MapStore, Emitted, SortedEmitted;
    var s' := ApplyRunMap(c, s, i);
    MapThreadIndex(c, s, i);
    BeforeReduces(c, s, i);
    RunMapStore(c, s, i);
    RunMapStoresInv(c, s, s', i);
    StageBookkeeping(c, s, s', i, Executed);
  }

  /** A reduce moved on without touching any store: the map side is as before. */
  lemma ReduceStageStores(c: Config, s: System, s': System, i: nat, stage: Stage)
    requires StoresInv(c, s) && Staged(s, s', i, stage) && i >= Maps(c) && s'.stores == s.stores
    ensures StoresInv(c, s')
  {
    hide MapTaskId, Emitted, SortedEmitted;
    forall m: int | NotRun(c, s', m) ensures NotRun(c, s, m) {}
  }

  /** Any location in a snapshot names the tracker that stores that map's output. */
  lemma LocationStored(c: Config, s: System, k: nat)
    requires Inv(c, s) && k < |s.jt.locations|
    ensures var loc := s.jt.locations[k];
            loc.partition == 0 && (loc.host, loc.port) in s.stores && Emitted(c) != [] &&
            (loc.taskId, 0) in s.stores[(loc.host, loc.port)] &&
            s.stores[(loc.host, loc.port)][(loc.taskId, 0)] == SortedEmitted(c)
  {
    hide MapTaskId, Emitted, SortedEmitted, NewMapTasks, ReducesInv, FilesInv, DoneInv, QueueInv, CountsInv;
    var j := s.order[k];
    MapThreadIndex(c, s, j);
    assert s.jt.locations[k] == LocationOf(c, s.threads, j);
    assert Stored(c, s.stores, s.threads[j]);
  }

  /** One fetch of the first reduce brings one map's whole output, unless it fails; the other reduces fetch nothing.
      */
  lemma FetchedData(c: Config, s: System, i: nat, up: bool)
    requires Inv(c, s) && Enabled(c, s, Fetch(i, up))
    ensures i >= Maps(c)
    ensures var s', t := ApplyFetch(s, i, up), s.threads[i];
            var got := if i == Maps(c) && !up then t.stage.got else t.stage.got + 1;
            s'.threads[i].stage
            == Working(t.stage.next + 1, got, Repeat(SortedEmitted(c), if i == Maps(c) then got else 0)) &&
            s'.missed == s.missed + if i == Maps(c) && !up then 1 else 0
  {
    hide QueueInv, CountsInv, OrderInv, StoresInv, DoneInv, FilesInv, Emitted, SortedEmitted, MapTaskId, NewMapTasks;
    MapThreadIndex(c, s, i);
    LocationStored(c, s, s.threads[i].stage.next);
  }

  lemma FetchInv(c: Config, s: System, i: nat, up: bool)
    requires Inv(c, s) && Enabled(c, s, Fetch(i, up))
    ensures Inv(c, ApplyFetch(s, i, up))
  {
    hide QueueInv, CountsInv, OrderInv, StoresInv, DoneInv, Emitted, SortedEmitted, OutputOf, Fetched, Repeat,
         NewMapTasks, MapTaskId, ReduceTaskId, Locations;
    var s' := ApplyFetch(s, i, up);
    MapThreadIndex(c, s, i);
    FetchedData(c, s, i, up);
    ReduceStageStores(c, s, s', i, s'.threads[i].stage);
    StageBookkeeping(c, s, s', i, s'.threads[i].stage);
  }

  /** A reduce that passed every location holds what it got for its partition. */
  lemma GatheredAll(c: Config, s: System, i: nat)
    requires Inv(c, s) && Enabled(c, s, WriteOutput(i))
    ensures var got := s.threads[i].stage.got;
            ReduceText(s.threads[i].stage.data, c.reducer) == OutputOf(c, i - Maps(c), got) &&
            got <= Locations(c) && Locations(c) - got <= s.missed
  {
    hide StoresInv, ReduceText, Emitted, SortPairs, NewMapTasks, MapTaskId, ReduceTaskId, FilesInv, DoneInv;
    MapThreadIndex(c, s, i);
    assert |s.jt.locations| == Locations(c);
  }

  lemma WriteInv(c: Config, s: System, i: nat)
    requires Inv(c, s) && Enabled(c, s, WriteOutput(i))
    ensures Inv(c, ApplyWrite(c, s, i))
  {
    hide QueueInv, CountsInv, OrderInv, StoresInv, DoneInv, Emitted, SortedEmitted, OutputOf, ReduceText, Locations;
    var s' := ApplyWrite(c, s, i);
    MapThreadIndex(c, s, i);
    GatheredAll(c, s, i);
    ReduceStageStores(c, s, s', i, Executed);
    StageBookkeeping(c, s, s', i, Executed);
    assert c.files[c.outputPath := OutputOf(c, i - Maps(c), s.threads[i].stage.got)] == s'.files;
  }

  /** The part count a map thread sends: one partition when maps emit anything, none otherwise. */
  lemma PartsOf(c: Config, s: System, i: nat)
    requires TasksInv(c, s) && StoresInv(c, s) && i < MapThreads(c, s) && !s.threads[i].stage.Working?
    ensures Parts(s.stores[s.threads[i].addr]) == if Emitted(c) == [] then 0 else 1
  {
    hide MapTaskId, Emitted, SortedEmitted;
    var store := s.stores[s.threads[i].addr];
    if Emitted(c) == [] {
      assert (set key | key in store :: key.1) == {};
    } else {
      assert Stored(c, s.stores, s.threads[i]);
      assert (set key | key in store :: key.1) == {0};
    }
  }

  /** Leaving the Executed or Sending stage keeps the store clauses, given a correct part count. */
  lemma LaterStageStores(c: Config, s: System, s': System, i: nat, stage: Stage)
    requires StoresInv(c, s) && Staged(s, s', i, stage) && s'.stores == s.stores
    requires !s.threads[i].stage.Working? && !stage.Working?
    requires stage.Sending? && i < Maps(c) ==> stage.parts == if Emitted(c) == [] then 0 else 1
    ensures StoresInv(c, s')
  {
    hide MapTaskId, Emitted, SortedEmitted;
    forall m: int | NotRun(c, s', m) ensures NotRun(c, s, m) {}
    forall j: nat | j < MapThreads(c, s') && !s'.threads[j].stage.Working? && Emitted(c) != []
      ensures Stored(c, s'.stores, s'.threads[j])
    {
      assert Stored(c, s.stores, s.threads[j]);
    }
  }

  lemma CountInv(c: Config, s: System, i: nat)
    requires Inv(c, s) && Enabled(c, s, CountParts(i))
    ensures Inv(c, ApplyCount(s, i))
  {
    hide QueueInv, CountsInv, OrderInv, DoneInv, Emitted, SortedEmitted, OutputOf, Parts, MapTaskId, StoresInv;
    var s' := ApplyCount(s, i);
    MapThreadIndex(c, s, i);
    if i < Maps(c) { PartsOf(c, s, i); }
    StageBookkeeping(c, s, s', i, s'.threads[i].stage);
    LaterStageStores(c, s, s', i, s'.threads[i].stage);
  }

  /** What reporting thread i does to the tracker, once its part count is known. */
  lemma ReportEffect(c: Config, s: System, i: nat)
    requires TasksInv(c, s) && StoresInv(c, s) && Enabled(c, s, Report(i))
    ensures ApplyReport(s, i) ==
      if i < Maps(c) then
        WithStage(s, i, Reported).(
          order := s.order + [i],
          jt := s.jt.(mapsCompleted := s.jt.mapsCompleted + 1,
                      locations := if Emitted(c) == [] then s.jt.locations
                                   else s.jt.locations + [LocationOf(c, s.threads, i)]))
      else
        WithStage(s, i, Reported).(jt := s.jt.(reducesCompleted := s.jt.reducesCompleted + 1))
  {
    hide MapTaskId, Emitted, SortedEmitted;
    MapThreadIndex(c, s, i);
    var t := s.threads[i];
    assert PartLocations(t.task.taskId, t.addr.0, t.addr.1, 0) == [];
    assert s.jt.locations + [] == s.jt.locations;
    assert i < Maps(c) ==>
      PartLocations(t.task.taskId, t.addr.0, t.addr.1, 1) == [] + [LocationOf(c, s.threads, i)];
  }

  lemma ReportMapOrder(c: Config, s: System, s': System, i: nat)
    requires OrderInv(c, s) && i < MapThreads(c, s) && Staged(s, s', i, Reported)
    requires s'.order == s.order + [i]
    requires s'.jt.locations == if Emitted(c) == [] then s.jt.locations
                                else s.jt.locations + [LocationOf(c, s.threads, i)]
    ensures OrderInv(c, s')
  {
    hide Emitted, LocationsInv, LocationOf;
    assert i !in s.order;
    forall j | 0 <= j < MapThreads(c, s') && s'.threads[j].stage.Reported? ensures j in s'.order {
      if j == i { assert s'.order[|s.order|] == i; } else { assert j in s.order; }
    }
    ReportMapLocations(c, s, s', i);
  }

  lemma ReportMapLocations(c: Config, s: System, s': System, i: nat)
    requires OrderInv(c, s) && Staged(s, s', i, Reported) && s'.order == s.order + [i]
    requires s'.jt.locations == if Emitted(c) == [] then s.jt.locations
                                else s.jt.locations + [LocationOf(c, s.threads, i)]
    ensures LocationsInv(c, s')
  {
    hide MapTaskId, Emitted;
  }

  lemma ReportCounts(c: Config, s: System, s': System, i: nat)
    requires QueueInv(c, s) && CountsInv(c, s) && Staged(s, s', i, Reported)
    requires s'.jt.pendingMaps == s.jt.pendingMaps && s'.jt.reducesCreated == s.jt.reducesCreated
    requires |s'.order| == |s.order| + if i < Maps(c) then 1 else 0
    requires s'.jt.mapsCompleted == s.jt.mapsCompleted + if i < Maps(c) then 1 else 0
    requires s'.jt.reducesCompleted == s.jt.reducesCompleted + if i < Maps(c) then 0 else 1
    ensures CountsInv(c, s')
    ensures s.jt.done && DoneInv(c, s) ==> false
  {
    hide NewMapTasks, ReportedIn;
    ReportedUpdate(s.threads, i, s'.threads[i], 0, MapThreads(c, s));
    ReportedUpdate(s.threads, i, s'.threads[i], Maps(c), |s.threads|);
    ReportedBound(s.threads, 0, MapThreads(c, s));
    if |s.threads| >= Maps(c) {
      ReportedBound(s.threads, Maps(c), |s.threads|);
    }
  }

  lemma ReportMapInv(c: Config, s: System, i: nat)
    requires Inv(c, s) && Enabled(c, s, Report(i)) && i < Maps(c)
    ensures Inv(c, ApplyReport(s, i))
  {
    hide MapTaskId, ReduceTaskId, Emitted, SortedEmitted, NewMapTasks, NewMapTask, OutputOf,
         OrderInv, StoresInv, CountsInv, ApplyReport;
    ReportEffect(c, s, i);
    var s' := ApplyReport(s, i);
    MapThreadIndex(c, s, i);
    BeforeReduces(c, s, i);
    ReportMapOrder(c, s, s', i);
    LaterStageStores(c, s, s', i, Reported);
    ReportCounts(c, s, s', i);
  }

  lemma ReportReduceInv(c: Config, s: System, i: nat)
    requires Inv(c, s) && Enabled(c, s, Report(i)) && i >= Maps(c)
    ensures Inv(c, ApplyReport(s, i))
  {
    hide MapTaskId, ReduceTaskId, Emitted, SortedEmitted, NewMapTasks, NewMapTask, OutputOf, Repeat, ReportedIn,
         Completed, StoresInv, CountsInv, ApplyReport;
    ReportEffect(c, s, i);
    var s' := ApplyReport(s, i);
    LaterStageStores(c, s, s', i, Reported);
    ReportCounts(c, s, s', i);
  }

  /** The invariant holds in every reachable state. */
  lemma StepInv(c: Config, s: System, a: Action)
    requires Inv(c, s) && Enabled(c, s, a)
    ensures Inv(c, Apply(c, s, a))
  {
    hide Inv;
    match a
    case PollBy(addr) => PollInv(c, s, addr);
    case RunMap(i) => RunMapInv(c, s, i);
    case Fetch(i, up) => FetchInv(c, s, i, up);
    case WriteOutput(i) => WriteInv(c, s, i);
    case CountParts(i) => CountInv(c, s, i);
    case Report(i) =>
      if i < Maps(c) { ReportMapInv(c, s, i); } else { ReportReduceInv(c, s, i); }
  }

  lemma SnapshotBound(c: Config, s: System)
    requires Inv(c, s)
    ensures |s.jt.locations| <= Maps(c)
  {
    hide StoresInv, ReducesInv, FilesInv, NewMapTasks, MapTaskId, ReduceTaskId, ReportedIn, TasksInv, Emitted,
         LocationOf;
    ReportedBound(s.threads, 0, MapThreads(c, s));
  }

  lemma {:induction false} RunInv(c: Config, from: System, acts: seq<Action>, to: System)
    requires Inv(c, from) && Run(c, from, acts, to)
    ensures Inv(c, to)
    decreases |acts|
  {
    hide Inv, Apply;
    if acts != [] {
      StepInv(c, from, acts[0]);
      RunInv(c, Apply(c, from, acts[0]), acts[1..], to);
    }
  }

  lemma ReachableInv(c: Config, s: System)
    requires Reachable(c, s)
    ensures Inv(c, s)
  {
    hide Inv, Run, Init;
    InitInv(c);
    var acts :| Run(c, Init(c), acts, s);
    RunInv(c, Init(c), acts, s);
  }
}
