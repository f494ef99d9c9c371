/** What holds of every interleaving of the distributed job: scheduling, the map barrier, progress. */
module DistTheorems {
  import opened Options
  import opened DistJobTracker
  import opened TaskTracker
  import opened DistSystem
  import opened DistInvariant

  // ---- Scheduling ---------------------------------------------------------------------------------------

  lemma {:induction false} NewMapTasksAt(inputPath: string, n: nat, m: nat)
    requires m < n
    ensures |NewMapTasks(inputPath, n)| == n && NewMapTasks(inputPath, n)[m] == NewMapTask(inputPath, m)
  {
    NewMapTasksLength(inputPath, n);
    NewMapTasksLength(inputPath, n - 1);
    if m < n - 1 {
      NewMapTasksAt(inputPath, n - 1, m);
    }
  }

  /** The queued and the assigned map tasks partition the M map ids, and the counter is the number of assigned
      ones that reported. */
  lemma MapTasksPartition(c: Config, s: System, m: nat)
    requires Reachable(c, s) && m < Maps(c)
    ensures var queued := |s.jt.pendingMaps|;
            if m < queued then s.jt.pendingMaps[m] == NewMapTask(c.inputPath, m) && Maps(c) - 1 - m >= |s.threads|
            else Maps(c) - 1 - m < |s.threads| && s.threads[Maps(c) - 1 - m].task == NewMapTask(c.inputPath, m)
    ensures s.jt.mapsCompleted == ReportedIn(s.threads, 0, MapThreads(c, s)) <= Maps(c) - |s.jt.pendingMaps|
  {
    hide MapTaskId, ReduceTaskId, OrderInv, StoresInv, ReducesInv, FilesInv, NewMapTasks, ReportedIn;
    ReachableInv(c, s);
    ReportedBound(s.threads, 0, MapThreads(c, s));
    if m < |s.jt.pendingMaps| {
      NewMapTasksAt(c.inputPath, |s.jt.pendingMaps|, m);
    }
  }

  lemma ReduceThreadOf(c: Config, s: System, j: nat, r: nat)
    requires TasksInv(c, s) && j < |s.threads|
    ensures s.threads[j].task.taskId == ReduceTaskId(r) <==> j == Maps(c) + r
  {
    hide MapTaskId, ReduceTaskId;
    TaskIdInjective(Maps(c) - 1 - j, r);
    TaskIdInjective(j - Maps(c), r);
  }

  /** Likewise for reduces: the created ones are assigned at once, and none is queued between steps. */
  lemma ReduceTasksPartition(c: Config, s: System, r: nat)
    requires Reachable(c, s) && r < Reduces(c)
    ensures s.jt.pendingReduces == []
    ensures r < s.jt.reducesCreated <==>
            exists j :: 0 <= j < |s.threads| && s.threads[j].task.taskId == ReduceTaskId(r)
    ensures s.jt.reducesCompleted == ReportedIn(s.threads, Maps(c), |s.threads|) <= s.jt.reducesCreated
  {
    hide MapTaskId, ReduceTaskId, OrderInv, StoresInv, ReducesInv, FilesInv, NewMapTasks, TasksInv, ReportedIn;
    ReachableInv(c, s);
    if |s.threads| >= Maps(c) {
      ReportedBound(s.threads, Maps(c), |s.threads|);
    } else {
      assert ReportedIn(s.threads, Maps(c), |s.threads|) == 0 by { NoneReported(s.threads, Maps(c), |s.threads|); }
    }
    forall j: nat | j < |s.threads| ensures s.threads[j].task.taskId == ReduceTaskId(r) <==> j == Maps(c) + r {
      ReduceThreadOf(c, s, j, r);
    }
    if r < s.jt.reducesCreated {
      assert s.threads[Maps(c) + r].task.taskId == ReduceTaskId(r);
    }
  }

  lemma NoneReported(threads: seq<Thread>, lo: nat, hi: nat)
    requires hi <= |threads| && hi <= lo
    ensures ReportedIn(threads, lo, hi) == 0
  {
  }

  /** No task is handed out twice. */
  lemma NoTaskTwice(c: Config, s: System, i: nat, j: nat)
    requires Reachable(c, s) && i < j < |s.threads|
    ensures s.threads[i].task.taskId != s.threads[j].task.taskId
  {
    hide MapTaskId, ReduceTaskId, OrderInv, StoresInv, ReducesInv, FilesInv, NewMapTasks, QueueInv, CountsInv;
    ReachableInv(c, s);
    var n := Maps(c);
    TaskIdInjective(n - 1 - i, n - 1 - j);
    TaskIdInjective(i - n, j - n);
    TaskIdInjective(n - 1 - i, j - n);
  }

  // ---- The map barrier and the shuffle ------------------------------------------------------------------

  ghost predicate NamesOutputOf(c: Config, s: System, loc: Location, m: nat) {
    loc.taskId == MapTaskId(m) && loc.partition == 0 && (loc.host, loc.port) in s.stores &&
    (loc.taskId, 0) in s.stores[(loc.host, loc.port)] &&
    s.stores[(loc.host, loc.port)][(loc.taskId, 0)] == SortedEmitted(c)
  }

  /** Snapshot entry k is the entry of map m: it names m's output, and no other entry is m's. */
  ghost predicate OnlyEntryOf(c: Config, s: System, locs: seq<Location>, k: nat, m: nat) {
    k < |locs| && NamesOutputOf(c, s, locs[k], m) &&
    forall l :: 0 <= l < |locs| && l != k ==> locs[l].taskId != MapTaskId(m)
  }

  /** A reduce is only handed out when all maps have reported, and its snapshot has exactly one entry for each
      map, naming the tracker that holds that map's output. */
  lemma SnapshotComplete(c: Config, s: System, j: nat, m: nat)
    requires Reachable(c, s) && Maps(c) <= j < |s.threads| && m < Maps(c) && Emitted(c) != []
    ensures forall i :: 0 <= i < Maps(c) ==> s.threads[i].stage.Reported?
    ensures |s.threads[j].task.mapOutputs| == Maps(c)
    ensures exists k: nat :: OnlyEntryOf(c, s, s.threads[j].task.mapOutputs, k, m)
  {
    hide OnlyEntryOf, Emitted, MapTaskId, StoresInv, ReducesInv, FilesInv, NewMapTasks, ReportedIn, QueueInv,
         CountsInv;
    ReachableInv(c, s);
    AllMapsReported(c, s);
    MapThreadIndex(c, s, j);
    var k := ReportPosition(c, s, Maps(c) - 1 - m);
    UniqueEntry(c, s, k, m);
  }

  lemma ReportPosition(c: Config, s: System, i: nat) returns (k: nat)
    requires OrderInv(c, s) && i < MapThreads(c, s) && s.threads[i].stage.Reported?
    ensures k < |s.order| && s.order[k] == i
  {
    hide LocationsInv;
    assert i in s.order;
    k :| k < |s.order| && s.order[k] == i;
  }

  lemma UniqueEntry(c: Config, s: System, k: nat, m: nat)
    requires Inv(c, s) && Emitted(c) != [] && k < |s.order| && m == Maps(c) - 1 - s.order[k]
    ensures OnlyEntryOf(c, s, s.jt.locations, k, m)
  {
    hide Inv, MapTaskId, SortedEmitted, Emitted, OrderInv, LocationsInv;
    assert OrderInv(c, s) by { InvOrder(c, s); }
    SnapshotEntry(c, s, k);
    LocationStored(c, s, k);
    forall l: nat | l < |s.jt.locations| && l != k ensures s.jt.locations[l].taskId != MapTaskId(m) {
      SnapshotEntry(c, s, l);
      OrderDistinct(c, s, k, l);
      TaskIdInjective(Maps(c) - 1 - s.order[l], m);
    }
  }

  lemma InvOrder(c: Config, s: System)
    requires Inv(c, s)
    ensures OrderInv(c, s)
  {
    hide OrderInv;
  }

  lemma AllMapsReported(c: Config, s: System)
    requires Inv(c, s) && Maps(c) < |s.threads|
    ensures forall i :: 0 <= i < Maps(c) ==> s.threads[i].stage.Reported?
    ensures s.jt.mapsCompleted == Maps(c) == |s.order|
  {
    hide MapTaskId, NewMapTasks, ReportedIn, OrderInv, StoresInv, TasksInv, ReducesInv, FilesInv;
    ReportedBound(s.threads, 0, MapThreads(c, s));
  }

  lemma OrderDistinct(c: Config, s: System, k: nat, l: nat)
    requires OrderInv(c, s) && k < |s.order| && l < |s.order| && k != l
    ensures s.order[k] != s.order[l]
  {
    hide LocationsInv;
    if k < l { assert s.order[k] != s.order[l]; } else { assert s.order[l] != s.order[k]; }
  }

  lemma SnapshotEntry(c: Config, s: System, k: nat)
    requires OrderInv(c, s) && Emitted(c) != [] && (k < |s.order| || k < |s.jt.locations|)
    ensures |s.jt.locations| == |s.order| && 0 <= s.order[k] < Maps(c)
    ensures s.jt.locations[k].taskId == MapTaskId(Maps(c) - 1 - s.order[k])
  {
    hide MapTaskId, Emitted;
    assert s.jt.locations[k] == LocationOf(c, s.threads, s.order[k]);
  }

  /** Threads are never dropped or reassigned, and one that has run never runs again. */
  ghost predicate Later(s: System, s': System) {
    |s.threads| <= |s'.threads| &&
    forall j :: 0 <= j < |s.threads| ==>
      s'.threads[j].task == s.threads[j].task && s'.threads[j].addr == s.threads[j].addr &&
      (s'.threads[j].stage.Working? ==> s.threads[j].stage.Working?)
  }

  lemma StepLater(c: Config, s: System, a: Action)
    requires Enabled(c, s, a)
    ensures Later(s, Apply(c, s, a))
  {
    hide Poll, MapStore, ReduceText, Parts, Completed, Fetched;
  }

  lemma {:induction false} RunLater(c: Config, s: System, acts: seq<Action>, s': System)
    requires Run(c, s, acts, s')
    ensures Later(s, s')
    decreases |acts|
  {
    hide Apply, Enabled;
    if acts != [] {
      StepLater(c, s, acts[0]);
      RunLater(c, Apply(c, s, acts[0]), acts[1..], s');
    }
  }

  /** Once a map has run, its stored output stays what it is whatever happens afterwards. */
  lemma OutputStable(c: Config, s: System, acts: seq<Action>, s': System, j: nat)
    requires Reachable(c, s) && Run(c, s, acts, s')
    requires j < MapThreads(c, s) && !s.threads[j].stage.Working? && Emitted(c) != []
    ensures j < |s'.threads| && s'.threads[j].task == s.threads[j].task
    ensures Stored(c, s.stores, s.threads[j]) && Stored(c, s'.stores, s.threads[j])
  {
    hide Run, Emitted, SortedEmitted, MapTaskId;
    ReachableInv(c, s);
    RunInv(c, s, acts, s');
    RunLater(c, s, acts, s');
    assert Stored(c, s'.stores, s'.threads[j]);
  }

  // ---- Progress -----------------------------------------------------------------------------------------

  function Rank(t: Thread): nat {
    match t.stage
    case Working(next, _, _) => 3 + if next <= |t.task.mapOutputs| then |t.task.mapOutputs| - next else 0
    case Executed => 2
    case Sending(_) => 1
    case Reported => 0
  }

  function Work(threads: seq<Thread>): nat {
    if threads == [] then 0 else Work(threads[..|threads| - 1]) + Rank(threads[|threads| - 1])
  }

  /** Work left: over queued maps, threads, uncreated reduces, and the flag itself. */
  function Measure(c: Config, s: System): int {
    4 * |s.jt.pendingMaps| + Work(s.threads) + (Maps(c) + 4) * (Reduces(c) - s.jt.reducesCreated)
    + if s.jt.done then 0 else 1
  }

  lemma {:induction false} WorkUpdate(threads: seq<Thread>, i: nat, t: Thread)
    requires i < |threads|
    ensures Work(threads[i := t]) == Work(threads) - Rank(threads[i]) + Rank(t)
  {
    var n := |threads| - 1;
    if i < n {
      WorkUpdate(threads[..n], i, t);
      assert threads[i := t][..n] == threads[..n][i := t];
    } else {
      assert threads[i := t][..n] == threads[..n];
    }
  }

  lemma WorkAppend(threads: seq<Thread>, t: Thread)
    ensures Work(threads + [t]) == Work(threads) + Rank(t)
  {
    assert (threads + [t])[..|threads|] == threads;
  }

  lemma PollProgress(c: Config, s: System, addr: Addr)
    requires Inv(c, s)
    ensures ApplyPoll(s, addr) == s || Measure(c, ApplyPoll(s, addr)) < Measure(c, s)
    ensures s.jt.pendingMaps != [] || ReduceReady(c, s) || (JobComplete(c, s) && !s.jt.done) ==>
            Measure(c, ApplyPoll(s, addr)) < Measure(c, s)
  {
    hide OrderInv, StoresInv, ReducesInv, FilesInv, NewMapTasks, MapTaskId, ReduceTaskId, ApplyPoll, Work,
         ReportedIn, TasksInv;
    PollCases(c, s, addr);
    if s.jt.pendingMaps != [] {
      NewMapTasksLength(c.inputPath, |s.jt.pendingMaps| - 1);
      WorkAppend(s.threads, WithMapThread(c, s, addr).threads[|s.threads|]);
    } else if ReduceReady(c, s) {
      WorkAppend(s.threads, WithReduceThread(c, s, addr).threads[|s.threads|]);
      SnapshotBound(c, s);
      ReduceWeight(Maps(c), Reduces(c), s.jt.reducesCreated);
    }
  }

  lemma ReduceWeight(n: int, total: int, created: int)
    ensures (n + 4) * (total - (created + 1)) == (n + 4) * (total - created) - (n + 4)
  {
  }

  /** Every step of a thread lowers the measure. */
  lemma ThreadStepProgress(c: Config, s: System, a: Action)
    requires Inv(c, s) && Enabled(c, s, a) && !a.PollBy?
    ensures Measure(c, Apply(c, s, a)) < Measure(c, s)
  {
    hide Inv, MapStore, ReduceText, Parts, PartLocations, Fetched, Work, Maps, Reduces;
    var s' := Apply(c, s, a);
    var i := a.i;
    WorkUpdate(s.threads, i, s'.threads[i]);
    assert s'.jt.pendingMaps == s.jt.pendingMaps && s'.jt.reducesCreated == s.jt.reducesCreated;
  }

  /** A step either changes nothing (an idle poll) or lowers the measure. */
  lemma StepProgress(c: Config, s: System, a: Action)
    requires Inv(c, s) && Enabled(c, s, a)
    ensures Apply(c, s, a) == s || Measure(c, Apply(c, s, a)) < Measure(c, s)
  {
    hide Inv, Measure, ApplyPoll;
    if a.PollBy? { PollProgress(c, s, a.addr); } else { ThreadStepProgress(c, s, a); }
  }

  lemma {:induction false} MeasureNonNegative(c: Config, s: System)
    requires Inv(c, s)
    ensures Measure(c, s) >= 0
  {
    hide OrderInv, StoresInv, ReducesInv, FilesInv, NewMapTasks, TasksInv, CountsInv, Work;
    var a, b := Maps(c) + 4, Reduces(c) - s.jt.reducesCreated;
    assert a * b >= 0;
  }

  function FirstUnreported(threads: seq<Thread>): (i: nat)
    ensures i <= |threads|
    ensures i < |threads| ==> !threads[i].stage.Reported?
    ensures i == |threads| ==> forall j :: 0 <= j < |threads| ==> threads[j].stage.Reported?
  {
    if threads == [] then 0
    else if !threads[0].stage.Reported? then 0
    else 1 + FirstUnreported(threads[1..])
  }

  function ThreadAction(t: Thread, i: nat, up: bool): Action {
    match t.stage
    case Working(next, _, _) =>
      if t.task.taskType.MapTask? then RunMap(i)
      else if next < |t.task.mapOutputs| then Fetch(i, up) else WriteOutput(i)
    case Executed => CountParts(i)
    case Sending(_) => Report(i)
    case Reported => Report(i)
  }

  /** A schedule that runs threads to their report before it polls again; `up` says whether connections work. */
  function NextAction(s: System, addr: Addr, up: bool): Action {
    var i := FirstUnreported(s.threads);
    if i < |s.threads| then ThreadAction(s.threads[i], i, up) else PollBy(addr)
  }

  /** In every reachable state where the job is not done, some step that lowers the measure can be taken, whether or
      not connections work. */
  lemma NotStuck(c: Config, s: System, addr: Addr, up: bool)
    requires Inv(c, s) && !s.jt.done && addr in c.trackers
    ensures Enabled(c, s, NextAction(s, addr, up))
    ensures Measure(c, Apply(c, s, NextAction(s, addr, up))) < Measure(c, s)
  {
    var i := FirstUnreported(s.threads);
    if i < |s.threads| {
      UnreportedEnabled(c, s, i, up);
      hide Inv, Apply, Measure, Enabled;
      ThreadStepProgress(c, s, ThreadAction(s.threads[i], i, up));
    } else {
      IdleOnlyWhenDone(c, s);
      PollProgress(c, s, addr);
    }
    hide Inv, Measure, ApplyPoll;
  }

  lemma UnreportedEnabled(c: Config, s: System, i: nat, up: bool)
    requires Inv(c, s) && i < |s.threads| && !s.threads[i].stage.Reported?
    ensures Enabled(c, s, ThreadAction(s.threads[i], i, up)) && !ThreadAction(s.threads[i], i, up).PollBy?
  {
    hide QueueInv, CountsInv, OrderInv, StoresInv, FilesInv, DoneInv, Repeat, SortedEmitted;
    MapThreadIndex(c, s, i);
    hide TaskOf;
  }

  lemma IdleOnlyWhenDone(c: Config, s: System)
    requires Inv(c, s) && forall j :: 0 <= j < |s.threads| ==> s.threads[j].stage.Reported?
    ensures s.jt.pendingMaps != [] || ReduceReady(c, s) || JobComplete(c, s)
  {
    hide OrderInv, StoresInv, FilesInv, DoneInv, ReducesInv, TasksInv, ReportedIn, NewMapTasks;
    ReportedBound(s.threads, 0, MapThreads(c, s));
    if |s.threads| >= Maps(c) {
      ReportedBound(s.threads, Maps(c), |s.threads|);
    }
  }

  /** Once the flag is set, everything ran and reported, and no poll hands out a task any more. */
  lemma DoneMeansAllReported(c: Config, s: System, addr: Addr)
    requires Reachable(c, s) && s.jt.done
    ensures |s.threads| == Maps(c) + Reduces(c)
    ensures forall j :: 0 <= j < |s.threads| ==> s.threads[j].stage.Reported?
    ensures Poll(s.jt).1 == None && ApplyPoll(s, addr).threads == s.threads
  {
    hide OrderInv, StoresInv, FilesInv, ReducesInv, TasksInv, ReportedIn, NewMapTasks, ApplyPoll;
    ReachableInv(c, s);
    ReportedBound(s.threads, 0, MapThreads(c, s));
    ReportedBound(s.threads, Maps(c), |s.threads|);
    PollCases(c, s, addr);
    assert Poll(s.jt).1 == None;
  }

  /** How many steps of a run changed the state. */
  ghost function Changes(c: Config, s: System, acts: seq<Action>): nat
    decreases |acts|
  {
    if acts == [] || !Enabled(c, s, acts[0]) then 0
    else var s' := Apply(c, s, acts[0]); (if s' == s then 0 else 1) + Changes(c, s', acts[1..])
  }

  /** However the steps interleave, only a bounded number of them are not idle polls. */
  lemma {:induction false} BoundedWork(c: Config, s: System, acts: seq<Action>, s': System)
    requires Inv(c, s) && Run(c, s, acts, s')
    ensures Changes(c, s, acts) + Measure(c, s') <= Measure(c, s)
    decreases |acts|
  {
    hide Inv, Measure, Apply, Enabled;
    if acts != [] {
      StepInv(c, s, acts[0]);
      StepProgress(c, s, acts[0]);
      BoundedWork(c, Apply(c, s, acts[0]), acts[1..], s');
    }
  }
}
