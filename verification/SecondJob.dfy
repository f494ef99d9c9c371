/** What the state a tracker keeps across submissions does to later jobs: the done flag stays set, a second job can
    end only if the first created no reduce or the second asks for none, and what its reduces are told to fetch. */
module SecondJob {
  import opened DistJobTracker

  /** A tracker and the tasks handed out since the submission that have not been reported. */
  datatype Job = Job(jt: Jt, running: seq<Task>)

  /** A poll, or the report of one running task; `parts`, `host` and `port` are what a map report says. */
  datatype Call = CallPoll | CallReport(i: nat, parts: int, host: string, port: int)

  predicate Possible(j: Job, call: Call) {
    call.CallReport? ==> call.i < |j.running|
  }

  function WithoutAt<T>(s: seq<T>, i: nat): seq<T>
    requires i < |s|
  {
    s[..i] + s[i + 1..]
  }

  function Handle(j: Job, call: Call): Job
    requires Possible(j, call)
  {
    match call
    case CallPoll =>
      var (jt, task) := Poll(j.jt);
      Job(jt, if task.Some? then j.running + [task.value] else j.running)
    case CallReport(i, parts, host, port) =>
      Job(Completed(j.jt, j.running[i].taskId, j.running[i].taskType, parts, host, port), WithoutAt(j.running, i))
  }

  /** From `from`, the handlers can serve these calls, each report naming a running task, and end in `to`. */
  ghost predicate JobRun(from: Job, calls: seq<Call>, to: Job)
    decreases |calls|
  {
    if calls == [] then from == to
    else Possible(from, calls[0]) && JobRun(Handle(from, calls[0]), calls[1..], to)
  }

  // ---- The done flag --------------------------------------------------------------------------------------

  function Polls(jt: Jt, n: nat): Jt {
    if n == 0 then jt else Poll(Polls(jt, n - 1)).0
  }

  lemma {:induction false} PollsBeforeSubmission(n: nat)
    ensures Polls(Fresh(), n) == Fresh().(done := n > 0, state := if n > 0 then Succeeded else Pending)
  {
    if n > 0 {
      PollsBeforeSubmission(n - 1);
    }
  }

  lemma {:induction false} DoneStays(from: Job, calls: seq<Call>, to: Job)
    requires JobRun(from, calls, to) && from.jt.done
    ensures to.jt.done
    decreases |calls|
  {
    if calls != [] { DoneStays(Handle(from, calls[0]), calls[1..], to); }
  }

  /** Right after the first submission the flag is clear exactly when nobody had polled before, and a poll before it
      leaves the flag set through every run of that job. */
  lemma DoneFlagAfterSubmit(n: nat, inputPath: string, outputPath: string, numMaps: int, numReduces: int,
                            calls: seq<Call>, to: Job)
    requires JobRun(Job(Submit(Polls(Fresh(), n), inputPath, outputPath, numMaps, numReduces), []), calls, to)
    ensures var jt := Submit(Polls(Fresh(), n), inputPath, outputPath, numMaps, numReduces);
            (!jt.done <==> n == 0) && jt.mapsCompleted == 0 && jt.reducesCreated == 0 &&
            jt.pendingMaps == NewMapTasks(inputPath, numMaps)
    ensures n > 0 ==> to.jt.done
  {
    PollsBeforeSubmission(n);
    var from := Job(Submit(Polls(Fresh(), n), inputPath, outputPath, numMaps, numReduces), []);
    assert [] + NewMapTasks(inputPath, numMaps) == NewMapTasks(inputPath, numMaps);
    if n > 0 { DoneStays(from, calls, to); }
  }

  // ---- The second job -------------------------------------------------------------------------------------

  /** What a tracker holds between jobs: no reduce is queued, and only maps are. */
  predicate BetweenJobs(jt: Jt) {
    jt.pendingReduces == [] && jt.reducesCreated >= 0 &&
    forall i :: 0 <= i < |jt.pendingMaps| ==> jt.pendingMaps[i].taskType.MapTask?
  }

  function CountOf(running: seq<Task>, t: TaskType): nat {
    if running == [] then 0
    else CountOf(running[..|running| - 1], t) + if running[|running| - 1].taskType == t then 1 else 0
  }

  lemma {:induction false} CountWithout(running: seq<Task>, i: nat, t: TaskType)
    requires i < |running|
    ensures CountOf(running, t) == CountOf(WithoutAt(running, i), t) + if running[i].taskType == t then 1 else 0
  {
    var n := |running| - 1;
    if i == n {
      assert WithoutAt(running, i) == running[..n];
    } else {
      CountWithout(running[..n], i, t);
      var rest := WithoutAt(running, i);
      assert rest[..|rest| - 1] == WithoutAt(running[..n], i) && rest[|rest| - 1] == running[n];
    }
  }

  lemma CountMore(running: seq<Task>, task: Task, t: TaskType)
    ensures CountOf(running + [task], t) == CountOf(running, t) + if task.taskType == t then 1 else 0
  {
    assert (running + [task])[..|running|] == running;
  }

  /** Every reduce created since the submission is running or reported, and the maps that are neither queued nor
      running are counted. */
  ghost predicate JobInv(j: Job, before: int, numMaps: int, numReduces: int) {
    && BetweenJobs(j.jt) && j.jt.numMaps == numMaps && j.jt.numReduces == numReduces
    && before >= 0 && j.jt.reducesCreated >= before
    && (j.jt.reducesCreated > before ==> j.jt.reducesCreated <= numReduces)
    && j.jt.reducesCompleted >= 0 && j.jt.mapsCompleted >= 0
    && j.jt.reducesCompleted + CountOf(j.running, ReduceTask) == j.jt.reducesCreated - before
    && j.jt.mapsCompleted + CountOf(j.running, MapTask) + |j.jt.pendingMaps| >= numMaps
  }

  lemma {:induction false} NewMapsAreMaps(inputPath: string, n: int)
    ensures forall i :: 0 <= i < |NewMapTasks(inputPath, n)| ==> NewMapTasks(inputPath, n)[i].taskType.MapTask?
    ensures |NewMapTasks(inputPath, n)| >= n
  {
    if n > 0 { NewMapsAreMaps(inputPath, n - 1); }
  }

  lemma SubmittedInv(jt: Jt, inputPath: string, outputPath: string, numMaps: int, numReduces: int)
    requires BetweenJobs(jt)
    ensures JobInv(Job(Submit(jt, inputPath, outputPath, numMaps, numReduces), []), jt.reducesCreated, numMaps,
                   numReduces)
  {
    NewMapsAreMaps(inputPath, numMaps);
  }

  lemma PollKeeps(j: Job, before: int, numMaps: int, numReduces: int)
    requires JobInv(j, before, numMaps, numReduces)
    ensures JobInv(Handle(j, CallPoll), before, numMaps, numReduces)
    ensures Handle(j, CallPoll).jt.state == Succeeded ==>
              j.jt.state == Succeeded || j.jt.reducesCompleted >= numReduces
  {
    hide ReduceTaskId, CountOf;
    var task := Poll(j.jt).1;
    if task.Some? {
      CountMore(j.running, task.value, MapTask);
      CountMore(j.running, task.value, ReduceTask);
    }
  }

  lemma ReportKeeps(j: Job, i: nat, parts: int, host: string, port: int, before: int, numMaps: int, numReduces: int)
    requires JobInv(j, before, numMaps, numReduces) && i < |j.running|
    ensures JobInv(Handle(j, CallReport(i, parts, host, port)), before, numMaps, numReduces)
    ensures Handle(j, CallReport(i, parts, host, port)).jt.state == j.jt.state
  {
    hide CountOf, PartLocations;
    CountWithout(j.running, i, MapTask);
    CountWithout(j.running, i, ReduceTask);
  }

  lemma CallKeeps(j: Job, call: Call, before: int, numMaps: int, numReduces: int)
    requires JobInv(j, before, numMaps, numReduces) && Possible(j, call)
    ensures JobInv(Handle(j, call), before, numMaps, numReduces)
    ensures Handle(j, call).jt.state == Succeeded ==> j.jt.state == Succeeded || j.jt.reducesCompleted >= numReduces
  {
    hide JobInv, Handle;
    match call
    case CallPoll => PollKeeps(j, before, numMaps, numReduces);
    case CallReport(i, parts, host, port) => ReportKeeps(j, i, parts, host, port, before, numMaps, numReduces);
  }

  /** Once the first job created a reduce, no run of a second job that asks for one ends it. */
  lemma {:induction false} NeverEnds(j: Job, calls: seq<Call>, to: Job, before: int, numMaps: int, numReduces: int)
    requires JobInv(j, before, numMaps, numReduces) && JobRun(j, calls, to) && j.jt.state != Succeeded
    requires before >= 1 && numReduces >= 1
    ensures to.jt.state != Succeeded && JobInv(to, before, numMaps, numReduces)
    decreases |calls|
  {
    hide JobInv, Handle;
    if calls != [] {
      var next := Handle(j, calls[0]);
      CallKeeps(j, calls[0], before, numMaps, numReduces);
      FewReports(j, before, numMaps, numReduces);
      NeverEnds(next, calls[1..], to, before, numMaps, numReduces);
    }
  }

  lemma FewReports(j: Job, before: int, numMaps: int, numReduces: int)
    requires JobInv(j, before, numMaps, numReduces) && before >= 1 && numReduces >= 1
    ensures j.jt.reducesCompleted < numReduces
  {
  }

  // ---- A run that ends the job ----------------------------------------------------------------------------

  function Left(j: Job): int {
    2 * |j.jt.pendingMaps| + |j.running| +
    (if j.jt.reducesCreated < j.jt.numReduces then 2 * (j.jt.numReduces - j.jt.reducesCreated) else 0)
  }

  /** Report what is running, and poll when nothing is. */
  function NextCall(j: Job): Call {
    if j.running != [] then CallReport(0, 0, "", 0) else CallPoll
  }

  lemma NextCallWorks(j: Job, before: int, numMaps: int, numReduces: int)
    requires JobInv(j, before, numMaps, numReduces) && (before == 0 || numReduces <= 0)
    ensures Possible(j, NextCall(j)) && JobInv(Handle(j, NextCall(j)), before, numMaps, numReduces)
    ensures Handle(j, NextCall(j)).jt.state == Succeeded || Left(Handle(j, NextCall(j))) < Left(j)
  {
    hide ReduceTaskId, PartLocations;
    if j.running != [] {
      ReportKeeps(j, 0, 0, "", 0, before, numMaps, numReduces);
    } else {
      PollKeeps(j, before, numMaps, numReduces);
    }
  }

  lemma {:induction false} RunsToEnd(j: Job, before: int, numMaps: int, numReduces: int)
    returns (calls: seq<Call>, to: Job)
    requires JobInv(j, before, numMaps, numReduces) && (before == 0 || numReduces <= 0)
    ensures JobRun(j, calls, to) && to.jt.state == Succeeded
    decreases Left(j)
  {
    hide JobInv, Handle, Possible, NextCall, Left;
    if j.jt.state == Succeeded {
      calls, to := [], j;
    } else {
      var call := NextCall(j);
      NextCallWorks(j, before, numMaps, numReduces);
      var next := Handle(j, call);
      if next.jt.state == Succeeded {
        calls, to := [call], next;
        assert calls[1..] == [];
      } else {
        LeftIsNat(next);
        var rest;
        rest, to := RunsToEnd(next, before, numMaps, numReduces);
        calls := [call] + rest;
        assert calls[1..] == rest;
      }
    }
  }

  lemma LeftIsNat(j: Job)
    ensures Left(j) >= 0
  {
  }

  ghost predicate CanEnd(j: Job) {
    exists calls: seq<Call>, to: Job :: JobRun(j, calls, to) && to.jt.state == Succeeded
  }

  /** A job submitted between jobs, with nothing of the earlier ones still running, can end exactly when no reduce
      was ever created before or it asks for none: the numbering goes on, so at least one of its reduces is never
      handed out, while the reports are counted from zero. */
  lemma SecondJobEndsIff(jt: Jt, inputPath: string, outputPath: string, numMaps: int, numReduces: int)
    requires BetweenJobs(jt)
    ensures CanEnd(Job(Submit(jt, inputPath, outputPath, numMaps, numReduces), [])) <==>
              jt.reducesCreated == 0 || numReduces <= 0
  {
    hide JobRun, JobInv;
    var j := Job(Submit(jt, inputPath, outputPath, numMaps, numReduces), []);
    SubmittedInv(jt, inputPath, outputPath, numMaps, numReduces);
    if jt.reducesCreated == 0 || numReduces <= 0 {
      var calls, to := RunsToEnd(j, jt.reducesCreated, numMaps, numReduces);
    } else if CanEnd(j) {
      var calls, to :| JobRun(j, calls, to) && to.jt.state == Succeeded;
      NeverEnds(j, calls, to, jt.reducesCreated, numMaps, numReduces);
    }
  }

  predicate OnlyMaps(j: Job) {
    forall i :: 0 <= i < |j.running| ==> j.running[i].taskType.MapTask?
  }

  lemma StarvedStep(j: Job, call: Call)
    requires BetweenJobs(j.jt) && j.jt.reducesCreated >= j.jt.numReduces && OnlyMaps(j) && Possible(j, call)
    ensures var j' := Handle(j, call);
            BetweenJobs(j'.jt) && j'.jt.reducesCreated >= j'.jt.numReduces && OnlyMaps(j')
  {
    hide PartLocations;
  }

  /** A second job that asks for no more reduces than were created before never gets one at all. */
  lemma {:induction false} SecondJobStarves(j: Job, calls: seq<Call>, to: Job)
    requires BetweenJobs(j.jt) && j.jt.reducesCreated >= j.jt.numReduces && OnlyMaps(j) && JobRun(j, calls, to)
    ensures OnlyMaps(to) && (Poll(to.jt).1.Some? ==> Poll(to.jt).1.value.taskType.MapTask?)
    decreases |calls|
  {
    hide Handle;
    if calls != [] {
      StarvedStep(j, calls[0]);
      SecondJobStarves(Handle(j, calls[0]), calls[1..], to);
    }
  }

  // ---- What its reduces fetch -----------------------------------------------------------------------------

  /** The reduces handed out since the submission are numbered from `before` on, and their snapshots start with the
      locations `known` then. */
  ghost predicate LateReduces(j: Job, before: int, known: seq<Location>) {
    && BetweenJobs(j.jt) && j.jt.reducesCreated >= before && known <= j.jt.locations
    && forall i :: 0 <= i < |j.running| && j.running[i].taskType.ReduceTask? ==>
         j.running[i].partition >= before && known <= j.running[i].mapOutputs
  }

  lemma LateStep(j: Job, call: Call, before: int, known: seq<Location>)
    requires LateReduces(j, before, known) && Possible(j, call)
    ensures LateReduces(Handle(j, call), before, known)
  {
    hide PartLocations, ReduceTaskId;
  }

  lemma {:induction false} LateRun(j: Job, calls: seq<Call>, to: Job, before: int, known: seq<Location>)
    requires LateReduces(j, before, known) && JobRun(j, calls, to)
    ensures LateReduces(to, before, known)
    decreases |calls|
  {
    hide LateReduces, Handle;
    if calls != [] {
      LateStep(j, calls[0], before, known);
      LateRun(Handle(j, calls[0]), calls[1..], to, before, known);
    }
  }

  /** On every run of a later job, each reduce has a partition that no earlier reduce had, and is told to fetch the
      earlier jobs' map outputs too. */
  lemma LaterReduces(jt: Jt, inputPath: string, outputPath: string, numMaps: int, numReduces: int, calls: seq<Call>,
                     to: Job, i: nat)
    requires BetweenJobs(jt) && JobRun(Job(Submit(jt, inputPath, outputPath, numMaps, numReduces), []), calls, to)
    requires i < |to.running| && to.running[i].taskType.ReduceTask?
    ensures to.running[i].partition >= jt.reducesCreated && jt.locations <= to.running[i].mapOutputs
  {
    hide JobRun;
    NewMapsAreMaps(inputPath, numMaps);
    var from := Job(Submit(jt, inputPath, outputPath, numMaps, numReduces), []);
    LateRun(from, calls, to, jt.reducesCreated, jt.locations);
  }
}

/** A second submission after a distributed job has run to its end. */
module AfterDoneJob {
  import opened Order
  import opened Tables
  import opened InputFormat
  import opened DistJobTracker
  import opened JobTracker
  import opened TaskTracker
  import opened DistSystem
  import opened DistInvariant
  import S = SecondJob

  /** After any finished job that had a reduce, a second job that has one never ends. */
  lemma NextJobEndsIff(c: Config, s: System, inputPath: string, outputPath: string, numMaps: int, numReduces: int)
    requires Reachable(c, s) && s.jt.done
    ensures S.CanEnd(S.Job(Submit(s.jt, inputPath, outputPath, numMaps, numReduces), [])) <==>
              c.reduces <= 0 || numReduces <= 0
  {
    hide S.CanEnd, TasksInv, CountsInv, OrderInv, StoresInv, ReducesInv, FilesInv, NewMapTasks, Reachable;
    ReachableInv(c, s);
    S.SecondJobEndsIff(s.jt, inputPath, outputPath, numMaps, numReduces);
  }

  /** After any finished job the second one counts as done from its submission on, before any of its tasks ran. */
  lemma NextJobLooksDone(c: Config, s: System, inputPath: string, outputPath: string, numMaps: int, numReduces: int,
                         calls: seq<S.Call>, to: S.Job)
    requires Reachable(c, s) && s.jt.done
    requires S.JobRun(S.Job(Submit(s.jt, inputPath, outputPath, numMaps, numReduces), []), calls, to)
    ensures Submit(s.jt, inputPath, outputPath, numMaps, numReduces).done && to.jt.done
  {
    S.DoneStays(S.Job(Submit(s.jt, inputPath, outputPath, numMaps, numReduces), []), calls, to);
  }

  /** A map task run by the tracker at the address. */
  datatype Ran = Ran(addr: Addr, task: Task, content: string)

  function StoresAfter(stores: map<Addr, Store>, ran: seq<Ran>, mapper: Mapper, hash: Hash): map<Addr, Store> {
    if ran == [] then stores
    else
      var before := StoresAfter(stores, ran[..|ran| - 1], mapper, hash);
      var r := ran[|ran| - 1];
      if r.addr in before then before[r.addr := MapStore(before[r.addr], r.task, r.content, mapper, hash)] else before
  }

  ghost predicate OnlyFirstPartition(stores: map<Addr, Store>) {
    forall a, key :: a in stores && key in stores[a] ==> key.1 == 0
  }

  lemma {:induction false} FiledUnderFirst(store: Store, taskId: string, hash: Hash, pairs: seq<KV>)
    requires forall key :: key in store ==> key.1 == 0
    ensures forall key :: key in StorePairs(store, taskId, hash, pairs) ==> key.1 == 0
  {
    if pairs != [] { FiledUnderFirst(store, taskId, hash, pairs[..|pairs| - 1]); }
  }

  lemma {:induction false} StaysFirst(stores: map<Addr, Store>, ran: seq<Ran>, mapper: Mapper, hash: Hash)
    requires OnlyFirstPartition(stores)
    ensures OnlyFirstPartition(StoresAfter(stores, ran, mapper, hash))
  {
    hide MapOutput, SortPairs, StorePairs;
    if ran != [] {
      var init, r := ran[..|ran| - 1], ran[|ran| - 1];
      StaysFirst(stores, init, mapper, hash);
      var before := StoresAfter(stores, init, mapper, hash);
      if r.addr in before {
        FiledUnderFirst(before[r.addr], r.task.taskId, hash, SortPairs(MapOutput(mapper, r.content, 0)));
      }
    }
  }

  lemma {:induction false} NothingGathered(stores: map<Addr, Store>, locs: seq<Location>, partition: int)
    requires OnlyFirstPartition(stores) && partition != 0
    ensures Gathered(stores, locs, partition) == []
  {
    if locs != [] { NothingGathered(stores, locs[..|locs| - 1], partition); }
  }

  /** After any finished job that had a reduce, whatever maps have run since: every reduce that a second job is handed
      writes an empty file over the output. */
  lemma NextJobWritesEmpty(c: Config, s: System, inputPath: string, outputPath: string, numMaps: int, numReduces: int,
                           calls: seq<S.Call>, to: S.Job, i: nat, ran: seq<Ran>)
    requires Reachable(c, s) && s.jt.done && c.reduces >= 1
    requires S.JobRun(S.Job(Submit(s.jt, inputPath, outputPath, numMaps, numReduces), []), calls, to)
    requires i < |to.running| && to.running[i].taskType.ReduceTask?
    ensures var task := to.running[i];
            task.partition >= c.reduces &&
            ReduceText(Gathered(StoresAfter(s.stores, ran, c.mapper, c.hash), task.mapOutputs, task.partition),
                       c.reducer) == ""
  {
    hide S.JobRun, TasksInv, CountsInv, OrderInv, ReducesInv, FilesInv, NewMapTasks, Reachable, Gathered, StoresAfter;
    ReachableInv(c, s);
    S.LaterReduces(s.jt, inputPath, outputPath, numMaps, numReduces, calls, to, i);
    var task := to.running[i];
    StaysFirst(s.stores, ran, c.mapper, c.hash);
    NothingGathered(StoresAfter(s.stores, ran, c.mapper, c.hash), task.mapOutputs, task.partition);
    NothingWritten(c.reducer);
  }

  lemma NothingWritten(reducer: Reducer)
    ensures ReduceText([], reducer) == ""
  {
  }
}
