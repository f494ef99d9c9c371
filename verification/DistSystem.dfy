/** The distributed job as a step system: one DistJobTracker, any set of TaskTrackers, and the task threads
    they spawned. Every run of the system is one interleaving of polls, map executions, single shuffle fetches,
    output writes, part counts and reports. Calls are single steps; a shuffle connection may fail at any time. */
module DistSystem {
  import opened Order
  import opened Tables
  import opened InputFormat
  import opened DistJobTracker
  import opened JobTracker
  import opened TaskTracker

  datatype Config = Config(mapper: Mapper, reducer: Reducer, hash: Hash, inputPath: string, outputPath: string,
                           files: map<string, string>, maps: int, reduces: int, trackers: set<Addr>)

  /** Working(next, got, data): a reduce passed its first `next` locations, `got` of them without a failure, and holds
      `data`; a map has not run yet. Sending(parts): the report is on its way. */
  datatype Stage = Working(next: nat, got: nat, data: seq<KV>) | Executed | Sending(parts: nat) | Reported

  datatype Thread = Thread(addr: Addr, task: Task, stage: Stage)

  /** No step reads the last four: the order of map reports, the reduce that wrote the output last, how many locations
      it passed without a failure, and the number of failed fetches. */
  datatype System = System(jt: Jt, stores: map<Addr, Store>, threads: seq<Thread>, files: map<string, string>,
                           order: seq<int>, lastWriter: int, lastGot: nat, missed: nat)

  datatype Action =
    | PollBy(addr: Addr)
    | RunMap(i: nat)
    | Fetch(i: nat, up: bool)
    | WriteOutput(i: nat)
    | CountParts(i: nat)
    | Report(i: nat)

  function ReadFile(files: map<string, string>, path: string): string {
    if path in files then files[path] else ""
  }

  function Init(c: Config): System {
    System(Submit(Fresh(), c.inputPath, c.outputPath, c.maps, c.reduces), map a | a in c.trackers :: map[], [],
           c.files, [], -1, 0, 0)
  }

  predicate Enabled(c: Config, s: System, a: Action) {
    match a
    case PollBy(addr) => addr in c.trackers
    case RunMap(i) => i < |s.threads| && s.threads[i].task.taskType.MapTask? && s.threads[i].stage.Working? &&
                      s.threads[i].addr in s.stores
    case Fetch(i, _) => i < |s.threads| && s.threads[i].task.taskType.ReduceTask? && s.threads[i].stage.Working? &&
                     s.threads[i].stage.next < |s.threads[i].task.mapOutputs|
    case WriteOutput(i) => i < |s.threads| && s.threads[i].task.taskType.ReduceTask? &&
                           s.threads[i].stage.Working? &&
                           s.threads[i].stage.next == |s.threads[i].task.mapOutputs|
    case CountParts(i) => i < |s.threads| && s.threads[i].stage.Executed? && s.threads[i].addr in s.stores
    case Report(i) => i < |s.threads| && s.threads[i].stage.Sending?
  }

  function WithStage(s: System, i: nat, stage: Stage): System
    requires i < |s.threads|
  {
    s.(threads := s.threads[i := s.threads[i].(stage := stage)])
  }

  function ApplyPoll(s: System, addr: Addr): System {
    var (jt, task) := Poll(s.jt);
    s.(jt := jt, threads := if task.Some? then s.threads + [Thread(addr, task.value, Working(0, 0, []))] else s.threads)
  }

  function ApplyRunMap(c: Config, s: System, i: nat): System
    requires i < |s.threads| && s.threads[i].addr in s.stores
  {
    var t := s.threads[i];
    var store := MapStore(s.stores[t.addr], t.task, ReadFile(s.files, t.task.inputPath), c.mapper, c.hash);
    WithStage(s, i, Executed).(stores := s.stores[t.addr := store])
  }

  /** A location of another partition is passed over; else a connection is opened, which may fail. */
  function ApplyFetch(s: System, i: nat, up: bool): System
    requires i < |s.threads| && s.threads[i].stage.Working?
    requires s.threads[i].stage.next < |s.threads[i].task.mapOutputs|
  {
    var t := s.threads[i];
    var loc := t.task.mapOutputs[t.stage.next];
    if loc.partition == t.task.partition && !up then
      WithStage(s, i, Working(t.stage.next + 1, t.stage.got, t.stage.data)).(missed := s.missed + 1)
    else
      WithStage(s, i, Working(t.stage.next + 1, t.stage.got + 1,
                              t.stage.data + Fetched(s.stores, loc, t.task.partition)))
  }

  function ApplyWrite(c: Config, s: System, i: nat): System
    requires i < |s.threads| && s.threads[i].stage.Working?
  {
    var t := s.threads[i];
    WithStage(s, i, Executed).(files := s.files[t.task.outputPath := ReduceText(t.stage.data, c.reducer)],
                               lastWriter := t.task.partition, lastGot := t.stage.got)
  }

  function ApplyCount(s: System, i: nat): System
    requires i < |s.threads| && s.threads[i].addr in s.stores
  {
    var t := s.threads[i];
    WithStage(s, i, Sending(if t.task.taskType.MapTask? then Parts(s.stores[t.addr]) else 0))
  }

  function ApplyReport(s: System, i: nat): System
    requires i < |s.threads| && s.threads[i].stage.Sending?
  {
    var t := s.threads[i];
    WithStage(s, i, Reported).(
      jt := Completed(s.jt, t.task.taskId, t.task.taskType, t.stage.parts, t.addr.0, t.addr.1),
      order := if t.task.taskType.MapTask? then s.order + [i] else s.order)
  }

  function Apply(c: Config, s: System, a: Action): System
    requires Enabled(c, s, a)
  {
    match a
    case PollBy(addr) => ApplyPoll(s, addr)
    case RunMap(i) => ApplyRunMap(c, s, i)
    case Fetch(i, up) => ApplyFetch(s, i, up)
    case WriteOutput(i) => ApplyWrite(c, s, i)
    case CountParts(i) => ApplyCount(s, i)
    case Report(i) => ApplyReport(s, i)
  }

  /** s can be reached from the state right after the submission by some interleaving. */
  ghost predicate Reachable(c: Config, s: System) {
    exists acts: seq<Action> :: Run(c, Init(c), acts, s)
  }

  ghost predicate Run(c: Config, from: System, acts: seq<Action>, to: System)
    decreases |acts|
  {
    if acts == [] then from == to
    else Enabled(c, from, acts[0]) && Run(c, Apply(c, from, acts[0]), acts[1..], to)
  }

  // ---- Vocabulary of the invariant ------------------------------------------------------------------

  function Maps(c: Config): nat {
    if c.maps < 0 then 0 else c.maps
  }

  function Reduces(c: Config): nat {
    if c.reduces < 0 then 0 else c.reduces
  }

  /** The pairs every map task emits (each reads the whole input), and their sorted form. */
  function Emitted(c: Config): seq<KV> {
    MapOutput(c.mapper, ReadFile(c.files, c.inputPath), 0)
  }

  function SortedEmitted(c: Config): seq<KV> {
    SortPairs(Emitted(c))
  }

  /** The number of locations in a complete snapshot. */
  function Locations(c: Config): nat {
    if Emitted(c) == [] then 0 else Maps(c)
  }

  function Repeat(s: seq<KV>, n: nat): seq<KV> {
    if n == 0 then [] else Repeat(s, n - 1) + s
  }

  /** Map threads come first, handed out from the last map task down to the first. */
  function MapThreads(c: Config, s: System): nat {
    if |s.threads| < Maps(c) then |s.threads| else Maps(c)
  }

  function TaskOf(c: Config, j: nat, locs: seq<Location>): Task {
    if j < Maps(c) then NewMapTask(c.inputPath, Maps(c) - 1 - j)
    else Task(ReduceTaskId(j - Maps(c)), ReduceTask, j - Maps(c), "", c.outputPath, locs)
  }

  /** Number of reported threads among threads[lo..hi]. */
  function ReportedIn(threads: seq<Thread>, lo: nat, hi: nat): nat
    requires hi <= |threads|
  {
    if lo >= hi then 0 else ReportedIn(threads, lo, hi - 1) + if threads[hi - 1].stage.Reported? then 1 else 0
  }

  function LocationOf(c: Config, threads: seq<Thread>, j: int): Location
    requires 0 <= j < |threads|
  {
    Location(MapTaskId(Maps(c) - 1 - j), threads[j].addr.0, threads[j].addr.1, 0)
  }

  /** What reduce r writes after it got n locations: what n maps emitted for partition 0, nothing for any other. */
  function OutputOf(c: Config, r: int, n: nat): string {
    ReduceText(if r == 0 then Repeat(SortedEmitted(c), n) else [], c.reducer)
  }

  // ---- The invariant ----------------------------------------------------------------------------------

  ghost predicate QueueInv(c: Config, s: System) {
    && s.jt.inputPath == c.inputPath && s.jt.outputPath == c.outputPath
    && s.jt.numMaps == c.maps && s.jt.numReduces == c.reduces
    && s.jt.pendingMaps == NewMapTasks(c.inputPath, |s.jt.pendingMaps|) && |s.jt.pendingMaps| <= Maps(c)
    && s.jt.pendingReduces == []
    && 0 <= s.jt.reducesCreated <= Reduces(c)
    && (s.jt.reducesCreated > 0 ==> s.jt.pendingMaps == [])
    && |s.threads| == Maps(c) - |s.jt.pendingMaps| + s.jt.reducesCreated
  }

  ghost predicate TasksInv(c: Config, s: System) {
    && s.stores.Keys == c.trackers
    && forall j :: 0 <= j < |s.threads| ==>
         s.threads[j].addr in c.trackers && s.threads[j].task == TaskOf(c, j, s.jt.locations)
  }

  ghost predicate CountsInv(c: Config, s: System) {
    && s.jt.mapsCompleted == |s.order| == ReportedIn(s.threads, 0, MapThreads(c, s))
    && s.jt.reducesCompleted == ReportedIn(s.threads, Maps(c), |s.threads|)
    && (s.jt.reducesCreated > 0 ==> s.jt.mapsCompleted == Maps(c))
  }

  ghost predicate OrderInv(c: Config, s: System) {
    && (forall k :: 0 <= k < |s.order| ==>
          0 <= s.order[k] < MapThreads(c, s) && s.threads[s.order[k]].stage.Reported?)
    && (forall k, l :: 0 <= k < l < |s.order| ==> s.order[k] != s.order[l])
    && (forall j :: 0 <= j < MapThreads(c, s) && s.threads[j].stage.Reported? ==> j in s.order)
    && LocationsInv(c, s)
  }

  ghost predicate LocationsInv(c: Config, s: System)
    requires forall k :: 0 <= k < |s.order| ==> 0 <= s.order[k] < |s.threads|
  {
    if Emitted(c) == [] then s.jt.locations == []
    else |s.jt.locations| == |s.order| &&
         forall k :: 0 <= k < |s.order| ==> s.jt.locations[k] == LocationOf(c, s.threads, s.order[k])
  }

  /** Map m has not run: still queued, or its thread is waiting to run. */
  predicate NotRun(c: Config, s: System, m: int) {
    0 <= m < Maps(c) &&
    (Maps(c) - 1 - m >= |s.threads| || s.threads[Maps(c) - 1 - m].stage.Working?)
  }

  predicate Stored(c: Config, stores: map<Addr, Store>, t: Thread) {
    t.addr in stores && (t.task.taskId, 0) in stores[t.addr] &&
    stores[t.addr][(t.task.taskId, 0)] == SortedEmitted(c)
  }

  ghost predicate StoresInv(c: Config, s: System) {
    && (forall j :: 0 <= j < MapThreads(c, s) && !s.threads[j].stage.Working? && Emitted(c) != [] ==>
          Stored(c, s.stores, s.threads[j]))
    && (forall a, m :: a in s.stores && NotRun(c, s, m) ==> (MapTaskId(m), 0) !in s.stores[a])
    && (forall a, key :: a in s.stores && key in s.stores[a] ==> key.1 == 0)
    && (Emitted(c) == [] ==> forall a :: a in s.stores ==> s.stores[a] == map[])
    && (forall j :: 0 <= j < MapThreads(c, s) && s.threads[j].stage.Sending? ==>
          s.threads[j].stage.parts == if Emitted(c) == [] then 0 else 1)
  }

  ghost predicate ReducesInv(c: Config, s: System) {
    forall j :: Maps(c) <= j < |s.threads| && s.threads[j].stage.Working? ==>
      s.threads[j].stage.got <= s.threads[j].stage.next <= |s.jt.locations| &&
      s.threads[j].stage.next - s.threads[j].stage.got <= s.missed &&
      s.threads[j].stage.data == Repeat(SortedEmitted(c), if j == Maps(c) then s.threads[j].stage.got else 0)
  }

  ghost predicate FilesInv(c: Config, s: System) {
    if s.lastWriter == -1 then
      s.files == c.files && forall j :: Maps(c) <= j < |s.threads| ==> s.threads[j].stage.Working?
    else
      && 0 <= s.lastWriter && Maps(c) + s.lastWriter < |s.threads|
      && !s.threads[Maps(c) + s.lastWriter].stage.Working?
      && s.lastGot <= Locations(c) && Locations(c) - s.lastGot <= s.missed
      && s.files == c.files[c.outputPath := OutputOf(c, s.lastWriter, s.lastGot)]
  }

  ghost predicate DoneInv(c: Config, s: System) {
    s.jt.done ==> s.jt.state == Succeeded && s.jt.pendingMaps == [] && s.jt.mapsCompleted == Maps(c) &&
                  s.jt.reducesCreated == Reduces(c) && s.jt.reducesCompleted == Reduces(c)
  }

  ghost predicate Inv(c: Config, s: System) {
    QueueInv(c, s) && TasksInv(c, s) && CountsInv(c, s) && OrderInv(c, s) && StoresInv(c, s) && ReducesInv(c, s) &&
    FilesInv(c, s) && DoneInv(c, s)
  }
}
