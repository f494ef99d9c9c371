/** DistJobTracker: the scheduler of the distributed mode. Each handler is an atomic function on the tracker's
    fields; the class below updates the fields in place and is proved equal to these functions. */
module DistJobTracker {
  import opened Options
  import opened Text

  datatype TaskType = MapTask | ReduceTask

  datatype Location = Location(taskId: string, host: string, port: int, partition: int)

  datatype Task = Task(taskId: string, taskType: TaskType, partition: int, inputPath: string, outputPath: string,
                       mapOutputs: seq<Location>)

  datatype JobState = Pending | Running | Succeeded

  datatype Jt = Jt(inputPath: string, outputPath: string, numMaps: int, numReduces: int,
                   mapsCompleted: int, reducesCompleted: int, reducesCreated: int,
                   pendingMaps: seq<Task>, pendingReduces: seq<Task>, locations: seq<Location>,
                   state: JobState, done: bool)

  const JOB_ID := "job_001"

  function MapTaskId(i: int): string {
    JOB_ID + "_m_" + IntText(i)
  }

  function ReduceTaskId(r: int): string {
    JOB_ID + "_r_" + IntText(r)
  }

  lemma TaskIdInjective(i: int, j: int)
    ensures MapTaskId(i) == MapTaskId(j) ==> i == j
    ensures ReduceTaskId(i) == ReduceTaskId(j) ==> i == j
    ensures MapTaskId(i) != ReduceTaskId(j)
  {
    var p, q := JOB_ID + "_m_", JOB_ID + "_r_";
    assert MapTaskId(i)[|p|..] == IntText(i) && MapTaskId(j)[|p|..] == IntText(j);
    assert ReduceTaskId(i)[|q|..] == IntText(i) && ReduceTaskId(j)[|q|..] == IntText(j);
    if IntText(i) == IntText(j) { IntTextInjective(i, j); }
    assert MapTaskId(i)[8] == 'm' && ReduceTaskId(j)[8] == 'r';
  }

  /** Task ids as they go over the wire. */
  lemma TaskIdText(i: int)
    ensures MapTaskId(i) == "job_001_m_" + IntText(i) && ReduceTaskId(i) == "job_001_r_" + IntText(i)
  {
    hide IntText;
    assert JOB_ID + "_m_" == "job_001_m_" && JOB_ID + "_r_" == "job_001_r_";
  }

  function Fresh(): Jt {
    Jt("", "", 0, 0, 0, 0, 0, [], [], [], Pending, false)
  }

  function NewMapTask(inputPath: string, i: int): Task {
    Task(MapTaskId(i), MapTask, i, inputPath, "", [])
  }

  function NewMapTasks(inputPath: string, n: int): seq<Task> {
    if n <= 0 then [] else NewMapTasks(inputPath, n - 1) + [NewMapTask(inputPath, n - 1)]
  }

  lemma {:induction false} TasksAre(inputPath: string, n: int)
    ensures |NewMapTasks(inputPath, n)| == if n < 0 then 0 else n
    ensures forall i :: 0 <= i < n ==>
      NewMapTasks(inputPath, n)[i] == Task("job_001_m_" + IntText(i), MapTask, i, inputPath, "", [])
  {
    hide MapTaskId;
    if n > 0 {
      TasksAre(inputPath, n - 1);
      TaskIdText(n - 1);
    }
  }

  /** Handler 0. Earlier pending tasks, created reduces, locations and job_done_ are not reset. */
  function Submit(jt: Jt, inputPath: string, outputPath: string, numMaps: int, numReduces: int): Jt {
    jt.(inputPath := inputPath, outputPath := outputPath, numMaps := numMaps, numReduces := numReduces,
        mapsCompleted := 0, reducesCompleted := 0, state := Running,
        pendingMaps := jt.pendingMaps + NewMapTasks(inputPath, numMaps))
  }

  lemma SubmitFields(jt: Jt, inputPath: string, outputPath: string, numMaps: int, numReduces: int)
    ensures var jt' := Submit(jt, inputPath, outputPath, numMaps, numReduces);
            |jt'.pendingMaps| == |jt.pendingMaps| + (if numMaps < 0 then 0 else numMaps) &&
            jt.pendingMaps <= jt'.pendingMaps &&
            forall i :: 0 <= i < numMaps ==>
              jt'.pendingMaps[|jt.pendingMaps| + i] == Task("job_001_m_" + IntText(i), MapTask, i, inputPath, "", [])
  {
    hide NewMapTasks, IntText;
    TasksAre(inputPath, numMaps);
  }

  /** What the poller decodes from the reply for a task popped from the map queue. */
  function MapReply(t: Task, outputPath: string): Task {
    if t.taskType.MapTask? then t.(outputPath := "", mapOutputs := [])
    else t.(inputPath := "", outputPath := outputPath, mapOutputs := [])
  }

  function NewReduceTask(jt: Jt): Task {
    Task(ReduceTaskId(jt.reducesCreated), ReduceTask, jt.reducesCreated, "", jt.outputPath, jt.locations)
  }

  /** Creates the next reduce task once all maps have reported. */
  function CreateReduce(jt: Jt): Jt {
    if jt.mapsCompleted >= jt.numMaps && jt.reducesCreated < jt.numReduces then
      jt.(reducesCreated := jt.reducesCreated + 1, pendingReduces := jt.pendingReduces + [NewReduceTask(jt)])
    else jt
  }

  /** Handler 1: the new tracker state and the task assigned, if any. */
  function Poll(jt: Jt): (Jt, Option<Task>) {
    if jt.pendingMaps != [] then
      var last := |jt.pendingMaps| - 1;
      (jt.(pendingMaps := jt.pendingMaps[..last]), Some(MapReply(jt.pendingMaps[last], jt.outputPath)))
    else
      var jt' := CreateReduce(jt);
      if jt'.pendingReduces != [] then
        var last := |jt'.pendingReduces| - 1;
        (jt'.(pendingReduces := jt'.pendingReduces[..last]), Some(jt'.pendingReduces[last].(inputPath := "")))
      else if jt'.mapsCompleted >= jt'.numMaps && jt'.reducesCompleted >= jt'.numReduces then
        (jt'.(state := Succeeded, done := true), None)
      else (jt', None)
  }

  function PartLocations(taskId: string, host: string, port: int, parts: int): seq<Location> {
    if parts <= 0 then []
    else PartLocations(taskId, host, port, parts - 1) + [Location(taskId, host, port, parts - 1)]
  }

  lemma {:induction false} PartsAre(taskId: string, host: string, port: int, parts: int)
    ensures |PartLocations(taskId, host, port, parts)| == if parts < 0 then 0 else parts
    ensures forall i :: 0 <= i < parts ==>
      PartLocations(taskId, host, port, parts)[i] == Location(taskId, host, port, i)
  {
    if parts > 0 { PartsAre(taskId, host, port, parts - 1); }
  }

  /** Handler 2. */
  function Completed(jt: Jt, taskId: string, taskType: TaskType, parts: int, host: string, port: int): Jt {
    if taskType.MapTask? then
      jt.(locations := jt.locations + PartLocations(taskId, host, port, parts),
          mapsCompleted := jt.mapsCompleted + 1)
    else jt.(reducesCompleted := jt.reducesCompleted + 1)
  }

  class DistJobTracker {
    var inputPath: string
    var outputPath: string
    var numMaps: int
    var numReduces: int
    var mapsCompleted: int
    var reducesCompleted: int
    var pendingReducesCreated: int
    var pendingMaps: seq<Task>
    var pendingReduces: seq<Task>
    var mapOutputLocations: seq<Location>
    var jobState: JobState
    var jobDone: bool

    function State(): Jt
      reads this
    {
      Jt(inputPath, outputPath, numMaps, numReduces, mapsCompleted, reducesCompleted, pendingReducesCreated,
         pendingMaps, pendingReduces, mapOutputLocations, jobState, jobDone)
    }

    constructor ()
      ensures State() == Fresh()
    {
      inputPath, outputPath := "", "";
      numMaps, numReduces, mapsCompleted, reducesCompleted, pendingReducesCreated := 0, 0, 0, 0, 0;
      pendingMaps, pendingReduces, mapOutputLocations := [], [], [];
      jobState, jobDone := Pending, false;
    }

    method SubmitJob(inputPath: string, outputPath: string, numMaps: int, numReduces: int)
      modifies this
      ensures State() == Submit(old(State()), inputPath, outputPath, numMaps, numReduces)
      ensures this.inputPath == inputPath && this.outputPath == outputPath && this.numMaps == numMaps &&
              this.numReduces == numReduces && mapsCompleted == 0 && reducesCompleted == 0 && jobState == Running
      ensures pendingReducesCreated == old(pendingReducesCreated) && pendingReduces == old(pendingReduces) &&
              mapOutputLocations == old(mapOutputLocations) && jobDone == old(jobDone)
      ensures |pendingMaps| == |old(pendingMaps)| + (if numMaps < 0 then 0 else numMaps) &&
              old(pendingMaps) <= pendingMaps
      ensures forall i :: 0 <= i < numMaps ==>
        pendingMaps[|old(pendingMaps)| + i] == Task("job_001_m_" + IntText(i), MapTask, i, inputPath, "", [])
    {
      hide MapTaskId, IntText;
      this.inputPath, this.outputPath := inputPath, outputPath;
      this.numMaps, this.numReduces := numMaps, numReduces;
      mapsCompleted, reducesCompleted := 0, 0;
      jobState := Running;
      ghost var queued := pendingMaps;
      var i := 0;
      while i < numMaps
        invariant 0 <= i && (i <= numMaps || i == 0)
        invariant State() == old(State()).(inputPath := inputPath, outputPath := outputPath, numMaps := numMaps,
                                           numReduces := numReduces, mapsCompleted := 0, reducesCompleted := 0,
                                           state := Running,
                                           pendingMaps := queued + NewMapTasks(inputPath, i))
      {
        pendingMaps := pendingMaps + [Task(MapTaskId(i), MapTask, i, inputPath, "", [])];
        i := i + 1;
      }
      SubmitFields(old(State()), inputPath, outputPath, numMaps, numReduces);
    }

    method PollForTask() returns (reply: Option<Task>)
      modifies this
      ensures (State(), reply) == Poll(old(State()))
    {
      if pendingMaps != [] {
        var t := pendingMaps[|pendingMaps| - 1];
        pendingMaps := pendingMaps[..|pendingMaps| - 1];
        if t.taskType == MapTask {
          reply := Some(Task(t.taskId, t.taskType, t.partition, t.inputPath, "", []));
        } else {
          reply := Some(Task(t.taskId, t.taskType, t.partition, "", outputPath, []));
        }
        return;
      }
      if mapsCompleted >= numMaps && pendingReducesCreated < numReduces {
        var r := pendingReducesCreated;
        pendingReducesCreated := pendingReducesCreated + 1;
        pendingReduces := pendingReduces + [Task(ReduceTaskId(r), ReduceTask, r, "", outputPath, mapOutputLocations)];
      }
      if pendingReduces != [] {
        var t := pendingReduces[|pendingReduces| - 1];
        pendingReduces := pendingReduces[..|pendingReduces| - 1];
        reply := Some(Task(t.taskId, t.taskType, t.partition, "", t.outputPath, t.mapOutputs));
        return;
      }
      reply := None;
      if mapsCompleted >= numMaps && reducesCompleted >= numReduces {
        jobState := Succeeded;
        jobDone := true;
      }
    }

    method TaskCompleted(taskId: string, taskType: TaskType, parts: int, host: string, port: int)
      modifies this
      ensures State() == Completed(old(State()), taskId, taskType, parts, host, port)
      ensures taskType.ReduceTask? ==> State() == old(State()).(reducesCompleted := old(reducesCompleted) + 1)
      ensures taskType.MapTask? ==>
        State() == old(State()).(mapsCompleted := old(mapsCompleted) + 1, locations := mapOutputLocations) &&
        |mapOutputLocations| == |old(mapOutputLocations)| + (if parts < 0 then 0 else parts) &&
        old(mapOutputLocations) <= mapOutputLocations &&
        forall i :: 0 <= i < parts ==>
          mapOutputLocations[|old(mapOutputLocations)| + i] == Location(taskId, host, port, i)
    {
      if taskType == MapTask {
        ghost var known := mapOutputLocations;
        var i := 0;
        while i < parts
          invariant 0 <= i && (i <= parts || i == 0)
          invariant State() == old(State()).(locations := known + PartLocations(taskId, host, port, i))
        {
          mapOutputLocations := mapOutputLocations + [Location(taskId, host, port, i)];
          i := i + 1;
        }
        mapsCompleted := mapsCompleted + 1;
        PartsAre(taskId, host, port, parts);
      } else {
        reducesCompleted := reducesCompleted + 1;
      }
    }
  }
}
