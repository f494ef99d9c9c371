/** The distributed job over the wire: every message the job tracker sends in a run arrives as it was meant. */
module DistWire {
  import opened Options
  import opened Buffer
  import opened DistJobTracker
  import opened DistSystem
  import opened DistInvariant
  import opened MapRedCodec

  /** Paths and addresses are C++ strings, and the counts are C++ ints. */
  ghost predicate FitsWire(c: Config) {
    WireString(c.inputPath) && WireString(c.outputPath) && IsInt32(c.maps) && IsInt32(c.reduces) &&
    forall a :: a in c.trackers ==> WireString(a.0) && IsInt32(a.1)
  }

  lemma {:induction false} QueuedMap(inputPath: string, n: nat, i: nat)
    requires i < |NewMapTasks(inputPath, n)|
    ensures i < n && NewMapTasks(inputPath, n)[i] == NewMapTask(inputPath, i)
  {
    NewMapTasksLength(inputPath, n);
    if n > 0 {
      NewMapTasksLength(inputPath, n - 1);
      if i < n - 1 { QueuedMap(inputPath, n - 1, i); }
    }
  }

  lemma MapFits(inputPath: string, i: int)
    requires WireString(inputPath) && IsInt32(i)
    ensures WireTask(MapReply(NewMapTask(inputPath, i), ""))
  {
    hide MapTaskId;
    MapIdFits(i);
  }

  lemma LocationFits(c: Config, s: System, k: nat)
    requires Inv(c, s) && FitsWire(c) && k < |s.jt.locations|
    ensures WireLocation(s.jt.locations[k])
  {
    hide MapTaskId, WireString, Emitted, StoresInv, ReducesInv, FilesInv, DoneInv, CountsInv, NewMapTasks, TaskOf;
    var j := s.order[k];
    assert s.jt.locations[k] == LocationOf(c, s.threads, j);
    MapIdFits(Maps(c) - 1 - j);
  }

  /** In every reachable state everything the tracker may send fits the wire. */
  lemma ReachableFits(c: Config, s: System)
    requires Reachable(c, s) && FitsWire(c)
    ensures WireState(s.jt)
  {
    hide Inv, WireLocation, WireString, WireTask, Reachable, NewMapTasks, MapReply;
    ReachableInv(c, s);
    QueueOf(c, s);
    SnapshotBound(c, s);
    forall i | 0 <= i < |s.jt.locations| ensures WireLocation(s.jt.locations[i]) { LocationFits(c, s, i); }
    forall i | 0 <= i < |s.jt.pendingMaps|
      ensures s.jt.pendingMaps[i].taskType.MapTask? && WireTask(MapReply(s.jt.pendingMaps[i], ""))
    {
      QueuedMap(c.inputPath, |s.jt.pendingMaps|, i);
      MapFits(c.inputPath, i);
    }
  }

  lemma QueueOf(c: Config, s: System)
    requires Inv(c, s)
    ensures s.jt.pendingMaps == NewMapTasks(c.inputPath, |s.jt.pendingMaps|) && |s.jt.pendingMaps| <= Maps(c)
    ensures s.jt.outputPath == c.outputPath && s.jt.pendingReduces == [] && 0 <= s.jt.reducesCreated <= Reduces(c)
  {
    hide TasksInv, CountsInv, OrderInv, StoresInv, ReducesInv, FilesInv, DoneInv, NewMapTasks;
  }

  /** In every run, each poll's reply is read by the tracker as exactly the task that was picked. */
  lemma EveryPollArrives(c: Config, s: System)
    requires Reachable(c, s) && FitsWire(c)
    ensures DecodePollReply(PollReplyBytes(Poll(s.jt).1)) == Some((Poll(s.jt).1, []))
  {
    hide Poll, WireState, PollReplyBytes, DecodePollReply, Reachable;
    ReachableFits(c, s);
    PolledTaskArrives(s.jt);
  }
}
