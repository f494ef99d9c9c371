/** TaskTracker: runs map tasks into the in-memory store that the shuffle server reads, and reduce tasks that
    fetch from those stores. */
module TaskTracker {
  import opened Options
  import opened Order
  import opened Tables
  import opened Text
  import opened InputFormat
  import opened LocalFiles
  import opened DistJobTracker
  import opened JobTracker

  type Addr = (string, int)

  /** map_outputs_: (task id, partition) to the pairs stored there. */
  type Store = map<(string, int), seq<KV>>

  /** The tracker side always partitions for one reduce. */
  const NUM_REDUCES := 1

  function OutputPartition(k: string, hash: Hash): (p: int)
    ensures p == 0
  {
    if k == "" then 0 else GetPartition(k, NUM_REDUCES, hash)
  }

  function StorePair(store: Store, taskId: string, hash: Hash, pair: KV): Store {
    var key := (taskId, OutputPartition(pair.0, hash));
    store[key := (if key in store then store[key] else []) + [pair]]
  }

  function StorePairs(store: Store, taskId: string, hash: Hash, pairs: seq<KV>): Store {
    if pairs == [] then store
    else StorePair(StorePairs(store, taskId, hash, pairs[..|pairs| - 1]), taskId, hash, pairs[|pairs| - 1])
  }

  lemma StorePairEffect(store: Store, taskId: string, hash: Hash, init: seq<KV>, pair: KV)
    requires (taskId, 0) !in store
    ensures StorePair(if init == [] then store else store[(taskId, 0) := init], taskId, hash, pair)
         == store[(taskId, 0) := init + [pair]]
  {
    assert OutputPartition(pair.0, hash) == 0;
    hide OutputPartition;
    assert [] + [pair] == [pair];
  }

  lemma StorePairsUnfold(store: Store, taskId: string, hash: Hash, pairs: seq<KV>)
    ensures StorePairs(store, taskId, hash, pairs)
         == if pairs == [] then store
            else StorePair(StorePairs(store, taskId, hash, pairs[..|pairs| - 1]), taskId, hash, pairs[|pairs| - 1])
  {
  }

  /** The pairs of a map task end up in partition 0 in order, and a task without pairs leaves no entry. */
  lemma {:induction false} StorePairsEffect(store: Store, taskId: string, hash: Hash, pairs: seq<KV>)
    requires (taskId, 0) !in store
    ensures StorePairs(store, taskId, hash, pairs) == if pairs == [] then store else store[(taskId, 0) := pairs]
  {
    hide *;
    StorePairsUnfold(store, taskId, hash, pairs);
    if pairs != [] {
      var init, last := pairs[..|pairs| - 1], pairs[|pairs| - 1];
      StorePairsEffect(store, taskId, hash, init);
      StorePairEffect(store, taskId, hash, init, last);
      assert pairs == init + [last];
    }
  }

  function MapStore(store: Store, task: Task, content: string, mapper: Mapper, hash: Hash): Store {
    StorePairs(store, task.taskId, hash, SortPairs(MapOutput(mapper, content, 0)))
  }

  /** One pass of the shuffle loop: what fetching `loc` adds to the reduce data of `partition`. */
  function Fetched(stores: map<Addr, Store>, loc: Location, partition: int): seq<KV> {
    var addr := (loc.host, loc.port);
    if loc.partition != partition || addr !in stores then []
    else if (loc.taskId, loc.partition) !in stores[addr] then []
    else stores[addr][(loc.taskId, loc.partition)]
  }

  function Gathered(stores: map<Addr, Store>, locs: seq<Location>, partition: int): seq<KV> {
    if locs == [] then []
    else Gathered(stores, locs[..|locs| - 1], partition) + Fetched(stores, locs[|locs| - 1], partition)
  }

  function Answers(stores: map<Addr, Store>, locs: seq<Location>, partition: int): seq<seq<KV>> {
    seq(|locs|, i requires 0 <= i < |locs| => Fetched(stores, locs[i], partition))
  }

  /** What was gathered is what each location of the partition brought, in the order of the locations. */
  lemma {:induction false} GatheredInOrder(stores: map<Addr, Store>, locs: seq<Location>, partition: int)
    ensures Gathered(stores, locs, partition) == Flatten(Answers(stores, locs, partition))
  {
    hide Fetched;
    if locs != [] {
      var n := |locs| - 1;
      GatheredInOrder(stores, locs[..n], partition);
      FlattenSnoc(Answers(stores, locs[..n], partition), Fetched(stores, locs[n], partition));
      assert Answers(stores, locs, partition)
          == Answers(stores, locs[..n], partition) + [Fetched(stores, locs[n], partition)];
    }
  }

  /** The file a reduce task writes for the data it gathered. */
  function ReduceText(data: seq<KV>, reduce: Reducer): string {
    Render(Grouped(SortPairs(data), reduce))
  }

  /** The number of distinct partitions in the store, over all tasks this tracker ran. */
  function Parts(store: Store): nat {
    |set key | key in store :: key.1|
  }

  class TaskTracker {
    const host: string
    const port: int
    const mapper: Mapper
    const reducer: Reducer
    const files: FileStore
    var outputs: Store

    constructor (host: string, port: int, mapper: Mapper, reducer: Reducer, files: FileStore)
      ensures this.host == host && this.port == port && this.mapper == mapper && this.reducer == reducer
      ensures this.files == files && outputs == map[]
    {
      this.host, this.port, this.mapper, this.reducer, this.files := host, port, mapper, reducer, files;
      outputs := map[];
    }

    /** The shuffle server's handler. */
    method Shuffle(taskId: string, partition: int) returns (reply: Option<seq<KV>>)
      ensures reply == if (taskId, partition) in outputs then Some(outputs[(taskId, partition)]) else None
    {
      if (taskId, partition) in outputs {
        reply := Some(outputs[(taskId, partition)]);
      } else {
        reply := None;
      }
    }

    method ExecuteMapTask(task: Task, hash: Hash)
      modifies `outputs
      ensures outputs == MapStore(old(outputs), task, files.Read(task.inputPath), mapper, hash)
    {
      hide StorePairs, SortPairs, MapOutput;
      var pairs := CollectOutputs(mapper, files.Read(task.inputPath));
      pairs := SortPairs(pairs);
      outputs := StoreAll(outputs, task.taskId, pairs, hash);
    }

    /** Fetch, sort, group, reduce, write. `peers` are the trackers a connection can be opened to. */
    method ExecuteReduceTask(task: Task, peers: map<Addr, TaskTracker>)
      modifies files
      ensures files.files == old(files.files)[task.outputPath :=
                ReduceText(Gathered(old(StoresOf(peers)), task.mapOutputs, task.partition), reducer)]
    {
      hide *;
      var allData := FetchAll(task, peers);
      var text := SortAndReduce(allData, reducer);
      files.files := files.files[task.outputPath := text];
    }

    /** The part count that ReportTaskComplete sends for a map task. */
    method CountParts() returns (parts: nat)
      ensures parts == Parts(outputs)
    {
      var seen: set<int> := {};
      var keys := outputs.Keys;
      while keys != {}
        invariant keys <= outputs.Keys
        invariant seen == set key | key in outputs.Keys - keys :: key.1
        decreases keys
      {
        var key :| key in keys;
        seen := seen + {key.1};
        keys := keys - {key};
      }
      assert seen == set key | key in outputs :: key.1;
      parts := |seen|;
    }
  }

  ghost function StoresOf(peers: map<Addr, TaskTracker>): map<Addr, Store>
    reads peers.Values
  {
    map a | a in peers :: peers[a].outputs
  }

  /** The loop that files the sorted pairs under their partition. */
  method StoreAll(store: Store, taskId: string, pairs: seq<KV>, hash: Hash) returns (r: Store)
    ensures r == StorePairs(store, taskId, hash, pairs)
  {
    hide OutputPartition;
    r := store;
    for i := 0 to |pairs|
      invariant r == StorePairs(store, taskId, hash, pairs[..i])
    {
      assert pairs[..i + 1][..i] == pairs[..i];
      var key := (taskId, OutputPartition(pairs[i].0, hash));
      r := r[key := (if key in r then r[key] else []) + [pairs[i]]];
    }
    assert pairs[..|pairs|] == pairs;
  }

  /** The shuffle loop: a location of another partition, an unreachable tracker and an absent entry are
      skipped. */
  method FetchAll(task: Task, peers: map<Addr, TaskTracker>) returns (allData: seq<KV>)
    ensures allData == Gathered(StoresOf(peers), task.mapOutputs, task.partition)
  {
    allData := [];
    var locs := task.mapOutputs;
    for i := 0 to |locs|
      invariant allData == Gathered(StoresOf(peers), locs[..i], task.partition)
    {
      var loc := locs[i];
      assert locs[..i + 1][..i] == locs[..i];
      assert Gathered(StoresOf(peers), locs[..i + 1], task.partition)
          == allData + Fetched(StoresOf(peers), loc, task.partition);
      if loc.partition != task.partition { continue; }
      if (loc.host, loc.port) !in peers { continue; }
      var reply := peers[(loc.host, loc.port)].Shuffle(loc.taskId, loc.partition);
      if reply.None? { continue; }
      allData := allData + reply.value;
    }
    assert locs[..|locs|] == locs;
  }

  method SortAndReduce(allData: seq<KV>, reducer: Reducer) returns (text: string)
    ensures text == ReduceText(allData, reducer)
  {
    hide SortPairs, Grouped, Render;
    var results := GroupReduce(SortPairs(allData), reducer);
    text := WriteTable(results);
  }

  /** The collector loop of a map task. */
  method CollectOutputs(mapper: Mapper, content: string) returns (outputs: seq<KV>)
    ensures outputs == MapOutput(mapper, content, 0)
  {
    hide *;
    outputs := [];
    var reader := new TextRecordReader(content);
    MapStart(mapper, content);
    while true
      invariant reader.Valid() && fresh(reader)
      invariant MapSoFar(mapper, content, outputs, reader.rest, reader.pos)
      decreases |reader.rest|
    {
      ghost var rest, pos := reader.rest, reader.pos;
      var ok, key, value := reader.Next();
      if !ok {
        MapFinish(mapper, content, outputs, pos);
        break;
      }
      MapStep(mapper, content, outputs, rest, pos);
      outputs := outputs + mapper(key, value);
    }
  }
}
