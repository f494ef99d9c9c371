/** Starting and stopping the servers: the NameNode saves its tree on stop and loads it on start; each data node
    sends one heartbeat and then one block report when it starts. */
module NameNode {
  import opened Options
  import opened Text
  import opened Inodes
  import opened FsImage
  import opened Namespace
  import opened Cluster
  import opened Recovery
  import opened LocalFiles
  import F = FsNamesystem
  import I = FsImageFile
  import B = BlockStorage

  class DataNode {
    const port: int
    const storage: B.BlockStorage

    constructor (port: int, storage: B.BlockStorage)
      ensures this.port == port && this.storage == storage
    {
      this.port, this.storage := port, storage;
    }

    method Start(nn: F.FsNamesystem, capacity: int, remaining: int, now: int) returns (ghost blocks: seq<Block>)
      requires nn.Valid() && storage.Valid() && storage.Clean()
      modifies nn`datanodes, nn`dnToBlocks, nn`blockToDatanodes
      ensures nn.Valid() && ReportOf(storage.disk, blocks)
      ensures nn.State()
           == Receive(Receive(old(nn.State()), Beat(port, capacity, remaining, now)), Report(port, blocks))
    {
      hide NodeName, ReportOf, Namespace.Heartbeat, Namespace.BlockReport, nn.tree.Valid;
      nn.Heartbeat(NodeName(port), LOCAL_HOST, port, capacity, remaining, now);
      var found := storage.GetBlockReport();
      blocks := found.value;
      nn.BlockReport(NodeName(port), found.value);
    }
  }

  /** A data node that starts is registered under its address with exactly what it said. */
  lemma StartRegisters(ns: Ns, port: int, capacity: int, remaining: int, now: int, blocks: seq<Block>)
    requires NodesOk(ns.datanodes)
    ensures var name := "127.0.0.1:" + IntText(port);
            Receive(Receive(ns, Beat(port, capacity, remaining, now)), Report(port, blocks)).datanodes
            == ns.datanodes[name := DataNodeInfo(name, "127.0.0.1", port, capacity, remaining, now)]
  {
    hide IntText, ReportAll;
    assert NodeName(port) == "127.0.0.1:" + IntText(port);
    assert NodeName(port) in ns.datanodes ==> ns.datanodes[NodeName(port)].name == NodeName(port);
  }

  /** Starts on the image at the path, if there is one; false stands for the exception a malformed image throws. */
  method StartNameNode(files: FileStore, path: string) returns (nn: F.FsNamesystem, ok: bool)
    ensures nn.Valid() && fresh(nn) && fresh(nn.tree) && fresh(nn.tree.nodes.Values)
    ensures Started(files.files, path) == if ok then Some(nn.State()) else None
    ensures path !in files.files ==> ok && nn.State() == Ns(Dir("", []), map[], map[], map[], map[])
    ensures nn.State() == Ns(nn.tree.tree, map[], map[], map[], map[])
  {
    hide LoadText, Namespace.NodesOk;
    nn := new F.FsNamesystem();
    ok := true;
    if path in files.files {
      hide nn.tree.Valid;
      ok := I.Load(nn.tree, files.files[path]);
    }
  }

  function Started(files: map<string, string>, path: string): Option<Ns> {
    if path !in files then Some(EMPTY)
    else
      match LoadText(ROOT, files[path])
      case None => None
      case Some(tree) => Some(EMPTY.(tree := tree))
  }

  method StopNameNode(nn: F.FsNamesystem, files: FileStore, path: string, writable: bool)
    requires nn.Valid()
    modifies files
    ensures nn.Valid() && files.files == I.Saved(old(files.files), path, nn.State().tree, writable)
  {
    hide I.Saved, nn.tree.Valid;
    I.Save(nn.tree, files, path, writable);
  }

  /** The messages come on top of what the NameNode started with. */
  function AfterMessages(started: Option<Ns>, messages: seq<Message>): Option<Ns> {
    match started
    case None => None
    case Some(ns) => Some(ReceiveAll(ns, messages))
  }

  /** Stops the NameNode, starts a new one on the saved image and then the data nodes, one after the other. The
      messages are those they sent. When the image cannot be written, the new one starts on the old image. */
  method Restart(before: F.FsNamesystem, files: FileStore, path: string, writable: bool, dataNodes: seq<DataNode>,
                 capacity: int, remaining: int, now: int)
    returns (nn: F.FsNamesystem, ok: bool, ghost messages: seq<Message>)
    requires before.Valid() &&
             forall i :: 0 <= i < |dataNodes| ==> dataNodes[i].storage.Valid() && dataNodes[i].storage.Clean()
    modifies files
    ensures nn.Valid() && files.files == I.Saved(old(files.files), path, old(before.State()).tree, writable)
    ensures AfterMessages(Started(files.files, path), messages) == if ok then Some(nn.State()) else None
    ensures writable ==> Restarted(old(before.State()), messages) == if ok then Some(nn.State()) else None
    ensures ok ==> forall i :: 0 <= i < |dataNodes| ==> Joined(messages, dataNodes[i].port)
    ensures forall i :: 0 <= i < |messages| && messages[i].Report? ==>
              exists k :: 0 <= k < |dataNodes| && dataNodes[k].port == messages[i].port &&
                          ReportOf(dataNodes[k].storage.disk, messages[i].blocks)
  {
    hide LoadText, SaveText, Receive, ReceiveAll, ReportOf, Joined, before.Valid, nn.Valid, before.State, I.Saved,
         Started, Restarted, AfterMessages;
    messages := [];
    ghost var was := before.State();
    RootIsDir(before);
    StopNameNode(before, files, path, writable);
    nn, ok := StartNameNode(files, path);
    SavedRestart(was, old(files.files), path, messages);
    NoMessages(Started(files.files, path));
    if !ok { return; }
    ghost var start := nn.State();
    for i := 0 to |dataNodes|
      invariant nn.Valid() && nn.State() == ReceiveAll(start, messages)
      invariant forall k :: 0 <= k < i ==> Joined(messages, dataNodes[k].port)
      invariant forall j :: 0 <= j < |messages| && messages[j].Report? ==>
        exists k :: 0 <= k < |dataNodes| && dataNodes[k].port == messages[j].port &&
                    ReportOf(dataNodes[k].storage.disk, messages[j].blocks)
      invariant fresh(nn) && files.files == I.Saved(old(files.files), path, was.tree, writable)
    {
      ghost var beat := Beat(dataNodes[i].port, capacity, remaining, now);
      ghost var blocks := dataNodes[i].Start(nn, capacity, remaining, now);
      ReceiveTwo(start, messages, beat, Report(dataNodes[i].port, blocks));
      messages := messages + [beat, Report(dataNodes[i].port, blocks)];
    }
    SavedRestart(was, old(files.files), path, messages);
    OnTop(Started(files.files, path), messages);
  }

  lemma RootIsDir(nn: F.FsNamesystem)
    requires nn.Valid()
    ensures nn.State().tree.Dir?
  {
    hide nn.tree.Valid;
    nn.tree.RootNode();
  }

  lemma NoMessages(started: Option<Ns>)
    ensures AfterMessages(started, []) == started
    ensures started.Some? ==> ReceiveAll(started.value, []) == started.value
  {
  }

  lemma OnTop(started: Option<Ns>, messages: seq<Message>)
    ensures started.Some? ==> AfterMessages(started, messages) == Some(ReceiveAll(started.value, messages))
  {
  }

  lemma SavedRestart(ns: Ns, files: map<string, string>, path: string, messages: seq<Message>)
    requires ns.tree.Dir?
    ensures AfterMessages(Started(I.Saved(files, path, ns.tree, true), path), messages) == Restarted(ns, messages)
  {
    hide LoadText, SaveText, ReceiveAll;
    I.TempDiffers(path);
  }

  lemma ReceiveTwo(ns: Ns, messages: seq<Message>, beat: Message, report: Message)
    requires beat.Beat? && report.Report? && beat.port == report.port
    ensures ReceiveAll(ns, messages + [beat, report]) == Receive(Receive(ReceiveAll(ns, messages), beat), report)
    ensures forall port :: Joined(messages, port) ==> Joined(messages + [beat, report], port)
    ensures Joined(messages + [beat, report], report.port)
  {
    hide Receive, Joined, Beaten;
    var one := messages + [beat];
    assert messages + [beat, report] == one + [report];
    assert one[..|messages|] == messages && (one + [report])[..|one|] == one;
    forall port ensures Joined(messages, port) ==> Joined(one + [report], port) {
      JoinedPrefix(messages, beat, port);
      JoinedPrefix(one, report, port);
    }
    JoinedPrefix(messages, beat, report.port);
    JoinedPrefix(one, report, report.port);
  }
}
