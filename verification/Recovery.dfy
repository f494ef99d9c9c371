/** A NameNode restart: the tree comes back from the image, the block locations from the data nodes' heartbeats
    and block reports, in whatever order these arrive. */
module Recovery {
  import opened Options
  import opened Text
  import opened Inodes
  import opened FsImage
  import opened Namespace
  import opened Bytes
  import opened Cluster

  const LOCAL_HOST := "127.0.0.1"

  function NodeName(port: int): string {
    LOCAL_HOST + ":" + IntText(port)
  }

  lemma SamePort(a: int, b: int)
    requires NodeName(a) == NodeName(b)
    ensures a == b
  {
    hide IntText;
    assert NodeName(a)[|LOCAL_HOST| + 1..] == IntText(a) && NodeName(b)[|LOCAL_HOST| + 1..] == IntText(b);
    IntTextInjective(a, b);
  }

  function DiskAddr(port: int): Addr {
    (LOCAL_HOST, port)
  }

  /** What a data node sends. */
  datatype Message =
    | Beat(port: int, capacity: int, remaining: int, now: int)
    | Report(port: int, blocks: seq<Block>)

  function Receive(ns: Ns, m: Message): Ns {
    match m
    case Beat(port, capacity, remaining, now) =>
      Heartbeat(ns, NodeName(port), LOCAL_HOST, port, capacity, remaining, now)
    case Report(port, blocks) => BlockReport(ns, NodeName(port), blocks)
  }

  function ReceiveAll(ns: Ns, messages: seq<Message>): Ns {
    if messages == [] then ns
    else Receive(ReceiveAll(ns, messages[..|messages| - 1]), messages[|messages| - 1])
  }

  /** The NameNode after stopping, starting from its image, and receiving the messages. */
  function Restarted(ns: Ns, messages: seq<Message>): Option<Ns> {
    match LoadText(ROOT, SaveText(ns.tree))
    case None => None
    case Some(tree) => Some(ReceiveAll(EMPTY.(tree := tree), messages))
  }

  /** Reports come from data nodes that can be reached and list their disks. */
  ghost predicate Honest(disks: map<Addr, Disk>, messages: seq<Message>) {
    forall i :: 0 <= i < |messages| ==> HonestMessage(disks, messages[i])
  }

  ghost predicate HonestMessage(disks: map<Addr, Disk>, m: Message) {
    m.Report? ==> DiskAddr(m.port) in disks && ReportOf(disks[DiskAddr(m.port)], m.blocks)
  }

  predicate Beaten(messages: seq<Message>, port: int) {
    exists i :: 0 <= i < |messages| && messages[i].Beat? && messages[i].port == port
  }

  /** The node's report arrived after a heartbeat of that node, as DataNode::Start sends them. */
  predicate Joined(messages: seq<Message>, port: int) {
    exists j :: 0 <= j < |messages| && messages[j].Report? && messages[j].port == port && Beaten(messages[..j], port)
  }

  // ---- A report on one block ------------------------------------------------------------------------------

  function WithReplica(dns: seq<DataNodeInfo>, node: DataNodeInfo): seq<DataNodeInfo> {
    if HasName(dns, node.name) || |dns| >= REPLICATION then dns else dns + [node]
  }

  lemma WithReplicaTwice(dns: seq<DataNodeInfo>, node: DataNodeInfo)
    ensures WithReplica(WithReplica(dns, node), node) == WithReplica(dns, node)
    ensures HasName(WithReplica(dns, node), node.name) || |WithReplica(dns, node)| >= REPLICATION
    ensures forall name :: HasName(dns, name) ==> HasName(WithReplica(dns, node), name)
    ensures |dns| <= |WithReplica(dns, node)|
  {
    var added := dns + [node];
    assert added[|dns|] == node;
    forall name | HasName(dns, name) ensures HasName(WithReplica(dns, node), name) {
      var i :| 0 <= i < |dns| && dns[i].name == name;
      assert added[i] == dns[i];
    }
  }

  /** A block report adds the node to the listing of each reported block that has room, and changes no other. */
  lemma {:induction false} ReportEffect(locs: map<int, seq<DataNodeInfo>>, blocks: seq<Block>, node: DataNodeInfo,
                                        id: int)
    ensures Listed(ReportAll(locs, blocks, node, node.name), id)
         == if Reported(blocks, id) then WithReplica(Listed(locs, id), node) else Listed(locs, id)
  {
    hide WithReplica, HasName;
    if blocks != [] {
      var n := |blocks| - 1;
      ReportEffect(locs, blocks[..n], node, id);
      ReportOneEffect(ReportAll(locs, blocks[..n], node, node.name), blocks[n].id, node, id);
      WithReplicaTwice(Listed(locs, id), node);
      ReportedLast(blocks, id);
    }
  }

  /** For a known node, a report adds it to a listing exactly when it reports the block, fewer than 3 nodes are
      listed, and it is not one of them; a report of an unknown node changes nothing. */
  lemma ReportAdds(ns: Ns, name: string, blocks: seq<Block>, id: int)
    requires NodesOk(ns.datanodes)
    ensures var dns := LocationsOf(ns, id);
            LocationsOf(BlockReport(ns, name, blocks), id)
            == if name in ns.datanodes && (exists i :: 0 <= i < |blocks| && blocks[i].id == id) && |dns| < 3 &&
                  forall i :: 0 <= i < |dns| ==> dns[i].name != name
               then dns + [ns.datanodes[name]] else dns
    ensures name in ns.datanodes ==> BlockReport(ns, name, blocks).reports == ns.reports[name := blocks]
    ensures name !in ns.datanodes ==> BlockReport(ns, name, blocks) == ns
  {
    hide ReportAll;
    if name in ns.datanodes { ReportEffect(ns.locs, blocks, ns.datanodes[name], id); }
  }

  lemma ReportOneEffect(locs: map<int, seq<DataNodeInfo>>, given: int, node: DataNodeInfo, id: int)
    ensures Listed(ReportOne(locs, given, node, node.name), id)
         == if id == given then WithReplica(Listed(locs, id), node) else Listed(locs, id)
  {
  }

  lemma ReportedLast(blocks: seq<Block>, id: int)
    requires blocks != []
    ensures Reported(blocks, id) <==> Reported(blocks[..|blocks| - 1], id) || blocks[|blocks| - 1].id == id
  {
    if Reported(blocks, id) {
      var i :| 0 <= i < |blocks| && blocks[i].id == id;
      if i < |blocks| - 1 { assert blocks[..|blocks| - 1][i].id == id; }
    }
    if Reported(blocks[..|blocks| - 1], id) {
      var i :| 0 <= i < |blocks| - 1 && blocks[..|blocks| - 1][i].id == id;
      assert blocks[i].id == id;
    }
  }

  // ---- What holds after any messages ----------------------------------------------------------------------

  /** A registered or listed node is one that sent a heartbeat. */
  predicate IsLocal(dn: DataNodeInfo) {
    dn.name == NodeName(dn.port) && dn.host == LOCAL_HOST
  }

  ghost predicate NodesKnown(ns: Ns, messages: seq<Message>) {
    && (forall name :: name in ns.datanodes ==> IsLocal(ns.datanodes[name]) && ns.datanodes[name].name == name)
    && (forall port :: NodeName(port) in ns.datanodes <==> Beaten(messages, port))
  }

  /** Everything listed for the block is a joined node that holds it. */
  ghost predicate ListingTrue(disks: map<Addr, Disk>, messages: seq<Message>, id: int, dns: seq<DataNodeInfo>) {
    forall i :: 0 <= i < |dns| ==> IsLocal(dns[i]) && Holds(disks, dns[i], id) && Joined(messages, dns[i].port)
  }

  /** Every joined node that holds the block is listed, unless the listing is full. */
  ghost predicate ListingFull(disks: map<Addr, Disk>, messages: seq<Message>, id: int, dns: seq<DataNodeInfo>) {
    |dns| >= REPLICATION ||
    forall port :: Joined(messages, port) && DiskAddr(port) in disks && id in disks[DiskAddr(port)] ==>
      HasName(dns, NodeName(port))
  }

  ghost predicate Recovered(disks: map<Addr, Disk>, messages: seq<Message>, ns: Ns, id: int) {
    NodesKnown(ns, messages) && ListingTrue(disks, messages, id, LocationsOf(ns, id)) &&
    ListingFull(disks, messages, id, LocationsOf(ns, id))
  }

  lemma JoinedPrefix(messages: seq<Message>, m: Message, port: int)
    ensures Beaten(messages + [m], port) <==> Beaten(messages, port) || (m.Beat? && m.port == port)
    ensures Joined(messages + [m], port) <==>
              Joined(messages, port) || (m.Report? && m.port == port && Beaten(messages, port))
  {
    var all := messages + [m];
    assert all[..|messages|] == messages && all[|messages|] == m;
    BeatenPrefix(messages, m, port);
    if Joined(all, port) {
      var j :| 0 <= j < |all| && all[j].Report? && all[j].port == port && Beaten(all[..j], port);
      if j < |messages| {
        assert all[..j] == messages[..j] && messages[j] == all[j];
      }
    }
    if Joined(messages, port) {
      var j :| 0 <= j < |messages| && messages[j].Report? && messages[j].port == port && Beaten(messages[..j], port);
      assert all[..j] == messages[..j] && messages[j] == all[j];
    }
  }

  lemma BeatenPrefix(messages: seq<Message>, m: Message, port: int)
    ensures Beaten(messages + [m], port) <==> Beaten(messages, port) || (m.Beat? && m.port == port)
  {
    var all := messages + [m];
    if Beaten(all, port) {
      var i :| 0 <= i < |all| && all[i].Beat? && all[i].port == port;
      if i < |messages| { assert messages[i] == all[i]; }
    }
    if Beaten(messages, port) {
      var i :| 0 <= i < |messages| && messages[i].Beat? && messages[i].port == port;
      assert messages[i] == all[i];
    }
    assert all[|messages|] == m;
  }

  lemma BeatKeeps(disks: map<Addr, Disk>, messages: seq<Message>, ns: Ns, m: Message, id: int)
    requires Recovered(disks, messages, ns, id) && m.Beat?
    ensures Recovered(disks, messages + [m], Receive(ns, m), id)
  {
    hide NodeName, Joined, Beaten, HasName;
    var ns' := Receive(ns, m);
    forall port ensures Joined(messages + [m], port) <==> Joined(messages, port)
      ensures Beaten(messages + [m], port) <==> Beaten(messages, port) || m.port == port
    {
      JoinedPrefix(messages, m, port);
    }
    forall port ensures NodeName(port) == NodeName(m.port) ==> port == m.port {
      if NodeName(port) == NodeName(m.port) { SamePort(port, m.port); }
    }
    if Beaten(messages, m.port) {
      assert NodeName(m.port) in ns.datanodes;
      PortOfName(ns.datanodes[NodeName(m.port)], m.port);
    }
    assert LocationsOf(ns', id) == LocationsOf(ns, id);
  }

  lemma PortOfName(dn: DataNodeInfo, port: int)
    requires IsLocal(dn) && dn.name == NodeName(port)
    ensures dn.port == port
  {
    SamePort(dn.port, port);
  }

  lemma JoinStep(messages: seq<Message>, m: Message)
    requires m.Report?
    ensures forall port :: Beaten(messages + [m], port) <==> Beaten(messages, port)
    ensures forall port ::
      Joined(messages + [m], port) <==> Joined(messages, port) || (port == m.port && Beaten(messages, port))
  {
    hide Joined, Beaten;
    forall port ensures Beaten(messages + [m], port) <==> Beaten(messages, port)
      ensures Joined(messages + [m], port) <==> Joined(messages, port) || (port == m.port && Beaten(messages, port))
    {
      JoinedPrefix(messages, m, port);
    }
  }

  lemma ReportKeeps(disks: map<Addr, Disk>, messages: seq<Message>, ns: Ns, m: Message, id: int)
    requires Recovered(disks, messages, ns, id) && m.Report? && HonestMessage(disks, m)
    ensures Recovered(disks, messages + [m], Receive(ns, m), id)
  {
    hide NodeName, Joined, Beaten, HasName, ReportAll, WithReplica, Reported;
    JoinStep(messages, m);
    var name := NodeName(m.port);
    if name in ns.datanodes {
      var node := ns.datanodes[name];
      PortOfName(node, m.port);
      ReportEffect(ns.locs, m.blocks, node, id);
      var before, after := LocationsOf(ns, id), LocationsOf(Receive(ns, m), id);
      var disk := disks[DiskAddr(m.port)];
      assert Reported(m.blocks, id) <==> id in disk by { ReportedIff(disk, m.blocks, id); }
      ListedMore(disks, messages, m, id, before, node);
      assert after == if id in disk then WithReplica(before, node) else before;
    }
  }

  lemma ReportedIff(disk: Disk, blocks: seq<Block>, id: int)
    requires ReportOf(disk, blocks)
    ensures Reported(blocks, id) <==> id in disk
  {
  }

  lemma ListedMore(disks: map<Addr, Disk>, messages: seq<Message>, m: Message, id: int, dns: seq<DataNodeInfo>,
                   node: DataNodeInfo)
    requires m.Report? && DiskAddr(m.port) in disks && Beaten(messages, m.port)
    requires IsLocal(node) && node.port == m.port
    requires ListingTrue(disks, messages, id, dns) && ListingFull(disks, messages, id, dns)
    ensures var after := if id in disks[DiskAddr(m.port)] then WithReplica(dns, node) else dns;
            ListingTrue(disks, messages + [m], id, after) && ListingFull(disks, messages + [m], id, after)
  {
    hide NodeName, Joined, Beaten, HasName;
    JoinStep(messages, m);
    WithReplicaTwice(dns, node);
  }

  lemma {:induction false} AlwaysRecovered(disks: map<Addr, Disk>, tree: Node, messages: seq<Message>, id: int)
    requires Honest(disks, messages)
    ensures Recovered(disks, messages, ReceiveAll(EMPTY.(tree := tree), messages), id)
    ensures ReceiveAll(EMPTY.(tree := tree), messages).tree == tree
  {
    hide Recovered, Receive, HonestMessage;
    if messages == [] {
      NothingYet(disks, tree, id);
    } else {
      var init, m := messages[..|messages| - 1], messages[|messages| - 1];
      assert messages == init + [m];
      assert Honest(disks, init);
      assert HonestMessage(disks, m);
      AlwaysRecovered(disks, tree, init, id);
      var ns := ReceiveAll(EMPTY.(tree := tree), init);
      if m.Beat? { BeatKeeps(disks, init, ns, m, id); } else { ReportKeeps(disks, init, ns, m, id); }
      TreeKept(ns, m);
    }
  }

  lemma TreeKept(ns: Ns, m: Message)
    ensures Receive(ns, m).tree == ns.tree
  {
  }

  lemma NothingYet(disks: map<Addr, Disk>, tree: Node, id: int)
    ensures Recovered(disks, [], EMPTY.(tree := tree), id)
  {
    hide NodeName;
    forall port ensures !Joined([], port) && !Beaten([], port) {}
  }

  // ---- Reading after the restart --------------------------------------------------------------------------

  /** Some joined node holds the block. */
  predicate HeldByJoined(disks: map<Addr, Disk>, messages: seq<Message>, id: int, port: int) {
    Joined(messages, port) && DiskAddr(port) in disks && id in disks[DiskAddr(port)]
  }

  ghost predicate Findable(disks: map<Addr, Disk>, messages: seq<Message>, id: int) {
    exists port :: HeldByJoined(disks, messages, id, port)
  }

  lemma DeliversIff(c: Cluster, messages: seq<Message>, blocks: seq<int>, k: nat)
    requires k < |blocks| && Recovered(c.disks, messages, c.ns, blocks[k])
    ensures Delivers(c, blocks, AllDelivered, k) <==> Findable(c.disks, messages, blocks[k])
  {
    hide NodeName, Joined, Beaten;
    var id := blocks[k];
    var dns := LocationsOf(c.ns, id);
    if Delivers(c, blocks, AllDelivered, k) {
      var j :| 0 <= j < |dns| && Sends(c.disks, dns[j], id, AllDelivered(k, j));
      assert HeldByJoined(c.disks, messages, id, dns[j].port);
    }
    if Findable(c.disks, messages, id) {
      var port :| HeldByJoined(c.disks, messages, id, port);
      assert dns != [];
      assert Sends(c.disks, dns[0], id, AllDelivered(k, 0));
    }
  }

  /** After the restart every listed location holds its block, the listings are those of the tree before, and a
      file can be read exactly when each of its blocks is held by a node that joined. */
  lemma RestartedReadsIff(c: Cluster, messages: seq<Message>, q: Path)
    requires TreeSound(c.ns.tree) && SpaceFree(c.ns.tree) && IdsFit(c.ns.tree) && Honest(c.disks, messages)
    ensures Restarted(c.ns, messages).Some?
    ensures var ns' := Restarted(c.ns, messages).value;
            ns'.tree == c.ns.tree &&
            (Read(Cluster(ns', c.disks), q).0 <==>
             forall id :: id in BlocksAt(c.ns.tree, q) ==> Findable(c.disks, messages, id)) &&
            forall id :: ListingTrue(c.disks, messages, id, LocationsOf(ns', id)) &&
                         ListingFull(c.disks, messages, id, LocationsOf(ns', id))
  {
    hide NodeAt, WellFormed, SaveText, LoadText, ReceiveAll, SpaceFree, IdsFit, Blocks, Honest, Delivers, Findable,
         ReadFrom, ListingTrue, ListingFull, NodesKnown;
    ImageLoads(c.ns.tree);
    var ns' := ReceiveAll(EMPTY.(tree := c.ns.tree), messages);
    var c' := Cluster(ns', c.disks);
    var blocks := BlocksAt(c.ns.tree, q);
    AlwaysRecovered(c.disks, c.ns.tree, messages, 0);
    forall id
      ensures Recovered(c.disks, messages, ns', id)
      ensures ListingTrue(c.disks, messages, id, LocationsOf(ns', id))
      ensures ListingFull(c.disks, messages, id, LocationsOf(ns', id))
    {
      AlwaysRecovered(c.disks, c.ns.tree, messages, id);
    }
    assert Restarted(c.ns, messages) == Some(ns');
    forall k: nat | k < |blocks|
      ensures Delivers(c', blocks, AllDelivered, k) <==> Findable(c.disks, messages, blocks[k])
    {
      DeliversIff(c', messages, blocks, k);
    }
    ReadSucceedsIff(c', blocks, AllDelivered, 0);
  }

  /** A file that could be read before the restart reads back the same bytes exactly when each of its blocks is held
      by a node that joined. */
  lemma RestartedReadsSameIff(c: Cluster, messages: seq<Message>, q: Path, content: map<int, Bytes>)
    requires TreeSound(c.ns.tree) && SpaceFree(c.ns.tree) && IdsFit(c.ns.tree) && Honest(c.disks, messages)
    requires Consistent(c.disks, content) && Read(c, q).0
    ensures Restarted(c.ns, messages).Some?
    ensures Read(Cluster(Restarted(c.ns, messages).value, c.disks), q) == Read(c, q) <==>
              forall id :: id in BlocksAt(c.ns.tree, q) ==> Findable(c.disks, messages, id)
  {
    hide NodeAt, TreeSound, SpaceFree, IdsFit, Honest, Restarted, Findable, ReadFrom, Consistent;
    RestartedReadsIff(c, messages, q);
    var c' := Cluster(Restarted(c.ns, messages).value, c.disks);
    var blocks := BlocksAt(c.ns.tree, q);
    ReadContent(c, blocks, AllDelivered, 0, content);
    if Read(c', q).0 { ReadContent(c', blocks, AllDelivered, 0, content); }
  }

  // ---- While some nodes cannot be reached again -----------------------------------------------------------

  lemma MoreDistinct(dns: seq<DataNodeInfo>, node: DataNodeInfo)
    requires DistinctNodes(dns)
    ensures DistinctNodes(WithReplica(dns, node))
  {
    if !HasName(dns, node.name) {
      forall i | 0 <= i < |dns| ensures dns[i].name != node.name {}
    }
  }

  lemma {:induction false} DistinctListing(tree: Node, messages: seq<Message>, id: int)
    ensures var ns := ReceiveAll(EMPTY.(tree := tree), messages);
            DistinctNodes(LocationsOf(ns, id)) &&
            forall name :: name in ns.datanodes ==> ns.datanodes[name].name == name
  {
    hide NodeName, ReportAll, DistinctNodes, WithReplica;
    if messages == [] {
      assert DistinctNodes([]) by { NoneDistinct(); }
    } else {
      var init, m := messages[..|messages| - 1], messages[|messages| - 1];
      DistinctListing(tree, init, id);
      var ns := ReceiveAll(EMPTY.(tree := tree), init);
      if m.Report? && NodeName(m.port) in ns.datanodes {
        ReportEffect(ns.locs, m.blocks, ns.datanodes[NodeName(m.port)], id);
        MoreDistinct(LocationsOf(ns, id), ns.datanodes[NodeName(m.port)]);
      }
    }
  }

  lemma NoneDistinct()
    ensures DistinctNodes([])
  {
  }

  /** At most as many joined nodes hold the block as a listing has room for. */
  ghost predicate FitsListing(disks: map<Addr, Disk>, messages: seq<Message>, id: int) {
    exists ports: set<int> :: |ports| <= REPLICATION && HoldersIn(disks, messages, id, ports)
  }

  ghost predicate HoldersIn(disks: map<Addr, Disk>, messages: seq<Message>, id: int, ports: set<int>) {
    forall port :: HeldByJoined(disks, messages, id, port) ==> port in ports
  }

  function PortsOf(dns: seq<DataNodeInfo>): set<int> {
    set i | 0 <= i < |dns| :: dns[i].port
  }

  lemma {:induction false} DistinctPorts(dns: seq<DataNodeInfo>)
    requires DistinctNodes(dns) && forall i :: 0 <= i < |dns| ==> IsLocal(dns[i])
    ensures |PortsOf(dns)| == |dns|
  {
    hide NodeName;
    if dns != [] {
      var n := |dns| - 1;
      DistinctPorts(dns[..n]);
      assert PortsOf(dns) == PortsOf(dns[..n]) + {dns[n].port};
      forall i | 0 <= i < n ensures dns[i].port != dns[n].port { assert dns[i].name != dns[n].name; }
      assert dns[n].port !in PortsOf(dns[..n]);
    } else {
      assert PortsOf(dns) == {};
    }
  }

  /** Then every joined holder is listed. */
  lemma HolderListed(disks: map<Addr, Disk>, messages: seq<Message>, ns: Ns, id: int, port: int)
    requires Recovered(disks, messages, ns, id) && DistinctNodes(LocationsOf(ns, id))
    requires FitsListing(disks, messages, id)
    requires HeldByJoined(disks, messages, id, port)
    ensures port in PortsOf(LocationsOf(ns, id))
  {
    hide NodeName, Joined;
    var dns := LocationsOf(ns, id);
    if HasName(dns, NodeName(port)) {
      var j :| 0 <= j < |dns| && dns[j].name == NodeName(port);
      PortOfName(dns[j], port);
    } else {
      var ports: set<int> :| |ports| <= REPLICATION && HoldersIn(disks, messages, id, ports);
      DistinctPorts(dns);
      forall p | p in PortsOf(dns) ensures p in ports {
        var i :| 0 <= i < |dns| && dns[i].port == p;
        assert HeldByJoined(disks, messages, id, p);
      }
      FullIsAll(PortsOf(dns), ports);
    }
  }

  lemma FullIsAll(a: set<int>, b: set<int>)
    requires a <= b && |a| >= |b|
    ensures a == b
  {
    assert b == a + (b - a) && |b - a| == 0;
  }

  /** Some joined node that can be reached again holds the block. */
  ghost predicate FindableAmong(disks: map<Addr, Disk>, messages: seq<Message>, id: int, up: set<Addr>) {
    exists port :: HeldByJoined(disks, messages, id, port) && DiskAddr(port) in up
  }

  lemma DeliversAmongIff(c: Cluster, messages: seq<Message>, blocks: seq<int>, k: nat, up: set<Addr>)
    requires k < |blocks| && Recovered(c.disks, messages, c.ns, blocks[k])
    requires DistinctNodes(LocationsOf(c.ns, blocks[k])) && FitsListing(c.disks, messages, blocks[k])
    ensures Delivers(Among(c, up), blocks, AllDelivered, k) <==> FindableAmong(c.disks, messages, blocks[k], up)
  {
    hide NodeName, Joined, Beaten, FitsListing, DistinctNodes;
    var id, part := blocks[k], Among(c, up);
    var dns := LocationsOf(c.ns, id);
    assert forall a :: a in c.disks <==> a in c.disks.Keys;
    if Delivers(part, blocks, AllDelivered, k) {
      var j :| 0 <= j < |dns| && Sends(part.disks, dns[j], id, AllDelivered(k, j));
      assert HeldByJoined(c.disks, messages, id, dns[j].port);
    }
    if FindableAmong(c.disks, messages, id, up) {
      var port :| HeldByJoined(c.disks, messages, id, port) && DiskAddr(port) in up;
      HolderListed(c.disks, messages, c.ns, id, port);
      var j :| 0 <= j < |dns| && dns[j].port == port;
      assert Sends(part.disks, dns[j], id, AllDelivered(k, j));
    }
  }

  /** After the restart, while only the nodes in `up` can be reached, a file whose blocks have no more joined holders
      than a listing has room for can be read exactly when each block is held by a joined node in `up`. */
  lemma RestartedReadsAmongIff(c: Cluster, messages: seq<Message>, q: Path, up: set<Addr>)
    requires TreeSound(c.ns.tree) && SpaceFree(c.ns.tree) && IdsFit(c.ns.tree) && Honest(c.disks, messages)
    requires forall id :: id in BlocksAt(c.ns.tree, q) ==> FitsListing(c.disks, messages, id)
    ensures Restarted(c.ns, messages).Some?
    ensures Read(Among(Cluster(Restarted(c.ns, messages).value, c.disks), up), q).0 <==>
              forall id :: id in BlocksAt(c.ns.tree, q) ==> FindableAmong(c.disks, messages, id, up)
  {
    hide NodeAt, WellFormed, SaveText, LoadText, ReceiveAll, SpaceFree, IdsFit, Blocks, Honest, Delivers, FindableAmong,
         FitsListing, ReadFrom, Recovered, Among, DistinctNodes, LocationsOf;
    ImageLoads(c.ns.tree);
    var ns' := ReceiveAll(EMPTY.(tree := c.ns.tree), messages);
    var c' := Cluster(ns', c.disks);
    var blocks := BlocksAt(c.ns.tree, q);
    AlwaysRecovered(c.disks, c.ns.tree, messages, 0);
    assert Restarted(c.ns, messages) == Some(ns');
    forall k: nat | k < |blocks|
      ensures Delivers(Among(c', up), blocks, AllDelivered, k) <==> FindableAmong(c.disks, messages, blocks[k], up)
    {
      AlwaysRecovered(c.disks, c.ns.tree, messages, blocks[k]);
      DistinctListing(c.ns.tree, messages, blocks[k]);
      assert blocks[k] in blocks;
      DeliversAmongIff(c', messages, blocks, k, up);
    }
    assert Among(c', up).ns == ns' by { AmongKeepsNs(c', up); }
    ReadSucceedsIff(Among(c', up), blocks, AllDelivered, 0);
  }

  lemma AmongKeepsNs(c: Cluster, up: set<Addr>)
    ensures Among(c, up).ns == c.ns
  {
  }
}
