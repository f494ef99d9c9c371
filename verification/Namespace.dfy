/** The NameNode's state and its operations (FsNamesystem), as functions on a value. The clock, the generated
    block ids and the order in which unordered maps are walked are inputs. */
module Namespace {
  import opened Options
  import opened Text
  import opened Inodes
  import opened FsImage

  datatype Block = Block(id: int, numBytes: int, generationStamp: int)

  datatype DataNodeInfo = DataNodeInfo(name: string, host: string, port: int, capacity: int, remaining: int,
                                       lastUpdate: int)

  datatype Lease = Lease(holder: string, path: string, expiry: int)

  datatype Ns = Ns(tree: Node, datanodes: map<string, DataNodeInfo>, locs: map<int, seq<DataNodeInfo>>,
                   reports: map<string, seq<Block>>, leases: map<string, Lease>)

  const EMPTY := Ns(ROOT, map[], map[], map[], map[])
  const REPLICATION := 3
  const LEASE_TIMEOUT := 60
  const NO_BLOCK := Block(0, 0, 0)

  /** UpdateSafeMode is never called, so the block totals stay 0 and only registration ends safe mode. */
  predicate InSafeMode(ns: Ns) {
    ns.datanodes == map[]
  }

  predicate HasName(dns: seq<DataNodeInfo>, name: string) {
    exists i :: 0 <= i < |dns| && dns[i].name == name
  }

  ghost predicate DistinctNodes(dns: seq<DataNodeInfo>) {
    forall i, j :: 0 <= i < j < |dns| ==> dns[i].name != dns[j].name
  }

  /** What ChooseTargets may return: registered nodes, no two alike, as many as there are up to the
      replication. */
  ghost predicate ValidTargets(datanodes: map<string, DataNodeInfo>, targets: seq<DataNodeInfo>) {
    && DistinctNodes(targets)
    && (forall i :: 0 <= i < |targets| ==> targets[i].name in datanodes && datanodes[targets[i].name] == targets[i])
    && |targets| == if |datanodes| < REPLICATION then |datanodes| else REPLICATION
  }

  function DeletedIfPresent(n: Node, p: Path): Node {
    match Without(n, p)
    case None => n
    case Some(n') => n'
  }

  /** The tree on which StartFile creates the file. */
  function PreparedTree(n: Node, path: string): Node {
    AfterMkdirs(DeletedIfPresent(n, PathOf(path)), GetParentDir(path))
  }

  function StartFile(ns: Ns, path: string, overwrite: bool, id: int, targets: seq<DataNodeInfo>)
    : (Ns, (Block, seq<DataNodeInfo>))
  {
    var p := PathOf(path);
    if InSafeMode(ns) || (NodeAt(ns.tree, p).Some? && !overwrite) then (ns, (NO_BLOCK, []))
    else
      var t := PreparedTree(ns.tree, path);
      match WithFile(t, p)
      case None => (ns.(tree := t), (NO_BLOCK, []))
      case Some(t') =>
        CreateFileEntries(t, p, p);
        (ns.(tree := WithBlock(t', p, id), locs := ns.locs[id := targets]), (Block(id, 0, 0), targets))
  }

  function AddBlock(ns: Ns, path: string, id: int, targets: seq<DataNodeInfo>): (Ns, (Block, seq<DataNodeInfo>)) {
    var p := PathOf(path);
    if !IsFile(ns.tree, p) then (ns, (NO_BLOCK, []))
    else (ns.(tree := WithBlock(ns.tree, p, id), locs := ns.locs[id := targets]), (Block(id, 0, 0), targets))
  }

  function BlocksAt(n: Node, p: Path): seq<int> {
    if IsFile(n, p) then NodeAt(n, p).value.blocks else []
  }

  function Listed(locs: map<int, seq<DataNodeInfo>>, id: int): seq<DataNodeInfo> {
    if id in locs then locs[id] else []
  }

  function LocationsOf(ns: Ns, id: int): seq<DataNodeInfo> {
    Listed(ns.locs, id)
  }

  function GetBlocks(ns: Ns, path: string): seq<(Block, seq<DataNodeInfo>)> {
    var blocks := BlocksAt(ns.tree, PathOf(path));
    seq(|blocks|, i requires 0 <= i < |blocks| => (Block(blocks[i], 0, 0), LocationsOf(ns, blocks[i])))
  }

  function DeletePath(ns: Ns, path: string): (Ns, bool) {
    var p := PathOf(path);
    if NodeAt(ns.tree, p).None? then (ns, false)
    else
      (ns.(tree := DeletedIfPresent(ns.tree, p),
           locs := ns.locs - (set id | id in BlocksAt(ns.tree, p))),
       Without(ns.tree, p).Some?)
  }

  function MkdirsPath(ns: Ns, path: string): Ns {
    ns.(tree := AfterMkdirs(ns.tree, path))
  }

  function Register(ns: Ns, info: DataNodeInfo, now: int): Ns {
    ns.(datanodes := ns.datanodes[info.name := info.(lastUpdate := now)])
  }

  function Heartbeat(ns: Ns, name: string, host: string, port: int, capacity: int, remaining: int, now: int): Ns {
    var info := if name in ns.datanodes then ns.datanodes[name] else DataNodeInfo(name, "", 0, 0, 0, 0);
    ns.(datanodes := ns.datanodes[name := DataNodeInfo(info.name, host, port, capacity, remaining, now)])
  }

  function ReportOne(locs: map<int, seq<DataNodeInfo>>, id: int, node: DataNodeInfo, name: string)
    : map<int, seq<DataNodeInfo>>
  {
    var dns := Listed(locs, id);
    locs[id := if !HasName(dns, name) && |dns| < REPLICATION then dns + [node] else dns]
  }

  function ReportAll(locs: map<int, seq<DataNodeInfo>>, blocks: seq<Block>, node: DataNodeInfo, name: string)
    : map<int, seq<DataNodeInfo>>
  {
    if blocks == [] then locs
    else ReportOne(ReportAll(locs, blocks[..|blocks| - 1], node, name), blocks[|blocks| - 1].id, node, name)
  }

  function BlockReport(ns: Ns, name: string, blocks: seq<Block>): Ns {
    if name !in ns.datanodes then ns
    else ns.(reports := ns.reports[name := blocks], locs := ReportAll(ns.locs, blocks, ns.datanodes[name], name))
  }

  /** Creates the entry even for an unknown node; appends without the replication limit. */
  function BlockReceived(ns: Ns, name: string, block: Block): Ns {
    var dns := LocationsOf(ns, block.id);
    ns.(locs := ns.locs[block.id := if name in ns.datanodes && !HasName(dns, name) then dns + [ns.datanodes[name]]
                                    else dns])
  }

  function AddLease(ns: Ns, holder: string, path: string, now: int): Ns {
    ns.(leases := ns.leases[path := Lease(holder, path, now + LEASE_TIMEOUT)])
  }

  function RemoveLease(ns: Ns, path: string): Ns {
    ns.(leases := ns.leases - {path})
  }

  /** An expired lease takes its path's subtree and itself away. */
  function CheckOne(ns: Ns, now: int, name: string): Ns {
    if name in ns.leases && ns.leases[name].expiry < now then
      ns.(tree := DeletedIfPresent(ns.tree, PathOf(ns.leases[name].path)), leases := ns.leases - {name})
    else ns
  }

  /** CheckLeases, visiting the leases in the given order. */
  function CheckLeases(ns: Ns, now: int, order: seq<string>): Ns
    decreases |order|
  {
    if order == [] then ns else CheckLeases(CheckOne(ns, now, order[0]), now, order[1..])
  }

  // ---- Every sequence of operations -----------------------------------------------------------------------

  datatype Op =
    | OpStartFile(path: string, overwrite: bool, id: int, targets: seq<DataNodeInfo>)
    | OpAddBlock(path: string, id: int, targets: seq<DataNodeInfo>)
    | OpDelete(path: string)
    | OpMkdirs(path: string)
    | OpRegister(info: DataNodeInfo, now: int)
    | OpHeartbeat(name: string, host: string, port: int, capacity: int, remaining: int, now: int)
    | OpBlockReport(name: string, blocks: seq<Block>)
    | OpBlockReceived(name: string, block: Block)
    | OpAddLease(holder: string, path: string, now: int)
    | OpRemoveLease(path: string)
    | OpCheckLeases(now: int, order: seq<string>)

  function ApplyOp(ns: Ns, op: Op): Ns {
    match op
    case OpStartFile(path, overwrite, id, targets) => StartFile(ns, path, overwrite, id, targets).0
    case OpAddBlock(path, id, targets) => AddBlock(ns, path, id, targets).0
    case OpDelete(path) => DeletePath(ns, path).0
    case OpMkdirs(path) => MkdirsPath(ns, path)
    case OpRegister(info, now) => Register(ns, info, now)
    case OpHeartbeat(name, host, port, capacity, remaining, now) =>
      Heartbeat(ns, name, host, port, capacity, remaining, now)
    case OpBlockReport(name, blocks) => BlockReport(ns, name, blocks)
    case OpBlockReceived(name, block) => BlockReceived(ns, name, block)
    case OpAddLease(holder, path, now) => AddLease(ns, holder, path, now)
    case OpRemoveLease(path) => RemoveLease(ns, path)
    case OpCheckLeases(now, order) => CheckLeases(ns, now, order)
  }

  /** Generated block ids are new to the tree, and targets are what ChooseTargets may return. */
  ghost predicate LegalOp(ns: Ns, op: Op) {
    match op
    case OpStartFile(_, _, id, targets) => id !in Blocks(ns.tree) && ValidTargets(ns.datanodes, targets)
    case OpAddBlock(_, id, targets) => id !in Blocks(ns.tree) && ValidTargets(ns.datanodes, targets)
    case _ => true
  }

  ghost predicate ReplicasOk(datanodes: map<string, DataNodeInfo>, dns: seq<DataNodeInfo>) {
    DistinctNodes(dns) && forall i :: 0 <= i < |dns| ==> dns[i].name in datanodes
  }

  ghost predicate LocsOk(datanodes: map<string, DataNodeInfo>, locs: map<int, seq<DataNodeInfo>>) {
    forall id :: id in locs ==> ReplicasOk(datanodes, locs[id])
  }

  ghost predicate TreeOk(tree: Node, locs: map<int, seq<DataNodeInfo>>) {
    tree.Dir? && WellFormed(tree) && tree.name == "" &&
    (forall id :: Blocks(tree)[id] <= 1) && (forall id :: id in Blocks(tree) ==> id in locs)
  }

  ghost predicate NodesOk(datanodes: map<string, DataNodeInfo>) {
    forall name :: name in datanodes ==> datanodes[name].name == name
  }

  /** No block id occurs twice in the tree, every block of a live file has a location entry, and replica lists
      hold distinct registered nodes. */
  ghost predicate NsInv(ns: Ns) {
    TreeOk(ns.tree, ns.locs) && LocsOk(ns.datanodes, ns.locs) && NodesOk(ns.datanodes)
  }

  /** A tree as the operations keep it, whatever the listings are. */
  ghost predicate TreeSound(tree: Node) {
    tree.Dir? && WellFormed(tree) && tree.name == "" && forall id :: Blocks(tree)[id] <= 1
  }

  /** Listings that cover a tree, so that its soundness can be stated without the real ones. */
  ghost function Cover(tree: Node): map<int, seq<DataNodeInfo>> {
    map id | id in Blocks(tree) :: []
  }

  lemma TreeSoundIff(tree: Node)
    ensures TreeSound(tree) <==> TreeOk(tree, Cover(tree))
    ensures forall locs :: TreeOk(tree, locs) ==> TreeSound(tree)
  {
    hide WellFormed, Blocks;
  }

  lemma NsTree(ns: Ns)
    requires NsInv(ns)
    ensures ns.tree.Dir? && WellFormed(ns.tree)
  {
  }

  // ---- The tree operations keep the tree sound ------------------------------------------------------------

  lemma DeletedSound(n: Node, p: Path, locs: map<int, seq<DataNodeInfo>>)
    requires TreeOk(n, locs)
    ensures TreeOk(DeletedIfPresent(n, p), locs) && Blocks(DeletedIfPresent(n, p)) <= Blocks(n)
  {
    hide Without, WellFormed, Blocks;
    if Without(n, p).Some? {
      DeleteWellFormed(n, p);
      DeleteBlocks(n, p);
      var left := Blocks(Without(n, p).value);
      assert forall id :: Blocks(n)[id] == left[id] + Blocks(NodeAt(n, p).value)[id];
    }
  }

  lemma MkdirsSound(n: Node, path: string, locs: map<int, seq<DataNodeInfo>>)
    requires TreeOk(n, locs)
    ensures TreeOk(AfterMkdirs(n, path), locs) && Blocks(AfterMkdirs(n, path)) == Blocks(n)
  {
    hide WellFormed, Blocks, Fields;
    FieldsAreFields(path, IsSlash);
    var p := PathOf(path);
    assert p[..0] == [];
    assert forall k :: 0 <= k < |p| ==> p[k] in p;
    MkdirsWellFormed(n, p, 0);
    MkdirsBlocks(n, p, 0);
  }

  lemma PreparedSound(n: Node, path: string, locs: map<int, seq<DataNodeInfo>>)
    requires TreeOk(n, locs)
    ensures TreeOk(PreparedTree(n, path), locs) && Blocks(PreparedTree(n, path)) <= Blocks(n)
  {
    hide TreeOk, Blocks, DeletedIfPresent, AfterMkdirs;
    DeletedSound(n, PathOf(path), locs);
    MkdirsSound(DeletedIfPresent(n, PathOf(path)), GetParentDir(path), locs);
  }

  lemma FileSound(n: Node, path: string, locs: map<int, seq<DataNodeInfo>>)
    requires TreeOk(n, locs) && WithFile(n, PathOf(path)).Some?
    ensures TreeOk(WithFile(n, PathOf(path)).value, locs)
    ensures Blocks(WithFile(n, PathOf(path)).value) == Blocks(n)
    ensures IsFile(WithFile(n, PathOf(path)).value, PathOf(path)) &&
            NodeAt(WithFile(n, PathOf(path)).value, PathOf(path)).value.blocks == []
  {
    hide WellFormed, Blocks, Fields, WithFile;
    FieldsAreFields(path, IsSlash);
    var p := PathOf(path);
    assert forall k :: 0 <= k < |p| ==> p[k] in p;
    CreateFileWellFormed(n, p);
    CreateFileBlocks(n, p);
    CreateFileEntries(n, p, p);
  }

  lemma BlockSound(n: Node, p: Path, id: int, locs: map<int, seq<DataNodeInfo>>, targets: seq<DataNodeInfo>)
    requires TreeOk(n, locs) && IsFile(n, p) && id !in Blocks(n)
    ensures TreeOk(WithBlock(n, p, id), locs[id := targets])
  {
    hide WellFormed, Blocks, WithBlock;
    AppendBlockWellFormed(n, p, id);
    AppendBlockBlocks(n, p, id);
  }

  lemma TargetsOk(ns: Ns, id: int, targets: seq<DataNodeInfo>)
    requires LocsOk(ns.datanodes, ns.locs) && ValidTargets(ns.datanodes, targets)
    ensures LocsOk(ns.datanodes, ns.locs[id := targets])
  {
  }

  lemma StartFileInv(ns: Ns, path: string, overwrite: bool, id: int, targets: seq<DataNodeInfo>)
    requires NsInv(ns) && id !in Blocks(ns.tree) && ValidTargets(ns.datanodes, targets)
    ensures NsInv(StartFile(ns, path, overwrite, id, targets).0)
  {
    hide TreeOk, LocsOk, NodesOk, ValidTargets, PreparedTree, WithFile, WithBlock, Blocks, NodeAt, Fields;
    var t := PreparedTree(ns.tree, path);
    PreparedSound(ns.tree, path, ns.locs);
    TargetsOk(ns, id, targets);
    if WithFile(t, PathOf(path)).Some? {
      FileSound(t, path, ns.locs);
      BlockSound(WithFile(t, PathOf(path)).value, PathOf(path), id, ns.locs, targets);
    }
  }

  lemma DeleteInv(ns: Ns, path: string)
    requires NsInv(ns)
    ensures NsInv(DeletePath(ns, path).0)
  {
    hide NodeAt, Fields, WellFormed, Blocks, Without;
    var p := PathOf(path);
    DeletedSound(ns.tree, p, ns.locs);
    if Without(ns.tree, p).Some? {
      DeleteBlocks(ns.tree, p);
      var left := Without(ns.tree, p).value;
      forall id | id in Blocks(left) ensures id in DeletePath(ns, path).0.locs {
        assert Blocks(ns.tree)[id] == Blocks(left)[id] + Blocks(NodeAt(ns.tree, p).value)[id];
        ErasedBlocks(ns.tree, p, id);
      }
    } else if NodeAt(ns.tree, p).Some? {
      RootIsNoFile(ns.tree, p);
    }
  }

  lemma ErasedBlocks(n: Node, p: Path, id: int)
    requires NodeAt(n, p).Some?
    ensures id in BlocksAt(n, p) ==> id in Blocks(NodeAt(n, p).value)
  {
    hide NodeAt;
  }

  lemma RootIsNoFile(n: Node, p: Path)
    requires n.Dir? && WellFormed(n) && NodeAt(n, p).Some? && Without(n, p).None?
    ensures BlocksAt(n, p) == []
  {
    hide WellFormed, Without;
    DeleteEntries(n, p, p);
  }

  lemma {:induction false} ReportAllOk(datanodes: map<string, DataNodeInfo>, locs: map<int, seq<DataNodeInfo>>,
                                       blocks: seq<Block>, name: string)
    requires LocsOk(datanodes, locs) && NodesOk(datanodes) && name in datanodes
    ensures var locs' := ReportAll(locs, blocks, datanodes[name], name);
            LocsOk(datanodes, locs') && forall id :: id in locs ==> id in locs'
  {
    if blocks != [] {
      ReportAllOk(datanodes, locs, blocks[..|blocks| - 1], name);
      ReportOneOk(datanodes, ReportAll(locs, blocks[..|blocks| - 1], datanodes[name], name),
                  blocks[|blocks| - 1].id, name);
    }
  }

  lemma ReportOneOk(datanodes: map<string, DataNodeInfo>, locs: map<int, seq<DataNodeInfo>>, id: int, name: string)
    requires LocsOk(datanodes, locs) && NodesOk(datanodes) && name in datanodes
    ensures LocsOk(datanodes, ReportOne(locs, id, datanodes[name], name))
  {
    var dns := if id in locs then locs[id] else [];
    if !HasName(dns, name) { AppendReplica(datanodes, dns, name); }
  }

  lemma AppendReplica(datanodes: map<string, DataNodeInfo>, dns: seq<DataNodeInfo>, name: string)
    requires ReplicasOk(datanodes, dns) && NodesOk(datanodes) && name in datanodes && !HasName(dns, name)
    ensures ReplicasOk(datanodes, dns + [datanodes[name]])
  {
  }

  lemma {:induction false} CheckLeasesInv(ns: Ns, now: int, order: seq<string>)
    requires NsInv(ns)
    ensures NsInv(CheckLeases(ns, now, order))
    decreases |order|
  {
    hide TreeOk, LocsOk, NodesOk, DeletedIfPresent, Fields;
    if order != [] {
      if order[0] in ns.leases {
        DeletedSound(ns.tree, PathOf(ns.leases[order[0]].path), ns.locs);
      }
      CheckLeasesInv(CheckOne(ns, now, order[0]), now, order[1..]);
    }
  }

  /** Each operation keeps the invariant. */
  lemma OpInv(ns: Ns, op: Op)
    requires NsInv(ns) && LegalOp(ns, op)
    ensures NsInv(ApplyOp(ns, op))
  {
    hide StartFile, DeletePath, AfterMkdirs, CheckLeases, ReportAll, WithBlock, NodeAt, Fields;
    match op
    case OpStartFile(path, overwrite, id, targets) => StartFileInv(ns, path, overwrite, id, targets);
    case OpAddBlock(path, id, targets) =>
      if IsFile(ns.tree, PathOf(path)) {
        BlockSound(ns.tree, PathOf(path), id, ns.locs, targets);
        TargetsOk(ns, id, targets);
      }
    case OpDelete(path) => DeleteInv(ns, path);
    case OpMkdirs(path) => MkdirsSound(ns.tree, path, ns.locs);
    case OpRegister(info, now) =>
    case OpHeartbeat(name, host, port, capacity, remaining, now) =>
    case OpBlockReport(name, blocks) =>
      if name in ns.datanodes { ReportAllOk(ns.datanodes, ns.locs, blocks, name); }
    case OpBlockReceived(name, block) =>
      if name in ns.datanodes && !HasName(LocationsOf(ns, block.id), name) {
        AppendReplica(ns.datanodes, LocationsOf(ns, block.id), name);
      }
    case OpAddLease(holder, path, now) =>
    case OpRemoveLease(path) =>
    case OpCheckLeases(now, order) => CheckLeasesInv(ns, now, order);
  }

  ghost predicate NsRun(from: Ns, ops: seq<Op>, to: Ns)
    decreases |ops|
  {
    if ops == [] then from == to else LegalOp(from, ops[0]) && NsRun(ApplyOp(from, ops[0]), ops[1..], to)
  }

  /** From a fresh namesystem, every sequence of client, lease and data node operations keeps the invariant. */
  lemma {:induction false} EveryRunInv(from: Ns, ops: seq<Op>, to: Ns)
    requires NsInv(from) && NsRun(from, ops, to)
    ensures NsInv(to)
    decreases |ops|
  {
    hide NsInv, ApplyOp, LegalOp;
    if ops != [] {
      OpInv(from, ops[0]);
      EveryRunInv(ApplyOp(from, ops[0]), ops[1..], to);
    }
  }

  lemma FreshInv()
    ensures NsInv(EMPTY)
  {
    assert BlocksOf([]) == multiset{};
  }

  // ---- Leases ---------------------------------------------------------------------------------------------

  ghost predicate ExpiredAbove(ns: Ns, now: int, order: seq<string>, q: Path) {
    exists k :: 0 <= k < |order| && order[k] in ns.leases && ns.leases[order[k]].expiry < now &&
      PathOf(ns.leases[order[k]].path) != [] && PathOf(ns.leases[order[k]].path) <= q
  }

  lemma NothingDeleted(n: Node, p: Path)
    requires NodeAt(n, p).None?
    ensures DeletedIfPresent(n, p) == n
  {
    hide NodeAt;
    if p != [] {
      var dir, name := p[..|p| - 1], p[|p| - 1];
      assert p == dir + [name];
      NodeAtStep(n, dir, name);
      if NodeAt(n, dir).Some? { AbsentLookup(Kids(NodeAt(n, dir).value), name); }
    }
  }

  lemma DeletedEntries(n: Node, p: Path, q: Path)
    requires n.Dir? && WellFormed(n)
    ensures var n' := DeletedIfPresent(n, p);
            n'.Dir? && WellFormed(n') && EntryAt(n', q) == if p != [] && p <= q then None else EntryAt(n, q)
  {
    hide NodeAt, WellFormed, Without;
    DeleteEntries(n, p, q);
    if Without(n, p).Some? {
      DeleteWellFormed(n, p);
    } else if p != [] && p <= q {
      assert q == p + q[|p|..];
      NodeAtConcat(n, p, q[|p|..]);
    }
  }

  /** In whatever order the leases are visited, exactly the subtrees at expired leases' paths and exactly the
      expired leases go. */
  lemma {:induction false} CheckLeasesExact(ns: Ns, now: int, order: seq<string>, q: Path)
    requires ns.tree.Dir? && WellFormed(ns.tree)
    requires forall j, k :: 0 <= j < k < |order| ==> order[j] != order[k]
    ensures var ns' := CheckLeases(ns, now, order);
            EntryAt(ns'.tree, q) == (if ExpiredAbove(ns, now, order, q) then None else EntryAt(ns.tree, q)) &&
            (forall l :: l in ns'.leases <==> l in ns.leases && !(l in order && ns.leases[l].expiry < now)) &&
            (forall l :: l in ns'.leases ==> ns'.leases[l] == ns.leases[l]) &&
            ns'.locs == ns.locs && ns'.datanodes == ns.datanodes
    decreases |order|
  {
    hide NodeAt, WellFormed, DeletedIfPresent, Fields;
    if order != [] {
      var first, rest := order[0], order[1..];
      var hit := first in ns.leases && ns.leases[first].expiry < now;
      var ns1 := CheckOne(ns, now, first);
      if hit { DeletedEntries(ns.tree, PathOf(ns.leases[first].path), q); }
      CheckLeasesExact(ns1, now, rest, q);
      ExpiredSplit(ns, ns1, now, order, q);
    }
  }

  lemma ExpiredSplit(ns: Ns, ns1: Ns, now: int, order: seq<string>, q: Path)
    requires order != [] && forall j, k :: 0 <= j < k < |order| ==> order[j] != order[k]
    requires ns1.leases == if order[0] in ns.leases && ns.leases[order[0]].expiry < now then ns.leases - {order[0]}
                           else ns.leases
    ensures ExpiredAbove(ns, now, order, q) <==>
              (order[0] in ns.leases && ns.leases[order[0]].expiry < now && PathOf(ns.leases[order[0]].path) != [] &&
               PathOf(ns.leases[order[0]].path) <= q) || ExpiredAbove(ns1, now, order[1..], q)
  {
    hide Fields;
    if ExpiredAbove(ns, now, order, q) {
      var k :| 0 <= k < |order| && order[k] in ns.leases && ns.leases[order[k]].expiry < now &&
        PathOf(ns.leases[order[k]].path) != [] && PathOf(ns.leases[order[k]].path) <= q;
      if k > 0 { assert order[1..][k - 1] == order[k]; }
    }
    if ExpiredAbove(ns1, now, order[1..], q) {
      var k :| 0 <= k < |order[1..]| && order[1..][k] in ns1.leases && ns1.leases[order[1..][k]].expiry < now &&
        PathOf(ns1.leases[order[1..][k]].path) != [] && PathOf(ns1.leases[order[1..][k]].path) <= q;
      assert order[k + 1] == order[1..][k];
    }
  }

  /** A lease granted at time t still stands at t + 60 and is gone at t + 61, if the check visits it. */
  lemma LeaseLives(ns: Ns, holder: string, path: string, t: int, now: int, order: seq<string>)
    requires ns.tree.Dir? && WellFormed(ns.tree) && path in order
    requires forall j, k :: 0 <= j < k < |order| ==> order[j] != order[k]
    ensures path in CheckLeases(AddLease(ns, holder, path, t), now, order).leases <==> now <= t + 60
    ensures now <= t + 60 ==>
              CheckLeases(AddLease(ns, holder, path, t), now, order).leases[path] == Lease(holder, path, t + 60)
  {
    hide CheckLeases, EntryAt, ExpiredAbove, WellFormed;
    CheckLeasesExact(AddLease(ns, holder, path, t), now, order, []);
  }

  // ---- How many targets, and what they say ----------------------------------------------------------------

  /** The targets of a block are as many different registered nodes as there are, up to 3. */
  lemma TargetCount(datanodes: map<string, DataNodeInfo>, targets: seq<DataNodeInfo>)
    requires ValidTargets(datanodes, targets)
    ensures |targets| == if |datanodes| < 3 then |datanodes| else 3
    ensures |set i | 0 <= i < |targets| :: targets[i].name| == |targets|
    ensures forall i :: 0 <= i < |targets| ==> targets[i].name in datanodes && targets[i] == datanodes[targets[i].name]
  {
    NamesDiffer(targets);
  }

  lemma {:induction false} NamesDiffer(dns: seq<DataNodeInfo>)
    requires DistinctNodes(dns)
    ensures |set i | 0 <= i < |dns| :: dns[i].name| == |dns|
  {
    var names := set i | 0 <= i < |dns| :: dns[i].name;
    if dns != [] {
      var n := |dns| - 1;
      var init := dns[..n];
      NamesDiffer(init);
      var before := set i | 0 <= i < |init| :: init[i].name;
      assert dns[n].name !in before;
      forall name ensures name in names <==> name in before + {dns[n].name} {
        if name in names {
          var i :| 0 <= i < |dns| && dns[i].name == name;
          if i < n { assert init[i].name == name; }
        }
        if name in before {
          var i :| 0 <= i < |init| && init[i].name == name;
          assert dns[i].name == name;
        }
      }
      assert names == before + {dns[n].name};
    } else {
      assert names == {};
    }
  }

  /** What a node said in its heartbeat is what the next StartFile tells the client about it. */
  lemma HeartbeatReachesClient(ns: Ns, name: string, host: string, port: int, capacity: int, remaining: int, now: int,
                               path: string, overwrite: bool, id: int, targets: seq<DataNodeInfo>, i: nat)
    requires NodesOk(ns.datanodes)
    requires ValidTargets(Heartbeat(ns, name, host, port, capacity, remaining, now).datanodes, targets)
    requires var reply := StartFile(Heartbeat(ns, name, host, port, capacity, remaining, now), path, overwrite, id,
                                    targets).1.1;
             i < |reply| && reply[i].name == name
    ensures var dn := StartFile(Heartbeat(ns, name, host, port, capacity, remaining, now), path, overwrite, id,
                                targets).1.1[i];
            dn.host == host && dn.port == port && dn.capacity == capacity && dn.remaining == remaining &&
            dn.lastUpdate == now
  {
    hide Fields, NodeAt, WithFile, WithBlock, PreparedTree;
  }
}
