/** The FsNamesystem object: every method updates its fields and the linked tree in place and is proved to
    compute the operation of module Namespace. */
module FsNamesystem {
  import opened Text
  import opened Inodes
  import opened FsImage
  import opened InodeTree
  import N = Namespace

  class FsNamesystem {
    const tree: InodeTree
    var datanodes: map<string, N.DataNodeInfo>
    var blockToDatanodes: map<int, seq<N.DataNodeInfo>>
    var dnToBlocks: map<string, seq<N.Block>>
    var leases: map<string, N.Lease>

    ghost function State(): N.Ns
      reads this, tree
    {
      N.Ns(tree.tree, datanodes, blockToDatanodes, dnToBlocks, leases)
    }

    ghost predicate Valid()
      reads this, tree, tree.nodes.Values
    {
      tree.Valid() && N.NodesOk(datanodes)
    }

    /** The objects of the tree after the call are old ones or new ones. */
    twostate predicate OwnNodes()
      reads tree
    {
      forall o :: o in tree.nodes.Values ==> o in old(tree.nodes.Values) || !old(allocated(o))
    }

    constructor ()
      ensures Valid() && State() == N.EMPTY && fresh(tree) && fresh(tree.nodes.Values)
    {
      tree := new InodeTree();
      datanodes, blockToDatanodes, dnToBlocks, leases := map[], map[], map[], map[];
    }

    lemma {:induction false} SomeTargets(names: set<string>, have: seq<N.DataNodeInfo>)
      returns (targets: seq<N.DataNodeInfo>)
      requires N.NodesOk(datanodes) && names <= datanodes.Keys && |have| + |names| == |datanodes|
      requires |have| <= N.REPLICATION && N.DistinctNodes(have)
      requires forall i :: 0 <= i < |have| ==>
        have[i].name in datanodes && datanodes[have[i].name] == have[i] && have[i].name !in names
      ensures N.ValidTargets(datanodes, targets)
      decreases names
    {
      if names == {} || |have| == N.REPLICATION {
        targets := have;
      } else {
        var name :| name in names;
        targets := SomeTargets(names - {name}, have + [datanodes[name]]);
      }
    }

    /** Walks the node table in whatever order it has, up to the replication. */
    method ChooseTargets(replication: int) returns (targets: seq<N.DataNodeInfo>)
      requires N.NodesOk(datanodes) && replication == N.REPLICATION
      ensures N.ValidTargets(datanodes, targets)
      ensures |targets| == if |datanodes| < 3 then |datanodes| else 3
      ensures N.DistinctNodes(targets)
    {
      targets := [];
      var names := datanodes.Keys;
      while names != {}
        invariant names <= datanodes.Keys && |targets| + |names| == |datanodes| && |targets| < replication
        invariant N.DistinctNodes(targets)
        invariant forall i :: 0 <= i < |targets| ==>
          targets[i].name in datanodes && datanodes[targets[i].name] == targets[i] && targets[i].name !in names
        decreases names
      {
        var name :| name in names;
        targets := targets + [datanodes[name]];
        names := names - {name};
        if |targets| >= replication { break; }
      }
    }

    /** `chosen` is what ChooseTargets returned or, when it was not asked, could have returned. A block that is given
        has as many different targets as there are nodes, up to 3, and these are its listing. */
    method StartFile(path: string, overwrite: bool, newId: int)
      returns (block: N.Block, targets: seq<N.DataNodeInfo>, ghost chosen: seq<N.DataNodeInfo>)
      requires Valid()
      modifies this, tree, tree.nodes.Values
      ensures Valid() && OwnNodes()
      ensures N.ValidTargets(old(datanodes), chosen)
      ensures (State(), (block, targets)) == N.StartFile(old(State()), path, overwrite, newId, chosen)
      ensures targets == [] ==> block == N.Block(0, 0, 0) && blockToDatanodes == old(blockToDatanodes)
      ensures targets != [] ==>
        block == N.Block(newId, 0, 0) && blockToDatanodes == old(blockToDatanodes)[newId := targets] &&
        |targets| == (if |old(datanodes)| < 3 then |old(datanodes)| else 3) && N.DistinctNodes(targets)
    {
      hide NodeAt, Fields, Without, MadeDirs, WithFile, WithBlock, GetParentDir, N.ValidTargets, N.NodesOk,
           N.DistinctNodes, tree.Valid;
      block, targets := N.NO_BLOCK, [];
      chosen := SomeTargets(datanodes.Keys, []);
      if datanodes == map[] { return; }
      tree.InNodes(PathOf(path));
      var existing := tree.GetNode(path);
      if existing != null && !overwrite { return; }
      if existing != null {
        var _ := tree.Delete(path);
      } else {
        N.NothingDeleted(tree.tree, PathOf(path));
      }
      tree.RootNode();
      var _ := tree.Mkdirs(GetParentDir(path));
      assert tree.tree == N.PreparedTree(old(tree.tree), path);
      ghost var prepared := tree.tree;
      var file := tree.CreateFile(path);
      if file == null { return; }
      CreateFileEntries(prepared, PathOf(path), PathOf(path));
      block := N.Block(newId, 0, 0);
      targets := ChooseTargets(N.REPLICATION);
      chosen := targets;
      blockToDatanodes := blockToDatanodes[newId := targets];
      tree.PushBlock(file, newId, PathOf(path));
    }

    method AddBlock(path: string, newId: int)
      returns (block: N.Block, targets: seq<N.DataNodeInfo>, ghost chosen: seq<N.DataNodeInfo>)
      requires Valid()
      modifies this, tree, tree.nodes.Values
      ensures Valid() && OwnNodes()
      ensures N.ValidTargets(old(datanodes), chosen)
      ensures (State(), (block, targets)) == N.AddBlock(old(State()), path, newId, chosen)
      ensures !IsFile(old(tree.tree), PathOf(path)) ==>
        block == N.Block(0, 0, 0) && targets == [] && State() == old(State())
      ensures IsFile(old(tree.tree), PathOf(path)) ==>
        block == N.Block(newId, 0, 0) && blockToDatanodes == old(blockToDatanodes)[newId := targets] &&
        |targets| == (if |old(datanodes)| < 3 then |old(datanodes)| else 3) && N.DistinctNodes(targets)
    {
      hide NodeAt, Fields, WithBlock, N.ValidTargets, N.NodesOk, tree.Valid;
      block, targets := N.NO_BLOCK, [];
      chosen := SomeTargets(datanodes.Keys, []);
      tree.InNodes(PathOf(path));
      var file := tree.GetNode(path);
      if file == null || file.isDir { return; }
      block := N.Block(newId, 0, 0);
      targets := ChooseTargets(N.REPLICATION);
      chosen := targets;
      blockToDatanodes := blockToDatanodes[newId := targets];
      tree.PushBlock(file, newId, PathOf(path));
    }

    method GetBlocks(path: string) returns (result: seq<(N.Block, seq<N.DataNodeInfo>)>)
      requires Valid()
      ensures result == N.GetBlocks(State(), path)
      ensures var blocks := N.BlocksAt(tree.tree, PathOf(path));
              |result| == |blocks| && forall i :: 0 <= i < |blocks| ==>
                result[i] == (N.Block(blocks[i], 0, 0),
                              if blocks[i] in blockToDatanodes then blockToDatanodes[blocks[i]] else [])
    {
      hide NodeAt, Fields, tree.Valid;
      result := [];
      tree.InNodes(PathOf(path));
      var file := tree.GetNode(path);
      if file == null || file.isDir { return; }
      for i := 0 to |file.blocks|
        invariant result == N.GetBlocks(State(), path)[..i]
      {
        var bid := file.blocks[i];
        result := result + [(N.Block(bid, 0, 0), if bid in blockToDatanodes then blockToDatanodes[bid] else [])];
      }
    }

    method Delete(path: string) returns (ok: bool)
      requires Valid()
      modifies this, tree, tree.nodes.Values
      ensures Valid() && OwnNodes()
      ensures (State(), ok) == N.DeletePath(old(State()), path)
      ensures forall id :: id in blockToDatanodes <==>
        id in old(blockToDatanodes) && !(IsFile(old(tree.tree), PathOf(path)) &&
                                         id in NodeAt(old(tree.tree), PathOf(path)).value.blocks)
      ensures forall id :: id in blockToDatanodes ==> blockToDatanodes[id] == old(blockToDatanodes)[id]
    {
      hide NodeAt, Fields, Without, tree.Valid;
      tree.InNodes(PathOf(path));
      var node := tree.GetNode(path);
      if node == null { return false; }
      ghost var blocks := N.BlocksAt(tree.tree, PathOf(path));
      if !node.isDir {
        blockToDatanodes := blockToDatanodes - set bid | bid in node.blocks;
      } else {
        assert blocks == [] && (set bid: int | bid in blocks) == {};
        assert blockToDatanodes - {} == blockToDatanodes;
      }
      ok := tree.Delete(path);
    }

    method Mkdirs(path: string) returns (ok: bool)
      requires Valid()
      modifies this, tree, tree.nodes.Values
      ensures Valid() && OwnNodes()
      ensures State() == N.MkdirsPath(old(State()), path)
      ensures ok <==> MadeDirs(old(tree.tree), PathOf(path)).1
    {
      hide MadeDirs, Fields, tree.Valid;
      tree.RootNode();
      var node := tree.Mkdirs(path);
      ok := node != null;
    }

    method RegisterDataNode(info: N.DataNodeInfo, now: int)
      requires Valid()
      modifies `datanodes
      ensures Valid() && State() == N.Register(old(State()), info, now)
      ensures datanodes == old(datanodes)[info.name := N.DataNodeInfo(info.name, info.host, info.port, info.capacity,
                                                                      info.remaining, now)]
    {
      datanodes := datanodes[info.name := info.(lastUpdate := now)];
    }

    /** The node is registered under its name with what the heartbeat says and the time of the call; nothing else
        changes. */
    method Heartbeat(name: string, host: string, port: int, capacity: int, remaining: int, now: int)
      requires Valid()
      modifies `datanodes
      ensures Valid() && State() == N.Heartbeat(old(State()), name, host, port, capacity, remaining, now)
      ensures State() == old(State()).(datanodes := datanodes)
      ensures name in datanodes && datanodes[name].name == name && datanodes[name].host == host &&
              datanodes[name].port == port && datanodes[name].capacity == capacity &&
              datanodes[name].remaining == remaining && datanodes[name].lastUpdate == now
      ensures forall other :: other != name ==>
        (other in datanodes <==> other in old(datanodes)) &&
        (other in datanodes ==> datanodes[other] == old(datanodes)[other])
    {
      if name !in datanodes {
        datanodes := datanodes[name := N.DataNodeInfo(name, host, port, capacity, remaining, now)];
      } else {
        datanodes := datanodes[name := datanodes[name].(host := host, port := port, capacity := capacity,
                                                        remaining := remaining, lastUpdate := now)];
      }
    }

    method BlockReport(name: string, blocks: seq<N.Block>)
      requires Valid()
      modifies `dnToBlocks, `blockToDatanodes
      ensures Valid() && State() == N.BlockReport(old(State()), name, blocks)
    {
      if name !in datanodes { return; }
      dnToBlocks := dnToBlocks[name := blocks];
      blockToDatanodes := MergeReport(blockToDatanodes, blocks, datanodes[name], name);
    }

    /** Afterwards a known node is listed for the block, at the end if it was not listed before, however many are. */
    method BlockReceived(name: string, block: N.Block)
      requires Valid()
      modifies `blockToDatanodes
      ensures Valid() && State() == N.BlockReceived(old(State()), name, block)
      ensures var dns := if block.id in old(blockToDatanodes) then old(blockToDatanodes)[block.id] else [];
              block.id in blockToDatanodes &&
              blockToDatanodes[block.id]
              == if name in datanodes && forall i :: 0 <= i < |dns| ==> dns[i].name != name then dns + [datanodes[name]]
                 else dns
      ensures forall id :: id != block.id ==>
        (id in blockToDatanodes <==> id in old(blockToDatanodes)) &&
        (id in blockToDatanodes ==> blockToDatanodes[id] == old(blockToDatanodes)[id])
    {
      var dns := if block.id in blockToDatanodes then blockToDatanodes[block.id] else [];
      if name in datanodes {
        var found := FindName(dns, name);
        if !found {
          dns := dns + [datanodes[name]];
        }
      }
      blockToDatanodes := blockToDatanodes[block.id := dns];
    }

    method AddLease(holder: string, path: string, now: int)
      requires Valid()
      modifies `leases
      ensures Valid() && State() == N.AddLease(old(State()), holder, path, now)
    {
      leases := leases[path := N.Lease(holder, path, now + N.LEASE_TIMEOUT)];
    }

    method RemoveLease(path: string)
      requires Valid()
      modifies `leases
      ensures Valid() && State() == N.RemoveLease(old(State()), path)
    {
      leases := leases - {path};
    }

    /** Visits every lease once, in whatever order the table has; `order` records it. */
    method CheckLeases(now: int) returns (ghost order: seq<string>)
      requires Valid()
      modifies this, tree, tree.nodes.Values
      ensures Valid() && OwnNodes()
      ensures (forall k :: k in order <==> k in old(leases)) && |order| == |old(leases)|
      ensures State() == N.CheckLeases(old(State()), now, order)
    {
      hide N.CheckLeases, N.DeletedIfPresent, Fields, NodeAt, Without, tree.Valid, N.NodesOk;
      order := [];
      var names := leases.Keys;
      CheckNone(State(), now);
      while names != {}
        invariant Valid() && OwnNodes()
        invariant names <= leases.Keys <= old(leases).Keys && |order| + |names| == |old(leases)|
        invariant forall k :: k in old(leases) <==> k in order || k in names
        invariant State() == N.CheckLeases(old(State()), now, order)
        decreases names
      {
        var name :| name in names;
        ghost var before := State();
        CheckSnoc(old(State()), now, order, name);
        order := order + [name];
        if leases[name].expiry < now {
          DeletedIs(tree.tree, PathOf(leases[name].path));
          var _ := tree.Delete(leases[name].path);
          leases := leases - {name};
        }
        names := names - {name};
      }
    }

    lemma DeletedIs(n: Node, p: Path)
      ensures N.DeletedIfPresent(n, p) == if Without(n, p).Some? then Without(n, p).value else n
    {
    }

    lemma CheckNone(ns: N.Ns, now: int)
      ensures N.CheckLeases(ns, now, []) == ns
    {
    }
  }

  lemma {:induction false} CheckSnoc(ns: N.Ns, now: int, order: seq<string>, name: string)
    ensures N.CheckLeases(ns, now, order + [name]) == N.CheckOne(N.CheckLeases(ns, now, order), now, name)
    decreases |order|
  {
    hide N.DeletedIfPresent, Fields;
    if order == [] {
      assert order + [name] == [name] && [name][1..] == [];
    } else {
      assert (order + [name])[1..] == order[1..] + [name];
      CheckSnoc(N.CheckOne(ns, now, order[0]), now, order[1..], name);
    }
  }

  method FindName(dns: seq<N.DataNodeInfo>, name: string) returns (found: bool)
    ensures found <==> N.HasName(dns, name)
  {
    found := false;
    for i := 0 to |dns|
      invariant !found
      invariant forall j :: 0 <= j < i ==> dns[j].name != name
    {
      if dns[i].name == name { found := true; break; }
    }
  }

  /** The loop of BlockReport. */
  method MergeReport(locs: map<int, seq<N.DataNodeInfo>>, blocks: seq<N.Block>, node: N.DataNodeInfo, name: string)
    returns (r: map<int, seq<N.DataNodeInfo>>)
    ensures r == N.ReportAll(locs, blocks, node, name)
  {
    r := locs;
    for i := 0 to |blocks|
      invariant r == N.ReportAll(locs, blocks[..i], node, name)
    {
      assert blocks[..i + 1][..i] == blocks[..i];
      var id := blocks[i].id;
      var dns := if id in r then r[id] else [];
      var found := FindName(dns, name);
      if !found && |dns| < N.REPLICATION {
        dns := dns + [node];
      }
      r := r[id := dns];
    }
    assert blocks[..|blocks|] == blocks;
  }
}
