/** The client object: its loops over the linked NameNode and data node objects are proved to compute WriteFrom
    and ReadFrom of module Cluster. */
module DfsClient {
  import opened Options
  import opened Text
  import opened Inodes
  import opened Namespace
  import opened Bytes
  import opened Cluster
  import F = FsNamesystem
  import B = BlockStorage
  import E = WriteEffects
  import R = Replicas
  import W = WriteRead

  // ---- Writing chunk by chunk -----------------------------------------------------------------------------

  /** A length made up of whole blocks. */
  predicate WholeBlocks(len: nat, blockSize: int)
    requires blockSize >= 1
  {
    len == 0 || (len >= blockSize && WholeBlocks(len - blockSize, blockSize))
  }

  lemma {:induction false} ChunkAfterWhole(len: nat, n: nat, blockSize: int)
    requires blockSize >= 1 && WholeBlocks(len, blockSize) && 1 <= n <= blockSize
    ensures Chunks(len + n, blockSize) == Chunks(len, blockSize) + 1
    ensures n == blockSize ==> WholeBlocks(len + n, blockSize)
  {
    if len == 0 {
      assert Chunks(n, blockSize) == 1 + Chunks(0, blockSize);
    } else {
      ChunkAfterWhole(len - blockSize, n, blockSize);
      assert ChunkSize(blockSize, len) == blockSize && ChunkSize(blockSize, len + n) == blockSize;
      assert (len + n) - blockSize == (len - blockSize) + n;
    }
  }

  lemma OneChunk(c: Cluster, path: string, chunk: Bytes, blockSize: int, overwrite: bool, first: bool, alloc: Alloc)
    requires 1 <= |chunk| <= blockSize
    ensures Chunks(|chunk|, blockSize) == 1
    ensures WriteFrom(c, path, chunk, blockSize, overwrite, first, [alloc])
         == WriteChunk(c, path, chunk, overwrite, first, alloc)
  {
    hide WriteChunk;
    assert chunk[..|chunk|] == chunk && chunk[|chunk|..] == [] && [alloc][1..] == [];
    assert Chunks(0, blockSize) == 0;
  }

  /** Writing one more chunk after whole blocks continues the write. */
  lemma {:induction false} WriteSnoc(c: Cluster, path: string, data: Bytes, chunk: Bytes, blockSize: int,
                                     overwrite: bool, first: bool, allocs: seq<Alloc>, alloc: Alloc)
    requires blockSize >= 1 && |allocs| == Chunks(|data|, blockSize) && WholeBlocks(|data|, blockSize)
    requires 1 <= |chunk| <= blockSize
    ensures |allocs + [alloc]| == Chunks(|data + chunk|, blockSize)
    ensures WriteFrom(c, path, data + chunk, blockSize, overwrite, first, allocs + [alloc])
         == WriteChunk(WriteFrom(c, path, data, blockSize, overwrite, first, allocs), path, chunk, overwrite,
                       first && data == [], alloc)
    decreases |data|
  {
    hide WriteChunk, WriteFrom, Chunks;
    ChunkAfterWhole(|data|, |chunk|, blockSize);
    if data == [] {
      W.WriteFromEnd(c, path, data, blockSize, overwrite, first, allocs);
      assert data + chunk == chunk && allocs + [alloc] == [alloc];
      OneChunk(c, path, chunk, blockSize, overwrite, first, alloc);
    } else {
      var all, given := data + chunk, allocs + [alloc];
      W.WriteFromUnfold(c, path, data, blockSize, overwrite, first, allocs);
      W.WriteFromUnfold(c, path, all, blockSize, overwrite, first, given);
      assert ChunkSize(blockSize, |data|) == blockSize && ChunkSize(blockSize, |all|) == blockSize;
      assert all[..blockSize] == data[..blockSize] && all[blockSize..] == data[blockSize..] + chunk;
      assert given[0] == allocs[0] && given[1..] == allocs[1..] + [alloc];
      var c1 := WriteChunk(c, path, data[..blockSize], overwrite, first, allocs[0]);
      WriteSnoc(c1, path, data[blockSize..], chunk, blockSize, overwrite, false, allocs[1..], alloc);
    }
  }

  // ---- The disks behind the objects -----------------------------------------------------------------------

  ghost function DisksOf(stores: map<Addr, B.BlockStorage>): map<Addr, Disk>
    reads stores.Values
  {
    map a | a in stores :: stores[a].disk
  }

  class DfsClient {
    const nn: F.FsNamesystem
    const stores: map<Addr, B.BlockStorage>
    const blockSize: int

    ghost predicate Valid()
      reads this, nn, nn.tree, nn.tree.nodes.Values, stores.Values
    {
      && nn.Valid() && blockSize >= 1 && StoresOk()
    }

    /** Data nodes at different addresses keep different disks. */
    ghost predicate StoresOk()
      reads this, stores.Values
    {
      && (forall a :: a in stores ==> stores[a].Valid())
      && (forall a, b :: a in stores && b in stores && a != b ==> stores[a] != stores[b])
    }

    ghost function State(): Cluster
      reads this, nn, nn.tree, stores.Values
    {
      Cluster(nn.State(), DisksOf(stores))
    }

    constructor (nn: F.FsNamesystem, stores: map<Addr, B.BlockStorage>, blockSize: int)
      requires nn.Valid() && blockSize >= 1
      requires forall a :: a in stores ==> stores[a].Valid()
      requires forall a, b :: a in stores && b in stores && a != b ==> stores[a] != stores[b]
      ensures Valid() && this.nn == nn && this.stores == stores && this.blockSize == blockSize
    {
      this.nn, this.stores, this.blockSize := nn, stores, blockSize;
    }

    /** The name space is sound, and the next n ids are new and different. */
    ghost predicate NewIds(newIds: nat -> int, n: nat)
      reads this, nn, nn.tree, stores.Values
    {
      FreshIds(State(), newIds, n)
    }

    /** Sends the chunk to the first target, if there is one and it accepts the connection. */
    method SendChunk(targets: seq<DataNodeInfo>, id: int, chunk: Bytes)
      requires StoresOk() && IsInt64(id)
      modifies stores.Values
      ensures StoresOk() && DisksOf(stores) == StoreChunk(old(DisksOf(stores)), id, targets, chunk)
    {
      hide B.HasExtension, B.BlockName, IsInt64;
      if targets != [] {
        var a := (targets[0].host, targets[0].port);
        if a in stores {
          var _ := stores[a].StoreBlock(id, chunk, true);
        }
      }
    }

    /** Confirms the block for every target; each of these calls may fail. */
    method Confirm(targets: seq<DataNodeInfo>, block: Block, arrives: int -> bool)
      requires nn.Valid()
      modifies nn`blockToDatanodes
      ensures nn.Valid() && nn.State() == ConfirmSome(old(nn.State()), targets, block, arrives)
    {
      hide nn.tree.Valid, Namespace.BlockReceived;
      for i := 0 to |targets|
        invariant nn.Valid()
        invariant nn.State() == ConfirmSome(old(nn.State()), targets[..i], block, arrives)
      {
        assert targets[..i + 1][..i] == targets[..i];
        if arrives(i) {
          nn.BlockReceived(targets[i].name, block);
        }
      }
      assert targets[..|targets|] == targets;
    }

    /** The StartFile or AddBlock call. */
    method AskForBlock(path: string, overwrite: bool, first: bool, newId: int)
      returns (block: Block, targets: seq<DataNodeInfo>, ghost alloc: Alloc)
      requires nn.Valid()
      modifies nn, nn.tree, nn.tree.nodes.Values
      ensures nn.Valid() && nn.OwnNodes()
      ensures alloc.id == newId && ValidTargets(old(nn.datanodes), alloc.targets)
      ensures (nn.State(), (block, targets)) == Allocate(old(nn.State()), path, overwrite, first, alloc)
    {
      hide *;
      ghost var chosen;
      if first {
        block, targets, chosen := nn.StartFile(path, overwrite, newId);
      } else {
        block, targets, chosen := nn.AddBlock(path, newId);
      }
      alloc := Alloc(newId, chosen);
      AllocateIs(old(nn.State()), path, overwrite, first, alloc);
    }

    /** The call for the block, the bytes, and the confirmations. Whether these arrive makes no difference. */
    method WriteOneChunk(path: string, chunk: Bytes, overwrite: bool, first: bool, newId: int, call: Call,
                         arrives: int -> bool)
      returns (ok: bool, id: int, ghost alloc: Alloc)
      requires Valid() && IsInt64(newId)
      modifies nn, nn.tree, nn.tree.nodes.Values, stores.Values
      ensures Valid() && nn.OwnNodes() && (ok <==> call.Served?)
      ensures !call.Unsent? ==> alloc.id == newId && ValidTargets(old(nn.datanodes), alloc.targets)
      ensures State() == match call
                         case Served => WriteChunk(old(State()), path, chunk, overwrite, first, alloc)
                         case Unsent => old(State())
                         case Unanswered =>
                           old(State()).(ns := Allocate(old(nn.State()), path, overwrite, first, alloc).0)
    {
      hide Allocate, ConfirmAll, ConfirmSome, StoreChunk, ValidTargets, nn.tree.Valid, StoresOk;
      ok, id, alloc := false, -1, Alloc(newId, []);
      if call.Unsent? { return; }
      var block, targets;
      block, targets, alloc := AskForBlock(path, overwrite, first, newId);
      if call.Unanswered? { return; }
      GivenBlock(old(nn.State()), path, overwrite, first, alloc);
      SendChunk(targets, block.id, chunk);
      ConfirmsMatterNot(old(nn.State()), path, overwrite, first, alloc, |chunk|, arrives);
      Confirm(targets, block.(numBytes := |chunk|), arrives);
      ok, id := true, block.id;
    }

    /** The write reports success exactly when every call for a block is served, whatever becomes of the bytes and the
        confirmations. Then, with ids new to the tree and the disks, it has stored the data exactly when the write
        takes effect and every first target could be reached. Otherwise it stops at the first call that fails. */
    method WriteFile(path: string, data: Bytes, overwrite: bool, newIds: nat -> int, calls: nat -> Call,
                     arrives: (int, int) -> bool)
      returns (ok: bool, ghost sent: nat, ghost allocs: seq<Alloc>)
      requires Valid() && forall k: nat :: IsInt64(newIds(k))
      modifies nn, nn.tree, nn.tree.nodes.Values, stores.Values
      ensures Valid() && sent <= |data| && (ok <==> forall k: nat :: k < Chunks(|data|, blockSize) ==> calls(k).Served?)
      ensures forall k :: 0 <= k < |allocs| ==>
        allocs[k].id == newIds(k) && ValidTargets(old(nn.datanodes), allocs[k].targets)
      ensures ok ==>
        |allocs| == Chunks(|data|, blockSize) &&
        State() == WriteFrom(old(State()), path, data, blockSize, overwrite, true, allocs) &&
        (old(NewIds(newIds, Chunks(|data|, blockSize))) ==>
           (R.Stored(State(), path, data, allocs) <==>
            E.TakesEffect(old(nn.State()), path, data, overwrite) &&
            forall k :: 0 <= k < |allocs| ==> Accepts(old(DisksOf(stores)), allocs[k])))
      ensures !ok ==>
        var n := Chunks(sent, blockSize);
        sent == n * blockSize && sent < |data| && !calls(n).Served? &&
        (forall k: nat :: k < n ==> calls(k).Served?) &&
        |allocs| == n + (if calls(n).Unanswered? then 1 else 0) &&
        State() == CutWrite(old(State()), path, data[..sent], blockSize, overwrite, allocs, calls(n))
    {
      hide WriteFrom, WriteChunk, ValidTargets, Chunks, ChunkSize, nn.Valid, StoresOk, Allocate;
      sent, allocs := 0, [];
      NoChunks(blockSize);
      W.WriteFromEnd(State(), path, [], blockSize, overwrite, true, []);
      var offset, first, written: seq<int> := 0, true, [];
      assert data[..0] == [];
      while offset < |data|
        invariant 0 <= offset <= |data| && (offset < |data| ==> WholeBlocks(offset, blockSize))
        invariant first <==> offset == 0
        invariant Valid() && nn.OwnNodes() && nn.datanodes == old(nn.datanodes)
        invariant |allocs| == Chunks(offset, blockSize) == |written|
        invariant forall k :: 0 <= k < |allocs| ==>
          calls(k).Served? && allocs[k].id == newIds(k) && ValidTargets(old(nn.datanodes), allocs[k].targets)
        invariant State() == WriteFrom(old(State()), path, data[..offset], blockSize, overwrite, true, allocs)
      {
        var n := if blockSize < |data| - offset then blockSize else |data| - offset;
        ghost var before := State();
        ghost var alloc;
        var served, id;
        served, id, alloc := WriteOneChunk(path, data[offset..offset + n], overwrite, first, newIds(|written|),
                                           calls(|written|), j => arrives(|written|, j));
        if !served {
          sent := offset;
          ChunksBefore(offset, |data|, blockSize);
          WholeIsProduct(offset, blockSize);
          assert allocs[..|written|] == allocs;
          if calls(|written|).Unanswered? {
            assert (allocs + [alloc])[..|written|] == allocs;
            allocs := allocs + [alloc];
          }
          assert |data[..offset]| == offset;
          return false, sent, allocs;
        }
        assert State() == WriteChunk(before, path, data[offset..offset + n], overwrite, first, alloc);
        W.ChunkKeepsNodes(before, path, data[offset..offset + n], overwrite, first, alloc);
        WriteSnoc(old(State()), path, data[..offset], data[offset..offset + n], blockSize, overwrite, true, allocs,
                  alloc);
        ChunkAfterWhole(offset, n, blockSize);
        assert data[..offset] + data[offset..offset + n] == data[..offset + n];
        allocs, written := allocs + [alloc], written + [id];
        offset := offset + n;
        first := false;
      }
      assert data[..|data|] == data;
      sent := |data|;
      ok := true;
      if old(NewIds(newIds, Chunks(|data|, blockSize))) {
        WriteResult(old(State()), path, data, blockSize, overwrite, newIds, allocs);
      }
    }

    // ---- Reading ----------------------------------------------------------------------------------------

    /** One pass of the fallback loop: the buffer grows by one whole copy or is put back. */
    method TryNode(dn: DataNodeInfo, id: int, fate: Fate, buffer: Bytes) returns (got: bool, data: Bytes)
      requires StoresOk()
      ensures got <==> Sends(DisksOf(stores), dn, id, fate)
      ensures got <==> (dn.host, dn.port) in stores && id in stores[(dn.host, dn.port)].disk &&
                       (fate.Delivered? ||
                        (fate.CutInData? && fate.got >= |stores[(dn.host, dn.port)].disk[id]|))
      ensures data == if got then buffer + DisksOf(stores)[AddrOf(dn)][id] else buffer
    {
      data, got := buffer, false;
      var a := (dn.host, dn.port);
      if a !in stores || fate.Refused? { return; }
      var found := stores[a].ReadBlock(id);
      if found.None? || fate.CutBeforeLength? { return; }
      var sent := found.value;
      var prevSize := |data|;
      data := data + seq(|sent|, _ => 0);
      var arrived := if fate.CutInData? && fate.got < |sent| then fate.got else |sent|;
      data := data[..prevSize] + sent[..arrived] + data[prevSize + arrived..];
      if arrived < |sent| {
        data := data[..prevSize];
        assert data == buffer;
        return;
      }
      assert data == buffer + sent;
      got := true;
    }

    /** The fallback loop over the nodes listed for block number i. */
    method FetchBlock(dns: seq<DataNodeInfo>, id: int, fates: Fates, i: int, buffer: Bytes)
      returns (readOk: bool, data: Bytes)
      requires StoresOk()
      ensures var copy := FirstCopy(DisksOf(stores), id, dns, fates, i, 0);
              readOk == copy.Some? && data == if copy.Some? then buffer + copy.value else buffer
    {
      hide Sends, DisksOf, FirstCopy, StoresOk;
      ghost var disks := DisksOf(stores);
      data, readOk := buffer, false;
      var j := 0;
      while j < |dns|
        invariant 0 <= j <= |dns| && data == buffer
        invariant FirstCopy(disks, id, dns, fates, i, 0) == FirstCopy(disks, id, dns, fates, i, j)
      {
        FirstCopyUnfold(disks, id, dns, fates, i, j);
        readOk, data := TryNode(dns[j], id, fates(i, j), data);
        if readOk { return; }
        j := j + 1;
      }
      FirstCopyUnfold(disks, id, dns, fates, i, j);
      readOk := false;
    }

    method ReadFile(path: string, fates: Fates) returns (ok: bool, data: Bytes)
      requires Valid()
      ensures (ok, data) == ReadFrom(State(), BlocksAt(nn.tree.tree, PathOf(path)), fates, 0)
    {
      hide Fields, NodeAt, ReadFrom, nn.Valid, StoresOk, DisksOf, FirstCopy, LocationsOf, BlocksAt;
      ghost var c, blocks := State(), BlocksAt(nn.tree.tree, PathOf(path));
      var listed := nn.GetBlocks(path);
      data := [];
      assert [] + ReadFrom(c, blocks, fates, 0).1 == ReadFrom(c, blocks, fates, 0).1;
      for i := 0 to |listed|
        invariant ReadFrom(c, blocks, fates, 0)
               == (ReadFrom(c, blocks, fates, i).0, data + ReadFrom(c, blocks, fates, i).1)
      {
        ReadFromUnfold(c, blocks, fates, i);
        ghost var before, rest := data, ReadFrom(c, blocks, fates, i + 1).1;
        var readOk;
        readOk, data := FetchBlock(listed[i].1, listed[i].0.id, fates, i, data);
        if !readOk {
          assert data + [] == data;
          return false, data;
        }
        ghost var copy := FirstCopy(c.disks, blocks[i], LocationsOf(c.ns, blocks[i]), fates, i, 0).value;
        assert (before + copy) + rest == before + (copy + rest);
      }
      ReadFromUnfold(c, blocks, fates, |blocks|);
      assert data + [] == data;
      ok := true;
    }
  }

  ghost predicate FreshIds(c: Cluster, newIds: nat -> int, n: nat) {
    NsInv(c.ns) &&
    (forall k: nat :: k < n ==> newIds(k) !in Blocks(c.ns.tree) && !OnDisk(c.disks, newIds(k))) &&
    (forall j: nat, k: nat :: j < k < n ==> newIds(j) != newIds(k))
  }

  lemma WriteResult(c: Cluster, path: string, data: Bytes, blockSize: int, overwrite: bool, newIds: nat -> int,
                    allocs: seq<Alloc>)
    requires blockSize >= 1 && |allocs| == Chunks(|data|, blockSize) && FreshIds(c, newIds, |allocs|)
    requires forall k :: 0 <= k < |allocs| ==>
      allocs[k].id == newIds(k) && ValidTargets(c.ns.datanodes, allocs[k].targets)
    ensures R.Stored(WriteFrom(c, path, data, blockSize, overwrite, true, allocs), path, data, allocs) <==>
              E.TakesEffect(c.ns, path, data, overwrite) &&
              forall k :: 0 <= k < |allocs| ==> Accepts(c.disks, allocs[k])
  {
    hide R.Stored, WriteFrom, E.TakesEffect, Accepts, NsInv, Chunks, OnDisk, Blocks, ValidTargets;
    assert E.LegalAllocs(c.ns, allocs);
    assert R.FreshOnDisk(c.disks, allocs);
    R.WriteStoresIff(c, path, data, blockSize, overwrite, allocs);
  }

  lemma AllocateIs(ns: Ns, path: string, overwrite: bool, first: bool, alloc: Alloc)
    ensures Allocate(ns, path, overwrite, first, alloc)
         == if first then Namespace.StartFile(ns, path, overwrite, alloc.id, alloc.targets)
            else Namespace.AddBlock(ns, path, alloc.id, alloc.targets)
  {
  }

  lemma GivenBlock(ns: Ns, path: string, overwrite: bool, first: bool, alloc: Alloc)
    ensures var (block, targets) := Allocate(ns, path, overwrite, first, alloc).1;
            (block == Block(alloc.id, 0, 0) || block == NO_BLOCK) &&
            Allocate(ns, path, overwrite, first, alloc).0.datanodes == ns.datanodes
  {
    hide Fields, NodeAt, WithFile, WithBlock, PreparedTree;
  }

  /** The confirmations of which `arrives` tells. */
  function ConfirmSome(ns: Ns, targets: seq<DataNodeInfo>, block: Block, arrives: int -> bool): Ns {
    if targets == [] then ns
    else
      var n := |targets| - 1;
      var ns' := ConfirmSome(ns, targets[..n], block, arrives);
      if arrives(n) then BlockReceived(ns', targets[n].name, block) else ns'
  }

  lemma {:induction false} SomeConfirmNothing(ns: Ns, targets: seq<DataNodeInfo>, k: nat, block: Block,
                                              arrives: int -> bool)
    requires k <= |targets| && block.id in ns.locs && ns.locs[block.id] == targets
    ensures ConfirmSome(ns, targets[..k], block, arrives) == ns
  {
    if k > 0 {
      SomeConfirmNothing(ns, targets, k - 1, block, arrives);
      assert targets[..k][..k - 1] == targets[..k - 1];
      assert targets[..k][k - 1] == targets[k - 1];
      assert HasName(targets, targets[k - 1].name);
      assert ns.locs[block.id := targets] == ns.locs;
    }
  }

  /** All targets are listed when the block is allocated, so it does not matter which confirmations arrive. */
  lemma ConfirmsMatterNot(ns: Ns, path: string, overwrite: bool, first: bool, alloc: Alloc, len: int,
                          arrives: int -> bool)
    ensures var (ns', (block, targets)) := Allocate(ns, path, overwrite, first, alloc);
            var sized := block.(numBytes := len);
            ConfirmSome(ns', targets, sized, arrives) == ConfirmAll(ns', targets, sized)
  {
    hide Fields, NodeAt, WithFile, WithBlock, PreparedTree;
    var (ns', (block, targets)) := Allocate(ns, path, overwrite, first, alloc);
    if targets != [] {
      assert ns'.locs == ns.locs[alloc.id := alloc.targets];
      assert targets[..|targets|] == targets;
      SomeConfirmNothing(ns', targets, |targets|, block.(numBytes := len), arrives);
      W.ConfirmNothing(ns', targets, |targets|, block.(numBytes := len));
    }
  }

  lemma {:induction false} ChunksBefore(sent: nat, len: nat, blockSize: int)
    requires blockSize >= 1 && sent < len
    ensures Chunks(sent, blockSize) < Chunks(len, blockSize) || !WholeBlocks(sent, blockSize)
  {
    if sent > 0 && WholeBlocks(sent, blockSize) {
      ChunksBefore(sent - blockSize, len - blockSize, blockSize);
      assert ChunkSize(blockSize, sent) == blockSize && ChunkSize(blockSize, len) == blockSize;
    }
  }

  lemma {:induction false} WholeIsProduct(len: nat, blockSize: int)
    requires blockSize >= 1 && WholeBlocks(len, blockSize)
    ensures len == Chunks(len, blockSize) * blockSize
  {
    if len > 0 {
      WholeIsProduct(len - blockSize, blockSize);
      assert ChunkSize(blockSize, len) == blockSize;
      var k := Chunks(len - blockSize, blockSize);
      assert (k + 1) * blockSize == k * blockSize + blockSize;
    }
  }

  lemma NoChunks(blockSize: int)
    requires blockSize >= 1
    ensures Chunks(0, blockSize) == 0
  {
  }

  lemma FirstCopyUnfold(disks: map<Addr, Disk>, id: int, dns: seq<DataNodeInfo>, fates: Fates, i: int, j: nat)
    ensures FirstCopy(disks, id, dns, fates, i, j)
         == if j >= |dns| then None
            else if Sends(disks, dns[j], id, fates(i, j)) then Some(disks[AddrOf(dns[j])][id])
            else FirstCopy(disks, id, dns, fates, i, j + 1)
  {
  }

  lemma ReadFromUnfold(c: Cluster, blocks: seq<int>, fates: Fates, i: nat)
    ensures ReadFrom(c, blocks, fates, i)
         == if i >= |blocks| then (true, [])
            else
              match FirstCopy(c.disks, blocks[i], LocationsOf(c.ns, blocks[i]), fates, i, 0)
              case None => (false, [])
              case Some(data) =>
                (ReadFrom(c, blocks, fates, i + 1).0, data + ReadFrom(c, blocks, fates, i + 1).1)
  {
    hide FirstCopy;
  }
}
