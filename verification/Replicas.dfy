/** Where the bytes of a written file are: every target of a block is listed, but only the first holds it. When a
    write has stored its data, and which nodes the file survives losing. */
module Replicas {
  import opened Options
  import opened Text
  import opened Inodes
  import opened Namespace
  import opened Bytes
  import opened Cluster
  import opened WriteRead
  import opened WriteEffects

  // ---- One block ------------------------------------------------------------------------------------------

  /** All targets are listed for the block; of the disks that can be reached only the first target's holds it. */
  ghost predicate PlacedAt(c: Cluster, alloc: Alloc, chunk: Bytes) {
    LocationsOf(c.ns, alloc.id) == alloc.targets &&
    forall a :: a in c.disks ==>
      (alloc.id in c.disks[a] <==> alloc.targets != [] && a == AddrOf(alloc.targets[0])) &&
      (alloc.id in c.disks[a] ==> c.disks[a][alloc.id] == chunk)
  }

  lemma ChunkPlaced(c: Cluster, path: string, chunk: Bytes, overwrite: bool, first: bool, alloc: Alloc)
    requires Given(c.ns, Allocate(c.ns, path, overwrite, first, alloc).0,
                   Allocate(c.ns, path, overwrite, first, alloc).1, alloc)
    requires !OnDisk(c.disks, alloc.id)
    ensures PlacedAt(WriteChunk(c, path, chunk, overwrite, first, alloc), alloc, chunk)
  {
    hide Allocate, WriteChunk;
    ChunkWritten(c, Allocate(c.ns, path, overwrite, first, alloc).0, alloc, chunk, path, overwrite, first);
  }

  /** A chunk leaves all other blocks alone, whether it is refused or not. */
  lemma ChunkSameBlock(c: Cluster, path: string, chunk: Bytes, overwrite: bool, first: bool, alloc: Alloc, id: int)
    requires NsInv(c.ns) && LegalAlloc(c.ns, alloc) && id != alloc.id
    ensures SameBlock(c, WriteChunk(c, path, chunk, overwrite, first, alloc), id)
  {
    hide NsInv, Blocks, ValidTargets, Allocate, WriteChunk, StoreChunk, SameBlock;
    AllocatedOrNot(c.ns, path, overwrite, first, alloc);
    var (ns', started) := Allocate(c.ns, path, overwrite, first, alloc);
    var c' := WriteChunk(c, path, chunk, overwrite, first, alloc);
    if Given(c.ns, ns', started, alloc) {
      ChunkWritten(c, ns', alloc, chunk, path, overwrite, first);
      StoredOnly(c, ns', alloc, chunk, id);
    } else {
      RefusedChunk(c, path, chunk, overwrite, first, alloc);
      UntouchedBlock(c, c', id);
    }
  }

  lemma PlacedStays(c: Cluster, c': Cluster, alloc: Alloc, chunk: Bytes)
    requires PlacedAt(c, alloc, chunk) && SameBlock(c, c', alloc.id)
    ensures PlacedAt(c', alloc, chunk)
  {
  }

  lemma SameBlockTwice(c: Cluster, c1: Cluster, c2: Cluster, id: int)
    requires SameBlock(c, c1, id) && SameBlock(c1, c2, id)
    ensures SameBlock(c, c2, id)
  {
  }

  lemma StillOffDisk(c: Cluster, c': Cluster, id: int)
    requires SameBlock(c, c', id) && !OnDisk(c.disks, id)
    ensures !OnDisk(c'.disks, id)
  {
  }

  // ---- The whole write ------------------------------------------------------------------------------------

  /** The data cut into chunks. */
  function Pieces(data: Bytes, blockSize: int): (r: seq<Bytes>)
    requires blockSize >= 1
    ensures |r| == Chunks(|data|, blockSize)
    decreases |data|
  {
    if data == [] then []
    else
      var n := ChunkSize(blockSize, |data|);
      [data[..n]] + Pieces(data[n..], blockSize)
  }

  lemma {:induction false} PiecesFlatten(data: Bytes, blockSize: int)
    requires blockSize >= 1
    ensures Flatten(Pieces(data, blockSize)) == data
    decreases |data|
  {
    if data != [] {
      var n := ChunkSize(blockSize, |data|);
      PiecesFlatten(data[n..], blockSize);
      assert ([data[..n]] + Pieces(data[n..], blockSize))[1..] == Pieces(data[n..], blockSize);
      assert data[..n] + data[n..] == data;
    }
  }

  ghost predicate FreshOnDisk(disks: map<Addr, Disk>, allocs: seq<Alloc>) {
    forall k :: 0 <= k < |allocs| ==> !OnDisk(disks, allocs[k].id)
  }

  lemma {:induction false} RestSameBlock(c: Cluster, path: string, data: Bytes, blockSize: int, overwrite: bool,
                                         first: bool, allocs: seq<Alloc>, id: int)
    requires blockSize >= 1 && |allocs| == Chunks(|data|, blockSize) && NsInv(c.ns) && LegalAllocs(c.ns, allocs)
    requires forall k :: 0 <= k < |allocs| ==> allocs[k].id != id
    ensures SameBlock(c, WriteFrom(c, path, data, blockSize, overwrite, first, allocs), id)
    decreases |data|
  {
    hide NsInv, LegalAlloc, WriteFrom, WriteChunk, Blocks, Chunks, SameBlock, ValidTargets;
    if data == [] {
      WriteFromEnd(c, path, data, blockSize, overwrite, first, allocs);
      UntouchedBlock(c, c, id);
    } else {
      WriteFromUnfold(c, path, data, blockSize, overwrite, first, allocs);
      var n := ChunkSize(blockSize, |data|);
      var c1 := WriteChunk(c, path, data[..n], overwrite, first, allocs[0]);
      ChunkEffect(c, path, data[..n], overwrite, first, allocs[0], []);
      ChunkSameBlock(c, path, data[..n], overwrite, first, allocs[0], id);
      LegalRest(c.ns, c1.ns, allocs);
      RestSameBlock(c1, path, data[n..], blockSize, overwrite, false, allocs[1..], id);
      SameBlockTwice(c, c1, WriteFrom(c, path, data, blockSize, overwrite, first, allocs), id);
    }
  }

  /** A chunk that is not refused: the first of a writable path, or a later one of a file. */
  ghost predicate WillStore(ns: Ns, path: string, overwrite: bool, first: bool) {
    if first then Writable(ns, path, overwrite) else IsFile(ns.tree, PathOf(path))
  }

  lemma StoringChunk(c: Cluster, path: string, chunk: Bytes, overwrite: bool, first: bool, alloc: Alloc)
    requires NsInv(c.ns) && WillStore(c.ns, path, overwrite, first)
    ensures Given(c.ns, Allocate(c.ns, path, overwrite, first, alloc).0,
                  Allocate(c.ns, path, overwrite, first, alloc).1, alloc)
    ensures IsFile(WriteChunk(c, path, chunk, overwrite, first, alloc).ns.tree, PathOf(path))
  {
    hide Fields, NodeAt, StartFile, NsInv, Writable, WriteChunk, WithBlock;
    if first {
      WritableStarts(c.ns, path, overwrite, alloc.id, alloc.targets);
      ChunkStarted(c, path, chunk, overwrite, alloc);
    } else {
      ChunkAppended(c, path, chunk, overwrite, alloc);
    }
  }

  /** Every block of a write that takes effect is placed with its chunk. */
  lemma {:induction false} AllPlaced(c: Cluster, path: string, data: Bytes, blockSize: int, overwrite: bool,
                                     first: bool, allocs: seq<Alloc>, k: nat)
    requires blockSize >= 1 && |allocs| == Chunks(|data|, blockSize) && k < |allocs|
    requires NsInv(c.ns) && LegalAllocs(c.ns, allocs) && FreshOnDisk(c.disks, allocs)
    requires WillStore(c.ns, path, overwrite, first)
    ensures PlacedAt(WriteFrom(c, path, data, blockSize, overwrite, first, allocs), allocs[k],
                     Pieces(data, blockSize)[k])
    decreases |data|
  {
    hide NsInv, LegalAlloc, WriteFrom, WriteChunk, Blocks, Chunks, PlacedAt, SameBlock, Allocate, OnDisk, Writable,
         IsFile, Fields;
    if data == [] {
      WriteFromEnd(c, path, data, blockSize, overwrite, first, allocs);
    } else {
      WriteFromUnfold(c, path, data, blockSize, overwrite, first, allocs);
      var n := ChunkSize(blockSize, |data|);
      var c1 := WriteChunk(c, path, data[..n], overwrite, first, allocs[0]);
      var c' := WriteFrom(c, path, data, blockSize, overwrite, first, allocs);
      FirstLegal(c.ns, allocs);
      StoringChunk(c, path, data[..n], overwrite, first, allocs[0]);
      ChunkEffect(c, path, data[..n], overwrite, first, allocs[0], []);
      LegalRest(c.ns, c1.ns, allocs);
      if k == 0 {
        ChunkPlaced(c, path, data[..n], overwrite, first, allocs[0]);
        RestSameBlock(c1, path, data[n..], blockSize, overwrite, false, allocs[1..], allocs[0].id);
        PlacedStays(c1, c', allocs[0], data[..n]);
      } else {
        forall l | 0 <= l < |allocs[1..]| ensures !OnDisk(c1.disks, allocs[1..][l].id) {
          assert !OnDisk(c.disks, allocs[l + 1].id);
          ChunkSameBlock(c, path, data[..n], overwrite, first, allocs[0], allocs[l + 1].id);
          StillOffDisk(c, c1, allocs[l + 1].id);
        }
        AllPlaced(c1, path, data[n..], blockSize, overwrite, false, allocs[1..], k - 1);
        assert Pieces(data, blockSize)[k] == Pieces(data[n..], blockSize)[k - 1];
      }
    }
  }

  // ---- Reading with nodes lost ----------------------------------------------------------------------------

  lemma CopyPlaced(c: Cluster, alloc: Alloc, chunk: Bytes, lost: set<Addr>, i: int)
    requires PlacedAt(c, alloc, chunk)
    ensures FirstCopy(c.disks - lost, alloc.id, LocationsOf(c.ns, alloc.id), AllDelivered, i, 0)
         == if Accepts(c.disks - lost, alloc) then Some(chunk) else None
  {
    FirstCopySome(c.disks - lost, alloc.id, alloc.targets, AllDelivered, i, 0);
  }

  lemma {:induction false} ReadPlaced(c: Cluster, allocs: seq<Alloc>, pieces: seq<Bytes>, lost: set<Addr>, i: nat)
    requires |allocs| == |pieces| && i <= |allocs|
    requires forall k :: 0 <= k < |allocs| ==> PlacedAt(c, allocs[k], pieces[k])
    ensures ReadFrom(Losing(c, lost), Ids(allocs), AllDelivered, i).0 <==>
              forall k :: i <= k < |allocs| ==> Accepts(c.disks - lost, allocs[k])
    ensures ReadFrom(Losing(c, lost), Ids(allocs), AllDelivered, i).0 ==>
              ReadFrom(Losing(c, lost), Ids(allocs), AllDelivered, i).1 == Flatten(pieces[i..])
    decreases |allocs| - i
  {
    hide FirstCopy, PlacedAt, Accepts;
    if i < |allocs| {
      assert PlacedAt(c, allocs[i], pieces[i]);
      CopyPlaced(c, allocs[i], pieces[i], lost, i);
      ReadPlaced(c, allocs, pieces, lost, i + 1);
      assert pieces[i..][1..] == pieces[i + 1..];
    }
  }

  /** The path's blocks are the new ones, and reading them gives the data. */
  ghost predicate Stored(c: Cluster, path: string, data: Bytes, allocs: seq<Alloc>) {
    BlocksAt(c.ns.tree, PathOf(path)) == Ids(allocs) && Read(c, PathOf(path)) == (true, data)
  }

  /** WriteFile has stored its data, and it can still be read with the nodes in `lost` gone, exactly when the write
      took effect and the first target of every block could be reached and is not lost. */
  lemma StoredIff(c: Cluster, path: string, data: Bytes, blockSize: int, overwrite: bool, allocs: seq<Alloc>,
                  lost: set<Addr>)
    requires blockSize >= 1 && |allocs| == Chunks(|data|, blockSize)
    requires NsInv(c.ns) && LegalAllocs(c.ns, allocs) && FreshOnDisk(c.disks, allocs)
    ensures var c' := WriteFrom(c, path, data, blockSize, overwrite, true, allocs);
            Stored(Losing(c', lost), path, data, allocs) <==>
              TakesEffect(c.ns, path, data, overwrite) &&
              forall k :: 0 <= k < |allocs| ==> Accepts(c.disks - lost, allocs[k])
  {
    hide Fields, NsInv, LegalAllocs, WriteFrom, Chunks, Ids, Writable, BlocksAt, Accepts, FreshOnDisk, ReadFrom;
    var c' := WriteFrom(c, path, data, blockSize, overwrite, true, allocs);
    WriteOutcome(c, path, data, blockSize, overwrite, allocs);
    if data == [] {
      NoIds();
      NoBlocksRead(Losing(c', lost));
    } else if Writable(c.ns, path, overwrite) {
      NewFileReads(c, path, data, blockSize, overwrite, allocs, lost);
    }
  }

  /** The blocks of a write that takes effect can be read exactly when all their first targets are there. */
  lemma NewFileReads(c: Cluster, path: string, data: Bytes, blockSize: int, overwrite: bool, allocs: seq<Alloc>,
                     lost: set<Addr>)
    requires blockSize >= 1 && |allocs| == Chunks(|data|, blockSize)
    requires NsInv(c.ns) && LegalAllocs(c.ns, allocs) && FreshOnDisk(c.disks, allocs)
    requires Writable(c.ns, path, overwrite)
    ensures var c' := Losing(WriteFrom(c, path, data, blockSize, overwrite, true, allocs), lost);
            var r := ReadFrom(c', Ids(allocs), AllDelivered, 0);
            (r.0 <==> forall k :: 0 <= k < |allocs| ==> Accepts(c.disks - lost, allocs[k])) && (r.0 ==> r.1 == data)
  {
    hide Fields, NsInv, LegalAllocs, WriteFrom, Chunks, Ids, Writable, PlacedAt, ReadFrom, Accepts, FreshOnDisk;
    var c' := WriteFrom(c, path, data, blockSize, overwrite, true, allocs);
    var pieces := Pieces(data, blockSize);
    forall k | 0 <= k < |allocs| ensures PlacedAt(c', allocs[k], pieces[k]) {
      AllPlaced(c, path, data, blockSize, overwrite, true, allocs, k);
    }
    WriteIsolated(c, path, data, blockSize, overwrite, true, allocs, []);
    KeysAccept(c, c', allocs, lost);
    ReadPlaced(c', allocs, pieces, lost, 0);
    PiecesFlatten(data, blockSize);
    assert pieces[0..] == pieces;
  }

  lemma KeysAccept(c: Cluster, c': Cluster, allocs: seq<Alloc>, lost: set<Addr>)
    requires c'.disks.Keys == c.disks.Keys
    ensures forall k :: 0 <= k < |allocs| ==>
      (Accepts(c'.disks - lost, allocs[k]) <==> Accepts(c.disks - lost, allocs[k]))
  {
    hide Accepts;
    assert (c'.disks - lost).Keys == (c.disks - lost).Keys;
    forall k | 0 <= k < |allocs| ensures Accepts(c'.disks - lost, allocs[k]) <==> Accepts(c.disks - lost, allocs[k]) {
      SameKeysAccept(c.disks - lost, c'.disks - lost, allocs[k]);
    }
  }

  /** The case of no lost node. Writing nothing leaves everything as it is: no file appears, none is emptied. */
  lemma WriteStoresIff(c: Cluster, path: string, data: Bytes, blockSize: int, overwrite: bool, allocs: seq<Alloc>)
    requires blockSize >= 1 && |allocs| == Chunks(|data|, blockSize)
    requires NsInv(c.ns) && LegalAllocs(c.ns, allocs) && FreshOnDisk(c.disks, allocs)
    ensures Stored(WriteFrom(c, path, data, blockSize, overwrite, true, allocs), path, data, allocs) <==>
              TakesEffect(c.ns, path, data, overwrite) && forall k :: 0 <= k < |allocs| ==> Accepts(c.disks, allocs[k])
    ensures data == [] ==> WriteFrom(c, path, data, blockSize, overwrite, true, allocs) == c
  {
    hide Stored, WriteFrom, TakesEffect, Accepts, NsInv, LegalAllocs, FreshOnDisk, Chunks;
    StoredIff(c, path, data, blockSize, overwrite, allocs, {});
    var c' := WriteFrom(c, path, data, blockSize, overwrite, true, allocs);
    assert Losing(c', {}) == c' by { assert c'.disks - {} == c'.disks; }
    assert c.disks - {} == c.disks;
    if data == [] { WriteFromEnd(c, path, data, blockSize, overwrite, true, allocs); }
  }

  // ---- What the path reads as after any write -------------------------------------------------------------

  /** Later chunks of a file that is there: its old blocks are as they were, and each new one is placed. */
  lemma AppendedPlaced(c: Cluster, path: string, data: Bytes, blockSize: int, overwrite: bool, allocs: seq<Alloc>,
                       lost: set<Addr>)
    requires blockSize >= 1 && |allocs| == Chunks(|data|, blockSize) && IsFile(c.ns.tree, PathOf(path))
    requires NsInv(c.ns) && LegalAllocs(c.ns, allocs) && FreshOnDisk(c.disks, allocs)
    ensures var c' := WriteFrom(c, path, data, blockSize, overwrite, false, allocs);
            var blocks := BlocksAt(c.ns.tree, PathOf(path));
            BlocksAt(c'.ns.tree, PathOf(path)) == blocks + Ids(allocs) &&
            ReadFrom(Losing(c', lost), blocks, AllDelivered, 0) == ReadFrom(Losing(c, lost), blocks, AllDelivered, 0)
    ensures var c' := WriteFrom(c, path, data, blockSize, overwrite, false, allocs);
            var tail := ReadFrom(Losing(c', lost), Ids(allocs), AllDelivered, 0);
            (tail.0 <==> forall k :: 0 <= k < |allocs| ==> Accepts(c.disks - lost, allocs[k])) &&
            (tail.0 ==> tail.1 == data)
  {
    hide Fields, NsInv, LegalAlloc, WriteFrom, Chunks, Ids, PlacedAt, ReadFrom, Accepts, FreshOnDisk, SameBlock, Blocks,
         IsFile, BlocksAt, Losing;
    var c' := WriteFrom(c, path, data, blockSize, overwrite, false, allocs);
    var blocks := BlocksAt(c.ns.tree, PathOf(path));
    BlocksAppended(c, path, data, blockSize, overwrite, allocs);
    forall id | id in blocks ensures SameBlock(Losing(c, lost), Losing(c', lost), id) {
      forall k | 0 <= k < |allocs| ensures allocs[k].id != id { NewToFile(c.ns, allocs[k], PathOf(path), id); }
      RestSameBlock(c, path, data, blockSize, overwrite, false, allocs, id);
      LosingSame(c, c', id, lost);
    }
    SameRead(Losing(c, lost), Losing(c', lost), blocks, AllDelivered, 0);
    var pieces := Pieces(data, blockSize);
    forall k | 0 <= k < |allocs| ensures PlacedAt(c', allocs[k], pieces[k]) {
      AllPlaced(c, path, data, blockSize, overwrite, false, allocs, k);
    }
    WriteIsolated(c, path, data, blockSize, overwrite, false, allocs, []);
    KeysAccept(c, c', allocs, lost);
    ReadPlaced(c', allocs, pieces, lost, 0);
    PiecesFlatten(data, blockSize);
    assert pieces[0..] == pieces;
  }

  lemma NewToFile(ns: Ns, alloc: Alloc, p: Path, id: int)
    requires LegalAlloc(ns, alloc) && id in BlocksAt(ns.tree, p)
    ensures alloc.id != id
  {
    hide Blocks, BlocksAt, ValidTargets;
    NotInFile(ns.tree, p, alloc.id);
  }

  lemma LosingSame(c: Cluster, c': Cluster, id: int, lost: set<Addr>)
    requires SameBlock(c, c', id)
    ensures SameBlock(Losing(c, lost), Losing(c', lost), id)
  {
    assert forall a :: a in c.disks <==> a in c.disks.Keys;
    assert forall a :: a in c'.disks <==> a in c'.disks.Keys;
    assert (c'.disks - lost).Keys == (c.disks - lost).Keys;
  }

  /** Reading one block list after another, each block where it can be found. */
  lemma {:induction false} ReadConcat(c: Cluster, first: seq<int>, second: seq<int>, i: nat)
    requires i <= |first|
    ensures var a, b := ReadFrom(c, first, AllDelivered, i), ReadFrom(c, second, AllDelivered, 0);
            var r := ReadFrom(c, first + second, AllDelivered, i);
            (r.0 <==> a.0 && b.0) && (r.0 ==> r.1 == a.1 + b.1)
    decreases |first| - i
  {
    hide FirstCopy;
    if i < |first| {
      assert (first + second)[i] == first[i];
      SameFates(c, first[i], i, i);
      ReadConcat(c, first, second, i + 1);
    } else {
      ReadShifted(c, first, second, 0);
      assert [] + ReadFrom(c, second, AllDelivered, 0).1 == ReadFrom(c, second, AllDelivered, 0).1;
    }
  }

  lemma {:induction false} ReadShifted(c: Cluster, first: seq<int>, second: seq<int>, i: nat)
    requires i <= |second|
    ensures ReadFrom(c, first + second, AllDelivered, |first| + i) == ReadFrom(c, second, AllDelivered, i)
    decreases |second| - i
  {
    hide FirstCopy;
    if i < |second| {
      assert (first + second)[|first| + i] == second[i];
      SameFates(c, second[i], |first| + i, i);
      ReadShifted(c, first, second, i + 1);
    }
  }

  /** When every connection works it does not matter at which place of the file a block stands. */
  lemma SameFates(c: Cluster, id: int, i: int, j: int)
    ensures FirstCopy(c.disks, id, LocationsOf(c.ns, id), AllDelivered, i, 0)
         == FirstCopy(c.disks, id, LocationsOf(c.ns, id), AllDelivered, j, 0)
  {
    CopyAnywhere(c.disks, id, LocationsOf(c.ns, id), i, j, 0);
  }

  lemma {:induction false} CopyAnywhere(disks: map<Addr, Disk>, id: int, dns: seq<DataNodeInfo>, i: int, j: int, k: nat)
    ensures FirstCopy(disks, id, dns, AllDelivered, i, k) == FirstCopy(disks, id, dns, AllDelivered, j, k)
    decreases |dns| - k
  {
    if k < |dns| { CopyAnywhere(disks, id, dns, i, j, k + 1); }
  }

  /** What the path reads as with the nodes in `lost` gone, after any write: nothing new if the data is empty; the
      data, if the path is writable and every first target is there; the old bytes with all but the first chunk, if
      the file was there and the write refused; and nothing otherwise. */
  lemma ReadAfterWrite(c: Cluster, path: string, data: Bytes, blockSize: int, overwrite: bool, allocs: seq<Alloc>,
                       lost: set<Addr>)
    requires blockSize >= 1 && |allocs| == Chunks(|data|, blockSize)
    requires NsInv(c.ns) && LegalAllocs(c.ns, allocs) && FreshOnDisk(c.disks, allocs)
    ensures var r := Read(Losing(WriteFrom(c, path, data, blockSize, overwrite, true, allocs), lost), PathOf(path));
            var was := Read(Losing(c, lost), PathOf(path));
            if data == [] then r == was
            else if Writable(c.ns, path, overwrite) then
              (r.0 <==> forall k :: 0 <= k < |allocs| ==> Accepts(c.disks - lost, allocs[k])) && (r.0 ==> r.1 == data)
            else if Appends(c.ns, path, overwrite) then
              (r.0 <==> was.0 && forall k :: 1 <= k < |allocs| ==> Accepts(c.disks - lost, allocs[k])) &&
              (r.0 ==> r.1 == was.1 + data[ChunkSize(blockSize, |data|)..])
            else r == (true, [])
  {
    hide Fields, NsInv, LegalAllocs, WriteFrom, WriteChunk, Chunks, Ids, Writable, ReadFrom, Accepts, FreshOnDisk,
         BlocksAt, NodeAt;
    var c' := WriteFrom(c, path, data, blockSize, overwrite, true, allocs);
    WriteOutcome(c, path, data, blockSize, overwrite, allocs);
    if data == [] {
      WriteFromEnd(c, path, data, blockSize, overwrite, true, allocs);
    } else if Writable(c.ns, path, overwrite) {
      NewFileReads(c, path, data, blockSize, overwrite, allocs, lost);
    } else if Appends(c.ns, path, overwrite) {
      WriteFromUnfold(c, path, data, blockSize, overwrite, true, allocs);
      var n := ChunkSize(blockSize, |data|);
      RefusedStart(c, path, data[..n], overwrite, allocs[0]);
      RestUsable(c, allocs);
      AppendedPlaced(c, path, data[n..], blockSize, overwrite, allocs[1..], lost);
      ReadConcat(Losing(c', lost), BlocksAt(c.ns.tree, PathOf(path)), Ids(allocs[1..]), 0);
      assert forall k :: 1 <= k < |allocs| ==> allocs[k] == allocs[1..][k - 1];
    } else {
      NoBlocksRead(Losing(c', lost));
    }
  }

  lemma RestUsable(c: Cluster, allocs: seq<Alloc>)
    requires LegalAllocs(c.ns, allocs) && FreshOnDisk(c.disks, allocs) && allocs != []
    ensures LegalAllocs(c.ns, allocs[1..]) && FreshOnDisk(c.disks, allocs[1..])
  {
    hide LegalAlloc, OnDisk;
  }

  lemma SameKeysAccept(disks: map<Addr, Disk>, disks': map<Addr, Disk>, alloc: Alloc)
    requires disks.Keys == disks'.Keys
    ensures Accepts(disks, alloc) <==> Accepts(disks', alloc)
  {
    assert forall a :: a in disks <==> a in disks.Keys;
    assert forall a :: a in disks' <==> a in disks'.Keys;
  }

  /** Although every target of a block is listed, only nodes at the first target's address hold it. */
  lemma OnlyFirstTargetHolds(c: Cluster, path: string, data: Bytes, blockSize: int, overwrite: bool,
                             allocs: seq<Alloc>, k: nat, j: nat)
    requires blockSize >= 1 && |allocs| == Chunks(|data|, blockSize) && k < |allocs| && j < |allocs[k].targets|
    requires NsInv(c.ns) && LegalAllocs(c.ns, allocs) && FreshOnDisk(c.disks, allocs)
    requires Writable(c.ns, path, overwrite)
    ensures var c' := WriteFrom(c, path, data, blockSize, overwrite, true, allocs);
            LocationsOf(c'.ns, allocs[k].id) == allocs[k].targets &&
            (Holds(c'.disks, allocs[k].targets[j], allocs[k].id) <==>
             Accepts(c.disks, allocs[k]) && AddrOf(allocs[k].targets[j]) == AddrOf(allocs[k].targets[0]))
  {
    hide Fields, NsInv, LegalAllocs, WriteFrom, Chunks, Writable, FreshOnDisk, Read, SameFile;
    AllPlaced(c, path, data, blockSize, overwrite, true, allocs, k);
    WriteIsolated(c, path, data, blockSize, overwrite, true, allocs, []);
    SameKeysAccept(c.disks, WriteFrom(c, path, data, blockSize, overwrite, true, allocs).disks, allocs[k]);
  }

  /** A file just written survives losing a node exactly when that node is no block's first target, whatever other
      nodes are listed. */
  lemma SurvivesLosingIff(c: Cluster, path: string, data: Bytes, blockSize: int, overwrite: bool, allocs: seq<Alloc>,
                          a: Addr)
    requires blockSize >= 1 && |allocs| == Chunks(|data|, blockSize) && TakesEffect(c.ns, path, data, overwrite)
    requires NsInv(c.ns) && GoodAllocs(c, allocs) && FreshOnDisk(c.disks, allocs)
    ensures var c' := WriteFrom(c, path, data, blockSize, overwrite, true, allocs);
            Read(Losing(c', {a}), PathOf(path)) == (true, data) <==>
              forall k :: 0 <= k < |allocs| ==> AddrOf(allocs[k].targets[0]) != a
  {
    hide Fields, NsInv, WriteFrom, Chunks, Ids, Writable, BlocksAt, ReadFrom, FreshOnDisk, LegalAlloc;
    GoodIsLegal(c, allocs);
    StoredIff(c, path, data, blockSize, overwrite, allocs, {a});
    WriteOutcome(c, path, data, blockSize, overwrite, allocs);
    forall k | 0 <= k < |allocs| ensures Accepts(c.disks - {a}, allocs[k]) <==> AddrOf(allocs[k].targets[0]) != a {
      assert GoodAlloc(c, allocs[k]);
    }
  }

  // ---- A write that is cut short --------------------------------------------------------------------------

  /** The call for the next block fails after the chunks of `data`. If the request was not sent, the path holds these
      chunks and reads as if they were the whole file; if the answer was lost, the file has one more block, which is
      nowhere, and cannot be read. */
  lemma CutWriteReads(c: Cluster, path: string, data: Bytes, blockSize: int, overwrite: bool, allocs: seq<Alloc>,
                      call: Call)
    requires blockSize >= 1 && !call.Served?
    requires |allocs| == Chunks(|data|, blockSize) + if call.Unanswered? then 1 else 0
    requires NsInv(c.ns) && LegalAllocs(c.ns, allocs) && FreshOnDisk(c.disks, allocs)
    requires Writable(c.ns, path, overwrite)
    ensures var c' := CutWrite(c, path, data, blockSize, overwrite, allocs, call);
            var p := PathOf(path);
            if call.Unanswered? then BlocksAt(c'.ns.tree, p) == Ids(allocs) && !Read(c', p).0
            else if data == [] then c' == c
            else BlocksAt(c'.ns.tree, p) == Ids(allocs) &&
                 (Read(c', p).0 <==> forall k :: 0 <= k < |allocs| ==> Accepts(c.disks, allocs[k])) &&
                 (Read(c', p).0 ==> Read(c', p).1 == data)
  {
    hide Fields, NsInv, LegalAllocs, WriteFrom, Chunks, Ids, Writable, ReadFrom, Accepts, FreshOnDisk, BlocksAt,
         Allocate, OnDisk;
    var n := Chunks(|data|, blockSize);
    var given := allocs[..n];
    FirstPart(c, allocs, n);
    var w := WriteFrom(c, path, data, blockSize, overwrite, true, given);
    WriteOutcome(c, path, data, blockSize, overwrite, given);
    if data == [] { WriteFromEnd(c, path, data, blockSize, overwrite, true, given); }
    if call.Unanswered? {
      LastIsFresh(c, path, data, blockSize, overwrite, allocs);
      if data != [] {
        IdsNotEmpty(given);
        FilledFile(w.ns.tree, PathOf(path), Ids(given));
      }
      assert WillStore(w.ns, path, overwrite, data == []);
      LostAnswer(w, path, overwrite, data == [], allocs[n]);
      assert allocs == given + [allocs[n]];
      IdsSnoc(given, allocs[n]);
      if data == [] { NoIds(); }
    } else if data != [] {
      assert given == allocs;
      assert Losing(w, {}) == w by { assert w.disks - {} == w.disks; }
      assert c.disks - {} == c.disks;
      NewFileReads(c, path, data, blockSize, overwrite, allocs, {});
    }
  }

  lemma FirstPart(c: Cluster, allocs: seq<Alloc>, n: nat)
    requires LegalAllocs(c.ns, allocs) && FreshOnDisk(c.disks, allocs) && n <= |allocs|
    ensures LegalAllocs(c.ns, allocs[..n]) && FreshOnDisk(c.disks, allocs[..n])
  {
    hide LegalAlloc, OnDisk;
  }

  lemma IdsNotEmpty(allocs: seq<Alloc>)
    requires allocs != []
    ensures Ids(allocs) != []
  {
  }

  lemma IdsSnoc(allocs: seq<Alloc>, alloc: Alloc)
    ensures Ids(allocs + [alloc]) == Ids(allocs) + [alloc.id]
  {
  }

  lemma LastIsFresh(c: Cluster, path: string, data: Bytes, blockSize: int, overwrite: bool, allocs: seq<Alloc>)
    requires blockSize >= 1 && |allocs| == Chunks(|data|, blockSize) + 1
    requires NsInv(c.ns) && LegalAllocs(c.ns, allocs) && FreshOnDisk(c.disks, allocs)
    ensures var n := Chunks(|data|, blockSize);
            var w := WriteFrom(c, path, data, blockSize, overwrite, true, allocs[..n]);
            NsInv(w.ns) && !OnDisk(w.disks, allocs[n].id)
  {
    hide Fields, NsInv, LegalAlloc, WriteFrom, Chunks, OnDisk, SameBlock;
    var n := Chunks(|data|, blockSize);
    FirstPart(c, allocs, n);
    var w := WriteFrom(c, path, data, blockSize, overwrite, true, allocs[..n]);
    WriteIsolated(c, path, data, blockSize, overwrite, true, allocs[..n], []);
    forall k | 0 <= k < |allocs[..n]| ensures allocs[..n][k].id != allocs[n].id {
      assert allocs[k].id != allocs[n].id;
    }
    RestSameBlock(c, path, data, blockSize, overwrite, true, allocs[..n], allocs[n].id);
    StillOffDisk(c, w, allocs[n].id);
  }

  /** The block is allocated, and nobody ever sends its bytes. */
  lemma LostAnswer(c: Cluster, path: string, overwrite: bool, first: bool, alloc: Alloc)
    requires NsInv(c.ns) && WillStore(c.ns, path, overwrite, first) && !OnDisk(c.disks, alloc.id)
    ensures var c' := Cluster(Allocate(c.ns, path, overwrite, first, alloc).0, c.disks);
            BlocksAt(c'.ns.tree, PathOf(path))
            == (if first then [] else BlocksAt(c.ns.tree, PathOf(path))) + [alloc.id] &&
            !Read(c', PathOf(path)).0
  {
    hide Fields, NodeAt, StartFile, NsInv, Writable, WithBlock;
    var c' := Cluster(Allocate(c.ns, path, overwrite, first, alloc).0, c.disks);
    var p := PathOf(path);
    if first {
      WritableStarts(c.ns, path, overwrite, alloc.id, alloc.targets);
      assert [] + [alloc.id] == [alloc.id];
    } else {
      AppendBlockEntries(c.ns.tree, p, alloc.id, p);
    }
    var before := if first then [] else BlocksAt(c.ns.tree, p);
    ReadConcat(c', before, [alloc.id], 0);
    NowhereFails(c', alloc.id);
  }

  lemma NowhereFails(c: Cluster, id: int)
    requires !OnDisk(c.disks, id)
    ensures !ReadFrom(c, [id], AllDelivered, 0).0
  {
    var dns := LocationsOf(c.ns, id);
    FirstCopySome(c.disks, id, dns, AllDelivered, 0, 0);
    forall k | 0 <= k < |dns| ensures !Sends(c.disks, dns[k], id, AllDelivered(0, k)) {}
  }

  // ---- Witnesses ------------------------------------------------------------------------------------------

  /** A name system that knows one data node, and what it allocates. */
  function OneNode(dn: DataNodeInfo): Ns {
    Register(EMPTY, dn, 0)
  }

  function AllocOn(dn: DataNodeInfo, id: int): Alloc {
    Alloc(id, [dn.(lastUpdate := 0)])
  }

  lemma OneNodeReady(dn: DataNodeInfo, allocs: seq<Alloc>, overwrite: bool)
    requires forall k :: 0 <= k < |allocs| ==> allocs[k] == AllocOn(dn, allocs[k].id)
    requires forall j, k :: 0 <= j < k < |allocs| ==> allocs[j].id != allocs[k].id
    ensures NsInv(OneNode(dn)) && LegalAllocs(OneNode(dn), allocs) && Writable(OneNode(dn), "/f", overwrite)
    ensures NodeAt(ROOT, PathOf("/f")).None?
  {
    SlashF();
    NoFileInRoot([]);
    NoKidsBelow(ROOT, ["f"]);
    assert Blocks(ROOT) == multiset{};
    assert ["f"][..0] == [];
  }

  /** With one registered node, writing one byte to "/f/" reports success and stores nothing. */
  lemma TrailingSlashLoses(dn: DataNodeInfo, id: int)
    ensures var c := Cluster(OneNode(dn), map[AddrOf(dn) := map[]]);
            Read(WriteFrom(c, "/f/", [7], 1, true, true, [AllocOn(dn, id)]), PathOf("/f/")) == (true, [])
  {
    hide OneNode, NsInv, LegalAllocs, Fields, WriteFrom, Read, NodeAt;
    var c := Cluster(OneNode(dn), map[AddrOf(dn) := map[]]);
    assert Chunks(1, 1) == 1;
    OneNodeReady(dn, [AllocOn(dn, id)], true);
    GoodOf(c, [AllocOn(dn, id)]);
    assert !Writable(c.ns, "/f/", true) by { assert EndsWithSlash("/f/"); }
    OneNodeTree(dn);
    NoFileInRoot(PathOf("/f/"));
    ReadOutcome(c, "/f/", [7], 1, true, [AllocOn(dn, id)]);
  }

  /** Writing nothing to "/f" with overwrite reports success and leaves the byte that was there; to a path where
      nothing is, it creates no file. */
  lemma EmptyWriteKeeps(dn: DataNodeInfo, id: int)
    ensures var c := Cluster(OneNode(dn), map[AddrOf(dn) := map[]]);
            var c1 := WriteFrom(c, "/f", [7], 1, true, true, [AllocOn(dn, id)]);
            Writable(c1.ns, "/f", true) && Read(WriteFrom(c1, "/f", [], 1, true, true, []), PathOf("/f")) == (true, [7])
    ensures var c := Cluster(OneNode(dn), map[AddrOf(dn) := map[]]);
            NodeAt(WriteFrom(c, "/f", [], 1, true, true, []).ns.tree, PathOf("/f")).None?
  {
    hide OneNode, NsInv, LegalAllocs, Writable, Fields, WriteFrom, Read, BlocksAt, NodeAt, Blocks, ValidTargets;
    var c := Cluster(OneNode(dn), map[AddrOf(dn) := map[]]);
    var allocs := [AllocOn(dn, id)];
    assert Chunks(0, 1) == 0 && Chunks(1, 1) == 1;
    OneNodeReady(dn, allocs, true);
    OneNodeTree(dn);
    GoodOf(c, allocs);
    WriteThenRead(c, "/f", [7], 1, true, allocs);
    var c1 := WriteFrom(c, "/f", [7], 1, true, true, allocs);
    WriteIsolated(c, "/f", [7], 1, true, true, allocs, []);
    WriteFromEnd(c, "/f", [], 1, true, true, []);
    WriteFromEnd(c1, "/f", [], 1, true, true, []);
    assert Ids(allocs) == [id];
    FilledFile(c1.ns.tree, PathOf("/f"), [id]);
    RootNoFile(c1.ns);
    SlashF();
    StillWritable(c1.ns, "/f");
    assert c1.ns.datanodes == OneNode(dn).datanodes != map[] by { OneNodeKnown(dn); }
  }

  lemma OneNodeKnown(dn: DataNodeInfo)
    ensures OneNode(dn).datanodes != map[]
  {
    assert dn.name in OneNode(dn).datanodes;
  }

  lemma RootNoFile(ns: Ns)
    requires NsInv(ns)
    ensures !IsFile(ns.tree, [])
  {
    hide Blocks;
  }

  lemma StillWritable(ns: Ns, path: string)
    requires ns.datanodes != map[] && !IsFile(ns.tree, []) && |PathOf(path)| == 1 && !EndsWithSlash(path)
    ensures Writable(ns, path, true)
  {
    hide NodeAt, Fields;
    forall k | 0 <= k < |PathOf(path)| ensures !IsFile(ns.tree, PathOf(path)[..k]) { assert PathOf(path)[..k] == []; }
  }

  lemma OneNodeTree(dn: DataNodeInfo)
    ensures OneNode(dn).tree == ROOT
  {
  }

  /** With one registered node that cannot be reached, writing one byte to "/f" reports success, the name node lists
      the block, and the byte is nowhere. */
  lemma UnreachableLoses(dn: DataNodeInfo, id: int)
    ensures var c := Cluster(OneNode(dn), map[]);
            var c' := WriteFrom(c, "/f", [7], 1, true, true, [AllocOn(dn, id)]);
            Writable(c.ns, "/f", true) && BlocksAt(c'.ns.tree, PathOf("/f")) == [id] && !Read(c', PathOf("/f")).0
  {
    hide OneNode, NsInv, LegalAllocs, Writable, Fields, WriteFrom, PlacedAt, ReadFrom, BlocksAt;
    var c := Cluster(OneNode(dn), map[]);
    var allocs := [AllocOn(dn, id)];
    assert Chunks(1, 1) == 1;
    OneNodeReady(dn, allocs, true);
    AllPlaced(c, "/f", [7], 1, true, true, allocs, 0);
    WriteOutcome(c, "/f", [7], 1, true, allocs);
    WriteIsolated(c, "/f", [7], 1, true, true, allocs, []);
    assert Ids(allocs) == [id];
    var c' := WriteFrom(c, "/f", [7], 1, true, true, allocs);
    assert c'.disks == map[] by { assert c'.disks.Keys == {}; }
    ReadPlaced(c', allocs, Pieces([7], 1), {}, 0);
    assert c'.disks - {} == c'.disks;
    assert !Accepts(c'.disks, allocs[0]);
  }

  /** Writing [1, 2] and then [3, 4] to "/f" in blocks of one byte, without overwriting, reports success twice and
      leaves [1, 2, 4]. */
  lemma SecondWriteAppendsTail(dn: DataNodeInfo)
    ensures var c := Cluster(OneNode(dn), map[AddrOf(dn) := map[]]);
            var c1 := WriteFrom(c, "/f", [1, 2], 1, false, true, [AllocOn(dn, 10), AllocOn(dn, 11)]);
            var c2 := WriteFrom(c1, "/f", [3, 4], 1, false, true, [AllocOn(dn, 12), AllocOn(dn, 13)]);
            Read(c2, PathOf("/f")) == (true, [1, 2, 4])
  {
    hide OneNode, NsInv, LegalAllocs, Writable, Fields, WriteFrom, Read, BlocksAt, NodeAt, Blocks, ValidTargets;
    var c := Cluster(OneNode(dn), map[AddrOf(dn) := map[]]);
    var all := [AllocOn(dn, 10), AllocOn(dn, 11), AllocOn(dn, 12), AllocOn(dn, 13)];
    var a, b := [AllocOn(dn, 10), AllocOn(dn, 11)], [AllocOn(dn, 12), AllocOn(dn, 13)];
    assert Chunks(0, 1) == 0 && Chunks(1, 1) == 1 && Chunks(2, 1) == 2;
    OneNodeReady(dn, all, false);
    OneNodeReady(dn, a, false);
    assert GoodAllocs(c, a) by { GoodOf(c, a); }
    WriteThenRead(c, "/f", [1, 2], 1, false, a);
    var c1 := WriteFrom(c, "/f", [1, 2], 1, false, true, a);
    WriteIsolated(c, "/f", [1, 2], 1, false, true, a, []);
    WriteBlocks(c, "/f", [1, 2], 1, false, true, a);
    assert LegalAllocs(c1.ns, b) by { LegalLater(c.ns, c1.ns, all, a, b); }
    assert GoodAllocs(c1, b) by { GoodOf(c1, b); }
    FilledFile(c1.ns.tree, PathOf("/f"), Ids(a));
    NotWritableTwice(c1.ns, "/f");
    ReadOutcome(c1, "/f", [3, 4], 1, false, b);
    assert [3, 4][ChunkSize(1, 2)..] == [4] && [1, 2] + [4] == [1, 2, 4];
  }

  lemma GoodOf(c: Cluster, allocs: seq<Alloc>)
    requires LegalAllocs(c.ns, allocs) && forall k :: 0 <= k < |allocs| ==> Accepts(c.disks, allocs[k])
    ensures GoodAllocs(c, allocs)
  {
    hide LegalAlloc, Accepts;
  }

  lemma LegalLater(ns: Ns, ns': Ns, all: seq<Alloc>, a: seq<Alloc>, b: seq<Alloc>)
    requires all == a + b && LegalAllocs(ns, all) && ns'.datanodes == ns.datanodes
    requires Blocks(ns'.tree) <= Blocks(ns.tree) + multiset(Ids(a))
    ensures LegalAllocs(ns', b)
  {
    hide Blocks, ValidTargets;
    forall k | 0 <= k < |b| ensures LegalAlloc(ns', b[k]) {
      assert all[|a| + k] == b[k] && LegalAlloc(ns, all[|a| + k]);
      forall i | 0 <= i < |a| ensures Ids(a)[i] != b[k].id { assert all[i] == a[i]; }
    }
    forall j, k | 0 <= j < k < |b| ensures b[j].id != b[k].id { assert all[|a| + j] == b[j] && all[|a| + k] == b[k]; }
  }

  lemma FilledFile(n: Node, p: Path, blocks: seq<int>)
    requires BlocksAt(n, p) == blocks && blocks != []
    ensures IsFile(n, p)
  {
  }

  lemma NotWritableTwice(ns: Ns, path: string)
    requires IsFile(ns.tree, PathOf(path))
    ensures !Writable(ns, path, false) && Appends(ns, path, false)
  {
  }

  lemma SlashF()
    ensures PathOf("/f") == ["f"] && !EndsWithSlash("/f")
  {
    assert "/f"[1..] == "f";
    WholeField("f");
  }
}
