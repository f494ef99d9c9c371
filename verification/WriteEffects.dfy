/** What a write does in every case: the path's own file afterwards, all other files, and the copies on disk. */
module WriteEffects {
  import opened Text
  import opened Inodes
  import opened FsImage
  import opened Namespace
  import opened Bytes
  import opened Cluster
  import opened WriteRead

  // ---- Other files ----------------------------------------------------------------------------------------

  predicate SameFile(n: Node, n': Node, q: Path) {
    (IsFile(n', q) <==> IsFile(n, q)) && BlocksAt(n', q) == BlocksAt(n, q)
  }

  lemma SameEntry(n: Node, n': Node, q: Path)
    requires EntryAt(n', q) == EntryAt(n, q) || (!IsFile(n, q) && !IsFile(n', q))
    ensures SameFile(n, n', q)
  {
    hide NodeAt;
  }

  lemma PreparedElsewhere(n: Node, path: string, q: Path)
    requires n.Dir? && WellFormed(n) && !(PathOf(path) <= q)
    ensures SameFile(n, PreparedTree(n, path), q)
  {
    hide Fields, NodeAt, WellFormed, AfterMkdirs, DeletedIfPresent, GetParentDir;
    var n1 := DeletedIfPresent(n, PathOf(path));
    var parent := PathOf(GetParentDir(path));
    PreparedPrefix(n, path, 0);
    DeletedEntries(n, PathOf(path), q);
    MkdirsSeen(n1, GetParentDir(path), q);
    if q <= parent { assert parent[..|q|] == q; }
    SameEntry(n, PreparedTree(n, path), q);
  }

  lemma StartElsewhere(ns: Ns, path: string, overwrite: bool, id: int, targets: seq<DataNodeInfo>, q: Path)
    requires NsInv(ns) && !(PathOf(path) <= q)
    ensures SameFile(ns.tree, StartFile(ns, path, overwrite, id, targets).0.tree, q)
  {
    hide Fields, NodeAt, WellFormed, WithFile, WithBlock, PreparedTree, LocsOk, NodesOk;
    var p := PathOf(path);
    PreparedElsewhere(ns.tree, path, q);
    var t := PreparedTree(ns.tree, path);
    CreateFileEntries(t, p, q);
    CreateFileEntries(t, p, p);
    if WithFile(t, p).Some? {
      var t' := WithFile(t, p).value;
      AppendBlockEntries(t', p, id, q);
      SameEntry(t, WithBlock(t', p, id), q);
    }
  }

  lemma AddElsewhere(ns: Ns, path: string, id: int, targets: seq<DataNodeInfo>, q: Path)
    requires q != PathOf(path)
    ensures SameFile(ns.tree, AddBlock(ns, path, id, targets).0.tree, q)
  {
    hide Fields, NodeAt, WithBlock;
    if IsFile(ns.tree, PathOf(path)) {
      AppendBlockEntries(ns.tree, PathOf(path), id, q);
      SameEntry(ns.tree, WithBlock(ns.tree, PathOf(path), id), q);
    }
  }

  // ---- One chunk, whatever the outcome --------------------------------------------------------------------

  predicate Refused(started: (Block, seq<DataNodeInfo>)) {
    started == (NO_BLOCK, [])
  }

  predicate Given(ns: Ns, ns': Ns, started: (Block, seq<DataNodeInfo>), alloc: Alloc) {
    started == (Block(alloc.id, 0, 0), alloc.targets) && ns'.locs == ns.locs[alloc.id := alloc.targets]
  }

  lemma AllocatedOrNot(ns: Ns, path: string, overwrite: bool, first: bool, alloc: Alloc)
    requires NsInv(ns) && LegalAlloc(ns, alloc)
    ensures var (ns', started) := Allocate(ns, path, overwrite, first, alloc);
            NsInv(ns') && ns'.datanodes == ns.datanodes && Blocks(ns'.tree) <= Blocks(ns.tree) + multiset{alloc.id} &&
            (Given(ns, ns', started, alloc) || (Refused(started) && ns'.locs == ns.locs))
  {
    hide Fields, NodeAt, NsInv, Blocks, ValidTargets, WithBlock, WithFile, PreparedTree;
    if first {
      StartFileBlocks(ns, path, overwrite, alloc.id, alloc.targets);
      OpInv(ns, OpStartFile(path, overwrite, alloc.id, alloc.targets));
    } else {
      OpInv(ns, OpAddBlock(path, alloc.id, alloc.targets));
      if IsFile(ns.tree, PathOf(path)) { AppendBlockBlocks(ns.tree, PathOf(path), alloc.id); }
    }
  }

  lemma RefusedChunk(c: Cluster, path: string, chunk: Bytes, overwrite: bool, first: bool, alloc: Alloc)
    requires Refused(Allocate(c.ns, path, overwrite, first, alloc).1)
    ensures WriteChunk(c, path, chunk, overwrite, first, alloc)
         == c.(ns := Allocate(c.ns, path, overwrite, first, alloc).0)
  {
    hide Allocate;
  }

  lemma StoredOnly(c: Cluster, ns': Ns, alloc: Alloc, chunk: Bytes, id: int)
    requires ns'.locs == c.ns.locs[alloc.id := alloc.targets] && id != alloc.id
    ensures SameBlock(c, Cluster(ns', StoreChunk(c.disks, alloc.id, alloc.targets, chunk)), id)
  {
  }

  lemma ChunkEffect(c: Cluster, path: string, chunk: Bytes, overwrite: bool, first: bool, alloc: Alloc, q: Path)
    requires NsInv(c.ns) && LegalAlloc(c.ns, alloc)
    ensures var c' := WriteChunk(c, path, chunk, overwrite, first, alloc);
            NsInv(c'.ns) && c'.ns.datanodes == c.ns.datanodes && c'.disks.Keys == c.disks.Keys &&
            Blocks(c'.ns.tree) <= Blocks(c.ns.tree) + multiset{alloc.id} &&
            (!(PathOf(path) <= q) ==> SameFile(c.ns.tree, c'.ns.tree, q) && Read(c', q) == Read(c, q))
  {
    hide Fields, NodeAt, NsInv, Blocks, ValidTargets, Allocate, WriteChunk, StoreChunk, SameBlock, FirstCopy, SameFile;
    AllocatedOrNot(c.ns, path, overwrite, first, alloc);
    var (ns', started) := Allocate(c.ns, path, overwrite, first, alloc);
    var c' := WriteChunk(c, path, chunk, overwrite, first, alloc);
    if Given(c.ns, ns', started, alloc) {
      ChunkWritten(c, ns', alloc, chunk, path, overwrite, first);
      StoreKeys(c.disks, alloc.id, alloc.targets, chunk);
    } else {
      RefusedChunk(c, path, chunk, overwrite, first, alloc);
    }
    if !(PathOf(path) <= q) {
      ElsewhereKept(c.ns, path, overwrite, first, alloc, q);
      var blocks := BlocksAt(c.ns.tree, q);
      NotInFile(c.ns.tree, q, alloc.id);
      forall id | id in blocks ensures SameBlock(c, c', id) {
        if Given(c.ns, ns', started, alloc) {
          StoredOnly(c, ns', alloc, chunk, id);
        } else {
          UntouchedBlock(c, c', id);
        }
      }
      SameRead(c, c', blocks, AllDelivered, 0);
      assert BlocksAt(c'.ns.tree, q) == blocks by { SameBlocks(c.ns.tree, c'.ns.tree, q); }
    }
  }

  lemma SameBlocks(n: Node, n': Node, q: Path)
    requires SameFile(n, n', q)
    ensures BlocksAt(n', q) == BlocksAt(n, q)
  {
  }

  lemma UntouchedBlock(c: Cluster, c': Cluster, id: int)
    requires c'.disks == c.disks && c'.ns.locs == c.ns.locs
    ensures SameBlock(c, c', id)
  {
  }

  lemma ElsewhereKept(ns: Ns, path: string, overwrite: bool, first: bool, alloc: Alloc, q: Path)
    requires NsInv(ns) && !(PathOf(path) <= q)
    ensures SameFile(ns.tree, Allocate(ns, path, overwrite, first, alloc).0.tree, q)
  {
    hide Fields, NodeAt, NsInv, StartFile, AddBlock, SameFile;
    if first { StartElsewhere(ns, path, overwrite, alloc.id, alloc.targets, q); }
    else { AddElsewhere(ns, path, alloc.id, alloc.targets, q); }
  }

  // ---- Every write ----------------------------------------------------------------------------------------

  ghost predicate LegalAllocs(ns: Ns, allocs: seq<Alloc>) {
    (forall k :: 0 <= k < |allocs| ==> LegalAlloc(ns, allocs[k])) &&
    (forall j, k :: 0 <= j < k < |allocs| ==> allocs[j].id != allocs[k].id)
  }

  lemma LegalRest(ns: Ns, ns': Ns, allocs: seq<Alloc>)
    requires LegalAllocs(ns, allocs) && allocs != [] && ns'.datanodes == ns.datanodes
    requires Blocks(ns'.tree) <= Blocks(ns.tree) + multiset{allocs[0].id}
    ensures LegalAlloc(ns, allocs[0]) && LegalAllocs(ns', allocs[1..])
  {
    hide Blocks, ValidTargets;
    forall k | 0 <= k < |allocs[1..]| ensures LegalAlloc(ns', allocs[1..][k]) {
      assert LegalAlloc(ns, allocs[k + 1]);
      assert allocs[0].id != allocs[k + 1].id;
    }
  }

  lemma GoodIsLegal(c: Cluster, allocs: seq<Alloc>)
    requires GoodAllocs(c, allocs)
    ensures LegalAllocs(c.ns, allocs)
    ensures allocs != [] ==> !InSafeMode(c.ns)
  {
    hide ValidTargets, Blocks;
    forall k | 0 <= k < |allocs| ensures LegalAlloc(c.ns, allocs[k]) { assert GoodAlloc(c, allocs[k]); }
    if allocs != [] {
      assert GoodAlloc(c, allocs[0]);
      NoTargets(c.ns.datanodes, allocs[0].targets);
    }
  }

  lemma NoTargets(datanodes: map<string, DataNodeInfo>, targets: seq<DataNodeInfo>)
    requires ValidTargets(datanodes, targets) && targets != []
    ensures datanodes != map[]
  {
    assert targets[0].name in datanodes;
  }

  lemma FirstLegal(ns: Ns, allocs: seq<Alloc>)
    requires LegalAllocs(ns, allocs) && allocs != []
    ensures LegalAlloc(ns, allocs[0])
  {
  }

  /** Whether or not the write takes effect, files that are not at or below the path keep their block lists and
      read as before, and the name space stays sound. */
  lemma {:induction false} WriteIsolated(c: Cluster, path: string, data: Bytes, blockSize: int, overwrite: bool,
                                         first: bool, allocs: seq<Alloc>, q: Path)
    requires blockSize >= 1 && |allocs| == Chunks(|data|, blockSize) && LegalAllocs(c.ns, allocs) && NsInv(c.ns)
    ensures var c' := WriteFrom(c, path, data, blockSize, overwrite, first, allocs);
            NsInv(c'.ns) && c'.ns.datanodes == c.ns.datanodes && c'.disks.Keys == c.disks.Keys &&
            (!(PathOf(path) <= q) ==> SameFile(c.ns.tree, c'.ns.tree, q) && Read(c', q) == Read(c, q))
    decreases |data|
  {
    hide Fields, NsInv, Read, LegalAllocs, WriteFrom, WriteChunk, IsFile, BlocksAt, Blocks, Chunks;
    if data == [] {
      WriteFromEnd(c, path, data, blockSize, overwrite, first, allocs);
    } else {
      WriteFromUnfold(c, path, data, blockSize, overwrite, first, allocs);
      var n := ChunkSize(blockSize, |data|);
      var c1 := WriteChunk(c, path, data[..n], overwrite, first, allocs[0]);
      FirstLegal(c.ns, allocs);
      ChunkEffect(c, path, data[..n], overwrite, first, allocs[0], q);
      LegalRest(c.ns, c1.ns, allocs);
      WriteIsolated(c1, path, data[n..], blockSize, overwrite, false, allocs[1..], q);
    }
  }

  /** Only the allocated ids are added to the tree. */
  lemma {:induction false} WriteBlocks(c: Cluster, path: string, data: Bytes, blockSize: int, overwrite: bool,
                                       first: bool, allocs: seq<Alloc>)
    requires blockSize >= 1 && |allocs| == Chunks(|data|, blockSize) && LegalAllocs(c.ns, allocs) && NsInv(c.ns)
    ensures Blocks(WriteFrom(c, path, data, blockSize, overwrite, first, allocs).ns.tree)
         <= Blocks(c.ns.tree) + multiset(Ids(allocs))
    decreases |data|
  {
    hide Fields, NsInv, LegalAllocs, WriteFrom, WriteChunk, Blocks, Chunks, Ids;
    if data == [] {
      WriteFromEnd(c, path, data, blockSize, overwrite, first, allocs);
    } else {
      WriteFromUnfold(c, path, data, blockSize, overwrite, first, allocs);
      var n := ChunkSize(blockSize, |data|);
      var c1 := WriteChunk(c, path, data[..n], overwrite, first, allocs[0]);
      FirstLegal(c.ns, allocs);
      ChunkEffect(c, path, data[..n], overwrite, first, allocs[0], []);
      LegalRest(c.ns, c1.ns, allocs);
      WriteBlocks(c1, path, data[n..], blockSize, overwrite, false, allocs[1..]);
      IdsUnfold(allocs);
      assert multiset(Ids(allocs)) == multiset{allocs[0].id} + multiset(Ids(allocs[1..]));
    }
  }

  /** Without a file at the path, the further chunks go nowhere. */
  lemma {:induction false} NothingAdded(c: Cluster, path: string, data: Bytes, blockSize: int, overwrite: bool,
                                        allocs: seq<Alloc>)
    requires blockSize >= 1 && |allocs| == Chunks(|data|, blockSize) && !IsFile(c.ns.tree, PathOf(path))
    ensures WriteFrom(c, path, data, blockSize, overwrite, false, allocs) == c
    decreases |data|
  {
    hide Fields, IsFile;
    if data == [] {
      WriteFromEnd(c, path, data, blockSize, overwrite, false, allocs);
    } else {
      WriteFromUnfold(c, path, data, blockSize, overwrite, false, allocs);
      NothingAdded(c, path, data[ChunkSize(blockSize, |data|)..], blockSize, overwrite, allocs[1..]);
    }
  }

  /** With a file at the path, the blocks of the further chunks are appended, wherever their bytes went. */
  lemma {:induction false} BlocksAppended(c: Cluster, path: string, data: Bytes, blockSize: int, overwrite: bool,
                                          allocs: seq<Alloc>)
    requires blockSize >= 1 && |allocs| == Chunks(|data|, blockSize) && IsFile(c.ns.tree, PathOf(path))
    ensures var c' := WriteFrom(c, path, data, blockSize, overwrite, false, allocs);
            var p := PathOf(path);
            IsFile(c'.ns.tree, p) && BlocksAt(c'.ns.tree, p) == BlocksAt(c.ns.tree, p) + Ids(allocs)
    decreases |data|
  {
    hide Fields, IsFile, BlocksAt, WriteFrom, WriteChunk, Chunks, Ids;
    var p := PathOf(path);
    if data == [] {
      WriteFromEnd(c, path, data, blockSize, overwrite, false, allocs);
      NoIds();
      assert BlocksAt(c.ns.tree, p) + [] == BlocksAt(c.ns.tree, p);
    } else {
      WriteFromUnfold(c, path, data, blockSize, overwrite, false, allocs);
      var n := ChunkSize(blockSize, |data|);
      ChunkAppended(c, path, data[..n], overwrite, allocs[0]);
      BlocksAppended(WriteChunk(c, path, data[..n], overwrite, false, allocs[0]), path, data[n..], blockSize, overwrite,
                     allocs[1..]);
      IdsUnfold(allocs);
      assert (BlocksAt(c.ns.tree, p) + [allocs[0].id]) + Ids(allocs[1..])
          == BlocksAt(c.ns.tree, p) + ([allocs[0].id] + Ids(allocs[1..]));
    }
  }

  lemma IdsUnfold(allocs: seq<Alloc>)
    requires allocs != []
    ensures Ids(allocs) == [allocs[0].id] + Ids(allocs[1..])
  {
  }

  lemma ChunkAppended(c: Cluster, path: string, chunk: Bytes, overwrite: bool, alloc: Alloc)
    requires IsFile(c.ns.tree, PathOf(path))
    ensures var c' := WriteChunk(c, path, chunk, overwrite, false, alloc);
            var p := PathOf(path);
            IsFile(c'.ns.tree, p) && BlocksAt(c'.ns.tree, p) == BlocksAt(c.ns.tree, p) + [alloc.id]
  {
    hide Fields, NodeAt, WithBlock, StoreChunk;
    var ns' := AddBlock(c.ns, path, alloc.id, alloc.targets).0;
    ChunkWritten(c, ns', alloc, chunk, path, overwrite, false);
    AppendBlockEntries(c.ns.tree, PathOf(path), alloc.id, PathOf(path));
  }

  predicate Appends(ns: Ns, path: string, overwrite: bool) {
    IsFile(ns.tree, PathOf(path)) && (InSafeMode(ns) || !overwrite)
  }

  lemma RefusedStart(c: Cluster, path: string, chunk: Bytes, overwrite: bool, alloc: Alloc)
    requires NsInv(c.ns) && !Writable(c.ns, path, overwrite)
    ensures var c' := WriteChunk(c, path, chunk, overwrite, true, alloc);
            if Appends(c.ns, path, overwrite) then c' == c else !IsFile(c'.ns.tree, PathOf(path))
  {
    hide Fields, NodeAt, StartFile, NsInv, Writable;
    WritableStarts(c.ns, path, overwrite, alloc.id, alloc.targets);
    assert Refused(Allocate(c.ns, path, overwrite, true, alloc).1);
    RefusedChunk(c, path, chunk, overwrite, true, alloc);
    if !IsFile(c.ns.tree, PathOf(path)) { PresentDir(c.ns.tree, PathOf(path)); }
  }

  lemma PresentDir(n: Node, p: Path)
    requires !IsFile(n, p)
    ensures NodeAt(n, p).Some? ==> NodeAt(n, p).value.Dir?
  {
  }

  /** What a caller can check before the write. Writing nothing does nothing, whatever the path. */
  predicate TakesEffect(ns: Ns, path: string, data: Bytes, overwrite: bool) {
    if data == [] then BlocksAt(ns.tree, PathOf(path)) == [] else Writable(ns, path, overwrite)
  }

  /** WriteFile reports success unless a call to the NameNode fails; the block list it leaves is the new one exactly
      when the write takes effect. Refused at the first chunk, it still appends the other chunks to a file that is
      there. */
  lemma WriteOutcome(c: Cluster, path: string, data: Bytes, blockSize: int, overwrite: bool, allocs: seq<Alloc>)
    requires blockSize >= 1 && |allocs| == Chunks(|data|, blockSize)
    requires NsInv(c.ns) && LegalAllocs(c.ns, allocs)
    ensures var blocks := BlocksAt(WriteFrom(c, path, data, blockSize, overwrite, true, allocs).ns.tree, PathOf(path));
            (blocks == if data == [] then BlocksAt(c.ns.tree, PathOf(path))
                       else if Writable(c.ns, path, overwrite) then Ids(allocs)
                       else if Appends(c.ns, path, overwrite) then BlocksAt(c.ns.tree, PathOf(path)) + Ids(allocs[1..])
                       else []) &&
            (blocks == Ids(allocs) <==> TakesEffect(c.ns, path, data, overwrite))
  {
    hide Fields, NsInv, LegalAllocs, WriteFrom, WriteChunk, Chunks, Ids, Writable, NodeAt;
    var p := PathOf(path);
    if data == [] {
      WriteFromEnd(c, path, data, blockSize, overwrite, true, allocs);
      NoIds();
    } else {
      WriteFromUnfold(c, path, data, blockSize, overwrite, true, allocs);
      IdsUnfold(allocs);
      var n := ChunkSize(blockSize, |data|);
      var c1 := WriteChunk(c, path, data[..n], overwrite, true, allocs[0]);
      if Writable(c.ns, path, overwrite) {
        ChunkStarted(c, path, data[..n], overwrite, allocs[0]);
        BlocksAppended(c1, path, data[n..], blockSize, overwrite, allocs[1..]);
      } else {
        RefusedStart(c, path, data[..n], overwrite, allocs[0]);
        if IsFile(c1.ns.tree, p) {
          BlocksAppended(c1, path, data[n..], blockSize, overwrite, allocs[1..]);
          FirstIdMissing(c.ns, p, allocs);
        } else {
          NothingAdded(c1, path, data[n..], blockSize, overwrite, allocs[1..]);
        }
      }
    }
  }

  lemma ChunkStarted(c: Cluster, path: string, chunk: Bytes, overwrite: bool, alloc: Alloc)
    requires NsInv(c.ns) && Writable(c.ns, path, overwrite)
    ensures var c' := WriteChunk(c, path, chunk, overwrite, true, alloc);
            IsFile(c'.ns.tree, PathOf(path)) && BlocksAt(c'.ns.tree, PathOf(path)) == [alloc.id]
  {
    hide Fields, NodeAt, StartFile, NsInv, Writable, StoreChunk;
    WritableStarts(c.ns, path, overwrite, alloc.id, alloc.targets);
    var (ns', started) := StartFile(c.ns, path, overwrite, alloc.id, alloc.targets);
    assert started == (Block(alloc.id, 0, 0), alloc.targets);
    ChunkWritten(c, ns', alloc, chunk, path, overwrite, true);
  }

  lemma FirstIdMissing(ns: Ns, p: Path, allocs: seq<Alloc>)
    requires LegalAllocs(ns, allocs) && allocs != []
    ensures BlocksAt(ns.tree, p) + Ids(allocs[1..]) != Ids(allocs)
  {
    hide Blocks, ValidTargets, NodeAt;
    FirstLegal(ns, allocs);
    NotInFile(ns.tree, p, allocs[0].id);
    assert Ids(allocs)[0] == allocs[0].id;
    var left := BlocksAt(ns.tree, p) + Ids(allocs[1..]);
    if BlocksAt(ns.tree, p) == [] {
      assert |left| < |Ids(allocs)|;
    } else {
      assert left[0] in BlocksAt(ns.tree, p);
    }
  }

  /** What the path reads as afterwards, when the allocated nodes can be reached. The ids may be those of old blocks
      that are still on some disk. */
  lemma ReadOutcome(c: Cluster, path: string, data: Bytes, blockSize: int, overwrite: bool, allocs: seq<Alloc>)
    requires blockSize >= 1 && |allocs| == Chunks(|data|, blockSize) && GoodAllocs(c, allocs)
    requires NsInv(c.ns) && (IsFile(c.ns.tree, PathOf(path)) ==> Read(c, PathOf(path)).0)
    ensures Read(WriteFrom(c, path, data, blockSize, overwrite, true, allocs), PathOf(path))
         == if data == [] then Read(c, PathOf(path))
            else if Writable(c.ns, path, overwrite) then (true, data)
            else if Appends(c.ns, path, overwrite) then
              (true, Read(c, PathOf(path)).1 + data[ChunkSize(blockSize, |data|)..])
            else (true, [])
  {
    hide Fields, NsInv, GoodAllocs, WriteFrom, WriteChunk, Chunks, Ids, Writable, NodeAt, Read, Blocks;
    if data == [] {
      WriteFromEnd(c, path, data, blockSize, overwrite, true, allocs);
    } else if Writable(c.ns, path, overwrite) {
      WriteThenRead(c, path, data, blockSize, overwrite, allocs);
    } else {
      var p := PathOf(path);
      WriteFromUnfold(c, path, data, blockSize, overwrite, true, allocs);
      var n := ChunkSize(blockSize, |data|);
      var c1 := WriteChunk(c, path, data[..n], overwrite, true, allocs[0]);
      RefusedStart(c, path, data[..n], overwrite, allocs[0]);
      if IsFile(c1.ns.tree, p) {
        RemainingAllocs(c, c, allocs);
        RestWritten(c, path, data[n..], blockSize, overwrite, allocs[1..]);
      } else {
        NothingAdded(c1, path, data[n..], blockSize, overwrite, allocs[1..]);
        NoFileReadsEmpty(c1, p);
      }
    }
  }

  lemma NoFileReadsEmpty(c: Cluster, p: Path)
    requires !IsFile(c.ns.tree, p)
    ensures Read(c, p) == (true, [])
  {
    hide NodeAt;
  }

  lemma NoFileInRoot(p: Path)
    ensures !IsFile(ROOT, p)
  {
    if p != [] { NoKidsBelow(ROOT, p); }
  }

  // ---- Copies stay consistent -----------------------------------------------------------------------------

  /** The contents of the blocks, with those of the chunks added. */
  function NewContent(content: map<int, Bytes>, data: Bytes, blockSize: int, allocs: seq<Alloc>): map<int, Bytes>
    requires blockSize >= 1 && |allocs| == Chunks(|data|, blockSize)
    decreases |data|
  {
    if data == [] then content
    else
      var n := ChunkSize(blockSize, |data|);
      NewContent(content[allocs[0].id := data[..n]], data[n..], blockSize, allocs[1..])
  }

  lemma NewContentUnfold(content: map<int, Bytes>, data: Bytes, blockSize: int, allocs: seq<Alloc>)
    requires blockSize >= 1 && |allocs| == Chunks(|data|, blockSize) && data != []
    ensures var n := ChunkSize(blockSize, |data|);
            |allocs[1..]| == Chunks(|data[n..]|, blockSize) &&
            NewContent(content, data, blockSize, allocs)
            == NewContent(content[allocs[0].id := data[..n]], data[n..], blockSize, allocs[1..])
  {
  }

  lemma ChunkConsistent(c: Cluster, path: string, chunk: Bytes, overwrite: bool, first: bool, alloc: Alloc,
                        content: map<int, Bytes>)
    requires NsInv(c.ns) && LegalAlloc(c.ns, alloc) && Consistent(c.disks, content) && alloc.id !in content
    ensures Consistent(WriteChunk(c, path, chunk, overwrite, first, alloc).disks, content[alloc.id := chunk])
  {
    hide Fields, NodeAt, NsInv, Blocks, ValidTargets, Allocate, WriteChunk;
    AllocatedOrNot(c.ns, path, overwrite, first, alloc);
    var (ns', started) := Allocate(c.ns, path, overwrite, first, alloc);
    if Given(c.ns, ns', started, alloc) {
      ChunkWritten(c, ns', alloc, chunk, path, overwrite, first);
    } else {
      RefusedChunk(c, path, chunk, overwrite, first, alloc);
    }
  }

  /** When the generated ids are on no disk yet, all copies of a block stay equal. */
  lemma {:induction false} WriteConsistent(c: Cluster, path: string, data: Bytes, blockSize: int, overwrite: bool,
                                           first: bool, allocs: seq<Alloc>, content: map<int, Bytes>)
    requires blockSize >= 1 && |allocs| == Chunks(|data|, blockSize) && LegalAllocs(c.ns, allocs) && NsInv(c.ns)
    requires Consistent(c.disks, content) && forall k :: 0 <= k < |allocs| ==> allocs[k].id !in content
    ensures Consistent(WriteFrom(c, path, data, blockSize, overwrite, first, allocs).disks,
                       NewContent(content, data, blockSize, allocs))
    decreases |data|
  {
    hide Fields, NsInv, Consistent, LegalAlloc, WriteFrom, WriteChunk, Blocks, Chunks, NewContent;
    if data == [] {
      WriteFromEnd(c, path, data, blockSize, overwrite, first, allocs);
      NewContentEnd(content, blockSize);
    } else {
      WriteFromUnfold(c, path, data, blockSize, overwrite, first, allocs);
      NewContentUnfold(content, data, blockSize, allocs);
      var n := ChunkSize(blockSize, |data|);
      var c1 := WriteChunk(c, path, data[..n], overwrite, first, allocs[0]);
      ChunkEffect(c, path, data[..n], overwrite, first, allocs[0], []);
      ChunkConsistent(c, path, data[..n], overwrite, first, allocs[0], content);
      LegalRest(c.ns, c1.ns, allocs);
      WriteConsistent(c1, path, data[n..], blockSize, overwrite, false, allocs[1..],
                      content[allocs[0].id := data[..n]]);
    }
  }

  lemma NewContentEnd(content: map<int, Bytes>, blockSize: int)
    requires blockSize >= 1
    ensures Chunks(0, blockSize) == 0 && NewContent(content, [], blockSize, []) == content
  {
  }
}
