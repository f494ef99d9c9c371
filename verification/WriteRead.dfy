/** Writing a file and reading it back: when the write takes effect, what it leaves otherwise, and that other
    files are not disturbed. */
module WriteRead {
  import opened Options
  import opened Text
  import opened Inodes
  import opened FsImage
  import opened Namespace
  import opened Bytes
  import opened Cluster

  // ---- When StartFile creates the file --------------------------------------------------------------------

  predicate EndsWithSlash(path: string) {
    path != "" && path[|path| - 1] == '/'
  }

  /** What a caller can check before writing. */
  predicate Writable(ns: Ns, path: string, overwrite: bool) {
    var p := PathOf(path);
    && ns.datanodes != map[]
    && p != [] && !EndsWithSlash(path)
    && (forall k :: 0 <= k < |p| ==> !IsFile(ns.tree, p[..k]))
    && (overwrite || NodeAt(ns.tree, p).None?)
  }

  lemma {:induction false} LastSlashSplit(s: string)
    ensures var pos := LastSlash(s);
            (pos >= 0 ==> s[pos] == '/') && forall k :: pos < k < |s| ==> s[k] != '/'
  {
    if s != "" && s[|s| - 1] != '/' {
      LastSlashSplit(s[..|s| - 1]);
    }
  }

  /** The parent directory has the components of the path without the last, except after a trailing slash. */
  lemma ParentParts(path: string)
    requires PathOf(path) != []
    ensures var p := PathOf(path);
            PathOf(GetParentDir(path)) == if EndsWithSlash(path) then p else p[..|p| - 1]
  {
    var pos := LastSlash(path);
    LastSlashSplit(path);
    assert PathOf("/") == [] by { assert "/"[1..] == ""; }
    if pos < 0 {
      WholeField(path);
    } else {
      var head, tail := path[..pos], path[pos + 1..];
      assert path == head + path[pos..] && path[pos..][1..] == tail;
      FieldsCut(head, path[pos..], IsSlash);
      assert PathOf(path) == PathOf(head) + PathOf(tail);
      if tail == "" {
        assert PathOf("") == [];
        assert EndsWithSlash(path);
      } else {
        assert !EndsWithSlash(path);
        WholeField(tail);
        if pos == 0 { assert head == "" && PathOf("") == []; }
      }
    }
  }

  lemma WholeField(s: string)
    requires forall k :: 0 <= k < |s| ==> s[k] != '/'
    ensures PathOf(s) == if s == "" then [] else [s]
  {
    if s != "" {
      assert s + "" == s;
      FieldThenSeparator(s, "", IsSlash);
      assert Fields("", IsSlash) == [];
    }
  }

  /** The entries of the tree StartFile creates the file in, as seen at prefixes of the path. */
  lemma PreparedPrefix(n: Node, path: string, k: nat)
    requires n.Dir? && WellFormed(n) && PathOf(path) != [] && k < |PathOf(path)|
    ensures var p := PathOf(path);
            var n1 := DeletedIfPresent(n, p);
            n1.Dir? && WellFormed(n1) && EntryAt(n1, p[..k]) == EntryAt(n, p[..k]) && EntryAt(n1, p).None?
  {
    hide Fields, NodeAt, WellFormed;
    var p := PathOf(path);
    DeletedEntries(n, p, p[..k]);
    DeletedEntries(n, p, p);
  }

  lemma MkdirsSeen(n: Node, path: string, q: Path)
    requires n.Dir?
    ensures var p := PathOf(path);
            var ok := forall k :: 0 <= k <= |p| ==> !IsFile(n, p[..k]);
            if ok then EntryAt(AfterMkdirs(n, path), q) == if q <= p && q != [] then Some(DirEntry) else EntryAt(n, q)
            else AfterMkdirs(n, path) == n
  {
    hide Fields, MkdirsFrom;
    var p := PathOf(path);
    assert p[..0] == [];
    MkdirsEntries(n, p, 0, q);
  }

  /** Below a file there is nothing. */
  lemma NothingUnderFile(n: Node, p: Path, k: nat)
    requires k < |p| && IsFile(n, p[..k])
    ensures NodeAt(n, p).None?
  {
    hide NodeAt;
    NodeAtConcat(n, p[..k], p[k..]);
    assert p == p[..k] + p[k..];
    NoKidsBelow(NodeAt(n, p[..k]).value, p[k..]);
  }

  lemma NoAncestorFile(n: Node, p: Path, k: nat)
    requires k <= |p| && NodeAt(n, p).Some? && k < |p|
    ensures !IsFile(n, p[..k])
  {
    hide NodeAt;
    if IsFile(n, p[..k]) { NothingUnderFile(n, p, k); }
  }

  /** With a proper parent (no trailing slash), the file can be created iff no ancestor is a file. */
  lemma CreateAfterPrepare(n: Node, path: string)
    requires n.Dir? && WellFormed(n) && PathOf(path) != []
    ensures WithFile(PreparedTree(n, path), PathOf(path)).Some? <==>
              !EndsWithSlash(path) && forall k :: 0 <= k < |PathOf(path)| ==> !IsFile(n, PathOf(path)[..k])
  {
    hide Fields, NodeAt, WellFormed, AfterMkdirs, DeletedIfPresent, WithFile, GetParentDir;
    var p := PathOf(path);
    var n1 := DeletedIfPresent(n, p);
    var parent := GetParentDir(path);
    var t := PreparedTree(n, path);
    var dir := p[..|p| - 1];
    ParentParts(path);
    PreparedPrefix(n, path, 0);
    forall k: nat | k < |p| ensures IsFile(n1, p[..k]) <==> IsFile(n, p[..k]) { PreparedPrefix(n, path, k); }
    MkdirsSeen(n1, parent, p);
    MkdirsSeen(n1, parent, dir);
    CreateFileEntries(t, p, p);
    ParentClear(n1, p, PathOf(parent));
    DirClear(n1, p);
    assert p[..|p|] == p;
  }

  /** Prefixes of the parent are prefixes of the path. */
  lemma ParentClear(n: Node, p: Path, parent: Path)
    requires p != [] && (parent == p || parent == p[..|p| - 1]) && EntryAt(n, p).None?
    ensures (forall k :: 0 <= k <= |parent| ==> !IsFile(n, parent[..k])) <==>
            (forall k :: 0 <= k < |p| ==> !IsFile(n, p[..k]))
  {
    assert forall k :: 0 <= k <= |parent| ==> parent[..k] == p[..k];
    assert p[..|p|] == p;
  }

  lemma DirClear(n: Node, p: Path)
    requires p != [] && n.Dir?
    ensures IsDir(n, p[..|p| - 1]) ==> forall k :: 0 <= k < |p| ==> !IsFile(n, p[..k])
    ensures p[..|p| - 1] <= p && p[..|p| - 1] <= p[..|p| - 1] && !(p <= p[..|p| - 1])
    ensures p[..|p| - 1] == [] ==> IsDir(n, p[..|p| - 1])
  {
    hide NodeAt;
    NodeAtRoot(n);
    var dir := p[..|p| - 1];
    if IsDir(n, dir) {
      forall k | 0 <= k < |p| ensures !IsFile(n, p[..k]) {
        assert dir[..k] == p[..k];
        if k < |dir| { NoAncestorFile(n, dir, k); } else { assert p[..k] == dir; }
      }
    }
  }

  // ---- One chunk ------------------------------------------------------------------------------------------

  lemma WritableStarts(ns: Ns, path: string, overwrite: bool, id: int, targets: seq<DataNodeInfo>)
    requires NsInv(ns)
    ensures var (ns', (block, ts)) := StartFile(ns, path, overwrite, id, targets);
            var p := PathOf(path);
            if Writable(ns, path, overwrite) then
              block == Block(id, 0, 0) && ts == targets && ns'.locs == ns.locs[id := targets] &&
              ns'.datanodes == ns.datanodes && IsFile(ns'.tree, p) && BlocksAt(ns'.tree, p) == [id]
            else
              ts == [] && block == NO_BLOCK && ns'.locs == ns.locs && ns'.datanodes == ns.datanodes &&
              (if InSafeMode(ns) || (NodeAt(ns.tree, p).Some? && !overwrite) then ns' == ns
               else !IsFile(ns'.tree, p))
  {
    hide Fields, NodeAt, WellFormed, WithFile, WithBlock, PreparedTree, TreeOk, LocsOk, NodesOk;
    var p := PathOf(path);
    NsTree(ns);
    var t := PreparedTree(ns.tree, path);
    CreateFileEntries(t, p, p);
    if p != [] { CreateAfterPrepare(ns.tree, path); }
    AncestorsOfPresent(ns.tree, p);
    if WithFile(t, p).Some? {
      FileAppended(WithFile(t, p).value, p, id);
    } else if p != [] {
      NoFileLeft(ns.tree, path);
    } else {
      RootDirAfter(ns.tree, path);
    }
  }

  /** A writable path gets a block with as many different targets as there are nodes, up to 3, all of them listed. */
  lemma WritableGetsTargets(ns: Ns, path: string, overwrite: bool, id: int, targets: seq<DataNodeInfo>)
    requires NsInv(ns) && Writable(ns, path, overwrite) && ValidTargets(ns.datanodes, targets)
    ensures var (ns', (block, given)) := StartFile(ns, path, overwrite, id, targets);
            block == Block(id, 0, 0) && LocationsOf(ns', id) == given &&
            |given| == (if |ns.datanodes| < 3 then |ns.datanodes| else 3) &&
            |set i | 0 <= i < |given| :: given[i].name| == |given|
  {
    hide Writable, StartFile, NsInv, DistinctNodes;
    WritableStarts(ns, path, overwrite, id, targets);
    TargetCount(ns.datanodes, targets);
  }

  lemma AncestorsOfPresent(n: Node, p: Path)
    ensures NodeAt(n, p).Some? ==> forall k :: 0 <= k < |p| ==> !IsFile(n, p[..k])
  {
    hide NodeAt;
    if NodeAt(n, p).Some? {
      forall k | 0 <= k < |p| ensures !IsFile(n, p[..k]) { NoAncestorFile(n, p, k); }
    }
  }

  lemma FileAppended(n: Node, p: Path, id: int)
    requires EntryAt(n, p) == Some(FileEntry([]))
    ensures IsFile(n, p) && IsFile(WithBlock(n, p, id), p) && BlocksAt(WithBlock(n, p, id), p) == [id]
  {
    hide NodeAt, WithBlock;
    AppendBlockEntries(n, p, id, p);
    assert [] + [id] == [id];
  }

  /** When the file could not be created, no file is at the path. */
  lemma NoFileLeft(n: Node, path: string)
    requires n.Dir? && WellFormed(n) && PathOf(path) != []
    ensures !IsFile(PreparedTree(n, path), PathOf(path))
  {
    hide Fields, NodeAt, WellFormed, AfterMkdirs, DeletedIfPresent, GetParentDir;
    PreparedPrefix(n, path, 0);
    MkdirsSeen(DeletedIfPresent(n, PathOf(path)), GetParentDir(path), PathOf(path));
  }

  lemma RootDirAfter(n: Node, path: string)
    requires n.Dir? && WellFormed(n) && PathOf(path) == []
    ensures !IsFile(PreparedTree(n, path), [])
  {
    hide Fields, WellFormed, AfterMkdirs, GetParentDir;
    MkdirsSeen(n, GetParentDir(path), []);
  }

  lemma {:induction false} ConfirmNothing(ns: Ns, targets: seq<DataNodeInfo>, k: nat, block: Block)
    requires k <= |targets| && block.id in ns.locs && ns.locs[block.id] == targets
    ensures ConfirmAll(ns, targets[..k], block) == ns
  {
    if k > 0 {
      ConfirmNothing(ns, targets, k - 1, block);
      assert targets[..k][..k - 1] == targets[..k - 1];
      assert targets[..k][k - 1] == targets[k - 1];
      assert HasName(targets, targets[k - 1].name);
      assert ns.locs[block.id := targets] == ns.locs;
    }
  }

  /** The chunk sits on the first listed node, which can be reached. */
  ghost predicate Placed(c: Cluster, id: int, chunk: Bytes) {
    var dns := LocationsOf(c.ns, id);
    dns != [] && Holds(c.disks, dns[0], id) && c.disks[AddrOf(dns[0])][id] == chunk
  }

  /** A write of block `id` leaves every other block's listing and copies as they were. */
  ghost predicate SameBlock(c: Cluster, c': Cluster, id: int) {
    LocationsOf(c'.ns, id) == LocationsOf(c.ns, id) && c'.disks.Keys == c.disks.Keys &&
    forall a :: a in c.disks ==>
      (id in c'.disks[a] <==> id in c.disks[a]) && (id in c.disks[a] ==> c'.disks[a][id] == c.disks[a][id])
  }

  lemma {:induction false} SameCopy(c: Cluster, c': Cluster, id: int, dns: seq<DataNodeInfo>, fates: Fates, i: int,
                                    j: nat)
    requires SameBlock(c, c', id)
    ensures FirstCopy(c'.disks, id, dns, fates, i, j) == FirstCopy(c.disks, id, dns, fates, i, j)
    decreases |dns| - j
  {
    if j < |dns| { SameCopy(c, c', id, dns, fates, i, j + 1); }
  }

  lemma {:induction false} SameRead(c: Cluster, c': Cluster, blocks: seq<int>, fates: Fates, i: nat)
    requires forall id :: id in blocks ==> SameBlock(c, c', id)
    ensures ReadFrom(c', blocks, fates, i) == ReadFrom(c, blocks, fates, i)
    decreases |blocks| - i
  {
    if i < |blocks| {
      hide SameBlock, FirstCopy;
      assert blocks[i] in blocks;
      SameCopy(c, c', blocks[i], LocationsOf(c.ns, blocks[i]), fates, i, 0);
      assert LocationsOf(c'.ns, blocks[i]) == LocationsOf(c.ns, blocks[i]) by { SameListing(c, c', blocks[i]); }
      SameRead(c, c', blocks, fates, i + 1);
    }
  }

  lemma SameListing(c: Cluster, c': Cluster, id: int)
    requires SameBlock(c, c', id)
    ensures LocationsOf(c'.ns, id) == LocationsOf(c.ns, id)
  {
  }

  lemma {:induction false} ReadOneMore(c: Cluster, blocks: seq<int>, id: int, i: nat, chunk: Bytes)
    requires ReadFrom(c, blocks, AllDelivered, i).0 && Placed(c, id, chunk) && i <= |blocks|
    ensures ReadFrom(c, blocks + [id], AllDelivered, i) == (true, ReadFrom(c, blocks, AllDelivered, i).1 + chunk)
    decreases |blocks| - i
  {
    if i < |blocks| {
      assert (blocks + [id])[i] == blocks[i];
      ReadOneMore(c, blocks, id, i + 1, chunk);
      var copy := FirstCopy(c.disks, blocks[i], LocationsOf(c.ns, blocks[i]), AllDelivered, i, 0).value;
      var rest := ReadFrom(c, blocks, AllDelivered, i + 1).1;
      assert copy + (rest + chunk) == (copy + rest) + chunk;
    } else {
      assert (blocks + [id])[i] == id;
      assert FirstCopy(c.disks, id, LocationsOf(c.ns, id), AllDelivered, i, 0) == Some(chunk);
      assert ReadFrom(c, blocks + [id], AllDelivered, i + 1) == (true, []);
      assert chunk + [] == chunk && [] + chunk == chunk;
    }
  }

  /** What the NameNode may allocate: a new id and valid targets. */
  ghost predicate LegalAlloc(ns: Ns, alloc: Alloc) {
    alloc.id !in Blocks(ns.tree) && ValidTargets(ns.datanodes, alloc.targets)
  }

  /** A usable allocation: there is a first target, and it can be reached. */
  ghost predicate GoodAlloc(c: Cluster, alloc: Alloc) {
    LegalAlloc(c.ns, alloc) && Accepts(c.disks, alloc)
  }

  lemma StoredChunk(c: Cluster, ns': Ns, alloc: Alloc, chunk: Bytes, id: int)
    requires alloc.targets != [] && AddrOf(alloc.targets[0]) in c.disks
    requires ns'.locs == c.ns.locs[alloc.id := alloc.targets]
    ensures var c' := Cluster(ns', StoreChunk(c.disks, alloc.id, alloc.targets, chunk));
            Placed(c', alloc.id, chunk) && (id != alloc.id ==> SameBlock(c, c', id))
  {
  }

  lemma ChunkWritten(c: Cluster, ns': Ns, alloc: Alloc, chunk: Bytes, path: string, overwrite: bool, first: bool)
    requires Allocate(c.ns, path, overwrite, first, alloc) == (ns', (Block(alloc.id, 0, 0), alloc.targets))
    requires ns'.locs == c.ns.locs[alloc.id := alloc.targets]
    ensures WriteChunk(c, path, chunk, overwrite, first, alloc)
         == Cluster(ns', StoreChunk(c.disks, alloc.id, alloc.targets, chunk))
  {
    hide Allocate;
    var n := |alloc.targets|;
    ConfirmNothing(ns', alloc.targets, n, Block(alloc.id, |chunk|, 0));
    assert alloc.targets[..n] == alloc.targets;
  }

  lemma ChunkKeepsNodes(c: Cluster, path: string, chunk: Bytes, overwrite: bool, first: bool, alloc: Alloc)
    ensures WriteChunk(c, path, chunk, overwrite, first, alloc).ns.datanodes == c.ns.datanodes
  {
    hide Fields, NodeAt, WithFile, WithBlock, PreparedTree, StoreChunk;
    var (ns, (block, targets)) := Allocate(c.ns, path, overwrite, first, alloc);
    ConfirmKeepsNodes(ns, targets, block.(numBytes := |chunk|));
  }

  lemma {:induction false} ConfirmKeepsNodes(ns: Ns, targets: seq<DataNodeInfo>, block: Block)
    ensures ConfirmAll(ns, targets, block).datanodes == ns.datanodes
  {
    if targets != [] { ConfirmKeepsNodes(ns, targets[..|targets| - 1], block); }
  }

  lemma NotInFile(n: Node, p: Path, id: int)
    requires id !in Blocks(n)
    ensures id !in BlocksAt(n, p)
  {
    hide NodeAt;
    if IsFile(n, p) {
      FileBlocks(n, p);
      assert Blocks(NodeAt(n, p).value) == multiset(BlocksAt(n, p));
    }
  }

  /** The first chunk creates the file with exactly that content. */
  lemma FirstChunk(c: Cluster, path: string, chunk: Bytes, overwrite: bool, alloc: Alloc)
    requires NsInv(c.ns) && Writable(c.ns, path, overwrite) && GoodAlloc(c, alloc)
    ensures var c' := WriteChunk(c, path, chunk, overwrite, true, alloc);
            var p := PathOf(path);
            NsInv(c'.ns) && c'.ns.datanodes == c.ns.datanodes && c'.disks.Keys == c.disks.Keys &&
            IsFile(c'.ns.tree, p) && BlocksAt(c'.ns.tree, p) == [alloc.id] && Read(c', p) == (true, chunk)
    ensures Blocks(WriteChunk(c, path, chunk, overwrite, true, alloc).ns.tree) <= Blocks(c.ns.tree) + multiset{alloc.id}
  {
    hide Fields, NodeAt, StartFile, NsInv, ValidTargets, Blocks, Writable, Placed, SameBlock, FirstCopy, StoreChunk;
    WritableStarts(c.ns, path, overwrite, alloc.id, alloc.targets);
    OpInv(c.ns, OpStartFile(path, overwrite, alloc.id, alloc.targets));
    var (ns', started) := StartFile(c.ns, path, overwrite, alloc.id, alloc.targets);
    assert started == (Block(alloc.id, 0, 0), alloc.targets);
    ChunkWritten(c, ns', alloc, chunk, path, overwrite, true);
    var c' := Cluster(ns', StoreChunk(c.disks, alloc.id, alloc.targets, chunk));
    StoredChunk(c, ns', alloc, chunk, alloc.id);
    ReadOneMore(c', [], alloc.id, 0, chunk);
    assert [] + [alloc.id] == [alloc.id] && [] + chunk == chunk;
    StoreKeys(c.disks, alloc.id, alloc.targets, chunk);
    StartFileBlocks(c.ns, path, overwrite, alloc.id, alloc.targets);
  }

  lemma StoreKeys(disks: map<Addr, Disk>, id: int, targets: seq<DataNodeInfo>, chunk: Bytes)
    ensures StoreChunk(disks, id, targets, chunk).Keys == disks.Keys
  {
  }

  lemma StartFileBlocks(ns: Ns, path: string, overwrite: bool, id: int, targets: seq<DataNodeInfo>)
    requires NsInv(ns)
    ensures Blocks(StartFile(ns, path, overwrite, id, targets).0.tree) <= Blocks(ns.tree) + multiset{id}
  {
    hide Fields, NodeAt, WithFile, WithBlock, PreparedTree, Blocks, TreeOk, LocsOk, NodesOk;
    PreparedSound(ns.tree, path, ns.locs);
    var t := PreparedTree(ns.tree, path);
    if WithFile(t, PathOf(path)).Some? {
      FileSound(t, path, ns.locs);
      AppendBlockBlocks(WithFile(t, PathOf(path)).value, PathOf(path), id);
    }
  }

  /** Every further chunk is appended to what the file reads as. */
  lemma NextChunk(c: Cluster, path: string, chunk: Bytes, overwrite: bool, alloc: Alloc)
    requires NsInv(c.ns) && IsFile(c.ns.tree, PathOf(path)) && GoodAlloc(c, alloc) && Read(c, PathOf(path)).0
    ensures var c' := WriteChunk(c, path, chunk, overwrite, false, alloc);
            var p := PathOf(path);
            NsInv(c'.ns) && c'.ns.datanodes == c.ns.datanodes && c'.disks.Keys == c.disks.Keys &&
            IsFile(c'.ns.tree, p) && BlocksAt(c'.ns.tree, p) == BlocksAt(c.ns.tree, p) + [alloc.id] &&
            Read(c', p) == (true, Read(c, p).1 + chunk) &&
            Blocks(c'.ns.tree) == Blocks(c.ns.tree) + multiset{alloc.id}
  {
    hide Fields, NodeAt, NsInv, ValidTargets, Blocks, Placed, SameBlock, FirstCopy, StoreChunk, WithBlock;
    var p := PathOf(path);
    OpInv(c.ns, OpAddBlock(path, alloc.id, alloc.targets));
    var ns' := AddBlock(c.ns, path, alloc.id, alloc.targets).0;
    ChunkWritten(c, ns', alloc, chunk, path, overwrite, false);
    var c' := Cluster(ns', StoreChunk(c.disks, alloc.id, alloc.targets, chunk));
    AppendBlockEntries(c.ns.tree, p, alloc.id, p);
    AppendBlockBlocks(c.ns.tree, p, alloc.id);
    var blocks := BlocksAt(c.ns.tree, p);
    NotInFile(c.ns.tree, p, alloc.id);
    forall id | id in blocks ensures SameBlock(c, c', id) { StoredChunk(c, ns', alloc, chunk, id); }
    SameRead(c, c', blocks, AllDelivered, 0);
    StoredChunk(c, ns', alloc, chunk, alloc.id);
    ReadOneMore(c', blocks, alloc.id, 0, chunk);
    StoreKeys(c.disks, alloc.id, alloc.targets, chunk);
  }

  // ---- The whole write ------------------------------------------------------------------------------------

  function Ids(allocs: seq<Alloc>): seq<int> {
    seq(|allocs|, i requires 0 <= i < |allocs| => allocs[i].id)
  }

  ghost predicate GoodAllocs(c: Cluster, allocs: seq<Alloc>) {
    (forall k :: 0 <= k < |allocs| ==> GoodAlloc(c, allocs[k])) &&
    (forall j, k :: 0 <= j < k < |allocs| ==> allocs[j].id != allocs[k].id)
  }

  lemma RemainingAllocs(c: Cluster, c': Cluster, allocs: seq<Alloc>)
    requires GoodAllocs(c, allocs) && allocs != []
    requires c'.ns.datanodes == c.ns.datanodes && c'.disks.Keys == c.disks.Keys
    requires Blocks(c'.ns.tree) <= Blocks(c.ns.tree) + multiset{allocs[0].id}
    ensures GoodAllocs(c', allocs[1..])
    ensures Ids(allocs) == [allocs[0].id] + Ids(allocs[1..])
  {
    hide Blocks, ValidTargets;
    forall k | 0 <= k < |allocs[1..]| ensures GoodAlloc(c', allocs[1..][k]) {
      assert GoodAlloc(c, allocs[k + 1]);
      assert allocs[0].id != allocs[k + 1].id;
    }
  }

  lemma WriteFromUnfold(c: Cluster, path: string, data: Bytes, blockSize: int, overwrite: bool, first: bool,
                        allocs: seq<Alloc>)
    requires blockSize >= 1 && |allocs| == Chunks(|data|, blockSize) && data != []
    ensures var n := ChunkSize(blockSize, |data|);
            allocs != [] && |allocs[1..]| == Chunks(|data[n..]|, blockSize) &&
            WriteFrom(c, path, data, blockSize, overwrite, first, allocs)
            == WriteFrom(WriteChunk(c, path, data[..n], overwrite, first, allocs[0]), path, data[n..], blockSize,
                         overwrite, false, allocs[1..])
  {
    hide WriteChunk;
  }

  lemma WriteFromEnd(c: Cluster, path: string, data: Bytes, blockSize: int, overwrite: bool, first: bool,
                     allocs: seq<Alloc>)
    requires blockSize >= 1 && |allocs| == Chunks(|data|, blockSize) && data == []
    ensures allocs == [] && WriteFrom(c, path, data, blockSize, overwrite, first, allocs) == c
  {
  }

  lemma {:induction false} RestWritten(c: Cluster, path: string, data: Bytes, blockSize: int, overwrite: bool,
                                       allocs: seq<Alloc>)
    requires blockSize >= 1 && |allocs| == Chunks(|data|, blockSize) && GoodAllocs(c, allocs)
    requires NsInv(c.ns) && IsFile(c.ns.tree, PathOf(path)) && Read(c, PathOf(path)).0
    ensures var c' := WriteFrom(c, path, data, blockSize, overwrite, false, allocs);
            var p := PathOf(path);
            NsInv(c'.ns) && Read(c', p) == (true, Read(c, p).1 + data) &&
            BlocksAt(c'.ns.tree, p) == BlocksAt(c.ns.tree, p) + Ids(allocs)
    decreases |data|
  {
    hide Fields, NsInv, Read, GoodAllocs, WriteFrom, WriteChunk, IsFile, BlocksAt, Blocks, Ids, Chunks;
    var p := PathOf(path);
    if data == [] {
      WriteFromEnd(c, path, data, blockSize, overwrite, false, allocs);
      assert Ids(allocs) == [] by { NoIds(); }
      assert Read(c, p) == (Read(c, p).0, Read(c, p).1);
      assert Read(c, p).1 + data == Read(c, p).1 && BlocksAt(c.ns.tree, p) + [] == BlocksAt(c.ns.tree, p);
    } else {
      WriteFromUnfold(c, path, data, blockSize, overwrite, false, allocs);
      var n := ChunkSize(blockSize, |data|);
      var c1 := WriteChunk(c, path, data[..n], overwrite, false, allocs[0]);
      assert GoodAlloc(c, allocs[0]) by { FirstAlloc(c, allocs); }
      NextChunk(c, path, data[..n], overwrite, allocs[0]);
      RemainingAllocs(c, c1, allocs);
      RestWritten(c1, path, data[n..], blockSize, overwrite, allocs[1..]);
      assert data == data[..n] + data[n..];
      assert (Read(c, p).1 + data[..n]) + data[n..] == Read(c, p).1 + (data[..n] + data[n..]);
      assert (BlocksAt(c.ns.tree, p) + [allocs[0].id]) + Ids(allocs[1..])
          == BlocksAt(c.ns.tree, p) + ([allocs[0].id] + Ids(allocs[1..]));
    }
  }

  lemma NoIds()
    ensures Ids([]) == []
  {
  }

  lemma FirstAlloc(c: Cluster, allocs: seq<Alloc>)
    requires GoodAllocs(c, allocs) && allocs != []
    ensures GoodAlloc(c, allocs[0])
  {
  }

  /** Writing to a writable path stores exactly the data, in fresh blocks, one for each started block size. */
  lemma WriteThenRead(c: Cluster, path: string, data: Bytes, blockSize: int, overwrite: bool, allocs: seq<Alloc>)
    requires blockSize >= 1 && |allocs| == Chunks(|data|, blockSize) && GoodAllocs(c, allocs) && data != []
    requires NsInv(c.ns) && Writable(c.ns, path, overwrite)
    ensures var c' := WriteFrom(c, path, data, blockSize, overwrite, true, allocs);
            var p := PathOf(path);
            NsInv(c'.ns) && Read(c', p) == (true, data) && BlocksAt(c'.ns.tree, p) == Ids(allocs)
  {
    hide Fields, NsInv, Read, GoodAllocs, WriteFrom, WriteChunk, IsFile, BlocksAt, Blocks, Ids, Chunks, Writable;
    WriteFromUnfold(c, path, data, blockSize, overwrite, true, allocs);
    var n := ChunkSize(blockSize, |data|);
    var c1 := WriteChunk(c, path, data[..n], overwrite, true, allocs[0]);
    FirstAlloc(c, allocs);
    FirstChunk(c, path, data[..n], overwrite, allocs[0]);
    RemainingAllocs(c, c1, allocs);
    RestWritten(c1, path, data[n..], blockSize, overwrite, allocs[1..]);
    assert data == data[..n] + data[n..];
  }

  /** The number of blocks is the length divided by the block size, rounded up. */
  lemma {:induction false} ChunksIsCeiling(len: nat, blockSize: int)
    requires blockSize >= 1
    ensures (Chunks(len, blockSize) - 1) * blockSize < len <= Chunks(len, blockSize) * blockSize || len == 0
  {
    if len > 0 {
      var n := ChunkSize(blockSize, len);
      ChunksIsCeiling(len - n, blockSize);
      var k := Chunks(len - n, blockSize);
      assert (k + 1) * blockSize == k * blockSize + blockSize;
      assert k * blockSize == (k - 1) * blockSize + blockSize;
      if len <= blockSize { assert k == 0; }
    }
  }
}
