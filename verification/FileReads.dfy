/** Reading the files of the map: a read that succeeds returns the file's bytes, and over every run whose last restart
    finds the blocks again a read succeeds exactly when each chunk of the file is at a node that can be reached. */
module FileReads {
  import opened Text
  import opened Inodes
  import opened FsImage
  import opened Namespace
  import opened Bytes
  import opened Cluster
  import opened WriteRead
  import opened Recovery
  import opened FileMap

  predicate AllThere(pieces: seq<Piece>) {
    forall i :: 0 <= i < |pieces| ==> pieces[i].Kept?
  }

  function BytesOf(pieces: seq<Piece>): Bytes {
    if pieces == [] then []
    else (if pieces[0].Kept? then pieces[0].data else []) + BytesOf(pieces[1..])
  }

  // ---- What a read returns --------------------------------------------------------------------------------

  lemma {:induction false} PiecesContent(disks: map<Addr, Disk>, blocks: seq<int>, content: map<int, Bytes>)
    requires Consistent(disks, content) && forall i :: 0 <= i < |blocks| ==> OnDisk(disks, blocks[i])
    ensures forall i :: 0 <= i < |blocks| ==> blocks[i] in content
    ensures AllThere(PiecesOf(disks, blocks)) && BytesOf(PiecesOf(disks, blocks)) == ContentOf(content, blocks)
  {
    hide Consistent, OnDisk, PieceAt;
    forall i | 0 <= i < |blocks|
      ensures blocks[i] in content
      ensures PieceAt(disks, blocks[i]) == Kept(content[blocks[i]], Holders(disks, blocks[i]))
    {
      PieceIs(disks, content, blocks[i]);
    }
    if blocks != [] {
      PiecesContent(disks, blocks[1..], content);
      assert PiecesOf(disks, blocks)[1..] == PiecesOf(disks, blocks[1..]);
    }
  }

  lemma FileItem(c: Cluster, q: Path)
    requires IsFile(c.ns.tree, q)
    ensures HasFile(View(c).files, q)
    ensures View(c).files[q].pieces == PiecesOf(c.disks, BlocksAt(c.ns.tree, q))
  {
    hide NodeAt, PieceAt, ViewOf;
    ViewAt(c.disks, c.ns.tree, q);
    FileEntryOf(c.ns.tree, q);
  }

  lemma DeliveredOnDisk(c: Cluster, blocks: seq<int>, fates: Fates, i: nat)
    requires i < |blocks| && Delivers(c, blocks, fates, i)
    ensures OnDisk(c.disks, blocks[i])
  {
    var j :| 0 <= j < |LocationsOf(c.ns, blocks[i])| &&
      Sends(c.disks, LocationsOf(c.ns, blocks[i])[j], blocks[i], fates(i, j));
    assert blocks[i] in c.disks[AddrOf(LocationsOf(c.ns, blocks[i])[j])];
  }

  /** Whatever connections fail, a read of a file that succeeds returns exactly the bytes the map has for it, and then
      none of its chunks was lost. */
  lemma ReadIsMapContent(c: Cluster, q: Path, fates: Fates)
    requires Sound(c) && IsFile(c.ns.tree, q) && ReadFrom(c, BlocksAt(c.ns.tree, q), fates, 0).0
    ensures HasFile(View(c).files, q) && AllThere(View(c).files[q].pieces)
    ensures ReadFrom(c, BlocksAt(c.ns.tree, q), fates, 0).1 == BytesOf(View(c).files[q].pieces)
  {
    hide NodeAt, IsFile, TreeSound, Consistent, OnDisk, Delivers, PiecesOf, AllThere, BytesOf, View;
    var content :| Consistent(c.disks, content);
    var blocks := BlocksAt(c.ns.tree, q);
    FileItem(c, q);
    ReadSucceedsIff(c, blocks, fates, 0);
    forall i: nat | i < |blocks| ensures OnDisk(c.disks, blocks[i]) { DeliveredOnDisk(c, blocks, fates, i); }
    PiecesContent(c.disks, blocks, content);
    ReadContent(c, blocks, fates, 0, content);
    assert blocks[0..] == blocks;
  }

  // ---- Availability ---------------------------------------------------------------------------------------

  ghost predicate ListedHolder(c: Cluster, id: int) {
    exists j :: 0 <= j < |LocationsOf(c.ns, id)| && Holds(c.disks, LocationsOf(c.ns, id)[j], id)
  }

  ghost predicate FileAvailable(c: Cluster, q: Path) {
    forall id :: id in BlocksAt(c.ns.tree, q) && OnDisk(c.disks, id) ==> ListedHolder(c, id)
  }

  /** Each block of a file that is on a disk is listed with a node that holds it. */
  ghost predicate Available(c: Cluster) {
    NodesOk(c.ns.datanodes) && forall q :: FileAvailable(c, q)
  }

  /** When every connection works, a file can be read exactly when none of its chunks was lost. */
  lemma AvailableReadsIff(c: Cluster, q: Path)
    requires Sound(c) && Available(c) && IsFile(c.ns.tree, q)
    ensures Read(c, q).0 <==> AllThere(View(c).files[q].pieces)
    ensures Read(c, q).0 ==> Read(c, q).1 == BytesOf(View(c).files[q].pieces)
  {
    hide NodeAt, IsFile, TreeSound, Consistent, OnDisk, View, ListedHolder, PieceAt, NodesOk, Sends;
    var blocks := BlocksAt(c.ns.tree, q);
    FileItem(c, q);
    assert FileAvailable(c, q);
    ReadSucceedsIff(c, blocks, AllDelivered, 0);
    forall i: nat | i < |blocks| ensures Delivers(c, blocks, AllDelivered, i) <==> PiecesOf(c.disks, blocks)[i].Kept? {
      if Delivers(c, blocks, AllDelivered, i) { DeliveredOnDisk(c, blocks, AllDelivered, i); }
      KeptIff(c.disks, blocks[i]);
      if OnDisk(c.disks, blocks[i]) {
        assert blocks[i] in blocks;
        HolderDelivers(c, blocks, i);
      }
    }
    if Read(c, q).0 { ReadIsMapContent(c, q, AllDelivered); }
  }

  lemma KeptIff(disks: map<Addr, Disk>, id: int)
    ensures PieceAt(disks, id).Kept? <==> OnDisk(disks, id)
  {
  }

  lemma HolderDelivers(c: Cluster, blocks: seq<int>, i: nat)
    requires i < |blocks| && ListedHolder(c, blocks[i])
    ensures Delivers(c, blocks, AllDelivered, i)
  {
    var j :| 0 <= j < |LocationsOf(c.ns, blocks[i])| && Holds(c.disks, LocationsOf(c.ns, blocks[i])[j], blocks[i]);
    assert Sends(c.disks, LocationsOf(c.ns, blocks[i])[j], blocks[i], AllDelivered(i, j));
  }

  // ---- While some nodes cannot be reached -----------------------------------------------------------------

  /** Each piece is at one of the given nodes. */
  ghost predicate AllWithin(pieces: seq<Piece>, up: set<Addr>) {
    forall i :: 0 <= i < |pieces| ==> pieces[i].Kept? && pieces[i].at * up != {}
  }

  /** No piece is at two places. */
  ghost predicate OnePlace(pieces: seq<Piece>) {
    forall i :: 0 <= i < |pieces| && pieces[i].Kept? ==> |pieces[i].at| <= 1
  }

  lemma OnlyHolder(disks: map<Addr, Disk>, id: int, a: Addr, b: Addr)
    requires |Holders(disks, id)| <= 1 && a in Holders(disks, id) && b in Holders(disks, id)
    ensures a == b
  {
    if a != b {
      assert {a, b} <= Holders(disks, id);
      CardinalitySubset({a, b}, Holders(disks, id));
    }
  }

  lemma CardinalitySubset<T>(s: set<T>, t: set<T>)
    requires s <= t
    ensures |s| <= |t|
  {
    assert t == s + (t - s);
  }

  /** A block kept at one place is delivered exactly when that place can be reached. */
  lemma DeliversAmong(c: Cluster, blocks: seq<int>, i: nat, up: set<Addr>, content: map<int, Bytes>)
    requires i < |blocks| && Consistent(c.disks, content) && (OnDisk(c.disks, blocks[i]) ==> ListedHolder(c, blocks[i]))
    requires |Holders(c.disks, blocks[i])| <= 1
    ensures Delivers(Among(c, up), blocks, AllDelivered, i) <==>
              PieceAt(c.disks, blocks[i]).Kept? && PieceAt(c.disks, blocks[i]).at * up != {}
  {
    hide PieceAt, Consistent;
    var id, part := blocks[i], Among(c, up);
    var dns := LocationsOf(c.ns, id);
    PieceIs(c.disks, content, id);
    assert forall a :: a in c.disks <==> a in c.disks.Keys;
    if Delivers(part, blocks, AllDelivered, i) {
      var j :| 0 <= j < |dns| && Sends(part.disks, dns[j], id, AllDelivered(i, j));
      assert AddrOf(dns[j]) in Holders(c.disks, id) * up;
    }
    if PieceAt(c.disks, id).Kept? && Holders(c.disks, id) * up != {} {
      var a :| a in Holders(c.disks, id) * up;
      var j :| 0 <= j < |dns| && Holds(c.disks, dns[j], id);
      OnlyHolder(c.disks, id, a, AddrOf(dns[j]));
      assert Sends(part.disks, dns[j], id, AllDelivered(i, j));
    }
  }

  /** While only the nodes in `up` can be reached, a file whose chunks are at one place each can be read exactly when
      each of these places is in `up`. */
  lemma ReadsAmongIff(c: Cluster, q: Path, up: set<Addr>)
    requires Sound(c) && Available(c) && IsFile(c.ns.tree, q)
    ensures var r, pieces := Read(Among(c, up), q), View(c).files[q].pieces;
            OnePlace(pieces) ==> (r.0 <==> AllWithin(pieces, up)) && (r.0 ==> r.1 == BytesOf(pieces))
  {
    hide NodeAt, IsFile, TreeSound, Consistent, OnDisk, View, ListedHolder, PieceAt, NodesOk, Delivers, Holders, Among,
         BytesOf, ReadFrom;
    var content :| Consistent(c.disks, content);
    var blocks, part := BlocksAt(c.ns.tree, q), Among(c, up);
    FileItem(c, q);
    AmongSame(c, up, content);
    assert FileAvailable(c, q);
    ReadSucceedsIff(part, blocks, AllDelivered, 0);
    var pieces := PiecesOf(c.disks, blocks);
    if OnePlace(pieces) {
      forall i: nat | i < |blocks|
        ensures Delivers(part, blocks, AllDelivered, i) <==> pieces[i].Kept? && pieces[i].at * up != {}
      {
        assert blocks[i] in blocks && pieces[i] == PieceAt(c.disks, blocks[i]);
        FewHolders(c.disks, blocks[i], content);
        DeliversAmong(c, blocks, i, up, content);
      }
      if Read(part, q).0 {
        forall i: nat | i < |blocks| ensures OnDisk(c.disks, blocks[i]) {
          assert pieces[i].Kept?;
          KeptIff(c.disks, blocks[i]);
        }
        PiecesContent(c.disks, blocks, content);
        ReadContent(part, blocks, AllDelivered, 0, content);
        assert blocks[0..] == blocks;
      }
    }
  }

  lemma FewHolders(disks: map<Addr, Disk>, id: int, content: map<int, Bytes>)
    requires Consistent(disks, content) && (PieceAt(disks, id).Kept? ==> |PieceAt(disks, id).at| <= 1)
    ensures |Holders(disks, id)| <= 1
  {
    hide PieceAt;
    PieceIs(disks, content, id);
  }

  lemma AmongSame(c: Cluster, up: set<Addr>, content: map<int, Bytes>)
    requires Consistent(c.disks, content)
    ensures Consistent(Among(c, up).disks, content) && Among(c, up).ns == c.ns
  {
  }

  // ---- Availability is kept -------------------------------------------------------------------------------

  /** The listing only grows, and the disks stay. */
  lemma HolderStays(c: Cluster, c': Cluster, id: int)
    requires ListedHolder(c, id) && c'.disks == c.disks && LocationsOf(c.ns, id) <= LocationsOf(c'.ns, id)
    ensures ListedHolder(c', id)
  {
    var j :| 0 <= j < |LocationsOf(c.ns, id)| && Holds(c.disks, LocationsOf(c.ns, id)[j], id);
    assert LocationsOf(c'.ns, id)[j] == LocationsOf(c.ns, id)[j];
  }

  lemma StoredHolder(c: Cluster, c': Cluster, send: Send, chunk: Bytes, id: int)
    requires c'.ns.locs == c.ns.locs[send.alloc.id := send.alloc.targets] && !OnDisk(c.disks, send.alloc.id)
    requires c'.disks == StoreAmong(c.disks, send, chunk) && send.up <= c.disks.Keys
    requires id != send.alloc.id && OnDisk(c.disks, id) ==> ListedHolder(c, id)
    ensures OnDisk(c'.disks, id) ==> ListedHolder(c', id)
  {
    if id == send.alloc.id {
      NewHolders(c.disks, send, chunk, id);
      if Arrives(send) { assert Holds(c'.disks, LocationsOf(c'.ns, id)[0], id); }
    } else if ListedHolder(c, id) {
      var j :| 0 <= j < |LocationsOf(c.ns, id)| && Holds(c.disks, LocationsOf(c.ns, id)[j], id);
      assert Holds(c'.disks, LocationsOf(c'.ns, id)[j], id);
    } else {
      StillNew(c.disks, send, chunk, id);
    }
    if OnDisk(c'.disks, id) {
      var a :| a in c'.disks && id in c'.disks[a];
      assert a in Holders(c'.disks, id);
    }
  }

  /** The files of the tree are files of the one before, except that the one at p may have got the block id. */
  ghost predicate FilesFrom(n: Node, n': Node, p: Path, id: int) {
    forall q, x :: x in BlocksAt(n', q) ==> x in BlocksAt(n, q) || (q == p && x == id)
  }

  lemma ChunkAvailable(c: Cluster, c': Cluster, send: Send, chunk: Bytes, p: Path)
    requires Available(c) && FilesFrom(c.ns.tree, c'.ns.tree, p, send.alloc.id) && !OnDisk(c.disks, send.alloc.id)
    requires c'.ns.locs == c.ns.locs[send.alloc.id := send.alloc.targets] && c'.ns.datanodes == c.ns.datanodes
    requires c'.disks == StoreAmong(c.disks, send, chunk) && send.up <= c.disks.Keys
    ensures Available(c')
  {
    hide BlocksAt, OnDisk, ListedHolder, StoreAmong, NodesOk;
    forall q ensures FileAvailable(c', q) {
      assert FileAvailable(c, q);
      forall id | id in BlocksAt(c'.ns.tree, q) && OnDisk(c'.disks, id) ensures ListedHolder(c', id) {
        StoredHolder(c, c', send, chunk, id);
      }
    }
  }

  ghost predicate FewerBlocks(c: Cluster, c': Cluster, q: Path) {
    forall x :: x in BlocksAt(c'.ns.tree, q) ==>
      x in BlocksAt(c.ns.tree, q) && LocationsOf(c.ns, x) <= LocationsOf(c'.ns, x)
  }

  /** Fewer files, longer listings, the same disks. */
  lemma ListingsAvailable(c: Cluster, c': Cluster)
    requires Available(c) && NodesOk(c'.ns.datanodes) && c'.disks == c.disks
    requires forall q :: FewerBlocks(c, c', q)
    ensures Available(c')
  {
    hide BlocksAt, OnDisk, ListedHolder, NodesOk, LocationsOf;
    forall q ensures FileAvailable(c', q) {
      assert FileAvailable(c, q) && FewerBlocks(c, c', q);
      forall id | id in BlocksAt(c'.ns.tree, q) && OnDisk(c'.disks, id) ensures ListedHolder(c', id) {
        HolderStays(c, c', id);
      }
    }
  }

  lemma StartAvailable(c: Cluster, path: string, chunk: Bytes, overwrite: bool, send: Send)
    requires Sound(c) && Available(c) && LegalSend(c, send)
    ensures Available(ChunkAmong(c, path, chunk, overwrite, true, send))
  {
    hide Fields, NodeAt, EntryAt, ChunkAmong, PreparedTree, WithFile, WithBlock, Consistent, TreeSound, StoreAmong,
         OnDisk, ValidTargets, Blocks, ListedHolder, NodesOk, BlocksAt, IsFile, LocationsOf;
    var n, p := c.ns.tree, PathOf(path);
    var t := PreparedTree(n, path);
    SoundDir(n);
    StartShape(c, path, chunk, overwrite, send);
    forall q, x | x in BlocksAt(t, q) ensures x in BlocksAt(n, q) { PreparedBlocks(n, path, q); }
    if !InSafeMode(c.ns) && (NodeAt(n, p).None? || overwrite) {
      if WithFile(t, p).Some? {
        var t' := WithBlock(WithFile(t, p).value, p, send.alloc.id);
        forall q, x | x in BlocksAt(t', q) ensures x in BlocksAt(n, q) || (q == p && x == send.alloc.id) {
          CreatedEntries(t, p, send.alloc.id, q);
          EntryGivesBlocks(t', q);
          EntryGivesBlocks(t, q);
        }
        ChunkAvailable(c, ChunkAmong(c, path, chunk, overwrite, true, send), send, chunk, p);
      } else {
        var c' := c.(ns := c.ns.(tree := t));
        forall x ensures LocationsOf(c'.ns, x) == LocationsOf(c.ns, x) { SameLocs(c.ns, c'.ns, x); }
        ListingsAvailable(c, c');
      }
    }
  }

  lemma SameLocs(ns: Ns, ns': Ns, id: int)
    requires ns'.locs == ns.locs
    ensures LocationsOf(ns', id) == LocationsOf(ns, id)
  {
  }

  /** The block list is that of the entry. */
  lemma EntryGivesBlocks(n: Node, q: Path)
    ensures BlocksAt(n, q) == match EntryAt(n, q)
                              case None => []
                              case Some(DirEntry) => []
                              case Some(FileEntry(blocks)) => blocks
  {
    hide NodeAt;
  }

  /** The prepared tree has no file that was not there. */
  lemma PreparedBlocks(n: Node, path: string, q: Path)
    requires n.Dir? && WellFormed(n)
    ensures forall x :: x in BlocksAt(PreparedTree(n, path), q) ==> x in BlocksAt(n, q)
  {
    hide Fields, NodeAt, EntryAt, WellFormed, AfterMkdirs, DeletedIfPresent, GetParentDir, BlocksAt, IsFile;
    var n1 := DeletedIfPresent(n, PathOf(path));
    DeletedKeepsDir(n, PathOf(path));
    DeletedEntries(n, PathOf(path), q);
    MkdirsSeen(n1, GetParentDir(path), q);
    EntryGivesBlocks(n, q);
    EntryGivesBlocks(n1, q);
    EntryGivesBlocks(PreparedTree(n, path), q);
  }

  lemma NextAvailable(c: Cluster, path: string, chunk: Bytes, overwrite: bool, send: Send)
    requires Sound(c) && Available(c) && LegalSend(c, send)
    ensures Available(ChunkAmong(c, path, chunk, overwrite, false, send))
  {
    hide Fields, NodeAt, EntryAt, ChunkAmong, WithBlock, Consistent, TreeSound, StoreAmong, OnDisk, ValidTargets,
         Blocks, ListedHolder, NodesOk, BlocksAt, IsFile;
    var n, p := c.ns.tree, PathOf(path);
    NextShape(c, path, chunk, overwrite, send);
    if IsFile(n, p) {
      var t' := WithBlock(n, p, send.alloc.id);
      forall q, x | x in BlocksAt(t', q) ensures x in BlocksAt(n, q) || (q == p && x == send.alloc.id) {
        AppendedEntries(n, p, send.alloc.id, q);
        EntryGivesBlocks(t', q);
        EntryGivesBlocks(n, q);
      }
      ChunkAvailable(c, ChunkAmong(c, path, chunk, overwrite, false, send), send, chunk, p);
    }
  }

  /** Different files have no block in common. */
  lemma DistinctFiles(n: Node, p: Path, q: Path, id: int)
    requires TreeSound(n) && IsFile(n, p) && IsFile(n, q) && !(p <= q)
    ensures !(id in BlocksAt(n, p) && id in BlocksAt(n, q))
  {
    hide NodeAt, WellFormed, Blocks, Without;
    DeleteEntries(n, p, q);
    if p == [] { RootNoFile(n); }
    var left := Without(n, p).value;
    DeleteBlocks(n, p);
    assert Blocks(n)[id] == Blocks(left)[id] + Blocks(NodeAt(n, p).value)[id];
    ErasedBlocks(n, p, id);
    assert BlocksAt(left, q) == BlocksAt(n, q);
    if id in BlocksAt(n, q) {
      ErasedBlocks(left, q, id);
      FileBlocks(left, q);
    }
  }

  lemma RootNoFile(n: Node)
    requires n.Dir?
    ensures !IsFile(n, [])
  {
  }

  lemma NoFileNoBlocks(n: Node, q: Path)
    requires !IsFile(n, q)
    ensures BlocksAt(n, q) == []
  {
  }

  lemma RemoveAvailable(c: Cluster, path: string)
    requires Sound(c) && Available(c)
    ensures Available(After(c, Remove(path)))
  {
    hide Fields, NodeAt, EntryAt, DeletedIfPresent, Consistent, TreeSound, ListedHolder, NodesOk, OnDisk, BlocksAt,
         IsFile, Without;
    var n, p := c.ns.tree, PathOf(path);
    var c' := After(c, Remove(path));
    SoundDir(n);
    if NodeAt(n, p).Some? {
      RootNoFile(n);
      forall q ensures FewerBlocks(c, c', q) {
        DeletedEntries(n, p, q);
        EntryGivesBlocks(n, q);
        EntryGivesBlocks(c'.ns.tree, q);
        if !IsFile(n, p) { NoFileNoBlocks(n, p); }
        if !IsFile(n, q) { NoFileNoBlocks(n, q); }
        forall x | x in BlocksAt(c'.ns.tree, q) ensures x in BlocksAt(n, q) && x !in BlocksAt(n, p) {
          if IsFile(n, p) { DistinctFiles(n, p, q, x); }
        }
      }
      ListingsAvailable(c, c');
    }
  }

  lemma MakeDirAvailable(c: Cluster, path: string)
    requires Sound(c) && Available(c)
    ensures Available(After(c, MakeDir(path)))
  {
    hide Fields, NodeAt, EntryAt, AfterMkdirs, Consistent, TreeSound, ListedHolder, NodesOk, OnDisk, BlocksAt, IsFile,
         LocationsOf;
    var n, c' := c.ns.tree, After(c, MakeDir(path));
    SoundDir(n);
    forall x ensures LocationsOf(c'.ns, x) == LocationsOf(c.ns, x) { SameLocs(c.ns, c'.ns, x); }
    forall q ensures FewerBlocks(c, c', q) {
      MkdirsSeen(n, path, q);
      EntryGivesBlocks(n, q);
      EntryGivesBlocks(c'.ns.tree, q);
    }
    ListingsAvailable(c, c');
  }

  lemma {:induction false} ExpireAvailable(c: Cluster, now: int, order: seq<string>)
    requires Sound(c) && Available(c)
    ensures Available(c.(ns := CheckLeases(c.ns, now, order)))
    decreases |order|
  {
    hide Fields, NodeAt, EntryAt, DeletedIfPresent, Consistent, TreeSound, Available, BlocksAt;
    if order != [] {
      if order[0] in c.ns.leases && c.ns.leases[order[0]].expiry < now {
        var p := PathOf(c.ns.leases[order[0]].path);
        var c1 := c.(ns := c.ns.(tree := DeletedIfPresent(c.ns.tree, p), leases := c.ns.leases - {order[0]}));
        DeleteSound(c.ns.tree, p);
        DeletedAvailable(c, c1, p);
        ExpireAvailable(c1, now, order[1..]);
      } else {
        ExpireAvailable(c, now, order[1..]);
      }
    }
  }

  lemma DeletedAvailable(c: Cluster, c1: Cluster, p: Path)
    requires Sound(c) && Available(c) && c1.ns.tree == DeletedIfPresent(c.ns.tree, p)
    requires c1.ns.locs == c.ns.locs && c1.ns.datanodes == c.ns.datanodes && c1.disks == c.disks
    ensures Available(c1)
  {
    hide NodeAt, EntryAt, DeletedIfPresent, Consistent, TreeSound, ListedHolder, NodesOk, OnDisk, BlocksAt, LocationsOf;
    SoundDir(c.ns.tree);
    forall x ensures LocationsOf(c1.ns, x) == LocationsOf(c.ns, x) { SameLocs(c.ns, c1.ns, x); }
    forall q ensures FewerBlocks(c, c1, q) {
      DeletedEntries(c.ns.tree, p, q);
      EntryGivesBlocks(c.ns.tree, q);
      EntryGivesBlocks(c1.ns.tree, q);
    }
    ListingsAvailable(c, c1);
  }

  lemma MessageAvailable(c: Cluster, m: Message)
    requires Available(c)
    ensures Available(After(c, FromNode(m)))
  {
    hide ListedHolder, OnDisk, BlocksAt, Receive, LocationsOf, NodesOk;
    TreeKept(c.ns, m);
    NodesStayOk(c.ns, m);
    forall x ensures LocationsOf(c.ns, x) <= LocationsOf(Receive(c.ns, m), x) { ListingGrows(c.ns, m, x); }
    ListingsAvailable(c, After(c, FromNode(m)));
  }

  lemma NodesStayOk(ns: Ns, m: Message)
    requires NodesOk(ns.datanodes)
    ensures NodesOk(Receive(ns, m).datanodes)
  {
    hide NodeName, ReportAll;
  }

  lemma ListingGrows(ns: Ns, m: Message, id: int)
    requires NodesOk(ns.datanodes)
    ensures LocationsOf(ns, id) <= LocationsOf(Receive(ns, m), id)
  {
    hide NodeName, ReportAll, HasName;
    if m.Report? && NodeName(m.port) in ns.datanodes {
      ReportEffect(ns.locs, m.blocks, ns.datanodes[NodeName(m.port)], id);
    }
  }

  lemma ReceivedAvailable(c: Cluster, name: string, block: Block)
    requires Available(c)
    ensures Available(After(c, Received(name, block)))
  {
    hide ListedHolder, OnDisk, BlocksAt, HasName, NodesOk;
    ListingsAvailable(c, After(c, Received(name, block)));
  }

  /** Restarts after which every block of the tree that is on a disk is held by a node that joined honestly. */
  ghost predicate Recoverable(c: Cluster, messages: seq<Message>) {
    Honest(c.disks, messages) &&
    forall id :: id in Blocks(c.ns.tree) && OnDisk(c.disks, id) ==> Findable(c.disks, messages, id)
  }

  lemma RestartAvailable(c: Cluster, messages: seq<Message>)
    requires Sound(c) && SpaceFree(c.ns.tree) && IdsFit(c.ns.tree) && Recoverable(c, messages)
    ensures Available(After(c, Restart(messages)))
  {
    hide ListedHolder, OnDisk, BlocksAt, NodesOk, Restarted, ReceiveAll, Blocks, SpaceFree, IdsFit, Honest, Findable,
         Recovered, Consistent, TreeSound;
    RestartStep(c, messages);
    var c' := After(c, Restart(messages));
    ReceiveAllSound(c.ns.tree, messages);
    forall q ensures FileAvailable(c', q) {
      forall id | id in BlocksAt(c'.ns.tree, q) && OnDisk(c'.disks, id) ensures ListedHolder(c', id) {
        AlwaysRecovered(c.disks, c.ns.tree, messages, id);
        BlockInTree(c.ns.tree, q, id);
        FoundHasHolder(c', messages, id);
      }
    }
  }

  lemma FoundHasHolder(c: Cluster, messages: seq<Message>, id: int)
    requires Recovered(c.disks, messages, c.ns, id) && Findable(c.disks, messages, id)
    ensures ListedHolder(c, id)
  {
    hide Joined, NodeName;
    var port :| HeldByJoined(c.disks, messages, id, port);
    assert LocationsOf(c.ns, id) != [];
    assert Holds(c.disks, LocationsOf(c.ns, id)[0], id);
  }

  lemma BlockInTree(n: Node, q: Path, id: int)
    requires id in BlocksAt(n, q)
    ensures id in Blocks(n)
  {
    hide Blocks;
    if id !in Blocks(n) { NotInFile(n, q, id); }
  }

  lemma {:induction false} ReceiveAllSound(tree: Node, messages: seq<Message>)
    ensures NodesOk(ReceiveAll(EMPTY.(tree := tree), messages).datanodes)
    ensures ReceiveAll(EMPTY.(tree := tree), messages).tree == tree
  {
    hide NodesOk, Receive;
    if messages == [] {
      NoNodes();
    } else {
      var init, m := messages[..|messages| - 1], messages[|messages| - 1];
      ReceiveAllSound(tree, init);
      NodesStayOk(ReceiveAll(EMPTY.(tree := tree), init), m);
      TreeKept(ReceiveAll(EMPTY.(tree := tree), init), m);
    }
  }

  lemma NoNodes()
    ensures NodesOk(map[])
  {
  }

  /** Every event but a restart keeps the files available, and a recoverable restart makes them so. */
  lemma AvailableStep(c: Cluster, e: Event)
    requires Sound(c) && Possible(c, e) && if e.Restart? then Recoverable(c, e.messages) else Available(c)
    ensures Available(After(c, e))
  {
    hide Sound, Available, ChunkAmong, DeletePath, MkdirsPath, Receive, Restarted, CheckLeases, LegalAlloc, SpaceFree,
         IdsFit, OnDisk, Recoverable, Fields;
    match e
    case StartChunk(path, chunk, overwrite, send) => StartAvailable(c, path, chunk, overwrite, send);
    case NextChunk(path, chunk, send) => NextAvailable(c, path, chunk, true, send);
    case Remove(path) => RemoveAvailable(c, path);
    case MakeDir(path) => MakeDirAvailable(c, path);
    case Grant(holder, path, now) => LeasesAvailable(c, After(c, e));
    case Release(path) => LeasesAvailable(c, After(c, e));
    case Expire(now, order) => ExpireAvailable(c, now, order);
    case FromNode(message) => MessageAvailable(c, message);
    case Received(name, block) => ReceivedAvailable(c, name, block);
    case Restart(messages) => RestartAvailable(c, messages);
  }

  lemma LeasesAvailable(c: Cluster, c': Cluster)
    requires Available(c) && c'.disks == c.disks && c' == c.(ns := c.ns.(leases := c'.ns.leases))
    ensures Available(c')
  {
    hide ListedHolder, OnDisk, BlocksAt, NodesOk;
    ListingsAvailable(c, c');
  }

  // ---- Every run ------------------------------------------------------------------------------------------

  /** A run whose last restart, if there is one, is recoverable; without one, `available` says how it starts. */
  ghost predicate RecoveringRun(c: Cluster, events: seq<Event>, c': Cluster, available: bool)
    decreases |events|
  {
    if events == [] then c == c' && available
    else
      Possible(c, events[0]) &&
      RecoveringRun(After(c, events[0]), events[1..], c', StaysAvailable(c, events[0], available))
  }

  ghost predicate StaysAvailable(c: Cluster, e: Event, available: bool) {
    if e.Restart? then Recoverable(c, e.messages) else available
  }

  lemma {:induction false} RunAvailable(c: Cluster, events: seq<Event>, c': Cluster, available: bool)
    requires Sound(c) && (available ==> Available(c)) && RecoveringRun(c, events, c', available)
    ensures Available(c') && EventRun(c, events, c')
    decreases |events|
  {
    hide Sound, Available, After, Possible, Recoverable, View, MapStep;
    if events != [] {
      EventStep(c, events[0]);
      var now := StaysAvailable(c, events[0], available);
      if now { AvailableStep(c, events[0]); }
      RunAvailable(After(c, events[0]), events[1..], c', now);
    }
  }

  /** Over every run whose last restart is recoverable, the files are those of the map. Reading one succeeds exactly
      when none of its chunks was lost, with exactly its bytes; while only the nodes in `up` can be reached, exactly
      when each chunk is at one of these, if no chunk is at two places. */
  lemma EveryRunReads(c: Cluster, events: seq<Event>, c': Cluster, available: bool, q: Path, up: set<Addr>)
    requires Sound(c) && (available ==> Available(c)) && RecoveringRun(c, events, c', available)
    ensures IsFile(c'.ns.tree, q) <==> HasFile(MapRun(View(c), events).files, q)
    ensures var files := MapRun(View(c), events).files;
            HasFile(files, q) ==>
              (Read(c', q).0 <==> AllThere(files[q].pieces)) &&
              (Read(c', q).0 ==> Read(c', q).1 == BytesOf(files[q].pieces))
    ensures var files, r := MapRun(View(c), events).files, Read(Among(c', up), q);
            HasFile(files, q) && OnePlace(files[q].pieces) ==>
              (r.0 <==> AllWithin(files[q].pieces, up)) && (r.0 ==> r.1 == BytesOf(files[q].pieces))
  {
    hide Sound, Available, ViewOf, IsFile, Read, MapRun, HasFile, RecoveringRun, EventRun, AllThere, BytesOf, OnePlace,
         AllWithin, Among;
    RunAvailable(c, events, c', available);
    EveryRunIsMapRun(c, events, c');
    ViewAt(c'.disks, c'.ns.tree, q);
    if IsFile(c'.ns.tree, q) {
      AvailableReadsIff(c', q);
      ReadsAmongIff(c', q, up);
    }
  }

  // ---- From a fresh start ---------------------------------------------------------------------------------

  ghost predicate AllOnePlace(m: Fs) {
    forall q :: HasFile(m.files, q) ==> OnePlace(m.files[q].pieces)
  }

  lemma OneMorePlace(pieces: seq<Piece>, chunk: Bytes, send: Send)
    requires OnePlace(pieces)
    ensures OnePlace(pieces + [PieceOf(chunk, send)])
  {
    var piece := PieceOf(chunk, send);
    var all := pieces + [piece];
    forall i | 0 <= i < |all| && all[i].Kept? ensures |all[i].at| <= 1 {
      if i < |pieces| { assert all[i] == pieces[i]; }
    }
  }

  lemma {:induction false} ExpireOnePlace(m: Fs, now: int, order: seq<string>)
    requires AllOnePlace(m)
    ensures AllOnePlace(MapExpire(m, now, order))
    decreases |order|
  {
    hide Fields, OnePlace;
    if order != [] {
      if order[0] in m.leases && m.leases[order[0]].expiry < now {
        ExpireOnePlace(m.(files := MapDelete(m.files, PathOf(m.leases[order[0]].path)),
                          leases := m.leases - {order[0]}), now, order[1..]);
      } else {
        ExpireOnePlace(m, now, order[1..]);
      }
    }
  }

  lemma StepOnePlace(m: Fs, e: Event)
    requires AllOnePlace(m)
    ensures AllOnePlace(MapStep(m, e))
  {
    hide Fields, OnePlace, PieceOf, GetParentDir, MapExpire;
    match e
    case StartChunk(path, chunk, _, send) =>
      assert OnePlace([]) by { NoPlaces(); }
      OneMorePlace([], chunk, send);
      assert [] + [PieceOf(chunk, send)] == [PieceOf(chunk, send)];
    case NextChunk(path, chunk, send) =>
      var p := PathOf(path);
      if HasFile(m.files, p) { OneMorePlace(m.files[p].pieces, chunk, send); }
    case Expire(now, order) => ExpireOnePlace(m, now, order);
    case _ =>
  }

  lemma NoPlaces()
    ensures OnePlace([])
  {
  }

  lemma {:induction false} RunOnePlace(m: Fs, events: seq<Event>)
    requires AllOnePlace(m)
    ensures AllOnePlace(MapRun(m, events))
    decreases |events|
  {
    hide AllOnePlace, MapStep;
    if events != [] {
      StepOnePlace(m, events[0]);
      RunOnePlace(MapStep(m, events[0]), events[1..]);
    }
  }

  /** A fresh name node over disks with whatever consistent blocks has no file that could be unavailable. */
  lemma FreshAvailable(disks: map<Addr, Disk>)
    ensures Available(Cluster(EMPTY, disks))
  {
    forall q ensures BlocksAt(ROOT, q) == [] { if q != [] { NoKidsBelow(ROOT, q); } }
  }

  const EMPTY_FS := Fs(imap[[] := Directory], false, map[])

  /** Over every run whose last restart is recoverable and that starts from a fresh name node, with whatever is on the
      disks: the files are those of the map that starts with the root only, and a path can be read from the nodes in
      `up` exactly when it is no file or each of its chunks is at one of them, with exactly the file's bytes. */
  lemma FreshRunReads(disks: map<Addr, Disk>, content: map<int, Bytes>, events: seq<Event>, c': Cluster, q: Path,
                      up: set<Addr>)
    requires Consistent(disks, content) && RecoveringRun(Cluster(EMPTY, disks), events, c', true)
    ensures var files, r := MapRun(EMPTY_FS, events).files, Read(Among(c', up), q);
            (IsFile(c'.ns.tree, q) <==> HasFile(files, q)) &&
            if HasFile(files, q) then
              (r.0 <==> AllWithin(files[q].pieces, up)) && (r.0 ==> r.1 == BytesOf(files[q].pieces))
            else r == (true, [])
  {
    hide Sound, Available, ViewOf, IsFile, Read, MapRun, HasFile, RecoveringRun, BytesOf, OnePlace, AllWithin,
         Consistent;
    var c := Cluster(EMPTY, disks);
    FreshIsEmptyMap(disks, content);
    FreshAvailable(disks);
    EveryRunReads(c, events, c', true, q, up);
    EmptyOnePlace();
    RunOnePlace(EMPTY_FS, events);
    if !IsFile(c'.ns.tree, q) { NoFileAmong(c', q, up); }
  }

  lemma EmptyOnePlace()
    ensures AllOnePlace(EMPTY_FS)
  {
  }

  lemma NoFileAmong(c: Cluster, q: Path, up: set<Addr>)
    requires !IsFile(c.ns.tree, q)
    ensures Read(Among(c, up), q) == (true, [])
  {
    hide NodeAt;
  }
}
