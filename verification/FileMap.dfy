/** The whole file system as a client sees it: a map from paths to directories and file contents. Every run of single
    chunks written by any clients, deletions, directory creations, leases, data node messages and restarts is a run of
    that map. */
module FileMap {
  import opened Options
  import opened Text
  import opened Inodes
  import opened FsImage
  import opened Namespace
  import opened Bytes
  import opened Cluster
  import opened WriteRead
  import opened WriteEffects
  import opened Recovery

  // ---- The map --------------------------------------------------------------------------------------------

  /** One chunk of a file: its bytes and the nodes that have them, or lost when they reached no disk. */
  datatype Piece = Lost | Kept(data: Bytes, at: set<Addr>)

  /** A file is its chunks in order. */
  datatype Item = Directory | Content(pieces: seq<Piece>)

  type Files = imap<Path, Item>

  /** `writable` says that a data node is registered. */
  datatype Fs = Fs(files: Files, writable: bool, leases: map<string, Lease>)

  ghost predicate HasFile(f: Files, q: Path) {
    q in f && f[q].Content?
  }

  /** The entries at and below p go; the root stays. */
  ghost function MapDelete(f: Files, p: Path): Files {
    imap q | q in f && !(p != [] && p <= q) :: f[q]
  }

  /** The prefixes of p become directories, unless one of them is a file. */
  ghost function MapMkdirs(f: Files, p: Path): Files {
    if exists k :: 0 <= k <= |p| && HasFile(f, p[..k]) then f
    else imap q | q in f || (q <= p && q != []) :: if q <= p && q != [] then Directory else f[q]
  }

  ghost predicate Creatable(f: Files, p: Path) {
    p != [] && p !in f && p[..|p| - 1] in f && f[p[..|p| - 1]].Directory?
  }

  ghost function Prepared(f: Files, path: string): Files {
    MapMkdirs(MapDelete(f, PathOf(path)), PathOf(GetParentDir(path)))
  }

  ghost predicate RefusesStart(m: Fs, path: string, overwrite: bool) {
    !m.writable || (PathOf(path) in m.files && !overwrite)
  }

  /** The first chunk: unless refused, whatever was at the path goes, and the file appears if its directory could be
      made. */
  ghost function MapStart(m: Fs, path: string, piece: Piece, overwrite: bool): Fs {
    if RefusesStart(m, path, overwrite) then m
    else
      var g := Prepared(m.files, path);
      m.(files := if Creatable(g, PathOf(path)) then g[PathOf(path) := Content([piece])] else g)
  }

  /** A further chunk is appended if there is a file. */
  ghost function MapNext(m: Fs, path: string, piece: Piece): Fs {
    var p := PathOf(path);
    if HasFile(m.files, p) then m.(files := m.files[p := Content(m.files[p].pieces + [piece])]) else m
  }

  /** Expired leases take their path's subtree and themselves away. */
  ghost function MapExpire(m: Fs, now: int, order: seq<string>): Fs
    decreases |order|
  {
    if order == [] then m
    else if order[0] in m.leases && m.leases[order[0]].expiry < now then
      MapExpire(m.(files := MapDelete(m.files, PathOf(m.leases[order[0]].path)), leases := m.leases - {order[0]}), now,
                order[1..])
    else MapExpire(m, now, order[1..])
  }

  // ---- Events ---------------------------------------------------------------------------------------------

  /** What the NameNode allocates for a chunk, and the data nodes that can be reached while it is sent. */
  datatype Send = Send(alloc: Alloc, up: set<Addr>)

  datatype Event =
    | StartChunk(path: string, chunk: Bytes, overwrite: bool, send: Send)
    | NextChunk(path: string, chunk: Bytes, send: Send)
    | Remove(path: string)
    | MakeDir(path: string)
    | Grant(holder: string, path: string, now: int)
    | Release(path: string)
    | Expire(now: int, order: seq<string>)
    | FromNode(message: Message)
    | Received(name: string, block: Block)
    | Restart(messages: seq<Message>)

  /** Generated ids are new to the tree and the disks and targets are valid; a restart finds only names that the image
      can hold. */
  ghost predicate Possible(c: Cluster, e: Event) {
    match e
    case StartChunk(_, _, _, send) => LegalSend(c, send)
    case NextChunk(_, _, send) => LegalSend(c, send)
    case Restart(_) => SpaceFree(c.ns.tree) && IdsFit(c.ns.tree)
    case _ => true
  }

  ghost predicate LegalSend(c: Cluster, send: Send) {
    LegalAlloc(c.ns, send.alloc) && !OnDisk(c.disks, send.alloc.id) && send.up <= c.disks.Keys
  }

  /** One chunk, written while only some data nodes can be reached. The disks of the others stay as they are. */
  function ChunkAmong(c: Cluster, path: string, chunk: Bytes, overwrite: bool, first: bool, send: Send): Cluster {
    var part := WriteChunk(Among(c, send.up), path, chunk, overwrite, first, send.alloc);
    Cluster(part.ns, c.disks + part.disks)
  }

  function After(c: Cluster, e: Event): Cluster {
    match e
    case StartChunk(path, chunk, overwrite, send) => ChunkAmong(c, path, chunk, overwrite, true, send)
    case NextChunk(path, chunk, send) => ChunkAmong(c, path, chunk, true, false, send)
    case Remove(path) => c.(ns := DeletePath(c.ns, path).0)
    case MakeDir(path) => c.(ns := MkdirsPath(c.ns, path))
    case Grant(holder, path, now) => c.(ns := AddLease(c.ns, holder, path, now))
    case Release(path) => c.(ns := RemoveLease(c.ns, path))
    case Expire(now, order) => c.(ns := CheckLeases(c.ns, now, order))
    case FromNode(message) => c.(ns := Receive(c.ns, message))
    case Received(name, block) => c.(ns := BlockReceived(c.ns, name, block))
    case Restart(messages) =>
      match Restarted(c.ns, messages)
      case None => c
      case Some(ns) => c.(ns := ns)
  }

  predicate SomeBeat(messages: seq<Message>) {
    exists i :: 0 <= i < |messages| && messages[i].Beat?
  }

  predicate Arrives(send: Send) {
    send.alloc.targets != [] && AddrOf(send.alloc.targets[0]) in send.up
  }

  /** The chunk is kept at its first target, if that can be reached. */
  function PieceOf(chunk: Bytes, send: Send): Piece {
    if Arrives(send) then Kept(chunk, {AddrOf(send.alloc.targets[0])}) else Lost
  }

  ghost function MapStep(m: Fs, e: Event): Fs {
    match e
    case StartChunk(path, chunk, overwrite, send) => MapStart(m, path, PieceOf(chunk, send), overwrite)
    case NextChunk(path, chunk, send) => MapNext(m, path, PieceOf(chunk, send))
    case Remove(path) => m.(files := MapDelete(m.files, PathOf(path)))
    case MakeDir(path) => m.(files := MapMkdirs(m.files, PathOf(path)))
    case Grant(holder, path, now) => m.(leases := m.leases[path := Lease(holder, path, now + LEASE_TIMEOUT)])
    case Release(path) => m.(leases := m.leases - {path})
    case Expire(now, order) => MapExpire(m, now, order)
    case FromNode(message) => m.(writable := m.writable || message.Beat?)
    case Received(_, _) => m
    case Restart(messages) => m.(writable := SomeBeat(messages), leases := map[])
  }

  // ---- What a cluster stands for --------------------------------------------------------------------------

  function Holders(disks: map<Addr, Disk>, id: int): set<Addr> {
    set a | a in disks && id in disks[a]
  }

  /** The bytes of a block and the nodes that hold it. */
  ghost function PieceAt(disks: map<Addr, Disk>, id: int): Piece {
    if OnDisk(disks, id) then
      var a :| a in disks && id in disks[a];
      Kept(disks[a][id], Holders(disks, id))
    else Lost
  }

  ghost function PiecesOf(disks: map<Addr, Disk>, blocks: seq<int>): seq<Piece> {
    seq(|blocks|, i requires 0 <= i < |blocks| => PieceAt(disks, blocks[i]))
  }

  ghost function ItemOf(disks: map<Addr, Disk>, e: Entry): Item {
    match e
    case DirEntry => Directory
    case FileEntry(blocks) => Content(PiecesOf(disks, blocks))
  }

  ghost function ViewOf(disks: map<Addr, Disk>, n: Node): Files {
    imap q: Path | EntryAt(n, q).Some? :: ItemOf(disks, EntryAt(n, q).value)
  }

  ghost function View(c: Cluster): Fs {
    Fs(ViewOf(c.disks, c.ns.tree), !InSafeMode(c.ns), c.ns.leases)
  }

  /** The tree is sound, and all copies of a block agree. */
  ghost predicate Sound(c: Cluster) {
    TreeSound(c.ns.tree) && exists content :: Consistent(c.disks, content)
  }

  lemma ViewAt(disks: map<Addr, Disk>, n: Node, q: Path)
    ensures q in ViewOf(disks, n) <==> EntryAt(n, q).Some?
    ensures q in ViewOf(disks, n) ==> ViewOf(disks, n)[q] == ItemOf(disks, EntryAt(n, q).value)
    ensures HasFile(ViewOf(disks, n), q) <==> IsFile(n, q)
  {
    hide NodeAt, PieceAt;
  }

  /** Two views agree when they do at every path. */
  lemma SameViews(f: Files, g: Files)
    requires forall q :: (q in f <==> q in g) && (q in f ==> f[q] == g[q])
    ensures f == g
  {
  }

  // ---- Deleting and making directories, on any tree -------------------------------------------------------

  lemma DeleteView(disks: map<Addr, Disk>, n: Node, p: Path)
    requires n.Dir? && WellFormed(n)
    ensures ViewOf(disks, DeletedIfPresent(n, p)) == MapDelete(ViewOf(disks, n), p)
  {
    hide NodeAt, WellFormed, ItemOf, EntryAt, DeletedIfPresent, ViewOf;
    var n' := DeletedIfPresent(n, p);
    forall q ensures (q in ViewOf(disks, n') <==> q in MapDelete(ViewOf(disks, n), p))
      ensures q in ViewOf(disks, n') ==> ViewOf(disks, n')[q] == MapDelete(ViewOf(disks, n), p)[q]
    {
      DeletedEntries(n, p, q);
      ViewAt(disks, n, q);
      ViewAt(disks, n', q);
    }
    SameViews(ViewOf(disks, n'), MapDelete(ViewOf(disks, n), p));
  }

  lemma MkdirsView(disks: map<Addr, Disk>, n: Node, path: string)
    requires n.Dir?
    ensures ViewOf(disks, AfterMkdirs(n, path)) == MapMkdirs(ViewOf(disks, n), PathOf(path))
  {
    hide NodeAt, WellFormed, ItemOf, EntryAt, IsFile, AfterMkdirs, ViewOf, Fields, HasFile;
    var p := PathOf(path);
    var f, n' := ViewOf(disks, n), AfterMkdirs(n, path);
    forall k | 0 <= k <= |p| ensures HasFile(f, p[..k]) <==> IsFile(n, p[..k]) { ViewAt(disks, n, p[..k]); }
    MkdirsSeen(n, path, []);
    if forall k :: 0 <= k <= |p| ==> !IsFile(n, p[..k]) {
      DirItem(disks);
      forall q ensures (q in ViewOf(disks, n') <==> q in MapMkdirs(f, p))
        ensures q in ViewOf(disks, n') ==> ViewOf(disks, n')[q] == MapMkdirs(f, p)[q]
      {
        MkdirsSeen(n, path, q);
        ViewAt(disks, n, q);
        ViewAt(disks, n', q);
      }
      SameViews(ViewOf(disks, n'), MapMkdirs(f, p));
    }
  }

  lemma DirItem(disks: map<Addr, Disk>)
    ensures ItemOf(disks, DirEntry) == Directory
  {
  }

  lemma PreparedView(disks: map<Addr, Disk>, n: Node, path: string)
    requires n.Dir? && WellFormed(n)
    ensures ViewOf(disks, PreparedTree(n, path)) == Prepared(ViewOf(disks, n), path)
  {
    hide ViewOf, AfterMkdirs, DeletedIfPresent, Fields, WellFormed, GetParentDir, MapMkdirs, MapDelete;
    DeleteView(disks, n, PathOf(path));
    DeletedKeepsDir(n, PathOf(path));
    MkdirsView(disks, DeletedIfPresent(n, PathOf(path)), GetParentDir(path));
  }

  lemma DeletedKeepsDir(n: Node, p: Path)
    requires n.Dir? && WellFormed(n)
    ensures DeletedIfPresent(n, p).Dir? && WellFormed(DeletedIfPresent(n, p))
  {
    hide WellFormed, Without;
    if Without(n, p).Some? { DeleteWellFormed(n, p); }
  }

  lemma CreatableIs(disks: map<Addr, Disk>, t: Node, p: Path)
    ensures Creatable(ViewOf(disks, t), p) <==> WithFile(t, p).Some?
  {
    hide NodeAt, EntryAt, WithFile;
    CreateFileEntries(t, p, p);
    if p != [] {
      ViewAt(disks, t, p);
      ViewAt(disks, t, p[..|p| - 1]);
      ItemIsDir(disks, t, p[..|p| - 1]);
    }
  }

  lemma ItemIsDir(disks: map<Addr, Disk>, t: Node, q: Path)
    ensures EntryAt(t, q).Some? ==> (ItemOf(disks, EntryAt(t, q).value).Directory? <==> IsDir(t, q))
  {
    hide NodeAt, PieceAt;
  }

  // ---- The tree stays sound -------------------------------------------------------------------------------

  lemma DeleteSound(n: Node, p: Path)
    requires TreeSound(n)
    ensures TreeSound(DeletedIfPresent(n, p))
  {
    hide TreeSound, TreeOk, DeletedIfPresent, Cover;
    TreeSoundIff(n);
    DeletedSound(n, p, Cover(n));
    TreeSoundIff(DeletedIfPresent(n, p));
  }

  lemma PreparedKeepsSound(n: Node, path: string)
    requires TreeSound(n)
    ensures TreeSound(PreparedTree(n, path)) && Blocks(PreparedTree(n, path)) <= Blocks(n)
  {
    hide TreeSound, TreeOk, PreparedTree, Cover, Blocks;
    TreeSoundIff(n);
    PreparedSound(n, path, Cover(n));
    TreeSoundIff(PreparedTree(n, path));
  }

  lemma CreatedSound(t: Node, path: string, id: int)
    requires TreeSound(t) && WithFile(t, PathOf(path)).Some? && id !in Blocks(t)
    ensures IsFile(WithFile(t, PathOf(path)).value, PathOf(path))
    ensures TreeSound(WithBlock(WithFile(t, PathOf(path)).value, PathOf(path), id))
  {
    hide TreeSound, TreeOk, WithFile, WithBlock, Cover, Blocks, NodeAt, Fields;
    TreeSoundIff(t);
    FileSound(t, path, Cover(t));
    var t' := WithFile(t, PathOf(path)).value;
    BlockSound(t', PathOf(path), id, Cover(t), []);
    TreeSoundIff(WithBlock(t', PathOf(path), id));
  }

  lemma AppendedSound(n: Node, p: Path, id: int)
    requires TreeSound(n) && IsFile(n, p) && id !in Blocks(n)
    ensures TreeSound(WithBlock(n, p, id))
  {
    hide TreeSound, TreeOk, WithBlock, Cover, Blocks, NodeAt;
    TreeSoundIff(n);
    BlockSound(n, p, id, Cover(n), []);
    TreeSoundIff(WithBlock(n, p, id));
  }

  lemma SoundDir(n: Node)
    requires TreeSound(n)
    ensures n.Dir? && WellFormed(n) && n.name == ""
  {
  }

  // ---- One chunk ------------------------------------------------------------------------------------------

  lemma PieceIs(disks: map<Addr, Disk>, content: map<int, Bytes>, id: int)
    requires Consistent(disks, content)
    ensures PieceAt(disks, id) == if OnDisk(disks, id) then Kept(content[id], Holders(disks, id)) else Lost
    ensures OnDisk(disks, id) ==> id in content
    ensures OnDisk(disks, id) <==> Holders(disks, id) != {}
  {
    if OnDisk(disks, id) {
      var a :| a in disks && id in disks[a];
      assert a in Holders(disks, id);
    }
    if Holders(disks, id) != {} {
      var a :| a in Holders(disks, id);
    }
  }

  function StoreAmong(disks: map<Addr, Disk>, send: Send, chunk: Bytes): map<Addr, Disk> {
    if Arrives(send) then StoreChunk(disks, send.alloc.id, send.alloc.targets, chunk) else disks
  }

  lemma MergedStore(c: Cluster, send: Send, chunk: Bytes)
    requires send.up <= c.disks.Keys
    ensures c.disks + Among(c, send.up).disks == c.disks
    ensures c.disks + StoreChunk(Among(c, send.up).disks, send.alloc.id, send.alloc.targets, chunk)
         == StoreAmong(c.disks, send, chunk)
  {
    assert forall a :: a in c.disks <==> a in c.disks.Keys;
  }

  /** Storing a chunk under a new id adds its piece and changes no other. */
  lemma PieceAfter(disks: map<Addr, Disk>, send: Send, chunk: Bytes, content: map<int, Bytes>, id: int)
    requires Consistent(disks, content) && !OnDisk(disks, send.alloc.id) && send.up <= disks.Keys
    ensures var disks' := StoreAmong(disks, send, chunk);
            Consistent(disks', content[send.alloc.id := chunk]) && disks'.Keys == disks.Keys &&
            PieceAt(disks', id) == if id == send.alloc.id then PieceOf(chunk, send) else PieceAt(disks, id)
  {
    hide PieceAt, OnDisk;
    var disks' := StoreAmong(disks, send, chunk);
    StoreKeys(disks, send.alloc.id, send.alloc.targets, chunk);
    NewHolders(disks, send, chunk, id);
    ConsistentAfter(disks, send, chunk, content);
    PieceIs(disks, content, send.alloc.id);
    PieceIs(disks, content, id);
    PieceIs(disks', content[send.alloc.id := chunk], id);
  }

  lemma ConsistentAfter(disks: map<Addr, Disk>, send: Send, chunk: Bytes, content: map<int, Bytes>)
    requires Consistent(disks, content) && !OnDisk(disks, send.alloc.id)
    ensures Consistent(StoreAmong(disks, send, chunk), content[send.alloc.id := chunk])
  {
  }

  lemma NewHolders(disks: map<Addr, Disk>, send: Send, chunk: Bytes, id: int)
    requires send.up <= disks.Keys && !OnDisk(disks, send.alloc.id)
    ensures Holders(StoreAmong(disks, send, chunk), id)
         == if id != send.alloc.id then Holders(disks, id)
            else if Arrives(send) then {AddrOf(send.alloc.targets[0])} else {}
  {
    assert forall a :: a in disks <==> a in disks.Keys;
  }

  /** The entries of t that are not at p, in the disks after the chunk, and the new file at p. */
  lemma ChunkView(disks: map<Addr, Disk>, t: Node, t': Node, p: Path, blocks: seq<int>, send: Send, chunk: Bytes,
                  content: map<int, Bytes>)
    requires Consistent(disks, content) && !OnDisk(disks, send.alloc.id) && send.up <= disks.Keys
    requires send.alloc.id !in Blocks(t) && send.alloc.id !in blocks
    requires forall q :: q != p ==> EntryAt(t', q) == EntryAt(t, q)
    requires EntryAt(t', p) == Some(FileEntry(blocks + [send.alloc.id]))
    ensures ViewOf(StoreAmong(disks, send, chunk), t')
         == ViewOf(disks, t)[p := Content(PiecesOf(disks, blocks) + [PieceOf(chunk, send)])]
  {
    hide NodeAt, EntryAt, ViewOf, PieceAt, StoreAmong, Blocks, Consistent, OnDisk, PieceOf;
    var disks' := StoreAmong(disks, send, chunk);
    var id := send.alloc.id;
    var f := ViewOf(disks, t)[p := Content(PiecesOf(disks, blocks) + [PieceOf(chunk, send)])];
    forall q ensures (q in ViewOf(disks', t') <==> q in f) ensures q in f ==> ViewOf(disks', t')[q] == f[q] {
      ViewAt(disks, t, q);
      ViewAt(disks', t', q);
      if q == p {
        SameItem(disks, send, chunk, content, blocks);
        PieceAfter(disks, send, chunk, content, id);
        assert PiecesOf(disks', blocks + [id]) == PiecesOf(disks', blocks) + [PieceAt(disks', id)];
      } else {
        assert EntryAt(t', q) == EntryAt(t, q);
        if EntryAt(t, q).Some? && EntryAt(t, q).value.FileEntry? {
          EntryBlocks(t, q);
          NotInFile(t, q, id);
          SameItem(disks, send, chunk, content, EntryAt(t, q).value.blocks);
        }
      }
    }
    SameViews(ViewOf(disks', t'), f);
  }

  lemma EntryBlocks(t: Node, q: Path)
    requires EntryAt(t, q).Some? && EntryAt(t, q).value.FileEntry?
    ensures IsFile(t, q) && BlocksAt(t, q) == EntryAt(t, q).value.blocks
  {
    hide NodeAt;
  }

  lemma FileEntryOf(t: Node, q: Path)
    requires IsFile(t, q)
    ensures EntryAt(t, q) == Some(FileEntry(BlocksAt(t, q)))
  {
    hide NodeAt;
  }

  lemma SameItem(disks: map<Addr, Disk>, send: Send, chunk: Bytes, content: map<int, Bytes>, blocks: seq<int>)
    requires Consistent(disks, content) && !OnDisk(disks, send.alloc.id) && send.up <= disks.Keys
    requires send.alloc.id !in blocks
    ensures PiecesOf(StoreAmong(disks, send, chunk), blocks) == PiecesOf(disks, blocks)
  {
    hide PieceAt, StoreAmong, Consistent, OnDisk;
    forall i | 0 <= i < |blocks| ensures PieceAt(StoreAmong(disks, send, chunk), blocks[i]) == PieceAt(disks, blocks[i])
    {
      PieceAfter(disks, send, chunk, content, blocks[i]);
    }
  }

  /** What a first chunk does to the cluster, case by case. */
  lemma StartShape(c: Cluster, path: string, chunk: Bytes, overwrite: bool, send: Send)
    requires send.up <= c.disks.Keys
    ensures var c' := ChunkAmong(c, path, chunk, overwrite, true, send);
            var p := PathOf(path);
            var t := PreparedTree(c.ns.tree, path);
            if InSafeMode(c.ns) || (NodeAt(c.ns.tree, p).Some? && !overwrite) then c' == c
            else if WithFile(t, p).None? then c' == c.(ns := c.ns.(tree := t))
            else IsFile(WithFile(t, p).value, p) &&
                 c' == Cluster(c.ns.(tree := WithBlock(WithFile(t, p).value, p, send.alloc.id),
                                     locs := c.ns.locs[send.alloc.id := send.alloc.targets]),
                               StoreAmong(c.disks, send, chunk))
  {
    hide Fields, NodeAt, StoreChunk, WithBlock, WithFile, PreparedTree, WriteChunk, StoreAmong;
    var p := PathOf(path);
    var t := PreparedTree(c.ns.tree, path);
    var part, alloc := Among(c, send.up), send.alloc;
    MergedStore(c, send, chunk);
    CreateFileEntries(t, p, p);
    if InSafeMode(c.ns) || (NodeAt(c.ns.tree, p).Some? && !overwrite) || WithFile(t, p).None? {
      RefusedChunk(part, path, chunk, overwrite, true, alloc);
    } else {
      ChunkWritten(part, StartFile(c.ns, path, overwrite, alloc.id, alloc.targets).0, alloc, chunk, path, overwrite,
                   true);
    }
  }

  lemma CreatedEntries(t: Node, p: Path, id: int, q: Path)
    requires WithFile(t, p).Some? && IsFile(WithFile(t, p).value, p)
    ensures EntryAt(WithBlock(WithFile(t, p).value, p, id), q)
         == if q == p then Some(FileEntry([id])) else EntryAt(t, q)
  {
    hide NodeAt, WithBlock, WithFile;
    CreateFileEntries(t, p, p);
    CreateFileEntries(t, p, q);
    AppendBlockEntries(WithFile(t, p).value, p, id, q);
    EntryBlocks(WithFile(t, p).value, p);
    assert [] + [id] == [id];
  }

  lemma StartStep(c: Cluster, path: string, chunk: Bytes, overwrite: bool, send: Send)
    requires Sound(c) && LegalSend(c, send)
    ensures var c' := ChunkAmong(c, path, chunk, overwrite, true, send);
            Sound(c') && c'.disks.Keys == c.disks.Keys &&
            View(c') == MapStart(View(c), path, PieceOf(chunk, send), overwrite)
  {
    hide Fields, NodeAt, EntryAt, ChunkAmong, ViewOf, PreparedTree, WithFile, WithBlock, Prepared, Consistent,
         Creatable, GetParentDir, TreeSound, StoreAmong, OnDisk, ValidTargets, Blocks, PieceOf;
    var p, id := PathOf(path), send.alloc.id;
    var n := c.ns.tree;
    var t := PreparedTree(n, path);
    var content :| Consistent(c.disks, content);
    SoundDir(n);
    ViewAt(c.disks, n, p);
    PresentEntry(n, p);
    StartShape(c, path, chunk, overwrite, send);
    PreparedView(c.disks, n, path);
    PreparedKeepsSound(n, path);
    CreatableIs(c.disks, t, p);
    if !InSafeMode(c.ns) && (NodeAt(n, p).None? || overwrite) && WithFile(t, p).Some? {
      CreatedSound(t, path, id);
      var t' := WithBlock(WithFile(t, p).value, p, id);
      forall q ensures EntryAt(t', q) == if q == p then Some(FileEntry([id])) else EntryAt(t, q) {
        CreatedEntries(t, p, id, q);
      }
      assert [] + [id] == [id];
      ChunkView(c.disks, t, t', p, [], send, chunk, content);
      assert PiecesOf(c.disks, []) + [PieceOf(chunk, send)] == [PieceOf(chunk, send)];
      PieceAfter(c.disks, send, chunk, content, id);
    }
  }

  lemma PresentEntry(n: Node, p: Path)
    ensures EntryAt(n, p).Some? <==> NodeAt(n, p).Some?
  {
  }

  lemma NextShape(c: Cluster, path: string, chunk: Bytes, overwrite: bool, send: Send)
    requires send.up <= c.disks.Keys
    ensures var c' := ChunkAmong(c, path, chunk, overwrite, false, send);
            var p := PathOf(path);
            if !IsFile(c.ns.tree, p) then c' == c
            else c' == Cluster(c.ns.(tree := WithBlock(c.ns.tree, p, send.alloc.id),
                                     locs := c.ns.locs[send.alloc.id := send.alloc.targets]),
                               StoreAmong(c.disks, send, chunk))
  {
    hide Fields, NodeAt, StoreChunk, WithBlock, WriteChunk, StoreAmong;
    var part, alloc := Among(c, send.up), send.alloc;
    MergedStore(c, send, chunk);
    if IsFile(c.ns.tree, PathOf(path)) {
      ChunkWritten(part, AddBlock(c.ns, path, alloc.id, alloc.targets).0, alloc, chunk, path, overwrite, false);
    } else {
      RefusedChunk(part, path, chunk, overwrite, false, alloc);
    }
  }

  lemma NextStep(c: Cluster, path: string, chunk: Bytes, overwrite: bool, send: Send)
    requires Sound(c) && LegalSend(c, send)
    ensures var c' := ChunkAmong(c, path, chunk, overwrite, false, send);
            Sound(c') && c'.disks.Keys == c.disks.Keys && View(c') == MapNext(View(c), path, PieceOf(chunk, send))
  {
    hide Fields, NodeAt, EntryAt, ChunkAmong, ViewOf, WithBlock, Consistent, TreeSound, StoreAmong, OnDisk,
         ValidTargets, Blocks, PieceOf, IsFile, BlocksAt, HasFile, PieceAt;
    var p, id := PathOf(path), send.alloc.id;
    var n := c.ns.tree;
    var content :| Consistent(c.disks, content);
    ViewAt(c.disks, n, p);
    NextShape(c, path, chunk, overwrite, send);
    if IsFile(n, p) {
      AppendedSound(n, p, id);
      FileEntryOf(n, p);
      var blocks := BlocksAt(n, p);
      NotInFile(n, p, id);
      forall q ensures EntryAt(WithBlock(n, p, id), q)
                    == if q == p then Some(FileEntry(blocks + [id])) else EntryAt(n, q)
      {
        AppendedEntries(n, p, id, q);
      }
      ChunkView(c.disks, n, WithBlock(n, p, id), p, blocks, send, chunk, content);
      PieceAfter(c.disks, send, chunk, content, id);
    }
  }

  lemma AppendedEntries(n: Node, p: Path, id: int, q: Path)
    requires IsFile(n, p)
    ensures EntryAt(WithBlock(n, p, id), q) == if q == p then Some(FileEntry(BlocksAt(n, p) + [id])) else EntryAt(n, q)
  {
    hide NodeAt, WithBlock;
    AppendBlockEntries(n, p, id, q);
  }

  // ---- The other events -----------------------------------------------------------------------------------

  lemma RemoveStep(c: Cluster, path: string)
    requires Sound(c)
    ensures var c' := After(c, Remove(path)); Sound(c') && View(c') == MapStep(View(c), Remove(path))
  {
    hide Fields, NodeAt, ViewOf, DeletedIfPresent, MapDelete, Consistent, TreeSound, Without;
    var n, p := c.ns.tree, PathOf(path);
    SoundDir(n);
    DeleteSound(n, p);
    DeleteView(c.disks, n, p);
    if NodeAt(n, p).None? { NothingDeleted(n, p); }
  }

  lemma MakeDirStep(c: Cluster, path: string)
    requires Sound(c)
    ensures var c' := After(c, MakeDir(path)); Sound(c') && View(c') == MapStep(View(c), MakeDir(path))
  {
    hide Fields, NodeAt, ViewOf, AfterMkdirs, MapMkdirs, Consistent, TreeSound, TreeOk, Cover;
    var n := c.ns.tree;
    SoundDir(n);
    TreeSoundIff(n);
    MkdirsSound(n, path, Cover(n));
    TreeSoundIff(AfterMkdirs(n, path));
    MkdirsView(c.disks, n, path);
  }

  lemma {:induction false} ExpireStep(c: Cluster, now: int, order: seq<string>)
    requires Sound(c)
    ensures var c' := c.(ns := CheckLeases(c.ns, now, order)); Sound(c') && View(c') == MapExpire(View(c), now, order)
    decreases |order|
  {
    hide Fields, ViewOf, DeletedIfPresent, MapDelete, Consistent, TreeSound;
    if order != [] {
      if order[0] in c.ns.leases && c.ns.leases[order[0]].expiry < now {
        var p := PathOf(c.ns.leases[order[0]].path);
        SoundDir(c.ns.tree);
        DeleteSound(c.ns.tree, p);
        DeleteView(c.disks, c.ns.tree, p);
        var ns1 := c.ns.(tree := DeletedIfPresent(c.ns.tree, p), leases := c.ns.leases - {order[0]});
        ExpireStep(c.(ns := ns1), now, order[1..]);
      } else {
        ExpireStep(c, now, order[1..]);
      }
    }
  }

  lemma {:induction false} BeatsOpen(ns: Ns, messages: seq<Message>)
    ensures var ns' := ReceiveAll(ns, messages);
            (ns'.datanodes != map[] <==> ns.datanodes != map[] || SomeBeat(messages)) &&
            ns'.tree == ns.tree && ns'.leases == ns.leases
  {
    hide NodeName, ReportAll;
    if messages != [] {
      var init, m := messages[..|messages| - 1], messages[|messages| - 1];
      BeatsOpen(ns, init);
      BeatLast(messages);
      var before := ReceiveAll(ns, init);
      if m.Beat? {
        assert NodeName(m.port) in Receive(before, m).datanodes;
      }
    }
  }

  lemma BeatLast(messages: seq<Message>)
    requires messages != []
    ensures SomeBeat(messages) <==> SomeBeat(messages[..|messages| - 1]) || messages[|messages| - 1].Beat?
  {
    var init := messages[..|messages| - 1];
    if SomeBeat(messages) {
      var i :| 0 <= i < |messages| && messages[i].Beat?;
      if i < |init| { assert init[i].Beat?; }
    }
    if SomeBeat(init) {
      var i :| 0 <= i < |init| && init[i].Beat?;
      assert messages[i].Beat?;
    }
  }

  /** A restart, with whatever messages, changes no file. */
  lemma RestartStep(c: Cluster, messages: seq<Message>)
    requires Sound(c) && SpaceFree(c.ns.tree) && IdsFit(c.ns.tree)
    ensures Restarted(c.ns, messages) == Some(ReceiveAll(EMPTY.(tree := c.ns.tree), messages))
    ensures var c' := After(c, Restart(messages));
            Sound(c') && View(c') == MapStep(View(c), Restart(messages))
  {
    hide ViewOf, Consistent, TreeSound, ReceiveAll, LoadText, SaveText, SpaceFree, IdsFit, WellFormed;
    SoundDir(c.ns.tree);
    ImageLoads(c.ns.tree);
    BeatsOpen(EMPTY.(tree := c.ns.tree), messages);
  }

  lemma MessageStep(c: Cluster, m: Message)
    requires Sound(c)
    ensures var c' := After(c, FromNode(m)); Sound(c') && View(c') == MapStep(View(c), FromNode(m))
  {
    hide ViewOf, Consistent, TreeSound, NodeName, ReportAll;
    if m.Beat? { assert NodeName(m.port) in Receive(c.ns, m).datanodes; }
  }

  /** One event is one step of the map. */
  lemma EventStep(c: Cluster, e: Event)
    requires Sound(c) && Possible(c, e)
    ensures Sound(After(c, e)) && After(c, e).disks.Keys == c.disks.Keys
    ensures View(After(c, e)) == MapStep(View(c), e)
  {
    hide ViewOf, MapStart, MapNext, MapDelete, MapMkdirs, MapExpire, ChunkAmong, DeletePath, MkdirsPath, Receive,
         Restarted, CheckLeases, Fields, Consistent, TreeSound, LegalAlloc, SpaceFree, IdsFit, OnDisk, PieceOf;
    match e
    case StartChunk(path, chunk, overwrite, send) => StartStep(c, path, chunk, overwrite, send);
    case NextChunk(path, chunk, send) => NextStep(c, path, chunk, true, send);
    case Remove(path) => RemoveStep(c, path);
    case MakeDir(path) => MakeDirStep(c, path);
    case Grant(holder, path, now) =>
    case Release(path) =>
    case Expire(now, order) => ExpireStep(c, now, order);
    case FromNode(message) => MessageStep(c, message);
    case Received(name, block) =>
    case Restart(messages) => RestartStep(c, messages);
  }

  // ---- Every run ------------------------------------------------------------------------------------------

  ghost predicate EventRun(c: Cluster, events: seq<Event>, c': Cluster)
    decreases |events|
  {
    if events == [] then c == c' else Possible(c, events[0]) && EventRun(After(c, events[0]), events[1..], c')
  }

  ghost function MapRun(m: Fs, events: seq<Event>): Fs
    decreases |events|
  {
    if events == [] then m else MapRun(MapStep(m, events[0]), events[1..])
  }

  /** Over every run, the tree, the block lists and the disks together are the map. */
  lemma {:induction false} EveryRunIsMapRun(c: Cluster, events: seq<Event>, c': Cluster)
    requires Sound(c) && EventRun(c, events, c')
    ensures Sound(c') && c'.disks.Keys == c.disks.Keys && View(c') == MapRun(View(c), events)
    decreases |events|
  {
    hide Sound, View, After, MapStep, Possible;
    if events != [] {
      EventStep(c, events[0]);
      EveryRunIsMapRun(After(c, events[0]), events[1..], c');
    }
  }

  /** A fresh name node over disks with whatever consistent blocks is the map that holds only the root. */
  lemma FreshIsEmptyMap(disks: map<Addr, Disk>, content: map<int, Bytes>)
    requires Consistent(disks, content)
    ensures var c := Cluster(EMPTY, disks); Sound(c) && View(c) == Fs(imap[[] := Directory], false, map[])
  {
    var c := Cluster(EMPTY, disks);
    forall q: Path ensures EntryAt(ROOT, q) == if q == [] then Some(DirEntry) else None {
      if q != [] { NoKidsBelow(ROOT, q); }
    }
    assert Blocks(ROOT) == multiset{};
    assert TreeSound(ROOT);
    var f: Files := imap[[] := Directory];
    forall q ensures (q in View(c).files <==> q in f) ensures q in f ==> View(c).files[q] == f[q] {
      ViewAt(disks, ROOT, q);
    }
    SameViews(View(c).files, f);
  }

  // ---- Whole writes ---------------------------------------------------------------------------------------

  function NextChunks(path: string, data: Bytes, blockSize: int, sends: seq<Send>): seq<Event>
    requires blockSize >= 1 && |sends| == Chunks(|data|, blockSize)
    decreases |data|
  {
    if data == [] then []
    else
      var n := ChunkSize(blockSize, |data|);
      [NextChunk(path, data[..n], sends[0])] + NextChunks(path, data[n..], blockSize, sends[1..])
  }

  /** The events of one WriteFile call; there are none when there is nothing to write. */
  function WriteEvents(path: string, data: Bytes, blockSize: int, overwrite: bool, sends: seq<Send>): seq<Event>
    requires blockSize >= 1 && |sends| == Chunks(|data|, blockSize)
  {
    if data == [] then []
    else
      var n := ChunkSize(blockSize, |data|);
      [StartChunk(path, data[..n], overwrite, sends[0])] + NextChunks(path, data[n..], blockSize, sends[1..])
  }

  function PiecesSent(data: Bytes, blockSize: int, sends: seq<Send>): seq<Piece>
    requires blockSize >= 1 && |sends| == Chunks(|data|, blockSize)
    decreases |data|
  {
    if data == [] then []
    else
      var n := ChunkSize(blockSize, |data|);
      [PieceOf(data[..n], sends[0])] + PiecesSent(data[n..], blockSize, sends[1..])
  }

  /** WriteFile on the map: nothing happens without chunks; refused at the first chunk, all others are still appended
      to a file that is there. */
  ghost function MapWrite(m: Fs, path: string, pieces: seq<Piece>, overwrite: bool): Fs {
    var p := PathOf(path);
    if pieces == [] then m
    else if RefusesStart(m, path, overwrite) then MapAppend(m, path, pieces[1..])
    else
      var g := Prepared(m.files, path);
      m.(files := if Creatable(g, p) then g[p := Content(pieces)] else g)
  }

  ghost function MapAppend(m: Fs, path: string, pieces: seq<Piece>): Fs {
    var p := PathOf(path);
    if HasFile(m.files, p) then m.(files := m.files[p := Content(m.files[p].pieces + pieces)]) else m
  }

  lemma {:induction false} NextsAppend(m: Fs, path: string, data: Bytes, blockSize: int, sends: seq<Send>)
    requires blockSize >= 1 && |sends| == Chunks(|data|, blockSize)
    ensures MapRun(m, NextChunks(path, data, blockSize, sends))
         == MapAppend(m, path, PiecesSent(data, blockSize, sends))
    decreases |data|
  {
    hide Fields, PieceOf;
    var p := PathOf(path);
    if data == [] {
      if HasFile(m.files, p) {
        assert m.files[p].pieces + [] == m.files[p].pieces;
        assert m.files[p := m.files[p]] == m.files;
      }
    } else {
      var n := ChunkSize(blockSize, |data|);
      var piece := PieceOf(data[..n], sends[0]);
      var events := NextChunks(path, data, blockSize, sends);
      var rest := PiecesSent(data[n..], blockSize, sends[1..]);
      assert events[0] == NextChunk(path, data[..n], sends[0]);
      assert events[1..] == NextChunks(path, data[n..], blockSize, sends[1..]);
      var m1 := MapNext(m, path, piece);
      assert MapStep(m, events[0]) == m1;
      NextsAppend(m1, path, data[n..], blockSize, sends[1..]);
      if HasFile(m.files, p) {
        assert m1.files[p].pieces == m.files[p].pieces + [piece];
        assert (m.files[p].pieces + [piece]) + rest == m.files[p].pieces + ([piece] + rest);
        assert m.files[p := m1.files[p]][p := Content(m1.files[p].pieces + rest)]
            == m.files[p := Content(m1.files[p].pieces + rest)];
      }
    }
  }

  lemma NotCreatedNoFile(f: Files, path: string)
    requires !HasFile(f, [])
    ensures !HasFile(Prepared(f, path), PathOf(path))
  {
    hide Fields, GetParentDir;
  }

  /** A whole WriteFile is one write of the map, in every case. */
  lemma WriteIsMapWrite(m: Fs, path: string, data: Bytes, blockSize: int, overwrite: bool, sends: seq<Send>)
    requires blockSize >= 1 && |sends| == Chunks(|data|, blockSize) && !HasFile(m.files, [])
    ensures MapRun(m, WriteEvents(path, data, blockSize, overwrite, sends))
         == MapWrite(m, path, PiecesSent(data, blockSize, sends), overwrite)
  {
    hide Fields, PieceOf, Prepared, MapRun, GetParentDir, Creatable, Chunks;
    if data == [] {
      RunEnd(m);
    } else {
      var p := PathOf(path);
      var n := ChunkSize(blockSize, |data|);
      ChunksStep(data, blockSize);
      var events := WriteEvents(path, data, blockSize, overwrite, sends);
      var rest := NextChunks(path, data[n..], blockSize, sends[1..]);
      var piece, more := PieceOf(data[..n], sends[0]), PiecesSent(data[n..], blockSize, sends[1..]);
      assert events[1..] == rest;
      var m1 := MapStart(m, path, piece, overwrite);
      RunUnfold(m, events);
      NextsAppend(m1, path, data[n..], blockSize, sends[1..]);
      var pieces := PiecesSent(data, blockSize, sends);
      assert pieces == [piece] + more && pieces[1..] == more;
      if !RefusesStart(m, path, overwrite) {
        var g := Prepared(m.files, path);
        if Creatable(g, p) {
          assert g[p := Content([piece])][p := Content(pieces)] == g[p := Content(pieces)];
        } else {
          NotCreatedNoFile(m.files, path);
        }
      }
    }
  }

  lemma ChunksStep(data: Bytes, blockSize: int)
    requires blockSize >= 1 && data != []
    ensures var n := ChunkSize(blockSize, |data|);
            Chunks(|data|, blockSize) == 1 + Chunks(|data[n..]|, blockSize)
  {
  }

  lemma RunUnfold(m: Fs, events: seq<Event>)
    requires events != []
    ensures MapRun(m, events) == MapRun(MapStep(m, events[0]), events[1..])
  {
    hide MapStep;
  }

  lemma RunEnd(m: Fs)
    ensures MapRun(m, []) == m
  {
  }

  // ---- WriteFile is such a run ----------------------------------------------------------------------------

  /** All chunks are sent while all data nodes can be reached. */
  function SendsOf(allocs: seq<Alloc>, up: set<Addr>): (r: seq<Send>)
    ensures |r| == |allocs|
  {
    seq(|allocs|, i requires 0 <= i < |allocs| => Send(allocs[i], up))
  }

  lemma SendsUnfold(allocs: seq<Alloc>, up: set<Addr>)
    requires allocs != []
    ensures SendsOf(allocs, up) == [Send(allocs[0], up)] + SendsOf(allocs[1..], up)
    ensures SendsOf(allocs, up)[1..] == SendsOf(allocs[1..], up)
  {
  }

  lemma AmongAll(c: Cluster, path: string, chunk: Bytes, overwrite: bool, first: bool, alloc: Alloc)
    ensures ChunkAmong(c, path, chunk, overwrite, first, Send(alloc, c.disks.Keys))
         == WriteChunk(c, path, chunk, overwrite, first, alloc)
  {
    hide Allocate, ConfirmAll;
    assert c.disks - (c.disks.Keys - c.disks.Keys) == c.disks;
    assert Among(c, c.disks.Keys) == c;
    var (ns, (block, targets)) := Allocate(c.ns, path, overwrite, first, alloc);
    var disks' := StoreChunk(c.disks, block.id, targets, chunk);
    StoreKeys(c.disks, block.id, targets, chunk);
    assert forall a :: a in c.disks <==> a in c.disks.Keys;
    assert forall a :: a in disks' <==> a in disks'.Keys;
    assert c.disks + disks' == disks';
  }

  /** What a chunk leaves usable: the other new ids stay new, and the nodes are the same. */
  lemma ChunkKeepsLegal(c: Cluster, path: string, chunk: Bytes, overwrite: bool, first: bool, send: Send, other: Alloc)
    requires Sound(c) && LegalSend(c, send)
    requires LegalAlloc(c.ns, other) && !OnDisk(c.disks, other.id) && other.id != send.alloc.id
    ensures var c' := ChunkAmong(c, path, chunk, overwrite, first, send);
            LegalAlloc(c'.ns, other) && !OnDisk(c'.disks, other.id)
  {
    hide Fields, NodeAt, EntryAt, ChunkAmong, PreparedTree, WithFile, WithBlock, Consistent, TreeSound, StoreAmong,
         OnDisk, ValidTargets, Blocks;
    var p := PathOf(path);
    StillNew(c.disks, send, chunk, other.id);
    if first {
      StartShape(c, path, chunk, overwrite, send);
      PreparedKeepsSound(c.ns.tree, path);
      var t := PreparedTree(c.ns.tree, path);
      if WithFile(t, p).Some? && IsFile(WithFile(t, p).value, p) {
        CreateFileBlocks(t, p);
        AppendBlockBlocks(WithFile(t, p).value, p, send.alloc.id);
      }
    } else {
      NextShape(c, path, chunk, overwrite, send);
      if IsFile(c.ns.tree, p) { AppendBlockBlocks(c.ns.tree, p, send.alloc.id); }
    }
  }

  lemma StillNew(disks: map<Addr, Disk>, send: Send, chunk: Bytes, id: int)
    requires !OnDisk(disks, id) && id != send.alloc.id
    ensures !OnDisk(StoreAmong(disks, send, chunk), id)
  {
  }

  ghost predicate NewAllocs(c: Cluster, allocs: seq<Alloc>) {
    (forall k :: 0 <= k < |allocs| ==> LegalAlloc(c.ns, allocs[k]) && !OnDisk(c.disks, allocs[k].id)) &&
    (forall j, k :: 0 <= j < k < |allocs| ==> allocs[j].id != allocs[k].id)
  }

  lemma NewRest(c: Cluster, path: string, chunk: Bytes, overwrite: bool, first: bool, allocs: seq<Alloc>)
    requires Sound(c) && NewAllocs(c, allocs) && allocs != []
    ensures NewAllocs(ChunkAmong(c, path, chunk, overwrite, first, Send(allocs[0], c.disks.Keys)), allocs[1..])
  {
    hide Sound, LegalAlloc, OnDisk, ChunkAmong;
    var send := Send(allocs[0], c.disks.Keys);
    var c' := ChunkAmong(c, path, chunk, overwrite, first, send);
    assert LegalSend(c, send);
    forall k | 0 <= k < |allocs[1..]|
      ensures LegalAlloc(c'.ns, allocs[1..][k]) && !OnDisk(c'.disks, allocs[1..][k].id)
    {
      ChunkKeepsLegal(c, path, chunk, overwrite, first, send, allocs[k + 1]);
    }
  }

  lemma OverwriteIgnored(c: Cluster, path: string, chunk: Bytes, overwrite: bool, alloc: Alloc)
    ensures WriteChunk(c, path, chunk, overwrite, false, alloc) == WriteChunk(c, path, chunk, true, false, alloc)
  {
    hide AddBlock, ConfirmAll, StoreChunk;
  }

  lemma {:induction false} NextsRun(c: Cluster, path: string, data: Bytes, blockSize: int, overwrite: bool,
                                    allocs: seq<Alloc>)
    requires blockSize >= 1 && |allocs| == Chunks(|data|, blockSize) && Sound(c) && NewAllocs(c, allocs)
    ensures EventRun(c, NextChunks(path, data, blockSize, SendsOf(allocs, c.disks.Keys)),
                     WriteFrom(c, path, data, blockSize, overwrite, false, allocs))
    decreases |data|
  {
    hide Sound, NewAllocs, WriteChunk, ChunkAmong, WriteFrom, Chunks, View, MapStep, SendsOf;
    if data == [] {
      WriteFromEnd(c, path, data, blockSize, overwrite, false, allocs);
    } else {
      WriteFromUnfold(c, path, data, blockSize, overwrite, false, allocs);
      var n := ChunkSize(blockSize, |data|);
      var up := c.disks.Keys;
      SendsUnfold(allocs, up);
      var events := NextChunks(path, data, blockSize, SendsOf(allocs, up));
      assert events[1..] == NextChunks(path, data[n..], blockSize, SendsOf(allocs[1..], up));
      FirstNew(c, allocs);
      EventStep(c, events[0]);
      OverwriteIgnored(c, path, data[..n], overwrite, allocs[0]);
      AmongAll(c, path, data[..n], true, false, allocs[0]);
      NewRest(c, path, data[..n], true, false, allocs);
      NextsRun(After(c, events[0]), path, data[n..], blockSize, overwrite, allocs[1..]);
    }
  }

  lemma FirstNew(c: Cluster, allocs: seq<Alloc>)
    requires NewAllocs(c, allocs) && allocs != []
    ensures LegalSend(c, Send(allocs[0], c.disks.Keys))
  {
  }

  /** WriteFile, with new ids, is the run of its chunks, and so one write of the map: for any data, in safe mode, with
      unreachable targets and for every path. */
  lemma WriteFileIsMapWrite(c: Cluster, path: string, data: Bytes, blockSize: int, overwrite: bool, allocs: seq<Alloc>)
    requires blockSize >= 1 && |allocs| == Chunks(|data|, blockSize) && Sound(c) && NewAllocs(c, allocs)
    ensures var c' := WriteFrom(c, path, data, blockSize, overwrite, true, allocs);
            var sends := SendsOf(allocs, c.disks.Keys);
            EventRun(c, WriteEvents(path, data, blockSize, overwrite, sends), c') && Sound(c') &&
            View(c') == MapWrite(View(c), path, PiecesSent(data, blockSize, sends), overwrite)
  {
    hide Sound, NewAllocs, WriteChunk, ChunkAmong, WriteFrom, Chunks, View, MapStep, MapRun, MapWrite, PiecesSent,
         SendsOf;
    var sends := SendsOf(allocs, c.disks.Keys);
    if data == [] {
      WriteFromEnd(c, path, data, blockSize, overwrite, true, allocs);
    } else {
      WriteFromUnfold(c, path, data, blockSize, overwrite, true, allocs);
      ChunksStep(data, blockSize);
      var n := ChunkSize(blockSize, |data|);
      SendsUnfold(allocs, c.disks.Keys);
      var events := WriteEvents(path, data, blockSize, overwrite, sends);
      assert events[1..] == NextChunks(path, data[n..], blockSize, SendsOf(allocs[1..], c.disks.Keys));
      FirstNew(c, allocs);
      EventStep(c, events[0]);
      AmongAll(c, path, data[..n], overwrite, true, allocs[0]);
      NewRest(c, path, data[..n], overwrite, true, allocs);
      NextsRun(After(c, events[0]), path, data[n..], blockSize, overwrite, allocs[1..]);
    }
    var events := WriteEvents(path, data, blockSize, overwrite, sends);
    EveryRunIsMapRun(c, events, WriteFrom(c, path, data, blockSize, overwrite, true, allocs));
    RootNoFileInView(c);
    WriteIsMapWrite(View(c), path, data, blockSize, overwrite, sends);
  }

  lemma RootNoFileInView(c: Cluster)
    requires Sound(c)
    ensures !HasFile(View(c).files, [])
  {
    hide ViewOf, Consistent;
    ViewAt(c.disks, c.ns.tree, []);
  }
}
