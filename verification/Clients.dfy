/** Several clients writing at the same time: their chunks may be interleaved with each other and with anything else
    that keeps away from the path, and each file still ends up with exactly its own data. */
module Clients {
  import opened Options
  import opened Text
  import opened Inodes
  import opened FsImage
  import opened Namespace
  import opened Bytes
  import opened Cluster
  import opened WriteRead
  import opened WriteEffects
  import opened FileMap
  import opened FileReads

  // ---- Keeping away from a path ---------------------------------------------------------------------------

  predicate Clear(path: string, p: Path) {
    PathOf(path) == [] || !(PathOf(path) <= p)
  }

  /** Chunks of other files, first chunks of files neither above nor below p, and nothing that deletes p or makes it a
      directory. */
  predicate KeepsAway(e: Event, p: Path) {
    match e
    case StartChunk(path, _, _, _) => !(PathOf(path) <= p) && !(p <= PathOf(path))
    case NextChunk(path, _, _) => PathOf(path) != p
    case Remove(path) => Clear(path, p)
    case MakeDir(path) => !(p <= PathOf(path))
    case Grant(_, path, _) => Clear(path, p)
    case Release(_) => true
    case Expire(_, _) => true
    case FromNode(_) => true
    case Received(_, _) => true
    case Restart(messages) => SomeBeat(messages)
  }

  /** The events are the writes in their order, with others in between that keep away from p. */
  predicate Interleaved(events: seq<Event>, writes: seq<Event>, p: Path)
    decreases |events|
  {
    if events == [] then writes == []
    else (writes != [] && events[0] == writes[0] && Interleaved(events[1..], writes[1..], p)) ||
         (KeepsAway(events[0], p) && Interleaved(events[1..], writes, p))
  }

  ghost predicate LeasesClear(m: Fs, p: Path) {
    forall l :: l in m.leases ==> Clear(m.leases[l].path, p)
  }

  ghost predicate RootThere(m: Fs) {
    [] in m.files && m.files[[]].Directory?
  }

  /** The path can be written, and stays so while others keep away. */
  ghost predicate Ready(m: Fs, path: string, overwrite: bool) {
    var p := PathOf(path);
    && RootThere(m) && m.writable && LeasesClear(m, p)
    && p != [] && !EndsWithSlash(path)
    && (forall k :: 0 <= k < |p| ==> !HasFile(m.files, p[..k]))
    && (overwrite || p !in m.files)
  }

  ghost predicate HasPieces(m: Fs, p: Path, pieces: seq<Piece>) {
    && RootThere(m) && LeasesClear(m, p) && p != []
    && p in m.files && m.files[p] == Content(pieces)
  }

  // ---- Others change nothing ------------------------------------------------------------------------------

  /** The files that matter to p: its prefixes, as far as they are files or there, and p itself. */
  ghost predicate SameFor(f: Files, g: Files, p: Path) {
    && (p in g <==> p in f) && (p in f ==> g[p] == f[p])
    && (forall k :: 0 <= k < |p| && HasFile(g, p[..k]) ==> HasFile(f, p[..k]))
    && ([] in f && f[[]].Directory? ==> [] in g && g[[]].Directory?)
  }

  lemma DeleteSame(f: Files, q: Path, p: Path)
    requires q == [] || !(q <= p)
    ensures SameFor(f, MapDelete(f, q), p)
  {
  }

  /** Making directories that are not at or below p. A file p that is there is also no hindrance. */
  lemma MkdirsSame(f: Files, q: Path, p: Path)
    requires !(p <= q)
    ensures SameFor(f, MapMkdirs(f, q), p)
  {
  }

  lemma SameTwice(f: Files, g: Files, h: Files, p: Path)
    requires SameFor(f, g, p) && SameFor(g, h, p)
    ensures SameFor(f, h, p)
  {
  }

  lemma StartSame(m: Fs, path: string, piece: Piece, overwrite: bool, p: Path)
    requires !(PathOf(path) <= p) && !(p <= PathOf(path))
    ensures SameFor(m.files, MapStart(m, path, piece, overwrite).files, p)
  {
    hide MapDelete, MapMkdirs, Fields, GetParentDir;
    var q := PathOf(path);
    var parent := PathOf(GetParentDir(path));
    if !RefusesStart(m, path, overwrite) {
      DeleteSame(m.files, q, p);
      ParentBelow(path, p);
      MkdirsSame(MapDelete(m.files, q), parent, p);
      SameTwice(m.files, MapDelete(m.files, q), Prepared(m.files, path), p);
    }
  }

  /** The parent directory is a prefix of the path. */
  lemma ParentBelow(path: string, p: Path)
    requires PathOf(path) != [] && !(p <= PathOf(path))
    ensures !(p <= PathOf(GetParentDir(path)))
  {
    hide Fields, GetParentDir;
    ParentParts(path);
    var q := PathOf(path);
    assert q[..|q| - 1] <= q;
  }

  lemma {:induction false} ExpireSame(m: Fs, now: int, order: seq<string>, p: Path)
    requires LeasesClear(m, p)
    ensures SameFor(m.files, MapExpire(m, now, order).files, p) && LeasesClear(MapExpire(m, now, order), p)
    ensures MapExpire(m, now, order).writable == m.writable
    decreases |order|
  {
    hide MapDelete, Fields;
    if order != [] {
      if order[0] in m.leases && m.leases[order[0]].expiry < now {
        var q := PathOf(m.leases[order[0]].path);
        var m1 := m.(files := MapDelete(m.files, q), leases := m.leases - {order[0]});
        DeleteSame(m.files, q, p);
        ExpireSame(m1, now, order[1..], p);
        SameTwice(m.files, m1.files, MapExpire(m, now, order).files, p);
      } else {
        ExpireSame(m, now, order[1..], p);
      }
    }
  }

  lemma AwayStep(m: Fs, e: Event, p: Path)
    requires KeepsAway(e, p) && LeasesClear(m, p)
    ensures SameFor(m.files, MapStep(m, e).files, p) && LeasesClear(MapStep(m, e), p)
    ensures m.writable ==> MapStep(m, e).writable
  {
    hide MapDelete, MapMkdirs, MapExpire, MapStart, Fields, PieceOf, SomeBeat;
    match e
    case StartChunk(path, chunk, overwrite, send) =>
      StartSame(m, path, PieceOf(chunk, send), overwrite, p);
      StartKeepsRest(m, path, PieceOf(chunk, send), overwrite);
    case NextChunk(path, chunk, send) => NextSame(m, path, PieceOf(chunk, send), p);
    case Remove(path) => DeleteSame(m.files, PathOf(path), p);
    case MakeDir(path) => MkdirsSame(m.files, PathOf(path), p);
    case Grant(holder, path, now) =>
    case Release(path) =>
    case Expire(now, order) => ExpireSame(m, now, order, p);
    case FromNode(message) =>
    case Received(name, block) =>
    case Restart(messages) =>
  }

  lemma StartKeepsRest(m: Fs, path: string, piece: Piece, overwrite: bool)
    ensures MapStart(m, path, piece, overwrite).leases == m.leases
    ensures MapStart(m, path, piece, overwrite).writable == m.writable
  {
  }

  lemma NextSame(m: Fs, path: string, piece: Piece, p: Path)
    requires PathOf(path) != p
    ensures SameFor(m.files, MapNext(m, path, piece).files, p)
    ensures MapNext(m, path, piece).leases == m.leases && MapNext(m, path, piece).writable == m.writable
  {
    hide Fields;
  }

  lemma ReadyStays(m: Fs, m': Fs, path: string, overwrite: bool)
    requires Ready(m, path, overwrite) && SameFor(m.files, m'.files, PathOf(path))
    requires LeasesClear(m', PathOf(path)) && m'.writable
    ensures Ready(m', path, overwrite)
  {
    hide Fields;
  }

  // ---- One client -----------------------------------------------------------------------------------------

  /** The first chunk of a ready path makes the file. */
  lemma ReadyStarts(m: Fs, path: string, piece: Piece, overwrite: bool)
    requires Ready(m, path, overwrite)
    ensures HasPieces(MapStart(m, path, piece, overwrite), PathOf(path), [piece])
  {
    hide Fields, GetParentDir, MapDelete, MapMkdirs;
    var p := PathOf(path);
    var dir := p[..|p| - 1];
    var f := MapDelete(m.files, p);
    var g := Prepared(m.files, path);
    ParentParts(path);
    DeletedNotThere(m.files, p);
    MkdirsThere(f, dir, p);
    assert Creatable(g, p);
    var m' := MapStart(m, path, piece, overwrite);
    assert m'.files == g[p := Content([piece])] && m'.leases == m.leases;
    assert [] in g && g[[]].Directory?;
    assert m'.files[[]] == g[[]];
  }

  lemma DeletedNotThere(f: Files, p: Path)
    requires p != [] && forall k :: 0 <= k < |p| ==> !HasFile(f, p[..k])
    requires [] in f && f[[]].Directory?
    ensures p !in MapDelete(f, p) && [] in MapDelete(f, p) && MapDelete(f, p)[[]].Directory?
    ensures forall k :: 0 <= k < |p| ==> !HasFile(MapDelete(f, p), p[..k])
  {
  }

  lemma MkdirsThere(f: Files, dir: Path, p: Path)
    requires p !in f && [] in f && f[[]].Directory? && p != [] && dir == p[..|p| - 1]
    requires forall k :: 0 <= k < |p| ==> !HasFile(f, p[..k])
    ensures var g := MapMkdirs(f, dir); p !in g && dir in g && g[dir].Directory? && [] in g && g[[]].Directory?
  {
    forall k | 0 <= k <= |dir| ensures !HasFile(f, dir[..k]) { assert dir[..k] == p[..k]; }
  }

  lemma NextPieces(m: Fs, path: string, piece: Piece, pieces: seq<Piece>)
    requires HasPieces(m, PathOf(path), pieces)
    ensures HasPieces(MapNext(m, path, piece), PathOf(path), pieces + [piece])
  {
    hide Fields;
  }

  lemma PiecesStay(m: Fs, m': Fs, p: Path, pieces: seq<Piece>)
    requires HasPieces(m, p, pieces) && SameFor(m.files, m'.files, p) && LeasesClear(m', p)
    ensures HasPieces(m', p, pieces)
  {
  }

  lemma {:induction false} RestAmongOthers(m: Fs, events: seq<Event>, path: string, data: Bytes,
                                           blockSize: int, sends: seq<Send>, have: seq<Piece>)
    requires blockSize >= 1 && |sends| == Chunks(|data|, blockSize) && HasPieces(m, PathOf(path), have)
    requires Interleaved(events, NextChunks(path, data, blockSize, sends), PathOf(path))
    ensures HasPieces(MapRun(m, events), PathOf(path), have + PiecesSent(data, blockSize, sends))
    decreases |events|
  {
    hide HasPieces, MapStep, KeepsAway, Fields, SameFor, LeasesClear, PieceOf, Chunks;
    var p := PathOf(path);
    var writes := NextChunks(path, data, blockSize, sends);
    if events == [] {
      NoWrites(path, data, blockSize, sends);
      assert have + [] == have;
      SentNothing(data, blockSize, sends);
    } else {
      RunUnfold(m, events);
      if writes != [] && events[0] == writes[0] && Interleaved(events[1..], writes[1..], p) {
        NoWrites(path, data, blockSize, sends);
        ChunksStep(data, blockSize);
        var n := ChunkSize(blockSize, |data|);
        var piece := PieceOf(data[..n], sends[0]);
        NextsUnfold(path, data, blockSize, sends);
        SentUnfold(data, blockSize, sends);
        NextStepIs(m, path, data[..n], sends[0]);
        NextPieces(m, path, piece, have);
        RestAmongOthers(MapStep(m, events[0]), events[1..], path, data[n..], blockSize, sends[1..],
                        have + [piece]);
        var more := PiecesSent(data[n..], blockSize, sends[1..]);
        assert (have + [piece]) + more == have + ([piece] + more);
      } else {
        assert LeasesClear(m, p) by { PiecesClear(m, p, have); }
        AwayStep(m, events[0], p);
        PiecesStay(m, MapStep(m, events[0]), p, have);
        RestAmongOthers(MapStep(m, events[0]), events[1..], path, data, blockSize, sends, have);
      }
    }
  }

  lemma PiecesClear(m: Fs, p: Path, have: seq<Piece>)
    requires HasPieces(m, p, have)
    ensures LeasesClear(m, p)
  {
  }

  lemma NextStepIs(m: Fs, path: string, chunk: Bytes, send: Send)
    ensures MapStep(m, NextChunk(path, chunk, send)) == MapNext(m, path, PieceOf(chunk, send))
  {
    hide MapNext, PieceOf;
  }

  lemma StartStepIs(m: Fs, path: string, chunk: Bytes, overwrite: bool, send: Send)
    ensures MapStep(m, StartChunk(path, chunk, overwrite, send))
         == MapStart(m, path, PieceOf(chunk, send), overwrite)
  {
    hide MapStart, PieceOf;
  }

  lemma NoWrites(path: string, data: Bytes, blockSize: int, sends: seq<Send>)
    requires blockSize >= 1 && |sends| == Chunks(|data|, blockSize)
    ensures NextChunks(path, data, blockSize, sends) == [] <==> data == []
  {
  }

  lemma SentNothing(data: Bytes, blockSize: int, sends: seq<Send>)
    requires blockSize >= 1 && |sends| == Chunks(|data|, blockSize)
    ensures data == [] ==> PiecesSent(data, blockSize, sends) == []
  {
  }

  lemma NextsUnfold(path: string, data: Bytes, blockSize: int, sends: seq<Send>)
    requires blockSize >= 1 && |sends| == Chunks(|data|, blockSize) && data != []
    ensures var n := ChunkSize(blockSize, |data|);
            var writes := NextChunks(path, data, blockSize, sends);
            |sends[1..]| == Chunks(|data[n..]|, blockSize) && writes != [] &&
            writes[0] == NextChunk(path, data[..n], sends[0]) &&
            writes[1..] == NextChunks(path, data[n..], blockSize, sends[1..])
  {
  }

  lemma SentUnfold(data: Bytes, blockSize: int, sends: seq<Send>)
    requires blockSize >= 1 && |sends| == Chunks(|data|, blockSize) && data != []
    ensures var n := ChunkSize(blockSize, |data|);
            |sends[1..]| == Chunks(|data[n..]|, blockSize) &&
            PiecesSent(data, blockSize, sends)
            == [PieceOf(data[..n], sends[0])] + PiecesSent(data[n..], blockSize, sends[1..])
  {
    hide PieceOf;
  }

  /** A write to a ready path, its chunks interleaved with anything that keeps away, leaves exactly its pieces. */
  lemma {:induction false} WriteAmongOthers(m: Fs, events: seq<Event>, path: string, data: Bytes,
                                            blockSize: int, overwrite: bool, sends: seq<Send>)
    requires blockSize >= 1 && |sends| == Chunks(|data|, blockSize) && data != [] && Ready(m, path, overwrite)
    requires Interleaved(events, WriteEvents(path, data, blockSize, overwrite, sends), PathOf(path))
    ensures HasPieces(MapRun(m, events), PathOf(path), PiecesSent(data, blockSize, sends))
    decreases |events|
  {
    hide HasPieces, MapStep, KeepsAway, Fields, SameFor, LeasesClear, PieceOf, Chunks, Ready;
    var p := PathOf(path);
    var writes := WriteEvents(path, data, blockSize, overwrite, sends);
    ChunksStep(data, blockSize);
    var n := ChunkSize(blockSize, |data|);
    assert writes[1..] == NextChunks(path, data[n..], blockSize, sends[1..]);
    if events != [] {
      RunUnfold(m, events);
      if events[0] == writes[0] && Interleaved(events[1..], writes[1..], p) {
        var piece := PieceOf(data[..n], sends[0]);
        SentUnfold(data, blockSize, sends);
        StartStepIs(m, path, data[..n], overwrite, sends[0]);
        ReadyStarts(m, path, piece, overwrite);
        RestAmongOthers(MapStep(m, events[0]), events[1..], path, data[n..], blockSize, sends[1..],
                        [piece]);
      } else {
        assert LeasesClear(m, p) && m.writable by { ReadyClear(m, path, overwrite); }
        AwayStep(m, events[0], p);
        ReadyStays(m, MapStep(m, events[0]), path, overwrite);
        WriteAmongOthers(MapStep(m, events[0]), events[1..], path, data, blockSize, overwrite, sends);
      }
    }
  }

  lemma ReadyClear(m: Fs, path: string, overwrite: bool)
    requires Ready(m, path, overwrite)
    ensures LeasesClear(m, PathOf(path)) && m.writable
  {
  }

  // ---- Any number of clients ------------------------------------------------------------------------------

  datatype Client = Client(path: string, data: Bytes, blockSize: int, overwrite: bool, sends: seq<Send>)

  /** Each chunk reached its first target when it was sent, and that node is in `up`. */
  predicate ReachedWithin(sends: seq<Send>, up: set<Addr>) {
    forall k :: 0 <= k < |sends| ==> Arrives(sends[k]) && AddrOf(sends[k].alloc.targets[0]) in up
  }

  /** No lease of the name system covers the path. */
  predicate Unleased(ns: Ns, p: Path) {
    forall l :: l in ns.leases ==> Clear(ns.leases[l].path, p)
  }

  lemma WritableReady(c: Cluster, path: string, overwrite: bool)
    requires Sound(c) && Writable(c.ns, path, overwrite) && Unleased(c.ns, PathOf(path))
    ensures Ready(View(c), path, overwrite)
  {
    hide Fields, NodeAt, EntryAt, Consistent, WellFormed, Blocks, ViewOf, HasFile, IsFile, ItemOf;
    var p := PathOf(path);
    ViewAt(c.disks, c.ns.tree, []);
    ViewAt(c.disks, c.ns.tree, p);
    PresentEntry(c.ns.tree, p);
    forall k | 0 <= k < |p| ensures !HasFile(View(c).files, p[..k]) { ViewAt(c.disks, c.ns.tree, p[..k]); }
    RootEntry(c.ns.tree);
    DirItem(c.disks);
  }

  lemma RootEntry(n: Node)
    requires n.Dir?
    ensures EntryAt(n, []) == Some(DirEntry)
  {
  }

  /** The pieces sent are at one place each, within `up` exactly when the chunks reached nodes there, and then they
      are the data. */
  lemma {:induction false} SentWithin(data: Bytes, blockSize: int, sends: seq<Send>, up: set<Addr>)
    requires blockSize >= 1 && |sends| == Chunks(|data|, blockSize)
    ensures var pieces := PiecesSent(data, blockSize, sends);
            OnePlace(pieces) && (AllWithin(pieces, up) <==> ReachedWithin(sends, up)) &&
            (AllWithin(pieces, up) ==> BytesOf(pieces) == data)
    decreases |data|
  {
    hide Chunks, PieceOf;
    SentNothing(data, blockSize, sends);
    if data != [] {
      ChunksStep(data, blockSize);
      SentUnfold(data, blockSize, sends);
      var n := ChunkSize(blockSize, |data|);
      SentWithin(data[n..], blockSize, sends[1..], up);
      var rest := PiecesSent(data[n..], blockSize, sends[1..]);
      OneMoreWithin(PieceOf(data[..n], sends[0]), rest, up);
      PieceWithin(data[..n], sends[0], up);
      assert forall k :: 1 <= k < |sends| ==> sends[k] == sends[1..][k - 1];
      assert ReachedWithin(sends, up) <==>
        Arrives(sends[0]) && AddrOf(sends[0].alloc.targets[0]) in up && ReachedWithin(sends[1..], up);
      assert data[..n] + data[n..] == data;
    }
  }

  lemma PieceWithin(chunk: Bytes, send: Send, up: set<Addr>)
    ensures var piece := PieceOf(chunk, send);
            (piece.Kept? ==> |piece.at| <= 1 && piece.data == chunk) &&
            (piece.Kept? && piece.at * up != {} <==> Arrives(send) && AddrOf(send.alloc.targets[0]) in up)
  {
    if Arrives(send) {
      var a := AddrOf(send.alloc.targets[0]);
      assert a in {a} * up <==> a in up;
      if {a} * up != {} { var b :| b in {a} * up; }
    }
  }

  lemma OneMoreWithin(piece: Piece, rest: seq<Piece>, up: set<Addr>)
    ensures OnePlace([piece] + rest) <==> (piece.Kept? ==> |piece.at| <= 1) && OnePlace(rest)
    ensures AllWithin([piece] + rest, up) <==> piece.Kept? && piece.at * up != {} && AllWithin(rest, up)
    ensures BytesOf([piece] + rest) == (if piece.Kept? then piece.data else []) + BytesOf(rest)
  {
    var all := [piece] + rest;
    assert all[1..] == rest && all[0] == piece;
    assert forall i :: 1 <= i < |all| ==> all[i] == rest[i - 1];
    assert forall i :: 0 <= i < |rest| ==> rest[i] == all[i + 1];
  }

  /** Events that keep away leave the path as it was. */
  lemma {:induction false} AwayRun(m: Fs, events: seq<Event>, p: Path)
    requires LeasesClear(m, p) && Interleaved(events, [], p)
    ensures SameFor(m.files, MapRun(m, events).files, p)
    decreases |events|
  {
    hide LeasesClear, SameFor, KeepsAway, MapStep;
    if events == [] {
      SameSelf(m.files, p);
    } else {
      AwayStep(m, events[0], p);
      AwayRun(MapStep(m, events[0]), events[1..], p);
      SameTwice(m.files, MapStep(m, events[0]).files, MapRun(m, events).files, p);
    }
  }

  lemma SameSelf(f: Files, p: Path)
    ensures SameFor(f, f, p)
  {
  }

  /** A client that may write: its chunks are among the events, and nobody disturbs its path. */
  ghost predicate Undisturbed(c: Cluster, events: seq<Event>, cl: Client) {
    cl.blockSize >= 1 && |cl.sends| == Chunks(|cl.data|, cl.blockSize) &&
    TakesEffect(c.ns, cl.path, cl.data, cl.overwrite) && Unleased(c.ns, PathOf(cl.path)) &&
    Interleaved(events, WriteEvents(cl.path, cl.data, cl.blockSize, cl.overwrite, cl.sends), PathOf(cl.path))
  }

  /** Any clients write, their chunks interleaved in any way with each other and with events that keep away from their
      paths, while nodes come and go. Afterwards each of them reads back exactly its own data from the nodes in `up`
      if and only if each of its chunks reached its first target when it was sent, and that node is in `up` now. */
  lemma ClientsReadBack(c: Cluster, events: seq<Event>, c': Cluster, available: bool, clients: seq<Client>,
                        up: set<Addr>)
    requires Sound(c) && (available ==> Available(c)) && RecoveringRun(c, events, c', available)
    requires forall k :: 0 <= k < |clients| ==> Undisturbed(c, events, clients[k])
    ensures forall k :: 0 <= k < |clients| ==>
      (Read(Among(c', up), PathOf(clients[k].path)) == (true, clients[k].data) <==> ReachedWithin(clients[k].sends, up))
  {
    hide *;
    forall k | 0 <= k < |clients|
      ensures Read(Among(c', up), PathOf(clients[k].path)) == (true, clients[k].data) <==>
                ReachedWithin(clients[k].sends, up)
    {
      OneReadsBack(c, events, c', available, clients[k], up);
    }
  }

  lemma OneReadsBack(c: Cluster, events: seq<Event>, c': Cluster, available: bool, cl: Client, up: set<Addr>)
    requires Sound(c) && (available ==> Available(c)) && RecoveringRun(c, events, c', available)
    requires Undisturbed(c, events, cl)
    ensures Read(Among(c', up), PathOf(cl.path)) == (true, cl.data) <==> ReachedWithin(cl.sends, up)
  {
    hide Sound, Available, RecoveringRun, Writable, Unleased, Interleaved, Read, MapRun, View, Ready, AllThere, BytesOf,
         WriteEvents, PiecesSent, Chunks, Fields, IsFile, OnePlace, AllWithin, ReachedWithin, BlocksAt, Among;
    var p := PathOf(cl.path);
    if cl.data == [] {
      NoEvents(cl.path, cl.blockSize, cl.overwrite, cl.sends);
      NothingReadBack(c, events, c', available, p, up);
      assert ReachedWithin(cl.sends, up) by { NothingSent(up); }
    } else {
      WritableReady(c, cl.path, cl.overwrite);
      WriteAmongOthers(View(c), events, cl.path, cl.data, cl.blockSize, cl.overwrite, cl.sends);
      SentWithin(cl.data, cl.blockSize, cl.sends, up);
      EveryRunReads(c, events, c', available, p, up);
    }
  }

  lemma NothingSent(up: set<Addr>)
    ensures ReachedWithin([], up)
  {
  }

  lemma NoEvents(path: string, blockSize: int, overwrite: bool, sends: seq<Send>)
    requires blockSize >= 1 && |sends| == Chunks(0, blockSize)
    ensures WriteEvents(path, [], blockSize, overwrite, sends) == [] && sends == []
  {
  }

  lemma NothingReadBack(c: Cluster, events: seq<Event>, c': Cluster, available: bool, p: Path, up: set<Addr>)
    requires Sound(c) && (available ==> Available(c)) && RecoveringRun(c, events, c', available)
    requires Interleaved(events, [], p) && Unleased(c.ns, p) && BlocksAt(c.ns.tree, p) == []
    ensures Read(Among(c', up), p) == (true, [])
  {
    hide Sound, Available, RecoveringRun, Interleaved, MapRun, NodeAt, PieceAt, KeepsAway, Fields, ReadFrom, EventRun,
         IsFile, ViewOf;
    AwayRun(View(c), events, p);
    RunAvailable(c, events, c', available);
    EveryRunIsMapRun(c, events, c');
    ViewAt(c.disks, c.ns.tree, p);
    ViewAt(c'.disks, c'.ns.tree, p);
    if IsFile(c'.ns.tree, p) {
      FileItem(c', p);
      FileItem(c, p);
      assert |PiecesOf(c'.disks, BlocksAt(c'.ns.tree, p))| == 0;
    } else {
      NoFileNoBlocks(c'.ns.tree, p);
    }
    assert ReadFrom(Among(c', up), [], AllDelivered, 0) == (true, []) by { NoBlocksRead(Among(c', up)); }
  }
}
