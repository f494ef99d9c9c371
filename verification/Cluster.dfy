/** One client's view of the file system: the NameNode's state and the disks of the data nodes that can be
    reached. Writing and reading files, as functions. */
module Cluster {
  import opened Options
  import opened Inodes
  import opened Namespace
  import opened Bytes

  type Addr = (string, int)
  type Disk = map<int, Bytes>

  datatype Cluster = Cluster(ns: Ns, disks: map<Addr, Disk>)

  /** What the NameNode allocates for one chunk: the generated id and the chosen targets. */
  datatype Alloc = Alloc(id: int, targets: seq<DataNodeInfo>)

  function AddrOf(dn: DataNodeInfo): Addr {
    (dn.host, dn.port)
  }

  predicate OnDisk(disks: map<Addr, Disk>, id: int) {
    exists a :: a in disks && id in disks[a]
  }

  /** The first target, which alone is sent the bytes, can be reached. */
  predicate Accepts(disks: map<Addr, Disk>, alloc: Alloc) {
    alloc.targets != [] && AddrOf(alloc.targets[0]) in disks
  }

  // ---- Writing --------------------------------------------------------------------------------------------

  /** Only the first target receives the bytes, if it can be reached. */
  function StoreChunk(disks: map<Addr, Disk>, id: int, targets: seq<DataNodeInfo>, chunk: Bytes): map<Addr, Disk> {
    if targets != [] && AddrOf(targets[0]) in disks then
      var a := AddrOf(targets[0]);
      disks[a := disks[a][id := chunk]]
    else disks
  }

  /** Every target is confirmed to the NameNode. */
  function ConfirmAll(ns: Ns, targets: seq<DataNodeInfo>, block: Block): Ns {
    if targets == [] then ns
    else BlockReceived(ConfirmAll(ns, targets[..|targets| - 1], block), targets[|targets| - 1].name, block)
  }

  function Allocate(ns: Ns, path: string, overwrite: bool, first: bool, alloc: Alloc)
    : (Ns, (Block, seq<DataNodeInfo>))
  {
    if first then StartFile(ns, path, overwrite, alloc.id, alloc.targets)
    else AddBlock(ns, path, alloc.id, alloc.targets)
  }

  function WriteChunk(c: Cluster, path: string, chunk: Bytes, overwrite: bool, first: bool, alloc: Alloc): Cluster {
    var (ns, (block, targets)) := Allocate(c.ns, path, overwrite, first, alloc);
    Cluster(ConfirmAll(ns, targets, block.(numBytes := |chunk|)), StoreChunk(c.disks, block.id, targets, chunk))
  }

  function ChunkSize(blockSize: int, left: int): (n: int)
    requires blockSize >= 1 && left >= 1
    ensures 1 <= n <= left
  {
    if blockSize < left then blockSize else left
  }

  function Chunks(len: nat, blockSize: int): (n: nat)
    requires blockSize >= 1
    ensures n == 0 <==> len == 0
  {
    if len == 0 then 0 else 1 + Chunks(len - ChunkSize(blockSize, len), blockSize)
  }

  /** The chunk loop of WriteFile. */
  function WriteFrom(c: Cluster, path: string, data: Bytes, blockSize: int, overwrite: bool, first: bool,
                     allocs: seq<Alloc>): Cluster
    requires blockSize >= 1 && |allocs| == Chunks(|data|, blockSize)
    decreases |data|
  {
    if data == [] then c
    else
      var n := ChunkSize(blockSize, |data|);
      WriteFrom(WriteChunk(c, path, data[..n], overwrite, first, allocs[0]), path, data[n..], blockSize, overwrite,
                false, allocs[1..])
  }

  /** What becomes of the call for a block: it is served, never sent, or served with the answer lost. */
  datatype Call = Served | Unsent | Unanswered

  /** WriteFile, which gives up at the first call that fails, after the chunks of `data`. */
  function CutWrite(c: Cluster, path: string, data: Bytes, blockSize: int, overwrite: bool, allocs: seq<Alloc>,
                    call: Call): Cluster
    requires blockSize >= 1 && |allocs| == Chunks(|data|, blockSize) + if call.Unanswered? then 1 else 0
  {
    var n := Chunks(|data|, blockSize);
    var c' := WriteFrom(c, path, data, blockSize, overwrite, true, allocs[..n]);
    if call.Unanswered? then c'.(ns := Allocate(c'.ns, path, overwrite, data == [], allocs[n]).0) else c'
  }

  // ---- Reading --------------------------------------------------------------------------------------------

  /** What happens to the connection to one listed node: refused, cut before the length or after some bytes of the
      block, or not cut at all. */
  datatype Fate = Refused | CutBeforeLength | CutInData(got: nat) | Delivered

  type Fates = (int, int) -> Fate

  predicate Holds(disks: map<Addr, Disk>, dn: DataNodeInfo, id: int) {
    AddrOf(dn) in disks && id in disks[AddrOf(dn)]
  }

  predicate Sends(disks: map<Addr, Disk>, dn: DataNodeInfo, id: int, fate: Fate) {
    Holds(disks, dn, id) &&
    (fate.Delivered? || (fate.CutInData? && fate.got >= |disks[AddrOf(dn)][id]|))
  }

  /** The copy of the first listed node from j on that sends all of block number i of the file. */
  function FirstCopy(disks: map<Addr, Disk>, id: int, dns: seq<DataNodeInfo>, fates: Fates, i: int, j: nat)
    : Option<Bytes>
    decreases |dns| - j
  {
    if j >= |dns| then None
    else if Sends(disks, dns[j], id, fates(i, j)) then Some(disks[AddrOf(dns[j])][id])
    else FirstCopy(disks, id, dns, fates, i, j + 1)
  }

  /** Reads blocks i, i+1, ...: whether all were delivered, and the bytes up to the first that was not. */
  function ReadFrom(c: Cluster, blocks: seq<int>, fates: Fates, i: nat): (bool, Bytes)
    decreases |blocks| - i
  {
    if i >= |blocks| then (true, [])
    else
      match FirstCopy(c.disks, blocks[i], LocationsOf(c.ns, blocks[i]), fates, i, 0)
      case None => (false, [])
      case Some(data) =>
        var (ok, rest) := ReadFrom(c, blocks, fates, i + 1);
        (ok, data + rest)
  }

  function AllDelivered(i: int, j: int): Fate {
    Delivered
  }

  lemma NoBlocksRead(c: Cluster)
    ensures ReadFrom(c, [], AllDelivered, 0) == (true, [])
  {
  }

  /** ReadFile when every connection works. A path that is no file reads as empty. */
  function Read(c: Cluster, p: Path): (bool, Bytes) {
    ReadFrom(c, BlocksAt(c.ns.tree, p), AllDelivered, 0)
  }

  /** The cluster with the data nodes in `lost` out of reach. */
  function Losing(c: Cluster, lost: set<Addr>): Cluster {
    c.(disks := c.disks - lost)
  }

  /** The cluster with the data nodes in `up` only. */
  function Among(c: Cluster, up: set<Addr>): Cluster {
    Losing(c, c.disks.Keys - up)
  }

  predicate Reported(report: seq<Block>, id: int) {
    exists i :: 0 <= i < |report| && report[i].id == id
  }

  /** A report lists each block on the disk once, with its length. */
  ghost predicate ReportOf(disk: Disk, report: seq<Block>) {
    && (forall i :: 0 <= i < |report| ==> report[i].id in disk && report[i].numBytes == |disk[report[i].id]|)
    && (forall i, j :: 0 <= i < j < |report| ==> report[i].id != report[j].id)
    && (forall id :: id in disk ==> Reported(report, id))
  }

  // ---- Fallback -------------------------------------------------------------------------------------------

  ghost predicate Delivers(c: Cluster, blocks: seq<int>, fates: Fates, i: int)
    requires 0 <= i < |blocks|
  {
    exists j :: 0 <= j < |LocationsOf(c.ns, blocks[i])| &&
      Sends(c.disks, LocationsOf(c.ns, blocks[i])[j], blocks[i], fates(i, j))
  }

  lemma {:induction false} FirstCopySome(disks: map<Addr, Disk>, id: int, dns: seq<DataNodeInfo>, fates: Fates, i: int,
                                         j: nat)
    ensures FirstCopy(disks, id, dns, fates, i, j).Some? <==>
              exists k :: j <= k < |dns| && Sends(disks, dns[k], id, fates(i, k))
    ensures FirstCopy(disks, id, dns, fates, i, j).Some? ==>
              exists k :: j <= k < |dns| && Sends(disks, dns[k], id, fates(i, k)) &&
                FirstCopy(disks, id, dns, fates, i, j) == Some(disks[AddrOf(dns[k])][id])
    decreases |dns| - j
  {
    if j < |dns| && !Sends(disks, dns[j], id, fates(i, j)) {
      FirstCopySome(disks, id, dns, fates, i, j + 1);
    }
  }

  /** Whatever fails on the way, the read succeeds exactly when each block has a listed node that holds and
      delivers it. */
  lemma {:induction false} ReadSucceedsIff(c: Cluster, blocks: seq<int>, fates: Fates, i: nat)
    ensures ReadFrom(c, blocks, fates, i).0 <==> forall k :: i <= k < |blocks| ==> Delivers(c, blocks, fates, k)
    decreases |blocks| - i
  {
    if i < |blocks| {
      hide FirstCopy, Sends;
      FirstCopySome(c.disks, blocks[i], LocationsOf(c.ns, blocks[i]), fates, i, 0);
      assert Delivers(c, blocks, fates, i) <==>
        FirstCopy(c.disks, blocks[i], LocationsOf(c.ns, blocks[i]), fates, i, 0).Some?;
      ReadSucceedsIff(c, blocks, fates, i + 1);
    }
  }

  /** All copies of a block, on whatever disk, hold the same bytes. */
  ghost predicate Consistent(disks: map<Addr, Disk>, content: map<int, Bytes>) {
    forall a, id :: a in disks && id in disks[a] ==> id in content && disks[a][id] == content[id]
  }

  function ContentOf(content: map<int, Bytes>, blocks: seq<int>): Bytes
    requires forall k :: 0 <= k < |blocks| ==> blocks[k] in content
  {
    if blocks == [] then [] else content[blocks[0]] + ContentOf(content, blocks[1..])
  }

  /** A successful read returns the blocks in file order, whichever copies were used. */
  lemma {:induction false} ReadContent(c: Cluster, blocks: seq<int>, fates: Fates, i: nat, content: map<int, Bytes>)
    requires Consistent(c.disks, content) && ReadFrom(c, blocks, fates, i).0 && i <= |blocks|
    ensures forall k :: 0 <= k < |blocks[i..]| ==> blocks[i..][k] in content
    ensures ReadFrom(c, blocks, fates, i).1 == ContentOf(content, blocks[i..])
    decreases |blocks| - i
  {
    if i < |blocks| {
      FirstCopySome(c.disks, blocks[i], LocationsOf(c.ns, blocks[i]), fates, i, 0);
      ReadContent(c, blocks, fates, i + 1, content);
      assert blocks[i..][1..] == blocks[i + 1..];
    }
  }

  /** A read that fails has brought exactly the blocks before the first that no listed node delivers. */
  lemma {:induction false} ReadStops(c: Cluster, blocks: seq<int>, fates: Fates, i: nat, content: map<int, Bytes>)
    returns (k: nat)
    requires Consistent(c.disks, content) && !ReadFrom(c, blocks, fates, i).0 && i <= |blocks|
    ensures i <= k < |blocks| && !Delivers(c, blocks, fates, k)
    ensures forall j :: i <= j < k ==> Delivers(c, blocks, fates, j)
    ensures forall j :: 0 <= j < |blocks[i..k]| ==> blocks[i..k][j] in content
    ensures ReadFrom(c, blocks, fates, i).1 == ContentOf(content, blocks[i..k])
    decreases |blocks| - i
  {
    hide Sends;
    FirstCopySome(c.disks, blocks[i], LocationsOf(c.ns, blocks[i]), fates, i, 0);
    if FirstCopy(c.disks, blocks[i], LocationsOf(c.ns, blocks[i]), fates, i, 0).None? {
      k := i;
    } else {
      CopyContent(c, blocks[i], fates, i, content);
      k := ReadStops(c, blocks, fates, i + 1, content);
      assert blocks[i..k][0] == blocks[i] && blocks[i..k][1..] == blocks[i + 1..k];
    }
  }

  lemma CopyContent(c: Cluster, id: int, fates: Fates, i: int, content: map<int, Bytes>)
    requires Consistent(c.disks, content)
    ensures var copy := FirstCopy(c.disks, id, LocationsOf(c.ns, id), fates, i, 0);
            copy.Some? ==> id in content && copy.value == content[id]
  {
    FirstCopySome(c.disks, id, LocationsOf(c.ns, id), fates, i, 0);
  }
}
