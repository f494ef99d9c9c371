/** The messages between the NameNode and its clients and data nodes: NameNode writes them by hand, DfsClient and
    DataNode by hand as well. */
module NdfsCodec {
  import opened Options
  import opened Bytes
  import opened Buffer
  import opened WireLists
  import opened Namespace

  // ---- Blocks and nodes -----------------------------------------------------------------------------------

  function BlockBytes(b: Block): Bytes {
    LongBytes(b.id) + LongBytes(b.numBytes) + LongBytes(b.generationStamp)
  }

  function DecodeBlock(b: Bytes): Decoded<Block> {
    match DecodeLong(b)
    case None => None
    case Some((id, b1)) =>
      match DecodeLong(b1)
      case None => None
      case Some((numBytes, b2)) =>
        match DecodeLong(b2)
        case None => None
        case Some((stamp, b3)) => Some((Block(id, numBytes, stamp), b3))
  }

  function NodeBytes(dn: DataNodeInfo): Bytes {
    StringBytes(dn.name) + StringBytes(dn.host) + IntBytes(dn.port) + LongBytes(dn.capacity) + LongBytes(dn.remaining) +
    LongBytes(dn.lastUpdate)
  }

  function DecodeNode(b: Bytes): Decoded<DataNodeInfo> {
    match DecodeString(b)
    case None => None
    case Some((name, b1)) =>
      match DecodeString(b1)
      case None => None
      case Some((host, b2)) =>
        match DecodeInt(b2)
        case None => None
        case Some((port, b3)) => DecodeNodeNumbers(name, host, port, b3)
  }

  function DecodeNodeNumbers(name: string, host: string, port: int, b: Bytes): Decoded<DataNodeInfo> {
    match DecodeLong(b)
    case None => None
    case Some((capacity, b1)) =>
      match DecodeLong(b1)
      case None => None
      case Some((remaining, b2)) =>
        match DecodeLong(b2)
        case None => None
        case Some((lastUpdate, b3)) => Some((DataNodeInfo(name, host, port, capacity, remaining, lastUpdate), b3))
  }

  predicate WireBlock(b: Block) {
    Text.IsInt64(b.id) && Text.IsInt64(b.numBytes) && Text.IsInt64(b.generationStamp)
  }

  predicate WireNode(dn: DataNodeInfo) {
    WireString(dn.name) && WireString(dn.host) && IsInt32(dn.port) && Text.IsInt64(dn.capacity) &&
    Text.IsInt64(dn.remaining) && Text.IsInt64(dn.lastUpdate)
  }

  lemma BlockRoundTrip(x: Block)
    requires WireBlock(x)
    ensures ReadBack(BlockBytes, DecodeBlock, x)
  {
    hide LongBytes, DecodeLong, Text.IsInt64;
    forall rest ensures DecodeBlock(BlockBytes(x) + rest) == Some((x, rest)) {
      var b2 := LongBytes(x.generationStamp) + rest;
      var b1 := LongBytes(x.numBytes) + b2;
      assert BlockBytes(x) + rest == LongBytes(x.id) + b1;
      LongRoundTripIff(x.id, b1);
      LongRoundTripIff(x.numBytes, b2);
      LongRoundTripIff(x.generationStamp, rest);
    }
  }

  lemma NodeRoundTrip(x: DataNodeInfo)
    requires WireNode(x)
    ensures ReadBack(NodeBytes, DecodeNode, x)
  {
    hide LongBytes, DecodeLong, IntBytes, DecodeInt, StringBytes, DecodeString, Text.IsInt64, IsInt32;
    forall rest ensures DecodeNode(NodeBytes(x) + rest) == Some((x, rest)) {
      var b5 := LongBytes(x.lastUpdate) + rest;
      var b4 := LongBytes(x.remaining) + b5;
      var b3 := LongBytes(x.capacity) + b4;
      var b2 := IntBytes(x.port) + b3;
      var b1 := StringBytes(x.host) + b2;
      assert NodeBytes(x) + rest == StringBytes(x.name) + b1;
      StringRoundTripIff(x.name, b1);
      StringRoundTripIff(x.host, b2);
      IntRoundTripIff(x.port, b3);
      LongRoundTripIff(x.capacity, b4);
      LongRoundTripIff(x.remaining, b5);
      LongRoundTripIff(x.lastUpdate, rest);
    }
  }

  // ---- Replies to the client ------------------------------------------------------------------------------

  type Placed = (Block, seq<DataNodeInfo>)

  /** The reply to StartFile and AddBlock, and one entry of the reply to GetBlocks. */
  function PlacedBytes(p: Placed): Bytes {
    BlockBytes(p.0) + ListBytes(NodeBytes, p.1)
  }

  function DecodePlaced(b: Bytes): Decoded<Placed> {
    match DecodeBlock(b)
    case None => None
    case Some((block, b1)) =>
      match DecodeList(DecodeNode, b1)
      case None => None
      case Some((dns, b2)) => Some(((block, dns), b2))
  }

  predicate WirePlaced(p: Placed) {
    WireBlock(p.0) && |p.1| < TWO31 && forall i :: 0 <= i < |p.1| ==> WireNode(p.1[i])
  }

  /** The client reads the block and the targets the NameNode returned. */
  lemma PlacedRoundTrip(p: Placed)
    requires WirePlaced(p)
    ensures ReadBack(PlacedBytes, DecodePlaced, p)
  {
    hide BlockBytes, DecodeBlock, ListBytes, DecodeList, WireNode, WireBlock;
    forall rest ensures DecodePlaced(PlacedBytes(p) + rest) == Some((p, rest)) {
      var b1 := ListBytes(NodeBytes, p.1) + rest;
      assert PlacedBytes(p) + rest == BlockBytes(p.0) + b1;
      BlockRoundTrip(p.0);
      assert ReadBack(BlockBytes, DecodeBlock, p.0);
      forall i | 0 <= i < |p.1| ensures ReadBack(NodeBytes, DecodeNode, p.1[i]) { NodeRoundTrip(p.1[i]); }
      ListRoundTrip(NodeBytes, DecodeNode, p.1, rest);
    }
  }

  /** The client reads every block of the file with its locations, in order. */
  lemma GetBlocksRoundTrip(listed: seq<Placed>, rest: Bytes)
    requires |listed| < TWO31 && forall i :: 0 <= i < |listed| ==> WirePlaced(listed[i])
    ensures DecodeList(DecodePlaced, ListBytes(PlacedBytes, listed) + rest) == Some((listed, rest))
  {
    hide PlacedBytes, DecodePlaced, WirePlaced, ListBytes, DecodeList;
    forall i | 0 <= i < |listed| ensures ReadBack(PlacedBytes, DecodePlaced, listed[i]) { PlacedRoundTrip(listed[i]); }
    ListRoundTrip(PlacedBytes, DecodePlaced, listed, rest);
  }

  // ---- The block report -----------------------------------------------------------------------------------

  function BlockReportBytes(name: string, blocks: seq<Block>): Bytes {
    StringBytes(name) + ListBytes(BlockBytes, blocks)
  }

  function DecodeBlockReport(b: Bytes): Decoded<(string, seq<Block>)> {
    match DecodeString(b)
    case None => None
    case Some((name, b1)) =>
      match DecodeList(DecodeBlock, b1)
      case None => None
      case Some((blocks, b2)) => Some(((name, blocks), b2))
  }

  /** The NameNode reads the report the data node sent. */
  lemma BlockReportRoundTrip(name: string, blocks: seq<Block>, rest: Bytes)
    requires WireString(name) && |blocks| < TWO31 && forall i :: 0 <= i < |blocks| ==> WireBlock(blocks[i])
    ensures DecodeBlockReport(BlockReportBytes(name, blocks) + rest) == Some(((name, blocks), rest))
  {
    hide StringBytes, DecodeString, BlockBytes, DecodeBlock, ListBytes, DecodeList, WireBlock;
    var b1 := ListBytes(BlockBytes, blocks) + rest;
    assert BlockReportBytes(name, blocks) + rest == StringBytes(name) + b1;
    StringRoundTripIff(name, b1);
    forall i | 0 <= i < |blocks| ensures ReadBack(BlockBytes, DecodeBlock, blocks[i]) { BlockRoundTrip(blocks[i]); }
    ListRoundTrip(BlockBytes, DecodeBlock, blocks, rest);
  }

  // ---- The loops over the buffers -------------------------------------------------------------------------

  method WriteBlock(out: OutputBuffer, b: Block)
    modifies out
    ensures out.buffer == old(out.buffer) + BlockBytes(b)
  {
    hide LongBytes;
    ghost var start := out.buffer;
    out.WriteLong(b.id);
    out.WriteLong(b.numBytes);
    out.WriteLong(b.generationStamp);
    assert out.buffer == start + BlockBytes(b);
  }

  method WriteNode(out: OutputBuffer, dn: DataNodeInfo)
    modifies out
    ensures out.buffer == old(out.buffer) + NodeBytes(dn)
  {
    hide LongBytes, IntBytes, StringBytes;
    ghost var start := out.buffer;
    out.WriteString(dn.name);
    out.WriteString(dn.host);
    out.WriteInt(dn.port);
    out.WriteLong(dn.capacity);
    out.WriteLong(dn.remaining);
    out.WriteLong(dn.lastUpdate);
    assert out.buffer == start + NodeBytes(dn);
  }

  method WriteNodeList(out: OutputBuffer, dns: seq<DataNodeInfo>)
    modifies out
    ensures out.buffer == old(out.buffer) + ListBytes(NodeBytes, dns)
  {
    hide IntBytes, NodeBytes, ItemsBytes;
    ghost var start := out.buffer;
    out.WriteInt(|dns|);
    NoItems(NodeBytes, dns);
    for i := 0 to |dns|
      invariant out.buffer == start + (IntBytes(|dns|) + ItemsBytes(NodeBytes, dns[..i]))
    {
      WriteNode(out, dns[i]);
      ItemsSnoc(NodeBytes, dns, i);
      assert (start + (IntBytes(|dns|) + ItemsBytes(NodeBytes, dns[..i]))) + NodeBytes(dns[i])
          == start + (IntBytes(|dns|) + (ItemsBytes(NodeBytes, dns[..i]) + NodeBytes(dns[i])));
    }
  }

  method WriteGetBlocksReply(out: OutputBuffer, listed: seq<Placed>)
    modifies out
    ensures out.buffer == old(out.buffer) + ListBytes(PlacedBytes, listed)
  {
    hide IntBytes, BlockBytes, ItemsBytes;
    ghost var start := out.buffer;
    out.WriteInt(|listed|);
    NoItems(PlacedBytes, listed);
    for i := 0 to |listed|
      invariant out.buffer == start + (IntBytes(|listed|) + ItemsBytes(PlacedBytes, listed[..i]))
    {
      ghost var done := ItemsBytes(PlacedBytes, listed[..i]);
      WriteBlock(out, listed[i].0);
      WriteNodeList(out, listed[i].1);
      ItemsSnoc(PlacedBytes, listed, i);
      assert out.buffer == start + (IntBytes(|listed|) + (done + PlacedBytes(listed[i])));
    }
  }

  method ReadBlock(input: InputBuffer) returns (b: Option<Block>)
    requires input.Valid()
    modifies input
    ensures input.Valid() && Took(b, input.Rest(), DecodeBlock(old(input.Rest())))
  {
    hide DecodeLong, InputBuffer.Rest;
    var id := input.ReadLong();
    if id.None? { return None; }
    var numBytes := input.ReadLong();
    if numBytes.None? { return None; }
    var stamp := input.ReadLong();
    if stamp.None? { return None; }
    b := Some(Block(id.value, numBytes.value, stamp.value));
  }

  method ReadNode(input: InputBuffer) returns (dn: Option<DataNodeInfo>)
    requires input.Valid()
    modifies input
    ensures input.Valid() && Took(dn, input.Rest(), DecodeNode(old(input.Rest())))
  {
    hide DecodeLong, DecodeInt, DecodeString, InputBuffer.Rest;
    var name := input.ReadString();
    if name.None? { return None; }
    var host := input.ReadString();
    if host.None? { return None; }
    var port := input.ReadInt();
    if port.None? { return None; }
    var capacity := input.ReadLong();
    if capacity.None? { return None; }
    var remaining := input.ReadLong();
    if remaining.None? { return None; }
    var lastUpdate := input.ReadLong();
    if lastUpdate.None? { return None; }
    dn := Some(DataNodeInfo(name.value, host.value, port.value, capacity.value, remaining.value, lastUpdate.value));
  }

  method ReadNodeList(input: InputBuffer) returns (dns: Option<seq<DataNodeInfo>>)
    requires input.Valid()
    modifies input
    ensures input.Valid() && Took(dns, input.Rest(), DecodeList(DecodeNode, old(input.Rest())))
  {
    hide DecodeItems, DecodeInt, DecodeNode, InputBuffer.Rest, ReadSoFar;
    var count := input.ReadInt();
    if count.None? { return None; }
    ghost var all := DecodeItems(DecodeNode, count.value, input.Rest());
    var done: seq<DataNodeInfo> := [];
    ReadStart(DecodeNode, count.value, input.Rest());
    var i := 0;
    while i < count.value
      invariant 0 <= i && (i <= count.value || i == 0) && input.Valid()
      invariant ReadSoFar(DecodeNode, all, done, count.value - i, input.Rest())
    {
      ReadStep(DecodeNode, all, done, count.value - i, input.Rest());
      var dn := ReadNode(input);
      if dn.None? { return None; }
      done := done + [dn.value];
      i := i + 1;
    }
    ReadEnd(DecodeNode, all, done, count.value - i, input.Rest());
    dns := Some(done);
  }

  method ReadPlaced(input: InputBuffer) returns (p: Option<Placed>)
    requires input.Valid()
    modifies input
    ensures input.Valid() && Took(p, input.Rest(), DecodePlaced(old(input.Rest())))
  {
    hide DecodeBlock, DecodeList, InputBuffer.Rest;
    var block := ReadBlock(input);
    if block.None? { return None; }
    var dns := ReadNodeList(input);
    if dns.None? { return None; }
    p := Some((block.value, dns.value));
  }

  /** The outer loop of ReadFile, as far as it reads the reply. */
  method ReadGetBlocksReply(input: InputBuffer) returns (listed: Option<seq<Placed>>)
    requires input.Valid()
    modifies input
    ensures input.Valid() && Took(listed, input.Rest(), DecodeList(DecodePlaced, old(input.Rest())))
  {
    hide DecodeItems, DecodeInt, DecodePlaced, InputBuffer.Rest, ReadSoFar;
    var count := input.ReadInt();
    if count.None? { return None; }
    ghost var all := DecodeItems(DecodePlaced, count.value, input.Rest());
    var done: seq<Placed> := [];
    ReadStart(DecodePlaced, count.value, input.Rest());
    var i := 0;
    while i < count.value
      invariant 0 <= i && (i <= count.value || i == 0) && input.Valid()
      invariant ReadSoFar(DecodePlaced, all, done, count.value - i, input.Rest())
    {
      ReadStep(DecodePlaced, all, done, count.value - i, input.Rest());
      var p := ReadPlaced(input);
      if p.None? { return None; }
      done := done + [p.value];
      i := i + 1;
    }
    ReadEnd(DecodePlaced, all, done, count.value - i, input.Rest());
    listed := Some(done);
  }
}
