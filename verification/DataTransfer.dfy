/** The data transfer protocol between DfsClient and DataXceiveServer: one op byte, 64-bit fields in the hosts'
    swapped form, then the bytes of the block. */
module DataTransfer {
  import opened Options
  import opened Text
  import opened Bytes
  import opened Buffer
  import opened Cluster
  import opened Rpc
  import B = BlockStorage

  const OP_WRITE_BLOCK: Byte := 80
  const OP_READ_BLOCK: Byte := 81

  // ---- Messages -------------------------------------------------------------------------------------------

  function Field(v: int, little: bool): Bytes {
    Send64(v % TWO64, little)
  }

  function FieldValue(b: Bytes, little: bool): int {
    ToInt64(Receive64(b, little))
  }

  function WriteRequest(id: int, data: Bytes, little: bool): Bytes {
    [OP_WRITE_BLOCK] + Field(id, little) + Field(|data|, little) + data
  }

  function ReadRequest(id: int, little: bool): Bytes {
    [OP_READ_BLOCK] + Field(id, little)
  }

  function ReadReply(data: Bytes, little: bool): Bytes {
    Field(|data|, little) + data
  }

  /** What the client takes from the reply: a whole block, or nothing. */
  function DecodeReply(b: Bytes, little: bool): Option<Bytes> {
    if |b| < 8 then None
    else
      var len := FieldValue(b[..8], little);
      if len < 0 || |b| - 8 < len then None else Some(b[8..8 + len])
  }

  /** Handled(disk, reply): the disk afterwards and what was sent back. Broken: a negative length throws. */
  datatype Outcome = Handled(disk: Disk, reply: Bytes) | Broken

  /** Whether the block file can be created changes nothing in the answer: its status is ignored. */
  function HandleWrite(disk: Disk, b: Bytes, little: bool, creatable: bool): Outcome {
    if |b| < 16 then Handled(disk, [])
    else
      var id, len := FieldValue(b[..8], little), FieldValue(b[8..16], little);
      if len < 0 then Broken
      else if |b| - 16 < len then Handled(disk, [])
      else Handled(if creatable then disk[id := b[16..16 + len]] else disk, [1])
  }

  function HandleRead(disk: Disk, b: Bytes, little: bool): Outcome {
    if |b| < 8 then Handled(disk, [])
    else
      var id := FieldValue(b[..8], little);
      Handled(disk, if id in disk then ReadReply(disk[id], little) else [])
  }

  function Handle(disk: Disk, stream: Bytes, little: bool, creatable: bool): Outcome {
    if stream == [] then Handled(disk, [])
    else if stream[0] == OP_WRITE_BLOCK then HandleWrite(disk, stream[1..], little, creatable)
    else if stream[0] == OP_READ_BLOCK then HandleRead(disk, stream[1..], little)
    else Handled(disk, [])
  }

  // ---- The server -----------------------------------------------------------------------------------------

  lemma FieldInt64(b: Bytes, little: bool)
    ensures IsInt64(FieldValue(b, little))
  {
    hide Receive64;
    CastsFit(Receive64(b, little));
  }

  /** One connection of the server; false stands for the exception a negative length throws. */
  method HandleConnection(fd: Socket, storage: B.BlockStorage, little: bool, creatable: bool) returns (ok: bool)
    requires storage.Valid()
    modifies fd, storage
    ensures storage.Valid()
    ensures match Handle(old(storage.disk), old(fd.incoming), little, creatable)
            case Handled(disk, reply) =>
              ok && storage.disk == disk && fd.outgoing == old(fd.outgoing) + Taken(reply, old(fd.room))
            case Broken => !ok
  {
    hide FieldValue, Field, B.HasExtension, B.BlockName, IsInt64, HandleWrite, HandleRead;
    ghost var stream := fd.incoming;
    ghost var sent := fd.outgoing;
    assert sent + Taken([], fd.room) == sent;
    var got, op := ReadFull(fd, 1);
    if !got { return true; }
    assert stream[0] == op[0] && fd.incoming == stream[1..];
    if op[0] == OP_WRITE_BLOCK {
      ok := ReceiveBlock(fd, storage, little, creatable);
    } else if op[0] == OP_READ_BLOCK {
      SendBlock(fd, storage, little);
      ok := true;
    } else {
      ok := true;
    }
  }

  method ReceiveBlock(fd: Socket, storage: B.BlockStorage, little: bool, creatable: bool) returns (ok: bool)
    requires storage.Valid()
    modifies fd, storage
    ensures storage.Valid()
    ensures match HandleWrite(old(storage.disk), old(fd.incoming), little, creatable)
            case Handled(disk, reply) =>
              ok && storage.disk == disk && fd.outgoing == old(fd.outgoing) + Taken(reply, old(fd.room))
            case Broken => !ok
  {
    hide FieldValue, Field, B.HasExtension, B.BlockName, IsInt64;
    ghost var b := fd.incoming;
    assert fd.outgoing + Taken([], fd.room) == fd.outgoing;
    var got, rawId := ReadFull(fd, 8);
    if !got { return true; }
    var rawLen;
    got, rawLen := ReadFull(fd, 8);
    if !got { return true; }
    assert b[8..][..8] == b[8..16] && b[8..][8..] == b[16..];
    var id, len := FieldValue(rawId, little), FieldValue(rawLen, little);
    if len < 0 { return false; }
    var data;
    got, data := ReadFull(fd, len);
    if !got { return true; }
    assert b[16..][..len] == b[16..16 + len];
    FieldInt64(rawId, little);
    var _ := storage.StoreBlock(id, data, creatable);
    var _ := WriteFull(fd, [1]);
    ok := true;
  }

  method SendBlock(fd: Socket, storage: B.BlockStorage, little: bool)
    requires storage.Valid()
    modifies fd
    ensures match HandleRead(storage.disk, old(fd.incoming), little)
            case Handled(disk, reply) =>
              disk == storage.disk && fd.outgoing == old(fd.outgoing) + Taken(reply, old(fd.room))
            case Broken => false
  {
    hide FieldValue, Field, B.HasExtension, B.BlockName, IsInt64;
    ghost var sent, room := fd.outgoing, fd.room;
    assert sent + Taken([], room) == sent;
    var got, rawId := ReadFull(fd, 8);
    if !got { return; }
    var data := storage.ReadBlock(FieldValue(rawId, little));
    if data.None? { return; }
    var head := Field(|data.value|, little);
    var _ := WriteFull(fd, head);
    var _ := WriteFull(fd, data.value);
    TakenTwice(head, data.value, room);
    assert (sent + Taken(head, room)) + Taken(data.value, room - |Taken(head, room)|)
        == sent + Taken(ReadReply(data.value, little), room);
  }

  lemma TakenTwice(a: Bytes, b: Bytes, room: nat)
    ensures |Taken(a, room)| <= room
    ensures Taken(a, room) + Taken(b, room - |Taken(a, room)|) == Taken(a + b, room)
  {
  }

  // ---- Both sides together --------------------------------------------------------------------------------

  /** The value reads the same on both hosts: they have the same byte order, or its halves are equal. */
  predicate Agree(v: int, sender: bool, receiver: bool) {
    sender == receiver || v % TWO64 / TWO32 == v % TWO64 % TWO32
  }

  lemma FieldLength(v: int, little: bool)
    ensures |Field(v, little)| == 8
  {
    hide Swap64, BigEndian;
  }

  /** A 64-bit field arrives exactly when the hosts agree on it. */
  lemma FieldArrivesIff(v: int, sender: bool, receiver: bool)
    requires IsInt64(v)
    ensures FieldValue(Field(v, sender), receiver) == v <==> Agree(v, sender, receiver)
  {
    hide Send64, Receive64;
    Transfer64Iff(v % TWO64, sender, receiver);
    FieldLength(v, sender);
    ReceivedBound(Field(v, sender), receiver);
    CastsFit(v);
  }

  lemma ReceivedBound(b: Bytes, little: bool)
    requires |b| == 8
    ensures Receive64(b, little) < TWO64
  {
    hide BigEndian, FromBigEndian, FromLittleEndian, Htonl;
    Widths();
    FromBigEndianBound(b);
    LittleBound(b);
    var w := FromNative(b, little);
    HtonlBound(w % TWO32, little);
    HtonlBound(w / TWO32, little);
  }

  /** The fields of a write request, as the server takes them apart. */
  lemma WriteFields(id: int, data: Bytes, little: bool)
    ensures var b := WriteRequest(id, data, little)[1..];
            |b| == 16 + |data| && b[..8] == Field(id, little) && b[8..16] == Field(|data|, little) &&
            b[16..] == data && b[16..16 + |data|] == data && WriteRequest(id, data, little)[0] == OP_WRITE_BLOCK
  {
    hide Field;
    FieldLength(id, little);
    FieldLength(|data|, little);
    assert WriteRequest(id, data, little)[1..] == Field(id, little) + (Field(|data|, little) + data);
  }

  /** Requests start with the byte 80 for a write and 81 for a read; the id and the length follow in eight bytes each.
      */
  lemma RequestLayout(id: int, data: Bytes, little: bool)
    ensures WriteRequest(id, data, little) == [80] + Field(id, little) + Field(|data|, little) + data
    ensures ReadRequest(id, little) == [81] + Field(id, little)
    ensures |Field(id, little)| == 8 && (little ==> Field(id, little) == LongBytes(id))
  {
    hide Swap64, BigEndian, Native;
    FieldLength(id, little);
    if little {
      SentBytes(id % TWO64, little);
      LongIsBigEndian(id);
    }
  }

  /** Any other first byte, or none, is ignored. */
  lemma OtherRequests(disk: Disk, stream: Bytes, little: bool, creatable: bool)
    requires stream == [] || (stream[0] != 80 && stream[0] != 81)
    ensures Handle(disk, stream, little, creatable) == Handled(disk, [])
  {
  }

  lemma OtherStored(disk: Disk, id: int, data: Bytes, got: int, part: Bytes)
    requires id !in disk
    ensures disk[got := part] == disk[id := data] ==> got == id && part == data
  {
    if got != id {
      assert id in disk[id := data] && id !in disk[got := part];
    } else {
      assert disk[got := part][id] == part && disk[id := data][id] == data;
    }
  }

  /** A write request is acknowledged and its block stored under the new id with exactly its bytes, exactly when the
      hosts agree on the id and the length and the block file can be created. */
  lemma WriteArrivesIff(disk: Disk, id: int, data: Bytes, client: bool, server: bool, creatable: bool)
    requires IsInt64(id) && IsInt64(|data|) && id !in disk
    ensures Handle(disk, WriteRequest(id, data, client), server, creatable) == Handled(disk[id := data], [1]) <==>
              Agree(id, client, server) && Agree(|data|, client, server) && creatable
  {
    hide Field, FieldValue, IsInt64, Agree;
    WriteFields(id, data, client);
    FieldArrivesIff(id, client, server);
    FieldArrivesIff(|data|, client, server);
    var b := WriteRequest(id, data, client)[1..];
    var got, len := FieldValue(Field(id, client), server), FieldValue(Field(|data|, client), server);
    assert id in disk[id := data];
    if 0 <= len <= |data| {
      assert b[16..16 + len] == data[..len];
      OtherStored(disk, id, data, got, data[..len]);
    }
  }

  /** Between hosts that agree, also a block that is there already is replaced; and the acknowledgement comes whether
      or not the block file could be created. */
  lemma WriteArrives(disk: Disk, id: int, data: Bytes, client: bool, server: bool, creatable: bool)
    requires IsInt64(id) && IsInt64(|data|) && Agree(id, client, server) && Agree(|data|, client, server)
    ensures Handle(disk, WriteRequest(id, data, client), server, creatable)
         == Handled(if creatable then disk[id := data] else disk, [1])
  {
    hide Field, FieldValue, IsInt64, Agree;
    WriteFields(id, data, client);
    FieldArrivesIff(id, client, server);
    FieldArrivesIff(|data|, client, server);
  }

  /** Cut after n bytes, a write request stores nothing and gets no answer exactly when the length the server reads is
      more than what arrives after the fields. */
  lemma CutWriteIff(disk: Disk, id: int, data: Bytes, client: bool, server: bool, creatable: bool, n: nat)
    requires n < |WriteRequest(id, data, client)|
    ensures Handle(disk, WriteRequest(id, data, client)[..n], server, creatable) == Handled(disk, []) <==>
              n < 17 || FieldValue(Field(|data|, client), server) > n - 17
  {
    hide Field, FieldValue;
    var stream := WriteRequest(id, data, client)[..n];
    WriteFields(id, data, client);
    if n >= 1 {
      assert stream[0] == OP_WRITE_BLOCK;
      var whole := WriteRequest(id, data, client)[1..];
      assert stream[1..] == whole[..n - 1];
      if n >= 17 { assert stream[1..][8..16] == whole[8..16]; }
    }
  }

  /** So between hosts that agree on the length, a request cut anywhere stores nothing. */
  lemma CutWriteStoresNothing(disk: Disk, id: int, data: Bytes, client: bool, server: bool, creatable: bool, n: nat)
    requires IsInt64(|data|) && Agree(|data|, client, server) && n < |WriteRequest(id, data, client)|
    ensures Handle(disk, WriteRequest(id, data, client)[..n], server, creatable) == Handled(disk, [])
  {
    hide Field, FieldValue, IsInt64, Agree;
    CutWriteIff(disk, id, data, client, server, creatable, n);
    FieldArrivesIff(|data|, client, server);
    FieldLength(id, client);
    FieldLength(|data|, client);
  }

  lemma ReplyRead(data: Bytes, client: bool, server: bool, n: nat)
    requires IsInt64(|data|) && n <= |ReadReply(data, server)| && Agree(|data|, server, client)
    ensures DecodeReply(ReadReply(data, server)[..n], client) == if n < 8 + |data| then None else Some(data)
  {
    hide Field, FieldValue, IsInt64, Agree;
    var b := ReadReply(data, server)[..n];
    FieldLength(|data|, server);
    FieldArrivesIff(|data|, server, client);
    if n >= 8 {
      assert b[..8] == Field(|data|, server);
      if n == 8 + |data| { assert b[8..8 + |data|] == data; }
    }
  }

  /** The part of the reply that arrives for each fate of the connection. */
  function Arriving(fate: Fate, reply: Bytes): Bytes {
    match fate
    case Refused => []
    case CutBeforeLength => []
    case CutInData(got) => Taken(reply, 8 + got)
    case Delivered => reply
  }

  /** The id the server reads is the one that was sent exactly when the hosts agree on it. */
  function IdRead(id: int, client: bool, server: bool): (got: int)
    requires IsInt64(id)
    ensures got == id <==> Agree(id, client, server)
  {
    FieldArrivesIff(id, client, server);
    FieldValue(Field(id, client), server)
  }

  /** Over the wire, a read brings exactly the stored bytes of the block whose id the server reads, and succeeds
      exactly in the cases the fallback loop counts as sent. The hosts agree on the block's length. */
  lemma ReadArrivesIff(disk: Disk, id: int, fate: Fate, client: bool, server: bool, creatable: bool)
    requires IsInt64(id)
    requires var got := IdRead(id, client, server);
             got in disk ==> IsInt64(|disk[got]|) && Agree(|disk[got]|, server, client)
    ensures Handle(disk, ReadRequest(id, client), server, creatable).Handled?
    ensures var got := IdRead(id, client, server);
            DecodeReply(Arriving(fate, Handle(disk, ReadRequest(id, client), server, creatable).reply), client)
            == if got in disk && (fate.Delivered? || (fate.CutInData? && fate.got >= |disk[got]|)) then Some(disk[got])
               else None
  {
    hide Field, FieldValue, IsInt64, DecodeReply, Agree;
    var got := IdRead(id, client, server);
    var b := ReadRequest(id, client)[1..];
    FieldLength(id, client);
    assert b == Field(id, client) && b[..8] == b;
    NothingDecodes(client);
    if got in disk {
      var reply := ReadReply(disk[got], server);
      FieldLength(|disk[got]|, server);
      assert reply[..|reply|] == reply;
      ReplyRead(disk[got], client, server, |Arriving(fate, reply)|);
      assert Arriving(fate, reply) == reply[..|Arriving(fate, reply)|];
    } else {
      assert Arriving(fate, []) == [];
    }
  }

  lemma NothingDecodes(little: bool)
    ensures DecodeReply([], little) == None
  {
  }
}
