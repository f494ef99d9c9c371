/** The messages between DistJobTracker and TaskTracker: each is written by hand on one side and read by hand on
    the other. */
module MapRedCodec {
  import opened Options
  import opened Order
  import opened Bytes
  import opened Buffer
  import opened WireLists
  import opened DistJobTracker

  function TypeNumber(t: TaskType): int {
    match t
    case MapTask => 0
    case ReduceTask => 1
  }

  /** Only the map type is told apart. */
  function TypeOf(n: int): TaskType {
    if n == 0 then MapTask else ReduceTask
  }

  // ---- Map output locations -------------------------------------------------------------------------------

  function LocationBytes(l: Location): Bytes {
    StringBytes(l.taskId) + StringBytes(l.host) + IntBytes(l.port) + IntBytes(l.partition)
  }

  function DecodeLocation(b: Bytes): Decoded<Location> {
    match DecodeString(b)
    case None => None
    case Some((taskId, b1)) =>
      match DecodeString(b1)
      case None => None
      case Some((host, b2)) =>
        match DecodeInt(b2)
        case None => None
        case Some((port, b3)) =>
          match DecodeInt(b3)
          case None => None
          case Some((partition, b4)) => Some((Location(taskId, host, port, partition), b4))
  }

  predicate WireLocation(l: Location) {
    WireString(l.taskId) && WireString(l.host) && IsInt32(l.port) && IsInt32(l.partition)
  }

  lemma LocationRoundTrip(l: Location)
    requires WireLocation(l)
    ensures ReadBack(LocationBytes, DecodeLocation, l)
  {
    hide StringBytes, IntBytes, DecodeString, DecodeInt, IsInt32;
    forall rest ensures DecodeLocation(LocationBytes(l) + rest) == Some((l, rest)) {
      var b3 := IntBytes(l.partition) + rest;
      var b2 := IntBytes(l.port) + b3;
      var b1 := StringBytes(l.host) + b2;
      assert LocationBytes(l) + rest == StringBytes(l.taskId) + b1;
      StringRoundTripIff(l.taskId, b1);
      StringRoundTripIff(l.host, b2);
      IntRoundTripIff(l.port, b3);
      IntRoundTripIff(l.partition, rest);
    }
  }

  // ---- The poll reply -------------------------------------------------------------------------------------

  /** Handler 1's reply. For a map the place of the location count holds an empty string. */
  function PollReplyBytes(reply: Option<Task>): Bytes {
    match reply
    case None => IntBytes(0)
    case Some(t) =>
      IntBytes(1) + StringBytes(t.taskId) + IntBytes(TypeNumber(t.taskType)) + IntBytes(t.partition) +
      if t.taskType.MapTask? then StringBytes(t.inputPath) + StringBytes("") + StringBytes("")
      else StringBytes("") + StringBytes(t.outputPath) + ListBytes(LocationBytes, t.mapOutputs)
  }

  /** What PollLoop reads. */
  function DecodePollReply(b: Bytes): Decoded<Option<Task>> {
    match DecodeInt(b)
    case None => None
    case Some((hasTask, b1)) =>
      if hasTask == 0 then Some((None, b1))
      else
        match DecodeString(b1)
        case None => None
        case Some((taskId, b2)) =>
          match DecodeInt(b2)
          case None => None
          case Some((number, b3)) =>
            match DecodeInt(b3)
            case None => None
            case Some((partition, b4)) =>
              if TypeOf(number).MapTask? then DecodeMapPart(taskId, partition, b4)
              else DecodeReducePart(taskId, partition, b4)
  }

  function DecodeMapPart(taskId: string, partition: int, b: Bytes): Decoded<Option<Task>> {
    match DecodeString(b)
    case None => None
    case Some((inputPath, b1)) =>
      match DecodeString(b1)
      case None => None
      case Some((_, b2)) =>
        match DecodeInt(b2)
        case None => None
        case Some((_, b3)) => Some((Some(Task(taskId, MapTask, partition, inputPath, "", [])), b3))
  }

  function DecodeReducePart(taskId: string, partition: int, b: Bytes): Decoded<Option<Task>> {
    match DecodeString(b)
    case None => None
    case Some((_, b1)) =>
      match DecodeString(b1)
      case None => None
      case Some((outputPath, b2)) =>
        match DecodeList(DecodeLocation, b2)
        case None => None
        case Some((locations, b3)) =>
          Some((Some(Task(taskId, ReduceTask, partition, "", outputPath, locations)), b3))
  }

  /** A task whose texts and numbers fit the wire and that holds only what the reply carries for its type. */
  predicate WireTask(t: Task) {
    WireString(t.taskId) && IsInt32(t.partition) &&
    (if t.taskType.MapTask? then WireString(t.inputPath) && t.outputPath == "" && t.mapOutputs == []
     else t.inputPath == "" && WireString(t.outputPath) && |t.mapOutputs| < TWO31 &&
          forall i :: 0 <= i < |t.mapOutputs| ==> WireLocation(t.mapOutputs[i]))
  }

  lemma EmptyString()
    ensures StringBytes("") == IntBytes(0) && WireString("")
  {
    hide IntBytes;
    assert Raw("") == [];
  }

  lemma MapPartRoundTrip(t: Task, rest: Bytes)
    requires WireTask(t) && t.taskType.MapTask?
    ensures DecodeMapPart(t.taskId, t.partition, StringBytes(t.inputPath) + StringBytes("") + StringBytes("") + rest)
         == Some((Some(t), rest))
  {
    hide StringBytes, IntBytes, DecodeString, DecodeInt, IsInt32;
    var b2 := StringBytes("") + rest;
    var b1 := StringBytes("") + b2;
    assert StringBytes(t.inputPath) + StringBytes("") + StringBytes("") + rest == StringBytes(t.inputPath) + b1;
    StringRoundTripIff(t.inputPath, b1);
    EmptyString();
    StringRoundTripIff("", b2);
    IntRead(0, rest);
  }

  lemma ReducePartRoundTrip(t: Task, rest: Bytes)
    requires WireTask(t) && t.taskType.ReduceTask?
    ensures DecodeReducePart(t.taskId, t.partition, StringBytes("") + StringBytes(t.outputPath) +
                                                    ListBytes(LocationBytes, t.mapOutputs) + rest)
         == Some((Some(t), rest))
  {
    hide StringBytes, IntBytes, DecodeString, DecodeInt, IsInt32, ListBytes, DecodeList, WireLocation;
    var b2 := ListBytes(LocationBytes, t.mapOutputs) + rest;
    var b1 := StringBytes(t.outputPath) + b2;
    assert StringBytes("") + StringBytes(t.outputPath) + ListBytes(LocationBytes, t.mapOutputs) + rest
        == StringBytes("") + b1;
    EmptyString();
    StringRoundTripIff("", b1);
    StringRoundTripIff(t.outputPath, b2);
    forall i | 0 <= i < |t.mapOutputs| ensures ReadBack(LocationBytes, DecodeLocation, t.mapOutputs[i]) {
      LocationRoundTrip(t.mapOutputs[i]);
    }
    ListRoundTrip(LocationBytes, DecodeLocation, t.mapOutputs, rest);
  }

  /** The poller reads exactly the reply the job tracker meant. */
  lemma PollReplyRoundTrip(reply: Option<Task>, rest: Bytes)
    requires reply.Some? ==> WireTask(reply.value)
    ensures DecodePollReply(PollReplyBytes(reply) + rest) == Some((reply, rest))
  {
    hide StringBytes, IntBytes, DecodeString, DecodeInt, IsInt32, ListBytes, WireLocation, DecodeMapPart,
         DecodeReducePart;
    match reply
    case None => IntRead(0, rest);
    case Some(t) =>
      var part := if t.taskType.MapTask? then StringBytes(t.inputPath) + StringBytes("") + StringBytes("")
                  else StringBytes("") + StringBytes(t.outputPath) + ListBytes(LocationBytes, t.mapOutputs);
      var b4 := part + rest;
      var b3 := IntBytes(t.partition) + b4;
      var b2 := IntBytes(TypeNumber(t.taskType)) + b3;
      var b1 := StringBytes(t.taskId) + b2;
      assert PollReplyBytes(reply) + rest == IntBytes(1) + b1;
      IntRead(1, b1);
      StringRoundTripIff(t.taskId, b2);
      IntRead(TypeNumber(t.taskType), b3);
      IntRoundTripIff(t.partition, b4);
      if t.taskType.MapTask? { MapPartRoundTrip(t, rest); } else { ReducePartRoundTrip(t, rest); }
  }

  /** The queues hold what the handlers put there, and everything fits the wire. */
  ghost predicate WireState(jt: Jt) {
    && WireString(jt.outputPath) && IsInt32(jt.reducesCreated) && |jt.locations| < TWO31
    && (forall i :: 0 <= i < |jt.locations| ==> WireLocation(jt.locations[i]))
    && (forall i :: 0 <= i < |jt.pendingMaps| ==>
          jt.pendingMaps[i].taskType.MapTask? && WireTask(MapReply(jt.pendingMaps[i], "")))
    && (forall i :: 0 <= i < |jt.pendingReduces| ==>
          jt.pendingReduces[i].taskType.ReduceTask? && WireTask(jt.pendingReduces[i]))
  }

  lemma NumberFits(r: int)
    requires IsInt32(r)
    ensures |Text.IntText(r)| <= 11 && ByteString(Text.IntText(r))
  {
    var n: nat := if r < 0 then -r else r;
    hide Text.NatText;
    TenDigits();
    ShortNumber(n, 10);
    var digits := Text.NatText(n);
    assert Text.IntText(r) == if r < 0 then "-" + digits else digits;
  }

  lemma ReduceIdFits(r: int)
    requires IsInt32(r)
    ensures WireString(ReduceTaskId(r))
  {
    hide Text.IntText;
    NumberFits(r);
  }

  lemma MapIdFits(m: int)
    requires IsInt32(m)
    ensures WireString(MapTaskId(m))
  {
    hide Text.IntText;
    NumberFits(m);
  }

  function Pow10(k: nat): int {
    if k == 0 then 1 else 10 * Pow10(k - 1)
  }

  lemma TenDigits()
    ensures Pow10(10) == 10000000000
  {
    assert Pow10(5) == 100000;
    assert Pow10(7) == 10000000;
    assert Pow10(9) == 1000000000;
  }

  lemma {:induction false} ShortNumber(n: nat, k: nat)
    requires n < Pow10(k) && k >= 1
    ensures |Text.NatText(n)| <= k && ByteString(Text.NatText(n))
    decreases k
  {
    if n >= 10 {
      assert Pow10(0) == 1 && Pow10(1) == 10;
      ShortNumber(n / 10, k - 1);
    }
  }

  /** Over the wire, a poll assigns the very task that Poll picks. */
  lemma PolledTaskArrives(jt: Jt)
    requires WireState(jt)
    ensures DecodePollReply(PollReplyBytes(Poll(jt).1)) == Some((Poll(jt).1, []))
  {
    hide PollReplyBytes, DecodePollReply, WireLocation, WireString, IsInt32, ReduceTaskId;
    ReduceIdFits(jt.reducesCreated);
    var reply := Poll(jt).1;
    if reply.Some? && jt.pendingMaps != [] {
      assert MapReply(jt.pendingMaps[|jt.pendingMaps| - 1], "") == reply.value;
    }
    PollReplyRoundTrip(reply, []);
    assert PollReplyBytes(reply) + [] == PollReplyBytes(reply);
  }

  // ---- The completion report ------------------------------------------------------------------------------

  datatype ReportMessage = ReportMessage(taskId: string, taskType: TaskType, parts: int, host: string, port: int)

  function ReportBytes(m: ReportMessage): Bytes {
    StringBytes(m.taskId) + IntBytes(TypeNumber(m.taskType)) +
    if m.taskType.MapTask? then IntBytes(m.parts) + StringBytes(m.host) + IntBytes(m.port) else []
  }

  /** What handler 2 reads. */
  function DecodeReport(b: Bytes): Decoded<ReportMessage> {
    match DecodeString(b)
    case None => None
    case Some((taskId, b1)) =>
      match DecodeInt(b1)
      case None => None
      case Some((number, b2)) =>
        if TypeOf(number).ReduceTask? then Some((ReportMessage(taskId, ReduceTask, 0, "", 0), b2))
        else
          match DecodeInt(b2)
          case None => None
          case Some((parts, b3)) =>
            match DecodeString(b3)
            case None => None
            case Some((host, b4)) =>
              match DecodeInt(b4)
              case None => None
              case Some((port, b5)) => Some((ReportMessage(taskId, MapTask, parts, host, port), b5))
  }

  /** The job tracker is told the task, and for a map the part count and the address of its tracker. */
  lemma ReportRoundTrip(m: ReportMessage, rest: Bytes)
    requires WireString(m.taskId) && WireString(m.host) && IsInt32(m.parts) && IsInt32(m.port)
    ensures DecodeReport(ReportBytes(m) + rest)
         == Some((if m.taskType.MapTask? then m else ReportMessage(m.taskId, ReduceTask, 0, "", 0), rest))
  {
    hide StringBytes, IntBytes, DecodeString, DecodeInt, IsInt32;
    var b4 := IntBytes(m.port) + rest;
    var b3 := StringBytes(m.host) + b4;
    var b2 := if m.taskType.MapTask? then IntBytes(m.parts) + b3 else rest;
    var b1 := IntBytes(TypeNumber(m.taskType)) + b2;
    assert ReportBytes(m) + rest == StringBytes(m.taskId) + b1;
    StringRoundTripIff(m.taskId, b1);
    IntRead(TypeNumber(m.taskType), b2);
    if m.taskType.MapTask? {
      IntRoundTripIff(m.parts, b3);
      StringRoundTripIff(m.host, b4);
      IntRoundTripIff(m.port, rest);
    }
  }

  // ---- The shuffle reply ----------------------------------------------------------------------------------

  function PairBytes(p: KV): Bytes {
    StringBytes(p.0) + LongBytes(p.1)
  }

  function DecodePair(b: Bytes): Decoded<KV> {
    match DecodeString(b)
    case None => None
    case Some((k, b1)) =>
      match DecodeLong(b1)
      case None => None
      case Some((v, b2)) => Some(((k, v), b2))
  }

  function ShuffleReplyBytes(reply: Option<seq<KV>>): Bytes {
    match reply
    case None => IntBytes(0)
    case Some(pairs) => IntBytes(1) + ListBytes(PairBytes, pairs)
  }

  function DecodeShuffleReply(b: Bytes): Decoded<Option<seq<KV>>> {
    match DecodeInt(b)
    case None => None
    case Some((found, b1)) =>
      if found == 0 then Some((None, b1))
      else
        match DecodeList(DecodePair, b1)
        case None => None
        case Some((pairs, b2)) => Some((Some(pairs), b2))
  }

  lemma PairRoundTrip(p: KV)
    requires WireString(p.0) && Text.IsInt64(p.1)
    ensures ReadBack(PairBytes, DecodePair, p)
  {
    hide StringBytes, LongBytes, DecodeString, DecodeLong;
    forall rest ensures DecodePair(PairBytes(p) + rest) == Some((p, rest)) {
      assert PairBytes(p) + rest == StringBytes(p.0) + (LongBytes(p.1) + rest);
      StringRoundTripIff(p.0, LongBytes(p.1) + rest);
      LongRoundTripIff(p.1, rest);
    }
  }

  /** A reduce receives the stored pairs, in order, or learns that there are none. */
  lemma ShuffleReplyRoundTrip(reply: Option<seq<KV>>, rest: Bytes)
    requires reply.Some? ==> |reply.value| < TWO31
    requires reply.Some? ==>
      forall i :: 0 <= i < |reply.value| ==> WireString(reply.value[i].0) && Text.IsInt64(reply.value[i].1)
    ensures DecodeShuffleReply(ShuffleReplyBytes(reply) + rest) == Some((reply, rest))
  {
    hide IntBytes, DecodeInt, ListBytes, DecodeList, WireString, Text.IsInt64;
    match reply
    case None => IntRead(0, rest);
    case Some(pairs) =>
      assert ShuffleReplyBytes(reply) + rest == IntBytes(1) + (ListBytes(PairBytes, pairs) + rest);
      IntRead(1, ListBytes(PairBytes, pairs) + rest);
      forall i | 0 <= i < |pairs| ensures ReadBack(PairBytes, DecodePair, pairs[i]) { PairRoundTrip(pairs[i]); }
      ListRoundTrip(PairBytes, DecodePair, pairs, rest);
  }

  // ---- The bytes of the messages --------------------------------------------------------------------------

  lemma SmallInts()
    ensures IntBytes(0) == [0, 0, 0, 0] && IntBytes(1) == [0, 0, 0, 1]
    ensures StringBytes("") == [0, 0, 0, 0]
  {
    IntBytesAre(0);
    IntBytesAre(1);
    assert [0, 0, 0, 0] + Raw("") == [0, 0, 0, 0];
  }

  /** The reply to a poll: 0 for nothing to do; else 1, the task id, 0 for a map and 1 for a reduce, the partition,
      and three more fields, of which a map uses the first and a reduce the other two. */
  lemma PollReplyLayout(t: Task)
    ensures PollReplyBytes(None) == [0, 0, 0, 0]
    ensures PollReplyBytes(Some(t))
         == [0, 0, 0, 1] + StringBytes(t.taskId) +
            (if t.taskType.MapTask? then [0, 0, 0, 0] else [0, 0, 0, 1]) + IntBytes(t.partition) +
            (if t.taskType.MapTask? then StringBytes(t.inputPath) + [0, 0, 0, 0] + [0, 0, 0, 0]
             else [0, 0, 0, 0] + StringBytes(t.outputPath) + ListBytes(LocationBytes, t.mapOutputs))
  {
    hide StringBytes, IntBytes, ListBytes;
    SmallInts();
  }

  /** The report of a map: its id, 0, the part count and its tracker's address; of a reduce: its id and 1. */
  lemma ReportLayout(m: ReportMessage)
    ensures ReportBytes(m)
         == StringBytes(m.taskId) +
            if m.taskType.MapTask? then [0, 0, 0, 0] + (IntBytes(m.parts) + StringBytes(m.host) + IntBytes(m.port))
            else [0, 0, 0, 1]
  {
    hide StringBytes, IntBytes;
    SmallInts();
    var number := IntBytes(TypeNumber(m.taskType));
    var more := IntBytes(m.parts) + StringBytes(m.host) + IntBytes(m.port);
    assert StringBytes(m.taskId) + number + more == StringBytes(m.taskId) + (number + more);
    assert StringBytes(m.taskId) + number + [] == StringBytes(m.taskId) + number;
  }

  /** The reply of a shuffle server: 0 if there is nothing stored; else 1, the number of pairs, and the pairs. */
  lemma ShuffleReplyLayout(pairs: seq<KV>)
    ensures ShuffleReplyBytes(None) == [0, 0, 0, 0]
    ensures ShuffleReplyBytes(Some(pairs)) == [0, 0, 0, 1] + ListBytes(PairBytes, pairs)
  {
    hide IntBytes, ListBytes;
    SmallInts();
  }

  // ---- The loops over the buffers -------------------------------------------------------------------------

  method WritePollReply(out: OutputBuffer, reply: Option<Task>)
    modifies out
    ensures out.buffer == old(out.buffer) + PollReplyBytes(reply)
  {
    hide StringBytes, IntBytes, ListBytes;
    ghost var start := out.buffer;
    if reply.None? {
      out.WriteInt(0);
      return;
    }
    var t := reply.value;
    out.WriteInt(1);
    out.WriteString(t.taskId);
    out.WriteInt(TypeNumber(t.taskType));
    out.WriteInt(t.partition);
    ghost var head := IntBytes(1) + StringBytes(t.taskId) + IntBytes(TypeNumber(t.taskType)) + IntBytes(t.partition);
    assert out.buffer == start + head;
    if t.taskType == MapTask {
      out.WriteString(t.inputPath);
      out.WriteString("");
      out.WriteString("");
      ghost var tail := StringBytes(t.inputPath) + StringBytes("") + StringBytes("");
      assert out.buffer == start + (head + tail);
    } else {
      out.WriteString("");
      out.WriteString(t.outputPath);
      WriteLocations(out, t.mapOutputs);
      ghost var tail := StringBytes("") + StringBytes(t.outputPath) + ListBytes(LocationBytes, t.mapOutputs);
      assert out.buffer == start + (head + tail);
    }
  }

  method WriteLocations(out: OutputBuffer, locations: seq<Location>)
    modifies out
    ensures out.buffer == old(out.buffer) + ListBytes(LocationBytes, locations)
  {
    hide StringBytes, IntBytes, ItemsBytes;
    ghost var start := out.buffer;
    out.WriteInt(|locations|);
    NoItems(LocationBytes, locations);
    for i := 0 to |locations|
      invariant out.buffer == start + (IntBytes(|locations|) + ItemsBytes(LocationBytes, locations[..i]))
    {
      var loc := locations[i];
      ghost var done := ItemsBytes(LocationBytes, locations[..i]);
      out.WriteString(loc.taskId);
      out.WriteString(loc.host);
      out.WriteInt(loc.port);
      out.WriteInt(loc.partition);
      ItemsSnoc(LocationBytes, locations, i);
      assert out.buffer == start + (IntBytes(|locations|) + (done + LocationBytes(loc)));
    }
  }

  method ReadLocation(input: InputBuffer) returns (loc: Option<Location>)
    requires input.Valid()
    modifies input
    ensures input.Valid() && Took(loc, input.Rest(), DecodeLocation(old(input.Rest())))
  {
    hide DecodeString, DecodeInt, InputBuffer.Rest;
    var taskId := input.ReadString();
    if taskId.None? { return None; }
    var host := input.ReadString();
    if host.None? { return None; }
    var port := input.ReadInt();
    if port.None? { return None; }
    var partition := input.ReadInt();
    if partition.None? { return None; }
    loc := Some(Location(taskId.value, host.value, port.value, partition.value));
  }

  method ReadLocations(input: InputBuffer) returns (locations: Option<seq<Location>>)
    requires input.Valid()
    modifies input
    ensures input.Valid() && Took(locations, input.Rest(), DecodeList(DecodeLocation, old(input.Rest())))
  {
    hide DecodeItems, DecodeInt, DecodeLocation, InputBuffer.Rest, ReadSoFar;
    var count := input.ReadInt();
    if count.None? { return None; }
    ghost var all := DecodeItems(DecodeLocation, count.value, input.Rest());
    var done: seq<Location> := [];
    ReadStart(DecodeLocation, count.value, input.Rest());
    var i := 0;
    while i < count.value
      invariant 0 <= i && (i <= count.value || i == 0) && input.Valid()
      invariant ReadSoFar(DecodeLocation, all, done, count.value - i, input.Rest())
    {
      ReadStep(DecodeLocation, all, done, count.value - i, input.Rest());
      var loc := ReadLocation(input);
      if loc.None? { return None; }
      done := done + [loc.value];
      i := i + 1;
    }
    ReadEnd(DecodeLocation, all, done, count.value - i, input.Rest());
    locations := Some(done);
  }

  /** None stands for a read past the end of the reply. */
  method ReadPollReply(input: InputBuffer) returns (reply: Option<Option<Task>>)
    requires input.Valid()
    modifies input
    ensures input.Valid() && Took(reply, input.Rest(), DecodePollReply(old(input.Rest())))
  {
    hide DecodeString, DecodeInt, DecodeMapPart, DecodeReducePart, InputBuffer.Rest;
    var hasTask := input.ReadInt();
    if hasTask.None? { return None; }
    if hasTask.value == 0 { return Some(None); }
    var taskId := input.ReadString();
    if taskId.None? { return None; }
    var number := input.ReadInt();
    if number.None? { return None; }
    var partition := input.ReadInt();
    if partition.None? { return None; }
    if TypeOf(number.value) == MapTask {
      reply := ReadMapPart(input, taskId.value, partition.value);
    } else {
      reply := ReadReducePart(input, taskId.value, partition.value);
    }
  }

  method ReadMapPart(input: InputBuffer, taskId: string, partition: int) returns (reply: Option<Option<Task>>)
    requires input.Valid()
    modifies input
    ensures input.Valid() && Took(reply, input.Rest(), DecodeMapPart(taskId, partition, old(input.Rest())))
  {
    hide DecodeString, DecodeInt, InputBuffer.Rest;
    var inputPath := input.ReadString();
    if inputPath.None? { return None; }
    var skipped := input.ReadString();
    if skipped.None? { return None; }
    var count := input.ReadInt();
    if count.None? { return None; }
    reply := Some(Some(Task(taskId, MapTask, partition, inputPath.value, "", [])));
  }

  method ReadReducePart(input: InputBuffer, taskId: string, partition: int) returns (reply: Option<Option<Task>>)
    requires input.Valid()
    modifies input
    ensures input.Valid() && Took(reply, input.Rest(), DecodeReducePart(taskId, partition, old(input.Rest())))
  {
    hide DecodeString, DecodeList, InputBuffer.Rest;
    var skipped := input.ReadString();
    if skipped.None? { return None; }
    var outputPath := input.ReadString();
    if outputPath.None? { return None; }
    var locations := ReadLocations(input);
    if locations.None? { return None; }
    reply := Some(Some(Task(taskId, ReduceTask, partition, "", outputPath.value, locations.value)));
  }
}
