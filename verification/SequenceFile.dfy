/** Sequence files: a header with random sync bytes, then length-prefixed records with a sync marker after every
    hundred. */
module SequenceFile {
  import opened Options
  import opened Bytes
  import opened Buffer

  const MAGIC: Bytes := [0x53, 0x45, 0x51, 2]
  const SYNC_LENGTH := 16
  const SYNC_ESCAPE := -1
  const SYNC_INTERVAL := 100

  type Record = (Bytes, Bytes)

  // ---- Writing --------------------------------------------------------------------------------------------

  predicate Marked(count: nat) {
    count > 0 && count % SYNC_INTERVAL == 0
  }

  function Marker(count: nat, sync: Bytes): Bytes {
    if Marked(count) then IntBytes(SYNC_ESCAPE) + sync else []
  }

  function PlainRecord(r: Record): Bytes {
    IntBytes(|r.0| + |r.1|) + IntBytes(|r.0|) + r.0 + r.1
  }

  /** Record number `count` of the file. */
  function RecordBytes(count: nat, sync: Bytes, r: Record): Bytes {
    Marker(count, sync) + PlainRecord(r)
  }

  /** The records from number `count` on. */
  function Body(count: nat, sync: Bytes, records: seq<Record>): Bytes
    decreases |records|
  {
    if records == [] then []
    else RecordBytes(count, sync, records[0]) + Body(count + 1, sync, records[1..])
  }

  function FileOf(sync: Bytes, records: seq<Record>): Bytes {
    MAGIC + sync + Body(0, sync, records)
  }

  lemma {:induction false} BodySnoc(count: nat, sync: Bytes, records: seq<Record>, r: Record)
    ensures Body(count, sync, records + [r]) == Body(count, sync, records) + RecordBytes(count + |records|, sync, r)
    decreases |records|
  {
    hide RecordBytes;
    if records == [] {
      assert records + [r] == [r] && [r][1..] == [];
      var bytes := RecordBytes(count, sync, r);
      assert bytes + [] == bytes && [] + bytes == bytes;
    } else {
      assert (records + [r])[1..] == records[1..] + [r];
      BodySnoc(count + 1, sync, records[1..], r);
      assert count + 1 + |records[1..]| == count + |records|;
      var first, rest := RecordBytes(count, sync, records[0]), Body(count + 1, sync, records[1..]);
      var last := RecordBytes(count + |records|, sync, r);
      assert first + (rest + last) == (first + rest) + last;
    }
  }

  method EncodeRecord(count: nat, sync: Bytes, key: Bytes, value: Bytes) returns (bytes: Bytes)
    ensures bytes == RecordBytes(count, sync, (key, value))
  {
    hide IntBytes, Marked;
    var record := new OutputBuffer();
    if Marked(count) {
      record.WriteInt(SYNC_ESCAPE);
      record.WriteRawBytes(sync);
    }
    MarkerIs(count, sync, record.buffer);
    record.WriteInt(|key| + |value|);
    record.WriteInt(|key|);
    record.WriteRawBytes(key);
    record.WriteRawBytes(value);
    bytes := record.buffer;
    RecordIs(count, sync, key, value, bytes);
  }

  lemma MarkerIs(count: nat, sync: Bytes, b: Bytes)
    requires b == if Marked(count) then [] + IntBytes(SYNC_ESCAPE) + sync else []
    ensures b == Marker(count, sync)
  {
    hide IntBytes, Marked;
    assert [] + IntBytes(SYNC_ESCAPE) == IntBytes(SYNC_ESCAPE);
  }

  lemma RecordIs(count: nat, sync: Bytes, key: Bytes, value: Bytes, b: Bytes)
    requires b == Marker(count, sync) + IntBytes(|key| + |value|) + IntBytes(|key|) + key + value
    ensures b == RecordBytes(count, sync, (key, value))
  {
    hide IntBytes, Marker;
    assert b == Marker(count, sync) + (IntBytes(|key| + |value|) + IntBytes(|key|) + key + value);
  }

  class SequenceFileWriter {
    const sync: Bytes
    var file: Bytes
    var count: nat
    ghost var records: seq<Record>

    ghost predicate Valid()
      reads this
    {
      |sync| == SYNC_LENGTH && count == |records| && file == FileOf(sync, records) &&
      forall i :: 0 <= i < |records| ==> records[i].0 != []
    }

    /** The generated sync bytes, and Open. */
    constructor (sync: Bytes)
      requires |sync| == SYNC_LENGTH
      ensures Valid() && records == [] && this.sync == sync
    {
      this.sync, file, count, records := sync, MAGIC + sync, 0, [];
      new;
      assert MAGIC + sync + [] == MAGIC + sync;
    }

    /** False stands for the refusal of a zero-length key. */
    method AppendRaw(key: Bytes, value: Bytes) returns (ok: bool)
      requires Valid()
      modifies this
      ensures Valid() && ok == (key != [])
      ensures records == old(records) + if ok then [(key, value)] else []
    {
      hide Body, RecordBytes;
      if key == [] {
        assert records + [] == records;
        return false;
      }
      var record := EncodeRecord(count, sync, key, value);
      BodySnoc(0, sync, records, (key, value));
      assert (MAGIC + sync + Body(0, sync, records)) + record == MAGIC + sync + (Body(0, sync, records) + record);
      file := file + record;
      count := count + 1;
      records := records + [(key, value)];
      ok := true;
    }
  }

  // ---- The bytes of a file --------------------------------------------------------------------------------

  /** What the writer puts down for record number `count`: after every hundred records a marker, four bytes 255 and
      the 16 sync bytes; then the length of key and value together, that of the key, and both. */
  lemma RecordLayout(count: nat, sync: Bytes, key: Bytes, value: Bytes)
    ensures RecordBytes(count, sync, (key, value))
         == (if count > 0 && count % 100 == 0 then [255, 255, 255, 255] + sync else []) +
            (IntBytes(|key| + |value|) + IntBytes(|key|) + key + value)
  {
    hide BigEndian;
    IntBytesAre(-1);
    assert IntBytes(-1) == [255, 255, 255, 255];
  }

  /** Before record 100 stands a marker, and before no earlier one. */
  lemma FirstMarker(count: nat, sync: Bytes, r: Record)
    ensures count < 100 ==> RecordBytes(count, sync, r) == PlainRecord(r)
    ensures count == 100 ==> RecordBytes(count, sync, r) == [255, 255, 255, 255] + sync + PlainRecord(r)
  {
    hide PlainRecord, BigEndian;
    IntBytesAre(-1);
    assert IntBytes(-1) == [255, 255, 255, 255];
    assert [] + PlainRecord(r) == PlainRecord(r);
  }

  /** A file begins with "SEQ", the number 2 and the 16 sync bytes; the records follow. */
  lemma FileLayout(sync: Bytes, records: seq<Record>)
    requires |sync| == 16
    ensures FileOf(sync, records)[..20] == [0x53, 0x45, 0x51, 2] + sync
    ensures FileOf(sync, records)[20..] == Body(0, sync, records)
  {
    hide Body;
  }

  // ---- Reading --------------------------------------------------------------------------------------------

  /** End: Next returns false. Broken: a negative length makes a resize throw. */
  datatype Outcome = Found(key: Bytes, value: Bytes, rest: Bytes) | End | Broken

  /** Reading a record body after its length was read. */
  function NextBody(len: int, b: Bytes): Outcome {
    if |b| < 4 then End
    else
      var keyLen := ToInt32(FromBigEndian(b[..4]));
      if keyLen < 0 then Broken
      else if |b| - 4 < keyLen then End
      else if len - keyLen < 0 then Broken
      else if |b| - 4 - keyLen < len - keyLen then End
      else Found(b[4..4 + keyLen], b[4 + keyLen..4 + len], b[4 + len..])
  }

  /** Next on the unread rest of the file; a marker is skipped, even past the end. */
  function NextIn(b: Bytes): Outcome
    decreases |b|
  {
    if |b| < 4 then End
    else
      var len := ToInt32(FromBigEndian(b[..4]));
      if len == SYNC_ESCAPE then NextIn(if |b| < 4 + SYNC_LENGTH then [] else b[4 + SYNC_LENGTH..])
      else NextBody(len, b[4..])
  }

  lemma {:induction false} NextShrinks(b: Bytes)
    ensures NextIn(b).Found? ==> |NextIn(b).rest| < |b| && |NextIn(b).key| + |NextIn(b).value| < TWO31
    decreases |b|
  {
    if |b| >= 4 {
      var len := ToInt32(FromBigEndian(b[..4]));
      CastsFit(FromBigEndian(b[..4]));
      if len == SYNC_ESCAPE { NextShrinks(if |b| < 4 + SYNC_LENGTH then [] else b[4 + SYNC_LENGTH..]); }
    }
  }

  /** The records that repeated Next returns. */
  function ReadRecords(b: Bytes): seq<Record>
    decreases |b|
  {
    match NextIn(b)
    case Found(key, value, rest) => NextShrinks(b); [(key, value)] + ReadRecords(rest)
    case End => []
    case Broken => []
  }

  /** Opening the file and reading it to the end; None stands for a refused header. */
  function ReadAll(file: Bytes): Option<seq<Record>> {
    if |file| < 4 + SYNC_LENGTH || file[..4] != MAGIC then None else Some(ReadRecords(file[4 + SYNC_LENGTH..]))
  }

  /** What Next makes of any two lengths and the bytes behind them: a record, the end of the file, or the exception of a
      resize to a negative size, of the key or of the value. */
  lemma NextOutcome(len: int, keyLen: int, rest: Bytes)
    requires IsInt32(len) && IsInt32(keyLen) && len != -1
    ensures NextIn(IntBytes(len) + IntBytes(keyLen) + rest)
         == if keyLen < 0 then Broken
            else if |rest| < keyLen then End
            else if len < keyLen then Broken
            else if |rest| < len then End
            else Found(rest[..keyLen], rest[keyLen..len], rest[len..])
  {
    hide NextBody, NextIn, IntBytes, FromBigEndian, ToInt32, IsInt32;
    var b, after := IntBytes(len) + IntBytes(keyLen) + rest, IntBytes(keyLen) + rest;
    assert b == IntBytes(len) + after;
    LengthRead(len, after);
    NextInIs(b);
    BodyOutcome(len, keyLen, rest);
  }

  lemma LengthRead(len: int, after: Bytes)
    requires IsInt32(len)
    ensures ToInt32(FromBigEndian((IntBytes(len) + after)[..4])) == len && (IntBytes(len) + after)[4..] == after
  {
    hide IntBytes, FromBigEndian, ToInt32, IsInt32;
    IntRoundTripIff(len, after);
  }

  lemma BodyOutcome(len: int, keyLen: int, rest: Bytes)
    requires IsInt32(keyLen)
    ensures NextBody(len, IntBytes(keyLen) + rest)
         == if keyLen < 0 then Broken
            else if |rest| < keyLen then End
            else if len < keyLen then Broken
            else if |rest| < len then End
            else Found(rest[..keyLen], rest[keyLen..len], rest[len..])
  {
    hide IntBytes, FromBigEndian, ToInt32, IsInt32;
    var after := IntBytes(keyLen) + rest;
    LengthRead(keyLen, rest);
    if 0 <= keyLen <= len <= |rest| {
      assert after[4..4 + keyLen] == rest[..keyLen] && after[4 + keyLen..4 + len] == rest[keyLen..len];
      assert after[4 + len..] == rest[len..];
    }
  }

  class SequenceFileReader {
    const file: Bytes
    var pos: nat
    var failed: bool          // the stream's fail bit, which stays set
    var keyBuf: Bytes
    var valBuf: Bytes

    function Rest(): Bytes
      reads this
    {
      if failed || pos > |file| then [] else file[pos..]
    }

    constructor (file: Bytes)
      ensures Rest() == file && this.file == file && !failed && pos == 0
    {
      this.file, pos, failed, keyBuf, valBuf := file, 0, false, [], [];
    }

    method ReadRaw(n: nat) returns (ok: bool, buf: Bytes)
      requires n > 0 || !failed
      modifies `pos, `failed
      ensures ok <==> n == 0 || |old(Rest())| >= n
      ensures ok && n > 0 ==> buf == old(Rest())[..n] && Rest() == old(Rest())[n..] && !failed
      ensures n == 0 ==> buf == [] && Rest() == old(Rest()) && !failed
      ensures !ok ==> Rest() == []
    {
      if n == 0 { return true, []; }
      if failed || pos + n > |file| {
        failed := true;
        return false, [];
      }
      assert file[pos..][..n] == file[pos..pos + n] && file[pos..][n..] == file[pos + n..];
      ok, buf := true, file[pos..pos + n];
      pos := pos + n;
    }

    /** The status of Open: the magic bytes and a whole header. */
    method Open() returns (ok: bool)
      requires Rest() == file && !failed
      modifies `pos, `failed
      ensures ok <==> ReadAll(file).Some?
      ensures ok <==> |file| >= 20 && file[..4] == [0x53, 0x45, 0x51, 2]
      ensures ok ==> Rest() == file[4 + SYNC_LENGTH..] && Rest() == file[20..] && !failed
    {
      var got, magic := ReadRaw(4);
      if !got || magic != MAGIC { return false; }
      var sync;
      got, sync := ReadRaw(SYNC_LENGTH);
      if !got { return false; }
      assert file[4..][SYNC_LENGTH..] == file[4 + SYNC_LENGTH..];
      ok := true;
    }

    /** None stands for the exception of a resize to a negative size. */
    method Next() returns (ok: Option<bool>)
      modifies this
      ensures match NextIn(old(Rest()))
              case Found(key, value, rest) => ok == Some(true) && keyBuf == key && valBuf == value && Rest() == rest
              case End => ok == Some(false)
              case Broken => ok == None
    {
      hide FromBigEndian, ToInt32, NextBody, MAGIC;
      var len := 0;
      while true
        invariant NextIn(Rest()) == NextIn(old(Rest()))
        decreases |Rest()|
      {
        ghost var b := Rest();
        NextInIs(b);
        var got, raw := ReadRaw(4);
        if !got { return Some(false); }
        len := ToInt32(FromBigEndian(raw));
        if len != SYNC_ESCAPE { break; }
        ghost var after := Rest();
        assert |b| >= 4 + SYNC_LENGTH ==> after[SYNC_LENGTH..] == b[4 + SYNC_LENGTH..];
        pos := pos + SYNC_LENGTH;
      }
      ok := ReadBody(len);
    }

    method ReadBody(len: int) returns (ok: Option<bool>)
      requires !failed
      modifies this
      ensures match NextBody(len, old(Rest()))
              case Found(key, value, rest) => ok == Some(true) && keyBuf == key && valBuf == value && Rest() == rest
              case End => ok == Some(false)
              case Broken => ok == None
    {
      hide FromBigEndian, ToInt32;
      ghost var b := Rest();
      var got, raw := ReadRaw(4);
      if !got { return Some(false); }
      var keyLen := ToInt32(FromBigEndian(raw));
      if keyLen < 0 { return None; }
      got, keyBuf := ReadRaw(keyLen);
      if !got { return Some(false); }
      if len - keyLen < 0 { return None; }
      ghost var afterKey := Rest();
      assert afterKey == b[4..][keyLen..] == b[4 + keyLen..];
      got, valBuf := ReadRaw(len - keyLen);
      if !got { return Some(false); }
      assert b[4..][..keyLen] == b[4..4 + keyLen];
      assert afterKey[..len - keyLen] == b[4 + keyLen..4 + len] && afterKey[len - keyLen..] == b[4 + len..];
      ok := Some(true);
    }
  }

  lemma NextInIs(b: Bytes)
    ensures NextIn(b)
         == if |b| < 4 then End
            else
              var len := ToInt32(FromBigEndian(b[..4]));
              if len == SYNC_ESCAPE then NextIn(if |b| < 4 + SYNC_LENGTH then [] else b[4 + SYNC_LENGTH..])
              else NextBody(len, b[4..])
  {
  }

  // ---- Reading what was written ---------------------------------------------------------------------------

  predicate Fits(r: Record) {
    |r.0| + |r.1| < TWO31
  }

  lemma HeadOf(v: int, rest: Bytes)
    ensures var b := IntBytes(v) + rest;
            |b| >= 4 && ToInt32(FromBigEndian(b[..4])) == ToInt32(v) && b[4..] == rest
  {
    hide BigEndian, FromBigEndian, ToInt32;
    IntRead(v, rest);
  }

  lemma BodyRead(r: Record, rest: Bytes)
    requires Fits(r)
    ensures NextBody(|r.0| + |r.1|, IntBytes(|r.0|) + (r.0 + r.1 + rest)) == Found(r.0, r.1, rest)
  {
    hide IntBytes, FromBigEndian, ToInt32;
    var size, keyLen := |r.0| + |r.1|, |r.0|;
    var content := r.0 + r.1 + rest;
    var b := IntBytes(keyLen) + content;
    HeadOf(keyLen, content);
    CastsFit(keyLen);
    assert content[..keyLen] == r.0 && content[keyLen..size] == r.1 && content[size..] == rest;
    assert b[4..4 + keyLen] == content[..keyLen] && b[4 + keyLen..4 + size] == content[keyLen..size];
    assert b[4 + size..] == content[size..];
  }

  lemma PlainRead(r: Record, rest: Bytes)
    requires Fits(r)
    ensures NextIn(PlainRecord(r) + rest) == Found(r.0, r.1, rest)
  {
    hide IntBytes, FromBigEndian, ToInt32, NextBody, NextIn;
    var size := |r.0| + |r.1|;
    var b := IntBytes(|r.0|) + (r.0 + r.1 + rest);
    assert PlainRecord(r) + rest == IntBytes(size) + b;
    HeadOf(size, b);
    CastsFit(size);
    NextInIs(IntBytes(size) + b);
    BodyRead(r, rest);
  }

  lemma MarkerSkipped(sync: Bytes, rest: Bytes)
    requires |sync| == SYNC_LENGTH
    ensures NextIn(IntBytes(SYNC_ESCAPE) + sync + rest) == NextIn(rest)
  {
    hide IntBytes, FromBigEndian, NextBody;
    var b := IntBytes(SYNC_ESCAPE) + (sync + rest);
    assert IntBytes(SYNC_ESCAPE) + sync + rest == b;
    HeadOf(SYNC_ESCAPE, sync + rest);
    assert b[4 + SYNC_LENGTH..] == b[4..][SYNC_LENGTH..] == rest;
  }

  lemma RecordRead(count: nat, sync: Bytes, r: Record, rest: Bytes)
    requires Fits(r) && |sync| == SYNC_LENGTH
    ensures NextIn(RecordBytes(count, sync, r) + rest) == Found(r.0, r.1, rest)
  {
    hide IntBytes, NextIn, PlainRecord, Marked;
    PlainRead(r, rest);
    if Marked(count) {
      MarkerSkipped(sync, PlainRecord(r) + rest);
      assert RecordBytes(count, sync, r) + rest == IntBytes(SYNC_ESCAPE) + sync + (PlainRecord(r) + rest);
    } else {
      assert RecordBytes(count, sync, r) + rest == PlainRecord(r) + rest;
    }
  }

  lemma ReadRecordsUnfold(b: Bytes)
    ensures NextIn(b).Found? ==> ReadRecords(b) == [(NextIn(b).key, NextIn(b).value)] + ReadRecords(NextIn(b).rest)
    ensures !NextIn(b).Found? ==> ReadRecords(b) == []
  {
    hide NextIn;
  }

  // ---- Truncation -----------------------------------------------------------------------------------------

  lemma PlainCut(r: Record, n: nat)
    requires Fits(r) && n < |PlainRecord(r)|
    ensures NextIn(PlainRecord(r)[..n]) == End
  {
    hide IntBytes, FromBigEndian, ToInt32, NextIn, NextBody;
    var size := |r.0| + |r.1|;
    var tail := IntBytes(|r.0|) + r.0 + r.1;
    var b := PlainRecord(r)[..n];
    NextInIs(b);
    assert PlainRecord(r) == IntBytes(size) + tail;
    if n >= 4 {
      assert b == IntBytes(size) + tail[..n - 4];
      HeadOf(size, tail[..n - 4]);
      CastsFit(size);
      BodyCut(r, n - 4);
    }
  }

  lemma BodyCut(r: Record, n: nat)
    requires Fits(r) && n < 4 + |r.0| + |r.1|
    ensures NextBody(|r.0| + |r.1|, (IntBytes(|r.0|) + r.0 + r.1)[..n]) == End
  {
    hide IntBytes, FromBigEndian, ToInt32;
    var content := r.0 + r.1;
    var b := (IntBytes(|r.0|) + r.0 + r.1)[..n];
    if n >= 4 {
      assert b == IntBytes(|r.0|) + content[..n - 4];
      HeadOf(|r.0|, content[..n - 4]);
      CastsFit(|r.0|);
    }
  }

  lemma MarkerCut(sync: Bytes, n: nat)
    requires |sync| == SYNC_LENGTH && n <= 4 + SYNC_LENGTH
    ensures NextIn((IntBytes(SYNC_ESCAPE) + sync)[..n]) == End
  {
    hide IntBytes, FromBigEndian;
    var whole := IntBytes(SYNC_ESCAPE) + sync;
    var b := whole[..n];
    HeadOf(SYNC_ESCAPE, sync);
    assert NextIn([]) == End;
    if n >= 4 {
      assert b[..4] == whole[..4];
      if n == 4 + SYNC_LENGTH { assert b[4 + SYNC_LENGTH..] == []; }
    }
  }

  /** A record that is cut anywhere, its marker included, is not returned. */
  lemma RecordCut(count: nat, sync: Bytes, r: Record, n: nat)
    requires Fits(r) && |sync| == SYNC_LENGTH && n < |RecordBytes(count, sync, r)|
    ensures NextIn(RecordBytes(count, sync, r)[..n]) == End
  {
    hide NextIn, PlainRecord, Marked, IntBytes;
    if Marked(count) {
      var marker := IntBytes(SYNC_ESCAPE) + sync;
      assert |marker| == 4 + SYNC_LENGTH by { MarkerLength(sync); }
      if n <= |marker| {
        MarkerCut(sync, n);
        assert RecordBytes(count, sync, r)[..n] == marker[..n];
      } else {
        var m := n - |marker|;
        PlainCut(r, m);
        MarkerSkipped(sync, PlainRecord(r)[..m]);
        assert RecordBytes(count, sync, r)[..n] == marker + PlainRecord(r)[..m];
      }
    } else {
      PlainCut(r, n);
      assert RecordBytes(count, sync, r) == PlainRecord(r);
    }
  }

  lemma MarkerLength(sync: Bytes)
    requires |sync| == SYNC_LENGTH
    ensures |IntBytes(SYNC_ESCAPE) + sync| == 4 + SYNC_LENGTH
  {
  }

  /** How many of the records lie wholly within the first n bytes. */
  function WholeRecords(count: nat, sync: Bytes, records: seq<Record>, n: int): (k: nat)
    ensures k <= |records|
    decreases |records|
  {
    if records == [] || n < |RecordBytes(count, sync, records[0])| then 0
    else 1 + WholeRecords(count + 1, sync, records[1..], n - |RecordBytes(count, sync, records[0])|)
  }

  lemma {:induction false} WholeRecordsMeaning(count: nat, sync: Bytes, records: seq<Record>, n: nat)
    ensures var k := WholeRecords(count, sync, records, n);
            |Body(count, sync, records[..k])| <= n &&
            (k < |records| ==> |Body(count, sync, records[..k + 1])| > n)
    decreases |records|
  {
    hide RecordBytes;
    if records != [] {
      var size := |RecordBytes(count, sync, records[0])|;
      if n < size {
        assert records[..0] == [] && records[..1][1..] == [];
      } else {
        var k := WholeRecords(count + 1, sync, records[1..], n - size);
        WholeRecordsMeaning(count + 1, sync, records[1..], n - size);
        assert records[..k + 1][1..] == records[1..][..k];
        if k < |records[1..]| { assert records[..k + 2][1..] == records[1..][..k + 1]; }
      }
    }
  }

  lemma {:induction false} CutBodyRead(count: nat, sync: Bytes, records: seq<Record>, n: nat)
    requires |sync| == SYNC_LENGTH && n <= |Body(count, sync, records)|
    requires forall i :: 0 <= i < |records| ==> Fits(records[i])
    ensures ReadRecords(Body(count, sync, records)[..n]) == records[..WholeRecords(count, sync, records, n)]
    decreases |records|
  {
    hide RecordBytes, NextIn, ReadRecords, Fits;
    if records == [] {
      ReadRecordsUnfold([]);
      assert NextIn([]) == End by { NothingLeft(); }
      assert Body(count, sync, records)[..n] == [];
    } else {
      var first, rest := RecordBytes(count, sync, records[0]), Body(count + 1, sync, records[1..]);
      var b := (first + rest)[..n];
      if n < |first| {
        RecordCut(count, sync, records[0], n);
        assert b == first[..n];
        ReadRecordsUnfold(b);
      } else {
        assert b == first + rest[..n - |first|];
        RecordRead(count, sync, records[0], rest[..n - |first|]);
        ReadRecordsUnfold(b);
        CutBodyRead(count + 1, sync, records[1..], n - |first|);
        var k := WholeRecords(count + 1, sync, records[1..], n - |first|);
        assert [records[0]] + records[1..][..k] == records[..k + 1];
        assert (records[0].0, records[0].1) == records[0];
      }
    }
  }

  lemma NothingLeft()
    ensures NextIn([]) == End
  {
  }

  /** A file cut anywhere after its header reads as exactly the records that lie wholly before the cut. */
  lemma TruncatedFile(sync: Bytes, records: seq<Record>, cut: nat)
    requires |sync| == SYNC_LENGTH && 4 + SYNC_LENGTH <= cut <= |FileOf(sync, records)|
    requires forall i :: 0 <= i < |records| ==> Fits(records[i])
    ensures exists k :: 0 <= k <= |records| && ReadAll(FileOf(sync, records)[..cut]) == Some(records[..k]) &&
                        |FileOf(sync, records[..k])| <= cut &&
                        (k < |records| ==> |FileOf(sync, records[..k + 1])| > cut)
  {
    hide Body, ReadRecords, WholeRecords, Fits;
    var n := cut - (4 + SYNC_LENGTH);
    var file := FileOf(sync, records)[..cut];
    assert file[..4] == MAGIC && file[4 + SYNC_LENGTH..] == Body(0, sync, records)[..n];
    CutBodyRead(0, sync, records, n);
    WholeRecordsMeaning(0, sync, records, n);
    var k := WholeRecords(0, sync, records, n);
    assert ReadAll(file) == Some(records[..k]);
  }

  lemma {:induction false} AllWhole(count: nat, sync: Bytes, records: seq<Record>)
    ensures WholeRecords(count, sync, records, |Body(count, sync, records)|) == |records|
    decreases |records|
  {
    hide RecordBytes;
    if records != [] { AllWhole(count + 1, sync, records[1..]); }
  }

  lemma {:induction false} OnlyFitting(b: Bytes)
    ensures forall i :: 0 <= i < |ReadRecords(b)| ==> Fits(ReadRecords(b)[i])
    decreases |b|
  {
    hide NextIn, ReadRecords;
    ReadRecordsUnfold(b);
    NextShrinks(b);
    if NextIn(b).Found? { OnlyFitting(NextIn(b).rest); }
  }

  /** Reading a written file returns its records exactly when every record is smaller than 2^31 bytes. */
  lemma RoundTripIff(sync: Bytes, records: seq<Record>)
    requires |sync| == SYNC_LENGTH
    ensures ReadAll(FileOf(sync, records)) == Some(records) <==> forall i :: 0 <= i < |records| ==> Fits(records[i])
  {
    hide Body, ReadRecords, Fits, WholeRecords;
    var file, body := FileOf(sync, records), Body(0, sync, records);
    assert file[..4] == MAGIC && file[4 + SYNC_LENGTH..] == body;
    if forall i :: 0 <= i < |records| ==> Fits(records[i]) {
      CutBodyRead(0, sync, records, |body|);
      AllWhole(0, sync, records);
      assert body[..|body|] == body && records[..|records|] == records;
    }
    OnlyFitting(body);
  }
}
