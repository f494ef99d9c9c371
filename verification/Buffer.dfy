/** OutputBuffer and InputBuffer: integers as big-endian two's complement, strings behind a 32-bit length. Strings
    are bytes; a read past the end throws, which None stands for. */
module Buffer {
  import opened Options
  import opened Text
  import opened Bytes

  const TWO31 := 0x8000_0000
  const TWO32 := 0x1_0000_0000
  const TWO64 := 0x1_0000_0000_0000_0000

  predicate IsInt32(v: int) {
    -TWO31 <= v < TWO31
  }

  /** static_cast<int32_t>. */
  function ToInt32(v: int): int {
    var u := v % TWO32;
    if u < TWO31 then u else u - TWO32
  }

  /** static_cast<int64_t>. */
  function ToInt64(v: int): int {
    var u := v % TWO64;
    if u <= INT64_MAX then u else u - TWO64
  }

  lemma CastsFit(v: int)
    ensures ToInt32(v) == v <==> IsInt32(v)
    ensures ToInt64(v) == v <==> IsInt64(v)
    ensures IsInt32(ToInt32(v)) && IsInt64(ToInt64(v))
  {
  }

  lemma Widths()
    ensures Pow256(4) == TWO32 && Pow256(8) == TWO64
  {
    assert Pow256(1) == 256;
    assert Pow256(2) == 0x1_0000;
    assert Pow256(3) == 0x100_0000;
    assert Pow256(4) == TWO32;
    assert Pow256(5) == 0x100_0000_0000;
    assert Pow256(6) == 0x1_0000_0000_0000;
    assert Pow256(7) == 0x100_0000_0000_0000;
  }

  // ---- Values on the wire ---------------------------------------------------------------------------------

  function IntBytes(v: int): (b: Bytes)
    ensures |b| == 4
  {
    BigEndian(v % TWO32, 4)
  }

  /** The high half, from the arithmetic shift, then the low half. */
  function LongBytes(v: int): Bytes {
    IntBytes(v / TWO32) + IntBytes(v % TWO32)
  }

  function Raw(s: string): (b: Bytes)
    ensures |b| == |s|
  {
    seq(|s|, i requires 0 <= i < |s| => s[i] as int % 256)
  }

  function Chars(b: Bytes): (s: string)
    ensures |s| == |b|
  {
    seq(|b|, i requires 0 <= i < |b| => b[i] as char)
  }

  predicate ByteString(s: string) {
    forall i :: 0 <= i < |s| ==> s[i] as int < 256
  }

  /** What a C++ string holds, short enough for its length to fit the count. */
  predicate WireString(s: string) {
    ByteString(s) && |s| < TWO31
  }

  function StringBytes(s: string): Bytes {
    IntBytes(|s|) + Raw(s)
  }

  /** What a read returns: the value and the bytes left unread. */
  type Decoded<T> = Option<(T, Bytes)>

  function DecodeInt(b: Bytes): Decoded<int> {
    if |b| < 4 then None else Some((ToInt32(FromBigEndian(b[..4])), b[4..]))
  }

  function DecodeLong(b: Bytes): Decoded<int> {
    if |b| < 8 then None
    else Some((ToInt64(FromBigEndian(b[..4]) * TWO32 + FromBigEndian(b[4..8])), b[8..]))
  }

  function DecodeString(b: Bytes): Decoded<string> {
    match DecodeInt(b)
    case None => None
    case Some((len, rest)) =>
      if len < 0 || len > |rest| then None else Some((Chars(rest[..len]), rest[len..]))
  }

  /** The four bytes of the 32-bit two's complement, most significant first. */
  lemma IntBytesAre(v: int)
    ensures var u := v % 0x1_0000_0000;
            IntBytes(v) == [u / 0x100_0000 % 256, u / 0x1_0000 % 256, u / 0x100 % 256, u % 256]
  {
    FourBytes(v % TWO32);
  }

  lemma FourBytes(u: nat)
    ensures BigEndian(u, 4) == [u / 0x100_0000 % 256, u / 0x1_0000 % 256, u / 0x100 % 256, u % 256]
  {
    var a, b, c := u / 256, u / 256 / 256, u / 256 / 256 / 256;
    assert BigEndian(u, 4) == BigEndian(a, 3) + [u % 256];
    assert BigEndian(a, 3) == BigEndian(b, 2) + [a % 256];
    assert BigEndian(b, 2) == BigEndian(c, 1) + [b % 256];
    assert BigEndian(c, 1) == BigEndian(c / 256, 0) + [c % 256];
    assert BigEndian(c / 256, 0) == [];
    assert b == u / 0x1_0000 && c == u / 0x100_0000;
  }

  lemma IntRead(v: int, rest: Bytes)
    ensures DecodeInt(IntBytes(v) + rest) == Some((ToInt32(v), rest))
  {
    hide BigEndian, FromBigEndian;
    Widths();
    BigEndianRoundTrip(v % TWO32, 4);
    var b := IntBytes(v) + rest;
    assert b[..4] == IntBytes(v) && b[4..] == rest;
  }

  /** A 32-bit value is read back, and what follows it is left unread. */
  lemma IntRoundTripIff(v: int, rest: Bytes)
    ensures DecodeInt(IntBytes(v) + rest) == Some((v, rest)) <==> IsInt32(v)
  {
    hide IntBytes, DecodeInt;
    IntRead(v, rest);
    CastsFit(v);
  }

  /** The two halves are the eight bytes of the 64-bit two's complement. */
  lemma LongIsBigEndian(v: int)
    ensures LongBytes(v) == BigEndian(v % TWO64, 8)
  {
    hide BigEndian;
    Widths();
    var high, low := v / TWO32 % TWO32, v % TWO32;
    assert v % TWO64 == high * TWO32 + low;
    BigEndianSplit(high, low, 4, 4);
  }

  lemma LongRead(v: int, rest: Bytes)
    ensures DecodeLong(LongBytes(v) + rest) == Some((ToInt64(v), rest))
  {
    hide BigEndian, FromBigEndian;
    Widths();
    var high, low := v / TWO32 % TWO32, v % TWO32;
    BigEndianRoundTrip(high, 4);
    BigEndianRoundTrip(low, 4);
    var b := LongBytes(v) + rest;
    assert b[..4] == IntBytes(v / TWO32) && b[4..8] == IntBytes(v % TWO32) && b[8..] == rest;
    assert v % TWO64 == high * TWO32 + low;
  }

  lemma LongRoundTripIff(v: int, rest: Bytes)
    ensures DecodeLong(LongBytes(v) + rest) == Some((v, rest)) <==> IsInt64(v)
  {
    hide LongBytes, DecodeLong;
    LongRead(v, rest);
    CastsFit(v);
  }

  lemma CharsOfRaw(s: string)
    requires ByteString(s)
    ensures Chars(Raw(s)) == s
  {
  }

  /** A string is read back exactly when its length fits the 32-bit count. */
  lemma StringRoundTripIff(s: string, rest: Bytes)
    requires ByteString(s)
    ensures DecodeString(StringBytes(s) + rest) == Some((s, rest)) <==> |s| < TWO31
  {
    hide IntBytes, DecodeInt, Chars, Raw;
    var b := StringBytes(s) + rest;
    assert b == IntBytes(|s|) + (Raw(s) + rest);
    IntRead(|s|, Raw(s) + rest);
    CastsFit(|s|);
    if |s| < TWO31 {
      assert (Raw(s) + rest)[..|s|] == Raw(s) && (Raw(s) + rest)[|s|..] == rest;
      CharsOfRaw(s);
    }
  }

  // ---- The buffers ----------------------------------------------------------------------------------------

  class OutputBuffer {
    var buffer: Bytes

    constructor ()
      ensures buffer == []
    {
      buffer := [];
    }

    method WriteRawBytes(data: Bytes)
      modifies this
      ensures buffer == old(buffer) + data
    {
      buffer := buffer + data;
    }

    method WriteInt(v: int)
      modifies this
      ensures buffer == old(buffer) + IntBytes(v)
    {
      var n := BigEndian(v % TWO32, 4);
      WriteRawBytes(n);
    }

    method WriteLong(v: int)
      modifies this
      ensures buffer == old(buffer) + LongBytes(v)
    {
      hide BigEndian;
      var high := BigEndian(v / TWO32 % TWO32, 4);
      var low := BigEndian(v % TWO32 % TWO32, 4);
      WriteRawBytes(high);
      WriteRawBytes(low);
      assert (old(buffer) + high) + low == old(buffer) + (high + low);
    }

    method WriteString(s: string)
      modifies this
      ensures buffer == old(buffer) + StringBytes(s)
    {
      hide IntBytes, Raw;
      WriteInt(|s|);
      WriteRawBytes(Raw(s));
      assert (old(buffer) + IntBytes(|s|)) + Raw(s) == old(buffer) + (IntBytes(|s|) + Raw(s));
    }
  }

  /** The read gave what the decoder gives, and consumed as much. */
  ghost predicate Took<T>(r: Option<T>, left: Bytes, decoded: Decoded<T>) {
    match decoded
    case None => r.None?
    case Some((v, rest)) => r == Some(v) && left == rest
  }

  class InputBuffer {
    const data: Bytes
    var pos: nat

    ghost predicate Valid()
      reads this
    {
      pos <= |data|
    }

    function Rest(): Bytes
      requires Valid()
      reads this
    {
      data[pos..]
    }

    constructor (data: Bytes)
      ensures Valid() && Rest() == data
    {
      this.data, pos := data, 0;
    }

    /** CheckBounds and the copy. */
    method Take(n: nat) returns (b: Option<Bytes>)
      requires Valid()
      modifies `pos
      ensures Valid()
      ensures b == if n <= |old(Rest())| then Some(old(Rest())[..n]) else None
      ensures Rest() == if b.Some? then old(Rest())[n..] else old(Rest())
    {
      if pos + n > |data| { return None; }
      assert data[pos..pos + n] == data[pos..][..n] && data[pos + n..] == data[pos..][n..];
      b := Some(data[pos..pos + n]);
      pos := pos + n;
    }

    method ReadInt() returns (v: Option<int>)
      requires Valid()
      modifies `pos
      ensures Valid() && Took(v, Rest(), DecodeInt(old(Rest())))
    {
      hide ToInt32, FromBigEndian;
      var b := Take(4);
      if b.None? { return None; }
      v := Some(ToInt32(FromBigEndian(b.value)));
    }

    method ReadLong() returns (v: Option<int>)
      requires Valid()
      modifies `pos
      ensures Valid() && Took(v, Rest(), DecodeLong(old(Rest())))
    {
      hide ToInt64, FromBigEndian;
      var b := Take(8);
      if b.None? { return None; }
      assert old(Rest())[..8][..4] == old(Rest())[..4] && old(Rest())[..8][4..] == old(Rest())[4..8];
      v := Some(ToInt64(FromBigEndian(b.value[..4]) * TWO32 + FromBigEndian(b.value[4..])));
    }

    method ReadString() returns (s: Option<string>)
      requires Valid()
      modifies `pos
      ensures Valid() && Took(s, Rest(), DecodeString(old(Rest())))
    {
      hide DecodeInt, Chars;
      var len := ReadInt();
      if len.None? || len.value < 0 { return None; }
      var b := Take(len.value);
      if b.None? { return None; }
      s := Some(Chars(b.value));
    }
  }

  // ---- The 64-bit swaps of the data transfer protocol -----------------------------------------------------

  function Reversed(b: Bytes): (r: Bytes)
    ensures |r| == |b|
  {
    if b == [] then [] else Reversed(b[1..]) + [b[0]]
  }

  lemma {:induction false} FromReversed(b: Bytes)
    ensures FromBigEndian(Reversed(b)) == FromLittleEndian(b)
  {
    if b != [] {
      FromReversed(b[1..]);
      assert Reversed(b)[..|b| - 1] == Reversed(b[1..]);
    }
  }

  lemma {:induction false} BigEndianOfLittle(b: Bytes)
    ensures BigEndian(FromLittleEndian(b), |b|) == Reversed(b)
  {
    FromReversed(b);
    BigEndianOnto(Reversed(b));
  }

  lemma {:induction false} LittleOfReversed(b: Bytes)
    ensures FromLittleEndian(Reversed(b)) == FromBigEndian(b)
  {
    ReversedTwice(b);
    FromReversed(Reversed(b));
  }

  lemma {:induction false} ReversedConcat(a: Bytes, b: Bytes)
    ensures Reversed(a + b) == Reversed(b) + Reversed(a)
  {
    if a == [] {
      assert a + b == b;
    } else {
      assert (a + b)[1..] == a[1..] + b;
      ReversedConcat(a[1..], b);
    }
  }

  lemma {:induction false} ReversedTwice(b: Bytes)
    ensures Reversed(Reversed(b)) == b
  {
    if b != [] {
      ReversedTwice(b[1..]);
      ReversedConcat(Reversed(b[1..]), [b[0]]);
      assert [b[0]] + b[1..] == b && Reversed([b[0]]) == [b[0]] by { assert [b[0]][1..] == []; }
    }
  }

  /** How a host lays out an n-byte integer in memory. */
  function Native(v: nat, n: nat, little: bool): Bytes {
    if little then Reversed(BigEndian(v, n)) else BigEndian(v, n)
  }

  function FromNative(b: Bytes, little: bool): nat {
    if little then FromLittleEndian(b) else FromBigEndian(b)
  }

  /** htonl and ntohl: the number whose memory layout is the big-endian layout of v. */
  function Htonl(v: nat, little: bool): nat {
    FromNative(BigEndian(v, 4), little)
  }

  /** HostToNet64 and NetToHost64, which are the same expression. */
  function Swap64(v: nat, little: bool): nat {
    Htonl(v % TWO32, little) * TWO32 + Htonl(v / TWO32, little)
  }

  function Send64(v: nat, little: bool): Bytes {
    Native(Swap64(v, little), 8, little)
  }

  function Receive64(b: Bytes, little: bool): nat {
    Swap64(FromNative(b, little), little)
  }

  function Crossed(v: nat): nat {
    v % TWO32 * TWO32 + v / TWO32
  }

  lemma HtonlBound(v: nat, little: bool)
    ensures Htonl(v, little) < TWO32
  {
    hide BigEndian, FromBigEndian, FromLittleEndian;
    Widths();
    FromBigEndianBound(BigEndian(v, 4));
    FromReversed(BigEndian(v, 4));
    FromBigEndianBound(Reversed(BigEndian(v, 4)));
  }

  lemma HtonlBytes(v: nat)
    ensures BigEndian(Htonl(v, true), 4) == Reversed(BigEndian(v, 4))
  {
    hide BigEndian, FromLittleEndian;
    BigEndianOfLittle(BigEndian(v, 4));
  }

  lemma BigHostHtonl(v: nat)
    requires v < TWO32
    ensures Htonl(v, false) == v
  {
    hide BigEndian, FromBigEndian;
    Widths();
    BigEndianRoundTrip(v, 4);
  }

  /** A little-endian host sends the plain big-endian bytes; a big-endian host sends the halves crossed. */
  lemma SentBytes(v: nat, little: bool)
    requires v < TWO64
    ensures Send64(v, little) == BigEndian(if little then v else Crossed(v), 8)
  {
    hide BigEndian, FromBigEndian, FromLittleEndian, Htonl, Reversed;
    Widths();
    var low, high := v % TWO32, v / TWO32;
    if little {
      HtonlBound(low, true);
      HtonlBound(high, true);
      BigEndianSplit(Htonl(low, true), Htonl(high, true), 4, 4);
      HtonlBytes(low);
      HtonlBytes(high);
      ReversedConcat(Reversed(BigEndian(low, 4)), Reversed(BigEndian(high, 4)));
      ReversedTwice(BigEndian(low, 4));
      ReversedTwice(BigEndian(high, 4));
      BigEndianSplit(high, low, 4, 4);
    } else {
      BigHostHtonl(low);
      BigHostHtonl(high);
    }
  }

  lemma ReceivedValue(v: nat, little: bool)
    requires v < TWO64
    ensures Receive64(BigEndian(v, 8), little) == if little then v else Crossed(v)
  {
    hide BigEndian, FromBigEndian, FromLittleEndian, Htonl, Reversed;
    Widths();
    var low, high := v % TWO32, v / TWO32;
    if little {
      var w := FromLittleEndian(BigEndian(v, 8));
      BigEndianSplit(high, low, 4, 4);
      var lowBytes, highBytes := BigEndian(low, 4), BigEndian(high, 4);
      LittleConcat(highBytes, lowBytes);
      LittleBound(highBytes);
      assert w == FromLittleEndian(highBytes) + TWO32 * FromLittleEndian(lowBytes);
      assert w % TWO32 == FromLittleEndian(highBytes) && w / TWO32 == FromLittleEndian(lowBytes);
      HtonlOfLittle(high);
      HtonlOfLittle(low);
    } else {
      BigEndianRoundTrip(v, 8);
      BigHostHtonl(low);
      BigHostHtonl(high);
    }
  }

  lemma HtonlOfLittle(v: nat)
    requires v < TWO32
    ensures Htonl(FromLittleEndian(BigEndian(v, 4)), true) == v
  {
    hide BigEndian, FromBigEndian, FromLittleEndian, Reversed;
    Widths();
    BigEndianOfLittle(BigEndian(v, 4));
    LittleOfReversed(BigEndian(v, 4));
    BigEndianRoundTrip(v, 4);
  }

  lemma LittleBound(b: Bytes)
    ensures FromLittleEndian(b) < Pow256(|b|)
  {
    FromReversed(b);
    FromBigEndianBound(Reversed(b));
  }

  lemma {:induction false} LittleConcat(a: Bytes, b: Bytes)
    ensures FromLittleEndian(a + b) == FromLittleEndian(a) + Pow256(|a|) * FromLittleEndian(b)
  {
    if a == [] {
      assert a + b == b;
    } else {
      assert (a + b)[1..] == a[1..] + b;
      LittleConcat(a[1..], b);
      Regroup(FromLittleEndian(b), Pow256(|a| - 1));
    }
  }

  /** A 64-bit value arrives exactly when both hosts have the same byte order, or its halves are equal. */
  lemma Transfer64Iff(v: nat, sender: bool, receiver: bool)
    requires v < TWO64
    ensures Receive64(Send64(v, sender), receiver) == v <==> sender == receiver || v / TWO32 == v % TWO32
  {
    hide BigEndian, Send64, Receive64;
    SentBytes(v, sender);
    var crossed := Crossed(v);
    ReceivedValue(if sender then v else crossed, receiver);
    assert crossed % TWO32 == v / TWO32 && crossed / TWO32 == v % TWO32;
  }
}
