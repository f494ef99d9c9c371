/** Counted lists on the wire: a 32-bit count, then the items one after the other. */
module WireLists {
  import opened Options
  import opened Bytes
  import opened Buffer

  function ItemsBytes<T>(encode: T -> Bytes, xs: seq<T>): Bytes {
    if xs == [] then [] else ItemsBytes(encode, xs[..|xs| - 1]) + encode(xs[|xs| - 1])
  }

  function ListBytes<T>(encode: T -> Bytes, xs: seq<T>): Bytes {
    IntBytes(|xs|) + ItemsBytes(encode, xs)
  }

  function DecodeItems<T>(decode: Bytes -> Decoded<T>, n: int, b: Bytes): Decoded<seq<T>>
    decreases n
  {
    if n <= 0 then Some(([], b))
    else
      match decode(b)
      case None => None
      case Some((x, rest)) => Before([x], DecodeItems(decode, n - 1, rest))
  }

  function Before<T>(xs: seq<T>, d: Decoded<seq<T>>): Decoded<seq<T>> {
    match d
    case None => None
    case Some((ys, rest)) => Some((xs + ys, rest))
  }

  /** A negative count reads as no items. */
  function DecodeList<T>(decode: Bytes -> Decoded<T>, b: Bytes): Decoded<seq<T>> {
    match DecodeInt(b)
    case None => None
    case Some((n, rest)) => DecodeItems(decode, n, rest)
  }

  /** The item is read back from its encoding, whatever follows. */
  ghost predicate ReadBack<T(!new)>(encode: T -> Bytes, decode: Bytes -> Decoded<T>, x: T) {
    forall rest :: decode(encode(x) + rest) == Some((x, rest))
  }

  lemma ItemsFirst<T(!new)>(encode: T -> Bytes, xs: seq<T>)
    requires xs != []
    ensures ItemsBytes(encode, xs) == encode(xs[0]) + ItemsBytes(encode, xs[1..])
  {
    var n := |xs| - 1;
    if n == 0 {
      assert xs[..0] == [] && xs[1..] == [];
    } else {
      ItemsFirst(encode, xs[..n]);
      assert xs[..n][1..] == xs[1..][..n - 1] && xs[1..][n - 1] == xs[n];
    }
  }

  lemma {:induction false} ItemsRoundTrip<T(!new)>(encode: T -> Bytes, decode: Bytes -> Decoded<T>, xs: seq<T>,
                                                   rest: Bytes)
    requires forall i :: 0 <= i < |xs| ==> ReadBack(encode, decode, xs[i])
    ensures DecodeItems(decode, |xs|, ItemsBytes(encode, xs) + rest) == Some((xs, rest))
  {
    if xs == [] {
      assert [] + rest == rest;
    } else {
      hide ItemsBytes;
      ItemsFirst(encode, xs);
      var b := ItemsBytes(encode, xs[1..]) + rest;
      assert ItemsBytes(encode, xs) + rest == encode(xs[0]) + b;
      assert ReadBack(encode, decode, xs[0]);
      ItemsRoundTrip(encode, decode, xs[1..], rest);
      assert [xs[0]] + xs[1..] == xs;
    }
  }

  lemma ListRoundTrip<T(!new)>(encode: T -> Bytes, decode: Bytes -> Decoded<T>, xs: seq<T>, rest: Bytes)
    requires |xs| < TWO31 && forall i :: 0 <= i < |xs| ==> ReadBack(encode, decode, xs[i])
    ensures DecodeList(decode, ListBytes(encode, xs) + rest) == Some((xs, rest))
  {
    hide IntBytes, DecodeInt, ItemsBytes, DecodeItems;
    assert ListBytes(encode, xs) + rest == IntBytes(|xs|) + (ItemsBytes(encode, xs) + rest);
    IntRoundTripIff(|xs|, ItemsBytes(encode, xs) + rest);
    ItemsRoundTrip(encode, decode, xs, rest);
  }

  // ---- Loop invariants ------------------------------------------------------------------------------------

  lemma ItemsSnoc<T>(encode: T -> Bytes, xs: seq<T>, i: nat)
    requires i < |xs|
    ensures ItemsBytes(encode, xs[..i + 1]) == ItemsBytes(encode, xs[..i]) + encode(xs[i])
  {
    assert xs[..i + 1][..i] == xs[..i];
  }

  lemma NoItems<T>(encode: T -> Bytes, xs: seq<T>)
    ensures xs[..0] == [] && ItemsBytes(encode, xs[..0]) == [] && xs[..|xs|] == xs
  {
  }

  /** What was read so far, before what the rest of the buffer still gives, is the whole. */
  ghost predicate ReadSoFar<T>(decode: Bytes -> Decoded<T>, all: Decoded<seq<T>>, done: seq<T>, left: int,
                               rest: Bytes)
  {
    all == Before(done, DecodeItems(decode, left, rest))
  }

  lemma ReadStart<T>(decode: Bytes -> Decoded<T>, n: int, b: Bytes)
    ensures ReadSoFar(decode, DecodeItems(decode, n, b), [], n, b)
  {
    hide DecodeItems;
    match DecodeItems(decode, n, b)
    case None =>
    case Some((ys, rest)) => assert [] + ys == ys;
  }

  lemma ReadStep<T>(decode: Bytes -> Decoded<T>, all: Decoded<seq<T>>, done: seq<T>, left: int, b: Bytes)
    requires ReadSoFar(decode, all, done, left, b) && left > 0
    ensures decode(b).None? ==> all.None?
    ensures decode(b).Some? ==> ReadSoFar(decode, all, done + [decode(b).value.0], left - 1, decode(b).value.1)
  {
    if decode(b).Some? {
      var (x, rest) := decode(b).value;
      match DecodeItems(decode, left - 1, rest)
      case None =>
      case Some((ys, end)) => assert done + ([x] + ys) == (done + [x]) + ys;
    }
  }

  lemma ReadEnd<T>(decode: Bytes -> Decoded<T>, all: Decoded<seq<T>>, done: seq<T>, left: int, b: Bytes)
    requires ReadSoFar(decode, all, done, left, b) && left <= 0
    ensures all == Some((done, b))
  {
    assert done + [] == done;
  }
}
