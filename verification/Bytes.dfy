/** Byte sequences, and unsigned numbers written most or least significant byte first. */
module Bytes {
  type Byte = x: int | 0 <= x < 256
  type Bytes = seq<Byte>

  function Pow256(n: nat): (p: int)
    ensures p >= 1
  {
    if n == 0 then 1 else 256 * Pow256(n - 1)
  }

  /** The low n bytes of v, most significant first. */
  function BigEndian(v: nat, n: nat): (b: Bytes)
    ensures |b| == n
    decreases n
  {
    if n == 0 then [] else BigEndian(v / 256, n - 1) + [v % 256]
  }

  function FromBigEndian(b: Bytes): nat {
    if b == [] then 0 else FromBigEndian(b[..|b| - 1]) * 256 + b[|b| - 1]
  }

  /** The number whose bytes are given least significant first. */
  function FromLittleEndian(b: Bytes): nat {
    if b == [] then 0 else b[0] + 256 * FromLittleEndian(b[1..])
  }

  lemma {:induction false} BigEndianRoundTrip(v: nat, n: nat)
    requires v < Pow256(n)
    ensures FromBigEndian(BigEndian(v, n)) == v
    decreases n
  {
    if n > 0 {
      BigEndianRoundTrip(v / 256, n - 1);
      assert BigEndian(v, n)[..n - 1] == BigEndian(v / 256, n - 1);
    }
  }

  lemma {:induction false} FromBigEndianBound(b: Bytes)
    ensures FromBigEndian(b) < Pow256(|b|)
  {
    if b != [] {
      FromBigEndianBound(b[..|b| - 1]);
    }
  }

  /** Every byte sequence of a width is the encoding of the number it decodes to. */
  lemma {:induction false} BigEndianOnto(b: Bytes)
    ensures BigEndian(FromBigEndian(b), |b|) == b
  {
    if b != [] {
      var n := |b| - 1;
      BigEndianOnto(b[..n]);
      assert FromBigEndian(b) / 256 == FromBigEndian(b[..n]) && FromBigEndian(b) % 256 == b[n];
      assert b == b[..n] + [b[n]];
    }
  }

  lemma Carry(x: nat, low: nat)
    ensures (256 * x + low) / 256 == x + low / 256 && (256 * x + low) % 256 == low % 256
  {
  }

  lemma Regroup(high: nat, p: nat)
    ensures high * (256 * p) == 256 * (high * p) && high * p >= 0
  {
  }

  lemma BigEndianUnfold(v: nat, n: nat)
    requires n > 0
    ensures BigEndian(v, n) == BigEndian(v / 256, n - 1) + [v % 256] && Pow256(n) == 256 * Pow256(n - 1)
  {
  }

  /** Writing the high and the low part separately writes the whole number. */
  lemma {:induction false} BigEndianSplit(high: nat, low: nat, m: nat, n: nat)
    requires low < Pow256(n)
    ensures high * Pow256(n) + low >= 0
    ensures BigEndian(high * Pow256(n) + low, m + n) == BigEndian(high, m) + BigEndian(low, n)
    decreases n
  {
    if n == 0 {
      assert Pow256(0) == 1 && BigEndian(low, 0) == [];
    } else {
      hide BigEndian, Pow256;
      var p := Pow256(n - 1);
      BigEndianUnfold(low, n);
      Regroup(high, p);
      Carry(high * p, low);
      BigEndianUnfold(256 * (high * p) + low, m + n);
      BigEndianSplit(high, low / 256, m, n - 1);
      assert m + n - 1 == m + (n - 1);
      assert (BigEndian(high, m) + BigEndian(low / 256, n - 1)) + [low % 256]
          == BigEndian(high, m) + (BigEndian(low / 256, n - 1) + [low % 256]);
    }
  }
}
