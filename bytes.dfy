/** Byte-level helpers of the ledger: fixed-width little-endian integer
    encodings, the 64-byte hash value with its all-zero default and its
    proof-of-work window, millisecond timestamps, and the digest of a slice
    as the concatenation of its elements' digests. */
module Bytes {

  type byte = x: int | 0 <= x < 0x100
  type u16 = x: int | 0 <= x < 0x1_0000
  type u32 = x: int | 0 <= x < 0x1_0000_0000
  type u64 = x: int | 0 <= x < 0x1_0000_0000_0000_0000
  type u128 = x: int | 0 <= x < 0x1_0000_0000_0000_0000_0000_0000_0000_0000

  const U64_MAX: u64 := 0xFFFF_FFFF_FFFF_FFFF

  /** A 64-byte digest (the BLAKE2b output). */
  type Hash = s: seq<byte> | |s| == 64 witness seq(64, _ => 0)

  /** The hash function: an arbitrary function from the digest bytes of a
      value to a 64-byte hash. Nothing is assumed about it, not even that
      distinct inputs give distinct hashes. */
  type Hasher = seq<byte> -> Hash

  /** `Hash::default()`: 64 zero bytes, the "no predecessor" sentinel. */
  function ZeroHash(): Hash
  {
    seq(64, _ => 0)
  }

  function Pow256(n: nat): (r: nat)
    ensures r >= 1
  {
    if n == 0 then 1 else 256 * Pow256(n - 1)
  }

  /** The `width` low-order bytes of `x`, least significant first: byte `i`
      is `(x >> 8 * i) as u8`. */
  function LittleEndian(x: nat, width: nat): (r: seq<byte>)
    ensures |r| == width
  {
    if width == 0 then [] else [x % 256] + LittleEndian(x / 256, width - 1)
  }

  /** The number whose little-endian encoding is `s`:
      s[0] + s[1] * 256 + s[2] * 256^2 + ... */
  function FromLittleEndian(s: seq<byte>): nat
  {
    if s == [] then 0 else s[0] + 256 * FromLittleEndian(s[1..])
  }

  /** A byte string of width `w` decodes to a number below 256^w. */
  lemma {:induction false} FromLittleEndianBound(s: seq<byte>)
    ensures FromLittleEndian(s) < Pow256(|s|)
  {
    if s != [] {
      FromLittleEndianBound(s[1..]);
    }
  }

  lemma MulMonotonic(d: nat, a: int, b: int)
    requires a <= b
    ensures d * a <= d * b
  {
    assert d * b - d * a == d * (b - a);
  }

  lemma DivUnique(x: int, d: int, q: int, r: int)
    requires d > 0 && 0 <= r < d && x == d * q + r
    ensures x / d == q && x % d == r
  {
    var q', r' := x / d, x % d;
    assert x == d * q' + r';
    if q' > q {
      MulMonotonic(d, q + 1, q');
      assert false;
    } else if q' < q {
      MulMonotonic(d, q' + 1, q);
      assert false;
    }
  }

  lemma Pow256Widths()
    ensures Pow256(2) == 0x1_0000
    ensures Pow256(4) == 0x1_0000_0000
    ensures Pow256(8) == 0x1_0000_0000_0000_0000
    ensures Pow256(16) == 0x1_0000_0000_0000_0000_0000_0000_0000_0000
  {
    var i := 0;
    var p := 1;
    while i < 16
      invariant 0 <= i <= 16 && p == Pow256(i)
      invariant i >= 2 ==> Pow256(2) == 0x1_0000
      invariant i >= 4 ==> Pow256(4) == 0x1_0000_0000
      invariant i >= 8 ==> Pow256(8) == 0x1_0000_0000_0000_0000
    {
      i, p := i + 1, 256 * p;
    }
  }

  lemma MulAssociates(a: int, b: int, c: int)
    ensures a * (b * c) == (a * b) * c
  {
  }

  lemma MulDistributes(a: int, b: int, c: int)
    ensures a * (b + c) == a * b + a * c
  {
  }

  lemma DivDiv(x: nat, a: nat, b: nat)
    requires a > 0 && b > 0
    ensures x / a / b == x / (a * b)
  {
    var q, r := x / a, x % a;
    var q2, r2 := q / b, q % b;
    assert x == a * q + r;
    assert q == b * q2 + r2;
    MulDistributes(a, b * q2, r2);
    MulAssociates(a, b, q2);
    assert x == (a * b) * q2 + (a * r2 + r);
    MulMonotonic(a, r2, b - 1);
    MulDistributes(a, b, -1);
    assert a * r2 + r < a * b;
    DivUnique(x, a * b, q2, a * r2 + r);
  }

  /** Byte `i` of the encoding is the source's shift-and-truncate
      `(x >> 8 * i) as u8`. */
  lemma {:induction false} LittleEndianAt(x: nat, width: nat, i: nat)
    requires i < width
    ensures LittleEndian(x, width)[i] == (x / Pow256(i)) % 256
  {
    if i > 0 {
      LittleEndianAt(x / 256, width - 1, i - 1);
      DivDiv(x, 256, Pow256(i - 1));
    }
  }

  lemma LittleEndianBytes(x: nat, width: nat)
    ensures forall i :: 0 <= i < width ==> LittleEndian(x, width)[i] == (x / Pow256(i)) % 256
  {
    forall i | 0 <= i < width
      ensures LittleEndian(x, width)[i] == (x / Pow256(i)) % 256
    {
      LittleEndianAt(x, width, i);
    }
  }

  /** Re-assembling the bytes of an encoding gives back the number. */
  lemma {:induction false} FromLittleEndianInverse(x: nat, width: nat)
    requires x < Pow256(width)
    ensures FromLittleEndian(LittleEndian(x, width)) == x
  {
    if width > 0 {
      var s := LittleEndian(x, width);
      assert s[1..] == LittleEndian(x / 256, width - 1);
      FromLittleEndianInverse(x / 256, width - 1);
    }
  }

  /** Encoding the value of a byte string at its own width gives back the
      byte string: the encoding is onto the strings of that width. */
  lemma {:induction false} LittleEndianInverse(s: seq<byte>)
    ensures LittleEndian(FromLittleEndian(s), |s|) == s
  {
    if s != [] {
      var v := FromLittleEndian(s);
      DivUnique(v, 256, FromLittleEndian(s[1..]), s[0]);
      LittleEndianInverse(s[1..]);
    }
  }

  lemma {:induction false} FromLittleEndianZeros(s: seq<byte>)
    requires forall i :: 0 <= i < |s| ==> s[i] == 0
    ensures FromLittleEndian(s) == 0
  {
    if s != [] {
      FromLittleEndianZeros(s[1..]);
    }
  }

  /** `u16::bytes`. */
  function U16Bytes(x: u16): (r: seq<byte>)
    ensures |r| == 2
  {
    LittleEndian(x, 2)
  }

  /** `u32::bytes`. */
  function U32Bytes(x: u32): (r: seq<byte>)
    ensures |r| == 4
  {
    LittleEndian(x, 4)
  }

  /** `u64::bytes`. */
  function U64Bytes(x: u64): (r: seq<byte>)
    ensures |r| == 8
  {
    LittleEndian(x, 8)
  }

  /** `u128::bytes`. */
  function U128Bytes(x: u128): (r: seq<byte>)
    ensures |r| == 16
  {
    LittleEndian(x, 16)
  }

  /** Each fixed-width encoding is as wide as its type and decodes back to
      the number it encodes. */
  lemma EncodingsRoundTrip(a: u16, b: u32, c: u64, d: u128)
    ensures |U16Bytes(a)| == 2 && FromLittleEndian(U16Bytes(a)) == a
    ensures |U32Bytes(b)| == 4 && FromLittleEndian(U32Bytes(b)) == b
    ensures |U64Bytes(c)| == 8 && FromLittleEndian(U64Bytes(c)) == c
    ensures |U128Bytes(d)| == 16 && FromLittleEndian(U128Bytes(d)) == d
  {
    Pow256Widths();
    FromLittleEndianInverse(a, 2);
    FromLittleEndianInverse(b, 4);
    FromLittleEndianInverse(c, 8);
    FromLittleEndianInverse(d, 16);
  }

  /** `Hash::difficulty`: bytes 16..31 of the hash read as a little-endian
      u128 (byte 31 most significant). The source ORs shifted bytes; the
      shifted bytes occupy disjoint bit ranges, so the OR is this sum. */
  function Difficulty(h: Hash): u128
  {
    Pow256Widths();
    FromLittleEndianBound(h[16..32]);
    FromLittleEndian(h[16..32])
  }

  /** The window 16..31 of a hash is exactly the u128 encoding of its
      difficulty. */
  lemma DifficultyWindow(h: Hash)
    ensures U128Bytes(Difficulty(h)) == h[16..32]
  {
    LittleEndianInverse(h[16..32]);
  }

  /** Only the window 16..31 matters: hashes that agree there have the
      same difficulty, whatever their other 48 bytes. */
  lemma DifficultyIgnoresOtherBytes(h: Hash, h': Hash)
    requires forall i :: 16 <= i < 32 ==> h[i] == h'[i]
    ensures Difficulty(h) == Difficulty(h')
  {
    assert h[16..32] == h'[16..32];
  }

  lemma ZeroHashDifficulty()
    ensures forall i :: 0 <= i < 64 ==> ZeroHash()[i] == 0
    ensures Difficulty(ZeroHash()) == 0
  {
    FromLittleEndianZeros(ZeroHash()[16..32]);
  }

  /** `Timestamp`: milliseconds since the epoch. Its derived ordering is
      the ordering of the inner u64 and its bytes are the u64's. */
  datatype Timestamp = Timestamp(millis: u64) {

    predicate Before(other: Timestamp) {
      millis < other.millis
    }

    function Bytes(): (r: seq<byte>)
      ensures |r| == 8
    {
      U64Bytes(millis)
    }
  }

  /** A timestamp's bytes decode back to its milliseconds, so distinct
      timestamps have distinct bytes. */
  lemma TimestampBytes(t: Timestamp, u: Timestamp)
    ensures t.Bytes() == U64Bytes(t.millis) && FromLittleEndian(t.Bytes()) == t.millis
    ensures t.Bytes() == u.Bytes() ==> t == u
  {
    EncodingsRoundTrip(0, 0, t.millis, 0);
    EncodingsRoundTrip(0, 0, u.millis, 0);
  }

  /** The digest of a slice: the element digests, in order, fed one after
      another into the hasher, i.e. their concatenation. */
  function DigestAll<T>(xs: seq<T>, digest: T -> seq<byte>): seq<byte>
  {
    if xs == [] then [] else digest(xs[0]) + DigestAll(xs[1..], digest)
  }

  lemma {:induction false} DigestAllAppend<T>(xs: seq<T>, ys: seq<T>, digest: T -> seq<byte>)
    ensures DigestAll(xs + ys, digest) == DigestAll(xs, digest) + DigestAll(ys, digest)
  {
    if xs != [] {
      assert (xs + ys)[0] == xs[0];
      assert (xs + ys)[1..] == xs[1..] + ys;
      DigestAllAppend(xs[1..], ys, digest);
      assert DigestAll(xs + ys, digest) == digest(xs[0]) + DigestAll(xs[1..] + ys, digest);
      assert DigestAll(xs, digest) == digest(xs[0]) + DigestAll(xs[1..], digest);
    } else {
      assert xs + ys == ys;
    }
  }
}
