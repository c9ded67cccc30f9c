/** Bytes, the big-endian integer codec and the byte-wise key order. */
module Bytes {

  type byte = x: int | 0 <= x < 256

  type bytes = seq<byte>

  const MAX_UINT64: nat := 0xFFFF_FFFF_FFFF_FFFF

  /** The number of values that `k` bytes can hold. */
  function Pow256(k: nat): (p: nat)
    ensures p > 0
  {
    if k == 0 then 1 else 256 * Pow256(k - 1)
  }

  /** The `k` low-order bytes of `v`, most significant first. */
  function BigEndian(v: nat, k: nat): (r: bytes)
    ensures |r| == k
  {
    if k == 0 then [] else BigEndian(v / 256, k - 1) + [v % 256]
  }

  function FromBigEndian(s: bytes): nat {
    if s == [] then 0 else 256 * FromBigEndian(s[..|s| - 1]) + s[|s| - 1]
  }

  lemma {:induction false} FromBigEndianBound(s: bytes)
    ensures FromBigEndian(s) < Pow256(|s|)
  {
    if s != [] {
      FromBigEndianBound(s[..|s| - 1]);
    }
  }

  /** Decoding inverts encoding, up to truncation to `k` bytes. */
  lemma {:induction false} DecodeEncode(v: nat, k: nat)
    requires v < Pow256(k)
    ensures FromBigEndian(BigEndian(v, k)) == v
  {
    if k > 0 {
      DecodeEncode(v / 256, k - 1);
      assert BigEndian(v, k)[..k - 1] == BigEndian(v / 256, k - 1);
    }
  }

  /** The eight-byte key of a sequence number. */
  function KeyOf(k: nat): bytes { BigEndian(k, 8) }

  lemma Pow256Of8()
    ensures Pow256(8) == MAX_UINT64 + 1
  {
    assert Pow256(2) == 256 * (256 * Pow256(0));
    assert Pow256(4) == 256 * (256 * Pow256(2));
    assert Pow256(6) == 256 * (256 * Pow256(4));
    assert Pow256(8) == 256 * (256 * Pow256(6));
  }

  /** Every 64-bit number is read back from its key. */
  lemma KeyDecodes(k: nat)
    requires k <= MAX_UINT64
    ensures FromBigEndian(KeyOf(k)) == k
  {
    Pow256Of8();
    DecodeEncode(k, 8);
  }

  /** Encoding inverts decoding. */
  lemma {:induction false} EncodeDecode(s: bytes)
    ensures BigEndian(FromBigEndian(s), |s|) == s
  {
    if s != [] {
      EncodeDecode(s[..|s| - 1]);
    }
  }

  /** The order Bolt keeps keys in: byte-wise, a proper prefix first. */
  predicate KeyLess(a: bytes, b: bytes) {
    if b == [] then false
    else if a == [] then true
    else a[0] < b[0] || (a[0] == b[0] && KeyLess(a[1..], b[1..]))
  }

  lemma {:induction false} FromBigEndianHead(s: bytes)
    requires s != []
    ensures FromBigEndian(s) == s[0] * Pow256(|s| - 1) + FromBigEndian(s[1..])
  {
    if |s| > 1 {
      var init := s[..|s| - 1];
      FromBigEndianHead(init);
      assert s[1..][..|s| - 2] == init[1..];
    }
  }

  /** Two-digit numbers in base `p` compare by their high digit first. */
  lemma HighDigitDecides(x: nat, u: nat, y: nat, v: nat, p: nat)
    requires u < p && v < p
    ensures x < y ==> x * p + u < y * p + v
    ensures x * p + u == y * p + v ==> x == y
  {
    if x < y {
      assert (x + 1) * p <= y * p;
    } else if y < x {
      assert (y + 1) * p <= x * p;
    }
  }

  /** On keys of equal length the byte-wise order is the numeric order. */
  lemma {:induction false} KeyOrderIsNumericOrder(a: bytes, b: bytes)
    requires |a| == |b|
    ensures KeyLess(a, b) <==> FromBigEndian(a) < FromBigEndian(b)
    ensures a == b <==> FromBigEndian(a) == FromBigEndian(b)
  {
    if a != [] {
      FromBigEndianHead(a);
      FromBigEndianHead(b);
      FromBigEndianBound(a[1..]);
      FromBigEndianBound(b[1..]);
      KeyOrderIsNumericOrder(a[1..], b[1..]);
      HighDigitDecides(a[0], FromBigEndian(a[1..]), b[0], FromBigEndian(b[1..]), Pow256(|a| - 1));
      HighDigitDecides(b[0], FromBigEndian(b[1..]), a[0], FromBigEndian(a[1..]), Pow256(|a| - 1));
      assert a == [a[0]] + a[1..] && b == [b[0]] + b[1..];
    }
  }
}
