/**
  PKCS#7 padding, pkcs7Pad and pkcs7Unpad of common/crypto/crypto.go, against section 6.3
  of RFC 5652.
 */
module Padding {

  import opened Bytes
  import opened Results
  import opened Arithmetic

  // ----- the octets the standard asks for

  /** `n` octets of value `n`, as one octet can hold it: Go's byte(n) keeps the low eight bits. */
  function Pad(n: nat): (s: bytes)
    ensures |s| == n && forall i :: 0 <= i < n ==> s[i] == n % 256
  {
    seq(n, _ => n % 256)
  }

  /** k - (lth mod k) in the terms of section 6.3 of RFC 5652. */
  function PadLength(length: nat, k: nat): (n: nat)
    requires k > 0
    ensures 1 <= n <= k
  {
    k - length % k
  }

  function Padded(data: bytes, k: nat): bytes
    requires k > 0
  {
    data + Pad(PadLength(|data|, k))
  }

  /** The pad length is the only number from 1 to k that completes a block. */
  lemma PadLengthIs(length: nat, n: nat, k: nat)
    requires k > 0 && 1 <= n <= k
    ensures (length + n) % k == 0 <==> n == PadLength(length, k)
  {
    var q, r := length / k, length % k;
    assert length == k * q + r;
    if r + n < k {
      DivUnique(length + n, k, q, r + n);
    } else {
      assert length + n == k * (q + 1) + (r + n - k);
      if r + n - k < k {
        DivUnique(length + n, k, q + 1, r + n - k);
      }
    }
  }

  lemma WholeBlocks(length: nat, k: nat)
    requires k > 0 && length > 0 && length % k == 0
    ensures length >= k
  {
    if length < k {
      DivUnique(length, k, 0, length);
    }
  }

  /** The data a padded text holds, if its last octet and the octets it announces agree. */
  function Unpadded(x: bytes, k: nat): Option<bytes>
    requires k > 0
  {
    if |x| % k != 0 || |x| == 0 then None
    else
      WholeBlocks(|x|, k);
      var n := x[|x| - 1];
      if n > k || n == 0 then None
      else if x[|x| - n..] == Pad(n) then Some(x[..|x| - n])
      else None
  }

  /** Accepted are whole blocks whose last octet says how many octets of its own value end them. */
  lemma UnpaddedIs(x: bytes, k: nat)
    requires k > 0
    ensures Unpadded(x, k).Some? <==>
      && |x| > 0 && |x| % k == 0 && 1 <= x[|x| - 1] <= k && x[|x| - 1] <= |x|
      && forall i :: |x| - x[|x| - 1] <= i < |x| ==> x[i] == x[|x| - 1]
    ensures Unpadded(x, k).Some? ==> Unpadded(x, k).value == x[..|x| - x[|x| - 1]]
  {
    if |x| > 0 && |x| % k == 0 && 1 <= x[|x| - 1] <= k {
      WholeBlocks(|x|, k);
      var n := x[|x| - 1];
      if forall i :: |x| - n <= i < |x| ==> x[i] == n {
        assert x[|x| - n..] == Pad(n);
      }
      if x[|x| - n..] == Pad(n) {
        assert forall i :: |x| - n <= i < |x| ==> x[i] == x[|x| - n..][i - (|x| - n)];
      }
    }
  }

  // ----- the loops

  method Pkcs7Pad(data: bytes, blocklen: nat) returns (padded: bytes)
    requires blocklen > 0
    ensures padded == Padded(data, blocklen)
    ensures data <= padded && |padded| % blocklen == 0 && 1 <= |padded| - |data| <= blocklen
    ensures forall i :: |data| <= i < |padded| ==> padded[i] == (|padded| - |data|) % 256
  {
    var padlen := 1;
    ghost var target := PadLength(|data|, blocklen);
    PadLengthIs(|data|, target, blocklen);
    PadLengthIs(|data|, padlen, blocklen);
    while (|data| + padlen) % blocklen != 0
      invariant 1 <= padlen <= target
      invariant (|data| + padlen) % blocklen == 0 <==> padlen == target
      decreases target - padlen
    {
      padlen := padlen + 1;
      PadLengthIs(|data|, padlen, blocklen);
    }
    padded := data + Pad(padlen);
  }

  method Pkcs7Unpad(data: bytes, blocklen: nat) returns (unpadded: Option<bytes>)
    requires blocklen > 0
    ensures unpadded == Unpadded(data, blocklen)
    ensures unpadded.Some? <==>
      && |data| > 0 && |data| % blocklen == 0 && 1 <= data[|data| - 1] <= blocklen && data[|data| - 1] <= |data|
      && forall i :: |data| - data[|data| - 1] <= i < |data| ==> data[i] == data[|data| - 1]
    ensures unpadded.Some? ==> unpadded.value == data[..|data| - data[|data| - 1]]
  {
    UnpaddedIs(data, blocklen);
    if |data| % blocklen != 0 || |data| == 0 {
      return None;
    }
    var padlen := data[|data| - 1];
    if padlen > blocklen || padlen == 0 {
      return None;
    }
    WholeBlocks(|data|, blocklen);
    var pad := data[|data| - padlen..];
    var i := 0;
    while i < padlen
      invariant 0 <= i <= padlen
      invariant forall j :: 0 <= j < i ==> pad[j] == padlen
    {
      if pad[i] != padlen {
        assert Pad(padlen)[i] == padlen;
        return None;
      }
      i := i + 1;
    }
    assert pad == Pad(padlen);
    return Some(data[..|data| - padlen]);
  }

  // ----- round trips

  /** Main result: unpadding takes back a padding if and only if its length fits one octet. */
  lemma UnpadPadIff(data: bytes, k: nat)
    requires k > 0
    ensures Unpadded(Padded(data, k), k) == Some(data) <==> PadLength(|data|, k) <= 255
  {
    var n := PadLength(|data|, k);
    var x := Padded(data, k);
    PadLengthIs(|data|, n, k);
    assert x[|x| - 1] == n % 256;
    if n <= 255 {
      assert x[|x| - n..] == Pad(n) && x[..|x| - n] == data;
    } else {
      WholeBlocks(|x|, k);
      assert |x| - n % 256 > |data|;
    }
  }

  /** Main result, the other way: whatever the block length, accepted text is a padding of its data. */
  lemma PadUnpad(x: bytes, k: nat)
    requires k > 0 && Unpadded(x, k).Some?
    ensures Padded(Unpadded(x, k).value, k) == x
    ensures PadLength(|Unpadded(x, k).value|, k) <= 255
  {
    WholeBlocks(|x|, k);
    var n := x[|x| - 1];
    var data := x[..|x| - n];
    PadLengthIs(|data|, n, k);
    assert data + x[|x| - n..] == x;
  }

  /** The accepted texts are exactly the paddings whose length fits one octet. */
  lemma AcceptedIffPadding(x: bytes, k: nat)
    requires k > 0
    ensures Unpadded(x, k).Some? <==> exists data :: PadLength(|data|, k) <= 255 && Padded(data, k) == x
  {
    if Unpadded(x, k).Some? {
      PadUnpad(x, k);
    }
    forall data | PadLength(|data|, k) <= 255 && Padded(data, k) == x
      ensures Unpadded(x, k) == Some(data)
    {
      UnpadPadIff(data, k);
    }
  }

  ghost predicate RoundTrips(data: bytes, k: nat)
    requires k > 0
  {
    Unpadded(Padded(data, k), k) == Some(data)
  }

  /** RFC 5652 calls the method well defined if and only if k < 256; so it is here. */
  lemma WellDefinedIffBelow256(k: nat)
    requires k > 0
    ensures (forall data :: RoundTrips(data, k)) <==> k < 256
  {
    if k < 256 {
      forall data
        ensures RoundTrips(data, k)
      {
        UnpadPadIff(data, k);
      }
    } else {
      var nothing: bytes := [];
      UnpadPadIff(nothing, k);
      DivUnique(|nothing|, k, 0, 0);
      assert !RoundTrips(nothing, k);
    }
  }

  /** With blocks of 256 bytes no data pads to 256 octets of value 0, and these are refused. */
  lemma LongBlockExample()
    ensures Padded([], 256) == Pad(256) && Unpadded(Padded([], 256), 256) == None
  {
    assert [] + Pad(256) == Pad(256);
  }
}
