/**
  The legacy block reader of common/crypto/materials.go: fixed-size blocks without
  headers, nonces kept aside, and its own arithmetic for encrypted ranges.
 */
module LegacyReader {
  import opened Bytes
  import opened Results
  import opened BlockFormat
  import opened BlockStream
  import opened BlockIO
  import opened Materials
  import opened StreamRuns
  import Arithmetic

  // ----- the encrypted range of a plain range

  /** The size of an encrypted file of `plainSize` bytes in blocks of `p` bytes. */
  function EncryptedSize(plainSize: nat, p: nat): nat
    requires p > 0
  {
    plainSize / p * (p + TAG_SIZE) + if plainSize % p > 0 then plainSize % p + TAG_SIZE else 0
  }

  /** The blocks a plain range of this length is taken to span. */
  function RangeBlockCount(length: nat, p: nat): nat
    requires p > 0
  {
    length / p + if length % p > 0 then 1 else 0
  }

  /** Where encrypted block `i` ends; the last block of a file may be short. */
  function BlockEnd(i: nat, plainSize: nat, p: nat): nat
    requires p > 0
  {
    if (i + 1) * p <= plainSize then (i + 1) * (p + TAG_SIZE) else EncryptedSize(plainSize, p)
  }

  /** Encrypted block `i` lies inside the encrypted range. */
  predicate Covered(i: nat, start: nat, length: int, plainSize: nat, p: nat)
    requires p > 0
  {
    start <= i * (p + TAG_SIZE) && BlockEnd(i, plainSize, p) <= start + length
  }

  /** What a caller can check: the range, moved to its first block, needs no extra block. */
  predicate FitsItsBlocks(offset: nat, length: nat, p: nat)
    requires p > 0
  {
    offset % p + length <= p * RangeBlockCount(length, p)
  }

  /** Block `i` of a plain file is one of the full ones, or the short one after them. */
  lemma FullOrLast(i: nat, n: nat, p: nat)
    requires p > 0 && i * p < n
    ensures (i + 1) * p <= n ==> i + 1 <= n / p
    ensures (i + 1) * p > n ==> i == n / p && n % p == n - i * p
  {
    var q := n / p;
    if (i + 1) * p <= n {
      if i + 1 > q {
        Arithmetic.MulMonotone(p, q + 1, i + 1);
      }
    } else {
      assert (i + 1) * p == i * p + p;
      Arithmetic.DivUnique(n, p, i, n - i * p);
    }
  }

  lemma BlockBounds(i: nat, plainSize: nat, p: nat)
    requires p > 0 && i * p < plainSize
    ensures i * (p + TAG_SIZE) < BlockEnd(i, plainSize, p) <= (i + 1) * (p + TAG_SIZE)
    ensures BlockEnd(i, plainSize, p) <= EncryptedSize(plainSize, p)
  {
    FullOrLast(i, plainSize, p);
    var e := p + TAG_SIZE;
    assert (i + 1) * p == i * p + p && (i + 1) * e == i * e + e;
    if (i + 1) * p <= plainSize {
      Arithmetic.MulMonotone(e, i + 1, plainSize / p);
    }
  }

  /** The last block that holds a requested byte, against the first block past the range. */
  lemma LastBlockAgainstRange(offset: nat, length: nat, p: nat)
    requires p > 0 && length > 0
    ensures FitsItsBlocks(offset, length, p) <==>
      (offset + length - 1) / p < offset / p + RangeBlockCount(length, p)
  {
    var q, r := offset / p, offset % p;
    var k, t := (r + length - 1) / p, (r + length - 1) % p;
    assert offset + length - 1 == p * (q + k) + t;
    Arithmetic.DivUnique(offset + length - 1, p, q + k, t);
    LastOfBlocks(r + length, p, RangeBlockCount(length, p));
  }

  /** `n` bytes fit in `c` blocks when the last of them lies in one of those. */
  lemma LastOfBlocks(n: nat, p: nat, c: nat)
    requires p > 0 && n > 0
    ensures n <= p * c <==> (n - 1) / p < c
  {
    var k, t := (n - 1) / p, (n - 1) % p;
    assert n - 1 == p * k + t;
    if k < c {
      Arithmetic.MulMonotone(p, k + 1, c);
      assert p * (k + 1) == p * k + p;
    } else {
      Arithmetic.MulMonotone(p, c, k);
    }
  }

  /** The requested bytes of blocks `offset / p` to `(offset + length - 1) / p` exist in the file. */
  lemma NeededBlockStarts(i: nat, offset: nat, length: nat, plainSize: nat, p: nat)
    requires p > 0 && length > 0 && offset + length <= plainSize
    requires i <= (offset + length - 1) / p
    ensures i * p < plainSize
  {
    Arithmetic.MulMonotone(p, i, (offset + length - 1) / p);
  }

  function RangeStart(offset: nat, p: nat): nat
    requires p > 0
  {
    offset / p * (p + TAG_SIZE)
  }

  function RangeLength(offset: nat, length: nat, plainSize: nat, p: nat): int
    requires p > 0
  {
    var full := RangeBlockCount(length, p) * (p + TAG_SIZE);
    if RangeStart(offset, p) + full > EncryptedSize(plainSize, p)
    then EncryptedSize(plainSize, p) - RangeStart(offset, p)
    else full
  }

  /** The range starts on a block and stays, not empty, inside the encrypted file. */
  lemma RangeIsInsideFile(offset: nat, length: nat, plainSize: nat, p: nat)
    requires p > 0 && length > 0 && offset + length <= plainSize
    ensures RangeStart(offset, p) % (p + TAG_SIZE) == 0
    ensures 0 < RangeLength(offset, length, plainSize, p)
    ensures RangeStart(offset, p) + RangeLength(offset, length, plainSize, p) <= EncryptedSize(plainSize, p)
  {
    var q, e := offset / p, p + TAG_SIZE;
    Arithmetic.DivUnique(RangeStart(offset, p), e, q, 0);
    BlockBounds(q, plainSize, p);
    Arithmetic.MulMonotone(e, 1, RangeBlockCount(length, p));
  }

  /** The range ends where its block count says, or at the end of the file. */
  lemma RangeEnd(offset: nat, length: nat, plainSize: nat, p: nat)
    requires p > 0
    ensures RangeStart(offset, p) + RangeLength(offset, length, plainSize, p)
      == Min((offset / p + RangeBlockCount(length, p)) * (p + TAG_SIZE), EncryptedSize(plainSize, p))
  {
    hide EncryptedSize, RangeBlockCount;
    var q, c, e := offset / p, RangeBlockCount(length, p), p + TAG_SIZE;
    assert q * e + c * e == (q + c) * e;
  }

  lemma CoveredIffBelowEnd(i: nat, offset: nat, length: nat, plainSize: nat, p: nat)
    requires p > 0 && offset / p <= i && i * p < plainSize
    ensures Covered(i, RangeStart(offset, p), RangeLength(offset, length, plainSize, p), plainSize, p)
      <==> i < offset / p + RangeBlockCount(length, p)
  {
    hide EncryptedSize, RangeBlockCount, RangeLength, BlockEnd;
    var q, c, e := offset / p, RangeBlockCount(length, p), p + TAG_SIZE;
    RangeEnd(offset, length, plainSize, p);
    BlockBounds(i, plainSize, p);
    Arithmetic.MulMonotone(e, q, i);
    if i < q + c {
      Arithmetic.MulMonotone(e, i + 1, q + c);
    } else {
      Arithmetic.MulMonotone(e, q + c, i);
    }
  }

  /** Every encrypted block that holds a requested byte is fetched. */
  ghost predicate AllCovered(offset: nat, length: nat, plainSize: nat, p: nat)
    requires p > 0 && length > 0
  {
    var start, size := RangeStart(offset, p), RangeLength(offset, length, plainSize, p);
    forall i: nat :: offset / p <= i <= (offset + length - 1) / p ==> Covered(i, start, size, plainSize, p)
  }

  /** Main result: every block holding a requested byte is fetched exactly when the range fits. */
  lemma RangeCoversIffFits(offset: nat, length: nat, plainSize: nat, p: nat)
    requires p > 0 && length > 0 && offset + length <= plainSize
    ensures AllCovered(offset, length, plainSize, p) <==> FitsItsBlocks(offset, length, p)
  {
    var start, size := RangeStart(offset, p), RangeLength(offset, length, plainSize, p);
    var last := (offset + length - 1) / p;
    LastBlockAgainstRange(offset, length, p);
    LastIsNeeded(offset, length, p);
    if FitsItsBlocks(offset, length, p) {
      forall i: nat | offset / p <= i <= last
        ensures Covered(i, start, size, plainSize, p)
      {
        NeededBlockStarts(i, offset, length, plainSize, p);
        CoveredIffBelowEnd(i, offset, length, plainSize, p);
      }
    } else {
      NeededBlockStarts(last, offset, length, plainSize, p);
      CoveredIffBelowEnd(last, offset, length, plainSize, p);
      assert !Covered(last, start, size, plainSize, p);
    }
  }

  lemma LastIsNeeded(offset: nat, length: nat, p: nat)
    requires p > 0 && length > 0
    ensures offset / p <= (offset + length - 1) / p
  {
    if (offset + length - 1) / p < offset / p {
      Arithmetic.MulMonotone(p, (offset + length - 1) / p + 1, offset / p);
    }
  }

  /** Block-aligned offsets always fit. */
  lemma AlignedOffsetsFit(offset: nat, length: nat, p: nat)
    requires p > 0 && offset % p == 0
    ensures FitsItsBlocks(offset, length, p)
  {
    assert length == p * (length / p) + length % p;
  }

  /** A range that does not fit: two bytes across a block border, of which only one block is fetched. */
  lemma RangeAcrossBorderExample()
    ensures !FitsItsBlocks(9, 2, 10)
    ensures RangeStart(9, 10) == 0 && RangeLength(9, 2, 20, 10) == 26 && BlockEnd(1, 20, 10) == 52
  {
  }

  // ----- the unranged reader

  function SealedPiece(c: Cipher, key: bytes, ch: Chunk): bytes {
    c.seal(key, ch.nonce, ch.plain)
  }

  function LegacyEncode(c: Cipher, key: bytes, cs: seq<Chunk>): bytes {
    if cs == [] then [] else SealedPiece(c, key, cs[0]) + LegacyEncode(c, key, cs[1..])
  }

  lemma LegacyEncodeIsNotEmpty(c: Cipher, key: bytes, cs: seq<Chunk>)
    requires c.Lawful()
    ensures cs != [] ==> LegacyEncode(c, key, cs) != []
  {
    if cs != [] {
      assert |SealedPiece(c, key, cs[0])| >= TAG_SIZE;
    }
  }

  function NonceBytes(cs: seq<Chunk>): bytes {
    if cs == [] then [] else cs[0].nonce + NonceBytes(cs[1..])
  }

  // ----- the range arithmetic against real files

  lemma {:induction false} LegacyEncodeConcat(c: Cipher, key: bytes, a: seq<Chunk>, b: seq<Chunk>)
    ensures LegacyEncode(c, key, a + b) == LegacyEncode(c, key, a) + LegacyEncode(c, key, b)
    decreases |a|
  {
    hide SealedPiece;
    if a == [] {
      assert a + b == b;
    } else {
      LegacyEncodeConcat(c, key, a[1..], b);
      assert (a + b)[1..] == a[1..] + b;
      SameConcat(SealedPiece(c, key, a[0]), LegacyEncode(c, key, a[1..]), LegacyEncode(c, key, b));
    }
  }

  /** Sealing adds a tag to each piece and nothing else. */
  lemma {:induction false} LegacyEncodeLength(c: Cipher, key: bytes, cs: seq<Chunk>)
    requires c.Lawful()
    ensures |LegacyEncode(c, key, cs)| == |PlainOf(cs)| + |cs| * TAG_SIZE
    decreases |cs|
  {
    if cs != [] {
      LegacyEncodeLength(c, key, cs[1..]);
    }
  }

  /** Main result: the computed size is that of every encrypted file cut into blocks of this size. */
  lemma {:induction false} EncryptedSizeIsExact(c: Cipher, key: bytes, cs: seq<Chunk>, p: nat)
    requires c.Lawful() && p > 0 && FullPieces(cs, p, true)
    ensures |LegacyEncode(c, key, cs)| == EncryptedSize(|PlainOf(cs)|, p)
  {
    hide PlainOf, LegacyEncode, Cut;
    var n := |PlainOf(cs)|;
    LegacyEncodeLength(c, key, cs);
    FullPiecesAreTheCut(cs, p);
    assert |Plains(cs)| == |cs|;
    CutCount(PlainOf(cs), p);
    SizeFormula(n, p, TAG_SIZE, |cs|);
    if n % p == 0 {
      assert n / p * p == n;
    }
  }

  lemma {:induction false} FullPiecesLength(cs: seq<Chunk>, p: nat)
    requires FullPieces(cs, p, false)
    ensures |PlainOf(cs)| == |cs| * p
    decreases |cs|
  {
    if cs != [] {
      FullPiecesLength(cs[1..], p);
      assert |cs| * p == p + |cs[1..]| * p;
    }
  }

  lemma {:induction false} PlainOfConcat(a: seq<Chunk>, b: seq<Chunk>)
    ensures PlainOf(a + b) == PlainOf(a) + PlainOf(b)
    decreases |a|
  {
    if a == [] {
      assert a + b == b;
    } else {
      PlainOfConcat(a[1..], b);
      assert (a + b)[1..] == a[1..] + b;
    }
  }

  /** Before the last piece all are full, so `k` of them take `k` full encrypted blocks. */
  lemma {:induction false} FirstBlocks(c: Cipher, key: bytes, cs: seq<Chunk>, p: nat, k: nat)
    requires c.Lawful() && p > 0 && FullPieces(cs, p, true) && k < |cs|
    ensures |PlainOf(cs[..k])| == k * p < |PlainOf(cs)|
    ensures |LegacyEncode(c, key, cs[..k])| == k * (p + TAG_SIZE)
  {
    hide LegacyEncode;
    FullPiecesLength(cs[..k], p);
    LegacyEncodeLength(c, key, cs[..k]);
    PlainOfConcat(cs[..k], cs[k..]);
    assert cs == cs[..k] + cs[k..];
    assert PlainOf(cs[k..]) == cs[k].plain + PlainOf(cs[k..][1..]);
    assert k * (p + TAG_SIZE) == k * p + k * TAG_SIZE;
  }

  /** Main result: block `i` of the file ends where the arithmetic says. */
  lemma {:induction false} BlockEndIsExact(c: Cipher, key: bytes, cs: seq<Chunk>, p: nat, i: nat)
    requires c.Lawful() && p > 0 && FullPieces(cs, p, true) && i < |cs|
    ensures |LegacyEncode(c, key, cs[..i + 1])| == BlockEnd(i, |PlainOf(cs)|, p)
  {
    hide LegacyEncode, EncryptedSize;
    if i + 1 < |cs| {
      FirstBlocks(c, key, cs, p, i + 1);
    } else {
      assert cs[..i + 1] == cs;
      EncryptedSizeIsExact(c, key, cs, p);
      LastBlockEnds(c, key, cs, p);
    }
  }

  lemma {:induction false} LastBlockEnds(c: Cipher, key: bytes, cs: seq<Chunk>, p: nat)
    requires c.Lawful() && p > 0 && FullPieces(cs, p, true) && cs != []
    ensures |cs| * p <= |PlainOf(cs)| ==> |LegacyEncode(c, key, cs)| == |cs| * (p + TAG_SIZE)
  {
    hide LegacyEncode;
    var k := |cs| - 1;
    FirstBlocks(c, key, cs, p, k);
    LegacyEncodeLength(c, key, cs);
    PlainOfConcat(cs[..k], cs[k..]);
    assert cs == cs[..k] + cs[k..] && cs[k..] == [cs[k]];
    assert PlainOf([cs[k]]) == cs[k].plain + PlainOf([]);
    assert |cs| * p == k * p + p;
    assert |cs| * (p + TAG_SIZE) == |cs| * p + |cs| * TAG_SIZE;
  }

  /** The piece that holds plaintext byte `x` is number `x / p`. */
  lemma {:induction false} PieceOfByte(c: Cipher, key: bytes, cs: seq<Chunk>, p: nat, x: nat)
    requires c.Lawful() && p > 0 && FullPieces(cs, p, true) && x < |PlainOf(cs)|
    ensures x / p < |cs|
    ensures x / p + 1 < |cs| ==> (x / p + 1) * p < |PlainOf(cs)|
  {
    hide PlainOf, Cut, FullPieces;
    FullPiecesAreTheCut(cs, p);
    assert |Plains(cs)| == |cs|;
    CutCount(PlainOf(cs), p);
    PieceIndex(|PlainOf(cs)|, p, x);
  }

  lemma PieceIndex(n: nat, p: nat, x: nat)
    requires p > 0 && x < n
    ensures var count := n / p + if n % p == 0 then 0 else 1;
      x / p < count && (x / p + 1 < count ==> (x / p + 1) * p < n)
  {
    var q, r := x / p, n / p;
    assert x == q * p + x % p && n == r * p + n % p;
    if r < q {
      Arithmetic.MulMonotone(p, r + 1, q);
    } else if q + 1 <= r {
      Arithmetic.MulMonotone(p, q + 1, r);
      if q + 1 < r {
        Arithmetic.MulMonotone(p, q + 2, r);
      }
    }
  }

  /** The end of the encrypted range, counted in pieces. */
  function FetchedUpTo(offset: nat, length: nat, p: nat, pieces: nat): nat
    requires p > 0
  {
    Min(offset / p + (length + p - 1) / p, pieces)
  }

  lemma RoundedUp(length: nat, p: nat)
    requires p > 0
    ensures RangeBlockCount(length, p) == (length + p - 1) / p
  {
    var q, r := length / p, length % p;
    assert length == p * q + r;
    if r == 0 {
      Arithmetic.DivUnique(length + p - 1, p, q, p - 1);
    } else {
      assert length + p - 1 == p * (q + 1) + (r - 1);
      Arithmetic.DivUnique(length + p - 1, p, q + 1, r - 1);
    }
  }

  /** Where the range ends in the file: after a whole number of pieces. */
  lemma {:induction false} RangeEndsAfterPieces(c: Cipher, key: bytes, cs: seq<Chunk>, p: nat, offset: nat, length: nat)
    requires c.Lawful() && p > 0 && FullPieces(cs, p, true)
    requires length > 0 && offset + length <= |PlainOf(cs)|
    ensures var n := |PlainOf(cs)|;
      var to := FetchedUpTo(offset, length, p, |cs|);
      && offset / p < to <= |cs|
      && RangeStart(offset, p) == |LegacyEncode(c, key, cs[..offset / p])|
      && RangeStart(offset, p) + RangeLength(offset, length, n, p) == |LegacyEncode(c, key, cs[..to])|
  {
    hide LegacyEncode, PlainOf, EncryptedSize, RangeBlockCount, FullPieces;
    var q, count, e := offset / p, (length + p - 1) / p, p + TAG_SIZE;
    PieceOfByte(c, key, cs, p, offset);
    RoundedUp(length, p);
    RangeEnd(offset, length, |PlainOf(cs)|, p);
    EncryptedSizeIsExact(c, key, cs, p);
    FirstBlocks(c, key, cs, p, q);
    CountIsPositive(length, p);
    assert cs[..|cs|] == cs;
    if q + count < |cs| {
      FirstBlocks(c, key, cs, p, q + count);
      EncodePrefixes(c, key, cs, q + count);
    } else {
      var k := |cs| - 1;
      FirstBlocks(c, key, cs, p, k);
      BlockBoundsOfLast(c, key, cs, p);
      Arithmetic.MulMonotone(e, |cs|, q + count);
    }
  }

  lemma CountIsPositive(length: nat, p: nat)
    requires p > 0 && length > 0
    ensures (length + p - 1) / p > 0
  {
    var n := length + p - 1;
    var k := n / p;
    assert n == p * k + n % p;
    if k <= 0 {
      Arithmetic.MulMonotone(p, k, 0);
    }
  }

  lemma {:induction false} EncodePrefixes(c: Cipher, key: bytes, cs: seq<Chunk>, k: nat)
    requires k <= |cs|
    ensures LegacyEncode(c, key, cs) == LegacyEncode(c, key, cs[..k]) + LegacyEncode(c, key, cs[k..])
  {
    LegacyEncodeConcat(c, key, cs[..k], cs[k..]);
    assert cs == cs[..k] + cs[k..];
  }

  /** The whole file is no longer than as many full blocks. */
  lemma {:induction false} BlockBoundsOfLast(c: Cipher, key: bytes, cs: seq<Chunk>, p: nat)
    requires c.Lawful() && p > 0 && FullPieces(cs, p, true) && cs != []
    ensures |LegacyEncode(c, key, cs)| <= |cs| * (p + TAG_SIZE)
  {
    hide LegacyEncode;
    var k := |cs| - 1;
    FirstBlocks(c, key, cs, p, k);
    EncodePrefixes(c, key, cs, k);
    LegacyEncodeLength(c, key, cs[k..]);
    assert cs[k..] == [cs[k]] && PlainOf([cs[k]]) == cs[k].plain + PlainOf([]);
    assert |cs| * (p + TAG_SIZE) == k * (p + TAG_SIZE) + (p + TAG_SIZE);
  }

  /**
    Main result, over any encrypted file: the calculated range lies inside the file, and the
    bytes in it are exactly the sealed pieces from the one that holds the first requested
    byte, as many as the length rounds up to or as there are.
   */
  lemma {:induction false} RangeFetchesPieces(c: Cipher, key: bytes, cs: seq<Chunk>, p: nat, offset: nat, length: nat)
    requires c.Lawful() && p > 0 && FullPieces(cs, p, true)
    requires length > 0 && offset + length <= |PlainOf(cs)|
    ensures var file, n := LegacyEncode(c, key, cs), |PlainOf(cs)|;
      var start, size := RangeStart(offset, p), RangeLength(offset, length, n, p);
      var to := FetchedUpTo(offset, length, p, |cs|);
      && 0 < size && start + size <= |file| && offset / p < to <= |cs|
      && file[start..start + size] == LegacyEncode(c, key, cs[offset / p..to])
  {
    hide LegacyEncode, PlainOf, EncryptedSize, RangeBlockCount, FullPieces, RangeStart, RangeLength;
    var q, to := offset / p, FetchedUpTo(offset, length, p, |cs|);
    RangeEndsAfterPieces(c, key, cs, p, offset, length);
    EncodePrefixes(c, key, cs, to);
    EncodePrefixes(c, key, cs[..to], q);
    assert cs[..to][..q] == cs[..q] && cs[..to][q..] == cs[q..to];
    LegacyEncodeIsNotEmpty(c, key, cs[q..to]);
  }

  /**
    Main result: the fetched pieces include the one that holds the last requested byte, and so
    all that are needed, if and only if the offset inside its block plus the length is no
    more than the length rounded up to whole blocks.
   */
  lemma {:induction false} FetchedIsEnoughIff(c: Cipher, key: bytes, cs: seq<Chunk>, p: nat, offset: nat, length: nat)
    requires c.Lawful() && p > 0 && FullPieces(cs, p, true)
    requires length > 0 && offset + length <= |PlainOf(cs)|
    ensures (offset + length - 1) / p < FetchedUpTo(offset, length, p, |cs|)
      <==> offset % p + length <= p * ((length + p - 1) / p)
  {
    PieceOfByte(c, key, cs, p, offset + length - 1);
    RoundedUp(length, p);
    LastBlockAgainstRange(offset, length, p);
  }

  class LegacyReadMaterials {
    const cipher: Cipher
    const encryptionKey: bytes
    const plainBlockSize: nat
    const encryptedReader: Source
    const bufferedPlainBytes: Buffer
    const nonceBuffer: Buffer
    var eof: bool
    var totalEncryptedRead: nat
    var totalPlainBytesRead: nat
    var plainRangeOffset: nat
    var plainRangeLimit: nat
    var encryptedBlockSize: nat
    var skippedPlainBlockCount: nat
    var rangeBlockCount: nat

    ghost const plain: bytes
    ghost var pending: seq<Chunk>
    ghost var served: bytes

    ghost predicate Base()
      reads this
    {
      0 < plainBlockSize && encryptedBlockSize == plainBlockSize + TAG_SIZE && bufferedPlainBytes != nonceBuffer
    }

    /** `part` was read of the next block; everything else is still in the stream. */
    ghost predicate Sound(part: bytes)
      reads this, encryptedReader, bufferedPlainBytes, nonceBuffer
    {
      && Base() && cipher.Lawful() && GoodNonces(pending) && FullPieces(pending, plainBlockSize, true)
      && part + encryptedReader.rest == LegacyEncode(cipher, encryptionKey, pending)
      && NonceBytes(pending) <= nonceBuffer.data
      && (eof ==> encryptedReader.rest == [])
      && served + bufferedPlainBytes.data + PlainOf(pending) == plain
    }

    constructor (cipher: Cipher, key: bytes, plainBlockSize: nat, reader: Source, nonceBytes: bytes,
                 ghost chunks: seq<Chunk>)
      requires cipher.Lawful() && 0 < plainBlockSize && GoodNonces(chunks) && FullPieces(chunks, plainBlockSize, true)
      requires reader.rest == LegacyEncode(cipher, key, chunks) && NonceBytes(chunks) <= nonceBytes
      ensures Sound([]) && served == [] && plain == PlainOf(chunks)
      ensures encryptedReader == reader && fresh(bufferedPlainBytes) && fresh(nonceBuffer)
    {
      this.cipher, encryptionKey, this.plainBlockSize, encryptedReader := cipher, key, plainBlockSize, reader;
      bufferedPlainBytes := new Buffer();
      nonceBuffer := new Buffer();
      eof, totalEncryptedRead, totalPlainBytesRead := false, 0, 0;
      plainRangeOffset, plainRangeLimit, skippedPlainBlockCount, rangeBlockCount := 0, 0, 0, 0;
      encryptedBlockSize := plainBlockSize + TAG_SIZE;
      plain, pending, served := PlainOf(chunks), chunks, [];
      new;
      var _ := nonceBuffer.Write(nonceBytes);
      assert [] + nonceBytes == nonceBytes;
    }

    method CalculateEncryptedRange(plainFileSize: nat) returns (start: nat, length: int)
      requires plainBlockSize > 0 && plainRangeOffset <= plainRangeLimit
      modifies this`encryptedBlockSize, this`skippedPlainBlockCount, this`rangeBlockCount
      ensures start == RangeStart(plainRangeOffset, plainBlockSize)
      ensures length == RangeLength(plainRangeOffset, plainRangeLimit - plainRangeOffset, plainFileSize, plainBlockSize)
      ensures encryptedBlockSize == plainBlockSize + TAG_SIZE
      ensures skippedPlainBlockCount == plainRangeOffset / plainBlockSize
      ensures rangeBlockCount == RangeBlockCount(plainRangeLimit - plainRangeOffset, plainBlockSize)
    {
      encryptedBlockSize := plainBlockSize + TAG_SIZE;
      skippedPlainBlockCount := plainRangeOffset / plainBlockSize;
      start := skippedPlainBlockCount * encryptedBlockSize;
      var plainRangeLength := plainRangeLimit - plainRangeOffset;
      rangeBlockCount := plainRangeLength / plainBlockSize;
      if plainRangeLength % plainBlockSize > 0 {
        rangeBlockCount := rangeBlockCount + 1;
      }
      var encryptedFileSize := EncryptedSize(plainFileSize, plainBlockSize);
      length := rangeBlockCount * encryptedBlockSize;
      if start + length > encryptedFileSize {
        length := encryptedFileSize - start;
      }
    }

    /** Opens the block gathered in `part` with the next nonce. */
    method OpenPart(part: bytes) returns (err: Option<Error>)
      requires Base() && part != []
      requires |part| == encryptedBlockSize || eof
      modifies this`pending, bufferedPlainBytes, nonceBuffer
      ensures Base()
      ensures err.Some? ==> err.value != EndOfStream
      ensures old(Sound(part)) && |part| <= encryptedBlockSize ==> Sound([]) && err.None?
    {
      hide PlainOf, LegacyEncode, NonceBytes;
      ghost var sound := Sound(part) && |part| <= encryptedBlockSize;
      if sound {
        PartIsFirstPiece(cipher, encryptionKey, pending, plainBlockSize, part, encryptedReader.rest);
        NoncePrefix(pending, nonceBuffer.data);
      }
      var nonce := nonceBuffer.Take(NONCE_SIZE);
      if nonce == [] {
        return Some(NeedMoreData);
      }
      var data := cipher.open(encryptionKey, Fill(nonce, NONCE_SIZE), part);
      if data.None? {
        return Some(OpenFailed);
      }
      if sound {
        UnfoldPlain(pending);
        SameConcat(served + bufferedPlainBytes.data, data.value, PlainOf(pending[1..]));
        SameConcat(served, bufferedPlainBytes.data, data.value);
        pending := pending[1..];
      }
      var _ := bufferedPlainBytes.Write(data.value);
      return None;
    }

    /** One read from the encrypted stream; a complete block is opened and buffered. */
    method Gather(before: bytes) returns (part: bytes, err: Option<Error>)
      requires Base() && |before| < encryptedBlockSize
      modifies this`totalEncryptedRead, this`eof, this`pending, encryptedReader, bufferedPlainBytes, nonceBuffer
      ensures Base() && |part| < encryptedBlockSize
      ensures err.Some? ==> err.value != EndOfStream
      ensures part != [] ==> !eof && bufferedPlainBytes.data == old(bufferedPlainBytes.data)
      ensures |encryptedReader.rest| < |old(encryptedReader.rest)| || (eof && |encryptedReader.rest| == 0)
      ensures old(eof) ==> eof
      ensures old(Sound(before)) ==> Sound(part) && err.None?
    {
      hide PlainOf, LegacyEncode, NonceBytes, GoodNonces, FullPieces;
      var chunk, ended := encryptedReader.ReadSome(encryptedBlockSize - |before|);
      SameConcat(before, chunk, encryptedReader.rest);
      totalEncryptedRead := totalEncryptedRead + |chunk|;
      if ended {
        eof := true;
      }
      part, err := before + chunk, None;
      if part != [] && (|part| == encryptedBlockSize || eof) {
        err := OpenPart(part);
        part := [];
      }
    }

    /** Serves opened bytes, then gathers, opens and serves further blocks. */
    method DecryptRead(b: array<byte>) returns (n: nat, err: Option<Error>)
      requires Base()
      modifies this, encryptedReader, bufferedPlainBytes, nonceBuffer, b
      ensures Base() && n <= b.Length
      ensures old(Sound([])) ==> Sound([]) && (err.None? || err == Some(EndOfStream))
      ensures old(Sound([])) ==> served == old(served) + b[..n] && b[n..] == old(b[n..])
      ensures err.None? ==> n == b.Length
      ensures old(Sound([])) && err.Some? ==> served == plain
    {
      hide PlainOf, LegacyEncode, NonceBytes, GoodNonces, FullPieces;
      ghost var sound := Sound([]);
      n := 0;
      var part: bytes := [];
      while n < b.Length
        invariant Base() && n <= b.Length && |part| < encryptedBlockSize
        invariant part != [] ==> n < b.Length && bufferedPlainBytes.data == [] && !eof
        invariant sound ==> Sound(part) && served == old(served) + b[..n] && b[n..] == old(b[n..])
        decreases b.Length - n, |encryptedReader.rest|, !eof
      {
        if bufferedPlainBytes.data != [] {
          n := ServeBuffered(b, n, old(b[..]), old(served), sound);
          if n == b.Length {
            return n, None;
          }
        } else if eof {
          if sound {
            NothingLeft();
          }
          return n, Some(EndOfStream);
        }
        var e;
        part, e := Gather(part);
        if e.Some? {
          return 0, e;
        }
      }
      return n, None;
    }

    lemma ServedIsPrefix()
      requires Sound([])
      ensures served <= plain
    {
      assert plain == served + (bufferedPlainBytes.data + PlainOf(pending));
    }

    lemma NothingLeft()
      requires Sound([]) && eof && bufferedPlainBytes.data == []
      ensures served == plain
    {
      LegacyEncodeIsNotEmpty(cipher, encryptionKey, pending);
      assert served + [] + [] == served;
    }

    method ServeBuffered(b: array<byte>, from: nat, ghost b0: bytes, ghost served0: bytes, ghost sound: bool)
      returns (next: nat)
      requires Base() && from <= b.Length == |b0|
      requires sound ==> Sound([]) && served == served0 + b[..from] && b[from..] == b0[from..]
      modifies this`served, this`totalPlainBytesRead, bufferedPlainBytes, b
      ensures Base() && from <= next <= b.Length && next - from == Min(b.Length - from, |old(bufferedPlainBytes.data)|)
      ensures next < b.Length ==> bufferedPlainBytes.data == []
      ensures sound ==> Sound([]) && served == served0 + b[..next] && b[next..] == b0[next..]
    {
      hide PlainOf, LegacyEncode, NonceBytes, GoodNonces, FullPieces;
      ghost var before := b[..];
      var p := bufferedPlainBytes.Take(b.Length - from);
      SameConcat(served, p, bufferedPlainBytes.data);
      CopyInto(b, from, p);
      next := from + |p|;
      assert b[..next] == b[..from] + b[from..next];
      SameConcat(served0, before[..from], p);
      if sound {
        SuffixOfEqualSuffix(before, b0, from, next);
      }
      served := served + p;
      totalPlainBytesRead := totalPlainBytesRead + |p|;
    }
  }

  /** A full block, or what is left of the stream at its end, is exactly the next sealed piece. */
  lemma PartIsFirstPiece(c: Cipher, key: bytes, cs: seq<Chunk>, size: nat, part: bytes, rest: bytes)
    requires c.Lawful() && 0 < size && FullPieces(cs, size, true) && part + rest == LegacyEncode(c, key, cs)
    requires part != [] && |part| <= size + TAG_SIZE && (|part| == size + TAG_SIZE || rest == [])
    ensures cs != [] && part == SealedPiece(c, key, cs[0]) && rest == LegacyEncode(c, key, cs[1..])
    ensures FullPieces(cs[1..], size, true)
    ensures c.open(key, cs[0].nonce, part) == Some(cs[0].plain)
  {
    var first := SealedPiece(c, key, cs[0]);
    if |first| < size + TAG_SIZE {
      assert cs[1..] == [];
    } else if cs[1..] != [] {
      assert |SealedPiece(c, key, cs[1..][0])| >= TAG_SIZE;
    }
    assert part == (part + rest)[..|first|] == first;
    assert rest == (part + rest)[|first|..] == LegacyEncode(c, key, cs[1..]);
  }

  lemma NoncePrefix(cs: seq<Chunk>, nonces: bytes)
    requires cs != [] && GoodNonces(cs) && NonceBytes(cs) <= nonces
    ensures |nonces| >= NONCE_SIZE && nonces[..NONCE_SIZE] == cs[0].nonce
    ensures NonceBytes(cs[1..]) <= nonces[NONCE_SIZE..] && GoodNonces(cs[1..])
    ensures Fill(cs[0].nonce, NONCE_SIZE) == cs[0].nonce
  {
    assert nonces[..NONCE_SIZE] == NonceBytes(cs)[..NONCE_SIZE];
    assert nonces[NONCE_SIZE..][..|NonceBytes(cs[1..])|] == NonceBytes(cs)[NONCE_SIZE..];
  }

  /**
    Main result: every schedule of buffer sizes serves a prefix of the plaintext; enough
    non-empty reads reach the end, with the whole plaintext served.
   */
  method DecryptLegacy(m: LegacyReadMaterials, sizes: seq<nat>) returns (out: bytes, ended: bool)
    requires m.Sound([]) && m.served == []
    modifies m, m.encryptedReader, m.bufferedPlainBytes, m.nonceBuffer
    ensures out <= m.plain && (ended ==> out == m.plain)
    ensures Positive(sizes) > |m.plain| ==> ended
  {
    hide PlainOf, LegacyEncode, NonceBytes, GoodNonces, FullPieces;
    out, ended := [], false;
    for i := 0 to |sizes|
      invariant m.Sound([]) && out == m.served && (ended ==> out == m.plain)
      invariant !ended ==> Positive(sizes[..i]) <= |out|
    {
      assert sizes[..i + 1][..i] == sizes[..i];
      var b := new byte[sizes[i]];
      var n, e := m.DecryptRead(b);
      out := out + b[..n];
      ended := ended || e.Some?;
      m.ServedIsPrefix();
    }
    assert sizes[..|sizes|] == sizes;
    m.ServedIsPrefix();
  }

  /** A legacy file, sealed piece by piece with the given nonces, is served back. */
  method DecryptLegacyFile(c: Cipher, key: bytes, blockSize: nat, cs: seq<Chunk>, sizes: seq<nat>)
    returns (out: bytes, ended: bool)
    requires c.Lawful() && 0 < blockSize && GoodNonces(cs) && FullPieces(cs, blockSize, true)
    ensures out <= PlainOf(cs) && (ended ==> out == PlainOf(cs))
    ensures Positive(sizes) > |PlainOf(cs)| ==> ended
  {
    var reader := new Source(LegacyEncode(c, key, cs));
    var m := new LegacyReadMaterials(c, key, blockSize, reader, NonceBytes(cs), cs);
    out, ended := DecryptLegacy(m, sizes);
  }
}
