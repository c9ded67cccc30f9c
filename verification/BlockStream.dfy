/**
  Sealed streams: what the encrypting reader serves, as a function of the plaintext,
  and what the decrypting reader may serve of it under a plain range.
 */
module BlockStream {
  import opened Bytes
  import opened Results
  import opened BlockFormat
  import Arithmetic

  /** Authenticated encryption, taken as a pair of functions; only its two laws are used. */
  datatype Cipher = Cipher(seal: (bytes, bytes, bytes) -> bytes, open: (bytes, bytes, bytes) -> Option<bytes>) {
    ghost predicate Lawful() {
      forall key: bytes, nonce: bytes, data: bytes ::
        |seal(key, nonce, data)| == |data| + TAG_SIZE && open(key, nonce, seal(key, nonce, data)) == Some(data)
    }
  }

  /** What stays fixed over one stream. */
  datatype Scheme = Scheme(cipher: Cipher, key: bytes, owner: bytes)

  /** One plaintext piece and the nonce it is sealed with. */
  datatype Chunk = Chunk(nonce: bytes, plain: bytes)

  /** The laws can be met: padding with 16 zero bytes is a (useless) cipher. */
  lemma LawfulCipherExists() returns (c: Cipher)
    ensures c.Lawful()
  {
    c := Cipher((key, nonce, data) => data + Zeros(TAG_SIZE),
                (key, nonce, data) => if |data| < TAG_SIZE then None else Some(data[..|data| - TAG_SIZE]));
    forall key: bytes, nonce: bytes, data: bytes
      ensures |c.seal(key, nonce, data)| == |data| + TAG_SIZE
      ensures c.open(key, nonce, c.seal(key, nonce, data)) == Some(data)
    {
      assert (data + Zeros(TAG_SIZE))[..|data|] == data;
    }
  }

  /** Every block of a stream carries a zero position, a zero part and the owner. */
  function StreamOptions(owner: bytes): Options {
    Options(0, 0, None, owner)
  }

  function SealedBlock(s: Scheme, ch: Chunk): Block {
    Block(Some(StreamOptions(s.owner)), ch.nonce, s.cipher.seal(s.key, ch.nonce, ch.plain))
  }

  function EncodeChunks(s: Scheme, cs: seq<Chunk>): bytes {
    if cs == [] then [] else EncodeBlock(SealedBlock(s, cs[0])) + EncodeChunks(s, cs[1..])
  }

  function PlainOf(cs: seq<Chunk>): bytes {
    if cs == [] then [] else cs[0].plain + PlainOf(cs[1..])
  }

  lemma {:induction false} EncodeChunksAppend(s: Scheme, cs: seq<Chunk>, ch: Chunk)
    ensures EncodeChunks(s, cs + [ch]) == EncodeChunks(s, cs) + EncodeBlock(SealedBlock(s, ch))
    decreases |cs|
  {
    hide EncodeBlock, SealedBlock;
    if cs == [] {
      assert [ch][1..] == [];
    } else {
      EncodeChunksAppend(s, cs[1..], ch);
      assert (cs + [ch])[1..] == cs[1..] + [ch];
    }
  }

  lemma {:induction false} PlainOfAppend(cs: seq<Chunk>, ch: Chunk)
    ensures PlainOf(cs + [ch]) == PlainOf(cs) + ch.plain
    decreases |cs|
  {
    if cs == [] {
      assert [ch][1..] == [];
    } else {
      PlainOfAppend(cs[1..], ch);
      assert (cs + [ch])[1..] == cs[1..] + [ch];
    }
  }

  // ----- cutting the plaintext

  /** Pieces of `size` bytes, the last one shorter when the plaintext does not divide. */
  function Cut(plain: bytes, size: nat): (r: seq<bytes>)
    requires size > 0
    decreases |plain|
  {
    if plain == [] then [] else [plain[..Min(size, |plain|)]] + Cut(plain[Min(size, |plain|)..], size)
  }

  function Plains(cs: seq<Chunk>): seq<bytes> {
    seq(|cs|, i requires 0 <= i < |cs| => cs[i].plain)
  }

  /** Full pieces, except that the last may be short once the input has `ended`. */
  predicate FullPieces(cs: seq<Chunk>, size: nat, ended: bool) {
    && (forall i :: 0 <= i < |cs| ==> 0 < |cs[i].plain| <= size)
    && (forall i :: 0 <= i < |cs| && (i < |cs| - 1 || !ended) ==> |cs[i].plain| == size)
  }

  lemma {:induction false} FullPiecesAreTheCut(cs: seq<Chunk>, size: nat)
    requires size > 0 && FullPieces(cs, size, true)
    ensures Plains(cs) == Cut(PlainOf(cs), size)
    decreases |cs|
  {
    if cs != [] {
      var plain, head, tail := PlainOf(cs), cs[0].plain, cs[1..];
      assert FullPieces(tail, size, true);
      FullPiecesAreTheCut(tail, size);
      if tail == [] {
        assert plain == head;
      }
      assert plain[..Min(size, |plain|)] == head && plain[Min(size, |plain|)..] == PlainOf(tail);
      assert Plains(cs) == [head] + Plains(tail);
    }
  }

  // ----- sizes

  /** The size of a block header in a stream of this owner. */
  function StreamHeaderSize(owner: bytes): nat {
    |EncodeHeader(Header(Some(StreamOptions(owner)), Zeros(NONCE_SIZE), 0))|
  }

  /** A stream header takes 18 bytes, or, with an owner, 20 and the owner. */
  lemma {:induction false} StreamHeaderSizeIs(owner: bytes)
    ensures StreamHeaderSize(owner) == if owner == [] then 18 else 20 + |owner|
  {
    hide EncodeOptions;
    StreamOptionBytes(owner);
  }

  lemma SealedBlockSize(s: Scheme, ch: Chunk)
    requires s.cipher.Lawful() && |ch.nonce| == NONCE_SIZE
    ensures |EncodeHeader(HeaderOf(SealedBlock(s, ch)))| == StreamHeaderSize(s.owner)
    ensures |EncodeBlock(SealedBlock(s, ch))| == StreamHeaderSize(s.owner) + |ch.plain| + TAG_SIZE
  {
    hide EncodeOptions, BigEndian;
  }

  predicate GoodNonces(cs: seq<Chunk>) {
    forall i :: 0 <= i < |cs| ==> |cs[i].nonce| == NONCE_SIZE
  }

  lemma {:induction false} EncodeChunksSize(s: Scheme, cs: seq<Chunk>)
    requires s.cipher.Lawful() && GoodNonces(cs)
    ensures |EncodeChunks(s, cs)| == |PlainOf(cs)| + |cs| * (StreamHeaderSize(s.owner) + TAG_SIZE)
    decreases |cs|
  {
    hide StreamHeaderSize, EncodeBlock, SealedBlock;
    if cs != [] {
      SealedBlockSize(s, cs[0]);
      EncodeChunksSize(s, cs[1..]);
      var k := StreamHeaderSize(s.owner) + TAG_SIZE;
      assert |cs| * k == k + (|cs| - 1) * k;
    }
  }

  /** The arithmetic of `CalculateOutputSize`; -1 stands for an unknown size. */
  function OutputSize(plainSize: int, headerSize: nat, blockSize: nat): int
    requires blockSize > 0 && plainSize >= -1
  {
    if plainSize == -1 then -1
    else
      var blockCount := plainSize / blockSize;
      var full := blockCount * (blockSize + headerSize + TAG_SIZE);
      if blockCount * blockSize != plainSize then full + plainSize % blockSize + headerSize + TAG_SIZE else full
  }

  lemma {:induction false} CutCount(plain: bytes, size: nat)
    requires size > 0
    ensures |Cut(plain, size)| == |plain| / size + if |plain| % size == 0 then 0 else 1
    decreases |plain|
  {
    if |plain| > size {
      CutCount(plain[size..], size);
      Arithmetic.DivStep(|plain|, size);
    } else if |plain| == size {
      assert plain[size..] == [];
    } else if plain != [] {
      assert Cut(plain[|plain|..], size) == [];
    }
  }

  /** Main result: the size announced for an upload is the size of the sealed stream. */
  lemma OutputSizeIsExact(s: Scheme, cs: seq<Chunk>, size: nat)
    requires s.cipher.Lawful() && size > 0 && GoodNonces(cs) && FullPieces(cs, size, true)
    ensures |EncodeChunks(s, cs)| == OutputSize(|PlainOf(cs)|, StreamHeaderSize(s.owner), size)
  {
    hide StreamHeaderSize, EncodeChunks, PlainOf, Cut, FullPieces, GoodNonces;
    FullPiecesAreTheCut(cs, size);
    EncodeChunksSize(s, cs);
    CutCount(PlainOf(cs), size);
    var n, h := |PlainOf(cs)|, StreamHeaderSize(s.owner);
    assert |cs| == |Plains(cs)|;
    SizeFormula(n, size, h + TAG_SIZE, |cs|);
  }

  lemma SizeFormula(n: nat, size: nat, extra: nat, count: nat)
    requires size > 0 && count == n / size + if n % size == 0 then 0 else 1
    ensures n + count * extra ==
      n / size * (size + extra) + if n / size * size != n then n % size + extra else 0
  {
    var q := n / size;
    assert n == q * size + n % size;
    assert q * (size + extra) == q * size + q * extra;
    assert (q + 1) * extra == q * extra + extra;
  }

  // ----- the plain range

  /** How many plaintext bytes come before a range that starts at `offset`. */
  function Skipped(length: nat, offset: int): (k: nat)
    ensures k <= length
  {
    if offset <= 0 then 0 else Min(offset, length)
  }

  /** What a decrypting reader with these range fields serves of a plaintext. */
  function Window(plain: bytes, offset: int, limit: int): bytes {
    var tail := plain[Skipped(|plain|, offset)..];
    if limit - offset > 0 then tail[..Min(limit - offset, |tail|)] else tail
  }

  /** The limit that `SetPlainRange` derives; without a range both fields stay 0. */
  function RangeLimit(offset: int, length: int): int {
    if length > 0 then offset + length else -1
  }

  /** The window is the requested range, cut at the end of the plaintext. */
  lemma WindowIsTheRange(plain: bytes, offset: nat, length: int)
    ensures var from := Min(offset, |plain|);
      Window(plain, offset, RangeLimit(offset, length)) ==
        if length > 0 then plain[from..Min(offset + length, |plain|)] else plain[from..]
    ensures Window(plain, 0, 0) == plain
  {
  }

  /** For an open-ended range a negative offset acts as a limit of -1 - offset bytes, unless it is -1. */
  lemma NegativeOffsetIffHarmless(plain: bytes, offset: int)
    requires offset < 0
    ensures Window(plain, offset, RangeLimit(offset, 0)) == plain <==> offset == -1 || |plain| <= -1 - offset
  {
  }

  /** Asked for everything from -3 on, a reader serves the first two of ten bytes. */
  lemma NegativeOffsetExample(plain: bytes)
    requires |plain| == 10
    ensures Window(plain, -3, RangeLimit(-3, 0)) == plain[..2] != plain
  {
    NegativeOffsetIffHarmless(plain, -3);
  }

  /** The announced size: the plaintext, and for each block begun a header and a tag. */
  lemma {:induction false} OutputSizeIs(plainSize: nat, owner: bytes, size: nat)
    requires size > 0
    ensures OutputSize(plainSize, StreamHeaderSize(owner), size)
      == plainSize + (plainSize + size - 1) / size * (16 + if owner == [] then 18 else 20 + |owner|)
  {
    hide StreamHeaderSize;
    StreamHeaderSizeIs(owner);
    var q, r := plainSize / size, plainSize % size;
    assert plainSize == size * q + r;
    if r == 0 {
      Arithmetic.DivUnique(plainSize + size - 1, size, q, size - 1);
    } else {
      assert plainSize + size - 1 == size * (q + 1) + (r - 1);
      Arithmetic.DivUnique(plainSize + size - 1, size, q + 1, r - 1);
    }
    SizeFormula(plainSize, size, TAG_SIZE + StreamHeaderSize(owner), (plainSize + size - 1) / size);
  }

  /** Monotone: more plaintext never needs a smaller stream. */
  lemma OutputSizeGrows(n: nat, m: nat, headerSize: nat, size: nat)
    requires size > 0 && n <= m
    ensures 0 <= OutputSize(n, headerSize, size) <= OutputSize(m, headerSize, size)
  {
    var extra := headerSize + TAG_SIZE;
    var a := n / size + if n % size == 0 then 0 else 1;
    var b := m / size + if m % size == 0 then 0 else 1;
    SizeFormula(n, size, extra, a);
    SizeFormula(m, size, extra, b);
    CeilingGrows(n, m, size);
    Arithmetic.MulMonotone(extra, a, b);
  }

  lemma CeilingGrows(n: nat, m: nat, size: nat)
    requires size > 0 && n <= m
    ensures n / size + (if n % size == 0 then 0 else 1) <= m / size + (if m % size == 0 then 0 else 1)
  {
    var q, r := n / size, m / size;
    assert n == q * size + n % size && m == r * size + m % size;
    if r < q {
      Arithmetic.MulMonotone(size, r + 1, q);
    }
  }

  /** Opening one more piece: what is skipped of it, and what the reader may serve then. */
  function Kept(decrypted: nat, data: bytes, offset: int): bytes {
    var cursor := Skipped(decrypted, offset);
    if cursor >= offset then data
    else if offset - cursor > |data| then []
    else data[offset - cursor..]
  }

  lemma KeptExtendsWindow(decrypted: bytes, data: bytes, offset: int)
    ensures (decrypted + data)[Skipped(|decrypted + data|, offset)..]
      == decrypted[Skipped(|decrypted|, offset)..] + Kept(|decrypted|, data, offset)
  {
  }

  /** Bytes within the limit, taken from what is decrypted so far, are a prefix of the window. */
  lemma ServedIsWindowPrefix(decrypted: bytes, later: bytes, served: bytes, buffered: bytes, offset: int, limit: int)
    requires served + buffered == decrypted[Skipped(|decrypted|, offset)..]
    requires limit - offset > 0 ==> |served| <= limit - offset
    ensures served <= Window(decrypted + later, offset, limit)
    ensures limit - offset > 0 && |served| == limit - offset ==> served == Window(decrypted + later, offset, limit)
    ensures later == [] && buffered == [] ==> served == Window(decrypted + later, offset, limit)
  {
    var tail := (decrypted + later)[Skipped(|decrypted + later|, offset)..];
    KeptExtendsWindow(decrypted, later, offset);
    assert tail[..|served|] == served;
  }

  lemma EncodingIsNotEmpty(s: Scheme, cs: seq<Chunk>)
    requires GoodNonces(cs) && cs != []
    ensures EncodeChunks(s, cs) != []
  {
    assert |EncodeBlock(SealedBlock(s, cs[0]))| >= NONCE_SIZE;
  }
}
