/**
  Whole runs of the encrypting and decrypting readers, for every schedule of buffer
  sizes, every pattern of short reads and every choice of nonces.
 */
module StreamRuns {
  import opened Bytes
  import opened Results
  import opened BlockFormat
  import opened BlockStream
  import opened BlockIO
  import opened Materials

  /** The pieces of a plaintext with the nonces that were announced for them. */
  function PairUp(pieces: seq<bytes>, published: seq<Published>): seq<Chunk>
    requires |pieces| == |published|
  {
    seq(|pieces|, i requires 0 <= i < |pieces| => Chunk(published[i].nonce, pieces[i]))
  }

  /** The announcements describe the pieces `cs` of a stream cut at `blockSize`. */
  ghost predicate Sealed(s: Scheme, blockSize: nat, plain: bytes, cs: seq<Chunk>, published: seq<Published>) {
    && GoodNonces(cs) && FullPieces(cs, blockSize, true) && PlainOf(cs) == plain
    && Announces(published, s.owner, cs)
  }

  /** Where the i-th block starts, by the announced sizes. */
  function BlockStart(published: seq<Published>, i: nat): nat
    requires i <= |published|
  {
    if i == 0 then 0
    else BlockStart(published, i - 1) + published[i - 1].headerSize + published[i - 1].blockSize
  }

  lemma {:induction false} BlockStartIsPrefixLength(s: Scheme, cs: seq<Chunk>, published: seq<Published>, i: nat)
    requires s.cipher.Lawful() && GoodNonces(cs) && Announces(published, s.owner, cs) && i <= |cs|
    ensures EncodeChunks(s, cs) == EncodeChunks(s, cs[..i]) + EncodeChunks(s, cs[i..])
    ensures BlockStart(published, i) == |EncodeChunks(s, cs[..i])|
    decreases i
  {
    hide EncodeBlock, SealedBlock, StreamHeaderSize, EncodeChunks;
    if i == 0 {
      assert cs[0..] == cs && cs[..0] == [];
      EncodingNothing(s);
    } else {
      BlockStartIsPrefixLength(s, cs, published, i - 1);
      MoveChunk(s, cs, i - 1);
      SealedBlockSize(s, cs[i - 1]);
    }
  }

  lemma EncodingNothing(s: Scheme)
    ensures EncodeChunks(s, []) == []
  {
  }

  /** The encoding of one chunk, moved from the rest to the beginning. */
  lemma MoveChunk(s: Scheme, cs: seq<Chunk>, i: nat)
    requires i < |cs|
    requires EncodeChunks(s, cs) == EncodeChunks(s, cs[..i]) + EncodeChunks(s, cs[i..])
    ensures EncodeChunks(s, cs) == EncodeChunks(s, cs[..i + 1]) + EncodeChunks(s, cs[i + 1..])
    ensures |EncodeChunks(s, cs[..i + 1])| == |EncodeChunks(s, cs[..i])| + |EncodeBlock(SealedBlock(s, cs[i]))|
  {
    hide EncodeBlock, SealedBlock;
    EncodeChunksAppend(s, cs[..i], cs[i]);
    assert cs[..i + 1] == cs[..i] + [cs[i]];
    assert cs[i..][0] == cs[i] && cs[i..][1..] == cs[i + 1..];
    SameConcat(EncodeChunks(s, cs[..i]), EncodeBlock(SealedBlock(s, cs[i])), EncodeChunks(s, cs[i + 1..]));
  }

  /** The i-th block is the slice of the stream that the announced sizes delimit. */
  ghost predicate LiesWhereAnnounced(s: Scheme, cs: seq<Chunk>, published: seq<Published>, i: nat)
    requires i < |cs| == |published|
  {
    var stream, from, to := EncodeChunks(s, cs), BlockStart(published, i), BlockStart(published, i + 1);
    from <= to <= |stream| && stream[from..to] == EncodeBlock(SealedBlock(s, cs[i]))
  }

  lemma {:induction false} BlockLiesWhereAnnounced(s: Scheme, cs: seq<Chunk>, published: seq<Published>, i: nat)
    requires s.cipher.Lawful() && GoodNonces(cs) && Announces(published, s.owner, cs) && i < |cs|
    ensures LiesWhereAnnounced(s, cs, published, i)
  {
    hide EncodeBlock, SealedBlock, StreamHeaderSize, EncodeChunks;
    BlockStartIsPrefixLength(s, cs, published, i);
    BlockStartIsPrefixLength(s, cs, published, i + 1);
    EncodeChunksAppend(s, cs[..i], cs[i]);
    assert cs[..i + 1] == cs[..i] + [cs[i]];
  }

  /**
    What the receiver of the announcements can do with the i-th: go to its place in the
    stream, read a header of exactly the announced size there, with the announced nonce and
    payload size, and open the payload that follows to the i-th piece. Owners of more than
    255 bytes make headers that cannot be read; sizes, nonce and payload are right for them too.
   */
  ghost predicate ReadsAsAnnounced(s: Scheme, stream: bytes, published: seq<Published>, i: nat, piece: bytes)
    requires i < |published|
  {
    var from, p := BlockStart(published, i), published[i];
    var body := from + p.headerSize;
    && body + p.blockSize <= |stream|
    && s.cipher.open(s.key, p.nonce, stream[body..body + p.blockSize]) == Some(piece)
    && (|s.owner| <= 255 ==>
        var h := DecodeHeader(stream[from..]);
        h.Parsed? && h.size == p.headerSize && h.value.dataLength == p.blockSize && h.value.nonce == p.nonce)
  }

  /** The announced blocks fill the stream, and each reads as announced. */
  ghost predicate AnnouncedRight(s: Scheme, stream: bytes, published: seq<Published>, pieces: seq<bytes>) {
    && |published| == |pieces| && BlockStart(published, |published|) == |stream|
    && forall i :: 0 <= i < |pieces| ==> ReadsAsAnnounced(s, stream, published, i, pieces[i])
  }

  lemma {:induction false} BlockReadsAsAnnounced(s: Scheme, cs: seq<Chunk>, published: seq<Published>, i: nat)
    requires s.cipher.Lawful() && Sealable(cs) && Announces(published, s.owner, cs) && i < |cs|
    ensures ReadsAsAnnounced(s, EncodeChunks(s, cs), published, i, cs[i].plain)
  {
    hide EncodeBlock, EncodeHeader, DecodeHeader, SealedBlock, StreamHeaderSize, EncodeChunks, Encodable, Normalise;
    var stream, from, b := EncodeChunks(s, cs), BlockStart(published, i), SealedBlock(s, cs[i]);
    BlockLiesWhereAnnounced(s, cs, published, i);
    var to := BlockStart(published, i + 1);
    SealedBlockSize(s, cs[i]);
    SealedPayload(s, cs[i]);
    var n, tail := |EncodeHeader(HeaderOf(b))|, stream[to..];
    assert stream[from..] == EncodeBlock(b) + tail;
    assert stream[from + n..to] == EncodeBlock(b)[n..];
    if |s.owner| <= 255 {
      assert Sealable([cs[i]]);
      SealedBlockIsEncodable(s, cs[i]);
      BlockParts(b, tail);
    }
  }

  lemma {:induction false} SealedPayload(s: Scheme, ch: Chunk)
    requires s.cipher.Lawful()
    ensures var b := SealedBlock(s, ch);
      && EncodeBlock(b)[|EncodeHeader(HeaderOf(b))|..] == b.payload && |b.payload| == |ch.plain| + TAG_SIZE
      && s.cipher.open(s.key, ch.nonce, b.payload) == Some(ch.plain)
  {
    hide EncodeHeader;
  }

  /**
    Main result: the announced header and block sizes tile the stream exactly, in order, and
    with the announced nonces they are all that is needed to read and open every block.
   */
  lemma {:induction false} AnnouncedBlocksTile(s: Scheme, cs: seq<Chunk>, published: seq<Published>)
    requires s.cipher.Lawful() && Sealable(cs) && Announces(published, s.owner, cs)
    ensures AnnouncedRight(s, EncodeChunks(s, cs), published, Plains(cs))
  {
    forall i | 0 <= i < |cs|
      ensures ReadsAsAnnounced(s, EncodeChunks(s, cs), published, i, cs[i].plain)
    {
      BlockReadsAsAnnounced(s, cs, published, i);
    }
    BlockStartIsPrefixLength(s, cs, published, |cs|);
    assert cs[..|cs|] == cs;
  }

  lemma PairUpRestoresChunks(cs: seq<Chunk>, size: nat, owner: bytes, published: seq<Published>)
    requires size > 0 && FullPieces(cs, size, true) && Announces(published, owner, cs)
    ensures |Cut(PlainOf(cs), size)| == |published| && PairUp(Cut(PlainOf(cs), size), published) == cs
  {
    FullPiecesAreTheCut(cs, size);
    assert |Plains(cs)| == |cs|;
    assert forall i :: 0 <= i < |cs| ==> Plains(cs)[i] == cs[i].plain;
  }

  /** `CalculateOutputSize`: it writes a sample header to learn its size. */
  method CalculateOutputSize(plainSize: int, user: bytes, blockSize: nat) returns (size: int)
    requires blockSize > 0 && plainSize >= -1
    ensures size == OutputSize(plainSize, StreamHeaderSize(user), blockSize)
    ensures plainSize == -1 ==> size == -1
    ensures plainSize >= 0 ==>
      size == plainSize + (plainSize + blockSize - 1) / blockSize * (16 + if user == [] then 18 else 20 + |user|)
  {
    hide EncodeHeader;
    if plainSize >= 0 {
      OutputSizeIs(plainSize, user, blockSize);
    }
    if plainSize == -1 {
      return plainSize;
    }
    var options := new OptionsRecord();
    options.userId := user;
    var header := new EncryptedBlockHeader(Zeros(NONCE_SIZE), options);
    var buffer := new Buffer();
    assert header.View() == Header(Some(StreamOptions(user)), Zeros(NONCE_SIZE), 0);
    var headerSize := header.Write(buffer);
    var blockCount := plainSize / blockSize;
    size := blockCount * (blockSize + headerSize + TAG_SIZE);
    if blockCount * blockSize != plainSize {
      var lastBlockSize := plainSize % blockSize + headerSize + TAG_SIZE;
      size := size + lastBlockSize;
    }
  }

  /** How many of the requested sizes are not zero. */
  function Positive(sizes: seq<nat>): nat {
    if sizes == [] then 0 else Positive(sizes[..|sizes| - 1]) + if sizes[|sizes| - 1] > 0 then 1 else 0
  }

  /** A stream in the making is never longer than announced for its plaintext. */
  lemma StreamIsBounded(m: EncryptMaterials)
    requires m.Valid()
    ensures |m.served| <= OutputSize(|m.plain|, StreamHeaderSize(m.scheme.owner), m.blockSize)
  {
    hide EncodeChunks, PlainOf, StreamHeaderSize, OutputSize;
    OutputSizeIsExact(m.scheme, m.chunks, m.blockSize);
    OutputSizeGrows(|PlainOf(m.chunks)|, |m.plain|, StreamHeaderSize(m.scheme.owner), m.blockSize);
  }

  /** A finished reader has served the sealing of the whole plaintext. */
  lemma DoneIsSealed(m: EncryptMaterials)
    requires m.Valid() && m.Done()
    ensures Sealed(m.scheme, m.blockSize, m.plain, m.chunks, m.published)
    ensures |Cut(m.plain, m.blockSize)| == |m.published|
    ensures m.chunks == PairUp(Cut(m.plain, m.blockSize), m.published)
    ensures m.served == EncodeChunks(m.scheme, m.chunks)
    ensures AnnouncedRight(m.scheme, m.served, m.published, Cut(m.plain, m.blockSize))
    ensures |m.served| == OutputSize(|m.plain|, StreamHeaderSize(m.scheme.owner), m.blockSize)
  {
    hide EncodeChunks, PlainOf, StreamHeaderSize, Cut, OutputSize, AnnouncedRight;
    assert m.served + [] == m.served && PlainOf(m.chunks) + [] == PlainOf(m.chunks);
    AnnouncedBlocksTile(m.scheme, m.chunks, m.published);
    FullPiecesAreTheCut(m.chunks, m.blockSize);
    PairUpRestoresChunks(m.chunks, m.blockSize, m.scheme.owner, m.published);
    OutputSizeIsExact(m.scheme, m.chunks, m.blockSize);
  }

  /**
    Reads an encrypting reader with each of the given buffer sizes, empty buffers included.
    Once the end is reported, what was read is the sealing of the cut plaintext; more
    non-empty reads than the announced size has bytes always reach the end.
   */
  method EncryptAll(s: Scheme, blockSize: nat, plain: bytes, sizes: seq<nat>)
    returns (out: bytes, ended: bool, published: seq<Published>, ghost cs: seq<Chunk>)
    requires s.cipher.Lawful() && 0 < blockSize && blockSize + TAG_SIZE < OPTIONS_FLAG
    ensures Announces(published, s.owner, cs) && out <= EncodeChunks(s, cs) && PlainOf(cs) <= plain
    ensures ended ==> Sealed(s, blockSize, plain, cs, published)
    ensures ended ==> |Cut(plain, blockSize)| == |published| && cs == PairUp(Cut(plain, blockSize), published)
    ensures ended ==> out == EncodeChunks(s, cs)
    ensures ended ==> AnnouncedRight(s, out, published, Cut(plain, blockSize))
    ensures ended ==> |out| == OutputSize(|plain|, StreamHeaderSize(s.owner), blockSize)
    ensures Positive(sizes) > OutputSize(|plain|, StreamHeaderSize(s.owner), blockSize) ==> ended
  {
    hide EncodeChunks, PlainOf, StreamHeaderSize, Cut, OutputSize, AnnouncedRight;
    var source := new Source(plain);
    var m := new EncryptMaterials(s, blockSize, source);
    out, ended := [], false;
    for i := 0 to |sizes|
      invariant m.Valid() && m.scheme == s && m.blockSize == blockSize && m.plain == plain
      invariant m.stream == source && fresh(source) && fresh(m) && fresh(m.bufferedProcessed)
      invariant out == m.served && (ended ==> m.Done())
      invariant !ended ==> Positive(sizes[..i]) <= |out|
    {
      assert sizes[..i + 1][..i] == sizes[..i];
      var b := new byte[sizes[i]];
      var n, end := m.EncryptRead(b);
      out := out + b[..n];
      ended := ended || end;
    }
    assert sizes[..|sizes|] == sizes;
    published, cs := m.published, m.chunks;
    StreamIsBounded(m);
    if ended {
      DoneIsSealed(m);
    }
  }

  /** Reads with each of the given buffer sizes, past the end of the stream if they go on. */
  method DecryptAll(m: DecryptMaterials, sizes: seq<nat>) returns (out: bytes, ended: bool)
    requires m.Sound() && m.served == [] && !m.reachedRangeLimit
    modifies m, m.stream, m.bufferedProcessed
    ensures var window := Window(m.plain, old(m.plainRangeOffset), old(m.plainRangeLimit));
      && out <= window
      && (ended ==> out == window)
      && (Positive(sizes) > |window| + 1 ==> ended)
  {
    hide EncodeChunks, PlainOf, Window;
    ghost var window := Window(m.plain, m.plainRangeOffset, m.plainRangeLimit);
    out, ended := [], false;
    for i := 0 to |sizes|
      invariant m.Sound() && out == m.served
      invariant m.plainRangeOffset == old(m.plainRangeOffset) && m.plainRangeLimit == old(m.plainRangeLimit)
      invariant ended ==> m.reachedRangeLimit
      invariant !ended ==> Positive(sizes[..i]) <= |out| + if m.reachedRangeLimit then 1 else 0
    {
      assert sizes[..i + 1][..i] == sizes[..i];
      var b := new byte[sizes[i]];
      var n, e := m.DecryptRead(b);
      out := out + b[..n];
      ended := e == Some(EndOfStream);
    }
    assert sizes[..|sizes|] == sizes;
    m.ServedSoFar();
  }

  /**
    Main result: encrypting a plaintext and decrypting a range of it gives that range.
    Reads of any size, zero included, only ever return a prefix of it; enough non-empty
    reads on both sides reach the end, and nothing more comes after it.
   */
  method EncryptThenDecrypt(s: Scheme, blockSize: nat, plain: bytes, offset: nat, length: int,
                            encryptSizes: seq<nat>, decryptSizes: seq<nat>)
    returns (sealed: bool, out: bytes, ended: bool)
    requires s.cipher.Lawful() && |s.owner| <= 255 && 0 < blockSize && blockSize + TAG_SIZE < OPTIONS_FLAG
    ensures Positive(encryptSizes) > OutputSize(|plain|, StreamHeaderSize(s.owner), blockSize) ==> sealed
    ensures var from := Min(offset, |plain|);
      var range := if length > 0 then plain[from..Min(offset + length, |plain|)] else plain[from..];
      && out <= range
      && (ended ==> out == range)
      && (sealed && Positive(decryptSizes) > |range| + 1 ==> ended)
  {
    hide EncodeChunks, PlainOf, Window, Cut, OutputSize, StreamHeaderSize;
    var stream, published;
    ghost var cs;
    stream, sealed, published, cs := EncryptAll(s, blockSize, plain, encryptSizes);
    out, ended := [], false;
    if sealed {
      var source := new Source(stream);
      assert Sealable(cs);
      var m := new DecryptMaterials(s, source, cs);
      m.SetPlainRange(offset, length);
      WindowIsTheRange(plain, offset, length);
      out, ended := DecryptAll(m, decryptSizes);
    }
  }

  /** The same without a range: the whole plaintext comes back. */
  method EncryptThenDecryptAll(s: Scheme, blockSize: nat, plain: bytes, encryptSizes: seq<nat>, decryptSizes: seq<nat>)
    returns (sealed: bool, out: bytes, ended: bool)
    requires s.cipher.Lawful() && |s.owner| <= 255 && 0 < blockSize && blockSize + TAG_SIZE < OPTIONS_FLAG
    ensures Positive(encryptSizes) > OutputSize(|plain|, StreamHeaderSize(s.owner), blockSize) ==> sealed
    ensures out <= plain && (ended ==> out == plain) && (sealed && Positive(decryptSizes) > |plain| + 1 ==> ended)
  {
    hide EncodeChunks, PlainOf, Window, Cut, OutputSize, StreamHeaderSize;
    var stream, published;
    ghost var cs;
    stream, sealed, published, cs := EncryptAll(s, blockSize, plain, encryptSizes);
    out, ended := [], false;
    if sealed {
      var source := new Source(stream);
      assert Sealable(cs);
      var m := new DecryptMaterials(s, source, cs);
      WindowIsTheRange(plain, 0, 0);
      out, ended := DecryptAll(m, decryptSizes);
    }
  }
}
