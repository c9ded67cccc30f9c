/**
  The encrypting and decrypting readers of common/crypto/materials.go, proved against
  the sealed streams of module BlockStream for every schedule of buffer sizes.
 */
module Materials {
  import opened Bytes
  import opened Results
  import opened BlockFormat
  import opened BlockStream
  import opened BlockIO

  /** What the block handler is told about each block. */
  datatype Published = Published(blockSize: nat, headerSize: nat, nonce: bytes)

  function Announcement(owner: bytes, ch: Chunk): Published {
    Published(|ch.plain| + TAG_SIZE, StreamHeaderSize(owner), ch.nonce)
  }

  /** One announcement per piece, in order. */
  ghost predicate Announces(published: seq<Published>, owner: bytes, cs: seq<Chunk>) {
    |published| == |cs| && forall i :: 0 <= i < |cs| ==> published[i] == Announcement(owner, cs[i])
  }

  /** Copies `p` into `b` from position `at`. */
  method CopyInto(b: array<byte>, at: nat, p: bytes)
    requires at + |p| <= b.Length
    modifies b
    ensures b[..at] == old(b[..at]) && b[at..at + |p|] == p && b[at + |p|..] == old(b[at + |p|..])
  {
    for i := 0 to |p|
      invariant b[..at] == old(b[..at]) && b[at + |p|..] == old(b[at + |p|..])
      invariant b[at..at + i] == p[..i]
    {
      b[at + i] := p[i];
      assert b[at..at + i + 1] == b[at..at + i] + [p[i]];
    }
  }

  method RandomNonce() returns (nonce: bytes)
    ensures |nonce| == NONCE_SIZE
  {
    assert |Zeros(NONCE_SIZE)| == NONCE_SIZE;
    nonce :| |nonce| == NONCE_SIZE;
  }

  /** The block of one sealed piece, ready to be written. */
  method BlockFor(s: Scheme, ghost ch: Chunk, nonce: bytes, data: bytes) returns (block: EncryptedBlock)
    requires nonce == ch.nonce && data == s.cipher.seal(s.key, nonce, ch.plain) && |data| < OPTIONS_FLAG
    ensures fresh(block) && fresh(block.header) && block.header.options != null
    ensures block.View() == SealedBlock(s, ch) && block.payload == data
    ensures block.header.dataLength == |data|
  {
    var options := new OptionsRecord();
    options.userId := s.owner;
    var header := new EncryptedBlockHeader(nonce, options);
    block := new EncryptedBlock(header);
    var ok := block.SetPayload(data);
  }

  lemma SuffixOfEqualSuffix(s: bytes, t: bytes, from: nat, next: nat)
    requires from <= next <= |s| == |t| && s[from..] == t[from..]
    ensures s[next..] == t[next..]
  {
    assert s[next..] == s[from..][next - from..];
  }

  /** `AESGCMEncryptionMaterials` in encrypt mode. */
  class EncryptMaterials {
    const scheme: Scheme
    const blockSize: nat
    const stream: Source
    const bufferedProcessed: Buffer
    var eof: bool
    var totalProcessedServed: nat
    var published: seq<Published>

    ghost const plain: bytes
    ghost var chunks: seq<Chunk>
    ghost var served: bytes

    ghost predicate Valid()
      reads this, stream, bufferedProcessed
    {
      && scheme.cipher.Lawful() && 0 < blockSize && blockSize + TAG_SIZE < OPTIONS_FLAG
      && GoodNonces(chunks) && FullPieces(chunks, blockSize, eof)
      && Announces(published, scheme.owner, chunks)
      && PlainOf(chunks) + stream.rest == plain
      && (eof ==> stream.rest == [])
      && served + bufferedProcessed.data == EncodeChunks(scheme, chunks)
      && totalProcessedServed == |served|
    }

    /** Everything was read, sealed and served. */
    predicate Done()
      reads this, bufferedProcessed
    {
      eof && bufferedProcessed.data == []
    }

    constructor (scheme: Scheme, blockSize: nat, stream: Source)
      requires scheme.cipher.Lawful() && 0 < blockSize && blockSize + TAG_SIZE < OPTIONS_FLAG
      ensures Valid() && served == [] && plain == stream.rest
      ensures this.scheme == scheme && this.blockSize == blockSize && this.stream == stream
      ensures fresh(bufferedProcessed)
    {
      this.scheme, this.blockSize, this.stream := scheme, blockSize, stream;
      bufferedProcessed := new Buffer();
      eof, totalProcessedServed, published := false, 0, [];
      plain, chunks, served := stream.rest, [], [];
    }

    /** Seals one piece into the buffer and announces it. */
    method SealPiece(piece: bytes) returns (ghost ch: Chunk)
      requires scheme.cipher.Lawful() && |piece| + TAG_SIZE < OPTIONS_FLAG
      modifies this`published, this`chunks, bufferedProcessed
      ensures |ch.nonce| == NONCE_SIZE && ch.plain == piece && chunks == old(chunks) + [ch]
      ensures bufferedProcessed.data == old(bufferedProcessed.data) + EncodeBlock(SealedBlock(scheme, ch))
      ensures published == old(published) + [Announcement(scheme.owner, ch)]
      ensures var b, p := SealedBlock(scheme, ch), published[|old(published)|];
        p.blockSize == |b.payload| && p.headerSize + |b.payload| == |EncodeBlock(b)| && p.nonce == ch.nonce
    {
      hide EncodeBlock, EncodeHeader, StreamHeaderSize, SealedBlock;
      var nonce := RandomNonce();
      ch := Chunk(nonce, piece);
      var data := scheme.cipher.seal(scheme.key, nonce, piece);
      var block := BlockFor(scheme, ch, nonce, data);
      var _ := block.Write(bufferedProcessed);
      SealedBlockSize(scheme, ch);
      published := published + [Published(block.header.dataLength % OPTIONS_FLAG, block.headerSize, nonce)];
      chunks := chunks + [ch];
    }

    /** Reads, seals and buffers the next piece of the plaintext, if any. */
    method PrepareBlock()
      requires Valid()
      modifies this, stream, bufferedProcessed
      ensures Valid() && served == old(served)
      ensures |stream.rest| < |old(stream.rest)| || stream.rest == old(stream.rest)
      ensures old(eof) ==> eof && unchanged(bufferedProcessed)
      ensures |stream.rest| == |old(stream.rest)| ==> eof && unchanged(bufferedProcessed)
    {
      hide EncodeBlock, StreamHeaderSize, SealedBlock, EncodeChunks, PlainOf;
      var piece, ended := ReadMax(stream, blockSize);
      if ended {
        eof := true;
      }
      if |piece| > 0 {
        ghost var ch := SealPiece(piece);
        EncodeChunksAppend(scheme, old(chunks), ch);
        PlainOfAppend(old(chunks), ch);
        SameConcat(PlainOf(old(chunks)), piece, stream.rest);
        SameConcat(served, old(bufferedProcessed.data), EncodeBlock(SealedBlock(scheme, ch)));
      } else {
        assert [] + stream.rest == stream.rest;
      }
    }

    /** Serves the buffered bytes first, then seals further pieces until the buffer is full. */
    method EncryptRead(b: array<byte>) returns (totalRead: nat, end: bool)
      requires Valid()
      modifies this, stream, bufferedProcessed, b
      ensures Valid() && totalRead <= b.Length
      ensures served == old(served) + b[..totalRead] && b[totalRead..] == old(b[totalRead..])
      ensures if end then Done() else totalRead == b.Length
      ensures old(Done()) ==> Done() && totalRead == 0 && (b.Length > 0 ==> end)
      ensures |stream.rest| < |old(stream.rest)|
        || (stream.rest == old(stream.rest) && |bufferedProcessed.data| + totalRead == |old(bufferedProcessed.data)|)
    {
      hide EncodeChunks, PlainOf, FullPieces;
      totalRead, end := 0, false;
      while totalRead < b.Length
        invariant Valid() && totalRead <= b.Length
        invariant served == old(served) + b[..totalRead] && b[totalRead..] == old(b[totalRead..])
        invariant old(Done()) ==> Done() && totalRead == 0
        invariant |stream.rest| < |old(stream.rest)|
          || (stream.rest == old(stream.rest) && |bufferedProcessed.data| + totalRead == |old(bufferedProcessed.data)|)
        decreases b.Length - totalRead, |stream.rest|, !eof
      {
        if bufferedProcessed.data != [] {
          ghost var before := b[..];
          ghost var p;
          totalRead, p := ServeBuffered(b, totalRead, b.Length);
          SameConcat(old(served), before[..totalRead - |p|], p);
          SuffixOfEqualSuffix(before, old(b[..]), totalRead - |p|, totalRead);
          if totalRead == b.Length {
            return totalRead, false;
          }
        } else if eof {
          return totalRead, true;
        }
        PrepareBlock();
      }
    }

    /** Moves buffered bytes to `b[from..to]`. */
    method ServeBuffered(b: array<byte>, from: nat, to: nat) returns (next: nat, ghost p: bytes)
      requires Valid() && from <= to <= b.Length
      modifies this`served, this`totalProcessedServed, bufferedProcessed, b
      ensures Valid() && next == from + |p| && |p| == Min(to - from, |old(bufferedProcessed.data)|)
      ensures b[..next] == old(b[..from]) + p && b[next..] == old(b[next..])
      ensures served == old(served) + p
    {
      hide EncodeChunks, PlainOf, FullPieces;
      var taken := bufferedProcessed.Take(to - from);
      p := taken;
      SameConcat(served, p, bufferedProcessed.data);
      CopyInto(b, from, taken);
      next := from + |taken|;
      served := served + taken;
      totalProcessedServed := totalProcessedServed + |taken|;
      assert b[..next] == b[..from] + b[from..next];
    }
  }

  /** `AESGCMEncryptionMaterials` in decrypt mode. */
  class DecryptMaterials {
    const scheme: Scheme
    const stream: Source
    const bufferedProcessed: Buffer
    var eof: bool
    var totalProcessedServed: nat
    var plainRangeOffset: int
    var plainRangeLimit: int
    var plainDataStreamCursor: int
    var reachedRangeLimit: bool

    ghost const plain: bytes
    ghost var pending: seq<Chunk>
    ghost var decrypted: bytes
    ghost var served: bytes

    /** The stream is a sealed one, `decrypted` of its plaintext is decrypted and `pending` still to come. */
    ghost predicate Sound()
      reads this, stream, bufferedProcessed
    {
      && scheme.cipher.Lawful() && |scheme.owner| <= 255 && Sealable(pending)
      && stream.rest == EncodeChunks(scheme, pending)
      && decrypted + PlainOf(pending) == plain
      && (eof ==> pending == [])
      && plainDataStreamCursor == Skipped(|decrypted|, plainRangeOffset)
      && served + bufferedProcessed.data == decrypted[Skipped(|decrypted|, plainRangeOffset)..]
      && totalProcessedServed == |served|
      && WithinRange()
    }

    /** Serving stops exactly at a positive range length. */
    ghost predicate WithinRange()
      reads this, bufferedProcessed
    {
      var length := plainRangeLimit - plainRangeOffset;
      && (length > 0 ==> |served| <= length && (|served| == length ==> reachedRangeLimit))
      && (reachedRangeLimit ==> (length > 0 && |served| == length) || (eof && bufferedProcessed.data == []))
    }

    /** Serving `k` more bytes stays inside the range. */
    ghost predicate RoomFor(k: int)
      reads this
    {
      plainRangeLimit - plainRangeOffset > 0 ==> |served| + k <= plainRangeLimit - plainRangeOffset
    }

    constructor (scheme: Scheme, stream: Source, ghost chunks: seq<Chunk>)
      requires scheme.cipher.Lawful() && |scheme.owner| <= 255 && Sealable(chunks)
      requires stream.rest == EncodeChunks(scheme, chunks)
      ensures Sound() && served == [] && decrypted == [] && !reachedRangeLimit && plain == PlainOf(chunks)
      ensures plainRangeOffset == plainRangeLimit == 0
      ensures this.scheme == scheme && this.stream == stream && fresh(bufferedProcessed)
    {
      this.scheme, this.stream := scheme, stream;
      bufferedProcessed := new Buffer();
      eof, totalProcessedServed, plainRangeOffset, plainRangeLimit := false, 0, 0, 0;
      plainDataStreamCursor, reachedRangeLimit := 0, false;
      plain, pending, decrypted, served := PlainOf(chunks), chunks, [], [];
    }

    method SetPlainRange(offset: int, length: int)
      modifies this`plainRangeOffset, this`plainRangeLimit
      ensures plainRangeOffset == offset && plainRangeLimit == RangeLimit(offset, length)
      ensures old(Sound()) && decrypted == [] && served == [] && !reachedRangeLimit ==> Sound()
    {
      plainRangeOffset := offset;
      if length > 0 {
        plainRangeLimit := offset + length;
      } else {
        plainRangeLimit := -1;
      }
    }

    /** What is served so far is a prefix of the window, and all of it once the reader has finished. */
    lemma ServedSoFar()
      requires Sound()
      ensures served <= Window(plain, plainRangeOffset, plainRangeLimit)
      ensures reachedRangeLimit ==> served == Window(plain, plainRangeOffset, plainRangeLimit)
    {
      hide EncodeChunks, Window;
      ServedIsWindowPrefix(decrypted, PlainOf(pending), served, bufferedProcessed.data,
                           plainRangeOffset, plainRangeLimit);
    }

    /** Reads and opens the next block, and buffers what the range keeps of it. */
    method FeedBlock() returns (err: Option<Error>)
      requires !eof
      modifies this, stream, bufferedProcessed
      ensures served == old(served) && totalProcessedServed == old(totalProcessedServed)
      ensures plainRangeOffset == old(plainRangeOffset) && plainRangeLimit == old(plainRangeLimit)
      ensures reachedRangeLimit == old(reachedRangeLimit)
      ensures err.None? && !eof ==> |stream.rest| < |old(stream.rest)|
      ensures err.Some? ==> err.value != EndOfStream
      ensures old(Sound()) && !reachedRangeLimit ==> Sound() && err.None?
    {
      hide EncodeChunks, PlainOf, Skipped;
      ghost var sound, cs := Sound(), pending;
      var count, nonce, payload, e := ReadNext(stream, scheme, if sound then cs else []);
      if e.Some? {
        eof := e.value == EndOfStream;
        if !eof {
          return e;
        }
      }
      if count > 0 {
        var data := scheme.cipher.open(scheme.key, nonce, payload);
        if data.None? {
          return Some(OpenFailed);
        }
        ghost var seen := decrypted;
        if sound {
          UnfoldPlain(cs);
          SameConcat(seen, data.value, PlainOf(cs[1..]));
          decrypted, pending := seen + data.value, cs[1..];
        }
        KeepInRange(data.value, seen);
      }
      return None;
    }

    /** Skips what lies before the range and buffers the rest. */
    method KeepInRange(data: bytes, ghost seen: bytes)
      modifies this`plainDataStreamCursor, bufferedProcessed
      ensures plainDataStreamCursor == old(plainDataStreamCursor)
        || old(plainDataStreamCursor) < plainDataStreamCursor <= plainRangeOffset
      ensures old(plainDataStreamCursor) == Skipped(|seen|, plainRangeOffset) ==>
        && plainDataStreamCursor == Skipped(|seen + data|, plainRangeOffset)
        && (served + old(bufferedProcessed.data) == seen[Skipped(|seen|, plainRangeOffset)..] ==>
            served + bufferedProcessed.data == (seen + data)[Skipped(|seen + data|, plainRangeOffset)..])
    {
      var kept := data;
      if plainDataStreamCursor < plainRangeOffset {
        var toConsume := plainRangeOffset - plainDataStreamCursor;
        if toConsume > |kept| {
          plainDataStreamCursor := plainDataStreamCursor + |kept|;
          kept := [];
        } else {
          plainDataStreamCursor := plainDataStreamCursor + toConsume;
          kept := kept[toConsume..];
        }
      }
      KeptExtendsWindow(seen, data, plainRangeOffset);
      SameConcat(served, bufferedProcessed.data, kept);
      var _ := bufferedProcessed.Write(kept);
    }

    /** Moves buffered bytes to `b[from..to]` and notices the end of the range. */
    method ServeBuffered(b: array<byte>, from: nat, to: nat) returns (next: nat, ghost p: bytes)
      requires from <= to <= b.Length && !reachedRangeLimit
      modifies this`served, this`totalProcessedServed, this`reachedRangeLimit, bufferedProcessed, b
      ensures next == from + |p| && |p| == Min(to - from, |old(bufferedProcessed.data)|)
      ensures p + bufferedProcessed.data == old(bufferedProcessed.data)
      ensures b[..next] == old(b[..from]) + p && b[next..] == old(b[next..])
      ensures served == old(served) + p
      ensures reachedRangeLimit ==> p != []
      ensures old(Sound() && RoomFor(to - from)) ==> Sound()
    {
      hide EncodeChunks, PlainOf;
      var taken := bufferedProcessed.Take(to - from);
      p := taken;
      SameConcat(served, p, bufferedProcessed.data);
      CopyInto(b, from, taken);
      next := from + |taken|;
      assert b[..next] == b[..from] + b[from..next];
      if |taken| > 0 {
        served := served + taken;
        totalProcessedServed := totalProcessedServed + |taken|;
        reachedRangeLimit := plainRangeLimit == plainRangeOffset + totalProcessedServed;
      } else {
        assert served + p == served && p + bufferedProcessed.data == bufferedProcessed.data;
      }
    }

    /** A range limit that has not been reached leaves room for what a read may serve. */
    lemma RoomAtStart(size: nat, left: int)
      requires Sound() && !reachedRangeLimit
      requires var asked := plainRangeLimit - plainRangeOffset - totalProcessedServed;
        left == if asked <= 0 || asked > size then size else asked
      ensures RoomFor(left)
    {
      hide EncodeChunks, PlainOf, Skipped;
    }

    /** Everything was read and served: the next call answers the end of the stream. */
    method Finish()
      requires eof && bufferedProcessed.data == []
      modifies this`reachedRangeLimit
      ensures reachedRangeLimit && (old(Sound()) ==> Sound())
    {
      hide EncodeChunks, PlainOf, Skipped;
      reachedRangeLimit := true;
    }

    /** Fills the buffer, or as much of it as the range still asks for. */
    method DecryptRead(b: array<byte>) returns (n: nat, err: Option<Error>)
      modifies this, stream, bufferedProcessed, b
      ensures n <= b.Length
      ensures plainRangeOffset == old(plainRangeOffset) && plainRangeLimit == old(plainRangeLimit)
      ensures old(reachedRangeLimit) ==>
        n == 0 && err == Some(EndOfStream) && unchanged(this) && unchanged(bufferedProcessed)
      ensures !old(reachedRangeLimit) ==> err != Some(EndOfStream)
      ensures old(Sound()) ==> Sound() && (err.None? || old(reachedRangeLimit))
      ensures old(Sound()) ==> served == old(served) + b[..n] && b[n..] == old(b[n..])
      ensures old(Sound()) && b.Length > 0 && err.None? ==> n > 0 || reachedRangeLimit
    {
      hide EncodeChunks, PlainOf, Window, Skipped, Sound, WithinRange;
      if reachedRangeLimit {
        assert b[..0] == [] && served + [] == served;
        return 0, Some(EndOfStream);
      }
      n := 0;
      var left := plainRangeLimit - plainRangeOffset - totalProcessedServed;
      if left <= 0 || left > b.Length {
        left := b.Length;
      }
      ghost var sound := Sound();
      if sound {
        RoomAtStart(b.Length, left);
      }
      while true
        invariant n <= left <= b.Length && !reachedRangeLimit
        invariant plainRangeOffset == old(plainRangeOffset) && plainRangeLimit == old(plainRangeLimit)
        invariant sound ==> Sound()
        invariant served == old(served) + b[..n] && b[n..] == old(b[n..])
        invariant sound ==> RoomFor(left - n)
        decreases !eof, |stream.rest|
      {
        ghost var before := b[..];
        ghost var p;
        n, p := ServeBuffered(b, n, left);
        SameConcat(old(served), before[..n - |p|], p);
        SuffixOfEqualSuffix(before, old(b[..]), n - |p|, n);
        if n == left || reachedRangeLimit {
          return n, None;
        }
        if eof {
          Finish();
          return n, None;
        }
        var e := FeedBlock();
        if e.Some? {
          return 0, e;
        }
      }
    }
  }

  /** Pieces small enough to be sealed into one block each. */
  ghost predicate Sealable(cs: seq<Chunk>) {
    GoodNonces(cs) && forall i :: 0 <= i < |cs| ==> |cs[i].plain| + TAG_SIZE < OPTIONS_FLAG
  }

  lemma SealedBlockIsEncodable(s: Scheme, ch: Chunk)
    requires s.cipher.Lawful() && |s.owner| <= 255 && Sealable([ch])
    ensures var b := SealedBlock(s, ch);
      && Encodable(b) && Normalise(b) == b && b.nonce == ch.nonce
      && HeaderOf(b).dataLength == |b.payload|
      && s.cipher.open(s.key, b.nonce, b.payload) == Some(ch.plain)
  {
    assert [ch][0] == ch;
  }

  lemma UnfoldPlain(cs: seq<Chunk>)
    ensures cs != [] ==> PlainOf(cs) == cs[0].plain + PlainOf(cs[1..])
  {
  }

  lemma NextBlockReadsBack(s: Scheme, cs: seq<Chunk>)
    requires s.cipher.Lawful() && |s.owner| <= 255 && Sealable(cs) && cs != []
    ensures Sealable(cs[1..])
    ensures var b, tail := SealedBlock(s, cs[0]), EncodeChunks(s, cs[1..]);
      var n := |EncodeHeader(HeaderOf(b))|;
      && DecodeHeader(EncodeChunks(s, cs)) == Parsed(HeaderOf(b), n)
      && EncodeChunks(s, cs)[n..] == b.payload + tail
      && b.nonce == cs[0].nonce && HeaderOf(b).dataLength == |b.payload|
      && s.cipher.open(s.key, b.nonce, b.payload) == Some(cs[0].plain)
      && (tail == [] ==> cs[1..] == [])
  {
    hide EncodeHeader, EncodeBlock, DecodeHeader, SealedBlock, Encodable, Normalise;
    assert Sealable([cs[0]]) && Sealable(cs[1..]);
    SealedBlockIsEncodable(s, cs[0]);
    BlockParts(SealedBlock(s, cs[0]), EncodeChunks(s, cs[1..]));
    if cs[1..] != [] {
      EncodingIsNotEmpty(s, cs[1..]);
    }
  }

  lemma NothingToRead()
    ensures DecodeHeader([]) == Failed(EndOfStream)
  {
  }

  /** Reads one block; on a sealed stream it is the next piece, or the end when none is left. */
  method ReadNext(stream: Source, s: Scheme, ghost cs: seq<Chunk>)
    returns (count: nat, nonce: bytes, payload: bytes, err: Option<Error>)
    modifies stream
    ensures err.None? ==> |stream.rest| < |old(stream.rest)|
    ensures s.cipher.Lawful() && |s.owner| <= 255 && Sealable(cs) && old(stream.rest) == EncodeChunks(s, cs) ==>
      if cs == [] then count == 0 && err == Some(EndOfStream) && stream.rest == EncodeChunks(s, cs)
      else
        && count > 0 && (err.None? || (err == Some(EndOfStream) && cs[1..] == []))
        && s.cipher.open(s.key, nonce, payload) == Some(cs[0].plain)
        && Sealable(cs[1..]) && stream.rest == EncodeChunks(s, cs[1..])
  {
    hide EncodeBlock, EncodeHeader, DecodeHeader, SealedBlock, Fill, Min, Sealable;
    ghost var sealed := s.cipher.Lawful() && |s.owner| <= 255 && Sealable(cs) && stream.rest == EncodeChunks(s, cs);
    if sealed && cs != [] {
      NextBlockReadsBack(s, cs);
      FieldThenRest(SealedBlock(s, cs[0]).payload, EncodeChunks(s, cs[1..]));
    } else if sealed {
      NothingToRead();
    }
    var header := new EncryptedBlockHeader([], null);
    var block := new EncryptedBlock(header);
    count, err := block.Read(stream);
    nonce, payload := block.header.nonce, block.payload;
  }
}
