/**
  The readers, writers and block structures of common/crypto/materials.go. Each Read
  and Write method is proved against the encoders and decoders of BlockFormat.
 */
module BlockIO {
  import opened Bytes
  import opened Results
  import Format = BlockFormat
  import opened BlockFormat

  /** An in-memory byte buffer (`bytes.Buffer`). */
  class Buffer {
    var data: bytes

    constructor ()
      ensures data == []
    {
      data := [];
    }

    method Write(p: bytes) returns (n: nat)
      modifies this
      ensures data == old(data) + p && n == |p|
    {
      data := data + p;
      n := |p|;
    }

    /** Takes up to `k` bytes from the front. */
    method Take(k: nat) returns (p: bytes)
      modifies this
      ensures p + data == old(data) && |p| == Min(k, old(|data|))
    {
      var n := Min(k, |data|);
      p := data[..n];
      data := data[n..];
    }
  }

  /** The stream a block is read from; `rest` is what is still unread. */
  class Source {
    var rest: bytes

    constructor (content: bytes)
      ensures rest == content
    {
      rest := content;
    }

    /** A read that fills its zeroed buffer as far as the stream goes: header fields rely on it. */
    method ReadField(k: nat) returns (buf: bytes, n: nat, eof: bool)
      modifies this
      ensures eof <==> k > 0 && old(rest) == []
      ensures n == Min(k, |old(rest)|) && buf == Fill(old(rest), k)
      ensures rest == old(rest)[n..]
    {
      n := Min(k, |rest|);
      buf := Fill(rest, k);
      eof := k > 0 && rest == [];
      rest := rest[n..];
    }

    /** A read that may be short, and may announce the end together with the last bytes. */
    method ReadSome(k: nat) returns (chunk: bytes, eof: bool)
      requires k > 0
      modifies this
      ensures chunk + rest == old(rest) && |chunk| <= k
      ensures old(rest) != [] ==> chunk != []
      ensures old(rest) == [] ==> eof
      ensures eof ==> rest == []
    {
      if rest == [] {
        chunk, eof := [], true;
      } else {
        var n: nat :| 0 < n <= k && n <= |rest|;
        var early: bool := *;
        chunk := rest[..n];
        rest := rest[n..];
        eof := early && rest == [];
      }
    }
  }

  /** Reads until `max` bytes are there or the stream ends, whatever the short reads. */
  method ReadMax(reader: Source, max: nat) returns (data: bytes, eof: bool)
    modifies reader
    ensures data + reader.rest == old(reader.rest)
    ensures |data| == Min(max, |old(reader.rest)|)
    ensures |data| < max ==> eof
    ensures eof ==> reader.rest == []
  {
    data, eof := [], false;
    while |data| < max
      invariant |data| <= max
      invariant data + reader.rest == old(reader.rest)
      invariant !eof
      decreases max - |data|
    {
      var chunk, ended := reader.ReadSome(max - |data|);
      data := data + chunk;
      if ended {
        eof := true;
        return;
      }
    }
  }

  class EncryptedBlockHeaderOption {
    var id: byte
    var value: Option<bytes>

    constructor (id: byte, value: Option<bytes>)
      ensures View() == HeaderOption(id, value)
    {
      this.id, this.value := id, value;
    }

    function View(): HeaderOption
      reads this
    {
      HeaderOption(id, value)
    }

    /** Sets or clears the last-option bit; the seven other bits stay. */
    method SetIsTheLast(last: bool)
      modifies this
      ensures IsTheLast(id) == last && id % 0x80 == old(id) % 0x80 && value == old(value)
    {
      if last {
        id := SetLast(id);
      } else {
        id := id % 0x80;
      }
    }

    /** An option without a value keeps the mark of that in its id. */
    method Write(writer: Buffer) returns (written: nat)
      modifies this, writer
      ensures writer.data == old(writer.data) + EncodeOption(old(View()))
      ensures written == |EncodeOption(old(View()))|
      ensures value == old(value) && id == if value.None? then SetNoValue(old(id)) else old(id)
    {
      written := 0;
      if value.None? {
        id := SetNoValue(id);
      }
      var n := writer.Write([id]);
      written := written + n;
      if value.Some? {
        n := writer.Write([|value.value| % 256]);
        written := written + n;
        n := writer.Write(value.value);
        written := written + n;
      }
    }

    method Read(reader: Source) returns (n: nat, err: Option<Error>)
      requires value.None?
      modifies this, reader
      ensures match DecodeOption(old(reader.rest))
        case Failed(e) => err == Some(e)
        case Parsed(op, size) => err == None && n == size && View() == op && reader.rest == old(reader.rest)[size..]
    {
      n := 0;
      var buf, k, eof := reader.ReadField(1);
      if eof {
        return 0, Some(EndOfStream);
      }
      id := buf[0];
      if HasNoValue(id) {
        return 1, None;
      }
      buf, k, eof := reader.ReadField(1);
      if eof {
        return 0, Some(EndOfStream);
      }
      var length := buf[0];
      assert reader.rest == old(reader.rest)[2..];
      buf, k, eof := reader.ReadField(length);
      value := Some(buf);
      if eof {
        return 0, Some(EndOfStream);
      }
      if k != length {
        return 0, Some(NeedMoreData);
      }
      assert buf == old(reader.rest)[2..2 + length];
      return k + 2, None;
    }
  }

  class OptionsRecord {
    var position: int16
    var partId: int16
    var key: Option<bytes>
    var userId: bytes

    constructor ()
      ensures View() == ZERO_OPTIONS
    {
      position, partId, key, userId := 0, 0, None, [];
    }

    function View(): Options
      reads this
    {
      Options(position, partId, key, userId)
    }

    method GetHeaderOptions() returns (list: seq<EncryptedBlockHeaderOption>)
      ensures fresh(list) && Distinct(list)
      ensures Shows(list, OptionList(View()))
    {
      hide BigEndian, NumberOption;
      list := [];
      ghost var spec := KeyOption(key);
      if key.Some? {
        list := Append(list, [], 1, key);
      }
      list := AppendNumber(list, spec, 2, position);
      list := AppendNumber(list, spec + NumberOption(2, position), 3, partId);
      if userId != [] {
        list := Append(list, spec + NumberOption(2, position) + NumberOption(3, partId), 4, Some(userId));
      }
    }

    method Write(writer: Buffer) returns (written: nat)
      modifies writer
      ensures writer.data == old(writer.data) + EncodeOptions(View())
      ensures written == |EncodeOptions(View())|
    {
      hide OptionList, EncodeOptionList;
      written := 0;
      var list := GetHeaderOptions();
      if |list| > 0 {
        list[|list| - 1].SetIsTheLast(true);
        written := WriteAll(list, MarkLast(OptionList(View())), writer);
      } else {
        EncodeNothing(View());
      }
    }

    method Apply(op: HeaderOption)
      requires !Panics(op)
      modifies this
      ensures View() == ApplyOption(old(View()), op)
    {
      var id := op.id % 0x40;
      if id == 3 {
        if op.value.Some? { partId := Int16Of(op.value.value); }
      } else if id == 4 {
        userId := if op.value.Some? then op.value.value else [];
      } else if id == 2 {
        if op.value.Some? { position := Int16Of(op.value.value); }
      } else if id == 1 {
        key := op.value;
      }
    }

    method Read(reader: Source) returns (totalRead: nat, err: Option<Error>)
      modifies this, reader
      ensures match DecodeOptions(old(reader.rest), old(View()))
        case Failed(e) => err == Some(e)
        case Parsed(o, size) =>
          err == None && totalRead == size && View() == o && reader.rest == old(reader.rest)[size..]
    {
      hide DecodeOption, ApplyOption, Panics, IsTheLast;
      totalRead := 0;
      ghost var whole := DecodeOptions(reader.rest, View());
      var last := false;
      while !last
        invariant totalRead <= |old(reader.rest)| && reader.rest == old(reader.rest)[totalRead..]
        invariant last ==> whole == Parsed(View(), totalRead)
        invariant !last ==> whole == Shift(DecodeOptions(reader.rest, View()), totalRead)
        decreases !last, |reader.rest|
      {
        var op := new EncryptedBlockHeaderOption(0, None);
        var n, e := op.Read(reader);
        if e.Some? {
          return 0, e;
        }
        totalRead := totalRead + n;
        if Panics(op.View()) {
          return 0, Some(IndexPanic);
        }
        Apply(op.View());
        last := IsTheLast(op.id);
      }
      return totalRead, None;
    }
  }

  /** A parse that started `n` bytes earlier. */
  ghost function Shift(r: Parsed<Options>, n: nat): Parsed<Options> {
    match r
    case Failed(e) => Failed(e)
    case Parsed(o, m) => Parsed(o, n + m)
  }

  ghost predicate Distinct<T>(s: seq<T>) {
    forall i, j :: 0 <= i < j < |s| ==> s[i] != s[j]
  }

  /** The records hold exactly the given options, in order. */
  ghost predicate Shows(list: seq<EncryptedBlockHeaderOption>, spec: seq<HeaderOption>)
    reads list
  {
    |list| == |spec| && forall i :: 0 <= i < |list| ==> list[i].View() == spec[i]
  }

  method Append(list: seq<EncryptedBlockHeaderOption>, ghost spec: seq<HeaderOption>, id: byte, value: Option<bytes>)
    returns (r: seq<EncryptedBlockHeaderOption>)
    requires Shows(list, spec) && Distinct(list)
    ensures forall i :: 0 <= i < |r| ==> r[i] in list || fresh(r[i])
    ensures Shows(r, spec + [HeaderOption(id, value)]) && Distinct(r)
  {
    var op := new EncryptedBlockHeaderOption(id, value);
    r := list + [op];
  }

  /** A 16-bit option is skipped when negative and carries no value when zero. */
  method AppendNumber(list: seq<EncryptedBlockHeaderOption>, ghost spec: seq<HeaderOption>, id: byte, v: int16)
    returns (r: seq<EncryptedBlockHeaderOption>)
    requires Shows(list, spec) && Distinct(list)
    ensures forall i :: 0 <= i < |r| ==> r[i] in list || fresh(r[i])
    ensures Shows(r, spec + NumberOption(id, v)) && Distinct(r)
  {
    r := list;
    if v > -1 {
      r := Append(list, spec, id, if v > 0 then Some(BigEndian(v, 2)) else None);
    }
  }

  lemma EncodeEmptyList()
    ensures EncodeOptionList([]) == []
  {
  }

  lemma EncodeOptionListStep(list: seq<HeaderOption>)
    requires list != []
    ensures EncodeOptionList(list) == EncodeOption(list[0]) + EncodeOptionList(list[1..])
  {
  }

  lemma SameConcat(a: bytes, b: bytes, c: bytes)
    ensures a + (b + c) == (a + b) + c
  {
  }

  lemma EncodeNothing(o: Options)
    requires OptionList(o) == []
    ensures EncodeOptions(o) == []
  {
  }

  method WriteAll(list: seq<EncryptedBlockHeaderOption>, ghost spec: seq<HeaderOption>, writer: Buffer)
    returns (written: nat)
    requires Shows(list, spec) && Distinct(list)
    modifies list, writer
    ensures writer.data == old(writer.data) + EncodeOptionList(spec)
    ensures written == |EncodeOptionList(spec)|
  {
    hide EncodeOption, EncodeOptionList;
    written := 0;
    for i := 0 to |list|
      invariant forall j :: i <= j < |list| ==> list[j].View() == spec[j]
      invariant writer.data + EncodeOptionList(spec[i..]) == old(writer.data) + EncodeOptionList(spec)
      invariant written + |EncodeOptionList(spec[i..])| == |EncodeOptionList(spec)|
    {
      ghost var before := writer.data;
      EncodeOptionListStep(spec[i..]);
      assert spec[i..][0] == spec[i] && spec[i..][1..] == spec[i + 1..];
      var n := list[i].Write(writer);
      written := written + n;
      SameConcat(before, EncodeOption(spec[i]), EncodeOptionList(spec[i + 1..]));
    }
    EncodeEmptyList();
    assert spec[|list|..] == [];
  }

  class EncryptedBlockHeader {
    var options: OptionsRecord?
    var nonce: bytes
    var dataLength: nat

    constructor (nonce: bytes, options: OptionsRecord?)
      ensures this.nonce == nonce && this.options == options && dataLength == 0
    {
      this.nonce, this.options, dataLength := nonce, options, 0;
    }

    function View(): Header
      reads this, options
    {
      Header(if options == null then None else Some(options.View()), nonce, dataLength % OPTIONS_FLAG)
    }

    method Write(writer: Buffer) returns (written: nat)
      requires dataLength < 2 * OPTIONS_FLAG
      requires options == null ==> dataLength < OPTIONS_FLAG
      modifies this, writer
      ensures View() == old(View()) && options == old(options)
      ensures dataLength == LengthField(View())
      ensures writer.data == old(writer.data) + EncodeHeader(View())
      ensures written == |EncodeHeader(View())|
    {
      ghost var h := View();
      var n := writer.Write(nonce);
      written := n;
      if options != null && dataLength < OPTIONS_FLAG {
        dataLength := dataLength + OPTIONS_FLAG;
      }
      assert dataLength == LengthField(h);
      ghost var fixed := h.nonce + BigEndian(LengthField(h), 4);
      n := writer.Write(BigEndian(dataLength, 4));
      written := written + n;
      assert writer.data == old(writer.data) + fixed;
      if options != null {
        n := options.Write(writer);
        written := written + n;
        assert h.options == Some(options.View());
        SameConcat(old(writer.data), fixed, EncodeOptions(h.options.value));
      } else {
        assert fixed + [] == fixed;
      }
      assert View() == h;
    }

    method Read(reader: Source) returns (totalRead: nat, err: Option<Error>)
      requires options == null
      modifies this, reader
      ensures options != null ==> fresh(options)
      ensures old(reader.rest) == [] ==> reader.rest == []
      ensures match DecodeHeader(old(reader.rest))
        case Failed(e) => err == Some(e) && totalRead == 0
        case Parsed(h, size) =>
          err == None && totalRead == size && View() == h && dataLength == h.dataLength
          && reader.rest == old(reader.rest)[size..]
    {
      hide DecodeOptions, Fill, FromBigEndian;
      var buf, n, eof := reader.ReadField(NONCE_SIZE);
      nonce := buf;
      if eof {
        return 0, Some(EndOfStream);
      }
      totalRead := n;
      buf, n, eof := reader.ReadField(4);
      if eof {
        return 0, Some(EndOfStream);
      }
      totalRead := totalRead + n;
      dataLength := FromBigEndian(buf);
      if dataLength / OPTIONS_FLAG % 2 == 1 {
        options := new OptionsRecord();
        var m, e := options.Read(reader);
        if e.Some? {
          return 0, e;
        }
        totalRead := totalRead + m;
      }
      dataLength := dataLength % OPTIONS_FLAG;
      return totalRead, None;
    }
  }

  /** A length field with new low 31 bits and the old top bit. */
  function WithLength(field: nat, length: nat): nat {
    length % OPTIONS_FLAG + field / OPTIONS_FLAG % 2 * OPTIONS_FLAG
  }

  class EncryptedBlock {
    var header: EncryptedBlockHeader
    var headerSize: nat
    var payload: bytes

    /** A block around a given header, or around the zero header when none is given. */
    constructor (header: EncryptedBlockHeader)
      ensures this.header == header && payload == [] && headerSize == 0
    {
      this.header, headerSize, payload := header, 0, [];
    }

    function View(): Format.Block
      reads this, header, header.options
    {
      Format.Block(header.View().options, header.nonce, payload)
    }

    method SetPayload(p: bytes) returns (ok: bool)
      modifies this, header
      ensures ok == AcceptsPayload(p) && header == old(header) && headerSize == old(headerSize)
      ensures header.options == old(header.options) && header.nonce == old(header.nonce)
      ensures ok ==> payload == p
      ensures ok ==> header.dataLength == WithLength(old(header.dataLength), |p|)
      ensures !ok ==> unchanged(this) && unchanged(header)
    {
      if |p| % 0x1_0000_0000 > 0x7FFF_FFFF {
        return false;
      }
      payload := p;
      header.dataLength := WithLength(header.dataLength, |p|);
      ok := true;
    }

    method Write(writer: Buffer) returns (written: nat)
      requires header.dataLength % OPTIONS_FLAG == |payload| % OPTIONS_FLAG && header.dataLength < 2 * OPTIONS_FLAG
      requires header.options == null ==> header.dataLength < OPTIONS_FLAG
      modifies this, header, writer
      ensures View() == old(View()) && header == old(header)
      ensures header.dataLength % OPTIONS_FLAG == |payload| % OPTIONS_FLAG
      ensures writer.data == old(writer.data) + EncodeBlock(View())
      ensures written == |EncodeBlock(View())|
      ensures headerSize == |EncodeHeader(HeaderOf(View()))|
    {
      ghost var b := View();
      var n := header.Write(writer);
      assert EncodeHeader(header.View()) == EncodeHeader(HeaderOf(View()));
      written := n;
      headerSize := written;
      n := writer.Write(payload);
      written := written + n;
      SameConcat(old(writer.data), EncodeHeader(HeaderOf(b)), payload);
      assert View() == b;
    }

    /**
      The count is 0 when the header fails; when only the payload meets the end of the
      stream, it is the size of the header. An end met exactly after the last payload
      byte may be reported together with a complete payload.
     */
    method Read(reader: Source) returns (count: nat, err: Option<Error>)
      modifies this, reader
      ensures fresh(header) && (header.options != null ==> fresh(header.options))
      ensures err.None? ==> |reader.rest| < |old(reader.rest)|
      ensures old(reader.rest) == [] ==> reader.rest == []
      ensures match DecodeHeader(old(reader.rest))
        case Failed(e) => err == Some(e) && count == 0
        case Parsed(h, size) =>
          var body := old(reader.rest)[size..];
          && header.View() == h && header.dataLength == h.dataLength
          && payload == Fill(body, h.dataLength) && reader.rest == body[Min(h.dataLength, |body|)..]
          && err == (if err.None? then None else Some(EndOfStream))
          && (err.None? ==> count == size + h.dataLength)
          && (err.Some? ==> count == size && reader.rest == [])
          && (|body| < h.dataLength ==> err.Some?)
    {
      header := new EncryptedBlockHeader([], null);
      var n, e := header.Read(reader);
      if e.Some? {
        return n, e;
      }
      count := n;
      label Body:
      var data, eof := ReadMax(reader, header.dataLength);
      assert data == old@Body(reader.rest)[..|data|];
      payload := data + Zeros(header.dataLength - |data|);
      if eof {
        return count, Some(EndOfStream);
      }
      count := count + |data|;
      return count, None;
    }
  }

  /** The record of an options value; none for a block without options. */
  method RecordOf(options: Option<Options>) returns (r: OptionsRecord?)
    ensures options.None? <==> r == null
    ensures r != null ==> fresh(r) && r.View() == options.value
  {
    r := null;
    if options.Some? {
      var o := options.value;
      r := new OptionsRecord();
      r.position, r.partId, r.key, r.userId := o.position, o.partId, o.key, o.userId;
    }
  }

  /** Reading a block whose encoding is at the front of the stream. */
  method ReadEncoded(block: EncryptedBlock, reader: Source, ghost b: Format.Block, ghost tail: bytes)
    returns (count: nat, err: Option<Error>)
    requires Encodable(b) && reader.rest == EncodeBlock(b) + tail
    modifies block, reader
    ensures fresh(block.header) && (block.header.options != null ==> fresh(block.header.options))
    ensures block.View() == Normalise(b) && reader.rest == tail
    ensures err.None? ==> count == |EncodeBlock(b)|
    ensures err.Some? ==> err.value == EndOfStream && tail == [] && 0 < count
  {
    hide EncodeBlock, EncodeHeader, DecodeHeader, Fill;
    BlockParts(b, tail);
    FieldThenRest(b.payload, tail);
    ghost var body := reader.rest[|EncodeHeader(HeaderOf(b))|..];
    assert body == b.payload + tail;
    count, err := block.Read(reader);
    assert block.header.View() == HeaderOf(Normalise(b));
    assert block.payload == b.payload;
  }

  /** Main result: writing an encodable block and reading it back, whatever follows it. */
  method WriteThenRead(b: Format.Block, tail: bytes) returns (r: Format.Block, written: nat, count: nat, left: bytes)
    requires Encodable(b)
    ensures r == Normalise(b) && left == tail
    ensures written == |EncodeBlock(b)|
    ensures tail != [] ==> count == written
  {
    hide EncodeBlock, EncodeHeader, NormaliseOptions, EncodableOptions;
    var options := RecordOf(b.options);
    var header := new EncryptedBlockHeader(b.nonce, options);
    var block := new EncryptedBlock(header);
    var ok := block.SetPayload(b.payload);
    var buffer := new Buffer();
    assert block.View() == b;
    written := block.Write(buffer);
    var source := new Source(buffer.data + tail);
    assert source.rest == EncodeBlock(b) + tail;
    var e;
    count, e := ReadEncoded(block, source, b, tail);
    r, left := block.View(), source.rest;
  }
}
