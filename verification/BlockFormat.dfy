/**
  The byte layout of an encrypted block: a nonce, a four-byte length whose top bit
  announces options, the options, then the payload. Encoders and decoders are
  specification functions; module BlockIO holds the Read and Write methods.
 */
module BlockFormat {
  import opened Bytes
  import opened Results

  const NONCE_SIZE: nat := 12
  const TAG_SIZE: nat := 16
  const OPTIONS_FLAG: nat := 0x8000_0000

  type int16 = x: int | -0x8000 <= x < 0x8000

  datatype HeaderOption = HeaderOption(id: byte, value: Option<bytes>)

  datatype Options = Options(position: int16, partId: int16, key: Option<bytes>, userId: bytes)

  datatype Header = Header(options: Option<Options>, nonce: bytes, dataLength: nat)

  datatype Block = Block(options: Option<Options>, nonce: bytes, payload: bytes)

  datatype Error = EndOfStream | NeedMoreData | IndexPanic | OpenFailed

  /** The outcome of a decoder: the value with the number of bytes it took, or an error. */
  datatype Parsed<+T> = Parsed(value: T, size: nat) | Failed(error: Error)

  const ZERO_OPTIONS := Options(0, 0, None, [])

  // ----- option ids: bit 7 marks the last option, bit 6 an option without a value

  predicate IsTheLast(id: byte) { id >= 0x80 }

  predicate HasNoValue(id: byte) { id / 0x40 % 2 == 1 }

  function SetLast(id: byte): byte { if IsTheLast(id) then id else id + 0x80 }

  function SetNoValue(id: byte): byte { if HasNoValue(id) then id else id + 0x40 }

  // ----- encoding

  function EncodeOption(op: HeaderOption): bytes {
    match op.value
    case None => [SetNoValue(op.id)]
    case Some(v) => [op.id, |v| % 256] + v
  }

  function EncodeOptionList(list: seq<HeaderOption>): bytes {
    if list == [] then [] else EncodeOption(list[0]) + EncodeOptionList(list[1..])
  }

  /** A 16-bit option: absent when negative, without value when zero. */
  function NumberOption(id: byte, v: int16): seq<HeaderOption> {
    if v < 0 then []
    else if v == 0 then [HeaderOption(id, None)]
    else [HeaderOption(id, Some(BigEndian(v, 2)))]
  }

  function KeyOption(key: Option<bytes>): seq<HeaderOption> {
    if key.None? then [] else [HeaderOption(1, key)]
  }

  function UserOption(userId: bytes): seq<HeaderOption> {
    if userId == [] then [] else [HeaderOption(4, Some(userId))]
  }

  function OptionList(o: Options): seq<HeaderOption> {
    KeyOption(o.key) + NumberOption(2, o.position) + NumberOption(3, o.partId) + UserOption(o.userId)
  }

  function MarkLast(list: seq<HeaderOption>): seq<HeaderOption> {
    if list == [] then []
    else
      var last := list[|list| - 1];
      list[..|list| - 1] + [last.(id := SetLast(last.id))]
  }

  function EncodeOptions(o: Options): bytes {
    EncodeOptionList(MarkLast(OptionList(o)))
  }

  /** The length field: the low 31 bits, with the flag when options follow. */
  function LengthField(h: Header): nat {
    h.dataLength % OPTIONS_FLAG + if h.options.Some? then OPTIONS_FLAG else 0
  }

  function EncodeHeader(h: Header): bytes {
    h.nonce + BigEndian(LengthField(h), 4)
    + if h.options.Some? then EncodeOptions(h.options.value) else []
  }

  /** `SetPayload` truncates the length to 32 bits and refuses those with the top bit set. */
  predicate AcceptsPayload(payload: bytes) {
    |payload| % 0x1_0000_0000 < OPTIONS_FLAG
  }

  function HeaderOf(b: Block): Header {
    Header(b.options, b.nonce, |b.payload| % OPTIONS_FLAG)
  }

  function EncodeBlock(b: Block): bytes {
    EncodeHeader(HeaderOf(b)) + b.payload
  }

  function EncodeBlocks(bs: seq<Block>): bytes {
    if bs == [] then [] else EncodeBlock(bs[0]) + EncodeBlocks(bs[1..])
  }

  // ----- decoding: what one Read call leaves in a zeroed buffer of `k` bytes

  function Min(a: nat, b: nat): nat { if a < b then a else b }

  function Zeros(k: nat): bytes { seq(k, _ => 0) }

  function Fill(s: bytes, k: nat): (r: bytes)
    ensures |r| == k
  {
    s[..Min(k, |s|)] + Zeros(k - Min(k, |s|))
  }

  function DecodeOption(s: bytes): (r: Parsed<HeaderOption>)
    ensures r.Parsed? ==> 0 < r.size <= |s|
  {
    if s == [] then Failed(EndOfStream)
    else if HasNoValue(s[0]) then Parsed(HeaderOption(s[0], None), 1)
    else if |s| == 1 then Failed(EndOfStream)
    else if 0 < s[1] && |s| == 2 then Failed(EndOfStream)
    else if |s| - 2 < s[1] then Failed(NeedMoreData)
    else Parsed(HeaderOption(s[0], Some(s[2..2 + s[1]])), s[1] as int + 2)
  }

  /** Reads two bytes as a signed 16-bit number. */
  function Int16Of(v: bytes): int16
    requires |v| >= 2
  {
    var u: nat := v[0] as int * 256 + v[1];
    if u < 0x8000 then u else u - 0x1_0000
  }

  /** A 16-bit option with a value shorter than two bytes makes the decoder panic. */
  predicate Panics(op: HeaderOption) {
    (op.id % 0x40 == 2 || op.id % 0x40 == 3) && op.value.Some? && |op.value.value| < 2
  }

  function ApplyOption(acc: Options, op: HeaderOption): Options
    requires !Panics(op)
  {
    var id := op.id % 0x40;
    if id == 3 then if op.value.Some? then acc.(partId := Int16Of(op.value.value)) else acc
    else if id == 4 then acc.(userId := if op.value.Some? then op.value.value else [])
    else if id == 2 then if op.value.Some? then acc.(position := Int16Of(op.value.value)) else acc
    else if id == 1 then acc.(key := op.value)
    else acc
  }

  function DecodeOptions(s: bytes, acc: Options): (r: Parsed<Options>)
    ensures r.Parsed? ==> 0 < r.size <= |s|
    decreases |s|
  {
    match DecodeOption(s)
    case Failed(e) => Failed(e)
    case Parsed(op, n) =>
      if Panics(op) then Failed(IndexPanic)
      else
        var acc' := ApplyOption(acc, op);
        if IsTheLast(op.id) then Parsed(acc', n)
        else
          match DecodeOptions(s[n..], acc')
          case Failed(e) => Failed(e)
          case Parsed(o, m) => Parsed(o, n + m)
  }

  function DecodeHeader(s: bytes): (r: Parsed<Header>)
    ensures r.Parsed? ==> 0 < r.size <= |s| && |r.value.nonce| == NONCE_SIZE
    ensures r.Parsed? ==> r.value.dataLength < OPTIONS_FLAG
  {
    if s == [] then Failed(EndOfStream)
    else
      var afterNonce := s[Min(NONCE_SIZE, |s|)..];
      if afterNonce == [] then Failed(EndOfStream)
      else
        var field := FromBigEndian(Fill(afterNonce, 4));
        var body := afterNonce[Min(4, |afterNonce|)..];
        var header := Header(None, Fill(s, NONCE_SIZE), field % OPTIONS_FLAG);
        var n := |s| - |body|;
        if field / OPTIONS_FLAG % 2 == 0 then Parsed(header, n)
        else
          match DecodeOptions(body, ZERO_OPTIONS)
          case Failed(e) => Failed(e)
          case Parsed(o, m) => Parsed(header.(options := Some(o)), n + m)
  }

  function DecodeBlock(s: bytes): (r: Parsed<Block>)
    ensures r.Parsed? ==> r.size <= |s|
  {
    match DecodeHeader(s)
    case Failed(e) => Failed(e)
    case Parsed(h, n) =>
      if |s| - n < h.dataLength then Failed(EndOfStream)
      else Parsed(Block(h.options, h.nonce, s[n..n + h.dataLength]), n + h.dataLength)
  }

  // ----- the bytes

  lemma {:induction false} EncodeListConcat(a: seq<HeaderOption>, b: seq<HeaderOption>)
    ensures EncodeOptionList(a + b) == EncodeOptionList(a) + EncodeOptionList(b)
    decreases |a|
  {
    hide EncodeOption;
    if a == [] {
      assert a + b == b;
    } else {
      EncodeListConcat(a[1..], b);
      assert (a + b)[1..] == a[1..] + b;
    }
  }

  lemma {:induction false} EncodeOne(op: HeaderOption)
    ensures EncodeOptionList([op]) == EncodeOption(op)
  {
    assert [op][1..] == [];
  }

  /** The same bytes with the last-option bit set in the first of them. */
  ghost function Flagged(part: bytes): bytes
    requires part != [] && part[0] < 0x80
  {
    part[0 := part[0] + 0x80]
  }

  /** The bytes of a 16-bit option with this id. */
  ghost function NumberBytes(id: byte, v: int16): (r: bytes)
    requires id < 0x40
    ensures r != [] ==> r[0] < 0x80
  {
    if v < 0 then [] else if v == 0 then [id + 0x40] else [id, 2, v / 256, v % 256]
  }

  ghost function ValueBytes(id: byte, v: bytes): (r: bytes)
    requires id < 0x40
    ensures r != [] && r[0] < 0x80
  {
    [id, |v| % 256] + v
  }

  lemma {:induction false} NumberOptionBytes(id: byte, v: int16)
    requires id < 0x40
    ensures EncodeOptionList(NumberOption(id, v)) == NumberBytes(id, v)
    ensures NumberBytes(id, v) == [] <==> NumberOption(id, v) == []
    ensures NumberOption(id, v) != [] ==>
      EncodeOptionList(MarkLast(NumberOption(id, v))) == Flagged(NumberBytes(id, v))
  {
    if v >= 0 {
      EncodeOne(NumberOption(id, v)[0]);
      EncodeOne(NumberOption(id, v)[0].(id := SetLast(id)));
      assert MarkLast(NumberOption(id, v)) == [NumberOption(id, v)[0].(id := SetLast(id))];
      TwoBytes(v);
    }
  }

  lemma TwoBytes(v: nat)
    requires v < 0x1_0000
    ensures BigEndian(v, 2) == [v / 256, v % 256]
  {
    assert BigEndian(v, 2) == BigEndian(v / 256, 1) + [v % 256];
    assert BigEndian(v / 256, 1) == BigEndian(v / 256 / 256, 0) + [v / 256 % 256];
  }

  lemma {:induction false} ValueOptionBytes(id: byte, v: bytes)
    requires id < 0x40
    ensures EncodeOptionList([HeaderOption(id, Some(v))]) == ValueBytes(id, v)
    ensures EncodeOptionList(MarkLast([HeaderOption(id, Some(v))])) == Flagged(ValueBytes(id, v))
  {
    EncodeOne(HeaderOption(id, Some(v)));
    EncodeOne(HeaderOption(id, Some(v)).(id := SetLast(id)));
    assert MarkLast([HeaderOption(id, Some(v))]) == [HeaderOption(id, Some(v)).(id := SetLast(id))];
  }

  lemma MarkLastOfConcat(a: seq<HeaderOption>, b: seq<HeaderOption>)
    requires b != []
    ensures MarkLast(a + b) == a + MarkLast(b)
  {
  }

  /**
    The bytes of the options: key, position, part and user, in this order, each with its id,
    its length and its value, and the last-option bit in the last one written.
   */
  lemma {:induction false} OptionBytes(o: Options)
    ensures var k, u := if o.key.None? then [] else ValueBytes(1, o.key.value), ValueBytes(4, o.userId);
      var p, q := NumberBytes(2, o.position), NumberBytes(3, o.partId);
      EncodeOptions(o) ==
        if o.userId != [] then k + p + q + Flagged(u)
        else if q != [] then k + p + Flagged(q)
        else if p != [] then k + Flagged(p)
        else if k != [] then Flagged(k)
        else []
  {
    hide EncodeOptionList, EncodeOption, NumberOption, MarkLast, NumberBytes, ValueBytes, Flagged;
    var kl, ul := KeyOption(o.key), UserOption(o.userId);
    var pl, ql := NumberOption(2, o.position), NumberOption(3, o.partId);
    EncodeListOfNothing();
    NumberOptionBytes(2, o.position);
    NumberOptionBytes(3, o.partId);
    if o.key.Some? {
      ValueOptionBytes(1, o.key.value);
    }
    EncodeListConcat(kl, pl);
    EncodeListConcat(kl + pl, ql);
    if o.userId != [] {
      ValueOptionBytes(4, o.userId);
      MarkLastOfConcat(kl + pl + ql, ul);
      EncodeListConcat(kl + pl + ql, MarkLast(ul));
    } else {
      assert OptionList(o) == kl + pl + ql;
      LastWritten(kl, pl, ql);
    }
  }

  lemma {:induction false} EncodeListOfNothing()
    ensures EncodeOptionList([]) == [] && MarkLast([]) == []
  {
  }

  lemma {:induction false} LastWritten(kl: seq<HeaderOption>, pl: seq<HeaderOption>, ql: seq<HeaderOption>)
    ensures EncodeOptionList(MarkLast(kl + pl + ql)) ==
      if ql != [] then EncodeOptionList(kl) + EncodeOptionList(pl) + EncodeOptionList(MarkLast(ql))
      else if pl != [] then EncodeOptionList(kl) + EncodeOptionList(MarkLast(pl))
      else EncodeOptionList(MarkLast(kl))
  {
    hide EncodeOptionList, MarkLast;
    EncodeListConcat(kl, pl);
    if ql != [] {
      MarkLastOfConcat(kl + pl, ql);
      EncodeListConcat(kl + pl, MarkLast(ql));
    } else if pl != [] {
      assert kl + pl + ql == kl + pl;
      MarkLastOfConcat(kl, pl);
      EncodeListConcat(kl, MarkLast(pl));
    } else {
      assert kl + pl + ql == kl;
    }
  }

  /** The bytes of a block: nonce, payload length with the options bit on top, options, payload. */
  lemma BlockBytes(b: Block)
    ensures EncodeBlock(b) == b.nonce
      + BigEndian(|b.payload| % 0x8000_0000 + if b.options.Some? then 0x8000_0000 else 0, 4)
      + (if b.options.Some? then EncodeOptions(b.options.value) else [])
      + b.payload
  {
    hide EncodeOptions;
  }

  /** Every block of a stream has options of two bytes, or, with an owner, of four and the owner. */
  lemma {:induction false} StreamOptionBytes(owner: bytes)
    ensures EncodeOptions(Options(0, 0, None, owner)) ==
      if owner == [] then [0x42, 0xC3] else [0x42, 0x43, 0x84, |owner| % 256] + owner
  {
    hide EncodeOptions;
    OptionBytes(Options(0, 0, None, owner));
    assert NumberBytes(2, 0) == [0x42] && NumberBytes(3, 0) == [0x43];
    if owner != [] {
      assert [] + [0x42] + [0x43] + Flagged(ValueBytes(4, owner)) == [0x42, 0x43, 0x84, |owner| % 256] + owner;
    }
  }

  // ----- round trip

  function NormaliseOptions(o: Options): Options {
    o.(position := if o.position < 0 then 0 else o.position,
       partId := if o.partId < 0 then 0 else o.partId)
  }

  /** What a decoder can give back: negative 16-bit options are not written and read as 0. */
  function Normalise(b: Block): Block {
    if b.options.None? then b else b.(options := Some(NormaliseOptions(b.options.value)))
  }

  /** At least one option is written and each length fits its one-byte field. */
  predicate EncodableOptions(o: Options) {
    && (o.key.Some? || o.position >= 0 || o.partId >= 0 || o.userId != [])
    && (o.key.Some? ==> |o.key.value| <= 255)
    && |o.userId| <= 255
  }

  /** What a caller can check before writing a block. */
  predicate Encodable(b: Block) {
    && |b.nonce| == NONCE_SIZE
    && |b.payload| < OPTIONS_FLAG
    && (b.options.Some? ==> EncodableOptions(b.options.value))
  }

  /** An option whose encoding is read back with the same id and value. */
  predicate Faithful(op: HeaderOption) {
    && op.id % 0x40 <= 4
    && (op.value.Some? ==> !HasNoValue(op.id) && |op.value.value| <= 255)
    && !Panics(op)
  }

  predicate AllFaithful(list: seq<HeaderOption>) {
    forall i :: 0 <= i < |list| ==> Faithful(list[i])
  }

  /** Only the last option carries the last-option bit. */
  predicate Terminated(list: seq<HeaderOption>) {
    && list != []
    && (forall i :: 0 <= i < |list| - 1 ==> !IsTheLast(list[i].id))
    && IsTheLast(list[|list| - 1].id)
  }

  function ApplyAll(acc: Options, list: seq<HeaderOption>): Options
    requires AllFaithful(list)
    decreases |list|
  {
    if list == [] then acc else ApplyAll(ApplyOption(acc, list[0]), list[1..])
  }

  lemma OptionRoundTrip(op: HeaderOption, tail: bytes)
    requires Faithful(op)
    ensures var r := DecodeOption(EncodeOption(op) + tail);
      && r.Parsed? && r.size == |EncodeOption(op)|
      && r.value.value == op.value
      && IsTheLast(r.value.id) == IsTheLast(op.id) && r.value.id % 0x40 == op.id % 0x40
  {
    if op.value.Some? {
      var v := op.value.value;
      assert (EncodeOption(op) + tail)[2..2 + |v|] == v;
    }
  }

  /** One step of the decoding loop. */
  lemma {:induction false} FirstOptionApplied(op: HeaderOption, acc: Options, rest: bytes)
    requires Faithful(op)
    ensures var n := |EncodeOption(op)|;
      DecodeOptions(EncodeOption(op) + rest, acc) ==
        if IsTheLast(op.id) then Parsed(ApplyOption(acc, op), n)
        else match DecodeOptions(rest, ApplyOption(acc, op))
          case Failed(e) => Failed(e)
          case Parsed(o, m) => Parsed(o, n + m)
  {
    OptionRoundTrip(op, rest);
    assert (EncodeOption(op) + rest)[|EncodeOption(op)|..] == rest;
  }

  lemma TerminatedTail(list: seq<HeaderOption>)
    requires AllFaithful(list) && Terminated(list) && |list| > 1
    ensures AllFaithful(list[1..]) && Terminated(list[1..]) && !IsTheLast(list[0].id)
  {
    var tail := list[1..];
    assert tail[|tail| - 1] == list[|list| - 1];
    assert forall i :: 0 <= i < |tail| ==> tail[i] == list[i + 1];
  }

  lemma {:induction false} OptionListRoundTrip(list: seq<HeaderOption>, acc: Options, tail: bytes)
    requires AllFaithful(list) && Terminated(list)
    ensures DecodeOptions(EncodeOptionList(list) + tail, acc)
         == Parsed(ApplyAll(acc, list), |EncodeOptionList(list)|)
    decreases |list|
  {
    hide DecodeOptions;
    hide EncodeOption;
    var rest := EncodeOptionList(list[1..]) + tail;
    var s := EncodeOptionList(list) + tail;
    assert s == EncodeOption(list[0]) + rest;
    FirstOptionApplied(list[0], acc, rest);
    if |list| == 1 {
      assert list[1..] == [];
    } else {
      TerminatedTail(list);
      OptionListRoundTrip(list[1..], ApplyOption(acc, list[0]), tail);
    }
  }

  lemma {:induction false} ApplyAllConcat(acc: Options, a: seq<HeaderOption>, b: seq<HeaderOption>)
    requires AllFaithful(a) && AllFaithful(b)
    ensures AllFaithful(a + b)
    ensures ApplyAll(acc, a + b) == ApplyAll(ApplyAll(acc, a), b)
    decreases |a|
  {
    if a == [] {
      assert a + b == b;
    } else {
      ApplyAllConcat(ApplyOption(acc, a[0]), a[1..], b);
      assert (a + b)[1..] == a[1..] + b;
    }
  }

  lemma ApplyOne(acc: Options, list: seq<HeaderOption>)
    requires |list| <= 1 && AllFaithful(list)
    ensures ApplyAll(acc, list) == if list == [] then acc else ApplyOption(acc, list[0])
  {
    if list != [] {
      assert list[1..] == [];
    }
  }

  lemma NumberOptionApplies(acc: Options, id: byte, v: int16)
    requires id == 2 || id == 3
    ensures AllFaithful(NumberOption(id, v))
    ensures id == 2 && acc.position == 0 ==>
      ApplyAll(acc, NumberOption(id, v)) == acc.(position := if v < 0 then 0 else v)
    ensures id == 3 && acc.partId == 0 ==>
      ApplyAll(acc, NumberOption(id, v)) == acc.(partId := if v < 0 then 0 else v)
  {
    if v > 0 {
      assert BigEndian(v, 2) == BigEndian(v / 256, 1) + [v % 256];
      assert BigEndian(v / 256, 1) == BigEndian(v / 256 / 256, 0) + [v / 256 % 256];
      assert BigEndian(v, 2) == [v / 256, v % 256];
    }
    ApplyOne(acc, NumberOption(id, v));
  }

  lemma OptionListIsFaithful(o: Options)
    requires EncodableOptions(o)
    ensures AllFaithful(KeyOption(o.key)) && AllFaithful(NumberOption(2, o.position))
    ensures AllFaithful(NumberOption(3, o.partId)) && AllFaithful(UserOption(o.userId))
    ensures AllFaithful(OptionList(o)) && OptionList(o) != []
    ensures forall i :: 0 <= i < |OptionList(o)| ==> OptionList(o)[i].id < 0x40
  {
    NumberOptionApplies(ZERO_OPTIONS, 2, o.position);
    NumberOptionApplies(ZERO_OPTIONS, 3, o.partId);
  }

  lemma OptionListMeaning(o: Options)
    requires EncodableOptions(o)
    ensures AllFaithful(OptionList(o))
    ensures ApplyAll(ZERO_OPTIONS, OptionList(o)) == NormaliseOptions(o)
  {
    hide ApplyAll, BigEndian, AllFaithful, NumberOption;
    OptionListIsFaithful(o);
    var k, p, q, u := KeyOption(o.key), NumberOption(2, o.position), NumberOption(3, o.partId), UserOption(o.userId);
    ApplyAllConcat(ZERO_OPTIONS, k, p);
    ApplyAllConcat(ZERO_OPTIONS, k + p, q);
    ApplyAllConcat(ZERO_OPTIONS, k + p + q, u);
    ApplyOne(ZERO_OPTIONS, k);
    var a1 := ApplyAll(ZERO_OPTIONS, k);
    NumberOptionApplies(a1, 2, o.position);
    var a2 := ApplyAll(a1, p);
    NumberOptionApplies(a2, 3, o.partId);
    ApplyOne(ApplyAll(a2, q), u);
  }

  lemma MarkLastKeepsMeaning(list: seq<HeaderOption>, acc: Options)
    requires list != [] && AllFaithful(list)
    requires forall i :: 0 <= i < |list| ==> list[i].id < 0x40
    ensures AllFaithful(MarkLast(list)) && Terminated(MarkLast(list))
    ensures ApplyAll(acc, MarkLast(list)) == ApplyAll(acc, list)
  {
    hide ApplyAll;
    var init, last := list[..|list| - 1], list[|list| - 1];
    var marked := last.(id := SetLast(last.id));
    assert Faithful(marked);
    ApplyAllConcat(acc, init, [last]);
    ApplyAllConcat(acc, init, [marked]);
    assert init + [last] == list;
    ApplyOne(ApplyAll(acc, init), [last]);
    ApplyOne(ApplyAll(acc, init), [marked]);
  }

  lemma OptionsRoundTrip(o: Options, tail: bytes)
    requires EncodableOptions(o)
    ensures DecodeOptions(EncodeOptions(o) + tail, ZERO_OPTIONS)
         == Parsed(NormaliseOptions(o), |EncodeOptions(o)|)
  {
    hide OptionList, MarkLast, ApplyAll, DecodeOptions;
    OptionListIsFaithful(o);
    OptionListMeaning(o);
    MarkLastKeepsMeaning(OptionList(o), ZERO_OPTIONS);
    OptionListRoundTrip(MarkLast(OptionList(o)), ZERO_OPTIONS, tail);
  }

  lemma LengthFieldRoundTrip(h: Header)
    ensures FromBigEndian(BigEndian(LengthField(h), 4)) == LengthField(h)
    ensures LengthField(h) / OPTIONS_FLAG % 2 == (if h.options.Some? then 1 else 0)
    ensures LengthField(h) % OPTIONS_FLAG == h.dataLength % OPTIONS_FLAG
  {
    assert Pow256(4) == 0x1_0000_0000 by {
      assert Pow256(2) == 65536;
      assert Pow256(4) == 256 * (256 * Pow256(2));
    }
    DecodeEncode(LengthField(h), 4);
  }

  /** A field at the front of the stream fills its buffer and leaves the rest. */
  lemma FieldThenRest(field: bytes, rest: bytes)
    ensures Min(|field|, |field + rest|) == |field|
    ensures Fill(field + rest, |field|) == field && (field + rest)[|field|..] == rest
  {
  }

  /** How a decoder walks over a header whose nonce has the right size. */
  lemma HeaderPrefix(h: Header, tail: bytes)
    requires |h.nonce| == NONCE_SIZE
    ensures var body := (if h.options.Some? then EncodeOptions(h.options.value) else []) + tail;
      var fields := Header(None, h.nonce, h.dataLength % OPTIONS_FLAG);
      DecodeHeader(EncodeHeader(h) + tail) ==
        if h.options.None? then Parsed(fields, 16)
        else match DecodeOptions(body, ZERO_OPTIONS)
          case Failed(e) => Failed(e)
          case Parsed(o, m) => Parsed(fields.(options := Some(o)), 16 + m)
  {
    hide DecodeOptions, EncodeOptions, Fill, Min, BigEndian, FromBigEndian;
    var s := EncodeHeader(h) + tail;
    var body := (if h.options.Some? then EncodeOptions(h.options.value) else []) + tail;
    var field := BigEndian(LengthField(h), 4);
    assert s == h.nonce + (field + body);
    FieldThenRest(h.nonce, field + body);
    FieldThenRest(field, body);
    LengthFieldRoundTrip(h);
  }

  /** A header whose nonce has the right size is never empty, and is read back. */
  lemma HeaderReadBack(h: Header, tail: bytes)
    requires |h.nonce| == NONCE_SIZE && (h.options.Some? ==> EncodableOptions(h.options.value))
    ensures var options := if h.options.None? then None else Some(NormaliseOptions(h.options.value));
      DecodeHeader(EncodeHeader(h) + tail)
      == Parsed(Header(options, h.nonce, h.dataLength % OPTIONS_FLAG), |EncodeHeader(h)|)
    ensures |EncodeHeader(h)| >= NONCE_SIZE
  {
    hide DecodeHeader, DecodeOptions, EncodeOptions, NormaliseOptions;
    HeaderPrefix(h, tail);
    if h.options.Some? {
      OptionsRoundTrip(h.options.value, tail);
    }
  }

  /** What a decoder sees first: the header, then the payload, then the tail. */
  lemma BlockParts(b: Block, tail: bytes)
    requires Encodable(b)
    ensures var s, n := EncodeBlock(b) + tail, |EncodeHeader(HeaderOf(b))|;
      && DecodeHeader(s) == Parsed(HeaderOf(Normalise(b)), n)
      && 0 < n && n + |b.payload| == |EncodeBlock(b)|
      && s[n..] == b.payload + tail
  {
    hide DecodeHeader, DecodeOptions, EncodeOptions, EncodeHeader;
    var h := HeaderOf(b);
    FieldThenRest(EncodeHeader(h), b.payload + tail);
    assert EncodeBlock(b) + tail == EncodeHeader(h) + (b.payload + tail);
    HeaderReadBack(h, b.payload + tail);
  }

  /** Main result, forward half: an encodable block followed by anything is read back. */
  lemma BlockRoundTrip(b: Block, tail: bytes)
    requires Encodable(b)
    ensures DecodeBlock(EncodeBlock(b) + tail) == Parsed(Normalise(b), |EncodeBlock(b)|)
  {
    hide DecodeHeader, EncodeBlock, EncodeHeader;
    BlockParts(b, tail);
    var s, n := EncodeBlock(b) + tail, |EncodeHeader(HeaderOf(b))|;
    assert s[n..n + |b.payload|] == s[n..][..|b.payload|] == b.payload;
  }

  /** A decoded value never exceeds what one length byte can announce. */
  predicate ShortValues(o: Options) {
    (o.key.Some? ==> |o.key.value| <= 255) && |o.userId| <= 255
  }

  lemma {:induction false} DecodedValuesAreShort(s: bytes, acc: Options)
    requires ShortValues(acc)
    ensures DecodeOptions(s, acc).Parsed? ==> ShortValues(DecodeOptions(s, acc).value)
    decreases |s|
  {
    var r := DecodeOption(s);
    if r.Parsed? && !Panics(r.value) && !IsTheLast(r.value.id) {
      DecodedValuesAreShort(s[r.size..], ApplyOption(acc, r.value));
    }
  }

  /** Main result: a block reads back, whatever follows it, exactly when it is encodable. */
  lemma RoundTripIffEncodable(b: Block)
    requires AcceptsPayload(b.payload)
    ensures Encodable(b) <==>
      forall tail: bytes :: DecodeBlock(EncodeBlock(b) + tail) == Parsed(Normalise(b), |EncodeBlock(b)|)
  {
    if Encodable(b) {
      forall tail: bytes
        ensures DecodeBlock(EncodeBlock(b) + tail) == Parsed(Normalise(b), |EncodeBlock(b)|)
      {
        BlockRoundTrip(b, tail);
      }
    } else {
      UnencodableIsNotReadBack(b);
      assert EncodeBlock(b) + [] == EncodeBlock(b);
    }
  }

  lemma UnencodableIsNotReadBack(b: Block)
    requires !Encodable(b)
    ensures DecodeBlock(EncodeBlock(b)) != Parsed(Normalise(b), |EncodeBlock(b)|)
  {
    var s := EncodeBlock(b);
    var h := DecodeHeader(s);
    if h.Parsed? && |b.nonce| == NONCE_SIZE && |b.payload| < OPTIONS_FLAG {
      HeaderPrefix(HeaderOf(b), b.payload);
      var body := EncodeOptions(b.options.value) + b.payload;
      DecodedValuesAreShort(body, ZERO_OPTIONS);
      if ShortValues(b.options.value) {
        // no option was written, so at least one payload byte was taken for an option
        assert EncodeOptions(b.options.value) == [];
      }
    }
  }

  /** The options of `new(Options)` with nothing to write: the flag is set all the same. */
  lemma SilentOptionsExample()
    ensures var b := Block(Some(Options(-1, -1, None, [])), Zeros(NONCE_SIZE), []);
      AcceptsPayload(b.payload) && DecodeBlock(EncodeBlock(b)).Failed?
  {
    var b := Block(Some(Options(-1, -1, None, [])), Zeros(NONCE_SIZE), []);
    HeaderPrefix(HeaderOf(b), []);
    assert EncodeBlock(b) == EncodeHeader(HeaderOf(b)) + [];
  }

  // ----- blocks cut short

  lemma {:induction false} OptionCutShort(op: HeaderOption, n: nat)
    requires Faithful(op) && n < |EncodeOption(op)|
    ensures DecodeOption(EncodeOption(op)[..n]).Failed?
  {
  }

  lemma {:induction false} OptionListCutShort(list: seq<HeaderOption>, acc: Options, n: nat)
    requires AllFaithful(list) && Terminated(list) && n < |EncodeOptionList(list)|
    ensures DecodeOptions(EncodeOptionList(list)[..n], acc).Failed?
    decreases |list|
  {
    hide DecodeOption, EncodeOption, ApplyOption;
    var first := EncodeOption(list[0]);
    var s := EncodeOptionList(list)[..n];
    assert |list| == 1 ==> list[1..] == [];
    if n < |first| {
      OptionCutShort(list[0], n);
      assert s == first[..n];
    } else {
      var rest := EncodeOptionList(list[1..])[..n - |first|];
      assert s == first + rest;
      FirstOptionApplied(list[0], acc, rest);
      if |list| > 1 {
        TerminatedTail(list);
        OptionListCutShort(list[1..], ApplyOption(acc, list[0]), n - |first|);
      }
    }
  }

  lemma {:induction false} OptionsCutShort(o: Options, n: nat)
    requires EncodableOptions(o) && n < |EncodeOptions(o)|
    ensures DecodeOptions(EncodeOptions(o)[..n], ZERO_OPTIONS).Failed?
  {
    hide OptionList, MarkLast, DecodeOptions;
    OptionListIsFaithful(o);
    MarkLastKeepsMeaning(OptionList(o), ZERO_OPTIONS);
    OptionListCutShort(MarkLast(OptionList(o)), ZERO_OPTIONS, n);
  }

  lemma NothingDecodes()
    ensures DecodeOptions([], ZERO_OPTIONS).Failed?
  {
  }

  /** The top bit of a four-byte number is that of its first byte. */
  lemma {:induction false} TopBit(s: bytes)
    requires |s| == 4
    ensures FromBigEndian(s) < 0x1_0000_0000
    ensures s[0] >= 0x80 <==> FromBigEndian(s) >= OPTIONS_FLAG
  {
    hide FromBigEndian;
    FromBigEndianHead(s);
    FromBigEndianBound(s[1..]);
    assert Pow256(3) == 256 * (256 * (256 * Pow256(0)));
  }

  /** A length field with the flag on top keeps it in its first byte, whatever is missing of the rest. */
  lemma {:induction false} FlagSurvives(field: nat, k: nat)
    requires OPTIONS_FLAG <= field < 2 * OPTIONS_FLAG && 0 < k <= 4
    ensures FromBigEndian(Fill(BigEndian(field, 4)[..k], 4)) / OPTIONS_FLAG % 2 == 1
  {
    hide BigEndian, FromBigEndian;
    assert Pow256(4) == 256 * (256 * (256 * (256 * Pow256(0)))) by {
      assert Pow256(2) == 256 * (256 * Pow256(0));
    }
    DecodeEncode(field, 4);
    TopBit(BigEndian(field, 4));
    TopBit(Fill(BigEndian(field, 4)[..k], 4));
  }

  lemma {:induction false} HeaderCutShort(h: Header, n: nat)
    requires |h.nonce| == NONCE_SIZE && h.options.Some? && EncodableOptions(h.options.value)
    requires n < |EncodeHeader(h)|
    ensures DecodeHeader(EncodeHeader(h)[..n]).Failed?
  {
    hide EncodeOptions, DecodeOptions, BigEndian, FromBigEndian, Fill;
    var field, options := BigEndian(LengthField(h), 4), EncodeOptions(h.options.value);
    var s := EncodeHeader(h)[..n];
    if n > NONCE_SIZE {
      var k := n - NONCE_SIZE;
      if k <= 4 {
        assert s[NONCE_SIZE..] == field[..k];
        FlagSurvives(LengthField(h), k);
        assert s[NONCE_SIZE..][Min(4, k)..] == [];
        NothingDecodes();
      } else {
        assert s[NONCE_SIZE..] == field + options[..k - 4];
        FieldThenRest(field, options[..k - 4]);
        LengthFieldRoundTrip(h);
        OptionsCutShort(h.options.value, k - 4);
      }
    }
  }

  /**
    Main result: an encodable block with options, as every block of a stream has, does not
    decode when any of its last bytes are missing.
   */
  lemma {:induction false} BlockCutShort(b: Block, n: nat)
    requires Encodable(b) && b.options.Some? && n < |EncodeBlock(b)|
    ensures DecodeBlock(EncodeBlock(b)[..n]).Failed?
  {
    hide EncodeHeader, DecodeHeader;
    var h := EncodeHeader(HeaderOf(b));
    var s := EncodeBlock(b)[..n];
    if n < |h| {
      assert s == h[..n];
      HeaderCutShort(HeaderOf(b), n);
    } else {
      var tail := b.payload[..n - |h|];
      assert s == h + tail;
      HeaderReadBack(HeaderOf(b), tail);
    }
  }

  /** The number left of a four-byte length when the bytes after the first `k` are read as zeros. */
  lemma {:induction false} LengthCutShort(v: nat, k: nat)
    requires v < 0x1_0000_0000 && 0 < k < 4
    ensures FromBigEndian(Fill(BigEndian(v, 4)[..k], 4)) == v / Pow256(4 - k) * Pow256(4 - k)
  {
    hide BigEndian, FromBigEndian, Pow256;
    var kept := BigEndian(v / Pow256(4 - k), k);
    LengthPrefix(v, k);
    DecodeEncode(v / Pow256(4 - k), k);
    assert Fill(BigEndian(v, 4)[..k], 4) == kept + Zeros(4 - k);
    AppendZeros(kept, 4 - k);
  }

  lemma {:induction false} LengthPrefix(v: nat, k: nat)
    requires v < 0x1_0000_0000 && 0 < k < 4
    ensures BigEndian(v, 4)[..k] == BigEndian(v / Pow256(4 - k), k) && v / Pow256(4 - k) < Pow256(k)
  {
    assert Pow256(1) == 256 && Pow256(2) == 0x1_0000 && Pow256(3) == 0x100_0000;
    assert BigEndian(v, 4) == BigEndian(v / 256, 3) + [v % 256];
    assert BigEndian(v / 256, 3) == BigEndian(v / 256 / 256, 2) + [v / 256 % 256];
    assert BigEndian(v / 256 / 256, 2) == BigEndian(v / 256 / 256 / 256, 1) + [v / 256 / 256 % 256];
  }

  lemma CutIsZeroIff(v: nat, p: nat)
    requires p > 0
    ensures v / p * p <= v && (v / p * p == 0 <==> v < p)
  {
  }

  lemma {:induction false} AppendZeros(s: bytes, n: nat)
    ensures FromBigEndian(s + Zeros(n)) == FromBigEndian(s) * Pow256(n)
  {
    if n == 0 {
      assert s + Zeros(0) == s;
    } else {
      assert (s + Zeros(n))[..|s| + n - 1] == s + Zeros(n - 1);
      AppendZeros(s, n - 1);
    }
  }

  /**
    Main result: what is left of an encodable block is refused, unless the block has no options, is
    cut inside its length, and the bytes left of the length are zeros; that reads as an empty block.
   */
  lemma {:induction false} CutShortIsRefusedIff(b: Block, n: nat)
    requires Encodable(b) && n < |EncodeBlock(b)|
    ensures DecodeBlock(EncodeBlock(b)[..n]).Failed? <==>
      b.options.Some? || n <= 12 || n >= 16 || |b.payload| >= Pow256(16 - n)
    ensures DecodeBlock(EncodeBlock(b)[..n]).Parsed? ==>
      DecodeBlock(EncodeBlock(b)[..n]) == Parsed(Block(None, b.nonce, []), n)
  {
    if b.options.Some? {
      BlockCutShort(b, n);
    } else {
      PlainBlockCutShort(b, n);
    }
  }

  lemma {:induction false} PlainHeaderCutShort(nonce: bytes, v: nat, n: nat)
    requires |nonce| == NONCE_SIZE && v < OPTIONS_FLAG && 12 < n < 16
    ensures var s := (nonce + BigEndian(v, 4))[..n];
      DecodeHeader(s) == Parsed(Header(None, nonce, v / Pow256(16 - n) * Pow256(16 - n)), n)
  {
    hide BigEndian, FromBigEndian, Pow256;
    var s := (nonce + BigEndian(v, 4))[..n];
    assert s[12..] == BigEndian(v, 4)[..n - 12] && Fill(s, 12) == nonce;
    LengthCutShort(v, n - 12);
    CutIsZeroIff(v, Pow256(16 - n));
  }

  lemma {:induction false} PlainBlockCutShort(b: Block, n: nat)
    requires Encodable(b) && b.options.None? && n < |EncodeBlock(b)|
    ensures var r := DecodeBlock(EncodeBlock(b)[..n]);
      if 12 < n < 16 && |b.payload| < Pow256(16 - n) then r == Parsed(Block(None, b.nonce, []), n) else r.Failed?
  {
    hide BigEndian, FromBigEndian, Pow256, DecodeHeader;
    var h := HeaderOf(b);
    var s := EncodeBlock(b)[..n];
    assert EncodeHeader(h) == b.nonce + BigEndian(|b.payload|, 4);
    if n <= 12 {
      assert s == b.nonce[..n];
      NonceAlone(s);
    } else if n < 16 {
      assert s == (b.nonce + BigEndian(|b.payload|, 4))[..n];
      PlainHeaderCutShort(b.nonce, |b.payload|, n);
      CutIsZeroIff(|b.payload|, Pow256(16 - n));
      assert s[n..n] == [];
    } else {
      var tail := b.payload[..n - 16];
      assert s == EncodeHeader(h) + tail;
      HeaderReadBack(h, tail);
    }
  }

  lemma NonceAlone(s: bytes)
    requires |s| <= NONCE_SIZE
    ensures DecodeHeader(s).Failed?
  {
  }

  /** Cut to 13 bytes, this block reads as an empty one. */
  lemma {:induction false} PlainBlockCutShortExample()
    ensures var b := Block(None, Zeros(NONCE_SIZE), [7]);
      Encodable(b) && DecodeBlock(EncodeBlock(b)[..13]) == Parsed(Block(None, Zeros(NONCE_SIZE), []), 13)
  {
    var b := Block(None, Zeros(NONCE_SIZE), [7]);
    assert BigEndian(1, 4)[0] == 0 by {
      assert BigEndian(1, 4)[0] == BigEndian(0, 3)[0] == BigEndian(0, 2)[0] == BigEndian(0, 1)[0];
    }
    var s := EncodeBlock(b)[..13];
    assert s == Zeros(13);
    assert Fill(s[12..], 4) == Zeros(4);
    assert FromBigEndian(Zeros(4)) == 0 by {
      assert Zeros(4)[..3] == Zeros(3) && Zeros(3)[..2] == Zeros(2) && Zeros(2)[..1] == Zeros(1) && Zeros(1)[..0] == [];
    }
    assert Fill(s, NONCE_SIZE) == Zeros(NONCE_SIZE);
    assert s[NONCE_SIZE..][Min(4, 1)..] == [];
    assert DecodeHeader(s) == Parsed(Header(None, Zeros(NONCE_SIZE), 0), 13);
    assert s[13..13] == [];
  }

  predicate AllEncodable(bs: seq<Block>) {
    forall i :: 0 <= i < |bs| ==> Encodable(bs[i]) && Normalise(bs[i]) == bs[i]
  }

  lemma BlockIsNotEmpty(b: Block)
    ensures EncodeBlock(b) != []
  {
  }

  /** Concatenated blocks parse back uniquely. */
  lemma {:induction false} ConcatenationIsInjective(xs: seq<Block>, ys: seq<Block>)
    requires AllEncodable(xs) && AllEncodable(ys)
    requires EncodeBlocks(xs) == EncodeBlocks(ys)
    ensures xs == ys
    decreases |xs|
  {
    hide EncodeBlock, DecodeBlock, Encodable, Normalise;
    if xs == [] || ys == [] {
      if xs != [] {
        BlockIsNotEmpty(xs[0]);
      }
      if ys != [] {
        BlockIsNotEmpty(ys[0]);
      }
    } else {
      var tx, ty := EncodeBlocks(xs[1..]), EncodeBlocks(ys[1..]);
      BlockRoundTrip(xs[0], tx);
      BlockRoundTrip(ys[0], ty);
      assert tx == EncodeBlocks(xs)[|EncodeBlock(xs[0])|..];
      assert ty == EncodeBlocks(ys)[|EncodeBlock(ys[0])|..];
      ConcatenationIsInjective(xs[1..], ys[1..]);
      assert xs == [xs[0]] + xs[1..] && ys == [ys[0]] + ys[1..];
    }
  }
}
