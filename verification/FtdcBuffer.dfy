/** The fixed-size FTDC packet buffer. */
module FtdcBuffers {
  import opened Bytes
  import opened Ftd
  import opened Wrappers

  // ---- What the bytes of a buffer say, whoever wrote them ----

  type Image = b: bytes | |b| == FTDC_MAX_LENGTH witness Zeros(FTDC_MAX_LENGTH)

  const CHAIN_AT := 5

  const COUNT_AT := 12

  const LENGTH_AT := 14

  function Blank(): Image {
    Zeros(FTDC_MAX_LENGTH)
  }

  function Chain(b: Image): byte {
    b[CHAIN_AT]
  }

  function FieldCount(b: Image): uint16 {
    FromLe16(b[COUNT_AT..COUNT_AT + 2])
  }

  function ContentLength(b: Image): uint16 {
    FromLe16(b[LENGTH_AT..LENGTH_AT + 2])
  }

  // The sum is narrowed to an unsigned short.
  function Size(b: Image): uint16 {
    (FTDC_HEADER_SIZE + ContentLength(b)) % 0x1_0000
  }

  function WithChain(b: Image, chain: byte): Image {
    b[CHAIN_AT := chain]
  }

  predicate Fits(b: Image, f: Field) {
    ContentLength(b) + EntitySize(f) <= FTDC_CONTENT_MAX_LENGTH
  }

  // Both header counters are unsigned shorts; only the count can wrap.
  function AfterAdd(b: Image, f: Field): Image
    requires Fits(b, f)
  {
    var b1 := Overwrite(b, FTDC_HEADER_SIZE + ContentLength(b), EncodeField(f));
    var b2 := Overwrite(b1, COUNT_AT, Le16((FieldCount(b) + 1) % 0x1_0000));
    Overwrite(b2, LENGTH_AT, Le16(ContentLength(b) + EntitySize(f)))
  }

  function FieldLengthAt(b: Image, p: nat): uint16
    requires p + FIELD_PREFIX <= |b|
  {
    FromLe16(b[p + 4..p + 6])
  }

  /** The `n` field prefixes met from `p` on lie inside the buffer and hold non-negative lengths. */
  predicate CanWalk(b: Image, p: nat, n: nat)
    decreases n
  {
    n == 0 || (&& p + FIELD_PREFIX <= |b|
               && FieldLengthAt(b, p) < 0x8000
               && CanWalk(b, p + FIELD_PREFIX + FieldLengthAt(b, p), n - 1))
  }

  function Walk(b: Image, p: nat, n: nat): nat
    requires CanWalk(b, p, n)
    decreases n
  {
    if n == 0 then p else Walk(b, p + FIELD_PREFIX + FieldLengthAt(b, p), n - 1)
  }

  // ---- What a well-formed buffer means ----

  /** Header, counters, content and zero fill, in the order they lie in memory. */
  function Layout(start: bytes, count: uint16, content: bytes): Image
    requires |start| == COUNT_AT && |content| <= FTDC_CONTENT_MAX_LENGTH
  {
    start + Le16(count) + Le16(|content|) + content + Zeros(FTDC_CONTENT_MAX_LENGTH - |content|)
  }

  datatype Packet = Packet(version: byte, tid: uint32, chain: byte, seris: uint16, seqno: uint32,
                           fields: seq<Field>)
  {
    predicate Valid() {
      |Content(fields)| <= FTDC_CONTENT_MAX_LENGTH
    }

    function Add(f: Field): Packet {
      this.(fields := fields + [f])
    }

    function HeaderStart(): (s: bytes)
      ensures |s| == COUNT_AT
    {
      [version] + Le32(tid) + [chain] + Le16(seris) + Le32(seqno)
    }

    function Image(): Image
      requires Valid()
    {
      ContentLowerBound(fields);
      Layout(HeaderStart(), |fields|, Content(fields))
    }
  }

  predicate AllValid(ps: seq<Packet>) {
    forall k :: 0 <= k < |ps| ==> ps[k].Valid()
  }

  function Images(ps: seq<Packet>): (s: seq<Image>)
    requires AllValid(ps)
    ensures |s| == |ps| && forall k :: 0 <= k < |ps| ==> s[k] == ps[k].Image()
  {
    seq(|ps|, k requires 0 <= k < |ps| => ps[k].Image())
  }

  const EMPTY := Packet(0 as char, 0, 0 as char, 0, 0, [])

  lemma LayoutHeader(start: bytes, count: uint16, content: bytes)
    requires |start| == COUNT_AT && |content| <= FTDC_CONTENT_MAX_LENGTH
    ensures var b := Layout(start, count, content);
            && FieldCount(b) == count
            && ContentLength(b) == |content|
            && Size(b) == FTDC_HEADER_SIZE + |content|
            && b[..COUNT_AT] == start
            && b[FTDC_HEADER_SIZE..Size(b)] == content
            && b[Size(b)..] == Zeros(FTDC_MAX_LENGTH - Size(b))
  {
    var b := Layout(start, count, content);
    assert b[COUNT_AT..COUNT_AT + 2] == Le16(count);
    assert b[LENGTH_AT..LENGTH_AT + 2] == Le16(|content|);
    Le16RoundTrip(count);
    Le16RoundTrip(|content|);
  }

  // The memcpy of `add_field`: the field's bytes replace the first zeros behind the content.
  lemma LayoutCopy(start: bytes, count: uint16, content: bytes, e: bytes)
    requires |start| == COUNT_AT && |content| + |e| <= FTDC_CONTENT_MAX_LENGTH
    ensures Overwrite(Layout(start, count, content), FTDC_HEADER_SIZE + |content|, e)
            == start + Le16(count) + (Le16(|content|)
                                      + (content + e + Zeros(FTDC_CONTENT_MAX_LENGTH - |content| - |e|)))
  {
  }

  // The two counter updates of `add_field`.
  lemma LayoutCount(start: bytes, n: bytes, l: bytes, tail: bytes, n': bytes, l': bytes)
    requires |n| == |l| == |n'| == |l'| == 2
    ensures Overwrite(Overwrite(start + n + (l + tail), |start|, n'), |start| + 2, l') == start + n' + l' + tail
  {
  }

  lemma LayoutTail(start: bytes, count: uint16, content: bytes, e: bytes)
    requires |start| == COUNT_AT && |content| + |e| <= FTDC_CONTENT_MAX_LENGTH
    ensures Layout(start, count, content + e)
            == start + Le16(count) + Le16(|content + e|)
               + (content + e + Zeros(FTDC_CONTENT_MAX_LENGTH - |content| - |e|))
  {
  }

  lemma LayoutAdd(start: bytes, count: uint16, content: bytes, f: Field)
    requires |start| == COUNT_AT && |content| + EntitySize(f) <= FTDC_CONTENT_MAX_LENGTH && count < 0xFFFF
    ensures Fits(Layout(start, count, content), f)
    ensures AfterAdd(Layout(start, count, content), f) == Layout(start, count + 1, content + EncodeField(f))
  {
    hide Overwrite, Layout, Le16;
    LayoutHeader(start, count, content);
    var e := EncodeField(f);
    var tail := content + e + Zeros(FTDC_CONTENT_MAX_LENGTH - |content| - |e|);
    LayoutCopy(start, count, content, e);
    LayoutCount(start, Le16(count), Le16(|content|), tail, Le16(count + 1), Le16(|content + e|));
    LayoutTail(start, count + 1, content, e);
  }

  /** The header counters of a well-formed buffer are exact and never wrap. */
  lemma ImageHeader(p: Packet)
    requires p.Valid()
    ensures FieldCount(p.Image()) == |p.fields|
    ensures ContentLength(p.Image()) == |Content(p.fields)|
    ensures Chain(p.Image()) == p.chain
    ensures Size(p.Image()) == FTDC_HEADER_SIZE + |Content(p.fields)|
    ensures FIELD_PREFIX * FieldCount(p.Image()) <= ContentLength(p.Image()) <= FTDC_CONTENT_MAX_LENGTH
  {
    ContentLowerBound(p.fields);
    LayoutHeader(p.HeaderStart(), |p.fields|, Content(p.fields));
    assert Chain(p.Image()) == p.HeaderStart()[CHAIN_AT];
  }

  /** Where everything lies in the 4096 bytes: version, transaction, chain, series, sequence number, field count,
      content length, content and zeros. */
  lemma ImageBytes(p: Packet)
    requires p.Valid()
    ensures var b, n := p.Image(), |Content(p.fields)|;
            && |b| == 4096 && 16 + n <= 4096
            && b[0] == p.version
            && b[1] as int + 0x100 * b[2] as int + 0x1_0000 * b[3] as int + 0x100_0000 * b[4] as int == p.tid
            && b[5] == p.chain
            && b[6] as int + 0x100 * b[7] as int == p.seris
            && b[8] as int + 0x100 * b[9] as int + 0x1_0000 * b[10] as int + 0x100_0000 * b[11] as int == p.seqno
            && b[12] as int + 0x100 * b[13] as int == |p.fields|
            && b[14] as int + 0x100 * b[15] as int == n
            && b[16..16 + n] == Content(p.fields)
            && (forall i :: 16 + n <= i < 4096 ==> b[i] == 0 as char)
  {
    hide Le16, Le32, Content;
    ContentLowerBound(p.fields);
    LittleEndian32(p.tid);
    LittleEndian16(p.seris);
    LittleEndian32(p.seqno);
    LittleEndian16(|p.fields|);
    LittleEndian16(|Content(p.fields)|);
  }

  lemma BlankIsEmptyPacket()
    ensures EMPTY.Valid() && EMPTY.Image() == Blank()
  {
    assert EMPTY.HeaderStart() == Zeros(COUNT_AT);
  }

  /** Overwriting the chain byte of a copied buffer touches no field, count or length. */
  lemma WithChainImage(p: Packet, chain: byte)
    requires p.Valid()
    ensures WithChain(p.Image(), chain) == p.(chain := chain).Image()
  {
    var q := p.(chain := chain);
    assert q.HeaderStart() == p.HeaderStart()[CHAIN_AT := chain];
  }

  /** Adding a field in place is appending it to the abstract packet. */
  lemma AfterAddImage(p: Packet, f: Field)
    requires p.Valid()
    ensures Fits(p.Image(), f) <==> p.Add(f).Valid()
    ensures Fits(p.Image(), f) ==> AfterAdd(p.Image(), f) == p.Add(f).Image()
  {
    ImageHeader(p);
    ContentSnoc(p.fields, f);
    if Fits(p.Image(), f) {
      ContentLowerBound(p.Add(f).fields);
      LayoutAdd(p.HeaderStart(), |p.fields|, Content(p.fields), f);
      assert p.Add(f).HeaderStart() == p.HeaderStart();
    }
  }

  // ---- Walking the fields ----

  predicate FieldFits(b: Image, p: nat) {
    && p + FIELD_PREFIX <= |b|
    && FieldLengthAt(b, p) < 0x8000
    && p + FIELD_PREFIX + FieldLengthAt(b, p) <= |b|
  }

  /** The field a `ftdc_field_st` pointer to offset `p` shows its reader. */
  function FieldAt(b: Image, p: nat): Field
    requires FieldFits(b, p)
  {
    Field(FromLeInt(b[p..p + 4]), b[p + FIELD_PREFIX..p + FIELD_PREFIX + FieldLengthAt(b, p)])
  }

  lemma FieldAtEncoded(b: Image, p: nat, f: Field, rest: bytes)
    requires p + EntitySize(f) + |rest| <= |b|
    requires b[p..p + EntitySize(f) + |rest|] == EncodeField(f) + rest
    ensures FieldFits(b, p) && FieldLengthAt(b, p) == |f.data| && FieldAt(b, p) == f
    ensures b[p + EntitySize(f)..p + EntitySize(f) + |rest|] == rest
  {
    var w := b[p..p + EntitySize(f) + |rest|];
    assert w[..4] == LeInt(f.fid) && w[4..6] == Le16(|f.data|);
    assert w[FIELD_PREFIX..EntitySize(f)] == f.data && w[EntitySize(f)..] == rest;
    SliceOfSlice(b, p, p + |w|, 0, 4);
    SliceOfSlice(b, p, p + |w|, 4, 6);
    SliceOfSlice(b, p, p + |w|, FIELD_PREFIX, EntitySize(f));
    SliceOfSlice(b, p, p + |w|, EntitySize(f), |w|);
    LeIntRoundTrip(f.fid);
    Le16RoundTrip(|f.data|);
  }

  lemma {:induction false} WalkContent(b: Image, p: nat, fs: seq<Field>, i: nat)
    requires p + |Content(fs)| <= |b| && b[p..p + |Content(fs)|] == Content(fs)
    requires i <= |fs|
    ensures CanWalk(b, p, i) && Walk(b, p, i) == p + |Content(fs[..i])|
    ensures i < |fs| ==> FieldFits(b, Walk(b, p, i)) && FieldAt(b, Walk(b, p, i)) == fs[i]
    decreases |fs|
  {
    hide FieldAt, FieldLengthAt, EncodeField;
    if fs == [] {
    } else {
      FieldAtEncoded(b, p, fs[0], Content(fs[1..]));
      if i != 0 {
        WalkContent(b, p + EntitySize(fs[0]), fs[1..], i - 1);
        assert fs[..i][1..] == fs[1..][..i - 1];
      }
    }
  }

  /** `get_field(i)` shows exactly the `i`-th field added, and the walk past the last one ends at the used size. */
  lemma GetFieldMeaning(p: Packet, i: nat)
    requires p.Valid() && i <= |p.fields|
    ensures CanWalk(p.Image(), FTDC_HEADER_SIZE, i)
    ensures var q := Walk(p.Image(), FTDC_HEADER_SIZE, i);
            && q == FTDC_HEADER_SIZE + |Content(p.fields[..i])|
            && (i < |p.fields| ==> FieldFits(p.Image(), q) && FieldAt(p.Image(), q) == p.fields[i])
            && (i == |p.fields| ==> q == Size(p.Image()))
  {
    ImageHeader(p);
    ContentLowerBound(p.fields);
    LayoutHeader(p.HeaderStart(), |p.fields|, Content(p.fields));
    WalkContent(p.Image(), FTDC_HEADER_SIZE, p.fields, i);
    assert i == |p.fields| ==> p.fields[..i] == p.fields;
  }

  function FieldsFrom(b: Image, p: nat, n: nat): seq<Field>
    decreases n
  {
    if n == 0 || !FieldFits(b, p) then []
    else [FieldAt(b, p)] + FieldsFrom(b, p + FIELD_PREFIX + FieldLengthAt(b, p), n - 1)
  }

  function FieldsOf(b: Image): seq<Field> {
    FieldsFrom(b, FTDC_HEADER_SIZE, FieldCount(b))
  }

  /** Where all counted fields lie inside the buffer, `get_field(i)` shows the `i`-th of them. */
  lemma {:induction false} FieldsFromWalk(b: Image, p: nat, n: nat, i: nat)
    requires |FieldsFrom(b, p, n)| == n && i < n
    ensures CanWalk(b, p, i) && FieldFits(b, Walk(b, p, i))
    ensures FieldAt(b, Walk(b, p, i)) == FieldsFrom(b, p, n)[i]
    decreases n
  {
    hide FieldAt;
    if i == 0 {
    } else {
      FieldsFromWalk(b, p + FIELD_PREFIX + FieldLengthAt(b, p), n - 1, i - 1);
    }
  }

  lemma {:induction false} FieldsFromContent(b: Image, p: nat, fs: seq<Field>)
    requires p + |Content(fs)| <= |b| && b[p..p + |Content(fs)|] == Content(fs)
    ensures FieldsFrom(b, p, |fs|) == fs
    decreases |fs|
  {
    hide FieldAt, FieldLengthAt, EncodeField, FieldFits;
    if fs == [] {
    } else {
      FieldAtEncoded(b, p, fs[0], Content(fs[1..]));
      FieldsFromContent(b, p + EntitySize(fs[0]), fs[1..]);
      assert fs == [fs[0]] + fs[1..];
    }
  }

  /** Reading a well-formed buffer field by field gives back the fields put into it. */
  lemma FieldsOfImage(p: Packet)
    requires p.Valid()
    ensures FieldsOf(p.Image()) == p.fields
  {
    ImageHeader(p);
    ContentLowerBound(p.fields);
    LayoutHeader(p.HeaderStart(), |p.fields|, Content(p.fields));
    FieldsFromContent(p.Image(), FTDC_HEADER_SIZE, p.fields);
  }

  // ---- Every history of a buffer ----

  datatype Op =
    | Reset
    | AddField(field: Field)
    | SetHeader(version: byte, tid: uint32, chain: byte, seris: uint16, seqno: uint32)

  function Apply(b: Image, op: Op): Image {
    match op
    case Reset => Blank()
    case AddField(f) => if Fits(b, f) then AfterAdd(b, f) else b
    case SetHeader(v, t, c, r, n) => Overwrite(b, 0, Packet(v, t, c, r, n, []).HeaderStart())
  }

  function Meaning(p: Packet, op: Op): (q: Packet)
    requires p.Valid()
    ensures q.Valid()
  {
    match op
    case Reset => EMPTY
    case AddField(f) => if p.Add(f).Valid() then p.Add(f) else p
    case SetHeader(v, t, c, r, n) => Packet(v, t, c, r, n, p.fields)
  }

  function ApplyAll(b: Image, ops: seq<Op>): Image
    decreases |ops|
  {
    if ops == [] then b else ApplyAll(Apply(b, ops[0]), ops[1..])
  }

  function MeaningAll(p: Packet, ops: seq<Op>): (q: Packet)
    requires p.Valid()
    ensures q.Valid()
    decreases |ops|
  {
    if ops == [] then p else MeaningAll(Meaning(p, ops[0]), ops[1..])
  }

  lemma LayoutStart(start: bytes, start': bytes, p: Packet)
    requires |start| == |start'| == COUNT_AT && p.Valid()
    ensures |p.fields| < 0x1_0000
    ensures Overwrite(Layout(start, |p.fields|, Content(p.fields)), 0, start')
            == Layout(start', |p.fields|, Content(p.fields))
  {
    ContentLowerBound(p.fields);
  }

  lemma ApplyImage(p: Packet, op: Op)
    requires p.Valid()
    ensures Apply(p.Image(), op) == Meaning(p, op).Image()
  {
    match op
    case Reset => BlankIsEmptyPacket();
    case AddField(f) => AfterAddImage(p, f);
    case SetHeader(v, t, c, r, n) =>
      LayoutStart(p.HeaderStart(), Packet(v, t, c, r, n, []).HeaderStart(), p);
  }

  /** Whatever is done to a fresh buffer, its bytes are the image of the fields accepted since the last reset. */
  lemma {:induction false} HistoryImage(p: Packet, ops: seq<Op>)
    requires p.Valid()
    ensures ApplyAll(p.Image(), ops) == MeaningAll(p, ops).Image()
    decreases |ops|
  {
    if ops == [] {
    } else {
      ApplyImage(p, ops[0]);
      HistoryImage(Meaning(p, ops[0]), ops[1..]);
    }
  }

  lemma ReachableIsImage(ops: seq<Op>)
    ensures ApplyAll(Blank(), ops) == MeaningAll(EMPTY, ops).Image()
    ensures var b := ApplyAll(Blank(), ops);
            FIELD_PREFIX * FieldCount(b) <= ContentLength(b) <= FTDC_CONTENT_MAX_LENGTH
  {
    BlankIsEmptyPacket();
    HistoryImage(EMPTY, ops);
    ImageHeader(MeaningAll(EMPTY, ops));
  }

  /** A buffer is zero behind its used size, so its first `size()` bytes rebuild all of it. */
  lemma WirePrefixSuffices(p: Packet)
    requires p.Valid()
    ensures Size(p.Image()) <= FTDC_MAX_LENGTH
    ensures Overwrite(Blank(), 0, p.Image()[..Size(p.Image())]) == p.Image()
  {
    var b := p.Image();
    ImageHeader(p);
    ContentLowerBound(p.fields);
    LayoutHeader(p.HeaderStart(), |p.fields|, Content(p.fields));
    assert b == b[..Size(b)] + b[Size(b)..];
    assert Blank()[Size(b)..] == Zeros(FTDC_MAX_LENGTH - Size(b));
  }

  // ---- The class ----

  class FtdcBuffer {
    const buff: array<byte>

    predicate Valid() {
      buff.Length == FTDC_MAX_LENGTH
    }

    function Bytes(): Image
      requires Valid()
      reads buff
    {
      buff[..]
    }

    constructor ()
      ensures Valid() && fresh(buff) && Bytes() == Blank()
    {
      buff := new byte[FTDC_MAX_LENGTH](_ => 0 as char);
    }

    constructor FromBytes(src: Image)
      ensures Valid() && fresh(buff) && Bytes() == src
    {
      buff := new byte[FTDC_MAX_LENGTH](i requires 0 <= i < |src| => src[i]);
    }

    method Clear()
      requires Valid()
      modifies buff
      ensures Bytes() == Blank()
    {
      forall i | 0 <= i < buff.Length {
        buff[i] := 0 as char;
      }
    }

    method Assign(src: Image)
      requires Valid()
      modifies buff
      ensures Bytes() == src
    {
      forall i | 0 <= i < buff.Length {
        buff[i] := src[i];
      }
    }

    method SetChain(chain: byte)
      requires Valid()
      modifies buff
      ensures Bytes() == WithChain(old(Bytes()), chain)
    {
      buff[CHAIN_AT] := chain;
    }

    method SetHeader(version: byte, tid: uint32, chain: byte, seris: uint16, seqno: uint32)
      requires Valid()
      modifies buff
      ensures Bytes() == Apply(old(Bytes()), Op.SetHeader(version, tid, chain, seris, seqno))
    {
      Memcpy(buff, 0, Packet(version, tid, chain, seris, seqno, []).HeaderStart());
    }

    method AddField(f: Field) returns (added: bool)
      requires Valid()
      modifies buff
      ensures added == Fits(old(Bytes()), f)
      ensures Bytes() == Apply(old(Bytes()), Op.AddField(f))
    {
      var size := EntitySize(f);
      var used: nat := ContentLength(buff[..]);
      if used + size <= FTDC_CONTENT_MAX_LENGTH {
        var count: nat := FieldCount(buff[..]);
        Memcpy(buff, FTDC_HEADER_SIZE + used, EncodeField(f));
        Memcpy(buff, COUNT_AT, Le16((count + 1) % 0x1_0000));
        Memcpy(buff, LENGTH_AT, Le16(used + size));
        return true;
      }
      return false;
    }

    /** The offset the source's pointer would have, or None for its null pointer. */
    method GetField(index: uint16) returns (r: Option<nat>)
      requires Valid()
      requires index < FieldCount(Bytes()) ==> CanWalk(Bytes(), FTDC_HEADER_SIZE, index)
      ensures r == if index >= FieldCount(Bytes()) then None
                   else Some(Walk(Bytes(), FTDC_HEADER_SIZE, index))
    {
      if index >= FieldCount(Bytes()) {
        return None;
      }
      var p: nat := FTDC_HEADER_SIZE;
      for i := 0 to index
        invariant CanWalk(Bytes(), p, index - i)
        invariant Walk(Bytes(), p, index - i) == Walk(Bytes(), FTDC_HEADER_SIZE, index)
      {
        p := p + FIELD_PREFIX + FieldLengthAt(Bytes(), p);
      }
      return Some(p);
    }
  }
}
