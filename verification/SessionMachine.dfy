/** One client connection as a machine over its input and output bytes. */
module SessionMachine {
  import opened Bytes
  import opened Ftd
  import opened FtdcBuffers

  // `extend_length` is a signed char and `ftdc_length` a signed short; both are kept as the
  // unsigned numbers they equal when in range.
  datatype FtdHeader = FtdHeader(kind: byte, extendLength: byte, ftdcLength: uint16) {
    predicate InRange() {
      extendLength as int <= FTD_EXTEND_HEADER_SIZE && ftdcLength <= FTDC_MAX_LENGTH
    }

    function Encode(): (s: bytes)
      ensures |s| == FTD_HEADER_SIZE
    {
      [kind, extendLength] + Le16(ftdcLength)
    }
  }

  function DecodeHeader(s: bytes): FtdHeader
    requires |s| == FTD_HEADER_SIZE
  {
    FtdHeader(s[0], s[1], FromLe16(s[2..]))
  }

  lemma HeaderRoundTrip(h: FtdHeader)
    ensures DecodeHeader(h.Encode()) == h
  {
    Le16RoundTrip(h.ftdcLength);
    assert h.Encode()[2..] == Le16(h.ftdcLength);
  }

  /** The type, the length of the tags, and the length of the packet with its low byte first. */
  lemma HeaderBytes(h: FtdHeader)
    ensures var s := h.Encode();
            && |s| == 4 && s[0] == h.kind && s[1] == h.extendLength
            && s[2] as int + 0x100 * s[3] as int == h.ftdcLength
  {
  }

  /** At most 127 bytes of tags and 4096 of a packet. */
  lemma HeaderLimits(h: FtdHeader)
    ensures h.InRange() <==> h.extendLength as int <= 127 && h.ftdcLength <= 4096
  {
  }

  type Tags = s: bytes | |s| == FTD_EXTEND_HEADER_SIZE witness Zeros(FTD_EXTEND_HEADER_SIZE)

  type Handler = Image -> seq<Image>

  /** Which of the four steps the answering side needs are wired up.  The source has none of them:
      responds     - the read handler goes on to `response()` once it has the answer
      sendsSingle  - `response()` starts a write for a single-buffer answer too
      finishes     - the packet write completes into `handle_write_ftdc`
      refreshes    - the header announces the length of the buffer going out */
  datatype Wiring = Wiring(responds: bool, sendsSingle: bool, finishes: bool, refreshes: bool)

  const AS_WRITTEN := Wiring(false, false, false, false)

  const AS_MEANT := Wiring(true, true, true, true)

  // The asynchronous operation whose completion handler runs next.
  datatype Pending = ReadHeader | ReadExtend | ReadFtdc | WriteHeader | WriteExtend | WriteFtdc | Idle {
    predicate Writing() {
      WriteHeader? || WriteExtend? || WriteFtdc?
    }
  }

  datatype State = State(header: FtdHeader, extend: Tags, buffer: Image, replies: seq<Image>, index: nat,
                         pending: Pending, open: bool, inbox: bytes, outbox: bytes)

  // ---- The handlers ----

  const NO_HEADER := FtdHeader(0 as char, 0 as char, 0)

  function Reading(open: bool, inbox: bytes, outbox: bytes): State {
    State(NO_HEADER, Zeros(FTD_EXTEND_HEADER_SIZE), Blank(), [], 0, ReadHeader, open, inbox, outbox)
  }

  /** All of the session's members are cleared. */
  lemma ReadingIsReset(open: bool, inbox: bytes, outbox: bytes)
    ensures var s := Reading(open, inbox, outbox);
            && s.header.Encode() == Zeros(4) && s.extend == Zeros(127) && s.buffer == Zeros(4096)
            && s.replies == [] && s.index == 0
  {
  }

  function Start(s: State): State {
    Reading(s.open, s.inbox, s.outbox)
  }

  function Label(n: nat, k: nat): byte {
    if n == 1 then FTDC_CHAIN_SINGLE
    else if k == 0 then FTDC_CHAIN_FIRST
    else if k == n - 1 then FTDC_CHAIN_LAST
    else FTDC_CHAIN_MIDDLE
  }

  function Send(w: Wiring, s: State, image: Image, chain: byte, index: nat): State {
    var b := WithChain(image, chain);
    s.(buffer := b, index := index, pending := WriteHeader,
       header := if w.refreshes then s.header.(ftdcLength := Size(b)) else s.header)
  }

  predicate CanRespond(s: State) {
    |s.replies| > 1 ==> s.index < |s.replies|
  }

  function Response(w: Wiring, s: State): State
    requires CanRespond(s)
  {
    var n := |s.replies|;
    if n == 1 then
      var t := Send(w, s, s.replies[0], FTDC_CHAIN_SINGLE, s.index);
      if w.sendsSingle then t else t.(pending := Idle)
    else if n > 1 then
      Send(w, s, s.replies[s.index], Label(n, s.index), s.index + 1)
    else
      s.(pending := Idle)
  }

  function HandleReadFtdc(w: Wiring, h: Handler, s: State): State
    requires s.index == 0
  {
    if s.header.ftdcLength != Size(s.buffer) then
      s.(open := false, pending := Idle)
    else
      var answered := s.(replies := h(s.buffer));
      if w.responds then Response(w, answered) else answered.(pending := Idle)
  }

  // The buffer going out is a labelled copy of the reply the index has just passed.
  predicate Sending(header: FtdHeader, buffer: Image, replies: seq<Image>, index: nat) {
    && replies != []
    && header.extendLength as int <= FTD_EXTEND_HEADER_SIZE
    && (if |replies| == 1 then
          index == 0 && buffer == WithChain(replies[0], FTDC_CHAIN_SINGLE)
        else
          1 <= index <= |replies| && buffer == WithChain(replies[index - 1], Label(|replies|, index - 1)))
  }

  /** What holds between any two completions. */
  predicate Inv(s: State) {
    && (!s.open ==> s.pending.Idle?)
    && (s.pending.ReadHeader? ==> s == Start(s))
    && (s.pending.ReadExtend? ==> s == Start(s).(header := s.header, pending := ReadExtend) && s.header.InRange())
    && (s.pending.ReadFtdc? ==> && s == Start(s).(header := s.header, extend := s.extend, pending := ReadFtdc)
                                && s.header.InRange())
    && (s.pending.Writing() ==> Sending(s.header, s.buffer, s.replies, s.index))
  }

  function HandleWriteFtdc(w: Wiring, s: State): State
    requires Inv(s) && s.pending.WriteFtdc?
  {
    if Chain(s.buffer) == FTDC_CHAIN_SINGLE || Chain(s.buffer) == FTDC_CHAIN_LAST then Start(s) else Response(w, s)
  }

  // ---- Completing the pending operation ----

  function Wanted(s: State): nat
    requires Inv(s)
  {
    match s.pending
    case ReadHeader => FTD_HEADER_SIZE
    case ReadExtend => s.header.extendLength as int
    case ReadFtdc => s.header.ftdcLength
    case _ => 0
  }

  // A length outside its buffer makes the source touch memory it does not own: such a
  // header, read or about to be written, stops the machine.
  predicate Enabled(s: State)
    requires Inv(s)
  {
    && !s.pending.Idle?
    && Wanted(s) <= |s.inbox|
    && (s.pending.ReadHeader? ==> DecodeHeader(s.inbox[..FTD_HEADER_SIZE]).InRange())
    && (s.pending.WriteFtdc? ==> s.header.ftdcLength <= FTDC_MAX_LENGTH)
  }

  function Poll(w: Wiring, h: Handler, s: State): State
    requires Inv(s)
  {
    if !Enabled(s) then s else
    var got, left := s.inbox[..Wanted(s)], s.inbox[Wanted(s)..];
    match s.pending
    case ReadHeader => s.(header := DecodeHeader(got), inbox := left, pending := ReadExtend)
    case ReadExtend => s.(extend := Overwrite(s.extend, 0, got), inbox := left, pending := ReadFtdc)
    case ReadFtdc => HandleReadFtdc(w, h, s.(buffer := Overwrite(s.buffer, 0, got), inbox := left))
    case WriteHeader => s.(outbox := s.outbox + s.header.Encode(), pending := WriteExtend)
    case WriteExtend => s.(outbox := s.outbox + s.extend[..s.header.extendLength as int], pending := WriteFtdc)
    case WriteFtdc =>
      var t := s.(outbox := s.outbox + s.buffer[..s.header.ftdcLength]);
      if w.finishes then HandleWriteFtdc(w, t) else t
    case Idle => s
  }

  lemma ResponseInv(w: Wiring, s: State)
    requires s.open && s.header.extendLength as int <= FTD_EXTEND_HEADER_SIZE
    requires if |s.replies| > 1 then s.index < |s.replies| else s.index == 0
    ensures Inv(Response(w, s))
  {
  }

  lemma HandleWriteFtdcInv(w: Wiring, s: State)
    requires Inv(s) && s.pending.WriteFtdc?
    ensures Inv(HandleWriteFtdc(w, s))
  {
    var n := |s.replies|;
    if n > 1 {
      assert Chain(s.buffer) == Label(n, s.index - 1);
      if s.index < n {
        ResponseInv(w, s);
      }
    }
  }

  /** No step of any run leaves the invariant; in particular no reply is ever indexed out of range. */
  lemma PollInv(w: Wiring, h: Handler, s: State)
    requires Inv(s)
    ensures Inv(Poll(w, h, s))
  {
    if Enabled(s) {
      match s.pending
      case ReadFtdc =>
        var read := s.(buffer := Overwrite(s.buffer, 0, s.inbox[..Wanted(s)]), inbox := s.inbox[Wanted(s)..]);
        ResponseInv(w, read.(replies := h(read.buffer)));
      case WriteFtdc =>
        HandleWriteFtdcInv(w, s.(outbox := s.outbox + s.buffer[..s.header.ftdcLength]));
      case _ =>
    }
  }

  function Run(w: Wiring, h: Handler, s: State, n: nat): (t: State)
    requires Inv(s)
    ensures Inv(t)
    decreases n
  {
    if n == 0 then s else PollInv(w, h, s); Run(w, h, Poll(w, h, s), n - 1)
  }

  lemma {:induction false} RunTwice(w: Wiring, h: Handler, s: State, n: nat, m: nat)
    requires Inv(s)
    ensures Run(w, h, s, n + m) == Run(w, h, Run(w, h, s, n), m)
    decreases n
  {
    if n == 0 {
    } else {
      PollInv(w, h, s);
      RunTwice(w, h, Poll(w, h, s), n - 1, m);
    }
  }

  // ---- The length test ----

  /** A request passes the length test exactly when its header arrived whole and counts the content behind it. */
  lemma AcceptanceArithmetic(got: bytes)
    requires |got| <= FTDC_MAX_LENGTH
    ensures var b := Overwrite(Blank(), 0, got);
            Size(b) == |got| <==> |got| >= FTDC_HEADER_SIZE && ContentLength(b) == |got| - FTDC_HEADER_SIZE
  {
    var b := Overwrite(Blank(), 0, got);
    if |got| < FTDC_HEADER_SIZE {
      // The high length byte is still zero, so the size is between 16 and 271.
      assert b[15] == Blank()[15];
    }
  }
}
