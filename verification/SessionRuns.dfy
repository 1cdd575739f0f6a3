/** Whole runs of a session: requests read, replies written, and what the peer makes of them. */
module SessionRuns {
  import opened Bytes
  import opened Ftd
  import opened FtdcBuffers
  import opened SessionMachine
  import opened Wrappers

  /** A header, and the tags and packet bytes it announces: a request or a reply on the wire. */
  datatype Frame = Frame(header: FtdHeader, tags: bytes, body: bytes) {
    predicate Valid() {
      header.InRange() && |tags| == header.extendLength as int && |body| == header.ftdcLength
    }

    function Encode(): bytes {
      header.Encode() + tags + body
    }

    // The packet buffer after its bytes were read into it.
    function Loaded(): Image
      requires Valid()
    {
      Overwrite(Blank(), 0, body)
    }

    /** The length field counts a whole header and exactly the content behind it. */
    predicate Accepted() {
      && Valid()
      && |body| >= FTDC_HEADER_SIZE
      && ContentLength(Loaded()) == |body| - FTDC_HEADER_SIZE
    }
  }

  // The frame that carries the used bytes of a packet.
  function Carrying(kind: byte, tags: bytes, p: Packet): (f: Frame)
    requires |tags| <= FTD_EXTEND_HEADER_SIZE && p.Valid()
    ensures f.Valid()
  {
    ImageHeader(p);
    Frame(FtdHeader(kind, |tags| as char, Size(p.Image())), tags, p.Image()[..Size(p.Image())])
  }

  lemma EncodeDecoded(s: bytes)
    requires |s| == FTD_HEADER_SIZE
    ensures DecodeHeader(s).Encode() == s
  {
    assert Le16(FromLe16(s[2..])) == s[2..];
  }

  /** The frame a text begins with, if its header is in range and all it announces is there. */
  function FirstFrame(s: bytes): (r: Option<Frame>)
    ensures r.Some? ==> && r.value.Valid() && 0 < |r.value.Encode()| <= |s|
                        && s == r.value.Encode() + s[|r.value.Encode()|..]
  {
    if |s| < FTD_HEADER_SIZE then None
    else
      var hd := DecodeHeader(s[..FTD_HEADER_SIZE]);
      var tagsEnd := FTD_HEADER_SIZE + hd.extendLength as int;
      var end := tagsEnd + hd.ftdcLength;
      if !hd.InRange() || end > |s| then None
      else
        EncodeDecoded(s[..FTD_HEADER_SIZE]);
        var f := Frame(hd, s[FTD_HEADER_SIZE..tagsEnd], s[tagsEnd..end]);
        assert f.Encode() == s[..end];
        Some(f)
  }

  lemma FirstFrameFinds(f: Frame, rest: bytes)
    requires f.Valid()
    ensures FirstFrame(f.Encode() + rest) == Some(f)
  {
    hide FtdHeader.Encode, DecodeHeader;
    var s := f.Encode() + rest;
    var tagsEnd := FTD_HEADER_SIZE + |f.tags|;
    assert s[..FTD_HEADER_SIZE] == f.header.Encode();
    assert s[FTD_HEADER_SIZE..tagsEnd] == f.tags;
    assert s[tagsEnd..tagsEnd + |f.body|] == f.body;
    HeaderRoundTrip(f.header);
  }

  // A frame takes three operations: its header, its tags, its packet.
  const FRAME_STEPS: nat := 3

  // ---- Reading one request ----

  function Received(s: State, f: Frame, rest: bytes): State
    requires f.Valid()
  {
    s.(header := f.header, extend := f.tags + Zeros(FTD_EXTEND_HEADER_SIZE - |f.tags|), buffer := f.Loaded(),
       inbox := rest, pending := ReadFtdc)
  }

  lemma PollReadHeader(w: Wiring, h: Handler, s: State, hd: FtdHeader, rest: bytes)
    requires Inv(s) && s.pending.ReadHeader?
    requires hd.InRange() && s.inbox == hd.Encode() + rest
    ensures Poll(w, h, s) == s.(header := hd, inbox := rest, pending := ReadExtend)
  {
    assert s.inbox[..FTD_HEADER_SIZE] == hd.Encode() && s.inbox[FTD_HEADER_SIZE..] == rest;
    HeaderRoundTrip(hd);
  }

  lemma PollReadExtend(w: Wiring, h: Handler, s: State, tags: bytes, rest: bytes)
    requires Inv(s) && s.pending.ReadExtend?
    requires |tags| == s.header.extendLength as int && s.inbox == tags + rest
    ensures Poll(w, h, s) == s.(extend := tags + Zeros(FTD_EXTEND_HEADER_SIZE - |tags|), inbox := rest,
                                pending := ReadFtdc)
  {
    assert s.inbox[..|tags|] == tags && s.inbox[|tags|..] == rest;
    assert Overwrite(s.extend, 0, tags) == tags + Zeros(FTD_EXTEND_HEADER_SIZE - |tags|);
  }

  lemma PollReadFtdc(w: Wiring, h: Handler, s: State, body: bytes, rest: bytes)
    requires Inv(s) && s.pending.ReadFtdc?
    requires s.header.ftdcLength == |body| && s.inbox == body + rest
    ensures Poll(w, h, s) == HandleReadFtdc(w, h, s.(buffer := Overwrite(Blank(), 0, body), inbox := rest))
  {
    assert s.inbox[..|body|] == body && s.inbox[|body|..] == rest;
  }

  lemma RunThree(w: Wiring, h: Handler, s: State)
    requires Inv(s)
    ensures Inv(Poll(w, h, s)) && Inv(Poll(w, h, Poll(w, h, s)))
    ensures Run(w, h, s, FRAME_STEPS) == Poll(w, h, Poll(w, h, Poll(w, h, s)))
  {
    PollInv(w, h, s);
    PollInv(w, h, Poll(w, h, s));
    assert Run(w, h, s, FRAME_STEPS) == Run(w, h, Poll(w, h, s), 2);
    assert Run(w, h, Poll(w, h, s), 2) == Run(w, h, Poll(w, h, Poll(w, h, s)), 1);
  }

  /** Three completions consume a header and exactly the bytes it announces, whatever they are. */
  lemma ReadCycle(w: Wiring, h: Handler, s: State, f: Frame, rest: bytes)
    requires Inv(s) && s.pending.ReadHeader?
    requires f.Valid() && s.inbox == f.Encode() + rest
    ensures Run(w, h, s, FRAME_STEPS) == HandleReadFtdc(w, h, Received(s, f, rest))
  {
    hide Poll, Run, HandleReadFtdc, FtdHeader.Encode, Layout, Size, Overwrite;
    ConcatAssociates(f.header.Encode() + f.tags, f.body, rest);
    ConcatAssociates(f.header.Encode(), f.tags, f.body + rest);
    PollReadHeader(w, h, s, f.header, f.tags + (f.body + rest));
    RunThree(w, h, s);
    PollReadExtend(w, h, Poll(w, h, s), f.tags, f.body + rest);
    var s2 := Poll(w, h, Poll(w, h, s));
    PollReadFtdc(w, h, s2, f.body, rest);
    assert s2.(buffer := f.Loaded(), inbox := rest) == Received(s, f, rest);
  }

  /** The connection survives a request exactly when its length field counts a whole header and its content. */
  lemma ReadCycleAccepts(w: Wiring, h: Handler, s: State, f: Frame, rest: bytes)
    requires Inv(s) && s.pending.ReadHeader? && s.open
    requires f.Valid() && s.inbox == f.Encode() + rest
    ensures Run(w, h, s, FRAME_STEPS).open <==> f.Accepted()
  {
    ReadCycle(w, h, s, f, rest);
    AcceptanceArithmetic(f.body);
  }

  lemma CarriedIsAccepted(kind: byte, tags: bytes, p: Packet)
    requires |tags| <= FTD_EXTEND_HEADER_SIZE && p.Valid()
    ensures Carrying(kind, tags, p).Accepted() && Carrying(kind, tags, p).Loaded() == p.Image()
    ensures Carrying(kind, tags, p).Encode()
            == [kind, |tags| as char] + Le16(Size(p.Image())) + tags + p.Image()[..Size(p.Image())]
  {
    hide Layout, Overwrite;
    ImageHeader(p);
    WirePrefixSuffices(p);
  }

  /** The frame of a packet is accepted, and its packet rebuilt exactly, whatever follows it. */
  lemma ReadFrame(w: Wiring, h: Handler, s: State, kind: byte, tags: bytes, p: Packet, rest: bytes)
    requires Inv(s) && s.pending.ReadHeader?
    requires |tags| <= FTD_EXTEND_HEADER_SIZE && p.Valid()
    requires s.inbox == Carrying(kind, tags, p).Encode() + rest
    ensures Carrying(kind, tags, p).Accepted() && Carrying(kind, tags, p).Loaded() == p.Image()
    ensures Carrying(kind, tags, p).Encode()
            == [kind, |tags| as char] + Le16(Size(p.Image())) + tags + p.Image()[..Size(p.Image())]
    ensures Run(w, h, s, FRAME_STEPS)
            == HandleReadFtdc(w, h, s.(header := Carrying(kind, tags, p).header,
                                       extend := tags + Zeros(FTD_EXTEND_HEADER_SIZE - |tags|),
                                       buffer := p.Image(), inbox := rest, pending := ReadFtdc))
  {
    hide Run, HandleReadFtdc, FtdHeader.Encode, Layout, Overwrite;
    CarriedIsAccepted(kind, tags, p);
    ReadCycle(w, h, s, Carrying(kind, tags, p), rest);
  }

  // ---- Writing one answer ----

  /** A request and the buffers it is answered with: any bytes that are accepted, any buffers at all. */
  datatype Exchange = Exchange(request: Frame, answer: seq<Image>) {
    // The handler, given the request's buffer, returns exactly these buffers.
    predicate Of(h: Handler) {
      request.Accepted() && h(request.Loaded()) == answer
    }

    // The header announces no more bytes than a buffer has.
    predicate SendableAt(w: Wiring, k: nat)
      requires k < |answer|
    {
      w.refreshes ==> Size(answer[k]) <= FTDC_MAX_LENGTH
    }

    /** No header announces more bytes than a buffer has. */
    predicate Sendable(w: Wiring) {
      forall k :: 0 <= k < |answer| ==> SendableAt(w, k)
    }

    // What goes out for the `k`-th buffer: without the refresh, the header still counts the request's bytes.
    function Outgoing(w: Wiring, k: nat): (f: Frame)
      requires request.Valid() && k < |answer| && SendableAt(w, k)
      ensures f.Valid()
    {
      var length: uint16 := if w.refreshes then Size(answer[k]) else request.header.ftdcLength;
      Frame(request.header.(ftdcLength := length), request.tags,
            WithChain(answer[k], Label(|answer|, k))[..length])
    }

    // The bytes of the answer from its `k`-th buffer on.
    function Reply(w: Wiring, k: nat): bytes
      requires request.Valid() && Sendable(w) && k <= |answer|
      decreases |answer| - k
    {
      if k == |answer| then [] else Outgoing(w, k).Encode() + Reply(w, k + 1)
    }
  }

  lemma SendableEvery(w: Wiring, x: Exchange, k: nat)
    requires x.Sendable(w) && k < |x.answer|
    ensures x.SendableAt(w, k)
  {
  }

  lemma SendableUnder(w: Wiring, x: Exchange)
    requires x.Sendable(AS_MEANT)
    ensures x.Sendable(w)
  {
    forall k | 0 <= k < |x.answer| ensures x.SendableAt(w, k) {
      SendableEvery(AS_MEANT, x, k);
    }
  }

  // The session holds the answer to the request it has read.
  predicate Answering(w: Wiring, s: State, x: Exchange) {
    && s.open && x.request.Valid()
    && s.replies == x.answer
    && s.header.kind == x.request.header.kind && s.header.extendLength == x.request.header.extendLength
    && s.extend[..|x.request.tags|] == x.request.tags
    && (!w.refreshes ==> s.header == x.request.header)
  }

  /** The wiring carries an answer of this size through to its end. */
  predicate Completes(w: Wiring, n: nat) {
    w.finishes && (n == 1 ==> w.sendsSingle)
  }

  /** Writing takes the header, the tags and the announced bytes of the buffer, then the buffer is finished. */
  lemma WriteFrame(w: Wiring, h: Handler, s: State, f: Frame)
    requires Inv(s) && s.pending.WriteHeader? && w.finishes
    requires f.Valid() && s.header == f.header
    requires s.extend[..|f.tags|] == f.tags && s.buffer[..|f.body|] == f.body
    ensures var t := s.(outbox := s.outbox + f.Encode(), pending := WriteFtdc);
            Inv(t) && Run(w, h, s, FRAME_STEPS) == HandleWriteFtdc(w, t)
  {
    RunThree(w, h, s);
    ConcatAssociates(s.outbox, f.header.Encode(), f.tags);
    ConcatAssociates(s.outbox, f.header.Encode() + f.tags, f.body);
  }

  lemma SizeWithChain(b: Image, chain: byte)
    ensures Size(WithChain(b, chain)) == Size(b) && Chain(WithChain(b, chain)) == chain
  {
    assert WithChain(b, chain)[LENGTH_AT..LENGTH_AT + 2] == b[LENGTH_AT..LENGTH_AT + 2];
  }

  lemma ResponseSends(w: Wiring, s: State, x: Exchange, k: nat)
    requires Answering(w, s, x) && k < |x.answer| && Completes(w, |x.answer|) && x.SendableAt(w, k)
    requires s.index == if |x.answer| == 1 then 0 else k
    ensures var f, t := x.Outgoing(w, k), Response(w, s);
            && Inv(t) && Answering(w, t, x) && t.pending.WriteHeader?
            && t.header == f.header && t.buffer == WithChain(x.answer[k], Label(|x.answer|, k))
            && t.index == (if |x.answer| == 1 then 0 else k + 1)
            && t.inbox == s.inbox && t.outbox == s.outbox
  {
    SizeWithChain(x.answer[k], Label(|x.answer|, k));
    ResponseInv(w, s);
  }

  // Back to reading, with more written and nothing more consumed.
  predicate Served(s: State, t: State, sent: bytes) {
    t.pending.ReadHeader? && Inv(t) && t.open == s.open && t.inbox == s.inbox && t.outbox == s.outbox + sent
  }

  lemma ServedTwice(s: State, u: State, t: State, first: bytes, later: bytes)
    requires u.open == s.open && u.inbox == s.inbox && u.outbox == s.outbox + first
    requires Served(u, t, later)
    ensures Served(s, t, first + later)
  {
    ConcatAssociates(s.outbox, first, later);
  }

  lemma ReplyFrom(w: Wiring, x: Exchange, k: nat)
    requires x.request.Valid() && x.Sendable(w) && k < |x.answer|
    ensures x.Reply(w, k) == x.Outgoing(w, k).Encode() + x.Reply(w, k + 1)
    ensures k == |x.answer| - 1 ==> x.Reply(w, k) == x.Outgoing(w, k).Encode()
  {
  }

  /** One more buffer of the answer goes out; after the last one the session reads again. */
  lemma AnswerStep(w: Wiring, h: Handler, s: State, x: Exchange, k: nat) returns (u: State)
    requires Answering(w, s, x) && k < |x.answer| && Completes(w, |x.answer|) && x.SendableAt(w, k)
    requires s.index == if |x.answer| == 1 then 0 else k
    ensures x.request.Valid() && CanRespond(s) && Inv(Response(w, s))
    ensures u.open == s.open && u.inbox == s.inbox && u.outbox == s.outbox + x.Outgoing(w, k).Encode()
    ensures k == |x.answer| - 1 ==> Served(s, Run(w, h, Response(w, s), FRAME_STEPS), x.Outgoing(w, k).Encode())
    ensures k < |x.answer| - 1 ==> && Answering(w, u, x) && u.index == k + 1 && CanRespond(u)
                                   && Run(w, h, Response(w, s), FRAME_STEPS) == Response(w, u)
  {
    hide Run, Frame.Encode;
    var f, t := x.Outgoing(w, k), Response(w, s);
    ResponseSends(w, s, x, k);
    WriteFrame(w, h, t, f);
    u := t.(outbox := t.outbox + f.Encode(), pending := WriteFtdc);
    SizeWithChain(x.answer[k], Label(|x.answer|, k));
  }

  /** From the `k`-th buffer on, the session writes the rest of the answer and goes back to reading. */
  lemma {:induction false} WriteAnswer(w: Wiring, h: Handler, s: State, x: Exchange, k: nat) returns (n: nat)
    requires Answering(w, s, x) && k < |x.answer| && Completes(w, |x.answer|) && x.Sendable(w)
    requires s.index == if |x.answer| == 1 then 0 else k
    ensures n == FRAME_STEPS * (|x.answer| - k)
    ensures x.request.Valid() && CanRespond(s) && Inv(Response(w, s))
    ensures Served(s, Run(w, h, Response(w, s), n), x.Reply(w, k))
    decreases |x.answer| - k
  {
    hide *;
    SendableEvery(w, x, k);
    var u := AnswerStep(w, h, s, x, k);
    ReplyFrom(w, x, k);
    if k == |x.answer| - 1 {
      n := FRAME_STEPS;
    } else {
      var m := WriteAnswer(w, h, u, x, k + 1);
      n := FRAME_STEPS + m;
      RunTwice(w, h, Response(w, s), FRAME_STEPS, m);
      ServedTwice(s, u, Run(w, h, Response(w, s), n), x.Outgoing(w, k).Encode(), x.Reply(w, k + 1));
    }
  }

  // ---- Whole conversations ----

  predicate Conversation(h: Handler, xs: seq<Exchange>) {
    forall i :: 0 <= i < |xs| ==> xs[i].Of(h) && xs[i].answer != [] && xs[i].Sendable(AS_MEANT)
  }

  function Requests(h: Handler, xs: seq<Exchange>): bytes
    requires Conversation(h, xs)
  {
    if xs == [] then [] else xs[0].request.Encode() + Requests(h, xs[1..])
  }

  function Replies(h: Handler, xs: seq<Exchange>): bytes
    requires Conversation(h, xs)
  {
    if xs == [] then [] else xs[0].Reply(AS_MEANT, 0) + Replies(h, xs[1..])
  }

  // Where a session stands once it has accepted a request.
  lemma AcceptFrame(w: Wiring, h: Handler, s: State, x: Exchange, rest: bytes) returns (t: State)
    requires Inv(s) && s.pending.ReadHeader? && s.open
    requires x.Of(h) && s.inbox == x.request.Encode() + rest
    ensures t.index == 0 && t.inbox == rest && t.outbox == s.outbox && CanRespond(t)
    ensures Answering(w, t, x)
    ensures Run(w, h, s, FRAME_STEPS) == if w.responds then Response(w, t) else t.(pending := Idle)
  {
    hide Run, Response, Frame.Encode, Overwrite;
    ReadCycle(w, h, s, x.request, rest);
    AcceptanceArithmetic(x.request.body);
    t := Received(s, x.request, rest).(replies := x.answer);
  }

  /** One request answered with n buffers takes 3 + 3n completions and leaves the session reading again. */
  lemma ServeOne(w: Wiring, h: Handler, s: State, x: Exchange, rest: bytes) returns (n: nat)
    requires Inv(s) && s.pending.ReadHeader? && s.open
    requires x.Of(h) && x.answer != [] && s.inbox == x.request.Encode() + rest
    requires w.responds && Completes(w, |x.answer|) && x.Sendable(w)
    ensures x.request.Valid() && n == FRAME_STEPS + FRAME_STEPS * |x.answer|
    ensures Served(s.(inbox := rest), Run(w, h, s, n), x.Reply(w, 0))
  {
    hide Run, Response, Exchange.Reply, Answering;
    var t := AcceptFrame(w, h, s, x, rest);
    var m := WriteAnswer(w, h, t, x, 0);
    n := FRAME_STEPS + m;
    RunTwice(w, h, s, FRAME_STEPS, m);
  }

  lemma NoExchange(h: Handler, s: State, rest: bytes)
    requires Inv(s) && s.pending.ReadHeader?
    ensures Conversation(h, []) && Requests(h, []) == [] && Replies(h, []) == []
    ensures Run(AS_MEANT, h, s, 0) == s
    ensures s.inbox == rest ==> Served(s.(inbox := rest), s, [])
  {
  }

  lemma FirstExchange(h: Handler, xs: seq<Exchange>)
    requires Conversation(h, xs) && xs != []
    ensures xs[0].Of(h) && xs[0].answer != [] && xs[0].request.Valid() && xs[0].Sendable(AS_MEANT)
    ensures AS_MEANT.responds && Completes(AS_MEANT, |xs[0].answer|)
    ensures Conversation(h, xs[1..])
    ensures Requests(h, xs) == xs[0].request.Encode() + Requests(h, xs[1..])
    ensures Replies(h, xs) == xs[0].Reply(AS_MEANT, 0) + Replies(h, xs[1..])
  {
  }

  lemma ServedReads(s: State, t: State, sent: bytes)
    requires Served(s, t, sent)
    ensures t.pending.ReadHeader? && Inv(t) && t.open == s.open && t.inbox == s.inbox && t.outbox == s.outbox + sent
  {
  }

  /** Any number of requests, back to back, are all answered in order, and what follows them is not touched. */
  lemma {:induction false} ServeAll(h: Handler, s: State, xs: seq<Exchange>, rest: bytes) returns (n: nat)
    requires Inv(s) && s.pending.ReadHeader? && s.open
    requires Conversation(h, xs) && s.inbox == Requests(h, xs) + rest
    ensures Served(s.(inbox := rest), Run(AS_MEANT, h, s, n), Replies(h, xs))
    decreases |xs|
  {
    hide *;
    NoExchange(h, s, rest);
    if xs == [] {
      n := 0;
    } else {
      FirstExchange(h, xs);
      ConcatAssociates(xs[0].request.Encode(), Requests(h, xs[1..]), rest);
      var n1 := ServeOne(AS_MEANT, h, s, xs[0], Requests(h, xs[1..]) + rest);
      var t := Run(AS_MEANT, h, s, n1);
      ServedReads(s.(inbox := Requests(h, xs[1..]) + rest), t, xs[0].Reply(AS_MEANT, 0));
      var n2 := ServeAll(h, t, xs[1..], rest);
      n := n1 + n2;
      RunTwice(AS_MEANT, h, s, n1, n2);
      ServedTwice(s.(inbox := rest), t.(inbox := rest), Run(AS_MEANT, h, s, n),
                  xs[0].Reply(AS_MEANT, 0), Replies(h, xs[1..]));
    }
  }

  // ---- What the wiring decides ----

  lemma {:induction false} IdleForever(w: Wiring, h: Handler, s: State, n: nat)
    requires Inv(s) && s.pending.Idle?
    ensures Run(w, h, s, n) == s
    decreases n
  {
    if n == 0 {
    } else {
      IdleForever(w, h, s, n - 1);
    }
  }

  // A packet write that completes into itself is repeated for ever.
  lemma {:induction false} WritingForever(w: Wiring, h: Handler, s: State, n: nat)
    requires Inv(s) && s.pending.Writing() && !w.finishes
    ensures Run(w, h, s, n).pending.Writing()
    decreases n
  {
    if n == 0 {
    } else {
      PollInv(w, h, s);
      WritingForever(w, h, Poll(w, h, s), n - 1);
    }
  }

  function Repeated(b: bytes, n: nat): bytes {
    if n == 0 then [] else b + Repeated(b, n - 1)
  }

  /** Completing into itself, the packet write sends the packet again with every completion and changes nothing
      else. */
  lemma {:induction false} PacketRepeats(w: Wiring, h: Handler, s: State, n: nat)
    requires Inv(s) && s.pending.WriteFtdc? && !w.finishes && s.header.ftdcLength <= FTDC_MAX_LENGTH
    ensures Run(w, h, s, n) == s.(outbox := s.outbox + Repeated(s.buffer[..s.header.ftdcLength], n))
    decreases n
  {
    var b := s.buffer[..s.header.ftdcLength];
    if n == 0 {
      assert s.outbox + [] == s.outbox;
    } else {
      PollInv(w, h, s);
      PacketRepeats(w, h, Poll(w, h, s), n - 1);
      ConcatAssociates(s.outbox, b, Repeated(b, n - 1));
    }
  }

  /** A session whose read handler does not go on to respond never sends a byte, whatever it is sent. */
  lemma {:induction false} UnwiredIsSilent(w: Wiring, h: Handler, s: State, n: nat)
    requires Inv(s) && !s.pending.Writing() && !w.responds
    ensures Run(w, h, s, n).outbox == s.outbox
    decreases n
  {
    if n == 0 {
    } else {
      PollInv(w, h, s);
      UnwiredIsSilent(w, h, Poll(w, h, s), n - 1);
    }
  }

  /** As its handlers are written: from the first byte received, for ever, nothing is sent. */
  lemma AsWrittenIsSilent(h: Handler, inbox: bytes, n: nat)
    ensures Inv(Reading(true, inbox, []))
    ensures Run(AS_WRITTEN, h, Reading(true, inbox, []), n).outbox == []
  {
    UnwiredIsSilent(AS_WRITTEN, h, Reading(true, inbox, []), n);
  }

  // An answer is going out, and one of the buffers still to go announces more bytes than a buffer has.
  predicate Doomed(w: Wiring, s: State) {
    && Inv(s) && s.pending.Writing() && w.refreshes
    && s.header.ftdcLength == Size(s.buffer)
    && exists j :: (if |s.replies| == 1 then 0 else s.index - 1) <= j < |s.replies|
                   && Size(s.replies[j]) > FTDC_MAX_LENGTH
  }

  lemma DoomedStep(w: Wiring, h: Handler, s: State)
    requires Doomed(w, s)
    ensures Doomed(w, Poll(w, h, s))
  {
    PollInv(w, h, s);
    var n := |s.replies|;
    var now := if n == 1 then 0 else s.index - 1;
    SizeWithChain(s.replies[now], if n == 1 then FTDC_CHAIN_SINGLE else Label(n, now));
    var j :| now <= j < n && Size(s.replies[j]) > FTDC_MAX_LENGTH;
    if s.pending.WriteFtdc? && Enabled(s) && w.finishes {
      assert j != now;
      SizeWithChain(s.replies[s.index], Label(n, s.index));
    }
    assert Poll(w, h, s).replies[j] == s.replies[j];
  }

  lemma {:induction false} DoomedForever(w: Wiring, h: Handler, s: State, n: nat)
    requires Doomed(w, s)
    ensures Run(w, h, s, n).pending.Writing()
    decreases n
  {
    hide Poll, Inv;
    if n == 0 {
    } else {
      DoomedStep(w, h, s);
      DoomedForever(w, h, Poll(w, h, s), n - 1);
    }
  }

  lemma StuckWhenIncomplete(w: Wiring, h: Handler, s: State, x: Exchange, n: nat)
    requires Answering(w, s, x) && s.index == 0 && CanRespond(s)
    requires x.answer == [] || !Completes(w, |x.answer|) || !x.Sendable(w)
    ensures Inv(Response(w, s)) && !Run(w, h, Response(w, s), n).pending.ReadHeader?
  {
    ResponseInv(w, s);
    var t := Response(w, s);
    if t.pending.Idle? {
      IdleForever(w, h, t, n);
    } else if !w.finishes {
      WritingForever(w, h, t, n);
    } else {
      var j :| 0 <= j < |x.answer| && Size(x.answer[j]) > FTDC_MAX_LENGTH;
      assert Size(t.replies[j]) > FTDC_MAX_LENGTH;
      DoomedForever(w, h, t, n);
    }
  }

  lemma NotReading(w: Wiring, h: Handler, s: State, x: Exchange, rest: bytes, n: nat)
    requires Inv(s) && s.pending.ReadHeader? && s.open
    requires x.Of(h) && s.inbox == x.request.Encode() + rest
    requires !(w.responds && x.answer != [] && Completes(w, |x.answer|) && x.Sendable(w))
    ensures !Run(w, h, s, FRAME_STEPS + n).pending.ReadHeader?
  {
    hide Run, Response, Answering, Exchange.Of, Frame.Encode, Exchange.Sendable;
    var t := AcceptFrame(w, h, s, x, rest);
    RunTwice(w, h, s, FRAME_STEPS, n);
    if w.responds {
      StuckWhenIncomplete(w, h, t, x, n);
    } else {
      IdleForever(w, h, t.(pending := Idle), n);
    }
  }

  /** After accepting any request, whatever buffers answer it, the session ever reads again exactly when it is wired
      to respond, there is an answer, the wiring carries an answer of that size to its end, and no refreshed header
      announces more than a buffer. */
  lemma ReadsAgainIff(w: Wiring, h: Handler, s: State, x: Exchange, rest: bytes)
    requires Inv(s) && s.pending.ReadHeader? && s.open
    requires x.Of(h) && s.inbox == x.request.Encode() + rest
    ensures (exists n :: n >= FRAME_STEPS && Run(w, h, s, n).pending.ReadHeader?)
            <==> w.responds && x.answer != [] && Completes(w, |x.answer|) && x.Sendable(w)
  {
    hide *;
    if w.responds && x.answer != [] && Completes(w, |x.answer|) && x.Sendable(w) {
      var n := ServeOne(w, h, s, x, rest);
      ServedReads(s.(inbox := rest), Run(w, h, s, n), x.Reply(w, 0));
      assert n >= FRAME_STEPS && Run(w, h, s, n).pending.ReadHeader?;
    } else {
      forall n | n >= FRAME_STEPS ensures !Run(w, h, s, n).pending.ReadHeader? {
        NotReading(w, h, s, x, rest, n - FRAME_STEPS);
      }
    }
  }

  // Every buffer of the answer from the `k`-th on is as long as the request.
  predicate AllSameSize(x: Exchange, k: nat)
    requires x.request.Valid()
  {
    forall j :: k <= j < |x.answer| ==> Size(x.answer[j]) == |x.request.body|
  }

  // Frames that announce different lengths already differ in their headers.
  lemma EncodeInjective(f: Frame, g: Frame, a: bytes, b: bytes)
    requires f.Valid() && g.Valid() && f.header.ftdcLength != g.header.ftdcLength
    ensures f.Encode() + a != g.Encode() + b
  {
    hide FtdHeader.Encode;
    var u, v := f.Encode() + a, g.Encode() + b;
    assert u[..FTD_HEADER_SIZE] == f.header.Encode() && v[..FTD_HEADER_SIZE] == g.header.Encode();
    HeaderRoundTrip(f.header);
    HeaderRoundTrip(g.header);
  }

  lemma SameFrame(f: Frame, a: bytes, b: bytes)
    ensures f.Encode() + a == f.Encode() + b <==> a == b
  {
    hide Frame.Encode;
    assert (f.Encode() + a)[|f.Encode()|..] == a && (f.Encode() + b)[|f.Encode()|..] == b;
  }

  // The next buffer under two wirings, told apart by the length each announces.
  lemma NextOutgoing(w: Wiring, x: Exchange, k: nat)
    requires x.request.Valid() && x.Sendable(AS_MEANT) && k < |x.answer|
    ensures x.Sendable(w) && x.SendableAt(w, k) && x.SendableAt(AS_MEANT, k)
    ensures w.refreshes || Size(x.answer[k]) == |x.request.body|
            <==> x.Outgoing(w, k).header.ftdcLength == x.Outgoing(AS_MEANT, k).header.ftdcLength
    ensures x.Outgoing(w, k).header.ftdcLength == x.Outgoing(AS_MEANT, k).header.ftdcLength ==>
              x.Outgoing(w, k) == x.Outgoing(AS_MEANT, k)
    ensures AllSameSize(x, k) <==> Size(x.answer[k]) == |x.request.body| && AllSameSize(x, k + 1)
  {
    hide Size, WithChain;
    SendableUnder(w, x);
    SendableEvery(AS_MEANT, x, k);
  }

  /** Without refreshing the length, the right bytes go out exactly when every buffer of the answer is as long
      as the request. */
  lemma {:induction false} RightBytesIff(w: Wiring, x: Exchange, k: nat)
    requires x.request.Valid() && x.Sendable(AS_MEANT) && k <= |x.answer|
    ensures x.Sendable(w)
    ensures x.Reply(w, k) == x.Reply(AS_MEANT, k) <==> w.refreshes || AllSameSize(x, k)
    decreases |x.answer| - k, 1
  {
    SendableUnder(w, x);
    if k == |x.answer| {
      assert AllSameSize(x, k);
    } else {
      RightBytesStep(w, x, k);
    }
  }

  lemma RightBytesStep(w: Wiring, x: Exchange, k: nat)
    requires x.request.Valid() && x.Sendable(AS_MEANT) && k < |x.answer|
    ensures x.Sendable(w)
    ensures x.Reply(w, k) == x.Reply(AS_MEANT, k) <==> w.refreshes || AllSameSize(x, k)
    decreases |x.answer| - k, 0
  {
    hide *;
    RightBytesIff(w, x, k + 1);
    NextOutgoing(w, x, k);
    ReplyFrom(w, x, k);
    ReplyFrom(AS_MEANT, x, k);
    var f, g := x.Outgoing(w, k), x.Outgoing(AS_MEANT, k);
    if f.header.ftdcLength != g.header.ftdcLength {
      EncodeInjective(f, g, x.Reply(w, k + 1), x.Reply(AS_MEANT, k + 1));
    } else {
      SameFrame(f, x.Reply(w, k + 1), x.Reply(AS_MEANT, k + 1));
    }
  }

  const UNREFRESHED := AS_MEANT.(refreshes := false)

  // A request without content, answered with one field of one byte.
  function ShortRequest(): Exchange {
    var p := EMPTY.Add(Field(7, ['x']));
    assert p.Valid() by {
      ContentSnoc([], Field(7, ['x']));
    }
    Exchange(Frame(FtdHeader('S', 0 as char, FTDC_HEADER_SIZE), [], Zeros(FTDC_HEADER_SIZE)), [p.Image()])
  }

  /** That request is accepted, and its answer goes out without its field: 16 bytes of 23 behind the header. */
  lemma ShortRequestCutsReply()
    ensures var x := ShortRequest();
            && x.request.Accepted() && x.Sendable(AS_MEANT) && x.Sendable(UNREFRESHED)
            && |x.Reply(AS_MEANT, 0)| == FTD_HEADER_SIZE + FTDC_HEADER_SIZE + FIELD_PREFIX + 1
            && |x.Reply(UNREFRESHED, 0)| == FTD_HEADER_SIZE + FTDC_HEADER_SIZE
            && x.Reply(UNREFRESHED, 0) != x.Reply(AS_MEANT, 0)
  {
    hide Layout;
    var x, p := ShortRequest(), EMPTY.Add(Field(7, ['x']));
    ContentSnoc([], Field(7, ['x']));
    ImageHeader(p);
    assert x.request.Loaded() == Blank();
  }
}
