/** The peer's side: cutting the output into frames, and the frames into answers by their chain bytes. */
module ChainClient {
  import opened Bytes
  import opened Decimal
  import opened Ftd
  import opened FtdcBuffers
  import opened Wrappers
  import opened SessionMachine
  import opened SessionRuns

  // ---- Chain labels ----

  /** The chain bytes of one answer of `n` buffers, from its `k`-th on. */
  function Labels(n: nat, k: nat): (ls: bytes)
    requires k <= n
    ensures |ls| == n - k
    decreases n - k
  {
    if k == n then [] else [Label(n, k)] + Labels(n, k + 1)
  }

  lemma {:induction false} LaterLabels(n: nat, k: nat)
    requires 1 <= k < n
    ensures Labels(n, k) == Fill('C', n - 1 - k) + ['L']
    decreases n - k
  {
    if k == n - 1 {
      assert Labels(n, n) == [] && Fill('C', 0) + ['L'] == ['L'];
    } else {
      LaterLabels(n, k + 1);
      assert ['C'] + Fill('C', n - 2 - k) == Fill('C', n - 1 - k);
      ConcatAssociates(['C'], Fill('C', n - 2 - k), ['L']);
    }
  }

  /** A single buffer is marked `S`; of several the first `F`, the last `L` and all between them `C`. */
  lemma AnswerLetters(n: nat)
    requires n >= 1
    ensures Labels(n, 0) == if n == 1 then ['S'] else ['F'] + Fill('C', n - 2) + ['L']
  {
    if n > 1 {
      LaterLabels(n, 1);
      ConcatAssociates(['F'], Fill('C', n - 2), ['L']);
    }
  }

  function AllLabels(ns: seq<nat>): bytes {
    if ns == [] then [] else Labels(ns[0], 0) + AllLabels(ns[1..])
  }

  function Prepend(n: nat, r: Option<seq<nat>>): Option<seq<nat>> {
    if r.Some? then Some([n] + r.value) else None
  }

  // Counts the buffers up to the next `L`, `seen` of them already read.
  function Cut(ls: bytes, seen: nat): Option<seq<nat>> {
    if ls == [] then
      if seen == 0 then Some([]) else None
    else if seen == 0 && ls[0] == FTDC_CHAIN_SINGLE then Prepend(1, Cut(ls[1..], 0))
    else if seen == 0 && ls[0] == FTDC_CHAIN_FIRST then Cut(ls[1..], 1)
    else if seen > 0 && ls[0] == FTDC_CHAIN_MIDDLE then Cut(ls[1..], seen + 1)
    else if seen > 0 && ls[0] == FTDC_CHAIN_LAST then Prepend(seen + 1, Cut(ls[1..], 0))
    else None
  }

  predicate Positive(ns: seq<nat>) {
    forall i :: 0 <= i < |ns| ==> ns[i] >= 1
  }

  lemma {:induction false} CutOneAnswer(n: nat, k: nat, ls: bytes)
    requires n >= 1 && k < n
    ensures Cut(Labels(n, k) + ls, k) == Prepend(n, Cut(ls, 0))
    decreases n - k
  {
    var rest := Labels(n, k + 1) + ls;
    assert Labels(n, k) + ls == [Label(n, k)] + rest;
    assert ([Label(n, k)] + rest)[1..] == rest;
    if k == n - 1 {
      assert rest == ls;
    } else {
      CutOneAnswer(n, k + 1, ls);
    }
  }

  /** The labels of any run of answers determine how many there were and how long each was. */
  lemma {:induction false} CutLabels(ns: seq<nat>)
    requires Positive(ns)
    ensures Cut(AllLabels(ns), 0) == Some(ns)
  {
    if ns == [] {
    } else {
      CutOneAnswer(ns[0], 0, AllLabels(ns[1..]));
      CutLabels(ns[1..]);
      assert ns == [ns[0]] + ns[1..];
    }
  }

  /** Nothing but the labels of a run of answers is ever cut into answers. */
  lemma {:induction false} CutOnlyLabels(ls: bytes, seen: nat)
    requires Cut(ls, seen).Some?
    ensures var ns := Cut(ls, seen).value;
            && Positive(ns)
            && (seen == 0 ==> ls == AllLabels(ns))
            && (seen > 0 ==> && ns != [] && ns[0] > seen
                             && ls == Labels(ns[0], seen) + AllLabels(ns[1..]))
    decreases |ls|
  {
    if ls == [] {
    } else {
      var tail, ns := ls[1..], Cut(ls, seen).value;
      assert ls == [ls[0]] + tail;
      if seen == 0 && ls[0] == FTDC_CHAIN_SINGLE {
        CutOnlyLabels(tail, 0);
        assert ns[1..] == Cut(tail, 0).value;
        assert Labels(1, 0) == [ls[0]];
      } else if seen == 0 {
        CutOnlyLabels(tail, 1);
        assert Labels(ns[0], 0) + AllLabels(ns[1..]) == [ls[0]] + (Labels(ns[0], 1) + AllLabels(ns[1..]));
      } else if ls[0] == FTDC_CHAIN_MIDDLE {
        CutOnlyLabels(tail, seen + 1);
        assert Labels(ns[0], seen) + AllLabels(ns[1..])
            == [ls[0]] + (Labels(ns[0], seen + 1) + AllLabels(ns[1..]));
      } else {
        CutOnlyLabels(tail, 0);
        assert ns[1..] == Cut(tail, 0).value;
        assert Labels(seen + 1, seen) == [ls[0]];
      }
    }
  }

  // ---- Frames ----

  datatype Message = Message(kind: byte, tags: bytes, image: Image)

  function Cons(m: Message, r: Option<seq<Message>>): Option<seq<Message>> {
    if r.Some? then Some([m] + r.value) else None
  }

  function MessageOf(f: Frame): Message
    requires f.Valid()
  {
    Message(f.header.kind, f.tags, f.Loaded())
  }

  function ParseFrames(bs: bytes): Option<seq<Message>>
    decreases |bs|
  {
    if bs == [] then Some([])
    else
      var f := FirstFrame(bs);
      if f.None? then None else Cons(MessageOf(f.value), ParseFrames(bs[|f.value.Encode()|..]))
  }

  /** The peer takes exactly one frame off its input, and loads its packet bytes as a session would. */
  lemma ParseFrame(f: Frame, rest: bytes)
    requires f.Valid()
    ensures MessageOf(f) == Message(f.header.kind, f.tags, Overwrite(Blank(), 0, f.body))
    ensures ParseFrames(f.Encode() + rest)
            == Cons(Message(f.header.kind, f.tags, Overwrite(Blank(), 0, f.body)), ParseFrames(rest))
  {
    hide Frame.Encode, FirstFrame, Overwrite;
    FirstFrameFinds(f, rest);
    assert (f.Encode() + rest)[|f.Encode()|..] == rest;
  }

  /** The messages one answer amounts to, from its `k`-th buffer on. */
  function AnswerMessages(x: Exchange, k: nat): seq<Message>
    requires x.request.Valid() && x.Sendable(AS_MEANT) && k <= |x.answer|
    decreases |x.answer| - k
  {
    if k == |x.answer| then [] else [MessageOf(x.Outgoing(AS_MEANT, k))] + AnswerMessages(x, k + 1)
  }

  lemma NoMoreMessages(x: Exchange, rest: bytes)
    requires x.request.Valid() && x.Sendable(AS_MEANT) && ParseFrames(rest).Some?
    ensures ParseFrames(x.Reply(AS_MEANT, |x.answer|) + rest)
            == Some(AnswerMessages(x, |x.answer|) + ParseFrames(rest).value)
  {
    hide ParseFrames, Exchange.Sendable, Frame.Valid;
    assert [] + rest == rest;
    assert AnswerMessages(x, |x.answer|) + ParseFrames(rest).value == ParseFrames(rest).value;
  }

  lemma NextMessage(x: Exchange, k: nat)
    requires x.request.Valid() && x.Sendable(AS_MEANT) && k < |x.answer|
    ensures var f := x.Outgoing(AS_MEANT, k);
            && AnswerMessages(x, k) == [MessageOf(f)] + AnswerMessages(x, k + 1)
            && x.Reply(AS_MEANT, k) == f.Encode() + x.Reply(AS_MEANT, k + 1)
            && Labels(|x.answer|, k) == [Label(|x.answer|, k)] + Labels(|x.answer|, k + 1)
  {
    hide Frame.Encode, Overwrite;
  }

  lemma ConsSome(m: Message, ms: seq<Message>, later: seq<Message>)
    ensures Cons(m, Some(ms + later)) == Some([m] + ms + later)
  {
    ConcatAssociates([m], ms, later);
  }

  lemma {:induction false} ParseAnswer(x: Exchange, k: nat, rest: bytes)
    requires x.request.Valid() && x.Sendable(AS_MEANT) && k <= |x.answer|
    requires ParseFrames(rest).Some?
    ensures ParseFrames(x.Reply(AS_MEANT, k) + rest)
            == Some(AnswerMessages(x, k) + ParseFrames(rest).value)
    decreases |x.answer| - k
  {
    hide *;
    NoMoreMessages(x, rest);
    if k >= |x.answer| {
    } else {
      SendableEvery(AS_MEANT, x, k);
      var f := x.Outgoing(AS_MEANT, k);
      var more := x.Reply(AS_MEANT, k + 1);
      NextMessage(x, k);
      ConcatAssociates(f.Encode(), more, rest);
      ParseFrame(f, more + rest);
      ParseAnswer(x, k + 1, rest);
      ConsSome(MessageOf(f), AnswerMessages(x, k + 1), ParseFrames(rest).value);
    }
  }

  function AllMessages(h: Handler, xs: seq<Exchange>): seq<Message>
    requires Conversation(h, xs)
  {
    if xs == [] then [] else AnswerMessages(xs[0], 0) + AllMessages(h, xs[1..])
  }

  lemma {:induction false} ParseReplies(h: Handler, xs: seq<Exchange>)
    requires Conversation(h, xs)
    ensures ParseFrames(Replies(h, xs)) == Some(AllMessages(h, xs))
    decreases |xs|
  {
    if xs == [] {
    } else {
      ParseReplies(h, xs[1..]);
      ParseAnswer(xs[0], 0, Replies(h, xs[1..]));
    }
  }

  // ---- How the messages are grouped ----

  function ChainBytes(ms: seq<Message>): bytes {
    if ms == [] then [] else [Chain(ms[0].image)] + ChainBytes(ms[1..])
  }

  function Sizes(xs: seq<Exchange>): seq<nat> {
    if xs == [] then [] else [|xs[0].answer|] + Sizes(xs[1..])
  }

  // Every buffer of the answer is announced as long enough to show its chain byte.
  predicate Labelled(x: Exchange) {
    forall k :: 0 <= k < |x.answer| ==> Size(x.answer[k]) > CHAIN_AT
  }

  predicate AllLabelled(xs: seq<Exchange>) {
    forall i :: 0 <= i < |xs| ==> Labelled(xs[i])
  }

  // The chain bytes the peer sees of an answer: nothing but zero behind the bytes that were sent.
  function SeenLabels(x: Exchange, k: nat): (ls: bytes)
    requires k <= |x.answer|
    ensures |ls| == |x.answer| - k
    decreases |x.answer| - k
  {
    if k == |x.answer| then []
    else [if Size(x.answer[k]) > CHAIN_AT then Label(|x.answer|, k) else 0 as char] + SeenLabels(x, k + 1)
  }

  lemma LabelArrives(x: Exchange, k: nat)
    requires x.request.Valid() && x.Sendable(AS_MEANT) && k < |x.answer|
    ensures Chain(x.Outgoing(AS_MEANT, k).Loaded())
            == if Size(x.answer[k]) > CHAIN_AT then Label(|x.answer|, k) else 0 as char
  {
  }

  lemma {:induction false} AnswerLabels(x: Exchange, k: nat, ms: seq<Message>)
    requires x.request.Valid() && x.Sendable(AS_MEANT) && k <= |x.answer|
    ensures ChainBytes(AnswerMessages(x, k) + ms) == SeenLabels(x, k) + ChainBytes(ms)
    decreases |x.answer| - k
  {
    hide Chain, Exchange.Outgoing, Exchange.Sendable, Overwrite, Label;
    if k == |x.answer| {
      assert AnswerMessages(x, k) + ms == ms;
    } else {
      SendableEvery(AS_MEANT, x, k);
      var m := MessageOf(x.Outgoing(AS_MEANT, k));
      LabelArrives(x, k);
      AnswerLabels(x, k + 1, ms);
      ConcatAssociates([m], AnswerMessages(x, k + 1), ms);
      assert ([m] + (AnswerMessages(x, k + 1) + ms))[1..] == AnswerMessages(x, k + 1) + ms;
      ConcatAssociates([SeenLabels(x, k)[0]], SeenLabels(x, k + 1), ChainBytes(ms));
    }
  }

  lemma {:induction false} SeenAreLabels(x: Exchange, k: nat)
    requires k <= |x.answer|
    ensures Labelled(x) ==> SeenLabels(x, k) == Labels(|x.answer|, k)
    ensures !Labelled(x) && (forall j :: 0 <= j < k ==> Size(x.answer[j]) > CHAIN_AT) ==> 0 as char in SeenLabels(x, k)
    decreases |x.answer| - k
  {
    hide Label;
    if k == |x.answer| {
    } else {
      SeenAreLabels(x, k + 1);
      assert SeenLabels(x, k) == [SeenLabels(x, k)[0]] + SeenLabels(x, k + 1);
    }
  }

  // A zero is no label: no answer can be cut off a text that holds one.
  lemma {:induction false} CutNeedsLabels(ls: bytes, seen: nat)
    requires 0 as char in ls
    ensures Cut(ls, seen) == None
  {
    if ls[0] == 0 as char {
    } else {
      assert 0 as char in ls[1..];
      CutNeedsLabels(ls[1..], 0);
      CutNeedsLabels(ls[1..], 1);
      CutNeedsLabels(ls[1..], seen + 1);
    }
  }

  lemma FirstMessages(h: Handler, xs: seq<Exchange>)
    requires Conversation(h, xs) && xs != []
    ensures Conversation(h, xs[1..]) && xs[0].request.Valid() && xs[0].Sendable(AS_MEANT) && xs[0].answer != []
    ensures AllMessages(h, xs) == AnswerMessages(xs[0], 0) + AllMessages(h, xs[1..])
  {
    hide AnswerMessages, Exchange.Sendable;
  }

  lemma FirstSizes(xs: seq<Exchange>)
    requires xs != [] && xs[0].answer != []
    ensures AllLabels(Sizes(xs)) == Labels(|xs[0].answer|, 0) + AllLabels(Sizes(xs[1..]))
    ensures Positive(Sizes(xs[1..])) ==> Positive(Sizes(xs))
  {
    hide Labels;
    assert Sizes(xs)[1..] == Sizes(xs[1..]);
  }

  lemma FirstLabelled(xs: seq<Exchange>)
    requires xs != []
    ensures AllLabelled(xs) <==> Labelled(xs[0]) && AllLabelled(xs[1..])
  {
    hide Labelled;
    assert xs == [xs[0]] + xs[1..];
  }

  lemma {:induction false} ConversationLabels(h: Handler, xs: seq<Exchange>)
    requires Conversation(h, xs)
    ensures AllLabelled(xs) ==> ChainBytes(AllMessages(h, xs)) == AllLabels(Sizes(xs))
    ensures !AllLabelled(xs) ==> 0 as char in ChainBytes(AllMessages(h, xs))
    ensures Positive(Sizes(xs))
    decreases |xs|
  {
    if xs == [] {
    } else {
      hide *;
      FirstMessages(h, xs);
      FirstSizes(xs);
      FirstLabelled(xs);
      AnswerLabels(xs[0], 0, AllMessages(h, xs[1..]));
      SeenAreLabels(xs[0], 0);
      ConversationLabels(h, xs[1..]);
    }
  }

  lemma ReadingReads(inbox: bytes)
    ensures var s := Reading(true, inbox, []);
            Inv(s) && s.pending.ReadHeader? && s.open && s.inbox == inbox && s.outbox == []
  {
  }

  lemma ServedIsReading(s: State, t: State, rest: bytes, sent: bytes)
    requires s.open && s.outbox == [] && Served(s.(inbox := rest), t, sent)
    ensures t == Reading(true, rest, sent)
  {
    assert [] + sent == sent;
  }

  /** From the bytes a session sent, whatever buffers its handler returned, its peer recovers the used bytes of every
      one; and which answer each belongs to exactly when all of them are long enough to show their chain byte. */
  lemma PeerRecoversBuffers(h: Handler, s: State, xs: seq<Exchange>, rest: bytes) returns (n: nat)
    requires Conversation(h, xs) && s == Reading(true, Requests(h, xs) + rest, [])
    ensures Run(AS_MEANT, h, s, n) == Reading(true, rest, Replies(h, xs))
    ensures ParseFrames(Replies(h, xs)) == Some(AllMessages(h, xs))
    ensures Cut(ChainBytes(AllMessages(h, xs)), 0) == Some(Sizes(xs)) <==> AllLabelled(xs)
  {
    hide *;
    ReadingReads(Requests(h, xs) + rest);
    n := ServeAll(h, s, xs, rest);
    ServedIsReading(s, Run(AS_MEANT, h, s, n), rest, Replies(h, xs));
    ParseReplies(h, xs);
    ConversationLabels(h, xs);
    CutLabels(Sizes(xs));
    if !AllLabelled(xs) {
      CutNeedsLabels(ChainBytes(AllMessages(h, xs)), 0);
    }
  }

  // A buffer whose content length wraps its size round to zero.
  function WrappedBuffer(): Image {
    Overwrite(Blank(), LENGTH_AT, Le16(0xFFF0))
  }

  /** It goes out as nothing but a header, and the peer sees no chain byte of it. */
  lemma WrappedBufferLosesLabel(x: Exchange)
    requires x.request.Valid() && x.answer == [WrappedBuffer()]
    ensures Size(WrappedBuffer()) == 0 && x.Sendable(AS_MEANT) && !Labelled(x)
    ensures Cut(ChainBytes(AnswerMessages(x, 0)), 0) == None
  {
    hide Chain, Exchange.Outgoing;
    assert WrappedBuffer()[LENGTH_AT..LENGTH_AT + 2] == Le16(0xFFF0);
    Le16RoundTrip(0xFFF0);
    AnswerLabels(x, 0, []);
    assert AnswerMessages(x, 0) + [] == AnswerMessages(x, 0);
    SeenAreLabels(x, 0);
    CutNeedsLabels(ChainBytes(AnswerMessages(x, 0)), 0);
  }

  // ---- What the messages carry, when the buffers are well formed ----

  function AllFields(ms: seq<Message>): seq<Field> {
    if ms == [] then [] else FieldsOf(ms[0].image) + AllFields(ms[1..])
  }

  function PacketFields(ps: seq<Packet>, k: nat): seq<Field>
    requires k <= |ps|
    decreases |ps| - k
  {
    if k == |ps| then [] else ps[k].fields + PacketFields(ps, k + 1)
  }

  function AnsweredFields(pss: seq<seq<Packet>>): seq<Field> {
    if pss == [] then [] else PacketFields(pss[0], 0) + AnsweredFields(pss[1..])
  }

  // The buffers of the answer are those of these packets.
  predicate Carries(x: Exchange, ps: seq<Packet>) {
    AllValid(ps) && x.answer == Images(ps)
  }

  predicate AllCarry(xs: seq<Exchange>, pss: seq<seq<Packet>>) {
    |xs| == |pss| && forall i :: 0 <= i < |xs| ==> Carries(xs[i], pss[i])
  }

  lemma CarriesSendable(x: Exchange, ps: seq<Packet>)
    requires Carries(x, ps)
    ensures |ps| == |x.answer| && x.Sendable(AS_MEANT) && Labelled(x)
  {
    hide Layout;
    forall k | 0 <= k < |x.answer| ensures FTDC_HEADER_SIZE <= Size(x.answer[k]) <= FTDC_MAX_LENGTH {
      ImageHeader(ps[k]);
    }
  }

  lemma PacketArrives(x: Exchange, ps: seq<Packet>, k: nat)
    requires x.request.Valid() && x.Sendable(AS_MEANT) && Carries(x, ps) && k < |x.answer|
    ensures var p := ps[k].(chain := Label(|ps|, k));
            && p.Valid() && x.Outgoing(AS_MEANT, k).Loaded() == p.Image()
            && FieldsOf(MessageOf(x.Outgoing(AS_MEANT, k)).image) == ps[k].fields
  {
    hide Layout, Overwrite, FieldsOf;
    var p := ps[k].(chain := Label(|ps|, k));
    SizeWithChain(x.answer[k], Label(|ps|, k));
    WithChainImage(ps[k], Label(|ps|, k));
    WirePrefixSuffices(p);
    FieldsOfImage(p);
  }

  lemma NoFields(x: Exchange, ps: seq<Packet>, ms: seq<Message>)
    requires x.request.Valid() && x.Sendable(AS_MEANT) && Carries(x, ps)
    ensures |ps| == |x.answer|
    ensures AllFields(AnswerMessages(x, |ps|) + ms) == PacketFields(ps, |ps|) + AllFields(ms)
  {
    hide FieldsOf, Exchange.Sendable, Frame.Valid, MessageOf;
    assert AnswerMessages(x, |ps|) + ms == ms;
  }

  lemma NextFields(m: Message, ms: seq<Message>, later: seq<Message>, ps: seq<Packet>, k: nat)
    requires k < |ps| && FieldsOf(m.image) == ps[k].fields
    requires AllFields(ms + later) == PacketFields(ps, k + 1) + AllFields(later)
    ensures AllFields([m] + ms + later) == PacketFields(ps, k) + AllFields(later)
  {
    hide FieldsOf;
    ConcatAssociates([m], ms, later);
    assert ([m] + (ms + later))[1..] == ms + later;
    ConcatAssociates(ps[k].fields, PacketFields(ps, k + 1), AllFields(later));
  }

  lemma {:induction false} AnswerFields(x: Exchange, ps: seq<Packet>, k: nat, ms: seq<Message>)
    requires x.request.Valid() && x.Sendable(AS_MEANT) && Carries(x, ps) && k <= |ps| == |x.answer|
    ensures AllFields(AnswerMessages(x, k) + ms) == PacketFields(ps, k) + AllFields(ms)
    decreases |x.answer| - k
  {
    hide *;
    NoFields(x, ps, ms);
    if k >= |ps| {
    } else {
      SendableEvery(AS_MEANT, x, k);
      PacketArrives(x, ps, k);
      NextMessage(x, k);
      AnswerFields(x, ps, k + 1, ms);
      NextFields(MessageOf(x.Outgoing(AS_MEANT, k)), AnswerMessages(x, k + 1), ms, ps, k);
    }
  }

  lemma FirstCarried(h: Handler, xs: seq<Exchange>, pss: seq<seq<Packet>>)
    requires Conversation(h, xs) && AllCarry(xs, pss) && xs != []
    ensures pss != [] && Carries(xs[0], pss[0]) && Conversation(h, xs[1..]) && AllCarry(xs[1..], pss[1..])
    ensures xs[0].request.Valid() && xs[0].Sendable(AS_MEANT)
    ensures AllMessages(h, xs) == AnswerMessages(xs[0], 0) + AllMessages(h, xs[1..])
    ensures AnsweredFields(pss) == PacketFields(pss[0], 0) + AnsweredFields(pss[1..])
  {
    hide Carries, AnswerMessages, PacketFields;
  }

  lemma AllCarryLabels(xs: seq<Exchange>, pss: seq<seq<Packet>>)
    requires AllCarry(xs, pss)
    ensures AllLabelled(xs)
  {
    hide Carries, Labelled;
    forall i | 0 <= i < |xs| ensures Labelled(xs[i]) {
      CarriesSendable(xs[i], pss[i]);
    }
  }

  lemma {:induction false} ConversationFields(h: Handler, xs: seq<Exchange>, pss: seq<seq<Packet>>)
    requires Conversation(h, xs) && AllCarry(xs, pss)
    ensures AllFields(AllMessages(h, xs)) == AnsweredFields(pss)
    decreases |xs|
  {
    if xs == [] {
    } else {
      hide *;
      FirstCarried(h, xs, pss);
      CarriesSendable(xs[0], pss[0]);
      AnswerFields(xs[0], pss[0], 0, AllMessages(h, xs[1..]));
      ConversationFields(h, xs[1..], pss[1..]);
    }
  }

  /** Where the buffers are well formed, the peer recovers every field of every answer, in order and exactly once. */
  lemma PeerRecoversAnswers(h: Handler, s: State, xs: seq<Exchange>, pss: seq<seq<Packet>>, rest: bytes)
    returns (n: nat)
    requires Conversation(h, xs) && s == Reading(true, Requests(h, xs) + rest, []) && AllCarry(xs, pss)
    ensures Run(AS_MEANT, h, s, n) == Reading(true, rest, Replies(h, xs))
    ensures ParseFrames(Replies(h, xs)) == Some(AllMessages(h, xs))
    ensures Cut(ChainBytes(AllMessages(h, xs)), 0) == Some(Sizes(xs))
    ensures AllFields(AllMessages(h, xs)) == AnsweredFields(pss)
  {
    hide Run, Requests, Replies, Conversation, AllLabelled, Sizes, AllCarry;
    ConversationFields(h, xs, pss);
    AllCarryLabels(xs, pss);
    n := PeerRecoversBuffers(h, s, xs, rest);
  }
}
