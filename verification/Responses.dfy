/** What the serialiser's answers mean to the session that sends them. */
module Responses {
  import opened Bytes
  import opened ChainClient
  import opened Ftd
  import opened FtdcBuffers
  import opened Packing
  import opened SessionMachine
  import opened SessionRuns
  import opened Wrappers

  /** With the source's serialiser for a handler, a session reads again only after an answer too large for one
      buffer: any smaller answer comes back empty.  This holds for any request it accepts. */
  lemma SourceReadsAgainIff(w: Wiring, h: Handler, s: State, x: Exchange, rest: bytes, head: Packet, fs: seq<Field>)
    requires Inv(s) && s.pending.ReadHeader? && s.open
    requires x.Of(h) && s.inbox == x.request.Encode() + rest
    requires head.Valid() && head.fields == [] && Small(fs) && x.answer == Images(Pack(head, fs).output)
    ensures (exists n :: n >= FRAME_STEPS && Run(w, h, s, n).pending.ReadHeader?)
            <==> w.responds && |Content(fs)| > FTDC_CONTENT_MAX_LENGTH && Completes(w, |x.answer|)
  {
    hide Run, Pack, Exchange.Of, Frame.Encode, Exchange.Sendable;
    ReadsAgainIff(w, h, s, x, rest);
    CarriesSendable(x, Pack(head, fs).output);
    SendableUnder(w, x);
    OneBufferHoldsAll(head, fs);
  }

  /** The finished buffers followed by the one still being filled. */
  function Whole(head: Packet, fs: seq<Field>): (ps: seq<Packet>)
    requires head.Valid()
    ensures ps != [] && AllValid(ps)
  {
    Pack(head, fs).output + [Pack(head, fs).pending]
  }

  lemma {:induction false} PacketFieldsAll(ps: seq<Packet>, k: nat)
    requires k <= |ps|
    ensures FieldsIn(ps[..k]) + PacketFields(ps, k) == FieldsIn(ps)
    decreases |ps| - k
  {
    if k == |ps| {
      assert ps[..k] == ps;
    } else {
      PacketFieldsAll(ps, k + 1);
      FieldsInSnoc(ps[..k], ps[k]);
      assert ps[..k + 1] == ps[..k] + [ps[k]];
      ConcatAssociates(FieldsIn(ps[..k]), ps[k].fields, PacketFields(ps, k + 1));
    }
  }

  lemma WholeFields(head: Packet, fs: seq<Field>)
    requires head.Valid() && head.fields == [] && Small(fs)
    ensures PacketFields(Whole(head, fs), 0) == fs
  {
    hide Pack;
    PackConserves(head, fs);
    var ps := Whole(head, fs);
    PacketFieldsAll(ps, 0);
    FieldsInSnoc(Pack(head, fs).output, Pack(head, fs).pending);
    assert FieldsIn(ps[..0]) + PacketFields(ps, 0) == PacketFields(ps, 0);
  }

  lemma OneExchange(h: Handler, x: Exchange, ps: seq<Packet>)
    requires x.Of(h) && x.answer != [] && x.Sendable(AS_MEANT)
    ensures Conversation(h, [x]) && Requests(h, [x]) == x.request.Encode()
    ensures AnsweredFields([ps]) == PacketFields(ps, 0) && Sizes([x]) == [|x.answer|]
  {
    hide Frame.Encode;
    assert [x][1..] == [] && [ps][1..] == [];
    assert x.request.Encode() + [] == x.request.Encode();
    assert PacketFields(ps, 0) + [] == PacketFields(ps, 0);
  }

  /** Answered with all buffers, the pending one included, the fully wired session delivers every field to its
      peer, in order and once, and reads again. */
  lemma WholeAnswerArrives(h: Handler, x: Exchange, rest: bytes, head: Packet, fs: seq<Field>) returns (n: nat)
    requires head.Valid() && head.fields == [] && Small(fs)
    requires x.Of(h) && x.answer == Images(Whole(head, fs))
    ensures var s := Reading(true, x.request.Encode() + rest, []);
            var t := Run(AS_MEANT, h, s, n);
            && t == Reading(true, rest, t.outbox)
            && ParseFrames(t.outbox).Some?
            && AllFields(ParseFrames(t.outbox).value) == fs
            && Cut(ChainBytes(ParseFrames(t.outbox).value), 0) == Some([|x.answer|])
  {
    hide Run, Pack, Whole, Exchange.Of, Frame.Encode, ParseFrames, Exchange.Reply;
    var ps := Whole(head, fs);
    CarriesSendable(x, ps);
    OneExchange(h, x, ps);
    var s := Reading(true, x.request.Encode() + rest, []);
    assert s.inbox == Requests(h, [x]) + rest;
    n := PeerRecoversAnswers(h, s, [x], [ps], rest);
    WholeFields(head, fs);
  }
}
