/** What becomes of a fully wired session on any input at all: all it ever says, and where it comes to rest. */
module SessionOutcomes {
  import opened Bytes
  import opened Ftd
  import opened FtdcBuffers
  import opened SessionMachine
  import opened SessionRuns

  /** Why nothing more happens: the input has run out, a header is out of range, a request failed the length test,
      the handler had no answer, or a buffer of the answer announces more bytes than a buffer has. */
  datatype Ending = Waiting | OutOfRange | Closed | Unanswered | Unsendable

  datatype Outcome = Outcome(said: bytes, ending: Ending)

  // The buffers before the first that cannot be sent, and the header and tags of that one.
  function UpToUnsendable(x: Exchange, k: nat): bytes
    requires x.request.Valid() && k <= |x.answer|
    decreases |x.answer| - k
  {
    if k == |x.answer| then []
    else if x.SendableAt(AS_MEANT, k) then x.Outgoing(AS_MEANT, k).Encode() + UpToUnsendable(x, k + 1)
    else x.request.header.(ftdcLength := Size(x.answer[k])).Encode() + x.request.tags
  }

  function ExchangeOf(h: Handler, f: Frame): Exchange
    requires f.Valid()
  {
    Exchange(f, h(f.Loaded()))
  }

  /** Told from the input frame by frame, without the machine. */
  function OutcomeOf(h: Handler, inbox: bytes): Outcome
    decreases |inbox|
  {
    var f := FirstFrame(inbox);
    if f.None? then
      Outcome([], if |inbox| >= FTD_HEADER_SIZE && !DecodeHeader(inbox[..FTD_HEADER_SIZE]).InRange() then OutOfRange
                  else Waiting)
    else
      var x := ExchangeOf(h, f.value);
      if !f.value.Accepted() then Outcome([], Closed)
      else if x.answer == [] then Outcome([], Unanswered)
      else if !x.Sendable(AS_MEANT) then Outcome(UpToUnsendable(x, 0), Unsendable)
      else
        var later := OutcomeOf(h, inbox[|f.value.Encode()|..]);
        Outcome(x.Reply(AS_MEANT, 0) + later.said, later.ending)
  }

  /** The session has come to rest for this reason. */
  predicate Rests(t: State, e: Ending)
    requires Inv(t)
  {
    match e
    case Waiting => t.open && (t.pending.ReadHeader? || t.pending.ReadExtend? || t.pending.ReadFtdc?)
                    && Wanted(t) > |t.inbox|
    case OutOfRange => t.open && t.pending.ReadHeader? && |t.inbox| >= FTD_HEADER_SIZE
                       && !DecodeHeader(t.inbox[..FTD_HEADER_SIZE]).InRange()
    case Closed => !t.open
    case Unanswered => t.open && t.pending.Idle?
    case Unsendable => t.open && t.pending.WriteFtdc? && t.header.ftdcLength > FTDC_MAX_LENGTH
  }

  lemma RestingIsDisabled(t: State, e: Ending)
    requires Inv(t) && Rests(t, e)
    ensures !Enabled(t)
  {
  }

  lemma {:induction false} DisabledStays(w: Wiring, h: Handler, t: State, n: nat)
    requires Inv(t) && !Enabled(t)
    ensures Run(w, h, t, n) == t
    decreases n
  {
    if n == 0 {
    } else {
      hide Enabled;
      DisabledStays(w, h, t, n - 1);
    }
  }

  // ---- One request at a time ----

  // A frame that is not all there: the session reads what it can of it and waits, or stops at its header.
  lemma NoFrame(h: Handler, s: State) returns (n: nat)
    requires Inv(s) && s.pending.ReadHeader? && s.open && FirstFrame(s.inbox).None?
    ensures var t := Run(AS_MEANT, h, s, n);
            Rests(t, OutcomeOf(h, s.inbox).ending) && t.outbox == s.outbox
  {
    hide Overwrite, FtdHeader.Encode;
    n := 0;
    if |s.inbox| >= FTD_HEADER_SIZE {
      var hd := DecodeHeader(s.inbox[..FTD_HEADER_SIZE]);
      if hd.InRange() {
        PollInv(AS_MEANT, h, s);
        var t := Poll(AS_MEANT, h, s);
        assert t == Run(AS_MEANT, h, s, 1);
        n := 1;
        if hd.extendLength as int <= |t.inbox| {
          PollInv(AS_MEANT, h, t);
          assert Run(AS_MEANT, h, t, 1) == Poll(AS_MEANT, h, t);
          RunTwice(AS_MEANT, h, s, 1, 1);
          n := 2;
        }
      }
    }
  }

  // The header and tags of a buffer that announces too much go out; its bytes would be read from behind its end.
  lemma UnsendableStep(h: Handler, s: State, x: Exchange, k: nat)
    requires Answering(AS_MEANT, s, x) && k < |x.answer| && !x.SendableAt(AS_MEANT, k)
    requires s.index == if |x.answer| == 1 then 0 else k
    ensures CanRespond(s) && Inv(Response(AS_MEANT, s))
    ensures var t := Run(AS_MEANT, h, Response(AS_MEANT, s), 2);
            && Rests(t, Unsendable)
            && t.outbox == s.outbox + (x.request.header.(ftdcLength := Size(x.answer[k])).Encode() + x.request.tags)
  {
    hide FtdHeader.Encode;
    var t := Response(AS_MEANT, s);
    var hd := x.request.header.(ftdcLength := Size(x.answer[k]));
    ResponseInv(AS_MEANT, s);
    SizeWithChain(x.answer[k], Label(|x.answer|, k));
    assert t.header == hd && t.pending.WriteHeader? && t.outbox == s.outbox;
    PollInv(AS_MEANT, h, t);
    var u := Poll(AS_MEANT, h, t);
    PollInv(AS_MEANT, h, u);
    var v := Poll(AS_MEANT, h, u);
    assert Run(AS_MEANT, h, t, 1) == u && Run(AS_MEANT, h, u, 1) == v;
    RunTwice(AS_MEANT, h, t, 1, 1);
    ConcatAssociates(s.outbox, hd.Encode(), x.request.tags);
  }

  lemma Carried(w: Wiring, s: State, x: Exchange)
    requires Answering(w, s, x)
    ensures x.request.Valid() && Completes(AS_MEANT, |x.answer|)
  {
  }

  lemma NextUnsendable(x: Exchange, k: nat)
    requires k < |x.answer|
    ensures x.request.Valid() && x.SendableAt(AS_MEANT, k) ==>
              UpToUnsendable(x, k) == x.Outgoing(AS_MEANT, k).Encode() + UpToUnsendable(x, k + 1)
    ensures x.request.Valid() && !x.SendableAt(AS_MEANT, k) ==>
              UpToUnsendable(x, k)
              == x.request.header.(ftdcLength := Size(x.answer[k])).Encode() + x.request.tags
  {
    hide Frame.Encode, FtdHeader.Encode, Frame.Valid;
  }

  lemma {:induction false} UnsendableRun(h: Handler, s: State, x: Exchange, k: nat, j: nat) returns (n: nat)
    requires Answering(AS_MEANT, s, x) && k <= j < |x.answer| && !x.SendableAt(AS_MEANT, j)
    requires s.index == if |x.answer| == 1 then 0 else k
    ensures x.request.Valid() && CanRespond(s) && Inv(Response(AS_MEANT, s))
    ensures var t := Run(AS_MEANT, h, Response(AS_MEANT, s), n);
            Rests(t, Unsendable) && t.outbox == s.outbox + UpToUnsendable(x, k)
    decreases |x.answer| - k
  {
    hide *;
    Carried(AS_MEANT, s, x);
    NextUnsendable(x, k);
    if !x.SendableAt(AS_MEANT, k) {
      UnsendableStep(h, s, x, k);
      n := 2;
    } else {
      var u := AnswerStep(AS_MEANT, h, s, x, k);
      var m := UnsendableRun(h, u, x, k + 1, j);
      n := FRAME_STEPS + m;
      RunTwice(AS_MEANT, h, Response(AS_MEANT, s), FRAME_STEPS, m);
      ConcatAssociates(s.outbox, x.Outgoing(AS_MEANT, k).Encode(), UpToUnsendable(x, k + 1));
    }
  }

  lemma NoAnswer(t: State)
    requires t.replies == []
    ensures Response(AS_MEANT, t) == t.(pending := Idle)
  {
  }

  // What the machine makes of the first whole frame of its input.
  lemma OneFrame(h: Handler, s: State) returns (n: nat)
    requires Inv(s) && s.pending.ReadHeader? && s.open && FirstFrame(s.inbox).Some?
    ensures var f := FirstFrame(s.inbox).value;
            var x, rest := ExchangeOf(h, f), s.inbox[|f.Encode()|..];
            var t := Run(AS_MEANT, h, s, n);
            && (x.Of(h) && x.answer != [] && x.Sendable(AS_MEANT) ==>
                  && t.pending.ReadHeader? && Inv(t) && t.open && t.inbox == rest
                  && t.outbox == s.outbox + x.Reply(AS_MEANT, 0))
            && (!(x.Of(h) && x.answer != [] && x.Sendable(AS_MEANT)) ==>
                  && OutcomeOf(h, s.inbox).ending != Waiting && OutcomeOf(h, s.inbox).ending != OutOfRange
                  && Rests(t, OutcomeOf(h, s.inbox).ending)
                  && t.outbox == s.outbox + OutcomeOf(h, s.inbox).said)
  {
    hide Frame.Encode, Overwrite, FirstFrame, Run, Response, Exchange.Reply, UpToUnsendable;
    var f := FirstFrame(s.inbox).value;
    var x, rest := ExchangeOf(h, f), s.inbox[|f.Encode()|..];
    n := FRAME_STEPS;
    ReadCycle(AS_MEANT, h, s, f, rest);
    AcceptanceArithmetic(f.body);
    if f.Accepted() {
      var t := AcceptFrame(AS_MEANT, h, s, x, rest);
      if x.answer == [] {
        NoAnswer(t);
      } else if x.Sendable(AS_MEANT) {
        n := ServeOne(AS_MEANT, h, s, x, rest);
      } else {
        var j :| 0 <= j < |x.answer| && !x.SendableAt(AS_MEANT, j);
        var m := UnsendableRun(h, t, x, 0, j);
        n := FRAME_STEPS + m;
        RunTwice(AS_MEANT, h, s, FRAME_STEPS, m);
      }
    }
  }

  // ---- Any input ----

  lemma OutcomeAfter(h: Handler, inbox: bytes)
    requires FirstFrame(inbox).Some?
    ensures var f := FirstFrame(inbox).value;
            var x, rest := ExchangeOf(h, f), inbox[|f.Encode()|..];
            && |rest| < |inbox|
            && (x.Of(h) && x.answer != [] && x.Sendable(AS_MEANT) ==>
                  && x.request.Valid()
                  && OutcomeOf(h, inbox) == Outcome(x.Reply(AS_MEANT, 0) + OutcomeOf(h, rest).said,
                                                    OutcomeOf(h, rest).ending))
  {
    hide Frame.Encode, FirstFrame, Exchange.Reply, UpToUnsendable, Overwrite;
  }

  lemma NothingSaid(h: Handler, inbox: bytes)
    requires FirstFrame(inbox).None?
    ensures OutcomeOf(h, inbox).said == []
  {
    hide FirstFrame;
  }

  lemma {:induction false} ComesToRest(h: Handler, s: State) returns (n: nat)
    requires Inv(s) && s.pending.ReadHeader? && s.open
    ensures var t := Run(AS_MEANT, h, s, n);
            && Rests(t, OutcomeOf(h, s.inbox).ending)
            && t.outbox == s.outbox + OutcomeOf(h, s.inbox).said
    decreases |s.inbox|
  {
    hide *;
    if FirstFrame(s.inbox).None? {
      n := NoFrame(h, s);
      NothingSaid(h, s.inbox);
    } else {
      OutcomeAfter(h, s.inbox);
      n := OneFrame(h, s);
      var x := ExchangeOf(h, FirstFrame(s.inbox).value);
      if x.Of(h) && x.answer != [] && x.Sendable(AS_MEANT) {
        var t := Run(AS_MEANT, h, s, n);
        var m := ComesToRest(h, t);
        RunTwice(AS_MEANT, h, s, n, m);
        ConcatAssociates(s.outbox, x.Reply(AS_MEANT, 0), OutcomeOf(h, t.inbox).said);
        n := n + m;
      }
    }
  }

  lemma {:induction false} OutputGrows(w: Wiring, h: Handler, s: State, n: nat)
    requires Inv(s)
    ensures s.outbox <= Run(w, h, s, n).outbox
    decreases n
  {
    if n == 0 {
    } else {
      PollInv(w, h, s);
      OutputGrows(w, h, Poll(w, h, s), n - 1);
    }
  }

  /** Whatever bytes arrive and whatever the handler answers: every long enough run of a fully wired session has sent
      exactly the replies to the frames it could serve, and rests for the reason the input gives; before that it has
      sent a part of them. */
  lemma EveryInputIsSettled(h: Handler, inbox: bytes) returns (n: nat)
    ensures Inv(Reading(true, inbox, []))
    ensures forall m: nat :: m >= n ==>
              var t := Run(AS_MEANT, h, Reading(true, inbox, []), m);
              Rests(t, OutcomeOf(h, inbox).ending) && t.outbox == OutcomeOf(h, inbox).said
    ensures forall m: nat :: Run(AS_MEANT, h, Reading(true, inbox, []), m).outbox <= OutcomeOf(h, inbox).said
  {
    hide OutcomeOf, Rests, Run, Enabled;
    var s := Reading(true, inbox, []);
    n := ComesToRest(h, s);
    var t := Run(AS_MEANT, h, s, n);
    RestingIsDisabled(t, OutcomeOf(h, inbox).ending);
    forall m: nat | m >= n ensures Run(AS_MEANT, h, s, m) == t {
      RunTwice(AS_MEANT, h, s, n, m - n);
      DisabledStays(AS_MEANT, h, t, m - n);
    }
    forall m: nat ensures Run(AS_MEANT, h, s, m).outbox <= t.outbox {
      RunTwice(AS_MEANT, h, s, m, n);
      OutputGrows(AS_MEANT, h, Run(AS_MEANT, h, s, m), n);
    }
  }
}
