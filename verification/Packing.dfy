/** Spreading a run of fields over buffers, each filled before the next is begun. */
module Packing {
  import opened Ftd
  import opened FtdcBuffers

  // The finished buffers and the one being filled.
  datatype Packed = Packed(output: seq<Packet>, pending: Packet)

  /** One field: into the pending buffer if it fits, else the pending buffer is finished and the field opens the
      next one.  As in the source, what the second `add_field` answers is not looked at. */
  function Step(head: Packet, s: Packed, f: Field): Packed
    requires head.Valid() && s.pending.Valid()
  {
    if s.pending.Add(f).Valid() then Packed(s.output, s.pending.Add(f))
    else Packed(s.output + [s.pending], Meaning(head, Op.AddField(f)))
  }

  function Pack(head: Packet, fs: seq<Field>): (s: Packed)
    requires head.Valid()
    ensures s.pending.Valid() && AllValid(s.output)
  {
    if fs == [] then Packed([], head) else Step(head, Pack(head, fs[..|fs| - 1]), fs[|fs| - 1])
  }

  function FieldsIn(ps: seq<Packet>): seq<Field> {
    if ps == [] then [] else FieldsIn(ps[..|ps| - 1]) + ps[|ps| - 1].fields
  }

  // A field no larger than a whole content fits an empty buffer.
  predicate Small(fs: seq<Field>) {
    forall i :: 0 <= i < |fs| ==> EntitySize(fs[i]) <= FTDC_CONTENT_MAX_LENGTH
  }

  lemma AddValidIff(p: Packet, f: Field)
    ensures p.Add(f).Valid() <==> |Content(p.fields)| + EntitySize(f) <= FTDC_CONTENT_MAX_LENGTH
  {
    ContentSnoc(p.fields, f);
  }

  lemma FieldsInSnoc(ps: seq<Packet>, p: Packet)
    ensures FieldsIn(ps + [p]) == FieldsIn(ps) + p.fields
  {
    assert (ps + [p])[..|ps + [p]| - 1] == ps;
  }

  predicate Titled(p: Packet, head: Packet) {
    p.(fields := []) == head
  }

  // What packing keeps after every field.
  predicate Faithful(head: Packet, fs: seq<Field>, s: Packed) {
    && FieldsIn(s.output) + s.pending.fields == fs
    && (s.pending.fields == [] <==> fs == [])
    && Titled(s.pending, head)
    && (forall k :: 0 <= k < |s.output| ==> Titled(s.output[k], head) && s.output[k].fields != [])
  }

  lemma StepFaithful(head: Packet, fs: seq<Field>, s: Packed, f: Field)
    requires head.Valid() && head.fields == [] && s.pending.Valid() && Faithful(head, fs, s)
    requires EntitySize(f) <= FTDC_CONTENT_MAX_LENGTH
    ensures Faithful(head, fs + [f], Step(head, s, f))
  {
    AddValidIff(s.pending, f);
    AddValidIff(head, f);
    FieldsInSnoc(s.output, s.pending);
    assert FieldsIn(s.output) + s.pending.fields + [f] == FieldsIn(s.output) + (s.pending.fields + [f]);
    assert head.Add(f).fields == [f];
  }

  /** Every field is in exactly one buffer, in order, under the request's header, and no buffer is empty. */
  lemma {:induction false} PackConserves(head: Packet, fs: seq<Field>)
    requires head.Valid() && head.fields == [] && Small(fs)
    ensures Faithful(head, fs, Pack(head, fs))
  {
    if fs == [] {
    } else {
      var front := fs[..|fs| - 1];
      assert fs == front + [fs[|fs| - 1]];
      PackConserves(head, front);
      StepFaithful(head, front, Pack(head, front), fs[|fs| - 1]);
    }
  }

  // ---- What the source returns ----

  /** The source returns the finished buffers and forgets the pending one: all fields come back exactly when
      there were none. */
  lemma ReturnedAllIff(head: Packet, fs: seq<Field>)
    requires head.Valid() && head.fields == [] && Small(fs)
    ensures FieldsIn(Pack(head, fs).output) == fs <==> fs == []
    ensures FieldsIn(Pack(head, fs).output) <= fs
  {
    PackConserves(head, fs);
    var s := Pack(head, fs);
    assert |fs| == |FieldsIn(s.output)| + |s.pending.fields|;
  }

  /** A single one-byte field is packed and never returned. */
  lemma LoneFieldIsLost()
    ensures EMPTY.Valid() && Pack(EMPTY, [Field(7, ['x'])]).output == []
    ensures Pack(EMPTY, [Field(7, ['x'])]).pending.fields == [Field(7, ['x'])]
  {
    var f := Field(7, ['x']);
    AddValidIff(EMPTY, f);
    assert [f][..0] == [];
  }

  lemma {:induction false} OneBufferHoldsAll(head: Packet, fs: seq<Field>)
    requires head.Valid() && head.fields == [] && Small(fs)
    ensures Pack(head, fs).output == [] <==> |Content(fs)| <= FTDC_CONTENT_MAX_LENGTH
  {
    if fs == [] {
    } else {
      var front, f := fs[..|fs| - 1], fs[|fs| - 1];
      var s := Pack(head, front);
      assert fs == front + [f];
      OneBufferHoldsAll(head, front);
      ContentSnoc(front, f);
      PackConserves(head, front);
      AddValidIff(s.pending, f);
      assert s.output == [] ==> s.pending.fields == front by {
        assert s.output == [] ==> FieldsIn(s.output) + s.pending.fields == s.pending.fields;
      }
    }
  }

  // ---- No packing in order needs fewer buffers ----

  function Flatten(cs: seq<seq<Field>>): seq<Field> {
    if cs == [] then [] else Flatten(cs[..|cs| - 1]) + cs[|cs| - 1]
  }

  /** A way to cut the fields, in order, into pieces that each fit a buffer. */
  predicate Cuts(cs: seq<seq<Field>>, fs: seq<Field>) {
    Flatten(cs) == fs && forall k :: 0 <= k < |cs| ==> |Content(cs[k])| <= FTDC_CONTENT_MAX_LENGTH
  }

  lemma SameTail(x0: seq<Field>, xs: seq<Field>, y0: seq<Field>, ys: seq<Field>)
    requires x0 + xs == y0 + ys && |xs| <= |ys|
    ensures ys == ys[..|ys| - |xs|] + xs
  {
    var d := |ys| - |xs|;
    forall i | 0 <= i < |xs| ensures ys[d + i] == xs[i] {
      assert ys[d + i] == (y0 + ys)[|y0| + d + i];
      assert xs[i] == (x0 + xs)[|x0| + i];
    }
  }

  lemma ShorterTail(x0: seq<Field>, xs: seq<Field>, y0: seq<Field>, ys: seq<Field>)
    requires x0 + xs == y0 + ys && |xs| <= |ys|
    ensures |Content(xs)| <= |Content(ys)|
  {
    hide Content;
    SameTail(x0, xs, y0, ys);
    ContentSplit(ys[..|ys| - |xs|], xs);
  }

  // No more buffers than pieces; with as many, the pending buffer holds no more than the last piece.
  predicate Ahead(s: Packed, cs: seq<seq<Field>>) {
    && |s.output| + 1 <= |cs|
    && (|s.output| + 1 == |cs| ==> |s.pending.fields| <= |cs[|cs| - 1]|)
  }

  // Taking the last field off the last piece.
  lemma CutsShorter(cs: seq<seq<Field>>, fs: seq<Field>)
    requires Cuts(cs, fs) && cs != [] && cs[|cs| - 1] != []
    ensures var m, c := |cs| - 1, cs[|cs| - 1];
            && fs != [] && fs[|fs| - 1] == c[|c| - 1]
            && fs[..|fs| - 1] == Flatten(cs[..m]) + c[..|c| - 1]
            && Cuts(cs[..m] + [c[..|c| - 1]], fs[..|fs| - 1])
            && (|c| == 1 ==> Cuts(cs[..m], fs[..|fs| - 1]))
            && cs == cs[..m] + [c[..|c| - 1] + [fs[|fs| - 1]]]
            && |Content(c[..|c| - 1])| + EntitySize(fs[|fs| - 1]) <= FTDC_CONTENT_MAX_LENGTH
  {
    hide Content, EntitySize;
    var m, c := |cs| - 1, cs[|cs| - 1];
    var shorter := c[..|c| - 1];
    assert c == shorter + [c[|c| - 1]];
    ContentSnoc(shorter, c[|c| - 1]);
    assert fs[..|fs| - 1] == Flatten(cs[..m]) + shorter;
    assert (cs[..m] + [shorter])[..m] == cs[..m];
  }

  lemma StepAhead(head: Packet, fs: seq<Field>, s: Packed, f: Field, cs: seq<seq<Field>>, c: seq<Field>)
    requires head.Valid() && head.fields == [] && s.pending.Valid() && Faithful(head, fs, s)
    requires Ahead(s, cs + [c]) && fs == Flatten(cs) + c
    requires |Content(c)| + EntitySize(f) <= FTDC_CONTENT_MAX_LENGTH
    ensures Ahead(Step(head, s, f), cs + [c + [f]])
  {
    hide Content, EntitySize, Flatten;
    AddValidIff(s.pending, f);
    if |s.output| == |cs| {
      ShorterTail(FieldsIn(s.output), s.pending.fields, Flatten(cs), c);
    }
  }

  lemma LastPiece(cs: seq<seq<Field>>, fs: seq<Field>)
    requires Cuts(cs, fs) && fs != []
    ensures cs != []
    ensures cs[|cs| - 1] == [] ==> Cuts(cs[..|cs| - 1], fs)
  {
    assert cs != [] && cs[|cs| - 1] == [] ==> Flatten(cs[..|cs| - 1]) + [] == Flatten(cs[..|cs| - 1]);
  }

  lemma SmallFront(head: Packet, fs: seq<Field>)
    requires head.Valid() && head.fields == [] && Small(fs) && fs != []
    ensures Small(fs[..|fs| - 1]) && EntitySize(fs[|fs| - 1]) <= FTDC_CONTENT_MAX_LENGTH
    ensures Pack(head, fs[..|fs| - 1]).pending.Valid()
    ensures Pack(head, fs) == Step(head, Pack(head, fs[..|fs| - 1]), fs[|fs| - 1])
  {
  }

  lemma AheadOfMore(s: Packed, cs: seq<seq<Field>>)
    requires cs != [] && Ahead(s, cs[..|cs| - 1])
    ensures Ahead(s, cs)
  {
  }

  lemma PackOne(head: Packet, f: Field, cs: seq<seq<Field>>)
    requires head.Valid() && head.fields == [] && EntitySize(f) <= FTDC_CONTENT_MAX_LENGTH
    requires cs != [] && cs[|cs| - 1] != []
    ensures Ahead(Step(head, Pack(head, []), f), cs)
  {
    AddValidIff(head, f);
  }

  // The last piece is the new field alone: one more piece pays for one more buffer.
  lemma StepAheadNew(head: Packet, s: Packed, f: Field, cs: seq<seq<Field>>)
    requires head.Valid() && head.fields == [] && s.pending.Valid()
    requires cs != [] && |cs[|cs| - 1]| == 1 && Ahead(s, cs[..|cs| - 1])
    ensures Ahead(Step(head, s, f), cs)
  {
  }

  /** However the fields are cut, in order, into pieces that fit a buffer, packing uses no more buffers. */
  lemma {:induction false} PackIsOptimal(head: Packet, fs: seq<Field>, cs: seq<seq<Field>>)
    requires head.Valid() && head.fields == [] && Small(fs) && fs != [] && Cuts(cs, fs)
    ensures Ahead(Pack(head, fs), cs)
    decreases |fs|, |cs|
  {
    hide *;
    LastPiece(cs, fs);
    var m, c := |cs| - 1, cs[|cs| - 1];
    if c == [] {
      PackIsOptimal(head, fs, cs[..m]);
      AheadOfMore(Pack(head, fs), cs);
    } else {
      var front, f, shorter := fs[..|fs| - 1], fs[|fs| - 1], c[..|c| - 1];
      CutsShorter(cs, fs);
      SmallFront(head, fs);
      PackConserves(head, front);
      if front == [] {
        PackOne(head, f, cs);
      } else if shorter == [] {
        PackIsOptimal(head, front, cs[..m]);
        StepAheadNew(head, Pack(head, front), f, cs);
      } else {
        PackIsOptimal(head, front, cs[..m] + [shorter]);
        StepAhead(head, front, Pack(head, front), f, cs[..m], shorter);
      }
    }
  }
}
