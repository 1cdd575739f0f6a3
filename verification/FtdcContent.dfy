/** From the variable to response buffers. */
module FtdcContents {
  import opened Bytes
  import opened Ftd
  import opened FtdcBuffers
  import opened FtdcVariables
  import opened FtdProtocols
  import opened ItemValues
  import opened Packing
  import opened Wrappers

  // ---- Serialising ----

  // The room for item data in the stack buffer a field is assembled in.
  const FIELD_ROOM := FTDC_CONTENT_MAX_LENGTH - FIELD_PREFIX

  /** Every listed item of this occurrence has a value the serialiser can copy. */
  predicate Present(val: Fields, field: bytes, index: nat, items: seq<bytes>) {
    forall k :: 0 <= k < |items| ==> GetItem(val, field, index, items[k]).Some?
  }

  function Memory(form: FloatForm, val: Fields, field: bytes, index: nat, items: seq<bytes>): bytes
    requires Present(val, field, index, items)
  {
    if items == [] then []
    else
      Memory(form, val, field, index, items[..|items| - 1])
      + GetItem(val, field, index, items[|items| - 1]).value.Wire(form)
  }

  function MakeField(fid: int32, memory: bytes, size: nat): Field
    requires |memory| <= FIELD_ROOM && size <= FIELD_ROOM
  {
    Field(fid, Overwrite(Zeros(FIELD_ROOM), 0, memory)[..size])
  }

  /** The values of every occurrence fit the stack buffer, and so does the size the protocol gives the field. */
  predicate Storable(form: FloatForm, pr: Protocol, val: Fields, field: bytes) {
    FieldSize(pr, field).Success? ==>
      && FieldSize(pr, field).value <= FIELD_ROOM
      && forall i :: 0 <= i < |Vector(val, field)| ==>
           var items := FieldItems(pr, field).value;
           Present(val, field, i, items) && |Memory(form, val, field, i, items)| <= FIELD_ROOM
  }

  function Occurrences(form: FloatForm, pr: Protocol, val: Fields, field: bytes, fid: int32, n: nat): seq<Field>
    requires Storable(form, pr, val, field) && FieldSize(pr, field).Success? && n <= |Vector(val, field)|
  {
    if n == 0 then []
    else
      var memory := Memory(form, val, field, n - 1, FieldItems(pr, field).value);
      Occurrences(form, pr, val, field, fid, n - 1) + [MakeField(fid, memory, FieldSize(pr, field).value)]
  }

  predicate InBounds(val: Fields, entry: PackageField) {
    entry.minOccur <= |Vector(val, entry.name)| <= entry.maxOccur
  }

  // What is assembled only once its entry has passed the tests before.
  predicate EntryStorable(form: FloatForm, pr: Protocol, val: Fields, entry: PackageField) {
    InBounds(val, entry) && entry.name in pr.fieldIds ==> Storable(form, pr, val, entry.name)
  }

  function FieldsOfEntry(form: FloatForm, pr: Protocol, val: Fields, entry: PackageField): Result<seq<Field>>
    requires EntryStorable(form, pr, val, entry)
  {
    var n := |Vector(val, entry.name)|;
    if n > entry.maxOccur || n < entry.minOccur then Failure(ContentError)
    else
      var fid :- Lookup(pr.fieldIds, entry.name);
      var size :- FieldSize(pr, entry.name);
      Success(Occurrences(form, pr, val, entry.name, fid, n))
  }

  /** Everything the serialiser assembles, up to the first entry that throws, can be assembled. */
  predicate AllStorable(form: FloatForm, pr: Protocol, val: Fields, package: seq<PackageField>) {
    package == []
    || (&& EntryStorable(form, pr, val, package[0])
        && (FieldsOfEntry(form, pr, val, package[0]).Success? ==> AllStorable(form, pr, val, package[1..])))
  }

  function FieldsOfPackage(form: FloatForm, pr: Protocol, val: Fields, package: seq<PackageField>): Result<seq<Field>>
    requires AllStorable(form, pr, val, package)
  {
    if package == [] then Success([])
    else
      var first :- FieldsOfEntry(form, pr, val, package[0]);
      var later :- FieldsOfPackage(form, pr, val, package[1..]);
      Success(first + later)
  }

  // A response starts from the request's version, transaction, series and sequence number.
  function Head(request: Image): Packet {
    Packet(request[0], FromLe32(request[1..5]), NUL, FromLe16(request[6..8]), FromLe32(request[8..12]), [])
  }

  lemma HeadValid(request: Image)
    ensures Head(request).Valid() && Head(request).fields == []
  {
  }

  lemma {:induction false} OccurrencesSmall(form: FloatForm, pr: Protocol, val: Fields, field: bytes, fid: int32,
                                            n: nat)
    requires Storable(form, pr, val, field) && FieldSize(pr, field).Success? && n <= |Vector(val, field)|
    ensures |Occurrences(form, pr, val, field, fid, n)| == n && Small(Occurrences(form, pr, val, field, fid, n))
  {
    hide FieldSize, FieldItems, Memory, Present;
    if n == 0 {
    } else {
      OccurrencesSmall(form, pr, val, field, fid, n - 1);
    }
  }

  lemma {:induction false} PackageSmall(form: FloatForm, pr: Protocol, val: Fields, package: seq<PackageField>)
    requires AllStorable(form, pr, val, package) && FieldsOfPackage(form, pr, val, package).Success?
    ensures Small(FieldsOfPackage(form, pr, val, package).value)
  {
    hide Storable, FieldSize, FieldItems, Occurrences;
    if package == [] {
    } else {
      var entry := package[0];
      OccurrencesSmall(form, pr, val, entry.name, Lookup(pr.fieldIds, entry.name).value, |Vector(val, entry.name)|);
      PackageSmall(form, pr, val, package[1..]);
    }
  }

  lemma NoMemory(form: FloatForm, val: Fields, field: bytes, index: nat)
    ensures Present(val, field, index, []) && Memory(form, val, field, index, []) == []
    ensures Overwrite(Zeros(FIELD_ROOM), 0, []) == Zeros(FIELD_ROOM)
  {
  }

  lemma OverwriteNext(b: bytes, s: bytes, t: bytes)
    requires |s| + |t| <= |b|
    ensures Overwrite(Overwrite(b, 0, s), |s|, t) == Overwrite(b, 0, s + t)
  {
  }

  lemma MemoryStep(form: FloatForm, val: Fields, field: bytes, index: nat, items: seq<bytes>, k: nat)
    requires Present(val, field, index, items) && k < |items|
    ensures Present(val, field, index, items[..k]) && Present(val, field, index, items[..k + 1])
    ensures GetItem(val, field, index, items[k]).Some?
    ensures Memory(form, val, field, index, items[..k + 1])
            == Memory(form, val, field, index, items[..k]) + GetItem(val, field, index, items[k]).value.Wire(form)
    ensures |Memory(form, val, field, index, items[..k + 1])| <= |Memory(form, val, field, index, items)|
    decreases |items| - k
  {
    var t := items[..k + 1];
    assert t[..|t| - 1] == items[..k] && t[|t| - 1] == items[k];
    if k + 1 < |items| {
      MemoryStep(form, val, field, index, items, k + 1);
    } else {
      assert t == items;
    }
  }

  /** Assembling one field in the stack buffer, item by item. */
  method FillField(form: FloatForm, src: FtdcVariable, field: bytes, index: nat, items: seq<bytes>, fid: int32,
                   size: nat)
    returns (f: Field)
    requires field in src.val && Present(src.val, field, index, items)
    requires |Memory(form, src.val, field, index, items)| <= FIELD_ROOM && size <= FIELD_ROOM
    ensures f == MakeField(fid, Memory(form, src.val, field, index, items), size)
  {
    hide Present, Memory, GetItem, ItemValue.Wire, Overwrite;
    var fieldbuf := new byte[FIELD_ROOM](_ => NUL);
    NoMemory(form, src.val, field, index);
    assert fieldbuf[..] == Zeros(FIELD_ROOM);
    assert items[..0] == [];
    var pos: nat := 0;
    for k := 0 to |items|
      invariant Present(src.val, field, index, items[..k])
      invariant pos == |Memory(form, src.val, field, index, items[..k])| <= FIELD_ROOM
      invariant fieldbuf[..] == Overwrite(Zeros(FIELD_ROOM), 0, Memory(form, src.val, field, index, items[..k]))
    {
      MemoryStep(form, src.val, field, index, items, k);
      var value := src.GetFieldItem(field, index, items[k]);
      var data := value.value.Wire(form);
      Memcpy(fieldbuf, pos, data);
      OverwriteNext(Zeros(FIELD_ROOM), Memory(form, src.val, field, index, items[..k]), data);
      pos := pos + value.value.Size();
    }
    assert items[..|items|] == items;
    f := Field(fid, fieldbuf[..size]);
  }

  // ---- The serialising loops, and the packing they drive ----

  // One field into the buffers: what `Step` says, in place.
  method PackField(buffer: FtdcBuffer, output: seq<Image>, head: Packet, f: Field, ghost s: Packed)
    returns (output': seq<Image>)
    requires buffer.Valid() && head.Valid() && head.fields == [] && head.chain == NUL
    requires s.pending.Valid() && AllValid(s.output)
    requires buffer.Bytes() == s.pending.Image() && output == Images(s.output)
    modifies buffer.buff
    ensures var t := Step(head, s, f);
            && t.pending.Valid() && AllValid(t.output)
            && buffer.Bytes() == t.pending.Image() && output' == Images(t.output)
  {
    hide Layout, Packet.HeaderStart;
    output' := output;
    AfterAddImage(s.pending, f);
    var added := buffer.AddField(f);
    if !added {
      output' := output' + [buffer.Bytes()];
      buffer.Clear();
      BlankIsEmptyPacket();
      ApplyImage(EMPTY, Op.SetHeader(head.version, head.tid, NUL, head.seris, head.seqno));
      buffer.SetHeader(head.version, head.tid, NUL, head.seris, head.seqno);
      ApplyImage(head, Op.AddField(f));
      var again := buffer.AddField(f);
    }
  }

  lemma PackSnoc(head: Packet, fs: seq<Field>, f: Field)
    requires head.Valid()
    ensures Pack(head, fs + [f]) == Step(head, Pack(head, fs), f)
  {
    assert (fs + [f])[..|fs + [f]| - 1] == fs;
  }

  // What packing `fs` under `head` would return, if the fields can be had at all.
  function Returned(head: Packet, fs: Result<seq<Field>>): (r: Result<seq<Image>>)
    requires head.Valid()
  {
    match fs
    case Success(all) => Success(Images(Pack(head, all).output))
    case Failure(e) => Failure(e)
  }

  lemma PackNothing(head: Packet)
    requires head.Valid()
    ensures Pack(head, []) == Packed([], head)
  {
  }

  lemma EntryStep(form: FloatForm, pr: Protocol, val: Fields, package: seq<PackageField>, k: nat, done: seq<Field>)
    requires k < |package| && AllStorable(form, pr, val, package[k..])
    ensures EntryStorable(form, pr, val, package[k])
    ensures FieldsOfEntry(form, pr, val, package[k]).Success? ==> AllStorable(form, pr, val, package[k + 1..])
    ensures FieldsOfEntry(form, pr, val, package[k]).Failure? ==>
              Joined(done, FieldsOfPackage(form, pr, val, package[k..]))
              == Failure(FieldsOfEntry(form, pr, val, package[k]).error)
    ensures FieldsOfEntry(form, pr, val, package[k]).Success? ==>
              Joined(done, FieldsOfPackage(form, pr, val, package[k..]))
              == Joined(done + FieldsOfEntry(form, pr, val, package[k]).value,
                        FieldsOfPackage(form, pr, val, package[k + 1..]))
  {
    hide Storable, FieldsOfEntry;
    assert package[k..][0] == package[k] && package[k..][1..] == package[k + 1..];
    if FieldsOfEntry(form, pr, val, package[k]).Success? && FieldsOfPackage(form, pr, val, package[k + 1..]).Success? {
      ConcatAssociates(done, FieldsOfEntry(form, pr, val, package[k]).value,
                       FieldsOfPackage(form, pr, val, package[k + 1..]).value);
    }
  }

  lemma SizedHasItems(pr: Protocol, field: bytes)
    ensures FieldSize(pr, field).Success? ==> FieldItems(pr, field).Success?
  {
  }

  lemma NoOccurrences(form: FloatForm, pr: Protocol, val: Fields, field: bytes, fid: int32)
    requires Storable(form, pr, val, field) && FieldSize(pr, field).Success?
    ensures Occurrences(form, pr, val, field, fid, 0) == []
  {
  }

  lemma NextOccurrence(form: FloatForm, pr: Protocol, val: Fields, field: bytes, fid: int32, i: nat)
    requires Storable(form, pr, val, field) && FieldSize(pr, field).Success? && i < |Vector(val, field)|
    ensures field in val && FieldItems(pr, field).Success? && FieldSize(pr, field).value <= FIELD_ROOM
    ensures var items := FieldItems(pr, field).value;
            && Present(val, field, i, items) && |Memory(form, val, field, i, items)| <= FIELD_ROOM
            && Occurrences(form, pr, val, field, fid, i + 1)
               == Occurrences(form, pr, val, field, fid, i)
                  + [MakeField(fid, Memory(form, val, field, i, items), FieldSize(pr, field).value)]
  {
    hide Present, Memory, SizeOf, ItemNames, MakeField;
  }

  // All occurrences of one field.
  method PackOccurrences(form: FloatForm, pr: Protocol, field: bytes, fid: int32, size: nat, src: FtdcVariable,
                         buffer: FtdcBuffer, output: seq<Image>, head: Packet, ghost done: seq<Field>)
    returns (out: seq<Image>)
    requires Storable(form, pr, src.val, field) && FieldSize(pr, field) == Success(size)
    requires buffer.Valid() && head.Valid() && head.fields == [] && head.chain == NUL
    requires buffer.Bytes() == Pack(head, done).pending.Image() && output == Images(Pack(head, done).output)
    modifies buffer.buff
    ensures var all := done + Occurrences(form, pr, src.val, field, fid, |Vector(src.val, field)|);
            && buffer.Bytes() == Pack(head, all).pending.Image()
            && out == Images(Pack(head, all).output)
  {
    hide *;
    var count := src.FieldCount(field);
    SizedHasItems(pr, field);
    var items := FieldItems(pr, field).value;
    out := output;
    ghost var fields: seq<Field> := [];
    assert done + fields == done;
    NoOccurrences(form, pr, src.val, field, fid);
    for i := 0 to count
      invariant fields == Occurrences(form, pr, src.val, field, fid, i)
      invariant buffer.Bytes() == Pack(head, done + fields).pending.Image()
      invariant out == Images(Pack(head, done + fields).output)
    {
      NextOccurrence(form, pr, src.val, field, fid, i);
      var f := FillField(form, src, field, i, items, fid, size);
      PackSnoc(head, done + fields, f);
      ConcatAssociates(done, fields, [f]);
      out := PackField(buffer, out, head, f, Pack(head, done + fields));
      fields := fields + [f];
    }
  }

  // One entry of the package: its bounds, its lookups, its occurrences.
  method PackEntry(form: FloatForm, pr: Protocol, entry: PackageField, src: FtdcVariable, buffer: FtdcBuffer,
                   output: seq<Image>, head: Packet, ghost done: seq<Field>)
    returns (r: Result<seq<Image>>)
    requires EntryStorable(form, pr, src.val, entry)
    requires buffer.Valid() && head.Valid() && head.fields == [] && head.chain == NUL
    requires buffer.Bytes() == Pack(head, done).pending.Image() && output == Images(Pack(head, done).output)
    modifies buffer.buff
    ensures FieldsOfEntry(form, pr, src.val, entry).Failure? ==>
              && r == Failure(FieldsOfEntry(form, pr, src.val, entry).error)
              && buffer.Bytes() == old(buffer.Bytes())
    ensures FieldsOfEntry(form, pr, src.val, entry).Success? ==>
              var all := done + FieldsOfEntry(form, pr, src.val, entry).value;
              && r == Success(Images(Pack(head, all).output))
              && buffer.Bytes() == Pack(head, all).pending.Image()
  {
    hide Layout, Pack, FieldSize, Storable, Occurrences;
    var count := src.FieldCount(entry.name);
    if count > entry.maxOccur || count < entry.minOccur {
      return Failure(ContentError);
    }
    var fid := Lookup(pr.fieldIds, entry.name);
    if fid.Failure? {
      return Failure(fid.error);
    }
    var size := GetFieldSize(pr, entry.name);
    if size.Failure? {
      return Failure(size.error);
    }
    var out := PackOccurrences(form, pr, entry.name, fid.value, size.value, src, buffer, output, head, done);
    return Success(out);
  }

  lemma TitledBytes(request: Image, p: Packet)
    requires p.Valid() && Titled(p, Head(request))
    ensures var b := p.Image();
            b[0] == request[0] && b[1..5] == request[1..5] && b[5] == NUL && b[6..12] == request[6..12]
  {
    hide Layout, Le16, Le32, FromLe16, FromLe32;
    var start := p.HeaderStart();
    ContentLowerBound(p.fields);
    LayoutHeader(start, |p.fields|, Content(p.fields));
    Le32Inverse(request[1..5]);
    Le16Inverse(request[6..8]);
    Le32Inverse(request[8..12]);
    assert p.version == request[0] && p.chain == NUL;
    assert start[1..5] == request[1..5] && start[6..8] == request[6..8] && start[8..12] == request[8..12];
    assert p.Image()[..12] == start;
    assert start[6..12] == start[6..8] + start[8..12] && request[6..12] == request[6..8] + request[8..12];
    SliceOfSlice(p.Image(), 0, 12, 1, 5);
    SliceOfSlice(p.Image(), 0, 12, 6, 12);
    assert p.Image()[0..12] == start;
  }

  /** Every finished buffer carries the request's version, transaction, series and sequence number in their places. */
  lemma ReturnedHeaders(form: FloatForm, pr: Protocol, val: Fields, package: seq<PackageField>, request: Image)
    requires AllStorable(form, pr, val, package) && FieldsOfPackage(form, pr, val, package).Success?
    ensures Head(request).Valid()
    ensures forall k :: 0 <= k < |Pack(Head(request), FieldsOfPackage(form, pr, val, package).value).output| ==>
              var b := Pack(Head(request), FieldsOfPackage(form, pr, val, package).value).output[k].Image();
              b[0] == request[0] && b[1..5] == request[1..5] && b[5] == NUL && b[6..12] == request[6..12]
  {
    hide Pack, Layout, AllStorable, FieldsOfPackage, Head, Packet.HeaderStart;
    HeadValid(request);
    PackageSmall(form, pr, val, package);
    var fs := FieldsOfPackage(form, pr, val, package).value;
    PackConserves(Head(request), fs);
    forall k | 0 <= k < |Pack(Head(request), fs).output|
      ensures var b := Pack(Head(request), fs).output[k].Image();
              b[0] == request[0] && b[1..5] == request[1..5] && b[5] == NUL && b[6..12] == request[6..12]
    {
      TitledBytes(request, Pack(Head(request), fs).output[k]);
    }
  }

  /** The serialiser: checks every entry's occurrence bounds, assembles its fields and packs them.  The buffer
      still being filled at the end is not returned, as in the source. */
  method Serialize(form: FloatForm, pr: Protocol, package: seq<PackageField>, request: Image, src: FtdcVariable)
    returns (r: Result<seq<Image>>)
    requires AllStorable(form, pr, src.val, package)
    ensures Head(request).Valid()
    ensures r == Returned(Head(request), FieldsOfPackage(form, pr, src.val, package))
    ensures r.Success? ==>
              forall k :: 0 <= k < |r.value| ==>
                var b := r.value[k];
                b[0] == request[0] && b[1..5] == request[1..5] && b[5] == NUL && b[6..12] == request[6..12]
  {
    hide Layout, Pack, Storable, FieldsOfEntry, Occurrences;
    var head := Head(request);
    HeadValid(request);
    var buffer := new FtdcBuffer();
    BlankIsEmptyPacket();
    ApplyImage(EMPTY, Op.SetHeader(head.version, head.tid, NUL, head.seris, head.seqno));
    buffer.SetHeader(head.version, head.tid, NUL, head.seris, head.seqno);
    var output: seq<Image> := [];
    ghost var done: seq<Field> := [];
    PackNothing(head);
    JoinedEnds(done, FieldsOfPackage(form, pr, src.val, package));
    assert package[0..] == package;
    for k := 0 to |package|
      invariant fresh(buffer.buff) && buffer.Valid()
      invariant AllStorable(form, pr, src.val, package[k..])
      invariant FieldsOfPackage(form, pr, src.val, package)
                == Joined(done, FieldsOfPackage(form, pr, src.val, package[k..]))
      invariant buffer.Bytes() == Pack(head, done).pending.Image() && output == Images(Pack(head, done).output)
    {
      var entry := package[k];
      EntryStep(form, pr, src.val, package, k, done);
      var packed := PackEntry(form, pr, entry, src, buffer, output, head, done);
      if packed.Failure? {
        return Failure(packed.error);
      }
      output := packed.value;
      done := done + FieldsOfEntry(form, pr, src.val, entry).value;
    }
    JoinedEnds(done, FieldsOfPackage(form, pr, src.val, package));
    ReturnedHeaders(form, pr, src.val, package, request);
    return Success(output);
  }

  /** What the serialiser returns holds all the package's fields exactly when there are none to return. */
  lemma SerializeReturnsAllIff(form: FloatForm, pr: Protocol, val: Fields, package: seq<PackageField>, request: Image)
    requires AllStorable(form, pr, val, package) && FieldsOfPackage(form, pr, val, package).Success?
    ensures Head(request).Valid()
    ensures var fs := FieldsOfPackage(form, pr, val, package).value;
            var ps := Pack(Head(request), fs).output;
            && Returned(Head(request), Success(fs)) == Success(Images(ps))
            && (FieldsIn(ps) == fs <==> fs == [])
            && (ps == [] <==> |Content(fs)| <= FTDC_CONTENT_MAX_LENGTH)
  {
    hide Pack, Content, Storable, FieldsOfEntry;
    HeadValid(request);
    PackageSmall(form, pr, val, package);
    ReturnedAllIff(Head(request), FieldsOfPackage(form, pr, val, package).value);
    OneBufferHoldsAll(Head(request), FieldsOfPackage(form, pr, val, package).value);
  }
}
