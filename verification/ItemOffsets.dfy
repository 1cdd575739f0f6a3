/** Where the request parser reads the items of a field, and where the serialiser put them. */
module ItemOffsets {
  import opened Bytes
  import opened FtdProtocols
  import opened ItemValues
  import opened Wrappers

  function Total(infos: seq<TypeInfo>): nat {
    if infos == [] then 0 else Total(infos[..|infos| - 1]) + infos[|infos| - 1].length
  }

  lemma {:induction false} TotalGrows(infos: seq<TypeInfo>, k: nat)
    requires k < |infos|
    ensures Total(infos[..k]) + infos[k].length <= Total(infos)
    ensures Total(infos[..k + 1]) == Total(infos[..k]) + infos[k].length
  {
    var t := infos[..k + 1];
    assert t[..|t| - 1] == infos[..k] && t[|t| - 1] == infos[k];
    if k + 1 == |infos| {
      assert t == infos;
    } else {
      var front := infos[..|infos| - 1];
      TotalGrows(front, k);
      assert front[..k] == infos[..k];
    }
  }

  /** One item of a field's data, read at an offset. */
  function ReadAt(info: TypeInfo, data: bytes, at: nat): Option<ItemValue>
    requires Consistent(info) && at + info.length <= |data|
  {
    CreateFromData(ItemTypeOf(info.basetype), data[at..], info.length, info.precision)
  }

  /** A float item is made with the length and the precision of its type. */
  lemma FloatReadAt(info: TypeInfo, data: bytes, at: nat)
    requires ItemTypeOf(info.basetype).FloatType? && Consistent(info) && at + info.length <= |data|
    ensures var v := ReadAt(info, data, at);
            && v.Some? && v.value.FloatValue?
            && v.value.length == info.length && v.value.precision == info.precision
            && v.value.text == CText(data[at..], |data| - at)
  {
  }

  // As laid out, item `k` starts behind the items before it; the parser reads each from the field's first byte.
  function LaidOut(infos: seq<TypeInfo>, data: bytes, k: nat): Option<ItemValue>
    requires k < |infos| && Consistent(infos[k]) && |data| == Total(infos)
  {
    TotalGrows(infos, k);
    ReadAt(infos[k], data, Total(infos[..k]))
  }

  predicate ReadRight(infos: seq<TypeInfo>, data: bytes, k: nat)
    requires k < |infos| && Consistent(infos[k]) && |data| == Total(infos)
  {
    TotalGrows(infos, k);
    ReadAt(infos[k], data, 0) == LaidOut(infos, data, k)
  }

  // ---- The bytes a value is made from ----

  predicate IsFloat(info: TypeInfo) {
    ItemTypeOf(info.basetype).FloatType?
  }

  /** How many bytes decide the value.  An unknown type has none: its value is the null pointer. */
  function Span(info: TypeInfo): nat {
    if ItemTypeOf(info.basetype).StringType? then info.length else Needed(ItemTypeOf(info.basetype), info.length)
  }

  function Made(info: TypeInfo, own: bytes): Option<ItemValue>
    requires |own| == Span(info)
  {
    CreateFromData(ItemTypeOf(info.basetype), own, info.length, info.precision)
  }

  lemma {:induction false} CTextOwnBytes(p: bytes, length: nat)
    requires length <= |p|
    ensures CText(p, length) == CText(p[..length], length)
  {
    if length == 0 {
    } else {
      assert p[..length][1..] == p[1..][..length - 1];
      CTextOwnBytes(p[1..], length - 1);
    }
  }

  /** A value is made from its own bytes alone. */
  lemma OwnBytesOnly(info: TypeInfo, data: bytes, at: nat)
    requires Consistent(info) && !IsFloat(info) && at + info.length <= |data|
    ensures Span(info) <= info.length
    ensures ReadAt(info, data, at) == Made(info, data[at..at + Span(info)])
  {
    var m, p := Span(info), data[at..];
    var own := data[at..at + m];
    assert p[..m] == own && own[..m] == own;
    match ItemTypeOf(info.basetype)
    case StringType => CTextOwnBytes(p, m);
    case CharType => assert p[0] == own[0];
    case _ =>
  }

  predicate IsText(info: TypeInfo) {
    ItemTypeOf(info.basetype).NumberType? || ItemTypeOf(info.basetype).StringType?
  }

  lemma MadeText(info: TypeInfo, own: bytes)
    requires |own| == Span(info)
    ensures ItemTypeOf(info.basetype).NumberType? ==>
              Made(info, own) == Some(NumberValue(ReadInt(own), info.length))
    ensures ItemTypeOf(info.basetype).StringType? ==>
              Made(info, own) == Some(StringValue(ReadWord(CText(own, |own|)), info.length))
  {
    assert own[..|own|] == own;
  }

  lemma WordTellsApart(p: bytes, q: bytes)
    requires |p| == |q| == 2 && p != q
    ensures FromLe16(p) != FromLe16(q)
  {
    assert p[0] != q[0] || p[1] != q[1];
  }

  lemma IntTellsApart(p: bytes, q: bytes)
    requires |p| == |q| == 4 && p[..3] == q[..3] && p[3] != q[3]
    ensures FromLeInt(p) != FromLeInt(q)
  {
    hide FromLe16;
    assert p[..2] == p[..3][..2] == q[..3][..2] == q[..2];
    assert p[2..][1] == p[3] && q[2..][1] == q[3];
    WordTellsApart(p[2..], q[2..]);
  }

  // The last byte of a raw value shows in it.
  lemma RawTellsApart(info: TypeInfo, p: bytes, q: bytes)
    requires !IsText(info) && !IsFloat(info) && |p| == |q| == Span(info) >= 1
    requires p[..|p| - 1] == q[..|q| - 1] && p[|p| - 1] != q[|q| - 1]
    ensures Made(info, p) != Made(info, q)
  {
    hide ItemTypeOf, FromLeInt, FromLe16;
    match ItemTypeOf(info.basetype)
    case IntType =>
      assert p[..4] == p && q[..4] == q;
      IntTellsApart(p, q);
    case WordType =>
      assert p[..2] == p && q[..2] == q;
      WordTellsApart(p, q);
    case _ =>
  }

  // ---- Values laid out one behind the other ----

  /** The value is of the described type and length. */
  predicate Suits(info: TypeInfo, v: ItemValue) {
    v.Type() == ItemTypeOf(info.basetype) && v.Size() == info.length
  }

  predicate Describes(infos: seq<TypeInfo>, vs: seq<ItemValue>) {
    |vs| == |infos| && forall k :: 0 <= k < |vs| ==> Suits(infos[k], vs[k])
  }

  function DataOf(form: FloatForm, vs: seq<ItemValue>): bytes {
    if vs == [] then [] else DataOf(form, vs[..|vs| - 1]) + vs[|vs| - 1].Wire(form)
  }

  /** A field's data is as long as the sum of the lengths its items report. */
  lemma {:induction false} DataOfLength(form: FloatForm, infos: seq<TypeInfo>, vs: seq<ItemValue>)
    requires Describes(infos, vs)
    ensures |DataOf(form, vs)| == Total(infos)
  {
    if vs == [] {
    } else {
      DataOfLength(form, infos[..|infos| - 1], vs[..|vs| - 1]);
    }
  }

  lemma {:induction false} DataOfConcat(form: FloatForm, vs: seq<ItemValue>, ws: seq<ItemValue>)
    ensures DataOf(form, vs + ws) == DataOf(form, vs) + DataOf(form, ws)
    decreases |ws|
  {
    hide ItemValue.Wire;
    if ws == [] {
      assert vs + ws == vs;
    } else {
      var last := |ws| - 1;
      assert (vs + ws)[..|vs + ws| - 1] == vs + ws[..last];
      DataOfConcat(form, vs, ws[..last]);
    }
  }

  // The data with the `k`-th value replaced: the same bytes around the value's own.
  lemma DataOfAround(form: FloatForm, vs: seq<ItemValue>, k: nat, v: ItemValue)
    requires k < |vs|
    ensures DataOf(form, vs[k := v]) == DataOf(form, vs[..k]) + v.Wire(form) + DataOf(form, vs[k + 1..])
  {
    hide ItemValue.Wire;
    assert vs[k := v] == vs[..k] + [v] + vs[k + 1..];
    DataOfConcat(form, vs[..k] + [v], vs[k + 1..]);
    DataOfConcat(form, vs[..k], [v]);
    assert [v][..0] == [] && [] + v.Wire(form) == v.Wire(form);
  }

  lemma DataOfPart(form: FloatForm, infos: seq<TypeInfo>, vs: seq<ItemValue>, k: nat)
    requires Describes(infos, vs) && k < |vs|
    ensures |DataOf(form, vs)| == Total(infos) && Total(infos[..k]) + infos[k].length <= Total(infos)
    ensures DataOf(form, vs)[Total(infos[..k])..Total(infos[..k]) + infos[k].length] == vs[k].Wire(form)
  {
    hide ItemTypeOf, ItemValue.Wire, DataOf, Total;
    DataOfLength(form, infos, vs);
    DataOfLength(form, infos[..k], vs[..k]);
    TotalGrows(infos, k);
    DataOfAround(form, vs, k, vs[k]);
    assert vs[k := vs[k]] == vs;
    var front, w, back := DataOf(form, vs[..k]), vs[k].Wire(form), DataOf(form, vs[k + 1..]);
    assert (front + w + back)[|front|..|front| + |w|] == w;
  }

  lemma SuitsConsistent(info: TypeInfo, v: ItemValue)
    requires Suits(info, v)
    ensures Consistent(info) && (IsFloat(info) <==> v.FloatValue?)
  {
  }

  lemma PrecisionUnused(t: ItemType, p: bytes, length: nat, precision: nat)
    requires Needed(t, length) <= |p| && !t.FloatType?
    ensures CreateFromData(t, p, length, precision) == CreateFromData(t, p, length, 0)
  {
  }

  lemma MadeFromData(info: TypeInfo, v: ItemValue)
    requires Suits(info, v) && !v.FloatValue?
    ensures Consistent(info) && 0 + info.length <= |v.Data()|
    ensures ReadAt(info, v.Data(), 0) == Some(v) <==> v.Representable()
  {
    hide ItemValue.Data, CreateFromData, ItemValue.Representable;
    SuitsConsistent(info, v);
    RoundTripIff(v);
    assert v.Data()[0..] == v.Data();
    PrecisionUnused(v.Type(), v.Data(), info.length, info.precision);
  }

  lemma DescribedAt(form: FloatForm, infos: seq<TypeInfo>, vs: seq<ItemValue>, k: nat)
    requires Describes(infos, vs) && k < |vs| && !vs[k].FloatValue?
    ensures |infos| == |vs| && Suits(infos[k], vs[k]) && Consistent(infos[k]) && !IsFloat(infos[k])
    ensures vs[k].Wire(form) == vs[k].Data() && |vs[k].Data()| == infos[k].length
  {
    hide ItemValue.Data;
  }

  lemma LaidOutAt(infos: seq<TypeInfo>, data: bytes, k: nat)
    requires k < |infos| && Consistent(infos[k]) && |data| == Total(infos)
    ensures Total(infos[..k]) + infos[k].length <= |data|
    ensures LaidOut(infos, data, k) == ReadAt(infos[k], data, Total(infos[..k]))
  {
    TotalGrows(infos, k);
  }

  /** Read where it was laid out, a value comes back exactly when its wire form can carry it, whatever the values
      around it and whatever floats among them look like. */
  lemma LaidOutRecoversIff(form: FloatForm, infos: seq<TypeInfo>, vs: seq<ItemValue>, k: nat)
    requires Describes(infos, vs) && k < |vs| && !vs[k].FloatValue?
    ensures Consistent(infos[k]) && |DataOf(form, vs)| == Total(infos)
    ensures LaidOut(infos, DataOf(form, vs), k) == Some(vs[k]) <==> vs[k].Representable()
  {
    hide *;
    DescribedAt(form, infos, vs, k);
    DataOfPart(form, infos, vs, k);
    var d, own, at, m := DataOf(form, vs), vs[k].Data(), Total(infos[..k]), Span(infos[k]);
    MadeFromData(infos[k], vs[k]);
    LaidOutAt(infos, d, k);
    OwnBytesOnly(infos[k], d, at);
    OwnBytesOnly(infos[k], own, 0);
    SliceOfSlice(d, at, at + infos[k].length, 0, m);
    assert own[0..0 + m] == d[at..at + m];
  }
}
