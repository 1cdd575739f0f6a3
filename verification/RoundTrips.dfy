/** A variable serialised into one buffer and parsed out of it again. */
module RoundTrips {
  import opened Bytes
  import opened Ftd
  import opened FtdcBuffers
  import opened FtdcContents
  import opened FtdcParsing
  import opened FtdcVariables
  import opened FtdProtocols
  import opened ItemOffsets
  import opened ItemProbes
  import opened ItemValues
  import opened Packing
  import opened Records
  import opened Wrappers

  // ---- One field ----

  /** The variable holds these values for the listed items of one occurrence. */
  predicate Holds(val: Fields, field: bytes, index: nat, items: seq<bytes>, vs: seq<ItemValue>) {
    |vs| == |items| && forall k :: 0 <= k < |items| ==> GetItem(val, field, index, items[k]) == Some(vs[k])
  }

  lemma {:induction false} MemoryIsData(form: FloatForm, val: Fields, field: bytes, index: nat, items: seq<bytes>,
                                        vs: seq<ItemValue>)
    requires Holds(val, field, index, items, vs)
    ensures Present(val, field, index, items) && Memory(form, val, field, index, items) == DataOf(form, vs)
  {
    hide GetItem, ItemValue.Wire;
    if items == [] {
    } else {
      MemoryIsData(form, val, field, index, items[..|items| - 1], vs[..|vs| - 1]);
    }
  }

  /** Whatever values an occurrence holds, its serialised field has the size the protocol gives it, and reading an
      item where it was laid out gives its value back exactly when the wire form can carry it. */
  lemma SerialisedFieldRecoversIff(form: FloatForm, val: Fields, field: bytes, index: nat, items: seq<bytes>,
                                   infos: seq<TypeInfo>, vs: seq<ItemValue>, fid: int32)
    requires Holds(val, field, index, items, vs) && Describes(infos, vs) && Total(infos) <= FIELD_ROOM
    ensures Present(val, field, index, items) && |Memory(form, val, field, index, items)| == Total(infos)
    ensures var data := MakeField(fid, Memory(form, val, field, index, items), Total(infos)).data;
            && data == DataOf(form, vs)
            && forall k :: 0 <= k < |vs| && !vs[k].FloatValue? ==>
                 && Consistent(infos[k]) && |data| == Total(infos)
                 && (LaidOut(infos, data, k) == Some(vs[k]) <==> vs[k].Representable())
  {
    hide GetItem, LaidOut, DataOf, Total, Memory, Consistent, ItemValue.Representable;
    MemoryIsData(form, val, field, index, items, vs);
    DataOfLength(form, infos, vs);
    assert MakeField(fid, DataOf(form, vs), Total(infos)).data == DataOf(form, vs);
    forall k | 0 <= k < |vs| && !vs[k].FloatValue?
      ensures && Consistent(infos[k]) && |DataOf(form, vs)| == Total(infos)
              && (LaidOut(infos, DataOf(form, vs), k) == Some(vs[k]) <==> vs[k].Representable())
    {
      LaidOutRecoversIff(form, infos, vs, k);
    }
  }

  // ---- Where a package's fields stand ----

  /** Each entry's name has an id that leads back to it. */
  predicate Matched(pr: Protocol, package: seq<PackageField>) {
    forall e :: 0 <= e < |package| ==>
      && package[e].name in pr.fieldIds && pr.fieldIds[package[e].name] in pr.fieldNames
      && pr.fieldNames[pr.fieldIds[package[e].name]] == package[e].name
  }

  /** No two entries share a name. */
  predicate NamedOnce(package: seq<PackageField>) {
    forall d, e :: 0 <= d < e < |package| ==> package[d].name != package[e].name
  }

  lemma {:induction false} OccurrenceAt(form: FloatForm, pr: Protocol, val: Fields, field: bytes, fid: int32, n: nat,
                                        i: nat)
    requires Storable(form, pr, val, field) && FieldSize(pr, field).Success? && i < n <= |Vector(val, field)|
    ensures FieldItems(pr, field).Success? && |Occurrences(form, pr, val, field, fid, n)| == n
    ensures var items := FieldItems(pr, field).value;
            && Present(val, field, i, items) && |Memory(form, val, field, i, items)| <= FIELD_ROOM
            && FieldSize(pr, field).value <= FIELD_ROOM
            && Occurrences(form, pr, val, field, fid, n)[i]
               == MakeField(fid, Memory(form, val, field, i, items), FieldSize(pr, field).value)
  {
    hide Present, Memory, FieldSize, FieldItems, MakeField;
    OccurrencesSmall(form, pr, val, field, fid, n);
    NextOccurrence(form, pr, val, field, fid, n - 1);
    if i >= n - 1 {
    } else {
      OccurrenceAt(form, pr, val, field, fid, n - 1, i);
    }
  }

  lemma {:induction false} CountPrefix(fs: seq<Field>, gs: seq<Field>, j: nat, fid: int32)
    requires j <= |fs|
    ensures CountBefore(fs + gs, j, fid) == CountBefore(fs, j, fid)
  {
    if j == 0 {
    } else {
      CountPrefix(fs, gs, j - 1, fid);
    }
  }

  lemma {:induction false} CountConcat(fs: seq<Field>, gs: seq<Field>, j: nat, fid: int32)
    requires j <= |gs|
    ensures CountBefore(fs + gs, |fs| + j, fid) == CountBefore(fs, |fs|, fid) + CountBefore(gs, j, fid)
  {
    if j == 0 {
      CountPrefix(fs, gs, |fs|, fid);
    } else {
      CountConcat(fs, gs, j - 1, fid);
    }
  }

  lemma {:induction false} CountAll(fs: seq<Field>, j: nat, fid: int32)
    requires j <= |fs|
    ensures (forall m :: 0 <= m < j ==> fs[m].fid == fid) ==> CountBefore(fs, j, fid) == j
    ensures (forall m :: 0 <= m < j ==> fs[m].fid != fid) ==> CountBefore(fs, j, fid) == 0
  {
    if j == 0 {
    } else {
      CountAll(fs, j - 1, fid);
    }
  }

  lemma {:induction false} OccurrenceIds(form: FloatForm, pr: Protocol, val: Fields, field: bytes, fid: int32, n: nat)
    requires Storable(form, pr, val, field) && FieldSize(pr, field).Success? && n <= |Vector(val, field)|
    ensures |Occurrences(form, pr, val, field, fid, n)| == n
    ensures forall m :: 0 <= m < n ==> Occurrences(form, pr, val, field, fid, n)[m].fid == fid
    ensures forall m :: 0 <= m < n ==>
              FieldSize(pr, field) == Success(|Occurrences(form, pr, val, field, fid, n)[m].data|)
  {
    hide Storable, FieldSize, FieldItems, Occurrences;
    OccurrencesSmall(form, pr, val, field, fid, n);
    forall m | 0 <= m < n
      ensures Occurrences(form, pr, val, field, fid, n)[m].fid == fid
      ensures FieldSize(pr, field) == Success(|Occurrences(form, pr, val, field, fid, n)[m].data|)
    {
      OccurrenceAt(form, pr, val, field, fid, n, m);
    }
  }

  // The fields of a package are those of its first entry and then those of the others.
  lemma PackageFront(form: FloatForm, pr: Protocol, val: Fields, package: seq<PackageField>)
    requires AllStorable(form, pr, val, package) && package != []
    requires FieldsOfPackage(form, pr, val, package).Success? && Matched(pr, package)
    ensures AllStorable(form, pr, val, package[1..]) && FieldsOfPackage(form, pr, val, package[1..]).Success?
    ensures Matched(pr, package[1..])
    ensures var name := package[0].name;
            && Storable(form, pr, val, name) && name in pr.fieldIds && FieldSize(pr, name).Success?
            && FieldsOfPackage(form, pr, val, package).value
               == Occurrences(form, pr, val, name, pr.fieldIds[name], |Vector(val, name)|)
                  + FieldsOfPackage(form, pr, val, package[1..]).value
  {
    hide Storable, FieldSize, Occurrences;
  }

  /** The `i`-th occurrence of an entry's field is in the package's fields, numbered `i` among those of its id. */
  lemma {:induction false} OccurrencePlace(form: FloatForm, pr: Protocol, val: Fields, package: seq<PackageField>,
                                           e: nat, i: nat) returns (j: nat)
    requires AllStorable(form, pr, val, package) && FieldsOfPackage(form, pr, val, package).Success?
    requires Matched(pr, package) && NamedOnce(package) && e < |package| && i < |Vector(val, package[e].name)|
    ensures var fs, name := FieldsOfPackage(form, pr, val, package).value, package[e].name;
            && j < |fs| && name in pr.fieldIds && fs[j].fid == pr.fieldIds[name]
            && CountBefore(fs, j, fs[j].fid) == i
            && FieldItems(pr, name).Success? && FieldSize(pr, name).Success? && FieldSize(pr, name).value <= FIELD_ROOM
            && Present(val, name, i, FieldItems(pr, name).value)
            && |Memory(form, val, name, i, FieldItems(pr, name).value)| <= FIELD_ROOM
            && fs[j] == MakeField(fs[j].fid, Memory(form, val, name, i, FieldItems(pr, name).value),
                                  FieldSize(pr, name).value)
    decreases |package|
  {
    hide Storable, FieldSize, FieldItems, Occurrences, CountBefore, Present, Memory, MakeField;
    PackageFront(form, pr, val, package);
    var name := package[0].name;
    var fid, n := pr.fieldIds[name], |Vector(val, name)|;
    var first, later := Occurrences(form, pr, val, name, fid, n), FieldsOfPackage(form, pr, val, package[1..]).value;
    OccurrenceIds(form, pr, val, name, fid, n);
    if e == 0 {
      j := i;
      OccurrenceAt(form, pr, val, name, fid, n, i);
      CountPrefix(first, later, i, fid);
      CountAll(first, i, fid);
    } else {
      var m := OccurrencePlace(form, pr, val, package[1..], e - 1, i);
      j := |first| + m;
      CountConcat(first, later, m, later[m].fid);
      CountAll(first, |first|, later[m].fid);
    }
  }

  lemma {:induction false} FieldsBelong(form: FloatForm, pr: Protocol, val: Fields, package: seq<PackageField>, j: nat)
    requires AllStorable(form, pr, val, package) && FieldsOfPackage(form, pr, val, package).Success?
    requires Matched(pr, package) && j < |FieldsOfPackage(form, pr, val, package).value|
    ensures var f := FieldsOfPackage(form, pr, val, package).value[j];
            && f.fid in pr.fieldNames && InPackage(package, pr.fieldNames[f.fid])
            && pr.fieldNames[f.fid] in pr.fieldIds && pr.fieldIds[pr.fieldNames[f.fid]] == f.fid
            && FieldSize(pr, pr.fieldNames[f.fid]) == Success(|f.data|)
    decreases |package|
  {
    hide Storable, FieldSize, FieldItems, Occurrences;
    PackageFront(form, pr, val, package);
    var name := package[0].name;
    var first := Occurrences(form, pr, val, name, pr.fieldIds[name], |Vector(val, name)|);
    OccurrenceIds(form, pr, val, name, pr.fieldIds[name], |Vector(val, name)|);
    if j >= |first| {
      FieldsBelong(form, pr, val, package[1..], j - |first|);
      var other := pr.fieldNames[FieldsOfPackage(form, pr, val, package).value[j].fid];
      var d :| 0 <= d < |package[1..]| && package[1..][d].name == other;
      assert package[d + 1].name == other;
    }
  }

  // ---- One buffer ----

  /** A package's fields that fit one buffer are all in the pending one. */
  lemma OneBuffer(request: Image, fs: seq<Field>)
    requires Small(fs) && |Content(fs)| <= FTDC_CONTENT_MAX_LENGTH
    ensures Head(request).Valid()
    ensures var p := Pack(Head(request), fs).pending; p.fields == fs && FieldsOf(p.Image()) == fs
    ensures FieldCount(Pack(Head(request), fs).pending.Image()) == |fs|
  {
    hide Pack, Content, FieldsOf, Layout;
    HeadValid(request);
    var s := Pack(Head(request), fs);
    OneBufferHoldsAll(Head(request), fs);
    PackConserves(Head(request), fs);
    assert FieldsIn(s.output) + s.pending.fields == s.pending.fields;
    FieldsOfImage(s.pending);
    ImageHeader(s.pending);
  }

  // The field shows, at its start, a text of every enumeration among its items.
  predicate FieldAccepted(pr: Protocol, f: Field) {
    && f.fid in pr.fieldNames && FieldSize(pr, pr.fieldNames[f.fid]).Success?
    && Accepted(InfosOf(pr, FieldItems(pr, pr.fieldNames[f.fid]).value), f.data)
  }

  /** What the serialiser made of a variable, the parser accepts exactly when it accepts every field's start. */
  lemma SerialisedParsesIff(form: FloatForm, pr: Protocol, val: Fields, package: seq<PackageField>)
    requires TypesConsistent(pr) && Matched(pr, package)
    requires AllStorable(form, pr, val, package) && FieldsOfPackage(form, pr, val, package).Success?
    ensures var fs := FieldsOfPackage(form, pr, val, package).value;
            PacketWrites(pr, package, fs, |fs|).Success? <==> forall j :: 0 <= j < |fs| ==> FieldAccepted(pr, fs[j])
  {
    hide FieldWrites, FieldItems, Accepted, InfosOf, AllStorable, FieldsOfPackage, Matched, InPackage, PacketWrites,
         FieldSize;
    var fs := FieldsOfPackage(form, pr, val, package).value;
    PacketWritesIff(pr, package, fs, |fs|);
    forall j | 0 <= j < |fs| ensures FieldWrites(pr, package, fs, j).Success? <==> FieldAccepted(pr, fs[j]) {
      FieldsBelong(form, pr, val, package, j);
      FieldWritesIff(pr, package, fs, j);
    }
  }

  lemma FieldNamesDiffer(form: FloatForm, pr: Protocol, val: Fields, package: seq<PackageField>)
    requires AllStorable(form, pr, val, package) && FieldsOfPackage(form, pr, val, package).Success?
    requires Matched(pr, package)
    ensures NamesDiffer(pr.fieldNames, FieldsOfPackage(form, pr, val, package).value)
  {
    hide AllStorable, FieldsOfPackage, Matched, InPackage, FieldSize;
    var fs := FieldsOfPackage(form, pr, val, package).value;
    forall j | 0 <= j < |fs|
      ensures fs[j].fid in pr.fieldNames && pr.fieldNames[fs[j].fid] in pr.fieldIds
      ensures pr.fieldIds[pr.fieldNames[fs[j].fid]] == fs[j].fid
    {
      FieldsBelong(form, pr, val, package, j);
    }
  }

  lemma DataFits(form: FloatForm, infos: seq<TypeInfo>, vs: seq<ItemValue>, k: nat)
    requires Describes(infos, vs) && k < |infos|
    ensures |DataOf(form, vs)| == Total(infos) && infos[k].length <= Total(infos) && |infos| == |vs|
    ensures Suits(infos[k], vs[k])
  {
    DataOfLength(form, infos, vs);
    TotalGrows(infos, k);
  }

  lemma SizedField(pr: Protocol, name: bytes, items: seq<bytes>)
    requires FieldItems(pr, name) == Success(items)
    ensures FieldSize(pr, name) == SizeOf(pr, items)
  {
    hide ItemNames, SizeOf;
  }

  lemma MatchedName(pr: Protocol, package: seq<PackageField>, e: nat)
    requires Matched(pr, package) && e < |package|
    ensures package[e].name in pr.fieldIds && pr.fieldIds[package[e].name] in pr.fieldNames
    ensures pr.fieldNames[pr.fieldIds[package[e].name]] == package[e].name
  {
  }

  lemma CellShown(pr: Protocol, name: bytes, index: nat, item: bytes, data: bytes, cell: Item)
    requires FromStart(pr, name, index, item, data, Write(name, index, item, cell))
    ensures ItemInfo(pr, item).Success? && Consistent(ItemInfo(pr, item).value)
    ensures ItemInfo(pr, item).value.length <= |data| && cell == ReadAt(ItemInfo(pr, item).value, data, 0)
  {
  }

  /** Parsed out of the buffer it was serialised into, a cell shows what its field's first bytes show; an item that
      starts its field comes back exactly when its wire form can carry it. */
  lemma OneBufferComesBack(form: FloatForm, pr: Protocol, val: Fields, package: seq<PackageField>, request: Image,
                           e: nat, i: nat, items: seq<bytes>, vs: seq<ItemValue>, k: nat)
    requires TypesConsistent(pr) && Matched(pr, package) && NamedOnce(package)
    requires AllStorable(form, pr, val, package) && FieldsOfPackage(form, pr, val, package).Success?
    requires |Content(FieldsOfPackage(form, pr, val, package).value)| <= FTDC_CONTENT_MAX_LENGTH
    requires e < |package| && i < |Vector(val, package[e].name)|
    requires FieldItems(pr, package[e].name) == Success(items) && SizeOf(pr, items).Success?
    requires k < |items| && Holds(val, package[e].name, i, items, vs)
    requires Describes(InfosOf(pr, items), vs) && !vs[k].FloatValue?
    ensures Head(request).Valid() && Consistent(InfosOf(pr, items)[k])
    ensures InfosOf(pr, items)[k].length <= |DataOf(form, vs)|
    ensures var sent := Pack(Head(request), FieldsOfPackage(form, pr, val, package).value).pending;
            var fs, infos := FieldsOf(sent.Image()), InfosOf(pr, items);
            PacketWrites(pr, package, fs, |fs|).Success? ==>
              var cell := GetItem(AfterWrites(map[], PacketWrites(pr, package, fs, |fs|).value),
                                  package[e].name, i, items[k]);
              && cell == ReadAt(infos[k], DataOf(form, vs), 0)
              && (AtStart(infos, k) ==> (cell == Some(vs[k]) <==> vs[k].Representable()))
  {
    hide *;
    var fs, infos, name := FieldsOfPackage(form, pr, val, package).value, InfosOf(pr, items), package[e].name;
    PackageSmall(form, pr, val, package);
    OneBuffer(request, fs);
    InfosConsistent(pr, items, k);
    SizeIsTotal(pr, items);
    DataFits(form, infos, vs, k);
    var j := OccurrencePlace(form, pr, val, package, e, i);
    SizedField(pr, name, items);
    SerialisedFieldRecoversIff(form, val, name, i, items, infos, vs, fs[j].fid);
    MatchedName(pr, package, e);
    if PacketWrites(pr, package, fs, |fs|).Success? {
      FieldNamesDiffer(form, pr, val, package);
      ParsedCell(pr, package, fs, j, k);
      CellShown(pr, name, i, items[k], fs[j].data,
                GetItem(AfterWrites(map[], PacketWrites(pr, package, fs, |fs|).value), name, i, items[k]));
      if AtStart(infos, k) {
        SuitsConsistent(infos[k], vs[k]);
        AtStartReadRight(infos, k, fs[j].data);
        RightShows(infos, fs[j].data, k);
      }
    }
  }

  // ---- A protocol of one field with two one-character items ----

  const PAIR := Protocol(map[7 := "Pair"], map["Pair" := 7], map["Pair" := "A;B;"],
                         map["A" := CHAR_TYPE, "B" := CHAR_TYPE], map[])

  const PAIR_PACKAGE := [PackageField("Pair", 1, 1)]

  const PAIR_VALUES: Fields := map["Pair" := [map["A" := Some(CharValue('x')), "B" := Some(CharValue('y'))]]]

  const ONE_CHAR := TypeInfo(CHAR_TYPE, 1, 0, [])

  lemma PairText()
    ensures Render(ItemRecords(["A", "B"])) == "A;B;"
  {
    assert ["A", "B"][1..] == ["B"] && ["B"][1..] == [];
    assert ItemRecords(["B"]) == [["B"]];
    assert ItemRecords(["A", "B"]) == [["A"], ["B"]];
    assert [["A"], ["B"]][1..] == [["B"]] && [["B"]][1..] == [];
    assert Render([["B"]]) == "B;";
  }

  lemma CharInfo(types: map<bytes, TypeRow>)
    ensures GetTypeInfo(CHAR_TYPE, types) == Success(ONE_CHAR) && Consistent(ONE_CHAR)
    ensures ItemTypeOf(CHAR_TYPE) == CharType
  {
    PlainSpellings();
  }

  lemma PairItems()
    ensures FieldItems(PAIR, "Pair") == Success(["A", "B"])
    ensures ItemInfo(PAIR, "A") == ItemInfo(PAIR, "B") == Success(ONE_CHAR)
    ensures SizeOf(PAIR, ["A", "B"]) == Success(2) && FieldSize(PAIR, "Pair") == Success(2)
    ensures TypesConsistent(PAIR)
  {
    hide ItemNames, GetTypeInfo;
    ItemListRead(["A", "B"]);
    PairText();
    CharInfo(PAIR.types);
    assert ["A", "B"][1..] == ["B"] && ["B"][1..] == [];
    assert SizeOf(PAIR, []) == Success(0);
    assert SizeOf(PAIR, ["B"]) == Success(1);
  }

  lemma CharRead(data: bytes)
    requires data != []
    ensures Consistent(ONE_CHAR) && ReadAt(ONE_CHAR, data, 0) == Some(CharValue(data[0]))
  {
    PlainSpellings();
  }

  lemma PairMemory(form: FloatForm)
    ensures Present(PAIR_VALUES, "Pair", 0, ["A", "B"])
    ensures Memory(form, PAIR_VALUES, "Pair", 0, ["A", "B"]) == "xy"
    ensures MakeField(7, "xy", 2) == Field(7, "xy")
  {
    assert ["A", "B"][..1] == ["A"] && ["A"][..0] == [];
    assert Memory(form, PAIR_VALUES, "Pair", 0, ["A"]) == "x";
  }

  lemma PairFields(form: FloatForm)
    ensures AllStorable(form, PAIR, PAIR_VALUES, PAIR_PACKAGE)
    ensures FieldsOfPackage(form, PAIR, PAIR_VALUES, PAIR_PACKAGE) == Success([Field(7, "xy")])
  {
    hide Memory, Present, FieldSize, FieldItems, MakeField;
    PairItems();
    PairMemory(form);
    var f := Field(7, "xy");
    assert Storable(form, PAIR, PAIR_VALUES, "Pair");
    assert Occurrences(form, PAIR, PAIR_VALUES, "Pair", 7, 0) == [];
    assert Occurrences(form, PAIR, PAIR_VALUES, "Pair", 7, 1) == [f];
    assert FieldsOfEntry(form, PAIR, PAIR_VALUES, PAIR_PACKAGE[0]) == Success([f]);
    assert PAIR_PACKAGE[1..] == [] && [f] + [] == [f];
    assert FieldsOfPackage(form, PAIR, PAIR_VALUES, []) == Success([]);
  }

  lemma OneFieldContent(f: Field)
    ensures |Content([f])| == EntitySize(f)
  {
    ContentSnoc([], f);
    assert [] + [f] == [f];
  }

  /** The one field of this variable is packed and not returned ... */
  lemma PairIsLost(form: FloatForm, request: Image)
    ensures AllStorable(form, PAIR, PAIR_VALUES, PAIR_PACKAGE) && Head(request).Valid()
    ensures FieldsOfPackage(form, PAIR, PAIR_VALUES, PAIR_PACKAGE) == Success([Field(7, "xy")])
    ensures Returned(Head(request), FieldsOfPackage(form, PAIR, PAIR_VALUES, PAIR_PACKAGE)) == Success([])
  {
    hide FieldsOfPackage, AllStorable, Pack, Content;
    PairFields(form);
    HeadValid(request);
    OneBufferHoldsAll(Head(request), [Field(7, "xy")]);
    OneFieldContent(Field(7, "xy"));
    assert Images([]) == [];
  }

  lemma PairItemWrites()
    ensures TypesConsistent(PAIR) && Sized(PAIR, ["A", "B"], "xy")
    ensures ItemWrites(PAIR, "Pair", 0, ["A", "B"], "xy")
            == Success([Write("Pair", 0, "A", Some(CharValue('x'))), Write("Pair", 0, "B", Some(CharValue('x')))])
  {
    hide ReadAt, GetTypeInfo, ItemWrites;
    PairItems();
    CharRead("xy");
    var items := ["A", "B"];
    assert items[0..] == items && items[1..] == ["B"] && items[2..] == [];
    var a, b := Write("Pair", 0, "A", Some(CharValue('x'))), Write("Pair", 0, "B", Some(CharValue('x')));
    ItemStep(PAIR, "Pair", 0, items, "xy", 0);
    ItemStep(PAIR, "Pair", 0, items, "xy", 1);
    ItemWritesEnd(PAIR, "Pair", 0, items[2..], "xy");
    assert [b] + [] == [b] && [a] + [b] == [a, b];
  }

  /** ... and were it sent, the parser would accept it and show the first character for both items. */
  lemma SecondCharacterMisread()
    ensures TypesConsistent(PAIR)
    ensures PacketWrites(PAIR, PAIR_PACKAGE, [Field(7, "xy")], 1)
            == Success([Write("Pair", 0, "A", Some(CharValue('x'))), Write("Pair", 0, "B", Some(CharValue('x')))])
  {
    hide FieldItems, ItemWrites, SizeOf;
    PairItems();
    PairItemWrites();
    var fs := [Field(7, "xy")];
    assert PAIR_PACKAGE[0].name == "Pair";
    assert CountBefore(fs, 0, 7) == 0;
    assert FieldWrites(PAIR, PAIR_PACKAGE, fs, 0) == ItemWrites(PAIR, "Pair", 0, ["A", "B"], "xy");
    assert PacketWrites(PAIR, PAIR_PACKAGE, fs, 0) == Success([]);
    var ws := FieldWrites(PAIR, PAIR_PACKAGE, fs, 0).value;
    assert [] + ws == ws;
    assert PacketWrites(PAIR, PAIR_PACKAGE, fs, 1) == Success(ws);
  }
}
