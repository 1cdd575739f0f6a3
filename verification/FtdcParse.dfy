/** From a request buffer to the variable. */
module FtdcParsing {
  import opened Bytes
  import opened Ftd
  import opened FtdcBuffers
  import opened FtdcVariables
  import opened FtdProtocols
  import opened ItemOffsets
  import opened ItemProbes
  import opened ItemValues
  import opened Wrappers

  /** No item's value is made from more bytes than its type reports. */
  ghost predicate TypesConsistent(pr: Protocol) {
    forall item :: item in pr.itemTypes && ItemInfo(pr, item).Success? ==> Consistent(ItemInfo(pr, item).value)
  }

  /** It is enough that the rows of the type table are consistent: the built-in spellings always are. */
  lemma RowsDecideConsistency(pr: Protocol)
    requires forall t :: t in pr.types ==> var r := pr.types[t]; Needed(ItemTypeOf(r.basetype), r.length) <= r.length
    ensures TypesConsistent(pr)
  {
    hide ItemTypeOf, OneArgument, TwoArguments;
    forall item | item in pr.itemTypes && ItemInfo(pr, item).Success?
      ensures Consistent(ItemInfo(pr, item).value)
    {
      var spelling := pr.itemTypes[item];
      if BuiltIn(spelling) {
        BuiltInConsistent(spelling, pr.types);
      }
    }
  }

  // How many of the fields before the `j`-th carry the given id.
  function CountBefore(fs: seq<Field>, j: nat, fid: int32): nat
    requires j <= |fs|
  {
    if j == 0 then 0 else CountBefore(fs, j - 1, fid) + if fs[j - 1].fid == fid then 1 else 0
  }

  predicate InPackage(package: seq<PackageField>, name: bytes) {
    exists i :: 0 <= i < |package| && package[i].name == name
  }

  predicate Sized(pr: Protocol, items: seq<bytes>, data: bytes) {
    SizeOf(pr, items).Success? && SizeOf(pr, items).value <= |data|
  }

  // Every item is read from the start of the field's data; an enumerated item must show a listed text there.
  ghost function ItemWrites(pr: Protocol, name: bytes, index: nat, items: seq<bytes>, data: bytes)
    : (r: Result<seq<Write>>)
    requires TypesConsistent(pr) && Sized(pr, items, data)
    ensures r.Success? ==> |r.value| == |items|
  {
    if items == [] then Success([])
    else
      var info := ItemInfo(pr, items[0]).value;
      if info.enumvals != [] && data[..info.length] !in info.enumvals then Failure(ContentError)
      else
        var later :- ItemWrites(pr, name, index, items[1..], data);
        Success([Write(name, index, items[0], ReadAt(info, data, 0))] + later)
  }

  ghost function FieldWrites(pr: Protocol, package: seq<PackageField>, fs: seq<Field>, j: nat): Result<seq<Write>>
    requires TypesConsistent(pr) && j < |fs|
  {
    var name :- Lookup(pr.fieldNames, fs[j].fid);
    if !InPackage(package, name) then Failure(ContentError)
    else
      var size :- FieldSize(pr, name);
      if |fs[j].data| != size then Failure(ContentError)
      else ItemWrites(pr, name, CountBefore(fs, j, fs[j].fid), FieldItems(pr, name).value, fs[j].data)
  }

  ghost function PacketWrites(pr: Protocol, package: seq<PackageField>, fs: seq<Field>, n: nat): Result<seq<Write>>
    requires TypesConsistent(pr) && n <= |fs|
  {
    if n == 0 then Success([])
    else
      var early :- PacketWrites(pr, package, fs, n - 1);
      var now :- FieldWrites(pr, package, fs, n - 1);
      Success(early + now)
  }

  lemma {:induction false} PacketWritesFail(pr: Protocol, package: seq<PackageField>, fs: seq<Field>, m: nat, n: nat)
    requires TypesConsistent(pr) && m <= n <= |fs|
    ensures PacketWrites(pr, package, fs, m).Failure? ==>
              PacketWrites(pr, package, fs, n) == PacketWrites(pr, package, fs, m)
    decreases n
  {
    hide FieldWrites;
    if m >= n {
    } else {
      PacketWritesFail(pr, package, fs, m, n - 1);
    }
  }

  // ---- The loops ----

  method IsInPackageFields(package: seq<PackageField>, name: bytes) returns (found: bool)
    ensures found == InPackage(package, name)
  {
    for i := 0 to |package|
      invariant forall k :: 0 <= k < i ==> package[k].name != name
    {
      if package[i].name == name {
        return true;
      }
    }
    return false;
  }

  lemma ItemStep(pr: Protocol, name: bytes, index: nat, items: seq<bytes>, data: bytes, k: nat)
    requires TypesConsistent(pr) && k < |items| && Sized(pr, items[k..], data)
    ensures Sized(pr, items[k + 1..], data) && items[k] in pr.itemTypes && ItemInfo(pr, items[k]).Success?
    ensures var info := ItemInfo(pr, items[k]).value;
            && Consistent(info) && info.length <= |data|
            && ItemWrites(pr, name, index, items[k..], data)
               == if info.enumvals != [] && data[..info.length] !in info.enumvals then Failure(ContentError)
                  else Joined([Write(name, index, items[k], ReadAt(info, data, 0))],
                              ItemWrites(pr, name, index, items[k + 1..], data))
  {
    hide GetTypeInfo, ReadAt, Consistent;
    assert items[k..][0] == items[k] && items[k..][1..] == items[k + 1..];
  }

  lemma JoinedTwice<T>(a: seq<T>, b: seq<T>, r: Result<seq<T>>)
    ensures Joined(a, Joined(b, r)) == Joined(a + b, r)
  {
    if r.Success? {
      ConcatAssociates(a, b, r.value);
    }
  }

  lemma NothingApplied(val: Fields)
    ensures AfterWrites(val, []) == val
  {
  }

  lemma OneMore(val: Fields, ws: seq<Write>, w: Write)
    ensures AfterWrites(val, ws + [w]) == SetItem(AfterWrites(val, ws), w.field, w.index, w.item, w.v)
  {
    hide SetItem;
    assert (ws + [w])[..|ws + [w]| - 1] == ws;
  }

  lemma ItemWritesEnd(pr: Protocol, name: bytes, index: nat, none: seq<bytes>, data: bytes)
    requires TypesConsistent(pr) && Sized(pr, none, data) && none == []
    ensures ItemWrites(pr, name, index, none, data) == Success([])
  {
  }

  /** The item loop of one field. */
  method ParseItems(pr: Protocol, name: bytes, index: nat, items: seq<bytes>, data: bytes, dest: FtdcVariable)
    returns (r: Result<()>)
    requires TypesConsistent(pr) && Sized(pr, items, data)
    modifies dest
    ensures match ItemWrites(pr, name, index, items, data)
            case Success(ws) => r == Success(()) && dest.val == AfterWrites(old(dest.val), ws)
            case Failure(e) => r == Failure(e)
  {
    hide AfterWrites, ItemWrites, ReadAt, ItemInfo, Consistent, SetItem, Sized;
    ghost var done: seq<Write> := [];
    assert items[0..] == items;
    JoinedEnds(done, ItemWrites(pr, name, index, items, data));
    NothingApplied(dest.val);
    for k := 0 to |items|
      invariant Sized(pr, items[k..], data)
      invariant dest.val == AfterWrites(old(dest.val), done)
      invariant ItemWrites(pr, name, index, items, data)
                == Joined(done, ItemWrites(pr, name, index, items[k..], data))
    {
      ItemStep(pr, name, index, items, data, k);
      var info := ItemInfo(pr, items[k]).value;
      var value := ReadAt(info, data, 0);
      ghost var w := Write(name, index, items[k], value);
      OneMore(old(dest.val), done, w);
      dest.SetFieldItem(name, index, items[k], value);
      if info.enumvals != [] && data[..info.length] !in info.enumvals {
        return Failure(ContentError);
      }
      JoinedTwice(done, [w], ItemWrites(pr, name, index, items[k + 1..], data));
      done := done + [w];
    }
    ItemWritesEnd(pr, name, index, items[|items|..], data);
    JoinedEnds(done, ItemWrites(pr, name, index, items, data));
    return Success(());
  }

  // One field: its name, its place in the package, its size, its items.
  method ParseField(pr: Protocol, package: seq<PackageField>, field: Field, index: nat, dest: FtdcVariable,
                    ghost fs: seq<Field>, ghost j: nat)
    returns (r: Result<()>)
    requires TypesConsistent(pr) && j < |fs| && field == fs[j] && index == CountBefore(fs, j, field.fid)
    modifies dest
    ensures match FieldWrites(pr, package, fs, j)
            case Success(ws) => r == Success(()) && dest.val == AfterWrites(old(dest.val), ws)
            case Failure(e) => r == Failure(e)
  {
    hide AfterWrites, ItemWrites, InPackage, SizeOf, ItemNames;
    var name := Lookup(pr.fieldNames, field.fid);
    if name.Failure? {
      return Failure(name.error);
    }
    var found := IsInPackageFields(package, name.value);
    if !found {
      return Failure(ContentError);
    }
    var size := GetFieldSize(pr, name.value);
    if size.Failure? {
      return Failure(size.error);
    }
    if |field.data| != size.value {
      return Failure(ContentError);
    }
    r := ParseItems(pr, name.value, index, FieldItems(pr, name.value).value, field.data, dest);
  }

  /** The field loop.  The counted fields must lie inside the buffer, or the source reads past its end. */
  method Parse(pr: Protocol, package: seq<PackageField>, buffer: FtdcBuffer) returns (r: Result<FtdcVariable>)
    requires TypesConsistent(pr) && buffer.Valid()
    requires |FieldsOf(buffer.Bytes())| == FieldCount(buffer.Bytes())
    ensures var fs := FieldsOf(buffer.Bytes());
            match PacketWrites(pr, package, fs, |fs|)
            case Success(ws) => r.Success? && fresh(r.value) && r.value.val == AfterWrites(map[], ws)
            case Failure(e) => r.Failure? && r.error == e
  {
    hide AfterWrites, FieldWrites, FieldsFrom, Walk, CanWalk;
    ghost var fs := FieldsOf(buffer.Bytes());
    var dest := new FtdcVariable();
    var fidIndex: map<int32, nat> := map[];
    ghost var done: seq<Write> := [];
    NothingApplied(map[]);
    for index := 0 to FieldCount(buffer.Bytes())
      invariant fresh(dest)
      invariant PacketWrites(pr, package, fs, index) == Success(done)
      invariant dest.val == AfterWrites(map[], done)
      invariant forall fid :: CountBefore(fs, index, fid) == if fid in fidIndex then fidIndex[fid] else 0
    {
      FieldsFromWalk(buffer.Bytes(), FTDC_HEADER_SIZE, |fs|, index);
      var at := buffer.GetField(index);
      var field := FieldAt(buffer.Bytes(), at.value);
      if field.fid !in fidIndex {
        fidIndex := fidIndex[field.fid := 0];
      }
      ghost var before := dest.val;
      PacketWritesFail(pr, package, fs, index + 1, |fs|);
      var parsed := ParseField(pr, package, field, fidIndex[field.fid], dest, fs, index);
      if parsed.Failure? {
        return Failure(parsed.error);
      }
      ghost var ws := FieldWrites(pr, package, fs, index).value;
      AfterWritesConcat(map[], done, ws);
      done := done + ws;
      fidIndex := fidIndex[field.fid := fidIndex[field.fid] + 1];
    }
    return Success(dest);
  }

  // ---- What the parser leaves behind ----

  lemma {:induction false} CountBeforeMonotone(fs: seq<Field>, i: nat, j: nat, fid: int32)
    requires i <= j <= |fs|
    ensures CountBefore(fs, i, fid) <= CountBefore(fs, j, fid)
    decreases j
  {
    if i >= j {
    } else {
      CountBeforeMonotone(fs, i, j - 1, fid);
    }
  }

  lemma {:induction false} CountBeforeGrows(fs: seq<Field>, i: nat, j: nat)
    requires i < j < |fs| && fs[i].fid == fs[j].fid
    ensures CountBefore(fs, i, fs[i].fid) < CountBefore(fs, j, fs[i].fid)
    decreases j
  {
    CountBeforeMonotone(fs, i + 1, j, fs[i].fid);
  }

  // Different ids among the fields have different names, as the protocol's field table demands.
  predicate NamesDiffer(names: map<int32, bytes>, fs: seq<Field>) {
    forall i, j :: 0 <= i < |fs| && 0 <= j < |fs| && fs[i].fid in names && fs[j].fid in names ==>
                     (names[fs[i].fid] == names[fs[j].fid] ==> fs[i].fid == fs[j].fid)
  }

  // The write one item of a field amounts to.
  ghost predicate FromStart(pr: Protocol, name: bytes, index: nat, item: bytes, data: bytes, w: Write) {
    && item in pr.itemTypes && ItemInfo(pr, item).Success?
    && Consistent(ItemInfo(pr, item).value) && ItemInfo(pr, item).value.length <= |data|
    && w == Write(name, index, item, ReadAt(ItemInfo(pr, item).value, data, 0))
  }

  lemma {:induction false} ItemWritesGo(pr: Protocol, name: bytes, index: nat, items: seq<bytes>, data: bytes)
    requires TypesConsistent(pr) && Sized(pr, items, data) && ItemWrites(pr, name, index, items, data).Success?
    ensures var ws := ItemWrites(pr, name, index, items, data).value;
            && |ws| == |items|
            && forall k :: 0 <= k < |items| ==> FromStart(pr, name, index, items[k], data, ws[k])
  {
    hide ReadAt, Consistent, Sized, GetTypeInfo;
    if items == [] {
    } else {
      assert items[0..] == items;
      ItemStep(pr, name, index, items, data, 0);
      ItemWritesGo(pr, name, index, items[1..], data);
    }
  }

  // The writes of one field go to its name and its number among the fields of its id.
  lemma FieldWritesGo(pr: Protocol, package: seq<PackageField>, fs: seq<Field>, j: nat)
    requires TypesConsistent(pr) && j < |fs| && FieldWrites(pr, package, fs, j).Success?
    ensures fs[j].fid in pr.fieldNames
    ensures var name, ws := pr.fieldNames[fs[j].fid], FieldWrites(pr, package, fs, j).value;
            && InPackage(package, name) && FieldItems(pr, name).Success? && |ws| == |FieldItems(pr, name).value|
            && forall k :: 0 <= k < |ws| ==>
                 FromStart(pr, name, CountBefore(fs, j, fs[j].fid), FieldItems(pr, name).value[k], fs[j].data, ws[k])
  {
    hide ItemWrites, FromStart, InPackage, ItemNames, SizeOf;
    var name := pr.fieldNames[fs[j].fid];
    ItemWritesGo(pr, name, CountBefore(fs, j, fs[j].fid), FieldItems(pr, name).value, fs[j].data);
  }

  // ---- Which fields are accepted, and which items read as laid out ----

  function InfosOf(pr: Protocol, items: seq<bytes>): (infos: seq<TypeInfo>)
    requires SizeOf(pr, items).Success?
    ensures |infos| == |items| && forall k :: 0 <= k < |items| ==> ItemInfo(pr, items[k]) == Success(infos[k])
  {
    if items == [] then [] else [ItemInfo(pr, items[0]).value] + InfosOf(pr, items[1..])
  }

  lemma {:induction false} TotalFromFront(infos: seq<TypeInfo>)
    requires infos != []
    ensures Total(infos) == infos[0].length + Total(infos[1..])
  {
    if |infos| <= 1 {
    } else {
      TotalFromFront(infos[..|infos| - 1]);
      assert infos[..|infos| - 1][1..] == infos[1..][..|infos| - 2];
    }
  }

  /** The summing loop agrees with the layout: the reported size is the total of the items' lengths. */
  lemma {:induction false} SizeIsTotal(pr: Protocol, items: seq<bytes>)
    requires SizeOf(pr, items).Success?
    ensures SizeOf(pr, items) == Success(Total(InfosOf(pr, items)))
  {
    hide ItemInfo;
    if items == [] {
    } else {
      SizeIsTotal(pr, items[1..]);
      TotalFromFront(InfosOf(pr, items));
      assert InfosOf(pr, items)[1..] == InfosOf(pr, items[1..]);
    }
  }

  /** A field is accepted exactly when every enumerated item's list has the text at the field's own start. */
  lemma {:induction false} ItemWritesIff(pr: Protocol, name: bytes, index: nat, items: seq<bytes>, data: bytes)
    requires TypesConsistent(pr) && Sized(pr, items, data)
    ensures ItemWrites(pr, name, index, items, data).Success? <==> Accepted(InfosOf(pr, items), data)
  {
    hide ReadAt, Consistent, ItemInfo;
    if items == [] {
    } else {
      assert items[0..] == items;
      ItemStep(pr, name, index, items, data, 0);
      ItemWritesIff(pr, name, index, items[1..], data);
      assert InfosOf(pr, items) == [ItemInfo(pr, items[0]).value] + InfosOf(pr, items[1..]);
    }
  }

  /** What decides a field: a known id, a place in the package, the protocol's size, and its enumerations. */
  lemma FieldWritesIff(pr: Protocol, package: seq<PackageField>, fs: seq<Field>, j: nat)
    requires TypesConsistent(pr) && j < |fs|
    ensures FieldWrites(pr, package, fs, j).Success? <==>
            && fs[j].fid in pr.fieldNames
            && InPackage(package, pr.fieldNames[fs[j].fid])
            && FieldSize(pr, pr.fieldNames[fs[j].fid]) == Success(|fs[j].data|)
            && Accepted(InfosOf(pr, FieldItems(pr, pr.fieldNames[fs[j].fid]).value), fs[j].data)
  {
    hide ItemWrites, InPackage, SizeOf, ItemNames, Accepted, InfosOf;
    if fs[j].fid in pr.fieldNames && FieldSize(pr, pr.fieldNames[fs[j].fid]) == Success(|fs[j].data|) {
      var name := pr.fieldNames[fs[j].fid];
      ItemWritesIff(pr, name, CountBefore(fs, j, fs[j].fid), FieldItems(pr, name).value, fs[j].data);
    }
  }

  lemma {:induction false} PacketWritesIff(pr: Protocol, package: seq<PackageField>, fs: seq<Field>, n: nat)
    requires TypesConsistent(pr) && n <= |fs|
    ensures PacketWrites(pr, package, fs, n).Success? <==>
            forall j :: 0 <= j < n ==> FieldWrites(pr, package, fs, j).Success?
  {
    hide FieldWrites;
    if n == 0 {
    } else {
      PacketWritesIff(pr, package, fs, n - 1);
    }
  }

  lemma InfosConsistent(pr: Protocol, items: seq<bytes>, k: nat)
    requires TypesConsistent(pr) && SizeOf(pr, items).Success? && k < |items|
    ensures Consistent(InfosOf(pr, items)[k])
  {
    hide Consistent, GetTypeInfo;
  }

  // A field of the right size that the parser rejects, or whose `k`-th item it reads as it was laid out.
  ghost predicate ParsedRight(pr: Protocol, name: bytes, index: nat, items: seq<bytes>, data: bytes, k: nat)
    requires TypesConsistent(pr) && SizeOf(pr, items) == Success(|data|) && k < |items|
  {
    SizeIsTotal(pr, items);
    InfosConsistent(pr, items, k);
    var r := ItemWrites(pr, name, index, items, data);
    r.Success? ==> r.value[k].v == LaidOut(InfosOf(pr, items), data, k)
  }

  lemma ParsedRightIff(pr: Protocol, name: bytes, index: nat, items: seq<bytes>, data: bytes, k: nat)
    requires TypesConsistent(pr) && SizeOf(pr, items) == Success(|data|) && k < |items|
    ensures |data| == Total(InfosOf(pr, items)) && Consistent(InfosOf(pr, items)[k])
    ensures ParsedRight(pr, name, index, items, data, k)
            <==> (Accepted(InfosOf(pr, items), data) ==> ReadRight(InfosOf(pr, items), data, k))
  {
    hide ReadAt, Accepted, SizeOf, InfosOf, Consistent, ItemWrites, GetTypeInfo, LaidOut;
    SizeIsTotal(pr, items);
    InfosConsistent(pr, items, k);
    ItemWritesIff(pr, name, index, items, data);
    if Accepted(InfosOf(pr, items), data) {
      ItemWritesGo(pr, name, index, items, data);
      assert FromStart(pr, name, index, items[k], data, ItemWrites(pr, name, index, items, data).value[k]);
    }
  }

  /** An item is parsed as it was laid out, in whatever accepted field, exactly when it is in a list of fields that the
      protocol's tables alone give: the listed texts of one enumeration, each with three fillings behind it. */
  lemma ParsedAsLaidOutIff(pr: Protocol, name: bytes, index: nat, items: seq<bytes>, k: nat)
    requires TypesConsistent(pr) && SizeOf(pr, items).Success? && k < |items| && !IsFloat(InfosOf(pr, items)[k])
    ensures forall d :: d in Trials(InfosOf(pr, items), k) ==> SizeOf(pr, items) == Success(|d|)
    ensures (forall data: bytes :: SizeOf(pr, items) == Success(|data|) ==>
                                     ParsedRight(pr, name, index, items, data, k))
            <==> forall d :: d in Trials(InfosOf(pr, items), k) ==> ParsedRight(pr, name, index, items, d, k)
  {
    hide *;
    InfosConsistent(pr, items, k);
    SizeIsTotal(pr, items);
    var infos := InfosOf(pr, items);
    forall data: bytes | SizeOf(pr, items) == Success(|data|)
      ensures ParsedRight(pr, name, index, items, data, k) <==> (Accepted(infos, data) ==> ReadRight(infos, data, k))
    {
      ParsedRightIff(pr, name, index, items, data, k);
    }
    ReadRightIff(infos, k);
  }

  /** Where the enumerations look no further than the item's place, it is parsed as it was laid out exactly when it
      starts the field or is made from nothing, unless every field is rejected. */
  lemma ParsedBehindEnumerationsIff(pr: Protocol, name: bytes, index: nat, items: seq<bytes>, k: nat)
    requires TypesConsistent(pr) && SizeOf(pr, items).Success? && k < |items| && !IsFloat(InfosOf(pr, items)[k])
    requires Reach(InfosOf(pr, items)) <= Total(InfosOf(pr, items)[..k])
    ensures (forall data: bytes :: SizeOf(pr, items) == Success(|data|) ==>
                                     ParsedRight(pr, name, index, items, data, k))
            <==> || AtStart(InfosOf(pr, items), k)
                 || forall data: bytes :: SizeOf(pr, items) == Success(|data|) ==> !Accepted(InfosOf(pr, items), data)
  {
    hide *;
    InfosConsistent(pr, items, k);
    SizeIsTotal(pr, items);
    var infos := InfosOf(pr, items);
    forall data: bytes | SizeOf(pr, items) == Success(|data|)
      ensures ParsedRight(pr, name, index, items, data, k) <==> (Accepted(infos, data) ==> ReadRight(infos, data, k))
    {
      ParsedRightIff(pr, name, index, items, data, k);
    }
    BehindEnumerationsIff(infos, k);
  }

  lemma OwnFieldLast(pr: Protocol, package: seq<PackageField>, fs: seq<Field>, j: nat, k: nat, before: Item)
    requires TypesConsistent(pr) && j < |fs| && FieldWrites(pr, package, fs, j).Success?
    requires fs[j].fid in pr.fieldNames && FieldItems(pr, pr.fieldNames[fs[j].fid]).Success?
    requires k < |FieldItems(pr, pr.fieldNames[fs[j].fid]).value|
    ensures var name, at := pr.fieldNames[fs[j].fid], CountBefore(fs, j, fs[j].fid);
            var item := FieldItems(pr, name).value[k];
            FromStart(pr, name, at, item, fs[j].data,
                      Write(name, at, item, LastWrite(FieldWrites(pr, package, fs, j).value, name, at, item, before)))
  {
    hide FieldWrites, LastWrite, FieldItems, ReadAt;
    FieldWritesGo(pr, package, fs, j);
    var name, at := pr.fieldNames[fs[j].fid], CountBefore(fs, j, fs[j].fid);
    var items, ws := FieldItems(pr, name).value, FieldWrites(pr, package, fs, j).value;
    LastWriteAt(ws, k, name, at, items[k], before);
  }

  lemma OtherFieldLast(pr: Protocol, package: seq<PackageField>, fs: seq<Field>, j: nat, m: nat, item: bytes,
                       before: Item)
    requires TypesConsistent(pr) && j < m < |fs| && FieldWrites(pr, package, fs, m).Success?
    requires fs[j].fid in pr.fieldNames && NamesDiffer(pr.fieldNames, fs)
    ensures LastWrite(FieldWrites(pr, package, fs, m).value, pr.fieldNames[fs[j].fid], CountBefore(fs, j, fs[j].fid),
                      item, before) == before
  {
    hide FieldWrites, LastWrite, FieldItems, ReadAt;
    FieldWritesGo(pr, package, fs, m);
    if fs[j].fid == fs[m].fid {
      CountBeforeGrows(fs, j, m);
    }
    LastWriteElsewhere(FieldWrites(pr, package, fs, m).value, pr.fieldNames[fs[j].fid],
                       CountBefore(fs, j, fs[j].fid), item, before);
  }

  lemma {:induction false} PacketLast(pr: Protocol, package: seq<PackageField>, fs: seq<Field>, n: nat, j: nat, k: nat)
    requires TypesConsistent(pr) && NamesDiffer(pr.fieldNames, fs)
    requires j < n <= |fs| && PacketWrites(pr, package, fs, n).Success?
    requires fs[j].fid in pr.fieldNames && FieldItems(pr, pr.fieldNames[fs[j].fid]).Success?
    requires k < |FieldItems(pr, pr.fieldNames[fs[j].fid]).value|
    ensures var name, at := pr.fieldNames[fs[j].fid], CountBefore(fs, j, fs[j].fid);
            var item := FieldItems(pr, name).value[k];
            FromStart(pr, name, at, item, fs[j].data,
                      Write(name, at, item, LastWrite(PacketWrites(pr, package, fs, n).value, name, at, item, None)))
    decreases n
  {
    hide FieldWrites, LastWrite, FieldItems, FromStart, CountAfter;
    var name, at := pr.fieldNames[fs[j].fid], CountBefore(fs, j, fs[j].fid);
    var item := FieldItems(pr, name).value[k];
    var early, now := PacketWrites(pr, package, fs, n - 1).value, FieldWrites(pr, package, fs, n - 1).value;
    LastWriteConcat(early, now, name, at, item, None);
    if j == n - 1 {
      OwnFieldLast(pr, package, fs, j, k, LastWrite(early, name, at, item, None));
    } else {
      PacketLast(pr, package, fs, n - 1, j, k);
      OtherFieldLast(pr, package, fs, j, n - 1, item, LastWrite(early, name, at, item, None));
    }
  }

  /** After a successful parse, every field of the packet, counted among the fields of its id, shows every item of
      its own data; each is read from the start of that data. */
  lemma ParsedCell(pr: Protocol, package: seq<PackageField>, fs: seq<Field>, j: nat, k: nat)
    requires TypesConsistent(pr) && NamesDiffer(pr.fieldNames, fs)
    requires j < |fs| && PacketWrites(pr, package, fs, |fs|).Success?
    requires fs[j].fid in pr.fieldNames && FieldItems(pr, pr.fieldNames[fs[j].fid]).Success?
    requires k < |FieldItems(pr, pr.fieldNames[fs[j].fid]).value|
    ensures var name, at := pr.fieldNames[fs[j].fid], CountBefore(fs, j, fs[j].fid);
            var item := FieldItems(pr, name).value[k];
            var val := AfterWrites(map[], PacketWrites(pr, package, fs, |fs|).value);
            FromStart(pr, name, at, item, fs[j].data, Write(name, at, item, GetItem(val, name, at, item)))
  {
    hide FieldWrites, PacketWrites, LastWrite, FieldItems, FromStart, AfterWrites, CountAfter;
    var name, at := pr.fieldNames[fs[j].fid], CountBefore(fs, j, fs[j].fid);
    var item := FieldItems(pr, name).value[k];
    PacketLast(pr, package, fs, |fs|, j, k);
    HistoryIsFlat(map[], PacketWrites(pr, package, fs, |fs|).value, name, at, item);
  }
}
