/** From a query's result to the fields of a response: what was loaded from column text is written and read back. */
module LoadedFields {
  import opened Bytes
  import opened DbRows
  import opened FtdcContents
  import opened FtdcParsing
  import opened FtdcVariables
  import opened FtdProtocols
  import opened ItemOffsets
  import opened ItemValues
  import opened RoundTrips
  import opened Wrappers

  predicate TypedAs(c: Column, info: Result<TypeInfo>) {
    && info.Success?
    && c.kind == ItemTypeOf(info.value.basetype) && c.length == info.value.length
    && c.precision == info.value.precision
  }

  /** Every column reads its text by the type of its item. */
  predicate Resolved(pr: Protocol, cols: seq<Column>) {
    forall j :: 0 <= j < |cols| ==> TypedAs(cols[j], ItemInfo(pr, cols[j].item))
  }

  lemma ColumnTyped(pr: Protocol, resultItem: bytes)
    requires ToColumn(pr, resultItem).Success?
    ensures TypedAs(ToColumn(pr, resultItem).value, ItemInfo(pr, ToColumn(pr, resultItem).value.item))
  {
    hide ItemInfo, ItemTypeOf;
  }

  lemma {:induction false} ColumnsResolved(pr: Protocol, resultItems: seq<bytes>)
    ensures Resolved(pr, Columns(pr, resultItems))
  {
    hide ItemInfo, ItemTypeOf;
    if resultItems == [] || ToColumn(pr, resultItems[0]).Failure? {
    } else {
      ColumnsResolved(pr, resultItems[1..]);
      ColumnTyped(pr, resultItems[0]);
    }
  }

  // Some column goes to each of the items.
  predicate Covered(cols: seq<Column>, n: nat, field: bytes, items: seq<bytes>)
    requires n <= |cols|
  {
    forall k :: 0 <= k < |items| ==> LastColumn(cols, n, field, items[k]).Some?
  }

  // Each item's values are exactly as long as its type says.
  predicate Exact(infos: seq<TypeInfo>) {
    forall k :: 0 <= k < |infos| ==> Occupies(ItemTypeOf(infos[k].basetype), infos[k].length)
  }

  lemma TextSuits(info: TypeInfo, text: bytes)
    requires Occupies(ItemTypeOf(info.basetype), info.length)
    ensures var v := CreateFromStr(ItemTypeOf(info.basetype), text, info.length, info.precision);
            v.Some? && Suits(info, v.value) && (!v.value.FloatValue? ==> v.value.Representable())
  {
    hide ItemTypeOf, CText, ReadInt, ReadWord;
    MadeRepresentable(CText(text, |text|) + [NUL], info.length);
  }

  /** The value a text makes suits its type, and its wire form can carry it unless it is a float. */
  function ValueOf(info: TypeInfo, text: bytes): (v: ItemValue)
    requires Occupies(ItemTypeOf(info.basetype), info.length)
    ensures Suits(info, v) && (!v.FloatValue? ==> v.Representable())
  {
    TextSuits(info, text);
    CreateFromStr(ItemTypeOf(info.basetype), text, info.length, info.precision).value
  }

  /** The text the last column for an item shows in a row. */
  function CellText(cols: seq<Column>, n: nat, row: seq<bytes>, field: bytes, item: bytes): bytes
    requires n <= |cols| && n <= |row| && LastColumn(cols, n, field, item).Some?
  {
    row[LastColumn(cols, n, field, item).value]
  }

  /** The values a row's texts make, one for each item of the field. */
  function RowValues(infos: seq<TypeInfo>, cols: seq<Column>, n: nat, row: seq<bytes>, field: bytes, items: seq<bytes>)
    : (vs: seq<ItemValue>)
    requires n <= |cols| && n <= |row| && Covered(cols, n, field, items)
    requires |infos| == |items| && Exact(infos)
    ensures |vs| == |items|
    ensures forall k :: 0 <= k < |vs| ==> vs[k] == ValueOf(infos[k], CellText(cols, n, row, field, items[k]))
  {
    seq(|items|, k requires 0 <= k < |items| => ValueOf(infos[k], CellText(cols, n, row, field, items[k])))
  }

  lemma ColumnReads(pr: Protocol, cols: seq<Column>, j: nat, info: TypeInfo, text: bytes)
    requires Resolved(pr, cols) && j < |cols| && ItemInfo(pr, cols[j].item) == Success(info)
    requires Occupies(ItemTypeOf(info.basetype), info.length)
    ensures cols[j].Read(text) == Some(ValueOf(info, text))
  {
    hide ItemInfo, ItemTypeOf, CreateFromStr;
    assert TypedAs(cols[j], ItemInfo(pr, cols[j].item));
    TextSuits(info, text);
  }

  /** After loading, an occurrence holds exactly the values its row's texts make. */
  lemma LoadedHolds(pr: Protocol, before: Fields, cols: seq<Column>, rows: seq<seq<bytes>>, n: nat,
                    field: bytes, items: seq<bytes>, r: nat)
    requires n <= |cols| && WideEnough(rows, n) && r < |rows| && Resolved(pr, cols)
    requires Covered(cols, n, field, items) && SizeOf(pr, items).Success? && Exact(InfosOf(pr, items))
    ensures var infos := InfosOf(pr, items);
            var vs := RowValues(infos, cols, n, rows[r], field, items);
            && Holds(AfterWrites(before, TableWrites(cols, rows, n)), field, r, items, vs)
            && Describes(infos, vs)
            && forall k :: 0 <= k < |vs| && !vs[k].FloatValue? ==> vs[k].Representable()
  {
    hide ItemInfo, ItemTypeOf, GetItem, Column.Read, ValueOf, TableWrites, AfterWrites, LastColumn, Vector, Loads,
         InfosOf, Suits, ItemValue.Representable, Resolved;
    var infos := InfosOf(pr, items);
    var vs := RowValues(infos, cols, n, rows[r], field, items);
    forall k | 0 <= k < |items|
      ensures GetItem(AfterWrites(before, TableWrites(cols, rows, n)), field, r, items[k]) == Some(vs[k])
    {
      var j := LastColumn(cols, n, field, items[k]).value;
      LoadedCells(before, cols, rows, n, field, r, items[k]);
      ColumnReads(pr, cols, j, infos[k], rows[r][j]);
    }
  }

  lemma LoadedCount(before: Fields, cols: seq<Column>, rows: seq<seq<bytes>>, n: nat, field: bytes)
    requires n <= |cols| && WideEnough(rows, n) && |Vector(before, field)| <= |rows|
    ensures |Vector(AfterWrites(before, TableWrites(cols, rows, n)), field)| <= |rows|
  {
    hide TableWrites, AfterWrites, Loads, LastColumn, GetItem, Vector;
    LoadedCells(before, cols, rows, n, field, 0, []);
  }

  lemma FieldSized(pr: Protocol, field: bytes, items: seq<bytes>)
    requires FieldItems(pr, field) == Success(items)
    ensures FieldSize(pr, field) == SizeOf(pr, items)
  {
    hide ItemNames, SizeOf;
  }

  lemma WideAt(rows: seq<seq<bytes>>, n: nat, r: nat)
    requires WideEnough(rows, n) && r < |rows|
    ensures n <= |rows[r]|
  {
  }

  lemma LoadedMemory(form: FloatForm, pr: Protocol, before: Fields, cols: seq<Column>, rows: seq<seq<bytes>>, n: nat,
                     field: bytes, items: seq<bytes>, r: nat)
    requires n <= |cols| && WideEnough(rows, n) && r < |rows| && Resolved(pr, cols)
    requires Covered(cols, n, field, items) && SizeOf(pr, items).Success? && Exact(InfosOf(pr, items))
    ensures var val := AfterWrites(before, TableWrites(cols, rows, n));
            && Present(val, field, r, items)
            && SizeOf(pr, items) == Success(|Memory(form, val, field, r, items)|)
  {
    hide *;
    WideAt(rows, n, r);
    var infos := InfosOf(pr, items);
    var vs := RowValues(infos, cols, n, rows[r], field, items);
    LoadedHolds(pr, before, cols, rows, n, field, items, r);
    SizeIsTotal(pr, items);
    MemoryIsData(form, AfterWrites(before, TableWrites(cols, rows, n)), field, r, items, vs);
    DataOfLength(form, infos, vs);
  }

  /** A field whose items are all loaded can be serialised, if it fits the buffer it is assembled in. */
  lemma LoadedStorable(form: FloatForm, pr: Protocol, before: Fields, cols: seq<Column>, rows: seq<seq<bytes>>, n: nat,
                       field: bytes, items: seq<bytes>)
    requires n <= |cols| && WideEnough(rows, n) && Resolved(pr, cols) && |Vector(before, field)| <= |rows|
    requires FieldItems(pr, field) == Success(items) && SizeOf(pr, items).Success?
    requires Covered(cols, n, field, items) && Exact(InfosOf(pr, items))
    ensures Storable(form, pr, AfterWrites(before, TableWrites(cols, rows, n)), field)
            <==> SizeOf(pr, items).value <= 4074
  {
    hide TableWrites, AfterWrites, Vector, Resolved, Covered, Exact, InfosOf, SizeOf, FieldItems, FieldSize, Holds,
         Present, Memory, Describes, DataOf, WideEnough;
    FieldSized(pr, field, items);
    if SizeOf(pr, items).value <= FIELD_ROOM {
      var val := AfterWrites(before, TableWrites(cols, rows, n));
      LoadedCount(before, cols, rows, n, field);
      forall i | 0 <= i < |Vector(val, field)|
        ensures Present(val, field, i, items) && |Memory(form, val, field, i, items)| <= FIELD_ROOM
      {
        LoadedMemory(form, pr, before, cols, rows, n, field, items, i);
      }
    }
  }

  lemma ExactAt(infos: seq<TypeInfo>, k: nat)
    requires Exact(infos) && k < |infos|
    ensures Occupies(ItemTypeOf(infos[k].basetype), infos[k].length)
  {
  }

  lemma CoveredAt(cols: seq<Column>, n: nat, rows: seq<seq<bytes>>, r: nat, field: bytes, items: seq<bytes>, k: nat)
    requires n <= |cols| && WideEnough(rows, n) && r < |rows| && Covered(cols, n, field, items) && k < |items|
    ensures n <= |rows[r]| && LastColumn(cols, n, field, items[k]).Some?
    ensures CellText(cols, n, rows[r], field, items[k]) == rows[r][LastColumn(cols, n, field, items[k]).value]
  {
  }

  /** From column text to the wire: every item of a loaded field that is no float is read back, at the place it was
      laid out, as the value the last column for it was read as. */
  lemma LoadedReadBack(form: FloatForm, pr: Protocol, before: Fields, cols: seq<Column>, rows: seq<seq<bytes>>, n: nat,
                       field: bytes, items: seq<bytes>, r: nat, fid: int32, k: nat)
    requires n <= |cols| && WideEnough(rows, n) && r < |rows| && Resolved(pr, cols)
    requires Covered(cols, n, field, items) && SizeOf(pr, items).Success? && Exact(InfosOf(pr, items))
    requires SizeOf(pr, items).value <= FIELD_ROOM && k < |items| && !IsFloat(InfosOf(pr, items)[k])
    ensures var val := AfterWrites(before, TableWrites(cols, rows, n));
            Present(val, field, r, items) && |Memory(form, val, field, r, items)| <= FIELD_ROOM
    ensures var val, infos := AfterWrites(before, TableWrites(cols, rows, n)), InfosOf(pr, items);
            var data := MakeField(fid, Memory(form, val, field, r, items), SizeOf(pr, items).value).data;
            var j := LastColumn(cols, n, field, items[k]).value;
            && Consistent(infos[k]) && |data| == Total(infos)
            && LaidOut(infos, data, k) == cols[j].Read(rows[r][j])
  {
    hide *;
    var infos, val := InfosOf(pr, items), AfterWrites(before, TableWrites(cols, rows, n));
    LoadedMemory(form, pr, before, cols, rows, n, field, items, r);
    LoadedHolds(pr, before, cols, rows, n, field, items, r);
    CoveredAt(cols, n, rows, r, field, items, k);
    var vs := RowValues(infos, cols, n, rows[r], field, items);
    SizeIsTotal(pr, items);
    DataFits(form, infos, vs, k);
    SuitsConsistent(infos[k], vs[k]);
    SerialisedFieldRecoversIff(form, val, field, r, items, infos, vs, fid);
    var j := LastColumn(cols, n, field, items[k]).value;
    ExactAt(infos, k);
    ColumnReads(pr, cols, j, infos[k], rows[r][j]);
  }
}
