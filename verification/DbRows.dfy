/** Loading the rows of a query result into the variable. */
module DbRows {
  import opened Bytes
  import opened FtdProtocols
  import opened FtdcPaths
  import opened FtdcVariables
  import opened ItemValues
  import opened Wrappers

  /** What a result item says about its column: where the values go and how their text is read. */
  datatype Column = Column(field: bytes, item: bytes, kind: ItemType, length: nat, precision: nat) {
    function Read(text: bytes): Item {
      CreateFromStr(kind, text, length, precision)
    }
  }

  // The index of the path plays no part: the row decides it.  Nor is it asked whether a grammar matched.
  function ToColumn(pr: Protocol, resultItem: bytes): Result<Column> {
    var path :- Parse(resultItem);
    var info :- ItemInfo(pr, path.item);
    Success(Column(path.field, path.item, ItemTypeOf(info.basetype), info.length, info.precision))
  }

  /** The columns up to the first that cannot be resolved. */
  function Columns(pr: Protocol, resultItems: seq<bytes>): seq<Column> {
    if resultItems == [] || ToColumn(pr, resultItems[0]).Failure? then []
    else [ToColumn(pr, resultItems[0]).value] + Columns(pr, resultItems[1..])
  }

  function RowWrites(cols: seq<Column>, row: seq<bytes>, index: nat, n: nat): seq<Write>
    requires n <= |cols| && n <= |row|
  {
    if n == 0 then []
    else
      var c := cols[n - 1];
      RowWrites(cols, row, index, n - 1) + [Write(c.field, index, c.item, c.Read(row[n - 1]))]
  }

  predicate WideEnough(rows: seq<seq<bytes>>, n: nat) {
    forall k :: 0 <= k < |rows| ==> n <= |rows[k]|
  }

  function TableWrites(cols: seq<Column>, rows: seq<seq<bytes>>, n: nat): seq<Write>
    requires n <= |cols| && WideEnough(rows, n)
  {
    if rows == [] then []
    else
      var last := |rows| - 1;
      assert WideEnough(rows[..last], n);
      TableWrites(cols, rows[..last], n) + RowWrites(cols, rows[last], last, n)
  }

  // The last column that goes to the given field and item.
  function LastColumn(cols: seq<Column>, n: nat, field: bytes, item: bytes): (r: Option<nat>)
    requires n <= |cols|
    ensures r.Some? ==> r.value < n && cols[r.value].field == field && cols[r.value].item == item
    ensures forall j :: 0 <= j < n && cols[j].field == field && cols[j].item == item ==> r.Some? && j <= r.value
  {
    if n == 0 then None
    else if cols[n - 1].field == field && cols[n - 1].item == item then Some(n - 1)
    else LastColumn(cols, n - 1, field, item)
  }

  predicate Loads(cols: seq<Column>, n: nat, field: bytes)
    requires n <= |cols|
  {
    exists j :: 0 <= j < n && cols[j].field == field
  }

  lemma OneWrite(w: Write, field: bytes, index: nat, item: bytes, before: Item)
    ensures LastWrite([w], field, index, item, before) == if w.To(field, index, item) then w.v else before
    ensures forall m: nat :: CountAfter([w], field, m) == if w.field == field && w.index >= m then w.index + 1 else m
  {
    assert [w][..0] == [];
  }

  lemma NoWrites(field: bytes, index: nat, item: bytes, before: Item)
    ensures LastWrite([], field, index, item, before) == before
    ensures forall m: nat :: CountAfter([], field, m) == m
  {
  }

  lemma {:induction false} RowCells(cols: seq<Column>, row: seq<bytes>, r: nat, n: nat,
                                    field: bytes, index: nat, item: bytes, before: Item)
    requires n <= |cols| && n <= |row|
    ensures LastWrite(RowWrites(cols, row, r, n), field, index, item, before)
            == match LastColumn(cols, n, field, item)
               case Some(j) => if index == r then cols[j].Read(row[j]) else before
               case None => before
    ensures forall m: nat :: CountAfter(RowWrites(cols, row, r, n), field, m)
                             == if Loads(cols, n, field) && m <= r then r + 1 else m
  {
    hide Column.Read, LastWrite, CountAfter;
    if n == 0 {
      NoWrites(field, index, item, before);
    } else {
      var c := cols[n - 1];
      var early, w := RowWrites(cols, row, r, n - 1), Write(c.field, r, c.item, c.Read(row[n - 1]));
      RowCells(cols, row, r, n - 1, field, index, item, before);
      LastWriteConcat(early, [w], field, index, item, before);
      OneWrite(w, field, index, item, LastWrite(early, field, index, item, before));
      assert Loads(cols, n, field) <==> Loads(cols, n - 1, field) || c.field == field;
    }
  }

  /** After loading, cell (f, k, i) of a loaded row holds what the last column for f and i shows in row k; every
      other cell is as before; and each loaded field counts at least the rows. */
  lemma {:induction false} TableCells(cols: seq<Column>, rows: seq<seq<bytes>>, n: nat,
                                      field: bytes, index: nat, item: bytes, before: Item)
    requires n <= |cols| && WideEnough(rows, n)
    ensures LastWrite(TableWrites(cols, rows, n), field, index, item, before)
            == match LastColumn(cols, n, field, item)
               case Some(j) => if index < |rows| then cols[j].Read(rows[index][j]) else before
               case None => before
    ensures forall m: nat :: CountAfter(TableWrites(cols, rows, n), field, m)
                             == if Loads(cols, n, field) && m < |rows| then |rows| else m
  {
    hide RowWrites, LastWrite, CountAfter, LastColumn;
    if rows == [] {
      NoWrites(field, index, item, before);
    } else {
      var last := |rows| - 1;
      var early, row := TableWrites(cols, rows[..last], n), RowWrites(cols, rows[last], last, n);
      TableCells(cols, rows[..last], n, field, index, item, before);
      LastWriteConcat(early, row, field, index, item, before);
      RowCells(cols, rows[last], last, n, field, index, item, LastWrite(early, field, index, item, before));
    }
  }

  lemma {:induction false} ColumnsAt(pr: Protocol, resultItems: seq<bytes>, i: nat)
    requires i < |resultItems| && i <= |Columns(pr, resultItems)|
    ensures i < |Columns(pr, resultItems)| ==> ToColumn(pr, resultItems[i]) == Success(Columns(pr, resultItems)[i])
    ensures i == |Columns(pr, resultItems)| ==> ToColumn(pr, resultItems[i]).Failure?
  {
    hide ToColumn;
    if i == 0 {
    } else {
      ColumnsAt(pr, resultItems[1..], i - 1);
    }
  }

  lemma {:induction false} ColumnsLength(pr: Protocol, resultItems: seq<bytes>)
    ensures |Columns(pr, resultItems)| <= |resultItems|
  {
    if resultItems == [] {
    } else {
      ColumnsLength(pr, resultItems[1..]);
    }
  }

  lemma RowStep(val: Fields, cols: seq<Column>, row: seq<bytes>, r: nat, i: nat)
    requires i < |cols| && i < |row|
    ensures var c := cols[i];
            AfterWrites(val, RowWrites(cols, row, r, i + 1))
            == SetItem(AfterWrites(val, RowWrites(cols, row, r, i)), c.field, r, c.item, c.Read(row[i]))
  {
    hide SetItem;
    var ws := RowWrites(cols, row, r, i + 1);
    assert ws[..|ws| - 1] == RowWrites(cols, row, r, i);
  }

  lemma TableStep(val: Fields, cols: seq<Column>, rows: seq<seq<bytes>>, n: nat, r: nat)
    requires n <= |cols| && WideEnough(rows, n) && r < |rows|
    ensures WideEnough(rows[..r], n) && WideEnough(rows[..r + 1], n)
    ensures AfterWrites(val, TableWrites(cols, rows[..r + 1], n))
            == AfterWrites(AfterWrites(val, TableWrites(cols, rows[..r], n)), RowWrites(cols, rows[r], r, n))
  {
    hide RowWrites, AfterWrites;
    var t := rows[..r + 1];
    assert t[..|t| - 1] == rows[..r] && t[|t| - 1] == rows[r];
    assert TableWrites(cols, t, n) == TableWrites(cols, rows[..r], n) + RowWrites(cols, rows[r], r, n);
    AfterWritesConcat(val, TableWrites(cols, rows[..r], n), RowWrites(cols, rows[r], r, n));
  }

  lemma NothingLoaded(val: Fields, cols: seq<Column>)
    ensures forall n: nat :: n <= |cols| ==> AfterWrites(val, TableWrites(cols, [], n)) == val
  {
  }

  lemma NoColumns(val: Fields, cols: seq<Column>, row: seq<bytes>, r: nat)
    ensures AfterWrites(val, RowWrites(cols, row, r, 0)) == val
  {
  }

  /** The result loop: row by row, column by column, each column's item resolved anew.  `fieldNum` is the width
      of the result; a column that cannot be resolved throws with the columns before it already stored. */
  method LoadRows(pr: Protocol, resultItems: seq<bytes>, rows: seq<seq<bytes>>, fieldNum: nat, dest: FtdcVariable)
    returns (r: Result<()>)
    requires forall k :: 0 <= k < |rows| ==> |rows[k]| == fieldNum
    modifies dest
    ensures var n := Shorter(|resultItems|, fieldNum);
            var cols := Columns(pr, resultItems[..n]);
            && |cols| <= n && WideEnough(rows, n)
            && (r.Success? <==> rows == [] || |cols| == n)
            && (r.Success? && rows == [] ==> dest.val == old(dest.val))
            && (r.Success? && |cols| == n ==> dest.val == AfterWrites(old(dest.val), TableWrites(cols, rows, n)))
            && (r.Failure? ==> dest.val == AfterWrites(old(dest.val), RowWrites(cols, rows[0], 0, |cols|)))
  {
    hide Columns, ToColumn, SetItem, RowWrites, TableWrites, AfterWrites;
    ghost var before := dest.val;
    ghost var n := Shorter(|resultItems|, fieldNum);
    ghost var cols := Columns(pr, resultItems[..n]);
    ColumnsLength(pr, resultItems[..n]);
    NothingLoaded(before, cols);
    for idx := 0 to |rows|
      invariant idx == 0 ==> dest.val == before
      invariant idx > 0 ==> |cols| == n
      invariant |cols| == n ==> dest.val == AfterWrites(before, TableWrites(cols, rows[..idx], n))
    {
      ghost var base := dest.val;
      NoColumns(base, cols, rows[idx], idx);
      var i := 0;
      while i < |resultItems| && i < fieldNum
        invariant i <= n && i <= |cols|
        invariant dest.val == AfterWrites(base, RowWrites(cols, rows[idx], idx, i))
      {
        ColumnsAt(pr, resultItems[..n], i);
        var column := ToColumn(pr, resultItems[i]);
        if column.Failure? {
          return Failure(column.error);
        }
        var c := column.value;
        RowStep(base, cols, rows[idx], idx, i);
        dest.SetFieldItem(c.field, idx, c.item, c.Read(rows[idx][i]));
        i := i + 1;
      }
      TableStep(before, cols, rows, n, idx);
      assert |cols| == n;
    }
    assert rows[..|rows|] == rows;
    return Success(());
  }

  /** What a successful load leaves in any cell and in any count, told from the state before it. */
  lemma LoadedCells(before: Fields, cols: seq<Column>, rows: seq<seq<bytes>>, n: nat,
                    field: bytes, index: nat, item: bytes)
    requires n <= |cols| && WideEnough(rows, n)
    ensures var after := AfterWrites(before, TableWrites(cols, rows, n));
            && GetItem(after, field, index, item)
               == (match LastColumn(cols, n, field, item)
                   case Some(j) => if index < |rows| then cols[j].Read(rows[index][j])
                                   else GetItem(before, field, index, item)
                   case None => GetItem(before, field, index, item))
            && |Vector(after, field)|
               == if Loads(cols, n, field) && |Vector(before, field)| < |rows| then |rows|
                  else |Vector(before, field)|
  {
    hide TableWrites, LastWrite, CountAfter, GetItem, Vector, AfterWrites, LastColumn, Loads;
    var ws := TableWrites(cols, rows, n);
    HistoryIsFlat(before, ws, field, index, item);
    TableCells(cols, rows, n, field, index, item, GetItem(before, field, index, item));
  }

  // ---- Which result item fills a cell ----

  /** The text names this item of this field, in either form; the index in it plays no part. */
  ghost predicate Spells(t: bytes, field: bytes, item: bytes) {
    ShortForm(t, field, item) || exists d :: LongForm(t, field, d, item)
  }

  lemma NamesOnce(t: bytes, f: bytes, d: bytes, i: bytes, field: bytes, item: bytes)
    requires LongForm(t, f, d, i)
    ensures Spells(t, field, item) <==> f == field && i == item
  {
    hide LongForm, ShortForm;
    Unambiguous(t, f, d, i, field, d, item);
    if e :| LongForm(t, field, e, item) {
      Unambiguous(t, f, d, i, field, e, item);
    }
  }

  lemma ShortOnce(t: bytes, f: bytes, i: bytes, field: bytes, item: bytes)
    requires ShortForm(t, f, i)
    ensures Spells(t, field, item) <==> f == field && i == item
  {
    hide LongForm, ShortForm;
    MatchShortIff(t, f, i);
    MatchShortIff(t, field, item);
    if d :| LongForm(t, field, d, item) {
      Unambiguous(t, field, d, item, f, [], i);
    }
  }

  /** A result item that can be resolved stores under exactly the field and the item it spells. */
  lemma ColumnSpelled(pr: Protocol, resultItem: bytes, field: bytes, item: bytes)
    requires ToColumn(pr, resultItem).Success? && IsName(field)
    ensures var c := ToColumn(pr, resultItem).value;
            c.field == field && c.item == item <==> Spells(resultItem, field, item)
  {
    hide ItemInfo, ItemTypeOf, LongForm, ShortForm, Parse;
    ParseForms(resultItem);
    var p := Parse(resultItem).value;
    if f, d, i :| LongForm(resultItem, f, d, i) {
      NamesOnce(resultItem, f, d, i, field, item);
    } else if f, i :| ShortForm(resultItem, f, i) {
      ShortOnce(resultItem, f, i, field, item);
    }
  }

  lemma ColumnReadAs(pr: Protocol, resultItem: bytes, text: bytes)
    requires ToColumn(pr, resultItem).Success?
    ensures var c := ToColumn(pr, resultItem).value;
            && ItemInfo(pr, c.item).Success?
            && var info := ItemInfo(pr, c.item).value;
               c.Read(text) == CreateFromStr(ItemTypeOf(info.basetype), text, info.length, info.precision)
  {
    hide ItemInfo, ItemTypeOf, CreateFromStr;
  }

  /** After a successful load a cell of row `r` shows that row's text of the last result item that spells it, read by
      the item's type; a cell that none spells is as before. */
  lemma LoadedBySpelling(pr: Protocol, before: Fields, resultItems: seq<bytes>, rows: seq<seq<bytes>>, n: nat,
                         field: bytes, item: bytes, r: nat)
    requires n <= |resultItems| && |Columns(pr, resultItems[..n])| == n && WideEnough(rows, n) && r < |rows|
    requires IsName(field)
    ensures var after := AfterWrites(before, TableWrites(Columns(pr, resultItems[..n]), rows, n));
            && (forall j :: 0 <= j < n && Spells(resultItems[j], field, item)
                            && (forall m :: j < m < n ==> !Spells(resultItems[m], field, item)) ==>
                  && ItemInfo(pr, item).Success?
                  && var info := ItemInfo(pr, item).value;
                     GetItem(after, field, r, item)
                     == CreateFromStr(ItemTypeOf(info.basetype), rows[r][j], info.length, info.precision))
            && ((forall j :: 0 <= j < n ==> !Spells(resultItems[j], field, item)) ==>
                  GetItem(after, field, r, item) == GetItem(before, field, r, item))
  {
    hide Spells, ItemInfo, ItemTypeOf, CreateFromStr, GetItem, TableWrites, AfterWrites, ToColumn, Vector, Loads;
    var cols := Columns(pr, resultItems[..n]);
    LoadedCells(before, cols, rows, n, field, r, item);
    forall j | 0 <= j < n
      ensures cols[j].field == field && cols[j].item == item <==> Spells(resultItems[j], field, item)
      ensures Spells(resultItems[j], field, item) ==>
                && ItemInfo(pr, item).Success?
                && var info := ItemInfo(pr, item).value;
                   cols[j].Read(rows[r][j])
                   == CreateFromStr(ItemTypeOf(info.basetype), rows[r][j], info.length, info.precision)
    {
      ColumnsAt(pr, resultItems[..n], j);
      ColumnSpelled(pr, resultItems[j], field, item);
      ColumnReadAs(pr, resultItems[j], rows[r][j]);
    }
  }
}
