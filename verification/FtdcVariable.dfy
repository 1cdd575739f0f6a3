/** The variable: for every field name a vector of item maps, and how database rows are loaded into it. */
module FtdcVariables {
  import opened Bytes
  import opened ItemValues
  import opened Wrappers

  // An `itemvalue_ptr`: None is the null pointer.
  type Item = Option<ItemValue>

  type Occurrence = map<bytes, Item>

  type Fields = map<bytes, seq<Occurrence>>

  // ---- The nested container ----

  function Vector(val: Fields, field: bytes): seq<Occurrence> {
    if field in val then val[field] else []
  }

  function Grown(fv: seq<Occurrence>, n: nat): (r: seq<Occurrence>)
    ensures |r| == if |fv| < n then n else |fv|
    ensures forall k :: 0 <= k < |r| ==> r[k] == if k < |fv| then fv[k] else map[]
  {
    if |fv| < n then fv + seq(n - |fv|, _ => map[]) else fv
  }

  function SetItem(val: Fields, field: bytes, index: nat, item: bytes, v: Item): Fields {
    var fv := Grown(Vector(val, field), index + 1);
    val[field := fv[index := fv[index][item := v]]]
  }

  function GetItem(val: Fields, field: bytes, index: nat, item: bytes): Item {
    var fv := Vector(val, field);
    if index < |fv| && item in fv[index] then fv[index][item] else None
  }

  // ---- What it stands for: a flat map from cells to values ----

  datatype Write = Write(field: bytes, index: nat, item: bytes, v: Item) {
    predicate To(field: bytes, index: nat, item: bytes) {
      this.field == field && this.index == index && this.item == item
    }
  }

  function AfterWrite(val: Fields, w: Write): Fields {
    SetItem(val, w.field, w.index, w.item, w.v)
  }

  function AfterWrites(val: Fields, ws: seq<Write>): Fields {
    if ws == [] then val else AfterWrite(AfterWrites(val, ws[..|ws| - 1]), ws[|ws| - 1])
  }

  /** The value last written to a cell, or what was there before. */
  function LastWrite(ws: seq<Write>, field: bytes, index: nat, item: bytes, before: Item): Item {
    if ws == [] then before
    else if ws[|ws| - 1].To(field, index, item) then ws[|ws| - 1].v
    else LastWrite(ws[..|ws| - 1], field, index, item, before)
  }

  /** One more than the largest index written for a field, and no less than the count before. */
  function CountAfter(ws: seq<Write>, field: bytes, before: nat): nat {
    if ws == [] then before
    else
      var n := CountAfter(ws[..|ws| - 1], field, before);
      var w := ws[|ws| - 1];
      if w.field == field && w.index >= n then w.index + 1 else n
  }

  function NamesOf(ws: seq<Write>): set<bytes> {
    set i | 0 <= i < |ws| :: ws[i].field
  }

  lemma SetItemCell(val: Fields, w: Write, field: bytes, index: nat, item: bytes)
    ensures GetItem(AfterWrite(val, w), field, index, item)
            == if w.To(field, index, item) then w.v else GetItem(val, field, index, item)
    ensures |Vector(AfterWrite(val, w), field)|
            == if w.field == field && w.index >= |Vector(val, field)| then w.index + 1 else |Vector(val, field)|
    ensures AfterWrite(val, w).Keys == val.Keys + {w.field}
  {
  }

  /** After any history of writes every cell holds its last write, whatever gaps were filled on the way, every
      field counts up to its largest index, and a field exists exactly if it was written. */
  lemma {:induction false} HistoryIsFlat(val: Fields, ws: seq<Write>, field: bytes, index: nat, item: bytes)
    ensures GetItem(AfterWrites(val, ws), field, index, item)
            == LastWrite(ws, field, index, item, GetItem(val, field, index, item))
    ensures |Vector(AfterWrites(val, ws), field)| == CountAfter(ws, field, |Vector(val, field)|)
    ensures AfterWrites(val, ws).Keys == val.Keys + NamesOf(ws)
  {
    hide SetItem, GetItem, Vector;
    if ws == [] {
      assert NamesOf(ws) == {};
    } else {
      var early, w := ws[..|ws| - 1], ws[|ws| - 1];
      HistoryIsFlat(val, early, field, index, item);
      SetItemCell(AfterWrites(val, early), w, field, index, item);
      assert NamesOf(ws) == NamesOf(early) + {w.field};
    }
  }

  /** The count is an upper bound of the written indices, and is reached unless nothing exceeded the old one. */
  lemma {:induction false} CountIsLargest(ws: seq<Write>, field: bytes, before: nat)
    ensures var n := CountAfter(ws, field, before);
            && before <= n
            && (forall i :: 0 <= i < |ws| && ws[i].field == field ==> ws[i].index < n)
            && (n == before || exists i :: 0 <= i < |ws| && ws[i].field == field && ws[i].index + 1 == n)
  {
    if ws == [] {
    } else {
      var early, n := ws[..|ws| - 1], CountAfter(ws, field, before);
      CountIsLargest(early, field, before);
      assert forall i :: 0 <= i < |early| ==> early[i] == ws[i];
      if n != before && n == CountAfter(early, field, before) {
        var i :| 0 <= i < |early| && early[i].field == field && early[i].index + 1 == n;
        assert ws[i].field == field && ws[i].index + 1 == n;
      }
    }
  }

  lemma {:induction false} LastWriteConcat(a: seq<Write>, b: seq<Write>, field: bytes, index: nat, item: bytes,
                                           before: Item)
    ensures LastWrite(a + b, field, index, item, before)
            == LastWrite(b, field, index, item, LastWrite(a, field, index, item, before))
    ensures forall m: nat :: CountAfter(a + b, field, m) == CountAfter(b, field, CountAfter(a, field, m))
  {
    if b == [] {
      assert a + b == a;
    } else {
      LastWriteConcat(a, b[..|b| - 1], field, index, item, before);
      assert (a + b)[..|a + b| - 1] == a + b[..|b| - 1];
    }
  }

  lemma {:induction false} AfterWritesConcat(val: Fields, a: seq<Write>, b: seq<Write>)
    ensures AfterWrites(val, a + b) == AfterWrites(AfterWrites(val, a), b)
  {
    hide AfterWrite;
    if b == [] {
      assert a + b == a;
    } else {
      AfterWritesConcat(val, a, b[..|b| - 1]);
      assert (a + b)[..|a + b| - 1] == a + b[..|b| - 1];
    }
  }

  // Writes that all go elsewhere leave a cell alone.
  lemma {:induction false} LastWriteElsewhere(ws: seq<Write>, field: bytes, index: nat, item: bytes, before: Item)
    requires forall i :: 0 <= i < |ws| ==> !ws[i].To(field, index, item)
    ensures LastWrite(ws, field, index, item, before) == before
  {
    if ws == [] {
    } else {
      LastWriteElsewhere(ws[..|ws| - 1], field, index, item, before);
    }
  }

  // A write that every later one to the same cell repeats is what the cell shows.
  lemma {:induction false} LastWriteAt(ws: seq<Write>, k: nat, field: bytes, index: nat, item: bytes, before: Item)
    requires k < |ws| && ws[k].To(field, index, item)
    requires forall m :: k < m < |ws| && ws[m].To(field, index, item) ==> ws[m].v == ws[k].v
    ensures LastWrite(ws, field, index, item, before) == ws[k].v
  {
    if k == |ws| - 1 {
    } else {
      LastWriteAt(ws[..|ws| - 1], k, field, index, item, before);
    }
  }

  class FtdcVariable {
    var val: Fields

    constructor ()
      ensures val == map[]
    {
      val := map[];
    }

    method SetFieldItem(field: bytes, index: nat, item: bytes, v: Item)
      modifies this
      ensures val == SetItem(old(val), field, index, item, v)
    {
      if field !in val {
        val := val[field := []];
      }
      if index >= |val[field]| {
        var size := |val[field]|;
        for i := size to index + 1
          invariant field in val && val == old(val)[field := Grown(Vector(old(val), field), i)]
        {
          val := val[field := val[field] + [map[]]];
          assert val[field] == Grown(Vector(old(val), field), i + 1);
        }
      }
      val := val[field := val[field][index := val[field][index][item := v]]];
    }

    /** Called on names already present: an absent one makes the source follow an end iterator. */
    method GetFieldItem(field: bytes, index: nat, item: bytes) returns (r: Item)
      requires field in val
      ensures r == GetItem(val, field, index, item)
    {
      var fv := val[field];
      if index >= |fv| {
        return None;
      }
      var im := fv[index];
      if item in im {
        return im[item];
      }
      return None;
    }

    method FieldCount(field: bytes) returns (n: nat)
      ensures n == |Vector(val, field)|
    {
      if field in val {
        return |val[field]|;
      }
      return 0;
    }

    method Count() returns (n: nat)
      ensures n == |val.Keys|
    {
      return |val|;
    }
  }
}
