/** Which items the parser always reads right: the enumerations it checks, and the data that decide it. */
module ItemProbes {
  import opened Bytes
  import opened Decimal
  import opened FtdProtocols
  import opened ItemOffsets
  import opened ItemValues
  import opened TextScan
  import opened Wrappers

  // ---- Three fillings of the free bytes decide ----

  // Data with the bytes from `e` on replaced: by zeros, by zeros but for a one, by terminators.
  function WithZeros(d: bytes, e: nat): (r: bytes)
    requires e <= |d|
    ensures |r| == |d|
  {
    d[..e] + Fill('0', |d| - e)
  }

  function WithOne(d: bytes, e: nat, last: nat): (r: bytes)
    requires e <= |d|
    ensures |r| == |d|
  {
    if e <= last < |d| then WithZeros(d, e)[last := '1'] else WithZeros(d, e)
  }

  function WithNuls(d: bytes, e: nat): (r: bytes)
    requires e <= |d|
    ensures |r| == |d|
  {
    d[..e] + Fill(NUL, |d| - e)
  }

  // The value at `at` is also what the first bytes show.
  predicate Same(info: TypeInfo, d: bytes, at: nat)
    requires at + Span(info) <= |d|
  {
    Made(info, d[..Span(info)]) == Made(info, d[at..at + Span(info)])
  }

  // Free bytes behind the item's place, or none inside it.
  lemma FixedTexts(d: bytes, e: nat, at: nat, m: nat)
    requires at + m <= e <= |d|
    ensures WithZeros(d, e)[..m] == d[..m] && WithZeros(d, e)[at..at + m] == d[at..at + m]
  {
  }

  lemma FreeTexts(d: bytes, e: nat, at: nat, m: nat)
    requires 1 <= at && e <= at && 1 <= m && at + m <= |d|
    ensures WithZeros(d, e)[..m] == WithOne(d, e, at + m - 1)[..m]
    ensures WithZeros(d, e)[at..at + m] == Fill('0', m)
    ensures WithOne(d, e, at + m - 1)[at..at + m] == LastOne(m)
  {
  }

  lemma PartlyFreeOwn(d: bytes, e: nat, at: nat, m: nat)
    requires 1 <= at < e < at + m <= |d|
    ensures var u, r := d[at..e], at + m - e;
            && d[at..at + m] == u + d[e..at + m]
            && WithZeros(d, e)[at..at + m] == u + Fill('0', r)
            && WithOne(d, e, at + m - 1)[at..at + m] == u + LastOne(r)
            && WithNuls(d, e)[at..at + m] == u + Fill(NUL, r)
  {
  }

  lemma PartlyFreeFirst(d: bytes, e: nat, at: nat, m: nat)
    requires 1 <= at < e < at + m <= |d|
    ensures m <= e ==> WithZeros(d, e)[..m] == WithNuls(d, e)[..m] == d[..m]
    ensures m > e ==> && d[..m] == d[..at] + d[at..e] + d[e..m]
                      && WithZeros(d, e)[..m] == d[..at] + d[at..e] + Fill('0', m - e)
                      && WithNuls(d, e)[..m] == d[..at] + d[at..e] + Fill(NUL, m - e)
    ensures WithOne(d, e, at + m - 1)[..m] == WithZeros(d, e)[..m]
  {
  }

  lemma NothingMore(a: Scan)
    ensures a.All([]) == a && Fill('0', 0) == [] && Fill(NUL, 0) == []
  {
  }

  lemma NumberAfter(p: bytes, u: bytes, f: bytes)
    ensures ReadInt(p + u + f) == Scan.Blank.All(p).All(u).All(f).Shown()
    ensures p == [] ==> ReadInt(u + f) == Scan.Blank.All(u).All(f).Shown()
  {
    hide ReadInteger;
    ReadIsScanned(p + u + f);
    AllConcat(Scan.Blank, p + u, f);
    AllConcat(Scan.Blank, p, u);
    assert p == [] ==> p + u == u;
  }

  // A number at `at`, its last bytes free.
  lemma NumberDecided(d: bytes, e: nat, at: nat, m: nat)
    requires 1 <= at < e < at + m <= |d|
    requires var z, o, t := WithZeros(d, e), WithOne(d, e, at + m - 1), WithNuls(d, e);
             && ReadInt(z[..m]) == ReadInt(z[at..at + m])
             && ReadInt(o[..m]) == ReadInt(o[at..at + m])
             && ReadInt(t[..m]) == ReadInt(t[at..at + m])
    ensures ReadInt(d[..m]) == ReadInt(d[at..at + m])
  {
    hide ReadInteger, WithZeros, WithOne, WithNuls, Scan.All;
    var u, r := d[at..e], at + m - e;
    var b := Scan.Blank.All(u);
    PartlyFreeOwn(d, e, at, m);
    PartlyFreeFirst(d, e, at, m);
    NumberAfter([], u, Fill('0', r));
    NumberAfter([], u, LastOne(r));
    NumberAfter([], u, Fill(NUL, r));
    NumberAfter([], u, d[e..at + m]);
    if m <= e {
      var a := Scan.Ended(ReadInt(d[..m]));
      NothingMore(a);
      NumberSettles(a, b, d[e..at + m], 0);
    } else {
      var n := m - e;
      StaysReadMore(Scan.Blank.All(d[..at]), Scan.Blank, u);
      NumberAfter(d[..at], u, Fill('0', n));
      NumberAfter(d[..at], u, Fill(NUL, n));
      NumberAfter(d[..at], u, d[e..m]);
      assert d[e..at + m][..n] == d[e..m];
      NumberSettles(Scan.Blank.All(d[..at]).All(u), b, d[e..at + m], n);
    }
  }

  lemma BeforeReadsLess(a: WordScan)
    ensures WordReadMore(a, WordScan.Before)
  {
  }

  lemma NoMoreWord(a: WordScan, b: WordScan)
    requires a.Behind?
    ensures a.All([]).Shown() == a.w && Fill('0', 0) == [] && Fill(NUL, 0) == [] && WordReadMore(a, b)
  {
  }

  lemma StringAfter(p: bytes, u: bytes, f: bytes)
    ensures ReadWord(CText(p + u + f, |p + u + f|)) == WordScan.Before.All(p).All(u).All(f).Shown()
    ensures p == [] ==> ReadWord(CText(u + f, |u + f|)) == WordScan.Before.All(u).All(f).Shown()
  {
    hide ReadWord, CText;
    WordIsScanned(p + u + f);
    WordConcat(WordScan.Before, p + u, f);
    WordConcat(WordScan.Before, p, u);
    assert p == [] ==> p + u == u;
  }

  // A string at `at`, its last bytes free.
  lemma StringDecided(d: bytes, e: nat, at: nat, m: nat)
    requires 1 <= at < e < at + m <= |d|
    requires var z, o, t := WithZeros(d, e), WithOne(d, e, at + m - 1), WithNuls(d, e);
             && ReadWord(CText(z[..m], m)) == ReadWord(CText(z[at..at + m], m))
             && ReadWord(CText(o[..m], m)) == ReadWord(CText(o[at..at + m], m))
             && ReadWord(CText(t[..m], m)) == ReadWord(CText(t[at..at + m], m))
    ensures ReadWord(CText(d[..m], m)) == ReadWord(CText(d[at..at + m], m))
  {
    hide *;
    var u, r := d[at..e], at + m - e;
    var b := WordScan.Before.All(u);
    BeforeReadsLess(WordScan.Before.All(d[..at]));
    PartlyFreeOwn(d, e, at, m);
    PartlyFreeFirst(d, e, at, m);
    StringAfter([], u, Fill('0', r));
    StringAfter([], u, LastOne(r));
    StringAfter([], u, Fill(NUL, r));
    StringAfter([], u, d[e..at + m]);
    if m <= e {
      var a := WordScan.Behind(ReadWord(CText(d[..m], m)));
      NoMoreWord(a, b);
      WordSettles(a, b, d[e..at + m], 0);
    } else {
      var n := m - e;
      StaysWordReadMore(WordScan.Before.All(d[..at]), WordScan.Before, u);
      StringAfter(d[..at], u, Fill('0', n));
      StringAfter(d[..at], u, Fill(NUL, n));
      StringAfter(d[..at], u, d[e..m]);
      assert d[e..at + m][..n] == d[e..m];
      WordSettles(WordScan.Before.All(d[..at]).All(u), b, d[e..at + m], n);
    }
  }

  // All of the item's bytes are free: the fillings already differ in its own value.
  lemma FreeTellsApart(info: TypeInfo)
    requires !IsFloat(info) && Span(info) >= 1
    ensures Made(info, Fill('0', Span(info))) != Made(info, LastOne(Span(info)))
  {
    hide ReadInteger, ReadWord, CText, Made, Span;
    var m := Span(info);
    var zeros, one := Fill('0', m), LastOne(m);
    MadeText(info, zeros);
    MadeText(info, one);
    if ItemTypeOf(info.basetype).NumberType? {
      ReadIsScanned(zeros);
      ReadIsScanned(one);
      StartDiffers(Scan.Blank, m);
    } else if ItemTypeOf(info.basetype).StringType? {
      WordIsScanned(zeros);
      WordIsScanned(one);
      OpenWordDiffers(WordScan.Before, m);
    } else {
      assert zeros[..m - 1] == one[..m - 1];
      RawTellsApart(info, zeros, one);
    }
  }

  lemma LastDiffers(u: bytes, r: nat)
    requires r >= 1
    ensures var x, y, last := u + Fill('0', r), u + LastOne(r), |u| + r - 1;
            |x| == |y| == last + 1 && x[..last] == y[..last] && x[last] != y[last]
  {
  }

  lemma SameValues(info: TypeInfo, d: bytes, at: nat)
    requires at + Span(info) <= |d|
    ensures Same(info, d, at) <==> Made(info, d[..Span(info)]) == Made(info, d[at..at + Span(info)])
  {
  }

  lemma RawPartlyFree(info: TypeInfo, d: bytes, e: nat, at: nat)
    requires !IsText(info) && !IsFloat(info) && Span(info) >= 1
    requires 1 <= at < e < at + Span(info) <= |d|
    ensures !Same(info, WithZeros(d, e), at) || !Same(info, WithOne(d, e, at + Span(info) - 1), at)
  {
    hide *;
    var m := Span(info);
    var u, r := d[at..e], at + m - e;
    PartlyFreeOwn(d, e, at, m);
    PartlyFreeFirst(d, e, at, m);
    LastDiffers(u, r);
    RawTellsApart(info, u + Fill('0', r), u + LastOne(r));
    SameValues(info, WithZeros(d, e), at);
    SameValues(info, WithOne(d, e, at + m - 1), at);
  }

  lemma SameTexts(info: TypeInfo, d: bytes, at: nat)
    requires IsText(info) && at + Span(info) <= |d|
    ensures var m := Span(info);
            Same(info, d, at) <==> if ItemTypeOf(info.basetype).NumberType? then
                                     ReadInt(d[..m]) == ReadInt(d[at..at + m])
                                   else
                                     ReadWord(CText(d[..m], m)) == ReadWord(CText(d[at..at + m], m))
  {
    hide Made, Span, ReadWord, CText, ReadInteger;
    MadeText(info, d[..Span(info)]);
    MadeText(info, d[at..at + Span(info)]);
  }

  lemma TextDecided(info: TypeInfo, d: bytes, e: nat, at: nat)
    requires IsText(info) && Span(info) >= 1 && 1 <= at < e < at + Span(info) <= |d|
    requires Same(info, WithZeros(d, e), at) && Same(info, WithNuls(d, e), at)
    requires Same(info, WithOne(d, e, at + Span(info) - 1), at)
    ensures Same(info, d, at)
  {
    hide Made, WithZeros, WithOne, WithNuls, Span, ReadWord, CText, ReadInteger;
    var m := Span(info);
    SameTexts(info, d, at);
    SameTexts(info, WithZeros(d, e), at);
    SameTexts(info, WithOne(d, e, at + m - 1), at);
    SameTexts(info, WithNuls(d, e), at);
    if ItemTypeOf(info.basetype).NumberType? {
      NumberDecided(d, e, at, m);
    } else {
      StringDecided(d, e, at, m);
    }
  }

  /** Whatever its first `e` bytes are: if the three fillings of the rest show the same value at the start as at the
      item's place, every filling does. */
  lemma FillingsDecide(info: TypeInfo, d: bytes, e: nat, at: nat)
    requires !IsFloat(info) && at + Span(info) <= |d| && e <= |d|
    requires Same(info, WithZeros(d, e), at) && Same(info, WithNuls(d, e), at)
    requires Span(info) >= 1 ==> Same(info, WithOne(d, e, at + Span(info) - 1), at)
    ensures Same(info, d, at)
  {
    hide Made, WithZeros, WithOne, WithNuls, Span, ReadWord, CText, ReadInteger;
    var m := Span(info);
    if at == 0 || m == 0 {
      assert d[..m] == d[at..at + m];
    } else if at + m <= e {
      FixedTexts(d, e, at, m);
    } else if e <= at {
      FreeTexts(d, e, at, m);
      FreeTellsApart(info);
    } else if IsText(info) {
      TextDecided(info, d, e, at);
    } else {
      RawPartlyFree(info, d, e, at);
    }
  }

  // ---- Which data the parser accepts ----

  // An enumerated item looks for one of its texts at the field's first byte.
  predicate Shows(info: TypeInfo, data: bytes) {
    info.enumvals == [] || (info.length <= |data| && data[..info.length] in info.enumvals)
  }

  predicate Accepted(infos: seq<TypeInfo>, data: bytes) {
    forall k :: 0 <= k < |infos| ==> Shows(infos[k], data)
  }

  /** How far into a field the enumerations look. */
  function Reach(infos: seq<TypeInfo>): nat {
    if infos == [] then 0
    else
      var r, last := Reach(infos[..|infos| - 1]), infos[|infos| - 1];
      if last.enumvals != [] && last.length > r then last.length else r
  }

  lemma {:induction false} ReachIsLargest(infos: seq<TypeInfo>)
    ensures Reach(infos) <= Total(infos)
    ensures forall k :: 0 <= k < |infos| && infos[k].enumvals != [] ==> infos[k].length <= Reach(infos)
  {
    if infos == [] {
    } else {
      var front := infos[..|infos| - 1];
      ReachIsLargest(front);
      assert forall k :: 0 <= k < |front| ==> front[k] == infos[k];
    }
  }

  /** Whether data is accepted is settled by the bytes the enumerations look at. */
  lemma AcceptedByReach(infos: seq<TypeInfo>, d: bytes, d': bytes)
    requires |d| == |d'| == Total(infos) && Reach(infos) <= |d| && d[..Reach(infos)] == d'[..Reach(infos)]
    ensures Accepted(infos, d) <==> Accepted(infos, d')
  {
    ReachIsLargest(infos);
    forall k | 0 <= k < |infos| ensures Shows(infos[k], d) <==> Shows(infos[k], d') {
      if infos[k].enumvals != [] {
        var n := infos[k].length;
        assert d[..n] == d[..Reach(infos)][..n] == d'[..Reach(infos)][..n] == d'[..n];
      }
    }
  }

  // A text that begins with another is accepted with it, if it reaches as far.
  lemma AcceptedPrefix(infos: seq<TypeInfo>, t: bytes, d: bytes)
    requires Reach(infos) <= |t| <= |d| && d[..|t|] == t
    ensures Accepted(infos, t) <==> Accepted(infos, d)
  {
    ReachIsLargest(infos);
    forall k | 0 <= k < |infos| ensures Shows(infos[k], t) <==> Shows(infos[k], d) {
      if infos[k].enumvals != [] {
        assert t[..infos[k].length] == d[..|t|][..infos[k].length] == d[..infos[k].length];
      }
    }
  }

  // The texts an accepted field can begin with, as far as the enumerations look: those of the one that looks
  // furthest, or just the empty one if there are none.
  function Fronts(infos: seq<TypeInfo>): seq<bytes> {
    if infos == [] then [[]]
    else
      var front, last := infos[..|infos| - 1], infos[|infos| - 1];
      if last.enumvals != [] && last.length > Reach(front) then last.enumvals else Fronts(front)
  }

  lemma {:induction false} FrontOfAccepted(infos: seq<TypeInfo>, d: bytes)
    requires Accepted(infos, d)
    ensures Reach(infos) <= |d| && d[..Reach(infos)] in Fronts(infos)
  {
    if infos == [] {
      assert d[..0] == [];
    } else {
      var front, last := infos[..|infos| - 1], infos[|infos| - 1];
      assert Shows(last, d);
      forall k | 0 <= k < |front| ensures Shows(front[k], d) {
        assert Shows(infos[k], d);
      }
      FrontOfAccepted(front, d);
    }
  }

  /** Some data is accepted exactly when a text of the enumeration that looks furthest begins with a text of every
      other one. */
  lemma SomeAcceptedIff(infos: seq<TypeInfo>)
    ensures (exists d: bytes :: |d| == Total(infos) && Accepted(infos, d))
            <==> exists t: bytes :: t in Fronts(infos) && |t| == Reach(infos) && Accepted(infos, t)
  {
    hide Reach, Total, Accepted, Fronts;
    ReachIsLargest(infos);
    var n := Reach(infos);
    if d: bytes :| |d| == Total(infos) && Accepted(infos, d) {
      AcceptedPrefix(infos, d[..n], d);
      FrontOfAccepted(infos, d);
    }
    if t: bytes :| t in Fronts(infos) && |t| == n && Accepted(infos, t) {
      var d := t + Fill('0', Total(infos) - n);
      AcceptedPrefix(infos, t, d);
      assert |d| == Total(infos) && Accepted(infos, d);
    }
  }

  // ---- Which items are always read right ----

  // The data with the bytes from `e` on replaced by zeros, by terminators, and by zeros but for a one before `end`.
  function Fillings(d: bytes, e: nat, end: nat): (ds: seq<bytes>)
    requires e <= |d|
    ensures forall i :: 0 <= i < |ds| ==> |ds[i]| == |d|
  {
    if end >= 1 then [WithZeros(d, e), WithNuls(d, e), WithOne(d, e, end - 1)]
    else [WithZeros(d, e), WithNuls(d, e)]
  }

  lemma FillingsAre(d: bytes, e: nat, end: nat)
    requires e <= |d|
    ensures WithZeros(d, e) in Fillings(d, e, end) && WithNuls(d, e) in Fillings(d, e, end)
    ensures end >= 1 ==> WithOne(d, e, end - 1) in Fillings(d, e, end)
  {
    hide WithZeros, WithOne, WithNuls;
    var ds := Fillings(d, e, end);
    assert ds[0] == WithZeros(d, e) && ds[1] == WithNuls(d, e);
    assert end >= 1 ==> ds[2] == WithOne(d, e, end - 1);
  }

  // A field that begins with the text, with each of the three fillings behind it.
  function FilledUp(infos: seq<TypeInfo>, k: nat, t: bytes): (ds: seq<bytes>)
    requires k < |infos| && |t| <= Total(infos)
    ensures forall i :: 0 <= i < |ds| ==> |ds[i]| == Total(infos)
  {
    Fillings(t + Fill('0', Total(infos) - |t|), |t|, Total(infos[..k]) + Span(infos[k]))
  }

  function AllFillings(infos: seq<TypeInfo>, k: nat, ts: seq<bytes>): (ds: seq<bytes>)
    requires k < |infos|
    ensures forall i :: 0 <= i < |ds| ==> |ds[i]| == Total(infos)
  {
    if ts == [] then []
    else
      ReachIsLargest(infos);
      (if |ts[0]| == Reach(infos) then FilledUp(infos, k, ts[0]) else []) + AllFillings(infos, k, ts[1..])
  }

  /** The fields that decide how an item is read: three for each listed text. */
  function Trials(infos: seq<TypeInfo>, k: nat): (ds: seq<bytes>)
    requires k < |infos|
    ensures forall i :: 0 <= i < |ds| ==> |ds[i]| == Total(infos)
  {
    AllFillings(infos, k, Fronts(infos))
  }

  lemma {:induction false} FillingsAmongAll(infos: seq<TypeInfo>, k: nat, ts: seq<bytes>, t: bytes)
    requires k < |infos| && t in ts && |t| == Reach(infos)
    ensures |t| <= Total(infos)
    ensures forall d :: d in FilledUp(infos, k, t) ==> d in AllFillings(infos, k, ts)
  {
    hide FilledUp, Reach, Total;
    ReachIsLargest(infos);
    if ts[0] == t {
    } else {
      FillingsAmongAll(infos, k, ts[1..], t);
    }
  }

  lemma ReadRightSame(infos: seq<TypeInfo>, data: bytes, k: nat)
    requires k < |infos| && Consistent(infos[k]) && !IsFloat(infos[k]) && |data| == Total(infos)
    ensures Total(infos[..k]) + Span(infos[k]) <= |data|
    ensures ReadRight(infos, data, k) <==> Same(infos[k], data, Total(infos[..k]))
  {
    hide Made, Span, ReadAt, Consistent, ItemTypeOf;
    TotalGrows(infos, k);
    OwnBytesOnly(infos[k], data, 0);
    OwnBytesOnly(infos[k], data, Total(infos[..k]));
    assert data[0..0 + Span(infos[k])] == data[..Span(infos[k])];
  }

  lemma FillingsKeepFront(d: bytes, e: nat, last: nat)
    requires e <= |d|
    ensures WithZeros(d, e)[..e] == WithOne(d, e, last)[..e] == WithNuls(d, e)[..e] == d[..e]
  {
  }

  // What is filled does not matter: only what is kept.
  lemma FillingsOfFront(d: bytes, d': bytes, e: nat, last: nat)
    requires e <= |d| == |d'| && d[..e] == d'[..e]
    ensures WithZeros(d, e) == WithZeros(d', e) && WithNuls(d, e) == WithNuls(d', e)
    ensures WithOne(d, e, last) == WithOne(d', e, last)
  {
  }

  lemma TrialsAre(infos: seq<TypeInfo>, k: nat)
    requires k < |infos|
    ensures Trials(infos, k) == AllFillings(infos, k, Fronts(infos))
  {
    hide AllFillings, Fronts;
  }

  lemma FilledUpIs(infos: seq<TypeInfo>, k: nat, t: bytes)
    requires k < |infos| && |t| <= Total(infos)
    ensures FilledUp(infos, k, t)
            == Fillings(t + Fill('0', Total(infos) - |t|), |t|, Total(infos[..k]) + Span(infos[k]))
  {
    hide Fillings, Total, Span, Fill;
  }

  lemma AcceptedTrials(infos: seq<TypeInfo>, k: nat, data: bytes)
    requires k < |infos| && |data| == Total(infos) && Accepted(infos, data)
    ensures Reach(infos) <= |data|
    ensures var e, end := Reach(infos), Total(infos[..k]) + Span(infos[k]);
            && WithZeros(data, e) in Trials(infos, k) && WithNuls(data, e) in Trials(infos, k)
            && (end >= 1 ==> WithOne(data, e, end - 1) in Trials(infos, k))
  {
    hide *;
    var e, end := Reach(infos), Total(infos[..k]) + Span(infos[k]);
    FrontOfAccepted(infos, data);
    var t := data[..e];
    var d := t + Fill('0', Total(infos) - e);
    assert d[..e] == data[..e];
    FillingsOfFront(data, d, e, if end >= 1 then end - 1 else 0);
    FillingsAre(d, e, end);
    FilledUpIs(infos, k, t);
    FillingsAmongAll(infos, k, Fronts(infos), t);
    TrialsAre(infos, k);
  }

  lemma TrialsDecide(infos: seq<TypeInfo>, k: nat, data: bytes)
    requires k < |infos| && Consistent(infos[k]) && !IsFloat(infos[k])
    requires |data| == Total(infos) && Accepted(infos, data)
    requires forall d :: d in Trials(infos, k) && Accepted(infos, d) ==> ReadRight(infos, d, k)
    ensures ReadRight(infos, data, k)
  {
    hide WithZeros, WithOne, WithNuls, Accepted, ReadRight, Same, Consistent, IsFloat, Total, Reach, Span, Trials;
    var e, m, at := Reach(infos), Span(infos[k]), Total(infos[..k]);
    AcceptedTrials(infos, k, data);
    var last := if m >= 1 then at + m - 1 else at;
    FillingsKeepFront(data, e, last);
    var z, o, t := WithZeros(data, e), WithOne(data, e, last), WithNuls(data, e);
    AcceptedByReach(infos, data, z);
    AcceptedByReach(infos, data, o);
    AcceptedByReach(infos, data, t);
    ReadRightSame(infos, data, k);
    ReadRightSame(infos, z, k);
    ReadRightSame(infos, o, k);
    ReadRightSame(infos, t, k);
    FillingsDecide(infos[k], data, e, at);
  }

  /** An item is read as it was laid out, for all data the enumerations accept, exactly when it is in the accepted
      ones of a list of fields that the table alone gives. */
  lemma ReadRightIff(infos: seq<TypeInfo>, k: nat)
    requires k < |infos| && Consistent(infos[k]) && !IsFloat(infos[k])
    ensures (forall d: bytes :: |d| == Total(infos) && Accepted(infos, d) ==> ReadRight(infos, d, k))
            <==> forall d :: d in Trials(infos, k) && Accepted(infos, d) ==> ReadRight(infos, d, k)
  {
    hide Accepted, ReadRight, Trials, Consistent, IsFloat, Total;
    if forall d :: d in Trials(infos, k) && Accepted(infos, d) ==> ReadRight(infos, d, k) {
      forall d: bytes | |d| == Total(infos) && Accepted(infos, d) ensures ReadRight(infos, d, k) {
        TrialsDecide(infos, k, d);
      }
    }
  }

  // Items that start the field, or are made from nothing, are read right even from its start.
  predicate AtStart(infos: seq<TypeInfo>, k: nat)
    requires k < |infos|
  {
    Total(infos[..k]) == 0 || Span(infos[k]) == 0
  }

  lemma AtStartReadRight(infos: seq<TypeInfo>, k: nat, data: bytes)
    requires k < |infos| && Consistent(infos[k]) && !IsFloat(infos[k]) && |data| == Total(infos)
    requires AtStart(infos, k)
    ensures ReadRight(infos, data, k)
  {
    hide Made, Span, ReadRight, Consistent, IsFloat;
    var m, at := Span(infos[k]), Total(infos[..k]);
    ReadRightSame(infos, data, k);
    assert data[..m] == data[at..at + m];
  }

  // Accepted data with one of the item's bytes changed is read wrong before or after.
  lemma AcceptedMisread(infos: seq<TypeInfo>, k: nat, data: bytes) returns (wrong: bytes)
    requires k < |infos| && Consistent(infos[k]) && !IsFloat(infos[k])
    requires Reach(infos) <= Total(infos[..k]) && !AtStart(infos, k)
    requires |data| == Total(infos) && Accepted(infos, data)
    ensures |wrong| == Total(infos) && Accepted(infos, wrong) && !ReadRight(infos, wrong, k)
  {
    hide WithZeros, WithOne, WithNuls, Accepted, ReadRight, Consistent, IsFloat, Total, Reach, Span, Made;
    var e, m, at := Reach(infos), Span(infos[k]), Total(infos[..k]);
    ReachIsLargest(infos);
    var z, o := WithZeros(data, e), WithOne(data, e, at + m - 1);
    ReadRightSame(infos, z, k);
    ReadRightSame(infos, o, k);
    FillingsKeepFront(data, e, at + m - 1);
    AcceptedByReach(infos, data, z);
    AcceptedByReach(infos, data, o);
    FreeTexts(data, e, at, m);
    FreeTellsApart(infos[k]);
    wrong := if ReadRight(infos, z, k) then o else z;
  }

  /** Where the enumerations look no further than the item's place: exactly the items that start their field or are
      made from nothing, unless no data is accepted at all. */
  lemma BehindEnumerationsIff(infos: seq<TypeInfo>, k: nat)
    requires k < |infos| && Consistent(infos[k]) && !IsFloat(infos[k]) && Reach(infos) <= Total(infos[..k])
    ensures (forall d: bytes :: |d| == Total(infos) && Accepted(infos, d) ==> ReadRight(infos, d, k))
            <==> AtStart(infos, k) || forall d: bytes :: |d| == Total(infos) ==> !Accepted(infos, d)
  {
    hide Accepted, ReadRight, Consistent, IsFloat, Total, Reach, AtStart;
    if AtStart(infos, k) {
      forall d: bytes | |d| == Total(infos) && Accepted(infos, d) ensures ReadRight(infos, d, k) {
        AtStartReadRight(infos, k, d);
      }
    } else if d: bytes :| |d| == Total(infos) && Accepted(infos, d) {
      var wrong := AcceptedMisread(infos, k, d);
    }
  }

  // ---- One value replaced by another ----

  // Two values of the type whose wire forms differ in their last byte.
  function Mark(info: TypeInfo, one: bool): (v: ItemValue)
    requires info.length >= 1
  {
    match ItemTypeOf(info.basetype)
    case NumberType => NumberValue(if one then 1 else 0, info.length)
    case StringType => StringValue(Fill('0', info.length - 1) + [if one then '1' else '0'], info.length)
    case IntType => IntValue(if one then 0x100_0000 else 0)
    case WordType => WordValue(if one then 0x100 else 0)
    case _ => CharValue(if one then '1' else '0')
  }

  lemma NumberMarks(n: nat)
    requires n >= 1
    ensures NumberValue(0, n).Representable() && NumberValue(1, n).Representable()
    ensures NumberValue(0, n).Data() == Fill('0', n - 1) + ['0']
    ensures NumberValue(1, n).Data() == Fill('0', n - 1) + ['1']
  {
    assert PrintSigned(0) == ['0'] && PrintSigned(1) == ['1'];
    assert PadSigned(0, n - 1) == Fill('0', n - 1) + ['0'] && PadSigned(1, n - 1) == Fill('0', n - 1) + ['1'];
  }

  lemma StringMarks(n: nat, c: byte)
    requires n >= 1 && IsDigit(c)
    ensures var v := StringValue(Fill('0', n - 1) + [c], n); v.Representable() && v.Data() == Fill('0', n - 1) + [c]
  {
    var s := Fill('0', n - 1) + [c];
    assert s + Fill(' ', 0) == s;
  }

  lemma RawMarks()
    ensures LeInt(0)[..3] == LeInt(0x100_0000)[..3] && Le16(0)[..1] == Le16(0x100)[..1]
  {
  }

  lemma MarksDiffer(info: TypeInfo, v: ItemValue)
    requires Suits(info, v) && !v.FloatValue? && info.length >= 1
    ensures Mark(info, false) != Mark(info, true)
    ensures forall one :: && Suits(info, Mark(info, one)) && Mark(info, one).Representable()
                          && !Mark(info, one).FloatValue?
    ensures Mark(info, false).Data()[..info.length - 1] == Mark(info, true).Data()[..info.length - 1]
  {
    hide ItemTypeOf, PrintSigned, PadSigned, LeInt, Le16, IsToken;
    var n := info.length;
    if v.StringValue? {
      hide ItemValue.Data, ItemValue.Representable;
      StringMarks(n, '0');
      StringMarks(n, '1');
      assert (Fill('0', n - 1) + ['0'])[n - 1] != (Fill('0', n - 1) + ['1'])[n - 1];
    } else if v.NumberValue? {
      hide ItemValue.Data, ItemValue.Representable;
      NumberMarks(n);
    } else {
      RawMarks();
    }
  }

  // The bytes before the marked one are the same, and with them what the first bytes show.
  lemma MarksReadSame(form: FloatForm, infos: seq<TypeInfo>, vs: seq<ItemValue>, k: nat)
    requires Describes(infos, vs) && k < |vs| && !vs[k].FloatValue? && !AtStart(infos, k)
    ensures infos[k].length >= 1 && Consistent(infos[k])
    ensures var d, d' := DataOf(form, vs[k := Mark(infos[k], false)]), DataOf(form, vs[k := Mark(infos[k], true)]);
            && infos[k].length <= |d| && infos[k].length <= |d'|
            && ReadAt(infos[k], d, 0) == ReadAt(infos[k], d', 0)
  {
    hide DataOf, Total, ItemTypeOf, ItemValue.Data, Mark, Made, ReadAt, ItemValue.Representable, ItemValue.Type,
         ItemValue.Size;
    SuitsConsistent(infos[k], vs[k]);
    var v, v' := Mark(infos[k], false), Mark(infos[k], true);
    var m := Span(infos[k]);
    MarksDiffer(infos[k], vs[k]);
    DataOfLength(form, infos[..k], vs[..k]);
    DataOfAround(form, vs, k, v);
    DataOfAround(form, vs, k, v');
    var front, back := DataOf(form, vs[..k]), DataOf(form, vs[k + 1..]);
    var d, d' := front + v.Data() + back, front + v'.Data() + back;
    assert d[..m] == d'[..m];
    OwnBytesOnly(infos[k], d, 0);
    OwnBytesOnly(infos[k], d', 0);
  }

  // With this value in the `k`-th place the field is accepted and the value is what the first bytes show.
  predicate ComesBack(form: FloatForm, infos: seq<TypeInfo>, vs: seq<ItemValue>, k: nat, v: ItemValue)
    requires k < |infos| == |vs|
  {
    var d := DataOf(form, vs[k := v]);
    && Consistent(infos[k]) && infos[k].length <= |d|
    && Accepted(infos, d) && ReadAt(infos[k], d, 0) == Some(v)
  }

  lemma ReplacedAccepted(form: FloatForm, infos: seq<TypeInfo>, vs: seq<ItemValue>, k: nat, v: ItemValue)
    requires Describes(infos, vs) && k < |vs| && Suits(infos[k], v)
    requires Reach(infos) <= Total(infos[..k]) && Accepted(infos, DataOf(form, vs))
    ensures Describes(infos, vs[k := v]) && Accepted(infos, DataOf(form, vs[k := v]))
  {
    hide DataOf, Total, Reach, Accepted, ItemTypeOf, ItemValue.Wire;
    DataOfLength(form, infos, vs);
    DataOfLength(form, infos, vs[k := v]);
    DataOfLength(form, infos[..k], vs[..k]);
    DataOfAround(form, vs, k, vs[k]);
    DataOfAround(form, vs, k, v);
    assert vs[k := vs[k]] == vs;
    ReachIsLargest(infos);
    AcceptedByReach(infos, DataOf(form, vs), DataOf(form, vs[k := v]));
  }

  lemma RightShows(infos: seq<TypeInfo>, data: bytes, k: nat)
    requires k < |infos| && Consistent(infos[k]) && |data| == Total(infos) && ReadRight(infos, data, k)
    ensures infos[k].length <= |data| && ReadAt(infos[k], data, 0) == LaidOut(infos, data, k)
  {
    TotalGrows(infos, k);
  }

  /** Whatever else an accepted field holds, behind its enumerations: every value an item can carry comes back exactly
      when the item starts its field or is made from nothing. */
  lemma ReplacedComesBackIff(form: FloatForm, infos: seq<TypeInfo>, vs: seq<ItemValue>, k: nat)
    requires Describes(infos, vs) && k < |vs| && !vs[k].FloatValue?
    requires Reach(infos) <= Total(infos[..k]) && Accepted(infos, DataOf(form, vs))
    ensures (forall v: ItemValue :: Suits(infos[k], v) && v.Representable() ==> ComesBack(form, infos, vs, k, v))
            <==> AtStart(infos, k)
  {
    hide DataOf, Total, Reach, Accepted, ItemTypeOf, ItemValue.Data, ItemValue.Representable, ItemValue.Type,
         ItemValue.Size, ItemValue.Wire, Mark, ReadAt, AtStart, ReadRight;
    SuitsConsistent(infos[k], vs[k]);
    if AtStart(infos, k) {
      forall v: ItemValue | Suits(infos[k], v) && v.Representable() ensures ComesBack(form, infos, vs, k, v) {
        SuitsConsistent(infos[k], v);
        ReplacedAccepted(form, infos, vs, k, v);
        LaidOutRecoversIff(form, infos, vs[k := v], k);
        AtStartReadRight(infos, k, DataOf(form, vs[k := v]));
        RightShows(infos, DataOf(form, vs[k := v]), k);
      }
    } else {
      MarksReadSame(form, infos, vs, k);
      MarksDiffer(infos[k], vs[k]);
    }
  }
}
