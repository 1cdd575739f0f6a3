/** Searching a text for records `g1|g2|...|gn;`, the shape both list expressions of the protocol file share.
    Every group is one or more characters of a class, as in `(\w+)\|(\d+)\|(\d+);` and `(\w+);`. */
module Records {
  import opened Bytes
  import opened Decimal
  import opened Wrappers

  datatype Class = WordChar | DigitChar {
    predicate Has(c: byte) {
      match this
      case WordChar => 'a' <= c <= 'z' || 'A' <= c <= 'Z' || c == '_' || IsDigit(c)
      case DigitChar => IsDigit(c)
    }
  }

  /** `\d` is a digit, `\w` a letter, a digit or an underscore; here by their ASCII codes. */
  lemma ClassMembers(c: byte)
    ensures DigitChar.Has(c) <==> 48 <= c as int <= 57
    ensures WordChar.Has(c) <==>
            || 48 <= c as int <= 57 || 65 <= c as int <= 90 || c as int == 95 || 97 <= c as int <= 122
  {
  }

  predicate Within(s: bytes, g: Class) {
    s != [] && forall i :: 0 <= i < |s| ==> g.Has(s[i])
  }

  // The length of the longest prefix of the class: what a greedy group takes.
  function RunLength(s: bytes, g: Class): (n: nat)
    ensures n <= |s| && forall i :: 0 <= i < n ==> g.Has(s[i])
    ensures n < |s| ==> !g.Has(s[n])
  {
    if s == [] || !g.Has(s[0]) then 0 else 1 + RunLength(s[1..], g)
  }

  // The length of the longest suffix of the class.
  function RunBackLength(s: bytes, g: Class): (n: nat)
    ensures n <= |s| && forall i :: |s| - n <= i < |s| ==> g.Has(s[i])
    ensures n < |s| ==> !g.Has(s[|s| - n - 1])
  {
    if s == [] || !g.Has(s[|s| - 1]) then 0 else 1 + RunBackLength(s[..|s| - 1], g)
  }

  predicate IsRecord(fs: seq<bytes>, gs: seq<Class>) {
    |fs| == |gs| && forall k :: 0 <= k < |fs| ==> Within(fs[k], gs[k])
  }

  /** The groups of a record, joined by bars. */
  function Body(fs: seq<bytes>): bytes
    requires fs != []
  {
    if |fs| == 1 then fs[0] else fs[0] + ['|'] + Body(fs[1..])
  }

  // ---- Left to right: the expression tried at the start of a text ----

  function MatchAt(s: bytes, gs: seq<Class>): (r: Option<seq<bytes>>)
    requires gs != []
    ensures r.Some? ==> r.value != []
    decreases |gs|
  {
    var n := RunLength(s, gs[0]);
    var g, rest := s[..n], s[n..];
    if g == [] || rest == [] then None
    else if |gs| == 1 then
      if rest[0] == ';' then Some([g]) else None
    else if rest[0] != '|' then None
    else
      var more := MatchAt(rest[1..], gs[1..]);
      if more.Some? then Some([g] + more.value) else None
  }

  lemma RunLengthExact(g: bytes, rest: bytes, c: Class)
    requires Within(g, c) && (rest != [] ==> !c.Has(rest[0]))
    ensures RunLength(g + rest, c) == |g|
    ensures (g + rest)[..|g|] == g && (g + rest)[|g|..] == rest
  {
    var s := g + rest;
    assert forall i :: 0 <= i < |g| ==> s[i] == g[i];
    assert rest != [] ==> s[|g|] == rest[0];
  }

  lemma RunBackLengthExact(front: bytes, g: bytes, c: Class)
    requires Within(g, c) && (front != [] ==> !c.Has(front[|front| - 1]))
    ensures RunBackLength(front + g, c) == |g|
    ensures (front + g)[..|front|] == front && (front + g)[|front|..] == g
  {
    var s := front + g;
    assert forall i :: 0 <= i < |g| ==> s[|front| + i] == g[i];
    assert front != [] ==> s[|front| - 1] == front[|front| - 1];
  }

  lemma MatchAtCut(s: bytes, n: nat, g: bytes, tail: bytes, gs: seq<Class>)
    requires gs != [] && n == RunLength(s, gs[0]) && g == s[..n] != [] && tail == s[n..] != []
    ensures MatchAt(s, gs)
            == if |gs| == 1 then
                 (if tail[0] == ';' then Some([g]) else None)
               else if tail[0] == '|' && MatchAt(tail[1..], gs[1..]).Some? then
                 Some([g] + MatchAt(tail[1..], gs[1..]).value)
               else
                 None
  {
  }

  lemma MatchAtStep(g: bytes, mark: byte, rest: bytes, gs: seq<Class>)
    requires gs != [] && Within(g, gs[0]) && !gs[0].Has(mark)
    ensures MatchAt(g + ([mark] + rest), gs)
            == if |gs| == 1 then
                 (if mark == ';' then Some([g]) else None)
               else if mark == '|' && MatchAt(rest, gs[1..]).Some? then
                 Some([g] + MatchAt(rest, gs[1..]).value)
               else
                 None
  {
    hide RunLength, Class.Has;
    var tail := [mark] + rest;
    RunLengthExact(g, tail, gs[0]);
    assert tail[0] == mark && tail[1..] == rest;
    MatchAtCut(g + tail, |g|, g, tail, gs);
  }

  lemma {:induction false} MatchAtFinds(fs: seq<bytes>, gs: seq<Class>, rest: bytes)
    requires gs != [] && IsRecord(fs, gs)
    ensures MatchAt(Body(fs) + [';'] + rest, gs) == Some(fs)
    decreases |gs|
  {
    hide MatchAt, Within;
    if |gs| == 1 {
      MatchAtStep(fs[0], ';', rest, gs);
      ConcatAssociates(fs[0], [';'], rest);
      assert fs == [fs[0]];
    } else {
      var tail := Body(fs[1..]) + [';'] + rest;
      MatchAtFinds(fs[1..], gs[1..], rest);
      MatchAtStep(fs[0], '|', tail, gs);
      assert fs == [fs[0]] + fs[1..];
      assert Body(fs) + [';'] + rest == fs[0] + (['|'] + tail);
    }
  }

  // A successful match seen from its first group.
  lemma MatchAtUnfold(s: bytes, gs: seq<Class>) returns (g: bytes, rest: bytes)
    requires gs != [] && MatchAt(s, gs).Some?
    ensures Within(g, gs[0])
    ensures |gs| == 1 ==> s == g + [';'] + rest && MatchAt(s, gs) == Some([g])
    ensures |gs| > 1 ==> && s == g + ['|'] + rest && MatchAt(rest, gs[1..]).Some?
                         && MatchAt(s, gs) == Some([g] + MatchAt(rest, gs[1..]).value)
  {
    var n := RunLength(s, gs[0]);
    g, rest := s[..n], s[n + 1..];
    assert s == s[..n] + [s[n]] + s[n + 1..];
  }

  lemma BodyCons(g: bytes, more: seq<bytes>)
    requires more != []
    ensures Body([g] + more) == g + ['|'] + Body(more)
  {
    assert ([g] + more)[1..] == more;
  }

  lemma RecordCons(g: bytes, more: seq<bytes>, gs: seq<Class>)
    requires gs != [] && Within(g, gs[0]) && IsRecord(more, gs[1..])
    ensures IsRecord([g] + more, gs)
  {
  }

  lemma {:induction false} MatchAtOnly(s: bytes, gs: seq<Class>) returns (rest: bytes)
    requires gs != [] && MatchAt(s, gs).Some?
    ensures IsRecord(MatchAt(s, gs).value, gs)
    ensures s == Body(MatchAt(s, gs).value) + [';'] + rest
    decreases |gs|
  {
    hide MatchAt, Within;
    var g;
    g, rest := MatchAtUnfold(s, gs);
    if |gs| <= 1 {
    } else {
      var later, more := rest, MatchAt(rest, gs[1..]).value;
      rest := MatchAtOnly(later, gs[1..]);
      BodyCons(g, more);
      RecordCons(g, more, gs);
      hide Body, IsRecord;
      ConcatAssociates(g + ['|'], Body(more) + [';'], rest);
      ConcatAssociates(g + ['|'], Body(more), [';']);
    }
  }

  lemma MatchAtShorter(s: bytes, gs: seq<Class>)
    requires gs != [] && MatchAt(s, gs).Some?
    ensures |Body(MatchAt(s, gs).value)| < |s|
  {
    var rest := MatchAtOnly(s, gs);
  }

  // ---- The iterator: leftmost matches, each search starting where the last match ended ----

  function Iterate(s: bytes, gs: seq<Class>): seq<seq<bytes>>
    requires gs != []
    decreases |s|
  {
    if s == [] then []
    else
      var m := MatchAt(s, gs);
      if m.Some? then
        MatchAtShorter(s, gs);
        [m.value] + Iterate(s[|Body(m.value)| + 1..], gs)
      else
        Iterate(s[1..], gs)
  }

  // ---- Right to left: what a terminated segment ends in ----

  function EndOf(u: bytes, gs: seq<Class>): Option<seq<bytes>>
    requires gs != []
    decreases |gs|, 1
  {
    var n := RunBackLength(u, gs[|gs| - 1]);
    EndIn(u[..|u| - n], u[|u| - n..], gs)
  }

  // `g` is the run of the last class, `front` what lies before it.
  function EndIn(front: bytes, g: bytes, gs: seq<Class>): Option<seq<bytes>>
    requires gs != []
    decreases |gs|, 0
  {
    var last := |gs| - 1;
    if g == [] then None
    else if last == 0 then Some([g])
    else if front == [] || front[|front| - 1] != '|' then None
    else
      var before := EndOf(front[..|front| - 1], gs[..last]);
      if before.Some? then Some(before.value + [g]) else None
  }

  lemma {:induction false} BodySnoc(fs: seq<bytes>, g: bytes)
    requires fs != []
    ensures Body(fs + [g]) == Body(fs) + ['|'] + g
  {
    if |fs| == 1 {
      assert (fs + [g])[1..] == [g];
    } else {
      BodySnoc(fs[1..], g);
      assert (fs + [g])[1..] == fs[1..] + [g];
      ConcatAssociates(fs[0] + ['|'], Body(fs[1..]) + ['|'], g);
      ConcatAssociates(fs[0] + ['|'], Body(fs[1..]), ['|']);
    }
  }

  // A group right behind `x` could not start earlier.
  predicate FreeBefore(x: bytes, g: Class) {
    x == [] || !g.Has(x[|x| - 1])
  }

  lemma EndOfIsEndIn(u: bytes, front: bytes, g: bytes, gs: seq<Class>)
    requires gs != [] && |front| + |g| == |u| && RunBackLength(u, gs[|gs| - 1]) == |g|
    requires front == u[..|u| - |g|] && g == u[|u| - |g|..]
    ensures EndOf(u, gs) == EndIn(front, g, gs)
  {
    hide EndIn, RunBackLength;
  }

  lemma EndOfDefinition(u: bytes, front: bytes, g: bytes, gs: seq<Class>)
    requires gs != [] && g != [] && |front| + |g| == |u| && RunBackLength(u, gs[|gs| - 1]) == |g|
    requires front == u[..|u| - |g|] && g == u[|u| - |g|..]
    ensures EndOf(u, gs)
            == if |gs| == 1 then
                 Some([g])
               else if front != [] && front[|front| - 1] == '|'
                       && EndOf(front[..|front| - 1], gs[..|gs| - 1]).Some? then
                 Some(EndOf(front[..|front| - 1], gs[..|gs| - 1]).value + [g])
               else
                 None
  {
    hide EndOf, RunBackLength;
    EndOfIsEndIn(u, front, g, gs);
  }

  lemma EndOfCut(front: bytes, g: bytes, gs: seq<Class>)
    requires gs != [] && Within(g, gs[|gs| - 1]) && FreeBefore(front, gs[|gs| - 1])
    ensures EndOf(front + g, gs)
            == if |gs| == 1 then
                 Some([g])
               else if front != [] && front[|front| - 1] == '|'
                       && EndOf(front[..|front| - 1], gs[..|gs| - 1]).Some? then
                 Some(EndOf(front[..|front| - 1], gs[..|gs| - 1]).value + [g])
               else
                 None
  {
    hide RunBackLength, Class.Has;
    RunBackLengthExact(front, g, gs[|gs| - 1]);
    EndOfDefinition(front + g, front, g, gs);
  }

  /** A record with nothing of its first class before it is what the text ends in ... */
  lemma {:induction false} EndOfFinds(x: bytes, fs: seq<bytes>, gs: seq<Class>)
    requires gs != [] && IsRecord(fs, gs) && FreeBefore(x, gs[0])
    ensures EndOf(x + Body(fs), gs) == Some(fs)
    decreases |gs|
  {
    hide EndOf, Within;
    var last := |gs| - 1;
    if last == 0 {
      EndOfCut(x, fs[0], gs);
      assert fs == [fs[0]];
    } else {
      var before, g := fs[..last], fs[last];
      assert fs == before + [g];
      BodySnoc(before, g);
      EndOfFinds(x, before, gs[..last]);
      var front := x + Body(before) + ['|'];
      assert front[..|front| - 1] == x + Body(before);
      EndOfCut(front, g, gs);
      assert x + Body(fs) == front + g;
    }
  }

  lemma EndOfRun(u: bytes, gs: seq<Class>)
    requires gs != [] && EndOf(u, gs).Some?
    ensures var c := gs[|gs| - 1];
            var n := RunBackLength(u, c);
            0 < n <= |u| && Within(u[|u| - n..], c) && FreeBefore(u[..|u| - n], c)
  {
  }

  // A successful backward match seen from its last group.
  lemma EndOfUnfold(u: bytes, gs: seq<Class>) returns (front: bytes, g: bytes)
    requires gs != [] && EndOf(u, gs).Some?
    ensures Within(g, gs[|gs| - 1])
    ensures |gs| == 1 ==> u == front + g && FreeBefore(front, gs[0]) && EndOf(u, gs) == Some([g])
    ensures |gs| > 1 ==> && u == front + ['|'] + g && EndOf(front, gs[..|gs| - 1]).Some?
                         && EndOf(u, gs) == Some(EndOf(front, gs[..|gs| - 1]).value + [g])
  {
    hide EndOf, Class.Has, Within, FreeBefore, RunBackLength;
    var n := RunBackLength(u, gs[|gs| - 1]);
    EndOfRun(u, gs);
    var all := u[..|u| - n];
    g := u[|u| - n..];
    EndOfDefinition(u, all, g, gs);
    front := if |gs| == 1 then all else all[..|all| - 1];
    assert u == all + g;
    assert |gs| > 1 ==> all == front + ['|'];
  }

  /** ... and whatever a text is found to end in is such a record. */
  lemma {:induction false} EndOfOnly(u: bytes, gs: seq<Class>) returns (x: bytes)
    requires gs != [] && EndOf(u, gs).Some?
    ensures EndOf(u, gs).value != []
    ensures IsRecord(EndOf(u, gs).value, gs) && FreeBefore(x, gs[0]) && u == x + Body(EndOf(u, gs).value)
    decreases |gs|
  {
    hide EndOf, Within, FreeBefore;
    var g;
    x, g := EndOfUnfold(u, gs);
    if |gs| <= 1 {
    } else {
      var front := x;
      var before := EndOf(front, gs[..|gs| - 1]).value;
      x := EndOfOnly(front, gs[..|gs| - 1]);
      BodySnoc(before, g);
      hide Body;
      ConcatAssociates(x, Body(before) + ['|'], g);
      ConcatAssociates(x, Body(before), ['|']);
    }
  }

  // ---- Both directions agree ----

  lemma {:induction false} NoSemicolonInBody(fs: seq<bytes>, gs: seq<Class>)
    requires gs != [] && IsRecord(fs, gs)
    ensures ';' !in Body(fs)
    decreases |gs|
  {
    assert ';' !in fs[0];
    if |gs| <= 1 {
    } else {
      NoSemicolonInBody(fs[1..], gs[1..]);
    }
  }

  lemma {:induction false} SameSegment(u: bytes, a: bytes, v: bytes, b: bytes)
    requires u + [';'] + a == v + [';'] + b && ';' !in u && ';' !in v
    ensures u == v && a == b
    decreases |u|
  {
    var s, t := u + [';'] + a, v + [';'] + b;
    assert s[0] == (if u == [] then ';' else u[0]) && t[0] == if v == [] then ';' else v[0];
    assert s[1..] == if u == [] then a else u[1..] + [';'] + a;
    assert t[1..] == if v == [] then b else v[1..] + [';'] + b;
    if u == [] {
    } else {
      SameSegment(u[1..], a, v[1..], b);
    }
  }

  // A match at the start of a segment is the whole segment.
  lemma MatchIsSegment(u: bytes, rest: bytes, gs: seq<Class>)
    requires gs != [] && ';' !in u && MatchAt(u + [';'] + rest, gs).Some?
    ensures var fs := MatchAt(u + [';'] + rest, gs).value;
            IsRecord(fs, gs) && Body(fs) == u
  {
    hide MatchAt, Body, IsRecord;
    var s := u + [';'] + rest;
    var fs := MatchAt(s, gs).value;
    var left := MatchAtOnly(s, gs);
    NoSemicolonInBody(fs, gs);
    SameSegment(u, rest, Body(fs), left);
  }

  lemma NotWhole(c: byte, u: bytes, fs: seq<bytes>, gs: seq<Class>, x: bytes)
    requires gs != [] && MatchAt([c] + u + [';'], gs) == None
    requires IsRecord(fs, gs) && [c] + u == x + Body(fs)
    ensures x != [] && x[0] == c
  {
    hide MatchAt, Body;
    assert Body(fs) + [';'] + [] == Body(fs) + [';'];
    assert x == [] ==> x + Body(fs) == Body(fs);
    assert ([c] + u)[0] == c;
    MatchAtFinds(fs, gs, []);
  }

  lemma NotLonger(c: byte, u: bytes, fs: seq<bytes>, gs: seq<Class>, x: bytes)
    requires gs != [] && MatchAt([c] + u + [';'], gs) == None
    requires IsRecord(fs, gs) && u == x + Body(fs) && FreeBefore(x, gs[0])
    ensures FreeBefore([c] + x, gs[0])
  {
    hide MatchAt, Class.Has;
    if x == [] && gs[0].Has(c) {
      var longer := [[c] + fs[0]] + fs[1..];
      assert Within([c] + fs[0], gs[0]);
      assert IsRecord(longer, gs);
      assert Body(longer) == [c] + Body(fs) by {
        assert longer[1..] == fs[1..];
      }
      assert [c] + u + [';'] == Body(longer) + [';'] + [];
      MatchAtFinds(longer, gs, []);
    }
  }

  // Unless the whole text is a record, its first character does not matter to what it ends in.
  lemma EndOfTail(c: byte, u: bytes, gs: seq<Class>)
    requires gs != [] && MatchAt([c] + u + [';'], gs) == None
    ensures EndOf([c] + u, gs) == EndOf(u, gs)
  {
    hide EndOf, MatchAt;
    if EndOf([c] + u, gs).Some? {
      var fs := EndOf([c] + u, gs).value;
      var x := EndOfOnly([c] + u, gs);
      NotWhole(c, u, fs, gs, x);
      assert ([c] + u)[1..] == u && (x + Body(fs))[1..] == x[1..] + Body(fs);
      EndOfFinds(x[1..], fs, gs);
    } else if EndOf(u, gs).Some? {
      var fs := EndOf(u, gs).value;
      var x := EndOfOnly(u, gs);
      NotLonger(c, u, fs, gs, x);
      assert [c] + u == [c] + x + Body(fs);
      EndOfFinds([c] + x, fs, gs);
    }
  }

  function Ends(us: seq<bytes>, gs: seq<Class>): seq<seq<bytes>>
    requires gs != []
  {
    if us == [] then []
    else
      var e := EndOf(us[0], gs);
      (if e.Some? then [e.value] else []) + Ends(us[1..], gs)
  }

  function SegmentLength(s: bytes): (n: nat)
    ensures n <= |s| && ';' !in s[..n] && (n < |s| ==> s[n] == ';')
  {
    if s == [] || s[0] == ';' then 0
    else
      var n := 1 + SegmentLength(s[1..]);
      assert s[..n] == [s[0]] + s[1..][..n - 1];
      n
  }

  // The segments of a text that a semicolon terminates.
  function Segments(s: bytes): seq<bytes>
    decreases |s|
  {
    var n := SegmentLength(s);
    if n == |s| then [] else [s[..n]] + Segments(s[n + 1..])
  }

  lemma {:induction false} SegmentLengthExact(u: bytes, rest: bytes)
    requires ';' !in u
    ensures SegmentLength(u + [';'] + rest) == |u|
  {
    if u == [] {
    } else {
      assert (u + [';'] + rest)[1..] == u[1..] + [';'] + rest;
      SegmentLengthExact(u[1..], rest);
    }
  }

  lemma NoMatchNearer(u: bytes, rest: bytes, gs: seq<Class>)
    requires gs != [] && ';' !in u && MatchAt(u + [';'] + rest, gs) == None
    ensures MatchAt(u + [';'], gs) == None
  {
    hide MatchAt, Body, IsRecord;
    assert u + [';'] + [] == u + [';'];
    if MatchAt(u + [';'], gs).Some? {
      MatchIsSegment(u, [], gs);
      MatchAtFinds(MatchAt(u + [';'], gs).value, gs, rest);
    }
  }

  // No match starts here: the search moves on by a character.
  lemma SegmentStep(u: bytes, rest: bytes, gs: seq<Class>)
    requires gs != [] && ';' !in u && MatchAt(u + [';'] + rest, gs) == None
    ensures u == [] ==> (u + [';'] + rest)[1..] == rest && EndOf(u, gs) == None
    ensures u != [] ==> (u + [';'] + rest)[1..] == u[1..] + [';'] + rest && EndOf(u, gs) == EndOf(u[1..], gs)
  {
    hide MatchAt, Body, IsRecord;
    if u != [] {
      NoMatchNearer(u, rest, gs);
      assert [u[0]] + u[1..] == u;
      EndOfTail(u[0], u[1..], gs);
    }
  }

  lemma {:induction false} IterateSegment(u: bytes, rest: bytes, gs: seq<Class>)
    requires gs != [] && ';' !in u
    ensures Iterate(u + [';'] + rest, gs)
            == (if EndOf(u, gs).Some? then [EndOf(u, gs).value] else []) + Iterate(rest, gs)
    decreases |u|
  {
    hide EndOf, MatchAt, Body, IsRecord;
    var s := u + [';'] + rest;
    if MatchAt(s, gs).Some? {
      var fs := MatchAt(s, gs).value;
      MatchIsSegment(u, rest, gs);
      EndOfFinds([], fs, gs);
      assert [] + Body(fs) == Body(fs);
      assert s[|u| + 1..] == rest;
    } else {
      SegmentStep(u, rest, gs);
      if u != [] {
        IterateSegment(u[1..], rest, gs);
      }
    }
  }

  lemma MatchHasSemicolon(s: bytes, gs: seq<Class>)
    requires gs != [] && MatchAt(s, gs).Some?
    ensures ';' in s
  {
    hide MatchAt, Body, IsRecord;
    var rest := MatchAtOnly(s, gs);
    assert s[|Body(MatchAt(s, gs).value)|] == ';';
  }

  lemma {:induction false} IterateUnterminated(u: bytes, gs: seq<Class>)
    requires gs != [] && ';' !in u
    ensures Iterate(u, gs) == []
    decreases |u|
  {
    hide MatchAt, Body, IsRecord;
    if MatchAt(u, gs).Some? {
      MatchHasSemicolon(u, gs);
    } else if u != [] {
      IterateUnterminated(u[1..], gs);
    }
  }

  /** The leftmost-match iterator finds, in order, exactly one record for every semicolon whose segment ends in
      one, read from its end with the longest possible first group. */
  lemma {:induction false} IterateIsSegmentwise(s: bytes, gs: seq<Class>)
    requires gs != []
    ensures Iterate(s, gs) == Ends(Segments(s), gs)
    decreases |s|
  {
    hide EndOf, Iterate;
    var n := SegmentLength(s);
    if n == |s| {
      assert s[..n] == s;
      IterateUnterminated(s, gs);
    } else {
      assert s == s[..n] + [';'] + s[n + 1..];
      IterateSegment(s[..n], s[n + 1..], gs);
      IterateIsSegmentwise(s[n + 1..], gs);
    }
  }

  /** The text of a list of records. */
  function Render(rs: seq<seq<bytes>>): bytes
    requires forall i :: 0 <= i < |rs| ==> rs[i] != []
  {
    if rs == [] then [] else Body(rs[0]) + [';'] + Render(rs[1..])
  }

  /** On a text that is nothing but records the iterator returns exactly those records. */
  lemma {:induction false} IterateRender(rs: seq<seq<bytes>>, gs: seq<Class>)
    requires gs != [] && forall i :: 0 <= i < |rs| ==> rs[i] != [] && IsRecord(rs[i], gs)
    ensures Iterate(Render(rs), gs) == rs
    decreases |rs|
  {
    hide EndOf, Body, IsRecord;
    if rs == [] {
    } else {
      NoSemicolonInBody(rs[0], gs);
      EndOfFinds([], rs[0], gs);
      assert [] + Body(rs[0]) == Body(rs[0]);
      IterateSegment(Body(rs[0]), Render(rs[1..]), gs);
      IterateRender(rs[1..], gs);
      assert rs == [rs[0]] + rs[1..];
    }
  }
}
