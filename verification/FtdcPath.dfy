/** Paths `field[index].item` and `field.item` to an item of a field. */
module FtdcPaths {
  import opened Bytes
  import opened Decimal
  import opened Records
  import opened Wrappers

  // The largest value of a signed int, which indices are read as.
  const INT_MAX := 0x7FFF_FFFF

  // `matched` is the source's flag `invalid_`, which is true when a grammar matched.
  datatype Path = Path(text: bytes, field: bytes, index: uint32, item: bytes, matched: bool)

  predicate IsName(s: bytes) {
    Within(s, WordChar)
  }

  // ---- The two grammars ----

  /** `(\w+)\[(\d+)\]\.(\w+)` */
  predicate LongForm(t: bytes, f: bytes, d: bytes, i: bytes) {
    IsName(f) && Within(d, DigitChar) && IsName(i) && t == f + ['['] + d + "]." + i
  }

  /** `(\w+)\.(\w+)` */
  predicate ShortForm(t: bytes, f: bytes, i: bytes) {
    IsName(f) && IsName(i) && t == f + ['.'] + i
  }

  datatype Parts = Parts(field: bytes, digits: bytes, item: bytes)

  // A run of the class, then this mark, then the rest.
  function Cut(t: bytes, g: Class, mark: byte): Option<(bytes, bytes)> {
    var n := RunLength(t, g);
    if n == 0 || n == |t| || t[n] != mark then None else Some((t[..n], t[n + 1..]))
  }

  function MatchLong(t: bytes): Option<Parts> {
    var a := Cut(t, WordChar, '[');
    if a.None? then None
    else
      var b := Cut(a.value.1, DigitChar, ']');
      if b.None? || b.value.1 == [] || b.value.1[0] != '.' then None
      else
        var i := b.value.1[1..];
        if IsName(i) then Some(Parts(a.value.0, b.value.0, i)) else None
  }

  function MatchShort(t: bytes): Option<Parts> {
    var a := Cut(t, WordChar, '.');
    if a.Some? && IsName(a.value.1) then Some(Parts(a.value.0, [], a.value.1)) else None
  }

  lemma CutIff(t: bytes, g: Class, mark: byte, r: bytes, rest: bytes)
    requires !g.Has(mark)
    ensures Cut(t, g, mark) == Some((r, rest)) <==> Within(r, g) && t == r + [mark] + rest
  {
    if Within(r, g) && t == r + [mark] + rest {
      assert t == r + ([mark] + rest);
      RunLengthExact(r, [mark] + rest, g);
    }
    if Cut(t, g, mark).Some? {
      var n := RunLength(t, g);
      assert t == t[..n] + [t[n]] + t[n + 1..];
    }
  }

  /** The scanner accepts exactly the long grammar, and every text has at most one reading under it. */
  lemma MatchLongIff(t: bytes, f: bytes, d: bytes, i: bytes)
    ensures MatchLong(t) == Some(Parts(f, d, i)) <==> LongForm(t, f, d, i)
  {
    hide Cut, Within;
    var tail := d + [']'] + (['.'] + i);
    CutIff(t, WordChar, '[', f, tail);
    CutIff(tail, DigitChar, ']', d, ['.'] + i);
    assert (['.'] + i)[1..] == i;
    assert f + ['['] + tail == f + ['['] + d + "]." + i;
    if MatchLong(t) == Some(Parts(f, d, i)) {
      var a := Cut(t, WordChar, '[').value;
      var b := Cut(a.1, DigitChar, ']').value;
      assert b.1 == ['.'] + i;
      CutIff(t, WordChar, '[', a.0, a.1);
      CutIff(a.1, DigitChar, ']', b.0, b.1);
    }
  }

  lemma MatchShortIff(t: bytes, f: bytes, i: bytes)
    ensures MatchShort(t) == Some(Parts(f, [], i)) <==> ShortForm(t, f, i)
  {
    hide Cut, Within;
    CutIff(t, WordChar, '.', f, i);
  }

  lemma CutOneMark(t: bytes, g: Class, m: byte, n: byte)
    requires Cut(t, g, m).Some? && m != n
    ensures Cut(t, g, n).None?
  {
  }

  /** No text has two readings, whichever grammars they use. */
  lemma Unambiguous(t: bytes, f: bytes, d: bytes, i: bytes, f': bytes, d': bytes, i': bytes)
    requires LongForm(t, f, d, i)
    ensures !ShortForm(t, f', i')
    ensures LongForm(t, f', d', i') ==> f == f' && d == d' && i == i'
  {
    hide Cut, LongForm, ShortForm;
    MatchLongIff(t, f, d, i);
    MatchLongIff(t, f', d', i');
    MatchShortIff(t, f', i');
    CutOneMark(t, WordChar, '[', '.');
  }

  // ---- The constructors ----

  function Parse(t: bytes): (r: Result<Path>) {
    var long := MatchLong(t);
    if long.Some? then
      MatchLongIff(t, long.value.field, long.value.digits, long.value.item);
      var index :- LexicalCast(long.value.digits, INT_MAX);
      Success(Path(t, long.value.field, index, long.value.item, true))
    else
      var short := MatchShort(t);
      if short.Some? then Success(Path(t, short.value.field, 0, short.value.item, true))
      else Success(Path(t, [], 0, [], false))
  }

  function Compose(field: bytes, index: uint32, item: bytes): Path {
    Path(field + ['['] + Print(index) + "]." + item, field, index, item, true)
  }

  lemma ComposeParses(field: bytes, index: uint32, item: bytes)
    requires IsName(field) && IsName(item)
    ensures Parse(Compose(field, index, item).text)
            == if index <= INT_MAX then Success(Compose(field, index, item)) else Failure(BadLexicalCast)
  {
    hide Cut;
    MatchLongIff(Compose(field, index, item).text, field, Print(index), item);
    PrintRoundTrip(index);
  }

  /** Whatever matched at all was made of names. */
  lemma ParsedNames(t: bytes)
    ensures match Parse(t)
            case Success(p) => p.matched ==> IsName(p.field) && IsName(p.item) && p.index <= INT_MAX
            case Failure(_) => true
  {
    hide Cut;
    var l, s := MatchLong(t), MatchShort(t);
    if l.Some? {
      MatchLongIff(t, l.value.field, l.value.digits, l.value.item);
    } else if s.Some? {
      MatchShortIff(t, s.value.field, s.value.item);
    }
  }

  /** A printed path is parsed back exactly when both names are word names and the index is a signed int. */
  lemma RoundTripIff(field: bytes, index: uint32, item: bytes)
    ensures Parse(Compose(field, index, item).text) == Success(Compose(field, index, item))
            <==> IsName(field) && IsName(item) && index <= INT_MAX
  {
    hide Parse, MatchLong;
    ParsedNames(Compose(field, index, item).text);
    if IsName(field) && IsName(item) {
      ComposeParses(field, index, item);
    }
  }

  /** Printing a parsed path and parsing that again changes nothing but the spelling; the short form is index 0. */
  lemma ParsePrintParse(t: bytes)
    ensures match Parse(t)
            case Success(p) =>
              && (p.matched ==> Parse(Compose(p.field, p.index, p.item).text)
                                == Success(Compose(p.field, p.index, p.item)))
              && (forall f, i :: ShortForm(t, f, i) ==> p.matched && p.field == f && p.index == 0 && p.item == i)
            case Failure(_) => forall f, i :: !ShortForm(t, f, i)
  {
    hide Cut, Within, LexicalCast;
    ParsedNames(t);
    if Parse(t).Success? && Parse(t).value.matched {
      ComposeParses(Parse(t).value.field, Parse(t).value.index, Parse(t).value.item);
    }
    forall f, i | ShortForm(t, f, i)
      ensures MatchLong(t).None? && MatchShort(t) == Some(Parts(f, [], i))
    {
      MatchShortIff(t, f, i);
      if MatchLong(t).Some? {
        var l := MatchLong(t).value;
        MatchLongIff(t, l.field, l.digits, l.item);
        Unambiguous(t, l.field, l.digits, l.item, f, [], i);
      }
    }
  }

  /** Every text is read by the grammar it follows, with that grammar's own parts; one that follows none is kept and
      names nothing. */
  lemma ParseForms(t: bytes)
    ensures forall f, d, i :: LongForm(t, f, d, i) ==>
              && AllDigits(d)
              && Parse(t) == if Value(d) <= 0x7FFF_FFFF then Success(Path(t, f, Value(d), i, true))
                             else Failure(BadLexicalCast)
    ensures forall f, i :: ShortForm(t, f, i) ==> Parse(t) == Success(Path(t, f, 0, i, true))
    ensures (forall f, d, i :: !LongForm(t, f, d, i)) && (forall f, i :: !ShortForm(t, f, i)) ==>
              Parse(t) == Success(Path(t, [], 0, [], false))
  {
    hide Cut, Value;
    forall f, d, i | LongForm(t, f, d, i) ensures AllDigits(d) && MatchLong(t) == Some(Parts(f, d, i)) {
      MatchLongIff(t, f, d, i);
    }
    forall f, i | ShortForm(t, f, i) ensures MatchShort(t) == Some(Parts(f, [], i)) && MatchLong(t).None? {
      MatchShortIff(t, f, i);
      if MatchLong(t).Some? {
        var l := MatchLong(t).value;
        MatchLongIff(t, l.field, l.digits, l.item);
        Unambiguous(t, l.field, l.digits, l.item, f, [], i);
      }
    }
    if MatchLong(t).Some? {
      var l := MatchLong(t).value;
      MatchLongIff(t, l.field, l.digits, l.item);
    } else if MatchShort(t).Some? {
      MatchShortIff(t, MatchShort(t).value.field, MatchShort(t).value.item);
    }
  }

  /** A path is printed as `field[index].item`, its index in the shortest form. */
  lemma ComposedText(field: bytes, index: uint32, item: bytes)
    ensures Compose(field, index, item).text == field + "[" + Print(index) + "]." + item
    ensures IsShortest(Print(index), index)
    ensures var p := Compose(field, index, item); p.field == field && p.index == index && p.item == item && p.matched
  {
    PrintSpells(index);
  }
}
