/** The package lists as the table builder writes them, and what is read back from them. */
module PackageLists {
  import opened Bytes
  import opened Decimal
  import opened FtdProtocols
  import opened Records
  import opened Wrappers

  predicate NoMark(s: bytes) {
    '|' !in s && ';' !in s
  }

  /** A `field` element of a package definition: its attribute texts, which the builder copies as they are. */
  datatype Element = Element(name: bytes, maxOccur: bytes, minOccur: bytes) {
    function Groups(): seq<bytes> {
      [name, maxOccur, minOccur]
    }

    /** A name and two numbers that an unsigned int can hold. */
    predicate Sound() {
      IsRecord(Groups(), PACKAGE_GROUPS) && InRange(Groups())
    }

    // The letters, digits and underscores the name ends in: what the expression takes for a name.
    function NameEnd(): (w: bytes)
      ensures w != [] ==> Within(w, WordChar)
    {
      name[|name| - RunBackLength(name, WordChar)..]
    }

    predicate Survives() {
      NameEnd() != [] && Within(maxOccur, DigitChar) && Within(minOccur, DigitChar)
    }

    predicate NoSeparator() {
      NoMark(name) && NoMark(maxOccur) && NoMark(minOccur)
    }
  }

  /** The column `fieldList` of a package. */
  function PackageText(es: seq<Element>): bytes {
    if es == [] then [] else Body(es[0].Groups()) + [';'] + PackageText(es[1..])
  }

  function ReadBack(es: seq<Element>): Result<seq<PackageField>> {
    ToPackageFields(Iterate(PackageText(es), PACKAGE_GROUPS))
  }

  // ---- Which elements survive ----

  lemma WithinDigits(s: bytes)
    requires Within(s, DigitChar)
    ensures AllDigits(s)
  {
  }

  /** Elements that are no name and two numbers vanish; the first number too large for its type throws. */
  function Surviving(es: seq<Element>): Result<seq<PackageField>> {
    if es == [] then Success([])
    else if !es[0].Survives() then Surviving(es[1..])
    else
      assert AllDigits(es[0].maxOccur) && AllDigits(es[0].minOccur) by {
        WithinDigits(es[0].maxOccur);
        WithinDigits(es[0].minOccur);
      }
      var max, min := Value(es[0].maxOccur), Value(es[0].minOccur);
      if max > UINT_MAX || min > UINT_MAX then Failure(BadLexicalCast)
      else
        var later :- Surviving(es[1..]);
        Success([PackageField(es[0].NameEnd(), max, min)] + later)
  }

  lemma SameLast(a: bytes, b: bytes, c: bytes, d: bytes)
    requires a + ['|'] + b == c + ['|'] + d && '|' !in b && '|' !in d
    ensures a == c && b == d
  {
    var s, t := a + ['|'] + b, c + ['|'] + d;
    assert s[|a|] == '|' && t[|c|] == '|';
    assert forall i :: 0 <= i < |b| ==> s[|a| + 1 + i] == b[i];
    assert forall i :: 0 <= i < |d| ==> t[|c| + 1 + i] == d[i];
    assert s[..|a|] == a && t[..|c|] == c && s[|a| + 1..] == b && t[|c| + 1..] == d;
  }

  lemma LoneBody(a: bytes)
    ensures Body([a]) == a
  {
  }

  lemma GroupsBody(a: bytes, b: bytes, c: bytes)
    ensures Body([a, b, c]) == a + ['|'] + b + ['|'] + c
  {
    hide Body;
    BodySnoc([a, b], c);
    BodySnoc([a], b);
    assert [a, b] + [c] == [a, b, c] && [a] + [b] == [a, b];
    LoneBody(a);
  }

  lemma NoBarWithin(s: bytes, g: Class)
    requires Within(s, g)
    ensures '|' !in s
  {
  }

  lemma EndsInWord(x: bytes, w: bytes)
    requires Within(w, WordChar)
    ensures RunBackLength(x + w, WordChar) > 0
  {
    assert (x + w)[|x + w| - 1] == w[|w| - 1];
  }

  // Found at the end of an element's text are its own two bounds and the end of its name.
  lemma ElementOnly(e: Element)
    requires e.NoSeparator() && EndOf(Body(e.Groups()), PACKAGE_GROUPS).Some?
    ensures e.Survives()
  {
    hide EndOf, Within, Body, RunBackLength;
    var fs := EndOf(Body(e.Groups()), PACKAGE_GROUPS).value;
    var x := EndOfOnly(Body(e.Groups()), PACKAGE_GROUPS);
    assert fs == [fs[0], fs[1], fs[2]];
    GroupsBody(fs[0], fs[1], fs[2]);
    GroupsBody(e.name, e.maxOccur, e.minOccur);
    NoBarWithin(fs[1], DigitChar);
    NoBarWithin(fs[2], DigitChar);
    assert x + Body(fs) == (x + fs[0]) + ['|'] + fs[1] + ['|'] + fs[2];
    SameLast(e.name + ['|'] + e.maxOccur, e.minOccur, (x + fs[0]) + ['|'] + fs[1], fs[2]);
    SameLast(e.name, e.maxOccur, x + fs[0], fs[1]);
    EndsInWord(x, fs[0]);
  }

  lemma ElementFinds(e: Element)
    requires e.Survives()
    ensures EndOf(Body(e.Groups()), PACKAGE_GROUPS) == Some([e.NameEnd(), e.maxOccur, e.minOccur])
  {
    hide EndOf, Within, Body;
    var x, fs := e.name[..|e.name| - |e.NameEnd()|], [e.NameEnd(), e.maxOccur, e.minOccur];
    GroupsBody(e.name, e.maxOccur, e.minOccur);
    GroupsBody(e.NameEnd(), e.maxOccur, e.minOccur);
    assert e.name == x + e.NameEnd();
    assert Body(e.Groups()) == x + Body(fs);
    assert IsRecord(fs, PACKAGE_GROUPS);
    EndOfFinds(x, fs, PACKAGE_GROUPS);
  }

  lemma NoSemicolonInElement(e: Element)
    requires e.NoSeparator()
    ensures ';' !in Body(e.Groups())
  {
    GroupsBody(e.name, e.maxOccur, e.minOccur);
  }

  lemma SurvivorConverts(e: Element)
    requires e.Survives()
    ensures AllDigits(e.maxOccur) && AllDigits(e.minOccur)
    ensures var max, min := Value(e.maxOccur), Value(e.minOccur);
            ToPackageField([e.NameEnd(), e.maxOccur, e.minOccur])
            == if max > UINT_MAX || min > UINT_MAX then Failure(BadLexicalCast)
               else Success(PackageField(e.NameEnd(), max, min))
  {
    var fs := [e.NameEnd(), e.maxOccur, e.minOccur];
    assert IsRecord(fs, PACKAGE_GROUPS);
    EntryIff(fs);
  }

  // One more element at the front of a list.
  lemma ElementRead(e: Element, rest: bytes)
    requires e.NoSeparator()
    ensures Iterate(Body(e.Groups()) + [';'] + rest, PACKAGE_GROUPS)
            == (if e.Survives() then [[e.NameEnd(), e.maxOccur, e.minOccur]] else []) + Iterate(rest, PACKAGE_GROUPS)
  {
    hide EndOf, Iterate, Element.Survives, Body;
    NoSemicolonInElement(e);
    IterateSegment(Body(e.Groups()), rest, PACKAGE_GROUPS);
    if e.Survives() {
      ElementFinds(e);
    } else if EndOf(Body(e.Groups()), PACKAGE_GROUPS).Some? {
      ElementOnly(e);
    }
  }

  lemma NothingToFind()
    ensures Iterate([], PACKAGE_GROUPS) == []
  {
  }

  /** What is read back from any list the builder writes from texts without separators. */
  lemma {:induction false} ReadBackSurvivors(es: seq<Element>)
    requires forall i :: 0 <= i < |es| ==> es[i].NoSeparator()
    ensures ReadBack(es) == Surviving(es)
  {
    hide Iterate, Element.Survives, Element.NameEnd, Element.NoSeparator, Body, ToPackageField;
    if es == [] {
      assert Iterate([], PACKAGE_GROUPS) == [] by {
        NothingToFind();
      }
    } else {
      var e, rest := es[0], PackageText(es[1..]);
      ReadBackSurvivors(es[1..]);
      ElementRead(e, rest);
      if e.Survives() {
        var found := [e.NameEnd(), e.maxOccur, e.minOccur];
        SurvivorConverts(e);
        assert ([found] + Iterate(rest, PACKAGE_GROUPS))[1..] == Iterate(rest, PACKAGE_GROUPS);
      } else {
        assert [] + Iterate(rest, PACKAGE_GROUPS) == Iterate(rest, PACKAGE_GROUPS);
      }
    }
  }

  // ---- When a list is read as it was meant ----

  function Number(s: bytes): Option<nat> {
    if s != [] && AllDigits(s) then Some(Value(s)) else None
  }

  /** The entries say what the elements say: names and bounds, one by one. */
  predicate Says(fs: seq<PackageField>, es: seq<Element>) {
    && |fs| == |es|
    && forall i :: 0 <= i < |es| ==>
         && fs[i].name == es[i].name
         && Number(es[i].maxOccur) == Some(fs[i].maxOccur as nat)
         && Number(es[i].minOccur) == Some(fs[i].minOccur as nat)
  }

  lemma RecordGroups(fs: seq<bytes>)
    requires IsRecord(fs, PACKAGE_GROUPS)
    ensures Within(fs[0], WordChar) && Within(fs[1], DigitChar) && Within(fs[2], DigitChar)
  {
  }

  lemma SoundElement(e: Element)
    requires e.Sound()
    ensures e.NoSeparator() && e.Survives() && e.NameEnd() == e.name
    ensures AllDigits(e.maxOccur) && AllDigits(e.minOccur)
    ensures Number(e.maxOccur) == Some(Value(e.maxOccur)) && Number(e.minOccur) == Some(Value(e.minOccur))
    ensures Value(e.maxOccur) <= UINT_MAX && Value(e.minOccur) <= UINT_MAX
  {
    RecordGroups(e.Groups());
    assert [] + e.name == e.name;
    RunBackLengthExact([], e.name, WordChar);
  }

  lemma {:induction false} SoundSurvive(es: seq<Element>)
    requires forall i :: 0 <= i < |es| ==> es[i].Sound()
    ensures Surviving(es).Success? && Says(Surviving(es).value, es)
  {
    hide Element.Sound, Element.NameEnd, Element.Survives, Value, Number;
    if es == [] {
    } else {
      SoundSurvive(es[1..]);
      SoundElement(es[0]);
      assert es == [es[0]] + es[1..];
    }
  }

  lemma ReadNames(es: seq<Element>, i: nat)
    requires ReadBack(es).Success? && i < |ReadBack(es).value|
    ensures Within(ReadBack(es).value[i].name, WordChar)
  {
    hide Iterate, ToPackageField, IsRecord, Within;
    var rs := Iterate(PackageText(es), PACKAGE_GROUPS);
    IterateRecords(PackageText(es), PACKAGE_GROUPS);
    PackageFieldsIff(rs);
    assert IsRecord(rs[i], PACKAGE_GROUPS);
    EntryIff(rs[i]);
    RecordGroups(rs[i]);
  }

  lemma SaidSound(e: Element, f: PackageField)
    requires Within(f.name, WordChar) && f.name == e.name
    requires Number(e.maxOccur) == Some(f.maxOccur as nat) && Number(e.minOccur) == Some(f.minOccur as nat)
    ensures e.Sound()
  {
    assert Within(e.maxOccur, DigitChar) && Within(e.minOccur, DigitChar);
  }

  /** A list is read as it was meant exactly when every element is a name and two numbers in range. */
  lemma PackageListRoundTripIff(es: seq<Element>)
    ensures ReadBack(es).Success? && Says(ReadBack(es).value, es) <==> forall i :: 0 <= i < |es| ==> es[i].Sound()
  {
    hide ReadBack, Surviving, Element.Sound, Element.NoSeparator;
    if forall i :: 0 <= i < |es| ==> es[i].Sound() {
      forall i | 0 <= i < |es| ensures es[i].NoSeparator() {
        SoundElement(es[i]);
      }
      ReadBackSurvivors(es);
      SoundSurvive(es);
    } else if ReadBack(es).Success? && Says(ReadBack(es).value, es) {
      forall i | 0 <= i < |es| ensures es[i].Sound() {
        ReadNames(es, i);
        SaidSound(es[i], ReadBack(es).value[i]);
      }
    }
  }

  // ---- An element of the shipped protocol file ----

  // "Any number" in the file's GB2312 encoding.
  const ANY_NUMBER: bytes := [0xC8 as char, 0xCE as char, 0xD2 as char, 0xE2 as char]

  const USER_LOGIN := Element("UserLoginField", ANY_NUMBER, "1")

  const ERROR := Element("ErrorField", "1", "0")

  lemma AnyNumberIsLost()
    ensures USER_LOGIN.NoSeparator() && !USER_LOGIN.Survives()
  {
    assert !DigitChar.Has(ANY_NUMBER[0]);
  }

  lemma ErrorIsKept()
    ensures ERROR.Sound() && AllDigits(ERROR.maxOccur) && AllDigits(ERROR.minOccur)
    ensures Value(ERROR.maxOccur) == 1 && Value(ERROR.minOccur) == 0
  {
    assert "1"[..0] == [] && "0"[..0] == [];
  }

  lemma LostElement(e: Element, later: seq<Element>)
    requires !e.Survives()
    ensures Surviving([e] + later) == Surviving(later)
  {
    hide Element.Survives;
    assert ([e] + later)[1..] == later;
  }

  lemma LoneElement(e: Element)
    requires e.Sound() && e.Survives() && e.NameEnd() == e.name
    requires AllDigits(e.maxOccur) && AllDigits(e.minOccur)
    requires Value(e.maxOccur) <= UINT_MAX && Value(e.minOccur) <= UINT_MAX
    ensures Surviving([e]) == Success([PackageField(e.name, Value(e.maxOccur), Value(e.minOccur))])
  {
    hide Element.Survives, Element.Sound, Element.NameEnd, Value;
    assert [e][1..] == [];
    var f := PackageField(e.name, Value(e.maxOccur), Value(e.minOccur));
    assert [f] + [] == [f];
  }

  /** The package RspQryUserLogin: its field may occur any number of times, and is not read back at all. */
  lemma UnboundedElementVanishes()
    ensures ReadBack([USER_LOGIN, ERROR]) == Success([PackageField(ERROR.name, 1, 0)])
  {
    hide *;
    AnyNumberIsLost();
    ErrorIsKept();
    SoundElement(ERROR);
    ReadBackSurvivors([USER_LOGIN, ERROR]);
    assert [USER_LOGIN, ERROR] == [USER_LOGIN] + [ERROR];
    LostElement(USER_LOGIN, [ERROR]);
    LoneElement(ERROR);
  }
}
