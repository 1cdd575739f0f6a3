/** The protocol tables: package and item lists, item types and the size of a field. */
module FtdProtocols {
  import opened Bytes
  import opened Decimal
  import opened ItemValues
  import opened Records
  import opened Wrappers

  const UINT_MAX := 0xFFFF_FFFF

  datatype PackageField = PackageField(name: bytes, maxOccur: uint32, minOccur: uint32)

  datatype TypeInfo = TypeInfo(basetype: bytes, length: nat, precision: nat, enumvals: seq<bytes>)

  type int31 = n: int | 0 <= n <= INT_MAX

  // A row of the type table.  Its lengths are those of types, so never negative.
  datatype TypeRow = TypeRow(basetype: bytes, length: int31, precision: int31, enumlist: bytes)

  /** The rows of the protocol database, by the key each query looks them up under. */
  datatype Protocol = Protocol(fieldNames: map<int32, bytes>, fieldIds: map<bytes, int32>,
                               itemLists: map<bytes, bytes>, itemTypes: map<bytes, bytes>,
                               types: map<bytes, TypeRow>)

  function Lookup<K, V>(m: map<K, V>, k: K): Result<V> {
    if k in m then Success(m[k]) else Failure(SqliteError)
  }

  // ---- Package lists ----

  const PACKAGE_GROUPS := [WordChar, DigitChar, DigitChar]

  const ITEM_GROUPS := [WordChar]

  // boost::lexical_cast accepts a group only if it is digits, which a match guarantees.
  function ToUnsigned(group: bytes): Result<uint32> {
    if AllDigits(group) then LexicalCast(group, UINT_MAX) else Failure(BadLexicalCast)
  }

  function ToPackageField(fs: seq<bytes>): Result<PackageField> {
    if |fs| != 3 then Failure(BadLexicalCast)
    else
      var max :- ToUnsigned(fs[1]);
      var min :- ToUnsigned(fs[2]);
      Success(PackageField(fs[0], max, min))
  }

  function ToPackageFields(rs: seq<seq<bytes>>): Result<seq<PackageField>> {
    if rs == [] then Success([])
    else
      var first :- ToPackageField(rs[0]);
      var later :- ToPackageFields(rs[1..]);
      Success([first] + later)
  }

  // `output` followed by what is still to come.
  function Joined<T>(output: seq<T>, later: Result<seq<T>>): Result<seq<T>> {
    if later.Success? then Success(output + later.value) else later
  }

  lemma JoinedStep(output: seq<PackageField>, fs: seq<bytes>, later: seq<seq<bytes>>)
    ensures ToPackageField(fs).Success? ==>
              Joined(output, ToPackageFields([fs] + later))
              == Joined(output + [ToPackageField(fs).value], ToPackageFields(later))
    ensures ToPackageField(fs).Failure? ==>
              ToPackageFields([fs] + later) == Failure(ToPackageField(fs).error)
  {
    hide ToPackageField;
    assert ([fs] + later)[1..] == later;
    if ToPackageField(fs).Success? && ToPackageFields(later).Success? {
      ConcatAssociates(output, [ToPackageField(fs).value], ToPackageFields(later).value);
    }
  }

  lemma JoinedEnds<T>(output: seq<T>, r: Result<seq<T>>)
    ensures Joined(output, Success([])) == Success(output)
    ensures Joined([], r) == r
  {
    assert output + [] == output;
    assert r.Success? ==> [] + r.value == r.value;
  }

  lemma JoinedFails<T>(output: seq<T>, e: Error)
    ensures Joined(output, Failure(e)) == Failure(e)
  {
  }

  /** The search loop over a package's list: every match is converted and pushed, a bad number throws. */
  method GetPackageFieldList(list: bytes) returns (r: Result<seq<PackageField>>)
    ensures r == ToPackageFields(Iterate(list, PACKAGE_GROUPS))
  {
    hide MatchAt, Body, ToPackageField, Joined;
    var output: seq<PackageField> := [];
    var rest := list;
    JoinedEnds(output, ToPackageFields(Iterate(list, PACKAGE_GROUPS)));
    while rest != []
      invariant ToPackageFields(Iterate(list, PACKAGE_GROUPS))
                == Joined(output, ToPackageFields(Iterate(rest, PACKAGE_GROUPS)))
      decreases |rest|
    {
      var m := MatchAt(rest, PACKAGE_GROUPS);
      if m.Some? {
        MatchAtShorter(rest, PACKAGE_GROUPS);
        var next := rest[|Body(m.value)| + 1..];
        JoinedStep(output, m.value, Iterate(next, PACKAGE_GROUPS));
        var field := ToPackageField(m.value);
        if field.Failure? {
          JoinedFails(output, field.error);
          return Failure(field.error);
        }
        output := output + [field.value];
        rest := next;
      } else {
        rest := rest[1..];
      }
    }
    JoinedEnds(output, ToPackageFields(Iterate(list, PACKAGE_GROUPS)));
    return Success(output);
  }

  predicate AllRecords(rs: seq<seq<bytes>>, gs: seq<Class>) {
    forall i :: 0 <= i < |rs| ==> rs[i] != [] && IsRecord(rs[i], gs)
  }

  // The groups of a record are a name and two numbers.
  predicate InRange(fs: seq<bytes>)
    requires IsRecord(fs, PACKAGE_GROUPS)
  {
    assert Within(fs[1], DigitChar) && Within(fs[2], DigitChar);
    Value(fs[1]) <= 0xFFFF_FFFF && Value(fs[2]) <= 0xFFFF_FFFF
  }

  lemma EntryIff(fs: seq<bytes>)
    requires IsRecord(fs, PACKAGE_GROUPS)
    ensures AllDigits(fs[1]) && AllDigits(fs[2])
    ensures ToPackageField(fs)
            == if InRange(fs) then Success(PackageField(fs[0], Value(fs[1]), Value(fs[2])))
               else Failure(BadLexicalCast)
  {
    assert Within(fs[1], DigitChar) && Within(fs[2], DigitChar);
  }

  /** A list of matches is read, entry for entry, exactly when no occurrence bound is too large for its type. */
  lemma {:induction false} PackageFieldsIff(rs: seq<seq<bytes>>)
    requires AllRecords(rs, PACKAGE_GROUPS)
    ensures ToPackageFields(rs).Success? <==> forall i :: 0 <= i < |rs| ==> InRange(rs[i])
    ensures ToPackageFields(rs).Success? ==>
              && |ToPackageFields(rs).value| == |rs|
              && forall i :: 0 <= i < |rs| ==> ToPackageField(rs[i]) == Success(ToPackageFields(rs).value[i])
  {
    hide ToPackageField, IsRecord, InRange;
    if rs == [] {
    } else {
      PackageFieldsIff(rs[1..]);
      EntryIff(rs[0]);
      assert rs == [rs[0]] + rs[1..];
    }
  }

  // ---- Item lists ----

  function FirstGroups(rs: seq<seq<bytes>>): seq<bytes>
    requires AllRecords(rs, ITEM_GROUPS)
  {
    if rs == [] then [] else [rs[0][0]] + FirstGroups(rs[1..])
  }

  lemma {:induction false} IterateRecords(s: bytes, gs: seq<Class>)
    requires gs != []
    ensures AllRecords(Iterate(s, gs), gs)
    decreases |s|
  {
    hide Body, IsRecord, MatchAt;
    if s == [] {
    } else {
      if MatchAt(s, gs).Some? {
        var rest := MatchAtOnly(s, gs);
        MatchAtShorter(s, gs);
        IterateRecords(s[|Body(MatchAt(s, gs).value)| + 1..], gs);
      } else {
        IterateRecords(s[1..], gs);
      }
    }
  }

  function ItemNames(list: bytes): (names: seq<bytes>) {
    IterateRecords(list, ITEM_GROUPS);
    FirstGroups(Iterate(list, ITEM_GROUPS))
  }

  /** The search loop over a field's list: the first group of every match is pushed. */
  method GetItemNames(list: bytes) returns (output: seq<bytes>)
    ensures output == ItemNames(list)
  {
    hide MatchAt, Body, IsRecord;
    output := [];
    var rest := list;
    while rest != []
      invariant ItemNames(list) == output + ItemNames(rest)
      decreases |rest|
    {
      IterateRecords(rest, ITEM_GROUPS);
      var m := MatchAt(rest, ITEM_GROUPS);
      if m.Some? {
        MatchAtShorter(rest, ITEM_GROUPS);
        output := output + [m.value[0]];
        rest := rest[|Body(m.value)| + 1..];
      } else {
        rest := rest[1..];
      }
    }
  }

  function ItemRecords(names: seq<bytes>): (rs: seq<seq<bytes>>)
    ensures |rs| == |names| && forall i :: 0 <= i < |names| ==> rs[i] == [names[i]]
  {
    if names == [] then [] else [[names[0]]] + ItemRecords(names[1..])
  }

  lemma {:induction false} FirstGroupsOfNames(names: seq<bytes>)
    requires forall i :: 0 <= i < |names| ==> Within(names[i], WordChar)
    ensures AllRecords(ItemRecords(names), ITEM_GROUPS)
    ensures FirstGroups(ItemRecords(names)) == names
  {
    if names == [] {
    } else {
      FirstGroupsOfNames(names[1..]);
      assert names == [names[0]] + names[1..];
    }
  }

  lemma {:induction false} FirstGroupsLength(rs: seq<seq<bytes>>)
    requires AllRecords(rs, ITEM_GROUPS)
    ensures |FirstGroups(rs)| == |rs|
  {
    if rs == [] {
    } else {
      FirstGroupsLength(rs[1..]);
    }
  }

  lemma {:induction false} FirstGroupsAreWords(rs: seq<seq<bytes>>, i: nat)
    requires AllRecords(rs, ITEM_GROUPS) && i < |rs|
    ensures |FirstGroups(rs)| == |rs| && Within(FirstGroups(rs)[i], WordChar)
  {
    FirstGroupsLength(rs);
    if i == 0 {
    } else {
      FirstGroupsAreWords(rs[1..], i - 1);
    }
  }

  // Whatever is read is a word.
  lemma ItemNamesAreWords(list: bytes, i: nat)
    requires i < |ItemNames(list)|
    ensures Within(ItemNames(list)[i], WordChar)
  {
    hide Iterate, Within;
    IterateRecords(list, ITEM_GROUPS);
    var rs := Iterate(list, ITEM_GROUPS);
    FirstGroupsLength(rs);
    FirstGroupsAreWords(rs, i);
  }

  lemma ItemListRead(names: seq<bytes>)
    requires forall i :: 0 <= i < |names| ==> Within(names[i], WordChar)
    ensures ItemNames(Render(ItemRecords(names))) == names
  {
    FirstGroupsOfNames(names);
    IterateRender(ItemRecords(names), ITEM_GROUPS);
  }

  /** Reading back the list the table builder wrote for a field gives that field's items exactly when every name is
      letters, digits and underscores. */
  lemma ItemListRoundTripIff(names: seq<bytes>)
    ensures ItemNames(Render(ItemRecords(names))) == names <==>
            forall i :: 0 <= i < |names| ==> Within(names[i], WordChar)
  {
    hide Within, ItemNames, Iterate;
    if ItemNames(Render(ItemRecords(names))) == names {
      forall i | 0 <= i < |names| ensures Within(names[i], WordChar) {
        ItemNamesAreWords(Render(ItemRecords(names)), i);
      }
    } else if forall i :: 0 <= i < |names| ==> Within(names[i], WordChar) {
      ItemListRead(names);
    }
  }

  // ---- Item types ----

  const STRING_TYPE: bytes := "FTDStringType"

  const FLOAT_TYPE: bytes := "FTDFloatType"

  const NUMBER_TYPE: bytes := "FTDNumberType"

  const CHAR_TYPE: bytes := "FTDCharType"

  const INT_TYPE: bytes := "FTDIntType"

  const WORD_TYPE: bytes := "FTDWordType"

  function Contains(s: bytes, w: bytes): (b: bool)
    ensures w <= s ==> b
  {
    w <= s || (s != [] && Contains(s[1..], w))
  }

  function ItemTypeOf(basetype: bytes): ItemType {
    if basetype == CHAR_TYPE then CharType
    else if Contains(basetype, FLOAT_TYPE) then FloatType
    else if basetype == INT_TYPE then IntType
    else if Contains(basetype, NUMBER_TYPE) then NumberType
    else if Contains(basetype, STRING_TYPE) then StringType
    else if basetype == WORD_TYPE then WordType
    else UnknownType
  }

  /** The digits of `name<digits>`. */
  function OneArgument(s: bytes, name: bytes): (r: Option<bytes>)
    ensures r.Some? ==> AllDigits(r.value)
  {
    var n := |name|;
    if n + 2 < |s| && s[..n] == name && s[n] == '<' && s[|s| - 1] == '>' && AllDigits(s[n + 1..|s| - 1]) then
      Some(s[n + 1..|s| - 1])
    else
      None
  }

  /** The digits of `name<digits,digits>`. */
  function TwoArguments(s: bytes, name: bytes): (r: Option<(bytes, bytes)>)
    ensures r.Some? ==> AllDigits(r.value.0) && AllDigits(r.value.1)
  {
    var n := |name|;
    if n + 1 < |s| && s[..n] == name && s[n] == '<' then
      var inner := s[n + 1..];
      var k := RunLength(inner, DigitChar);
      if k != 0 && k + 2 < |inner| && inner[k] == ',' && inner[|inner| - 1] == '>'
         && AllDigits(inner[k + 1..|inner| - 1]) then
        assert AllDigits(inner[..k]);
        Some((inner[..k], inner[k + 1..|inner| - 1]))
      else
        None
    else
      None
  }

  /** The tokens strtok finds between semicolons. */
  function Tokens(s: bytes): seq<bytes>
    decreases |s|
  {
    if s == [] then []
    else
      var n := SegmentLength(s);
      (if n == 0 then [] else [s[..n]]) + (if n < |s| then Tokens(s[n + 1..]) else [])
  }

  // The values of an enumeration as the table builder joins them.
  function Terminated(values: seq<bytes>): bytes {
    if values == [] then [] else values[0] + [';'] + Terminated(values[1..])
  }

  /** One argument is found exactly in the name, its digits between angle brackets. */
  lemma OneArgumentIff(s: bytes, name: bytes, d: bytes)
    ensures OneArgument(s, name) == Some(d) <==> d != [] && AllDigits(d) && s == name + ['<'] + d + ['>']
  {
    var n := |name|;
    if d != [] && AllDigits(d) && s == name + ['<'] + d + ['>'] {
      assert s[..n] == name && s[n] == '<' && s[|s| - 1] == '>' && s[n + 1..|s| - 1] == d;
    }
    if OneArgument(s, name) == Some(d) {
      assert s == s[..n] + [s[n]] + s[n + 1..|s| - 1] + [s[|s| - 1]];
    }
  }

  lemma TwoArgumentsCut(s: bytes, name: bytes, inner: bytes, d: bytes, e: bytes)
    requires s == name + ['<'] + inner && inner == d + [','] + e + ['>']
    requires d != [] && e != [] && AllDigits(e) && RunLength(inner, DigitChar) == |d|
    ensures TwoArguments(s, name) == Some((d, e))
  {
    hide RunLength, AllDigits;
    var n := |name|;
    assert s[..n] == name && s[n] == '<' && s[n + 1..] == inner;
    assert inner[|d|] == ',' && inner[|inner| - 1] == '>' && inner[|d| + 1..|inner| - 1] == e && inner[..|d|] == d;
  }

  lemma TwoArgumentsFound(name: bytes, d: bytes, e: bytes)
    requires d != [] && AllDigits(d) && e != [] && AllDigits(e)
    ensures TwoArguments(name + ['<'] + d + [','] + e + ['>'], name) == Some((d, e))
  {
    hide RunLength, TwoArguments;
    var tail := [','] + e + ['>'];
    var inner := d + [','] + e + ['>'];
    assert inner == d + tail;
    assert name + ['<'] + d + [','] + e + ['>'] == name + ['<'] + inner;
    assert Within(d, DigitChar);
    RunLengthExact(d, tail, DigitChar);
    TwoArgumentsCut(name + ['<'] + inner, name, inner, d, e);
  }

  lemma TwoArgumentsOnly(s: bytes, name: bytes)
    requires TwoArguments(s, name).Some?
    ensures var (d, e) := TwoArguments(s, name).value;
            && d != [] && AllDigits(d) && e != [] && AllDigits(e)
            && s == name + ['<'] + d + [','] + e + ['>']
  {
    hide RunLength;
    var (d, e) := TwoArguments(s, name).value;
    var n, inner := |name|, s[|name| + 1..];
    assert s == s[..n] + [s[n]] + inner;
    assert inner == inner[..|d|] + [inner[|d|]] + inner[|d| + 1..|inner| - 1] + [inner[|inner| - 1]];
    assert name + ['<'] + (d + [','] + e + ['>']) == name + ['<'] + d + [','] + e + ['>'];
  }

  /** Two arguments likewise, a comma between them. */
  lemma TwoArgumentsIff(s: bytes, name: bytes, d: bytes, e: bytes)
    ensures TwoArguments(s, name) == Some((d, e)) <==>
            && d != [] && AllDigits(d) && e != [] && AllDigits(e)
            && s == name + ['<'] + d + [','] + e + ['>']
  {
    hide TwoArguments;
    if d != [] && AllDigits(d) && e != [] && AllDigits(e) {
      TwoArgumentsFound(name, d, e);
    }
    if TwoArguments(s, name) == Some((d, e)) {
      TwoArgumentsOnly(s, name);
    }
  }

  // What strtok can return.
  predicate Listable(value: bytes) {
    value != [] && ';' !in value
  }

  /** A text is cut at every semicolon, the end counting as one, and empty pieces are dropped. */
  lemma TokensCut(u: bytes, rest: bytes)
    requires ';' !in u
    ensures Tokens(u + [';'] + rest) == (if u == [] then [] else [u]) + Tokens(rest)
    ensures Tokens(u) == if u == [] then [] else [u]
  {
    hide SegmentLength;
    var s := u + [';'] + rest;
    SegmentLengthExact(u, rest);
    assert s[..|u|] == u && s[|u| + 1..] == rest;
    var n := SegmentLength(u);
    assert u[..|u|] == u;
    assert u != [] ==> [u] + [] == [u];
  }

  lemma {:induction false} TokensRead(values: seq<bytes>)
    requires forall i :: 0 <= i < |values| ==> Listable(values[i])
    ensures Tokens(Terminated(values)) == values
  {
    if values == [] {
    } else {
      var v, rest := values[0], Terminated(values[1..]);
      var s := v + [';'] + rest;
      assert s[..|v|] == v && s[|v|] == ';' && s[|v| + 1..] == rest;
      SegmentLengthExact(v, rest);
      TokensRead(values[1..]);
      assert values == [v] + values[1..];
    }
  }

  lemma {:induction false} TokensAreListable(s: bytes, i: nat)
    requires i < |Tokens(s)|
    ensures Listable(Tokens(s)[i])
    decreases |s|
  {
    var n := SegmentLength(s);
    var later := if n < |s| then Tokens(s[n + 1..]) else [];
    if n == 0 {
      assert Tokens(s) == later;
      TokensAreListable(s[n + 1..], i);
    } else {
      assert Tokens(s) == [s[..n]] + later;
      if i > 0 {
        TokensAreListable(s[n + 1..], i - 1);
      }
    }
  }

  /** The values of an enumeration are read back, in order, exactly when none is empty or holds a semicolon. */
  lemma TokensRoundTripIff(values: seq<bytes>)
    ensures Tokens(Terminated(values)) == values <==> forall i :: 0 <= i < |values| ==> Listable(values[i])
  {
    hide Listable, Tokens;
    if Tokens(Terminated(values)) == values {
      forall i | 0 <= i < |values| ensures Listable(values[i]) {
        TokensAreListable(Terminated(values), i);
      }
    } else if forall i :: 0 <= i < |values| ==> Listable(values[i]) {
      TokensRead(values);
    }
  }

  function GetTypeInfo(spelling: bytes, types: map<bytes, TypeRow>): Result<TypeInfo> {
    var str, flt, num := OneArgument(spelling, STRING_TYPE), TwoArguments(spelling, FLOAT_TYPE),
                         OneArgument(spelling, NUMBER_TYPE);
    if str.Some? then
      var length :- LexicalCast(str.value, INT_MAX);
      Success(TypeInfo(spelling, length, 0, []))
    else if spelling == CHAR_TYPE then
      Success(TypeInfo(CHAR_TYPE, 1, 0, []))
    else if flt.Some? then
      var length :- LexicalCast(flt.value.0, INT_MAX);
      var precision :- LexicalCast(flt.value.1, INT_MAX);
      Success(TypeInfo(spelling, length, precision, []))
    else if spelling == INT_TYPE then
      Success(TypeInfo(INT_TYPE, 4, 0, []))
    else if num.Some? then
      var length :- LexicalCast(num.value, INT_MAX);
      Success(TypeInfo(spelling, length, 0, []))
    else if spelling == WORD_TYPE then
      Success(TypeInfo(WORD_TYPE, 2, 0, []))
    else
      var row :- Lookup(types, spelling);
      Success(TypeInfo(row.basetype, row.length, row.precision, Tokens(row.enumlist)))
  }

  /** One of the six spellings that need no row of the type table. */
  predicate BuiltIn(spelling: bytes) {
    || OneArgument(spelling, STRING_TYPE).Some? || spelling == CHAR_TYPE
    || TwoArguments(spelling, FLOAT_TYPE).Some? || spelling == INT_TYPE
    || OneArgument(spelling, NUMBER_TYPE).Some? || spelling == WORD_TYPE
  }

  /** A value of the type occupies exactly this many bytes. */
  predicate Occupies(t: ItemType, length: nat) {
    match t
    case CharType => length == 1
    case IntType => length == 4
    case WordType => length == 2
    case UnknownType => false
    case _ => true
  }

  /** A value of the type is made from no more bytes than its length says. */
  predicate Consistent(info: TypeInfo) {
    Needed(ItemTypeOf(info.basetype), info.length) <= info.length
  }

  // The only `F` of these spellings is their first letter, so no other name can occur inside them.
  lemma {:induction false} NoLaterStart(s: bytes, other: bytes)
    requires other != [] && other[0] == 'F' && 'F' !in s
    ensures !Contains(s, other)
  {
    if s == [] {
    } else {
      assert s[0] != other[0];
      NoLaterStart(s[1..], other);
    }
  }

  lemma NoOtherName(s: bytes, name: bytes, other: bytes)
    requires OneArgument(s, name).Some? && |name| > 3 && |other| > 3
    requires 'F' !in name[1..] && other[0] == 'F' && other[3] != name[3]
    ensures !Contains(s, other)
  {
    assert s[3] == name[3] && name[3] != other[3];
    forall i | 1 <= i < |s| ensures s[i] != 'F' {
      assert i < |name| ==> s[i] == name[1..][i - 1];
      assert |name| < i < |s| - 1 ==> s[i] == s[|name| + 1..|s| - 1][i - |name| - 1];
    }
    NoLaterStart(s[1..], other);
  }

  lemma ContainsPrefix(s: bytes, name: bytes)
    requires |name| <= |s| && s[..|name|] == name
    ensures Contains(s, name)
  {
    assert name <= s;
  }

  // A spelling with an argument has a `<` where the plain names have a letter or nothing.
  lemma NotPlain(s: bytes, n: nat)
    requires n < |s| && s[n] == '<'
    ensures s != CHAR_TYPE && s != INT_TYPE && s != WORD_TYPE
  {
    assert '<' !in CHAR_TYPE && '<' !in INT_TYPE && '<' !in WORD_TYPE;
  }

  lemma PlainDiffer()
    ensures CHAR_TYPE != INT_TYPE && CHAR_TYPE != WORD_TYPE && INT_TYPE != WORD_TYPE
  {
    assert CHAR_TYPE[3] != INT_TYPE[3] && CHAR_TYPE[3] != WORD_TYPE[3] && INT_TYPE[3] != WORD_TYPE[3];
  }

  lemma {:induction false} NotContained(s: bytes, w: bytes)
    requires |s| < |w|
    ensures !Contains(s, w)
  {
    if s == [] {
    } else {
      NotContained(s[1..], w);
    }
  }

  lemma PlainSpellings()
    ensures ItemTypeOf(CHAR_TYPE) == CharType
    ensures ItemTypeOf(INT_TYPE) == IntType
    ensures ItemTypeOf(WORD_TYPE) == WordType
  {
    hide Contains;
    PlainDiffer();
    NotContained(INT_TYPE, FLOAT_TYPE);
    NotContained(WORD_TYPE, FLOAT_TYPE);
    NotContained(WORD_TYPE, NUMBER_TYPE);
    NotContained(WORD_TYPE, STRING_TYPE);
  }

  /** Every built-in spelling is classified as the type it spells. */
  lemma BuiltInTypes(s: bytes)
    ensures OneArgument(s, STRING_TYPE).Some? ==> ItemTypeOf(s) == StringType
    ensures OneArgument(s, NUMBER_TYPE).Some? ==> ItemTypeOf(s) == NumberType
    ensures TwoArguments(s, FLOAT_TYPE).Some? ==> ItemTypeOf(s) == FloatType
  {
    hide Contains;
    if OneArgument(s, STRING_TYPE).Some? {
      NotPlain(s, |STRING_TYPE|);
      NoOtherName(s, STRING_TYPE, FLOAT_TYPE);
      NoOtherName(s, STRING_TYPE, NUMBER_TYPE);
      ContainsPrefix(s, STRING_TYPE);
    }
    if OneArgument(s, NUMBER_TYPE).Some? {
      NotPlain(s, |NUMBER_TYPE|);
      NoOtherName(s, NUMBER_TYPE, FLOAT_TYPE);
      ContainsPrefix(s, NUMBER_TYPE);
    }
    if TwoArguments(s, FLOAT_TYPE).Some? {
      NotPlain(s, |FLOAT_TYPE|);
      ContainsPrefix(s, FLOAT_TYPE);
    }
  }

  /** A built-in spelling that is accepted describes its own type at its own length. */
  lemma BuiltInConsistent(s: bytes, types: map<bytes, TypeRow>)
    requires BuiltIn(s) && GetTypeInfo(s, types).Success?
    ensures var info := GetTypeInfo(s, types).value;
            Occupies(ItemTypeOf(info.basetype), info.length) && Consistent(info)
  {
    hide Contains, OneArgument, TwoArguments, ItemTypeOf;
    BuiltInTypes(s);
    PlainSpellings();
  }

  /** The value made for an item is as long as its type says, whichever way it is made. */
  lemma OccupiesSize(t: ItemType, length: nat, precision: nat, p: bytes, text: bytes)
    requires Occupies(t, length) && Needed(t, length) <= |p|
    ensures var v := CreateFromData(t, p, length, precision); v.Some? && v.value.Size() == length
    ensures var v := CreateFromStr(t, text, length, precision); v.Some? && v.value.Size() == length
  {
    hide CText, ReadInteger, ReadWord;
  }

  // ---- Every spelling and what is reported for it ----

  const INT_LIMIT := 0x7FFF_FFFF

  function Spelled(name: bytes, d: bytes): bytes {
    name + ['<'] + d + ['>']
  }

  function SpelledTwo(name: bytes, d: bytes, e: bytes): bytes {
    name + ['<'] + d + [','] + e + ['>']
  }

  predicate IsNumeral(d: bytes) {
    d != [] && AllDigits(d)
  }

  lemma NamesAre()
    ensures STRING_TYPE == "FTDStringType" && NUMBER_TYPE == "FTDNumberType" && FLOAT_TYPE == "FTDFloatType"
    ensures CHAR_TYPE == "FTDCharType" && INT_TYPE == "FTDIntType" && WORD_TYPE == "FTDWordType"
  {
  }

  // Names that differ in their fourth letter begin no common spelling.
  lemma OtherNameNotFound(s: bytes, name: bytes)
    requires |name| > 3 && (|s| <= 3 || s[3] != name[3])
    ensures OneArgument(s, name) == None && TwoArguments(s, name) == None
  {
    assert |s| > |name| ==> s[..|name|][3] == s[3];
  }

  lemma FourthLetters(rest: bytes)
    ensures (STRING_TYPE + rest)[3] == 'S' && (NUMBER_TYPE + rest)[3] == 'N' && (FLOAT_TYPE + rest)[3] == 'F'
    ensures STRING_TYPE[3] == 'S' && NUMBER_TYPE[3] == 'N' && FLOAT_TYPE[3] == 'F'
    ensures CHAR_TYPE[3] == 'C' && INT_TYPE[3] == 'I' && WORD_TYPE[3] == 'W'
  {
  }

  /** A string type reports the length in its spelling. */
  lemma StringSpelling(d: bytes, types: map<bytes, TypeRow>)
    requires IsNumeral(d)
    ensures var s := Spelled("FTDStringType", d);
            GetTypeInfo(s, types) == if Value(d) <= INT_LIMIT then Success(TypeInfo(s, Value(d), 0, []))
                                     else Failure(BadLexicalCast)
  {
    hide OneArgument, TwoArguments, Value;
    NamesAre();
    OneArgumentIff(Spelled(STRING_TYPE, d), STRING_TYPE, d);
  }

  /** So does a number type. */
  lemma NumberSpelling(d: bytes, types: map<bytes, TypeRow>)
    requires IsNumeral(d)
    ensures var s := Spelled("FTDNumberType", d);
            GetTypeInfo(s, types) == if Value(d) <= INT_LIMIT then Success(TypeInfo(s, Value(d), 0, []))
                                     else Failure(BadLexicalCast)
  {
    hide OneArgument, TwoArguments, Value;
    NamesAre();
    var s := Spelled(NUMBER_TYPE, d);
    OneArgumentIff(s, NUMBER_TYPE, d);
    FourthLetters(['<'] + d + ['>']);
    assert s == NUMBER_TYPE + (['<'] + d + ['>']);
    OtherNameNotFound(s, STRING_TYPE);
    OtherNameNotFound(s, FLOAT_TYPE);
  }

  /** A float type reports its length and its precision. */
  lemma FloatSpelling(d: bytes, e: bytes, types: map<bytes, TypeRow>)
    requires IsNumeral(d) && IsNumeral(e)
    ensures var s := SpelledTwo("FTDFloatType", d, e);
            GetTypeInfo(s, types)
            == if Value(d) <= INT_LIMIT && Value(e) <= INT_LIMIT then Success(TypeInfo(s, Value(d), Value(e), []))
               else Failure(BadLexicalCast)
  {
    hide OneArgument, TwoArguments, Value;
    NamesAre();
    var s := SpelledTwo(FLOAT_TYPE, d, e);
    TwoArgumentsIff(s, FLOAT_TYPE, d, e);
    var rest := ['<'] + d + [','] + e + ['>'];
    FourthLetters(rest);
    assert s == FLOAT_TYPE + rest;
    OtherNameNotFound(s, STRING_TYPE);
  }

  /** The plain types report what they occupy. */
  lemma PlainSpelling(types: map<bytes, TypeRow>)
    ensures GetTypeInfo("FTDCharType", types) == Success(TypeInfo("FTDCharType", 1, 0, []))
    ensures GetTypeInfo("FTDIntType", types) == Success(TypeInfo("FTDIntType", 4, 0, []))
    ensures GetTypeInfo("FTDWordType", types) == Success(TypeInfo("FTDWordType", 2, 0, []))
  {
    hide OneArgument, TwoArguments;
    NamesAre();
    PlainDiffer();
    FourthLetters([]);
    OtherNameNotFound(CHAR_TYPE, STRING_TYPE);
    OtherNameNotFound(INT_TYPE, STRING_TYPE);
    OtherNameNotFound(WORD_TYPE, STRING_TYPE);
    OtherNameNotFound(INT_TYPE, FLOAT_TYPE);
    OtherNameNotFound(WORD_TYPE, FLOAT_TYPE);
    OtherNameNotFound(WORD_TYPE, NUMBER_TYPE);
  }

  // None of the spellings that need no row.
  ghost predicate NeedsRow(s: bytes) {
    && s !in [CHAR_TYPE, INT_TYPE, WORD_TYPE]
    && (forall d: bytes :: IsNumeral(d) ==> s != Spelled(STRING_TYPE, d) && s != Spelled(NUMBER_TYPE, d))
    && (forall d: bytes, e: bytes :: IsNumeral(d) && IsNumeral(e) ==> s != SpelledTwo(FLOAT_TYPE, d, e))
  }

  /** For any other spelling its row says everything, and a missing row throws. */
  lemma RowSpelling(s: bytes, types: map<bytes, TypeRow>)
    requires NeedsRow(s)
    ensures s !in types ==> GetTypeInfo(s, types) == Failure(SqliteError)
    ensures s in types ==>
              && GetTypeInfo(s, types).Success?
              && var info, row := GetTypeInfo(s, types).value, types[s];
                 && info.basetype == row.basetype && info.length == row.length && info.precision == row.precision
                 && info.enumvals == Tokens(row.enumlist)
  {
    hide OneArgument, TwoArguments;
    var str, num, flt := OneArgument(s, STRING_TYPE), OneArgument(s, NUMBER_TYPE), TwoArguments(s, FLOAT_TYPE);
    if str.Some? {
      var spelled := Spelled(STRING_TYPE, str.value);
      OneArgumentIff(s, STRING_TYPE, str.value);
    }
    if num.Some? {
      var spelled := Spelled(NUMBER_TYPE, num.value);
      OneArgumentIff(s, NUMBER_TYPE, num.value);
    }
    if flt.Some? {
      var spelled := SpelledTwo(FLOAT_TYPE, flt.value.0, flt.value.1);
      TwoArgumentsIff(s, FLOAT_TYPE, flt.value.0, flt.value.1);
    }
  }

  predicate StandsAt(s: bytes, w: bytes, i: nat) {
    i + |w| <= |s| && s[i..i + |w|] == w
  }

  lemma StandsLater(s: bytes, w: bytes, i: nat)
    requires s != []
    ensures StandsAt(s[1..], w, i) <==> StandsAt(s, w, i + 1)
  {
    assert i + 1 + |w| <= |s| ==> s[1..][i..i + |w|] == s[i + 1..i + 1 + |w|];
  }

  /** A name is contained exactly where it stands somewhere in the text. */
  lemma {:induction false} ContainsIff(s: bytes, w: bytes)
    ensures Contains(s, w) <==> exists i: nat :: StandsAt(s, w, i)
  {
    if w <= s {
      assert StandsAt(s, w, 0);
    } else if s != [] {
      ContainsIff(s[1..], w);
      if i: nat :| StandsAt(s[1..], w, i) {
        StandsLater(s, w, i);
      }
      if i: nat :| StandsAt(s, w, i) {
        assert i == 0 ==> w <= s;
        StandsLater(s, w, i - 1);
      }
    }
  }

  /** How the source classifies a base type: three by their whole text, three by a name anywhere in it, in this
      order. */
  lemma ClassifiedAs(s: bytes)
    ensures ItemTypeOf(s) == CharType <==> s == "FTDCharType"
    ensures ItemTypeOf(s) == FloatType <==> s != "FTDCharType" && Contains(s, "FTDFloatType")
    ensures ItemTypeOf(s) == IntType <==> s == "FTDIntType"
    ensures ItemTypeOf(s) == NumberType <==>
            s != "FTDCharType" && s != "FTDIntType" && !Contains(s, "FTDFloatType") && Contains(s, "FTDNumberType")
    ensures ItemTypeOf(s) == StringType <==>
            && s != "FTDCharType" && s != "FTDIntType" && !Contains(s, "FTDFloatType")
            && !Contains(s, "FTDNumberType") && Contains(s, "FTDStringType")
    ensures ItemTypeOf(s) == WordType <==> s == "FTDWordType"
  {
    hide Contains;
    NamesAre();
    PlainSpellings();
    PlainDiffer();
  }

  // ---- Field sizes ----

  function ItemInfo(pr: Protocol, item: bytes): Result<TypeInfo> {
    var spelling :- Lookup(pr.itemTypes, item);
    GetTypeInfo(spelling, pr.types)
  }

  function SizeOf(pr: Protocol, items: seq<bytes>): Result<nat> {
    if items == [] then Success(0)
    else
      var info :- ItemInfo(pr, items[0]);
      var later :- SizeOf(pr, items[1..]);
      Success(info.length + later)
  }

  function FieldItems(pr: Protocol, field: bytes): Result<seq<bytes>> {
    var list :- Lookup(pr.itemLists, field);
    Success(ItemNames(list))
  }

  function FieldSize(pr: Protocol, field: bytes): Result<nat> {
    var items :- FieldItems(pr, field);
    SizeOf(pr, items)
  }

  function Plus(size: nat, later: Result<nat>): Result<nat> {
    if later.Success? then Success(size + later.value) else later
  }

  lemma SizeOfStep(pr: Protocol, items: seq<bytes>, k: nat, size: nat)
    requires k < |items|
    ensures Plus(size, SizeOf(pr, items[k..]))
            == match ItemInfo(pr, items[k])
               case Success(info) => Plus(size + info.length, SizeOf(pr, items[k + 1..]))
               case Failure(e) => Failure(e)
  {
    hide ItemInfo;
    assert items[k..][0] == items[k] && items[k..][1..] == items[k + 1..];
  }

  /** The summing loop of `get_field_size`. */
  method GetFieldSize(pr: Protocol, field: bytes) returns (r: Result<nat>)
    ensures r == FieldSize(pr, field)
  {
    hide ItemInfo, ItemNames;
    var list := Lookup(pr.itemLists, field);
    if list.Failure? {
      return Failure(list.error);
    }
    var items := GetItemNames(list.value);
    var size: nat := 0;
    assert items[0..] == items;
    for k := 0 to |items|
      invariant FieldSize(pr, field) == Plus(size, SizeOf(pr, items[k..]))
    {
      SizeOfStep(pr, items, k, size);
      var info := ItemInfo(pr, items[k]);
      if info.Failure? {
        return Failure(info.error);
      }
      size := size + info.value.length;
    }
    return Success(size);
  }
}
