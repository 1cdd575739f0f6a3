/** The typed values of field items and their wire and text forms. */
module ItemValues {
  import opened Bytes
  import opened Decimal
  import opened Wrappers

  const NUL: byte := 0 as char

  const INT_MIN := -0x8000_0000

  const INT_MAX := 0x7FFF_FFFF

  const USHORT_MAX := 0xFFFF

  datatype ItemType = CharType | FloatType | IntType | NumberType | StringType | WordType | UnknownType

  // ---- Extraction of words ----

  function WordRun(s: bytes): (w: bytes)
    ensures |w| <= |s| && forall i :: 0 <= i < |w| ==> !IsSpace(w[i]) && w[i] in s
  {
    if s == [] || IsSpace(s[0]) then [] else [s[0]] + WordRun(s[1..])
  }

  /** What `stream >> s` leaves in a string (section 21.4.8.9 of ISO C++11). */
  function ReadWord(s: bytes): bytes {
    WordRun(SkipSpaces(s))
  }

  /** The characters from `p` on, up to `length` of them and not past a terminator. */
  function CText(p: bytes, length: nat): (s: bytes)
    ensures |s| <= length && NUL !in s
  {
    if length == 0 || p == [] || p[0] == NUL then [] else [p[0]] + CText(p[1..], length - 1)
  }

  /** No character that ends a C string or an extracted word. */
  predicate IsToken(s: bytes) {
    forall i :: 0 <= i < |s| ==> !IsSpace(s[i]) && s[i] != NUL
  }

  // ---- Values ----

  // How a float's text is written at a length and a precision.  The source cuts the form at that length.
  type FloatForm = form: (bytes, nat, nat) -> bytes |
      forall text: bytes, length: nat, precision: nat :: |form(text, length, precision)| == length
    witness (text: bytes, length: nat, precision: nat) => Fill('0', length)

  function Shorter(m: nat, n: nat): nat {
    if m < n then m else n
  }

  // A float keeps the text it was made from: its rounded value is not part of this model.
  datatype ItemValue =
    | CharValue(c: byte)
    | FloatValue(text: bytes, length: nat, precision: nat)
    | IntValue(i: int32)
    | NumberValue(i: int32, length: nat)
    | StringValue(s: bytes, length: nat)
    | WordValue(us: uint16)
  {
    function Type(): ItemType {
      match this
      case CharValue(_) => CharType
      case FloatValue(_, _, _) => FloatType
      case IntValue(_) => IntType
      case NumberValue(_, _) => NumberType
      case StringValue(_, _) => StringType
      case WordValue(_) => WordType
    }

    function Size(): nat {
      match this
      case CharValue(_) => 1
      case FloatValue(_, n, _) => n
      case IntValue(_) => 4
      case NumberValue(_, n) => n
      case StringValue(_, n) => n
      case WordValue(_) => 2
    }

    /** The wire form: raw memory, or text filled to the width and cut there. */
    function Data(): (d: bytes)
      requires !FloatValue?
      ensures |d| == Size()
    {
      match this
      case CharValue(c) => [c]
      case IntValue(i) => LeInt(i)
      case NumberValue(i, n) => PadSigned(i, n - Shorter(|PrintSigned(i)|, n))[..n]
      case StringValue(s, n) => (s + Fill(' ', n - Shorter(|s|, n)))[..n]
      case WordValue(us) => Le16(us)
    }

    /** The bytes the serialiser copies. */
    function Wire(form: FloatForm): (d: bytes)
      ensures |d| == Size()
    {
      if FloatValue? then form(text, length, precision) else Data()
    }

    /** The form put into a statement's text. */
    function Str(): bytes
      requires !FloatValue?
    {
      match this
      case CharValue(c) => [c]
      case IntValue(i) => PrintSigned(i)
      case NumberValue(i, _) => PrintSigned(i)
      case StringValue(s, _) => ['\''] + s + ['\'']
      case WordValue(us) => PrintSigned(us)
    }

    /** The value is one its wire form can carry. */
    predicate Representable() {
      match this
      case NumberValue(i, n) => |PrintSigned(i)| <= n || (i == 0 && n == 0)
      case StringValue(s, n) => |s| <= n && IsToken(s)
      case _ => true
    }
  }

  function ReadInt(s: bytes): int32 {
    ReadInteger(s, INT_MIN, INT_MAX)
  }

  function NumberFrom(p: bytes, length: nat): ItemValue {
    NumberValue(ReadInt(p[..Shorter(length, |p|)]), length)
  }

  function StringFrom(p: bytes, length: nat): ItemValue {
    StringValue(ReadWord(CText(p, length)), length)
  }

  // The bytes a constructor reads from its pointer.
  function Needed(t: ItemType, length: nat): nat {
    match t
    case CharType => 1
    case IntType => 4
    case WordType => 2
    case NumberType => length
    case _ => 0
  }

  /** From wire memory; None is the null pointer of an unknown type. */
  function CreateFromData(t: ItemType, p: bytes, length: nat, precision: nat): (v: Option<ItemValue>)
    requires Needed(t, length) <= |p|
  {
    match t
    case CharType => Some(CharValue(p[0]))
    case FloatType => Some(FloatValue(CText(p, |p|), length, precision))
    case IntType => Some(IntValue(FromLeInt(p[..4])))
    case NumberType => Some(NumberFrom(p, length))
    case StringType => Some(StringFrom(p, length))
    case WordType => Some(WordValue(FromLe16(p[..2])))
    case UnknownType => None
  }

  /** From a C string and its terminator. */
  function CreateFromStr(t: ItemType, text: bytes, length: nat, precision: nat): (v: Option<ItemValue>) {
    var p := CText(text, |text|) + [NUL];
    match t
    case CharType => Some(CharValue(p[0]))
    case FloatType => Some(FloatValue(CText(text, |text|), length, precision))
    case IntType => Some(IntValue(ReadInt(CText(text, |text|))))
    case NumberType => Some(NumberFrom(p, length))
    case StringType => Some(StringFrom(p, length))
    case WordType => Some(WordValue(ReadInteger(CText(text, |text|), 0, USHORT_MAX)))
    case UnknownType => None
  }

  // ---- Round trips ----

  lemma {:induction false} WordRunOfToken(s: bytes, rest: bytes)
    requires IsToken(s) && (rest != [] ==> IsSpace(rest[0]))
    ensures WordRun(s + rest) == s
  {
    if s == [] {
      assert s + rest == rest;
    } else {
      assert (s + rest)[1..] == s[1..] + rest;
      WordRunOfToken(s[1..], rest);
    }
  }

  lemma {:induction false} SpacesOnly(n: nat)
    ensures SkipSpaces(Fill(' ', n)) == []
  {
    if n == 0 {
    } else {
      assert Fill(' ', n)[1..] == Fill(' ', n - 1);
      SpacesOnly(n - 1);
    }
  }

  lemma {:induction false} CTextAll(s: bytes, rest: bytes)
    requires NUL !in s
    ensures CText(s + rest, |s|) == s
  {
    if s == [] {
    } else {
      assert (s + rest)[1..] == s[1..] + rest;
      CTextAll(s[1..], rest);
    }
  }

  lemma ReadWordPadded(s: bytes, n: nat)
    requires IsToken(s)
    ensures ReadWord(s + Fill(' ', n)) == s
  {
    SpacesOnly(n);
    WordRunOfToken(s, Fill(' ', n));
    if s == [] {
      assert s + Fill(' ', n) == Fill(' ', n);
    }
  }

  lemma {:induction false} SkipSpacesMembers(s: bytes)
    ensures forall c :: c in SkipSpaces(s) ==> c in s
  {
    if s != [] && IsSpace(s[0]) {
      SkipSpacesMembers(s[1..]);
    }
  }

  lemma ReadWordIsToken(p: bytes, length: nat)
    ensures IsToken(ReadWord(CText(p, length))) && |ReadWord(CText(p, length))| <= length
  {
    SkipSpacesMembers(CText(p, length));
  }

  /** A string survives its padded wire form exactly when it is a token no longer than its width. */
  lemma StringRoundTripIff(s: bytes, n: nat)
    ensures StringFrom(StringValue(s, n).Data(), n) == StringValue(s, n) <==> |s| <= n && IsToken(s)
  {
    var d := StringValue(s, n).Data();
    ReadWordIsToken(d, n);
    if |s| <= n && IsToken(s) {
      assert d == s + Fill(' ', n - |s|);
      CTextAll(d, []);
      assert d + [] == d;
      ReadWordPadded(s, n - |s|);
    }
  }

  lemma {:induction false} ValuePrefix(ds: bytes, k: nat)
    requires AllDigits(ds) && k < |ds| && ds != []
    ensures 10 * Value(ds[..k]) <= Value(ds)
    decreases |ds|
  {
    var front := ds[..|ds| - 1];
    if k >= |ds| - 1 {
    } else {
      ValuePrefix(front, k);
      assert front[..k] == ds[..k];
    }
  }

  lemma PrintSignedLength(i: int, zeros: nat)
    ensures |PadSigned(i, zeros)| == |PrintSigned(i)| + zeros
    ensures PadSigned(i, 0) == PrintSigned(i)
  {
  }

  lemma LoneSignReadsZero()
    ensures ReadInt([]) == 0 && ReadInt(['-']) == 0
  {
  }

  lemma ZeroPrintsShort(m: nat)
    ensures m == 0 ==> |Print(m)| == 1
  {
  }

  // A form cut short is read as something smaller in magnitude.
  lemma CutNumberDiffers(i: int32, n: nat)
    requires 1 <= n < |PrintSigned(i)|
    ensures ReadInt(PrintSigned(i)[..n]) != i
  {
    hide ReadInteger, Value, Print;
    var j: int := i;
    var m: nat := if j < 0 then -j else j;
    var k := if i < 0 then n - 1 else n;
    var sign, cut := if i < 0 then ['-'] else [], Print(m)[..k];
    assert PrintSigned(i)[..n] == sign + cut + [];
    PrintRoundTrip(m);
    if k == 0 {
      LoneSignReadsZero();
      assert sign + cut + [] == ['-'];
    } else {
      ValuePrefix(Print(m), k);
      ReadSignedDigits(i < 0, cut, [], INT_MIN, INT_MAX);
      ZeroPrintsShort(m);
    }
  }

  /** A number survives its zero-filled wire form exactly when its shortest form fits the width. */
  lemma NumberRoundTripIff(i: int32, n: nat)
    ensures NumberFrom(NumberValue(i, n).Data(), n) == NumberValue(i, n) <==> NumberValue(i, n).Representable()
  {
    hide ReadInteger, PadSigned, PrintSigned;
    var len := |PrintSigned(i)|;
    PrintSignedLength(i, n - Shorter(len, n));
    var d := NumberValue(i, n).Data();
    if len <= n {
      ReadPrinted(i, n - len, [], INT_MIN, INT_MAX);
      assert d == PadSigned(i, n - len) + [];
    } else if n > 0 {
      CutNumberDiffers(i, n);
      assert d == PrintSigned(i)[..n];
    } else {
      LoneSignReadsZero();
    }
    assert d[..Shorter(n, |d|)] == d;
  }

  /** For every type but float: the wire form gives the value back exactly when the value fits it. */
  lemma RoundTripIff(v: ItemValue)
    requires !v.FloatValue?
    ensures Needed(v.Type(), v.Size()) <= |v.Data()|
    ensures CreateFromData(v.Type(), v.Data(), v.Size(), 0) == Some(v) <==> v.Representable()
  {
    match v
    case NumberValue(i, n) => NumberRoundTripIff(i, n);
    case StringValue(s, n) => StringRoundTripIff(s, n);
    case IntValue(i) =>
      LeIntRoundTrip(i);
      assert v.Data()[..4] == v.Data();
    case WordValue(us) =>
      Le16RoundTrip(us);
      assert v.Data()[..2] == v.Data();
    case CharValue(_) =>
  }

  lemma MadeRepresentable(p: bytes, length: nat)
    ensures NumberFrom(p, length).Representable()
    ensures StringFrom(p, length).Representable()
  {
    var s := p[..Shorter(length, |p|)];
    if s == [] {
      LoneSignReadsZero();
    } else {
      ReadIntegerFits(s, INT_MIN, INT_MAX);
    }
    ReadWordIsToken(p, length);
  }

  /** Whatever bytes a value is decoded from, its own wire form decodes to it again. */
  lemma DecodeEncodeDecode(t: ItemType, p: bytes, length: nat, precision: nat)
    requires Needed(t, length) <= |p| && !t.FloatType?
    ensures match CreateFromData(t, p, length, precision)
            case Some(v) => && v.Type() == t && Needed(t, v.Size()) <= |v.Data()|
                            && CreateFromData(t, v.Data(), v.Size(), precision) == Some(v)
            case None => t.UnknownType?
  {
    MadeRepresentable(p, length);
    var r := CreateFromData(t, p, length, precision);
    if r.Some? {
      RoundTripIff(r.value);
    }
  }

  /** The same holds of values made from a database column's text. */
  lemma TextEncodeDecode(t: ItemType, text: bytes, length: nat, precision: nat)
    requires !t.FloatType?
    ensures match CreateFromStr(t, text, length, precision)
            case Some(v) => && v.Type() == t && Needed(t, v.Size()) <= |v.Data()|
                            && CreateFromData(t, v.Data(), v.Size(), precision) == Some(v)
            case None => t.UnknownType?
  {
    MadeRepresentable(CText(text, |text|) + [NUL], length);
    var r := CreateFromStr(t, text, length, precision);
    if r.Some? {
      RoundTripIff(r.value);
    }
  }

  lemma PrintedText(i: int)
    ensures CText(PrintSigned(i), |PrintSigned(i)|) == PrintSigned(i)
    ensures |PrintSigned(i)| >= 1
  {
    assert NUL !in PrintSigned(i);
    CTextAll(PrintSigned(i), []);
    assert PrintSigned(i) + [] == PrintSigned(i);
  }

  lemma ReadPrintedText(i: int, lo: int, hi: int)
    requires lo <= 0 <= hi && lo <= i <= hi
    ensures ReadInteger(PrintSigned(i), lo, hi) == i
    ensures ReadInteger(PrintSigned(i) + [NUL], lo, hi) == i
  {
    hide ReadInteger;
    PrintSignedLength(i, 0);
    ReadPrinted(i, 0, [], lo, hi);
    ReadPrinted(i, 0, [NUL], lo, hi);
    assert PrintSigned(i) + [] == PrintSigned(i);
  }

  /** The statement text of an integer, word or fitting number is read back as the same value. */
  lemma StrRoundTrip(v: ItemValue)
    requires v.IntValue? || v.WordValue? || (v.NumberValue? && v.Representable())
    ensures CreateFromStr(v.Type(), v.Str(), v.Size(), 0) == Some(v)
  {
    hide ReadInteger, PrintSigned, CText;
    var i: int := if v.WordValue? then v.us else v.i;
    PrintedText(i);
    if v.WordValue? {
      ReadPrintedText(i, 0, USHORT_MAX);
    } else {
      ReadPrintedText(i, INT_MIN, INT_MAX);
    }
    if v.NumberValue? {
      var p, n := PrintSigned(i) + [NUL], v.length;
      LoneSignReadsZero();
      assert p[..0] == [] && p[..|p| - 1] == PrintSigned(i) && p[..|p|] == p;
      assert n == 0 || n == |p| - 1 || n >= |p|;
    }
  }

  // ---- Reading past a terminator ----

  lemma {:induction false} SkipSpacesStops(s: bytes, x: bytes)
    requires s != [] && s[|s| - 1] == NUL
    ensures SkipSpaces(s) != [] && SkipSpaces(s)[|SkipSpaces(s)| - 1] == NUL
    ensures SkipSpaces(s + x) == SkipSpaces(s) + x
  {
    if IsSpace(s[0]) {
      assert (s + x)[1..] == s[1..] + x;
      SkipSpacesStops(s[1..], x);
    }
  }

  lemma {:induction false} DigitRunStopsAtNul(s: bytes, x: bytes)
    requires s != [] && s[|s| - 1] == NUL
    ensures DigitRun(s + x) == DigitRun(s)
  {
    if IsDigit(s[0]) {
      assert (s + x)[1..] == s[1..] + x;
      DigitRunStopsAtNul(s[1..], x);
    }
  }

  lemma ReadStopsAtNul(s: bytes, x: bytes)
    requires s != [] && s[|s| - 1] == NUL
    ensures ReadInt(s + x) == ReadInt(s)
  {
    hide Value, Clamp;
    SkipSpacesStops(s, x);
    var t := SkipSpaces(s);
    assert (t + x)[0] == t[0];
    if t[0] == '-' || t[0] == '+' {
      assert (t + x)[1..] == t[1..] + x;
      DigitRunStopsAtNul(t[1..], x);
    } else {
      DigitRunStopsAtNul(t, x);
    }
  }

  /** What lies behind the terminator of a column shorter than its item never reaches the number. */
  lemma NumberIgnoresOverread(text: bytes, beyond: bytes, length: nat)
    ensures NumberFrom(text + [NUL] + beyond, length) == NumberFrom(text + [NUL], length)
  {
    var s := text + [NUL];
    if length <= |s| {
      assert (s + beyond)[..length] == s[..length];
    } else {
      var x := (s + beyond)[|s|..Shorter(length, |s + beyond|)];
      assert (s + beyond)[..Shorter(length, |s + beyond|)] == s + x;
      assert s[..|s|] == s;
      ReadStopsAtNul(s, x);
    }
  }

  // ---- What the forms look like, character by character ----

  /** A string is written from the left, blanks behind it, and is cut at its width. */
  lemma StringForm(s: bytes, n: nat)
    ensures var d := StringValue(s, n).Data();
            && |d| == n
            && (forall i :: 0 <= i < n && i < |s| ==> d[i] == s[i])
            && (forall i :: |s| <= i < n ==> d[i] == ' ')
  {
  }

  lemma ShorterIs(m: nat, n: nat)
    ensures Shorter(m, n) == if m < n then m else n
  {
  }

  lemma NumberDataIs(i: int32, n: nat)
    ensures Shorter(|PrintSigned(i)|, n) <= n
    ensures var p := PadSigned(i, n - Shorter(|PrintSigned(i)|, n)); n <= |p| && NumberValue(i, n).Data() == p[..n]
  {
    hide PrintSigned, PadSigned, LeInt, Le16, Fill;
    PrintSignedLength(i, n - Shorter(|PrintSigned(i)|, n));
  }

  /** A number is written with its sign first, its digits last and zeros between, and is cut at its width. */
  lemma NumberForm(i: int32, n: nat)
    ensures var d, t, digits, sign := NumberValue(i, n).Data(), PrintSigned(i), Print(Magnitude(i)),
                                      if i < 0 then 1 else 0;
            && |d| == n && |t| == sign + |digits|
            && (n <= |t| ==> d == t[..n])
            && (n > |t| ==> && (i < 0 ==> d[0] == '-')
                            && (forall k :: sign <= k < n - |digits| ==> d[k] == '0')
                            && d[n - |digits|..] == digits)
  {
    hide *;
    var t := PrintSigned(i);
    var zeros := n - Shorter(|t|, n);
    ShorterIs(|t|, n);
    NumberDataIs(i, n);
    PrintSignedForm(i);
    PrintSignedLength(i, zeros);
    PadSignedForm(i, zeros);
    assert n > |t| ==> PadSigned(i, zeros)[..n] == PadSigned(i, zeros);
  }

  /** The other types are written as they lie in memory, the low byte first. */
  lemma RawForm(c: byte, i: int32, us: uint16)
    ensures CharValue(c).Data() == [c]
    ensures var s := IntValue(i).Data();
            && |s| == 4
            && s[0] as int + 0x100 * s[1] as int + 0x1_0000 * s[2] as int + 0x100_0000 * s[3] as int
               == if i < 0 then 0x1_0000_0000 + i else i
    ensures var s := WordValue(us).Data(); |s| == 2 && s[0] as int + 0x100 * s[1] as int == us
  {
    hide LeInt;
    TwosComplement(i);
    LittleEndian16(us);
  }

  /** A float is written as its form writes its text at its own length and precision, any other value as its data. */
  lemma WireForm(form: FloatForm, v: ItemValue)
    ensures v.FloatValue? ==> v.Wire(form) == form(v.text, v.length, v.precision)
    ensures !v.FloatValue? ==> v.Wire(form) == v.Data()
  {
  }

  /** In a statement a string stands once between quotes, a character bare, and a number in its shortest form. */
  lemma StrForm(v: ItemValue)
    requires !v.FloatValue?
    ensures v.StringValue? ==> && |v.Str()| == |v.s| + 2
                               && v.Str()[0] == '\'' && v.Str()[|v.s| + 1] == '\''
                               && v.Str()[1..|v.s| + 1] == v.s
    ensures v.CharValue? ==> v.Str() == [v.c]
    ensures v.IntValue? || v.NumberValue? ==>
              && (v.i < 0 ==> v.Str()[0] == '-' && v.Str()[1..] == Print(Magnitude(v.i)))
              && (v.i >= 0 ==> v.Str() == Print(Magnitude(v.i)))
    ensures v.WordValue? ==> v.Str() == Print(v.us)
  {
    hide Print;
  }

  /** The text of a C string ends at its terminator. */
  lemma {:induction false} CTextStops(s: bytes, rest: bytes, n: nat)
    requires NUL !in s && |s| < n
    ensures CText(s + [NUL] + rest, n) == s
    ensures CText(s, n) == s
  {
    if s == [] {
    } else {
      assert (s + [NUL] + rest)[1..] == s[1..] + [NUL] + rest;
      CTextStops(s[1..], rest, n - 1);
    }
  }

  predicate AllSpaces(s: bytes) {
    forall i :: 0 <= i < |s| ==> IsSpace(s[i])
  }

  lemma {:induction false} SpacesSkipped(sp: bytes, s: bytes)
    requires AllSpaces(sp) && (s != [] ==> !IsSpace(s[0]))
    ensures SkipSpaces(sp + s) == s
  {
    if sp == [] {
      assert sp + s == s;
    } else {
      assert (sp + s)[1..] == sp[1..] + s;
      SpacesSkipped(sp[1..], s);
    }
  }

  /** A character is the text's first, or the terminator of an empty text. */
  lemma CharFromText(c: byte, rest: bytes, length: nat, precision: nat)
    requires c != NUL
    ensures CreateFromStr(CharType, [c] + rest, length, precision) == Some(CharValue(c))
    ensures CreateFromStr(CharType, [], length, precision) == Some(CharValue(NUL))
  {
  }

  lemma {:induction false} CTextCut(s: bytes, n: nat)
    requires NUL !in s && n <= |s|
    ensures CText(s + [NUL], n) == s[..n]
  {
    if n == 0 {
    } else {
      assert (s + [NUL])[1..] == s[1..] + [NUL];
      CTextCut(s[1..], n - 1);
      assert s[..n] == [s[0]] + s[1..][..n - 1];
    }
  }

  /** A string is the text's first word, as far as the item's length reaches. */
  lemma StringFromText(sp: bytes, w: bytes, rest: bytes, length: nat, precision: nat)
    requires AllSpaces(sp) && IsToken(w) && w != [] && NUL !in sp && NUL !in rest && (rest != [] ==> IsSpace(rest[0]))
    requires |sp| <= length
    ensures CreateFromStr(StringType, sp + w + rest, length, precision)
            == Some(StringValue(w[..Shorter(|w|, length - |sp|)], length))
  {
    hide SkipSpaces, WordRun, CText;
    var text := sp + w + rest;
    CTextAll(text, []);
    assert text + [] == text;
    var n := Shorter(|text|, length);
    var cut := w[..Shorter(|w|, length - |sp|)];
    var more := text[..n][|sp| + |cut|..];
    if length <= |text| {
      CTextCut(text, length);
    } else {
      CTextStops(text, [], length);
      assert text + [NUL] + [] == text + [NUL] && text[..n] == text;
    }
    assert text[..n] == sp + (cut + more);
    assert cut == [] ==> more == [];
    assert more != [] ==> more[0] == rest[0];
    SpacesSkipped(sp, cut + more);
    WordRunOfToken(cut, more);
  }

  lemma PrintedHasNoNul(i: int)
    ensures NUL !in PrintSigned(i)
  {
  }

  lemma PrintedStarts(i: int)
    ensures PrintSigned(i) != [] && !IsSpace(PrintSigned(i)[0])
  {
  }

  lemma SpacedRead(sp: bytes, i: int, rest: bytes, lo: int, hi: int)
    requires AllSpaces(sp) && lo <= 0 <= hi && lo <= i <= hi && (rest != [] ==> !IsDigit(rest[0]))
    ensures ReadInteger(sp + PrintSigned(i) + rest, lo, hi) == i
  {
    hide PrintSigned, Value, DigitRun;
    PrintedStarts(i);
    var t := PrintSigned(i) + rest;
    assert sp + PrintSigned(i) + rest == sp + t && t[0] == PrintSigned(i)[0];
    SpacesSkipped(sp, t);
    SpacesSkipped([], t);
    assert [] + t == t;
    PrintSignedLength(i, 0);
    ReadPrinted(i, 0, rest, lo, hi);
  }

  /** An int, a word and a number no longer than their text are what the text's digits spell. */
  lemma NumbersFromText(sp: bytes, i: int32, rest: bytes, length: nat, precision: nat)
    requires AllSpaces(sp) && NUL !in sp && NUL !in rest && (rest != [] ==> !IsDigit(rest[0]))
    ensures CreateFromStr(IntType, sp + PrintSigned(i) + rest, length, precision) == Some(IntValue(i))
    ensures 0 <= i <= USHORT_MAX ==>
              CreateFromStr(WordType, sp + PrintSigned(i) + rest, length, precision) == Some(WordValue(i))
    ensures |sp| + |PrintSigned(i)| + |rest| <= length ==>
              CreateFromStr(NumberType, sp + PrintSigned(i) + rest, length, precision) == Some(NumberValue(i, length))
  {
    hide ReadInteger, PrintSigned, CText;
    var text := sp + PrintSigned(i) + rest;
    PrintedText(i);
    PrintedHasNoNul(i);
    CTextAll(text, []);
    assert text + [] == text;
    SpacedRead(sp, i, rest, INT_MIN, INT_MAX);
    if 0 <= i <= USHORT_MAX {
      SpacedRead(sp, i, rest, 0, USHORT_MAX);
    }
    SpacedRead(sp, i, rest + [NUL], INT_MIN, INT_MAX);
    assert sp + PrintSigned(i) + (rest + [NUL]) == text + [NUL];
    assert (text + [NUL])[..|text|] == text && (text + [NUL])[..|text| + 1] == text + [NUL];
  }

  /** A float keeps its length and its precision, and the text up to its terminator. */
  lemma FloatMade(p: bytes, text: bytes, length: nat, precision: nat)
    requires NUL !in text
    ensures var v := CreateFromData(FloatType, text + [NUL] + p, length, precision);
            v.Some? && v.value.FloatValue? && v.value.text == text && v.value.length == length
            && v.value.precision == precision && v.value.Size() == length
    ensures var v := CreateFromStr(FloatType, text, length, precision);
            v.Some? && v.value.FloatValue? && v.value.text == text && v.value.length == length
            && v.value.precision == precision
  {
    CTextStops(text, p, |text + [NUL] + p|);
    CTextAll(text, []);
    assert text + [] == text;
  }
}
