/** The text of the statement that calls a stored procedure, and when its arguments can be told apart again. */
module CallTexts {
  import opened Bytes
  import opened Decimal
  import opened FtdcPaths
  import opened FtdcVariables
  import opened FtdProtocols
  import opened ItemValues
  import opened Wrappers

  const QUOTE: byte := '\''

  const COMMA: byte := ','

  // ---- A list of arguments ----

  function Separated(ts: seq<bytes>): bytes {
    if ts == [] then [] else if |ts| == 1 then ts[0] else ts[0] + [COMMA] + Separated(ts[1..])
  }

  // An argument without quotes or commas, or one in quotes with none inside.
  predicate Bare(t: bytes) {
    t != [] && QUOTE !in t && COMMA !in t
  }

  predicate Quoted(t: bytes) {
    |t| >= 2 && t[0] == QUOTE && t[|t| - 1] == QUOTE && QUOTE !in t[1..|t| - 1]
  }

  predicate IsArgument(t: bytes) {
    Bare(t) || Quoted(t)
  }

  function BareLength(s: bytes): (n: nat)
    ensures n <= |s| && QUOTE !in s[..n] && COMMA !in s[..n]
    ensures n < |s| ==> s[n] == QUOTE || s[n] == COMMA
  {
    if s == [] || s[0] == QUOTE || s[0] == COMMA then 0
    else
      var n := 1 + BareLength(s[1..]);
      assert s[..n] == [s[0]] + s[1..][..n - 1];
      n
  }

  function QuotedLength(s: bytes): (n: nat)
    ensures n <= |s| && QUOTE !in s[..n]
    ensures n < |s| ==> s[n] == QUOTE
  {
    if s == [] || s[0] == QUOTE then 0
    else
      var n := 1 + QuotedLength(s[1..]);
      assert s[..n] == [s[0]] + s[1..][..n - 1];
      n
  }

  // How much of a text its first argument takes.
  function FirstLength(s: bytes): (r: Option<nat>)
    ensures r.Some? ==> 0 < r.value <= |s| && IsArgument(s[..r.value])
  {
    if s == [] then None
    else if s[0] == QUOTE then
      var n := QuotedLength(s[1..]);
      if n == |s| - 1 then None
      else
        assert s[..n + 2][1..n + 1] == s[1..][..n];
        Some(n + 2)
    else
      var n := BareLength(s);
      if n == 0 then None else Some(n)
  }

  function MoreArguments(s: bytes): Option<seq<bytes>>
    decreases |s|
  {
    var n := FirstLength(s);
    if n.None? then None
    else if n.value == |s| then Some([s])
    else if s[n.value] != COMMA then None
    else
      var later := MoreArguments(s[n.value + 1..]);
      if later.Some? then Some([s[..n.value]] + later.value) else None
  }

  /** Reading an argument list: a quoted argument ends at the next quote, any other at the next comma. */
  function Arguments(s: bytes): Option<seq<bytes>> {
    if s == [] then Some([]) else MoreArguments(s)
  }

  lemma {:induction false} BareLengthExact(t: bytes, rest: bytes)
    requires QUOTE !in t && COMMA !in t && (rest == [] || rest[0] == COMMA)
    ensures BareLength(t + rest) == |t|
  {
    if t == [] {
      assert t + rest == rest;
    } else {
      assert (t + rest)[1..] == t[1..] + rest;
      BareLengthExact(t[1..], rest);
    }
  }

  lemma {:induction false} QuotedLengthExact(t: bytes, rest: bytes)
    requires QUOTE !in t && rest != [] && rest[0] == QUOTE
    ensures QuotedLength(t + rest) == |t|
  {
    if t == [] {
      assert t + rest == rest;
    } else {
      assert (t + rest)[1..] == t[1..] + rest;
      QuotedLengthExact(t[1..], rest);
    }
  }

  lemma FirstLengthExact(t: bytes, rest: bytes)
    requires IsArgument(t) && (rest == [] || rest[0] == COMMA)
    ensures FirstLength(t + rest) == Some(|t|)
  {
    var s := t + rest;
    assert s[0] == t[0];
    if Quoted(t) {
      assert s[1..] == t[1..|t| - 1] + ([QUOTE] + rest);
      QuotedLengthExact(t[1..|t| - 1], [QUOTE] + rest);
    } else {
      BareLengthExact(t, rest);
    }
  }

  lemma FirstRead(t: bytes, later: bytes)
    requires IsArgument(t)
    ensures MoreArguments(t) == Some([t])
    ensures MoreArguments(t + [COMMA] + later)
            == if MoreArguments(later).Some? then Some([t] + MoreArguments(later).value) else None
  {
    hide IsArgument, FirstLength;
    var s := t + [COMMA] + later;
    assert s == t + ([COMMA] + later) && t + [] == t;
    FirstLengthExact(t, []);
    FirstLengthExact(t, [COMMA] + later);
    assert s[..|t|] == t && s[|t|] == COMMA && s[|t| + 1..] == later;
  }

  lemma {:induction false} SeparatedRead(ts: seq<bytes>)
    requires ts != [] && forall i :: 0 <= i < |ts| ==> IsArgument(ts[i])
    ensures MoreArguments(Separated(ts)) == Some(ts)
    decreases |ts|
  {
    hide IsArgument, MoreArguments;
    FirstRead(ts[0], Separated(ts[1..]));
    if |ts| == 1 {
      assert ts == [ts[0]];
    } else {
      assert ts == [ts[0]] + ts[1..];
      SeparatedRead(ts[1..]);
    }
  }

  lemma {:induction false} ReadAreArguments(s: bytes, i: nat)
    requires MoreArguments(s).Some? && i < |MoreArguments(s).value|
    ensures IsArgument(MoreArguments(s).value[i])
    decreases |s|
  {
    hide IsArgument, FirstLength;
    var n := FirstLength(s).value;
    assert n == |s| ==> s[..n] == s;
    if i == 0 {
    } else {
      ReadAreArguments(s[n + 1..], i - 1);
    }
  }

  lemma NothingMore()
    ensures MoreArguments([]) == None
  {
  }

  /** A list of arguments is read back exactly when each is bare or properly quoted. */
  lemma SeparatedReadIff(ts: seq<bytes>)
    ensures Arguments(Separated(ts)) == Some(ts) <==> forall i :: 0 <= i < |ts| ==> IsArgument(ts[i])
  {
    hide IsArgument, MoreArguments;
    if Arguments(Separated(ts)) == Some(ts) {
      forall i | 0 <= i < |ts| ensures IsArgument(ts[i]) {
        ReadAreArguments(Separated(ts), i);
      }
    } else if ts != [] && forall i :: 0 <= i < |ts| ==> IsArgument(ts[i]) {
      SeparatedRead(ts);
      NothingMore();
    }
  }

  // ---- Values as arguments ----

  // How a float is put into the text: a number, never a quote or a comma.
  type FloatText = show: bytes -> bytes | forall text: bytes :: Bare(show(text))
    witness (text: bytes) => ['0']

  function TextOf(show: FloatText, v: ItemValue): bytes {
    if v.FloatValue? then show(v.text) else v.Str()
  }

  function TextsOf(show: FloatText, vs: seq<ItemValue>): (ts: seq<bytes>)
    ensures |ts| == |vs| && forall i :: 0 <= i < |vs| ==> ts[i] == TextOf(show, vs[i])
  {
    seq(|vs|, i requires 0 <= i < |vs| => TextOf(show, vs[i]))
  }

  function OutputsOf(outs: seq<bytes>): (ts: seq<bytes>)
    ensures |ts| == |outs| && forall i :: 0 <= i < |outs| ==> ts[i] == ['@'] + outs[i]
  {
    seq(|outs|, i requires 0 <= i < |outs| => ['@'] + outs[i])
  }

  /** The value's text cannot be mistaken: no quote inside a string, no character that is itself a mark. */
  predicate Tellable(v: ItemValue) {
    match v
    case StringValue(s, _) => QUOTE !in s
    case CharValue(c) => c != QUOTE && c != COMMA
    case _ => true
  }

  lemma NumberIsBare(i: int)
    ensures Bare(PrintSigned(i))
  {
  }

  lemma TextIsArgumentIff(show: FloatText, v: ItemValue)
    ensures IsArgument(TextOf(show, v)) <==> Tellable(v)
  {
    hide PrintSigned;
    match v
    case StringValue(s, _) =>
      var t := TextOf(show, v);
      assert t[0] == QUOTE && t[|t| - 1] == QUOTE && t[1..|t| - 1] == s;
    case IntValue(i) => NumberIsBare(i);
    case NumberValue(i, _) => NumberIsBare(i);
    case WordValue(us) => NumberIsBare(us);
    case _ =>
  }

  lemma OutputIsArgumentIff(out: bytes)
    ensures IsArgument(['@'] + out) <==> QUOTE !in out && COMMA !in out
  {
    var t := ['@'] + out;
    assert t[0] == '@' && forall i :: 0 <= i < |out| ==> t[i + 1] == out[i];
    assert forall c :: c in out ==> c in t;
  }

  /** The argument text splits back into the values' texts and the outputs' names exactly when no string holds a
      quote, no character is a quote or a comma, and no name holds either. */
  lemma ArgumentsReadBackIff(show: FloatText, vs: seq<ItemValue>, outs: seq<bytes>)
    ensures var ts := TextsOf(show, vs) + OutputsOf(outs);
            Arguments(Separated(ts)) == Some(ts) <==>
            && (forall i :: 0 <= i < |vs| ==> Tellable(vs[i]))
            && (forall i :: 0 <= i < |outs| ==> QUOTE !in outs[i] && COMMA !in outs[i])
  {
    hide IsArgument, TextOf, Tellable, Arguments, Separated;
    var ts := TextsOf(show, vs) + OutputsOf(outs);
    SeparatedReadIff(ts);
    forall i | 0 <= i < |vs| ensures IsArgument(ts[i]) <==> Tellable(vs[i]) {
      TextIsArgumentIff(show, vs[i]);
    }
    forall i | 0 <= i < |outs| ensures IsArgument(ts[|vs| + i]) <==> QUOTE !in outs[i] && COMMA !in outs[i] {
      OutputIsArgumentIff(outs[i]);
    }
    assert forall m :: 0 <= m < |ts| ==> m < |vs| || ts[m] == ts[|vs| + (m - |vs|)];
  }

  const APOSTROPHE: ItemValue := StringValue(['O', QUOTE, 'N'], 20)

  /** The name O'N: its text ends its quotes too early, and is no argument list at all. */
  lemma ApostropheMisread(show: FloatText)
    ensures Arguments(TextOf(show, APOSTROPHE)) == None
  {
    var s := TextOf(show, APOSTROPHE);
    assert s == [QUOTE, 'O', QUOTE, 'N', QUOTE];
    QuotedLengthExact(['O'], s[2..]);
    assert s[1..] == ['O'] + s[2..];
    assert FirstLength(s) == Some(3);
  }

  // ---- The statement ----

  const CALL: bytes := "CALL "

  const END: bytes := ");"

  /** Every listed path that can be parsed leads to a value, as long as all before it can be parsed. */
  predicate Available(val: Fields, inputs: seq<bytes>) {
    inputs == []
    || (Parse(inputs[0]).Success? ==>
          var p := Parse(inputs[0]).value;
          p.field in val && GetItem(val, p.field, p.index, p.item).Some? && Available(val, inputs[1..]))
  }

  function InputValues(val: Fields, inputs: seq<bytes>): Result<seq<ItemValue>>
    requires Available(val, inputs)
  {
    if inputs == [] then Success([])
    else
      var p :- Parse(inputs[0]);
      var later :- InputValues(val, inputs[1..]);
      Success([GetItem(val, p.field, p.index, p.item).value] + later)
  }

  function CallText(show: FloatText, procedure: bytes, vs: seq<ItemValue>, outs: seq<bytes>): bytes {
    CALL + procedure + ['('] + Separated(TextsOf(show, vs) + OutputsOf(outs)) + END
  }

  lemma {:induction false} SeparatedSnoc(ts: seq<bytes>, t: bytes)
    ensures Separated(ts + [t]) == if ts == [] then t else Separated(ts) + [COMMA] + t
  {
    if |ts| <= 1 {
      assert ts == [] ==> ts + [t] == [t];
      assert |ts| == 1 ==> (ts + [t])[1..] == [t];
    } else {
      assert (ts + [t])[1..] == ts[1..] + [t];
      SeparatedSnoc(ts[1..], t);
    }
  }

  lemma InputStep(val: Fields, inputs: seq<bytes>, k: nat, done: seq<ItemValue>)
    requires k < |inputs| && Available(val, inputs[k..])
    ensures Parse(inputs[k]).Failure? ==> InputValues(val, inputs[k..]) == Failure(Parse(inputs[k]).error)
    ensures Parse(inputs[k]).Success? ==>
              var p := Parse(inputs[k]).value;
              && p.field in val && GetItem(val, p.field, p.index, p.item).Some? && Available(val, inputs[k + 1..])
              && Joined(done, InputValues(val, inputs[k..]))
                 == Joined(done + [GetItem(val, p.field, p.index, p.item).value], InputValues(val, inputs[k + 1..]))
  {
    hide Parse, GetItem;
    assert inputs[k..][0] == inputs[k] && inputs[k..][1..] == inputs[k + 1..];
    if Parse(inputs[k]).Success? && InputValues(val, inputs[k + 1..]).Success? {
      var p := Parse(inputs[k]).value;
      ConcatAssociates(done, [GetItem(val, p.field, p.index, p.item).value], InputValues(val, inputs[k + 1..]).value);
    }
  }

  lemma NothingSeparated()
    ensures Separated([]) == []
  {
  }

  // One more argument behind those already in the text, a comma before it unless it is the first.
  lemma AppendArgument(prefix: bytes, ts: seq<bytes>, t: bytes)
    ensures prefix + Separated(ts + [t])
            == prefix + Separated(ts) + (if ts == [] then [] else [COMMA]) + t
  {
    hide Separated;
    SeparatedSnoc(ts, t);
    NothingSeparated();
    if ts == [] {
      assert prefix + [] + [] + t == prefix + t;
    } else {
      ConcatAssociates(prefix, Separated(ts) + [COMMA], t);
      ConcatAssociates(prefix, Separated(ts), [COMMA]);
    }
  }

  lemma NoInputs(val: Fields)
    ensures Available(val, []) && InputValues(val, []) == Success([])
  {
  }

  lemma TextsSnoc(show: FloatText, vs: seq<ItemValue>, v: ItemValue)
    ensures TextsOf(show, vs + [v]) == TextsOf(show, vs) + [TextOf(show, v)]
  {
    hide TextOf;
  }

  lemma OutputsStep(ts: seq<bytes>, outs: seq<bytes>, m: nat)
    requires m < |outs|
    ensures ts + OutputsOf(outs[..m + 1]) == ts + OutputsOf(outs[..m]) + [['@'] + outs[m]]
  {
  }

  lemma OutputsEnds(ts: seq<bytes>, outs: seq<bytes>)
    ensures ts + OutputsOf(outs[..0]) == ts && OutputsOf(outs[..|outs|]) == OutputsOf(outs)
  {
    assert outs[..|outs|] == outs;
  }

  lemma CallTextIs(show: FloatText, procedure: bytes, vs: seq<ItemValue>, outs: seq<bytes>)
    ensures CallText(show, procedure, vs, outs)
            == CALL + procedure + ['('] + Separated(TextsOf(show, vs) + OutputsOf(outs)) + END
  {
  }

  // One argument into the text, a comma before it if it is not the first.
  method AddArgument(text: bytes, idx: nat, t: bytes, ghost prefix: bytes, ghost ts: seq<bytes>)
    returns (text': bytes, idx': nat)
    requires idx == |ts| && text == prefix + Separated(ts)
    ensures idx' == idx + 1 && text' == prefix + Separated(ts + [t])
  {
    hide Separated;
    AppendArgument(prefix, ts, t);
    text' := text;
    if idx > 0 {
      text' := text' + [COMMA];
    }
    text' := text' + t;
    idx' := idx + 1;
  }

  /** The loops over the inputs and the outputs: the first path that cannot be parsed throws. */
  method BuildCall(show: FloatText, procedure: bytes, inputs: seq<bytes>, outs: seq<bytes>, src: FtdcVariable)
    returns (r: Result<bytes>)
    requires Available(src.val, inputs)
    ensures match InputValues(src.val, inputs)
            case Success(vs) => r == Success(CallText(show, procedure, vs, outs))
            case Failure(e) => r == Failure(e)
  {
    hide *;
    var text: bytes := CALL + procedure + ['('];
    ghost var prefix := text;
    ghost var vs: seq<ItemValue> := [];
    ghost var ts: seq<bytes> := [];
    var idx: nat := 0;
    NothingSeparated();
    NoInputs(src.val);
    assert inputs[0..] == inputs;
    JoinedEnds(vs, InputValues(src.val, inputs));
    assert TextsOf(show, vs) == ts;
    for k := 0 to |inputs|
      invariant idx == k == |ts| && Available(src.val, inputs[k..])
      invariant InputValues(src.val, inputs) == Joined(vs, InputValues(src.val, inputs[k..]))
      invariant ts == TextsOf(show, vs) && text == prefix + Separated(ts)
    {
      InputStep(src.val, inputs, k, vs);
      var path := Parse(inputs[k]);
      if path.Failure? {
        JoinedFails(vs, path.error);
        return Failure(path.error);
      }
      var value := src.GetFieldItem(path.value.field, path.value.index, path.value.item);
      text, idx := AddArgument(text, idx, TextOf(show, value.value), prefix, ts);
      TextsSnoc(show, vs, value.value);
      ts, vs := ts + [TextOf(show, value.value)], vs + [value.value];
    }
    JoinedEnds(vs, InputValues(src.val, inputs));
    assert inputs[|inputs|..] == [];
    OutputsEnds(ts, outs);
    for m := 0 to |outs|
      invariant idx == |ts| + m
      invariant text == prefix + Separated(ts + OutputsOf(outs[..m]))
    {
      text, idx := AddArgument(text, idx, ['@'] + outs[m], prefix, ts + OutputsOf(outs[..m]));
      OutputsStep(ts, outs, m);
    }
    CallTextIs(show, procedure, vs, outs);
    return Success(text + END);
  }

  // ---- What the statement says ----

  /** Commas stand between the texts, and nowhere else in the list. */
  lemma SeparatedForm(ts: seq<bytes>)
    ensures ts == [] ==> Separated(ts) == []
    ensures |ts| == 1 ==> Separated(ts) == ts[0]
    ensures |ts| > 1 ==> Separated(ts) == ts[0] + [','] + Separated(ts[1..])
  {
  }

  function Unquoted(t: bytes): bytes {
    if Quoted(t) then t[1..|t| - 1] else t
  }

  /** The characters of a string, a character, the digits of a number behind its sign, the form of a float. */
  predicate Conveys(show: FloatText, t: bytes, v: ItemValue) {
    match v
    case StringValue(s, _) => t == s
    case CharValue(c) => t == [c]
    case IntValue(i) => SpellsNumber(t, i)
    case NumberValue(i, _) => SpellsNumber(t, i)
    case WordValue(us) => SpellsNumber(t, us)
    case FloatValue(text, _, _) => t == show(text)
  }

  lemma NumberNotQuoted(i: int)
    ensures !Quoted(PrintSigned(i))
  {
  }

  lemma TextConveys(show: FloatText, v: ItemValue)
    requires Tellable(v)
    ensures Conveys(show, Unquoted(TextOf(show, v)), v)
  {
    hide PrintSigned, SpellsNumber;
    match v
    case StringValue(s, _) =>
      var t := TextOf(show, v);
      StrForm(v);
      assert t[1..|t| - 1] == s;
    case CharValue(c) => StrForm(v);
    case IntValue(i) =>
      PrintSignedSpells(i);
      NumberNotQuoted(i);
    case NumberValue(i, _) =>
      PrintSignedSpells(i);
      NumberNotQuoted(i);
    case WordValue(us) =>
      PrintSignedSpells(us);
      NumberNotQuoted(us);
    case FloatValue(_, _, _) =>
  }

  lemma CallFrame(show: FloatText, procedure: bytes, vs: seq<ItemValue>, outs: seq<bytes>)
    ensures CallText(show, procedure, vs, outs)
            == "CALL " + procedure + "(" + Separated(TextsOf(show, vs) + OutputsOf(outs)) + ");"
  {
    hide Separated;
  }

  /** Between `CALL name(` and `);` the arguments read back are, in order and without their quotes, the inputs' own
      characters or numbers and then the outputs' names behind an at sign. */
  lemma CallSays(show: FloatText, procedure: bytes, vs: seq<ItemValue>, outs: seq<bytes>) returns (args: bytes)
    requires forall i :: 0 <= i < |vs| ==> Tellable(vs[i])
    requires forall i :: 0 <= i < |outs| ==> '\'' !in outs[i] && ',' !in outs[i]
    ensures CallText(show, procedure, vs, outs) == "CALL " + procedure + "(" + args + ");"
    ensures Arguments(args).Some? && |Arguments(args).value| == |vs| + |outs|
    ensures forall i :: 0 <= i < |vs| ==> Conveys(show, Unquoted(Arguments(args).value[i]), vs[i])
    ensures forall i :: 0 <= i < |outs| ==> Arguments(args).value[|vs| + i] == ['@'] + outs[i]
  {
    hide Arguments, Separated, TextOf, Conveys, Unquoted, Tellable, CallText;
    var ts := TextsOf(show, vs) + OutputsOf(outs);
    args := Separated(ts);
    CallFrame(show, procedure, vs, outs);
    ArgumentsReadBackIff(show, vs, outs);
    forall i | 0 <= i < |vs| ensures Conveys(show, Unquoted(ts[i]), vs[i]) {
      TextConveys(show, vs[i]);
    }
  }

  lemma {:induction false} InputsLength(val: Fields, inputs: seq<bytes>)
    requires Available(val, inputs) && InputValues(val, inputs).Success?
    ensures |InputValues(val, inputs).value| == |inputs|
  {
    hide Parse, GetItem;
    if inputs == [] {
    } else {
      InputsLength(val, inputs[1..]);
    }
  }

  /** The inputs are the cells their paths name: the long form's index, or the first occurrence. */
  lemma {:induction false} InputsAre(val: Fields, inputs: seq<bytes>, k: nat)
    requires Available(val, inputs) && InputValues(val, inputs).Success? && k < |inputs|
    ensures |InputValues(val, inputs).value| == |inputs|
    ensures forall f, d, i :: LongForm(inputs[k], f, d, i) ==>
              AllDigits(d) && GetItem(val, f, Value(d), i) == Some(InputValues(val, inputs).value[k])
    ensures forall f, i :: ShortForm(inputs[k], f, i) ==>
              GetItem(val, f, 0, i) == Some(InputValues(val, inputs).value[k])
  {
    hide Parse, GetItem, LongForm, ShortForm, Value;
    InputsLength(val, inputs);
    if k == 0 {
      ParseForms(inputs[0]);
    } else {
      InputsAre(val, inputs[1..], k - 1);
    }
  }
}
