/** Decimal text: the integer parts of num_get, num_put and boost::lexical_cast. */
module Decimal {
  import opened Bytes
  import opened Wrappers

  predicate IsDigit(c: byte) {
    '0' <= c <= '9'
  }

  predicate AllDigits(s: bytes) {
    forall i :: 0 <= i < |s| ==> IsDigit(s[i])
  }

  // `isspace` in the classic locale.
  predicate IsSpace(c: byte) {
    c == ' ' || 9 <= c as int <= 13
  }

  function DigitOf(n: nat): (c: byte)
    requires n < 10
    ensures IsDigit(c)
  {
    (n + '0' as int) as char
  }

  function Pow10(k: nat): (p: nat)
    ensures p >= 1
  {
    if k == 0 then 1 else 10 * Pow10(k - 1)
  }

  function Value(ds: bytes): nat
    requires AllDigits(ds)
  {
    if ds == [] then 0 else 10 * Value(ds[..|ds| - 1]) + (ds[|ds| - 1] as int - '0' as int)
  }

  /** The shortest decimal form of a natural number. */
  function Print(n: nat): (ds: bytes)
    ensures ds != [] && AllDigits(ds)
  {
    if n < 10 then [DigitOf(n)] else Print(n / 10) + [DigitOf(n % 10)]
  }

  function PrintSigned(i: int): bytes {
    if i < 0 then ['-'] + Print(-i) else Print(i)
  }

  function Fill(c: byte, n: nat): (s: bytes)
    ensures |s| == n && forall i :: 0 <= i < n ==> s[i] == c
  {
    seq(n, _ => c)
  }

  lemma {:induction false} ValueBound(ds: bytes)
    requires AllDigits(ds)
    ensures Value(ds) < Pow10(|ds|)
  {
    if ds == [] {
    } else {
      ValueBound(ds[..|ds| - 1]);
    }
  }

  lemma {:induction false} PrintRoundTrip(n: nat)
    ensures Value(Print(n)) == n
  {
    if n < 10 {
    } else {
      PrintRoundTrip(n / 10);
      assert Print(n)[..|Print(n)| - 1] == Print(n / 10);
    }
  }

  /** A number below 10^k is printed in at most k digits. */
  lemma {:induction false} PrintLength(n: nat, k: nat)
    requires k >= 1 && n < Pow10(k)
    ensures |Print(n)| <= k
  {
    if n < 10 {
    } else {
      assert k >= 2;
      PrintLength(n / 10, k - 1);
    }
  }

  lemma {:induction false} ValueLeadingZeros(n: nat, ds: bytes)
    requires AllDigits(ds)
    ensures AllDigits(Fill('0', n) + ds) && Value(Fill('0', n) + ds) == Value(ds)
    decreases |ds| + n
  {
    var s := Fill('0', n) + ds;
    if ds != [] {
      ValueLeadingZeros(n, ds[..|ds| - 1]);
      assert s[..|s| - 1] == Fill('0', n) + ds[..|ds| - 1];
    } else if n != 0 {
      ValueLeadingZeros(n - 1, ds);
      assert s[..|s| - 1] == Fill('0', n - 1) + ds;
    }
  }

  // ---- Extraction from a stream ----

  function SkipSpaces(s: bytes): (t: bytes)
    ensures |t| <= |s| && (t != [] ==> !IsSpace(t[0]))
  {
    if s == [] || !IsSpace(s[0]) then s else SkipSpaces(s[1..])
  }

  function DigitRun(s: bytes): (ds: bytes)
    ensures AllDigits(ds) && |ds| <= |s|
  {
    if s == [] || !IsDigit(s[0]) then [] else [s[0]] + DigitRun(s[1..])
  }

  function Clamp(v: int, lo: int, hi: int): int
    requires lo <= 0 <= hi
  {
    if v < lo then lo else if v > hi then hi else v
  }

  /** What `stream >> i` leaves in an integer that was 0 and ranges over lo..hi: white space is skipped, an
      optional sign and a run of digits are taken, a field with no digits leaves 0, and a field out of range
      leaves the nearest bound (section 22.4.2.1.2 of ISO C++11, classic locale, decimal base). */
  function ReadInteger(s: bytes, lo: int, hi: int): (v: int)
    requires lo <= 0 <= hi
    ensures lo <= v <= hi
  {
    var t := SkipSpaces(s);
    if t == [] then 0
    else if t[0] == '-' then
      var v: int := Value(DigitRun(t[1..]));
      Clamp(-v, lo, hi)
    else if t[0] == '+' then Clamp(Value(DigitRun(t[1..])), lo, hi)
    else Clamp(Value(DigitRun(t)), lo, hi)
  }

  /** The shortest signed form of anything read from `len >= 1` characters fits in `len` characters again. */
  lemma ReadIntegerFits(s: bytes, lo: int, hi: int)
    requires lo <= 0 <= hi && s != []
    ensures |PrintSigned(ReadInteger(s, lo, hi))| <= |s|
  {
    var t := SkipSpaces(s);
    if t != [] {
      var ds := DigitRun(if t[0] == '-' || t[0] == '+' then t[1..] else t);
      var m := if ReadInteger(s, lo, hi) < 0 then -ReadInteger(s, lo, hi) else ReadInteger(s, lo, hi);
      ValueBound(ds);
      assert m <= Value(ds);
      if ds != [] {
        PrintLength(m, |ds|);
      }
    }
  }

  /** Digits up to something that is not a digit are read as their value. */
  lemma {:induction false} DigitRunStops(ds: bytes, rest: bytes)
    requires AllDigits(ds) && (rest != [] ==> !IsDigit(rest[0]))
    ensures DigitRun(ds + rest) == ds
  {
    if ds == [] {
      assert ds + rest == rest;
    } else {
      assert (ds + rest)[1..] == ds[1..] + rest;
      DigitRunStops(ds[1..], rest);
    }
  }

  lemma ReadSignedDigits(negative: bool, ds: bytes, rest: bytes, lo: int, hi: int)
    requires lo <= 0 <= hi && ds != [] && AllDigits(ds) && (rest != [] ==> !IsDigit(rest[0]))
    ensures var v: int := Value(ds);
            ReadInteger((if negative then ['-'] else []) + ds + rest, lo, hi)
            == Clamp(if negative then -v else v, lo, hi)
  {
    hide Value, Clamp, DigitRun;
    var s := (if negative then ['-'] else []) + ds + rest;
    DigitRunStops(ds, rest);
    if negative {
      assert s[1..] == ds + rest;
    } else {
      assert s == ds + rest && IsDigit(s[0]);
    }
    assert !IsSpace(s[0]) && SkipSpaces(s) == s;
  }

  /** A field out of range leaves the nearest bound, whatever the type it is read into. */
  lemma ReadOutOfRange(negative: bool, ds: bytes, rest: bytes, lo: int, hi: int)
    requires lo <= 0 <= hi && ds != [] && AllDigits(ds) && (rest != [] ==> !IsDigit(rest[0]))
    ensures var v, r := Value(ds), ReadInteger((if negative then ['-'] else []) + ds + rest, lo, hi);
            && (!negative && v > hi ==> r == hi)
            && (negative && v > -lo ==> r == lo)
            && (!negative && v <= hi ==> r == v)
            && (negative && v <= -lo ==> r + v == 0)
  {
    hide Value, ReadInteger;
    ReadSignedDigits(negative, ds, rest, lo, hi);
  }

  /** The form num_put gives a number with internal fill: zeros between its sign and its digits. */
  function PadSigned(i: int, zeros: nat): bytes {
    if i < 0 then ['-'] + Fill('0', zeros) + Print(-i) else Fill('0', zeros) + Print(i)
  }

  /** A printed number, zero-filled behind its sign to any width, is read back as itself. */
  lemma ReadPrinted(i: int, zeros: nat, rest: bytes, lo: int, hi: int)
    requires lo <= 0 <= hi && lo <= i <= hi && (rest != [] ==> !IsDigit(rest[0]))
    ensures ReadInteger(PadSigned(i, zeros) + rest, lo, hi) == i
  {
    hide ReadInteger, Value, Print;
    var m: nat := if i < 0 then -i else i;
    var ds := Fill('0', zeros) + Print(m);
    PrintRoundTrip(m);
    ValueLeadingZeros(zeros, Print(m));
    ReadSignedDigits(i < 0, ds, rest, lo, hi);
    assert PadSigned(i, zeros) == (if i < 0 then ['-'] else []) + ds;
  }

  // ---- boost::lexical_cast ----

  // From a run of digits to an integer type with the given maximum.
  function LexicalCast(ds: bytes, max: nat): Result<nat>
    requires AllDigits(ds)
  {
    if ds == [] || Value(ds) > max then Failure(BadLexicalCast) else Success(Value(ds))
  }

  // ---- What the forms look like, character by character ----

  /** Space, tab, line feed, vertical tab, form feed and carriage return. */
  lemma SpacesAre(c: byte)
    ensures IsSpace(c) <==> c in [' ', '\t', '\n', 11 as char, 12 as char, '\r']
  {
  }

  /** The shortest form has no leading zero. */
  lemma {:induction false} PrintStarts(n: nat)
    ensures Print(n)[0] == '0' <==> n == 0
    ensures n == 0 ==> |Print(n)| == 1
  {
    if n < 10 {
    } else {
      PrintStarts(n / 10);
    }
  }

  function Magnitude(i: int): nat {
    if i < 0 then -i else i
  }

  /** A minus sign if the number is negative, the zeros, and its digits. */
  lemma PadSignedForm(i: int, zeros: nat)
    ensures var d, m, sign := PadSigned(i, zeros), |Print(Magnitude(i))|, if i < 0 then 1 else 0;
            && |d| == sign + zeros + m
            && (i < 0 ==> d[0] == '-')
            && (forall k :: sign <= k < sign + zeros ==> d[k] == '0')
            && d[sign + zeros..] == Print(Magnitude(i))
  {
  }

  lemma PrintSignedForm(i: int)
    ensures i < 0 ==> PrintSigned(i)[0] == '-' && PrintSigned(i)[1..] == Print(Magnitude(i))
    ensures i >= 0 ==> PrintSigned(i) == Print(Magnitude(i))
  {
  }

  /** Digits without a leading zero. */
  predicate IsShortest(t: bytes, n: nat) {
    t != [] && AllDigits(t) && Value(t) == n && (|t| > 1 ==> t[0] != '0')
  }

  predicate SpellsNumber(t: bytes, i: int) {
    if i < 0 then t != [] && t[0] == '-' && IsShortest(t[1..], -i) else IsShortest(t, i)
  }

  lemma PrintSpells(n: nat)
    ensures IsShortest(Print(n), n)
  {
    hide Print, Value;
    PrintRoundTrip(n);
    PrintStarts(n);
  }

  lemma PrintSignedSpells(i: int)
    ensures SpellsNumber(PrintSigned(i), i)
  {
    hide IsShortest, Print;
    PrintSignedForm(i);
    PrintSpells(Magnitude(i));
  }
}
