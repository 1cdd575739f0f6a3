/** Reading a number or a word one character at a time: when later characters no longer matter. */
module TextScan {
  import opened Bytes
  import opened Decimal
  import opened ItemValues

  // ---- Numbers ----

  function DigitValue(c: byte): nat
    requires IsDigit(c)
  {
    c as int - '0' as int
  }

  function Signed(negative: bool, v: nat): int {
    var i: int := v;
    Clamp(if negative then -i else i, INT_MIN, INT_MAX)
  }

  // What has been met so far: white space, a sign, digits, or something that ends the number.
  datatype Scan = Blank | Sign(negative: bool) | Digits(negative: bool, v: nat) | Ended(i: int) {
    function Next(c: byte): Scan {
      match this
      case Blank =>
        if IsSpace(c) then Blank
        else if c == '-' then Sign(true)
        else if c == '+' then Sign(false)
        else if IsDigit(c) then Digits(false, DigitValue(c))
        else Ended(0)
      case Sign(negative) => if IsDigit(c) then Digits(negative, DigitValue(c)) else Ended(0)
      case Digits(negative, v) => if IsDigit(c) then Digits(negative, 10 * v + DigitValue(c)) else Ended(Shown())
      case Ended(_) => this
    }

    function Shown(): int {
      match this
      case Digits(negative, v) => Signed(negative, v)
      case Ended(i) => i
      case _ => 0
    }

    function All(s: bytes): Scan
      decreases |s|
    {
      if s == [] then this else Next(s[0]).All(s[1..])
    }
  }

  lemma {:induction false} AllConcat(a: Scan, s: bytes, t: bytes)
    ensures a.All(s + t) == a.All(s).All(t)
    decreases |s|
  {
    if s == [] {
      assert s + t == t;
    } else {
      assert (s + t)[1..] == s[1..] + t;
      AllConcat(a.Next(s[0]), s[1..], t);
    }
  }

  lemma {:induction false} EndedStays(i: int, s: bytes)
    ensures Scan.Ended(i).All(s) == Scan.Ended(i)
    decreases |s|
  {
    if s == [] {
    } else {
      EndedStays(i, s[1..]);
    }
  }

  // The value of digits with more digits behind them.
  function Extended(v: nat, ds: bytes): nat
    requires AllDigits(ds)
    decreases |ds|
  {
    if ds == [] then v else Extended(10 * v + DigitValue(ds[0]), ds[1..])
  }

  lemma {:induction false} ExtendedSnoc(v: nat, ds: bytes, c: byte)
    requires AllDigits(ds) && IsDigit(c)
    ensures AllDigits(ds + [c]) && Extended(v, ds + [c]) == 10 * Extended(v, ds) + DigitValue(c)
    decreases |ds|
  {
    if ds == [] {
      assert ([] + [c])[1..] == [];
    } else {
      assert (ds + [c])[1..] == ds[1..] + [c];
      ExtendedSnoc(10 * v + DigitValue(ds[0]), ds[1..], c);
    }
  }

  lemma {:induction false} ExtendedValue(ds: bytes)
    requires AllDigits(ds)
    ensures Extended(0, ds) == Value(ds)
  {
    if ds == [] {
    } else {
      ExtendedValue(ds[..|ds| - 1]);
      ExtendedSnoc(0, ds[..|ds| - 1], ds[|ds| - 1]);
      assert ds == ds[..|ds| - 1] + [ds[|ds| - 1]];
    }
  }

  lemma {:induction false} DigitsScanned(negative: bool, v: nat, s: bytes)
    ensures Digits(negative, v).All(s).Shown() == Signed(negative, Extended(v, DigitRun(s)))
    decreases |s|
  {
    if s == [] {
    } else {
      if IsDigit(s[0]) {
        DigitsScanned(negative, 10 * v + DigitValue(s[0]), s[1..]);
        assert DigitRun(s)[1..] == DigitRun(s[1..]);
      } else {
        EndedStays(Signed(negative, v), s[1..]);
      }
    }
  }

  lemma NothingIsZero(negative: bool)
    ensures Signed(negative, 0) == 0
  {
  }

  lemma SignScanned(negative: bool, s: bytes)
    ensures Sign(negative).All(s).Shown() == Signed(negative, Value(DigitRun(s)))
  {
    hide Clamp;
    ExtendedValue(DigitRun(s));
    NothingIsZero(negative);
    if s != [] && IsDigit(s[0]) {
      DigitsScanned(negative, DigitValue(s[0]), s[1..]);
      assert DigitRun(s)[1..] == DigitRun(s[1..]);
    } else if s != [] {
      EndedStays(0, s[1..]);
    }
  }

  /** Scanning shows what the stream reads. */
  lemma {:induction false} ReadIsScanned(s: bytes)
    ensures ReadInt(s) == Scan.Blank.All(s).Shown()
    decreases |s|
  {
    hide Clamp, Value;
    if s == [] {
    } else {
      if IsSpace(s[0]) {
        ReadIsScanned(s[1..]);
      } else if s[0] == '-' || s[0] == '+' {
        SignScanned(s[0] == '-', s[1..]);
      } else if IsDigit(s[0]) {
        ExtendedValue(DigitRun(s));
        DigitsScanned(false, DigitValue(s[0]), s[1..]);
        assert DigitRun(s)[1..] == DigitRun(s[1..]);
      } else {
        assert DigitRun(s) == [];
        NothingIsZero(false);
        ExtendedValue([]);
        EndedStays(0, s[1..]);
      }
    }
  }

  // ---- When later characters no longer matter ----

  // Fillings of free bytes that between them decide: zeros, zeros but for a last one, terminators.
  function LastOne(r: nat): (s: bytes)
    requires r >= 1
    ensures |s| == r
  {
    Fill('0', r - 1) + ['1']
  }

  lemma {:induction false} DigitsTaken(negative: bool, v: nat, ds: bytes)
    requires AllDigits(ds)
    ensures Digits(negative, v).All(ds) == Digits(negative, Extended(v, ds))
    decreases |ds|
  {
    if ds == [] {
    } else {
      DigitsTaken(negative, 10 * v + DigitValue(ds[0]), ds[1..]);
    }
  }

  lemma ZerosAndOne(v: nat, r: nat)
    requires r >= 1
    ensures AllDigits(LastOne(r)) && Extended(v, LastOne(r)) == Extended(v, Fill('0', r)) + 1
  {
    hide Extended;
    assert Fill('0', r) == Fill('0', r - 1) + ['0'];
    ExtendedSnoc(v, Fill('0', r - 1), '0');
    ExtendedSnoc(v, Fill('0', r - 1), '1');
  }

  lemma DigitValues()
    ensures Value(['0']) == 0 && Value(['1']) == 1
  {
    assert ['0'][..0] == [] && ['1'][..0] == [];
  }

  lemma FillingValues(r: nat)
    requires r >= 1
    ensures Value(DigitRun(Fill('0', r))) == 0 && Value(DigitRun(LastOne(r))) == 1
  {
    hide DigitRun;
    var zeros, one := Fill('0', r), LastOne(r);
    assert zeros == Fill('0', r - 1) + ['0'];
    ValueLeadingZeros(r - 1, ['0']);
    ValueLeadingZeros(r - 1, ['1']);
    DigitValues();
    DigitRunStops(zeros, []);
    DigitRunStops(one, []);
    assert zeros + [] == zeros && one + [] == one;
  }

  lemma SmallSigned(negative: bool)
    ensures Signed(negative, 0) == 0 && Signed(negative, 1) != 0
  {
  }

  lemma ReadFillings(r: nat)
    requires r >= 1
    ensures ReadInt(Fill('0', r)) == 0 && ReadInt(LastOne(r)) == 1
  {
    hide ReadInteger;
    ReadPrinted(0, r - 1, [], INT_MIN, INT_MAX);
    ReadPrinted(1, r - 1, [], INT_MIN, INT_MAX);
    assert Fill('0', r) == PadSigned(0, r - 1) + [];
    assert LastOne(r) == PadSigned(1, r - 1) + [];
  }

  // Nothing read, or only a sign: a digit still counts.
  lemma StartDiffers(a: Scan, r: nat)
    requires (a.Blank? || a.Sign?) && r >= 1
    ensures a.All(Fill('0', r)).Shown() != a.All(LastOne(r)).Shown()
  {
    hide *;
    var zeros, one := Fill('0', r), LastOne(r);
    if a.Blank? {
      ReadFillings(r);
      ReadIsScanned(zeros);
      ReadIsScanned(one);
    } else {
      FillingValues(r);
      SmallSigned(a.negative);
      SignScanned(a.negative, zeros);
      SignScanned(a.negative, one);
    }
  }

  // Past the bound of an int, whatever digits follow.
  predicate Saturated(negative: bool, v: nat) {
    v >= if negative then -INT_MIN else INT_MAX
  }

  lemma SignedIsBound(negative: bool, v: nat)
    ensures Saturated(negative, v) <==> Signed(negative, v) == if negative then INT_MIN else INT_MAX
    ensures Signed(negative, v) == Signed(negative, v + 1) ==> Saturated(negative, v)
    ensures forall w: nat :: Signed(negative, v) == Signed(negative, w) ==>
                               v == w || (Saturated(negative, v) && Saturated(negative, w))
  {
  }

  lemma {:induction false} SaturatedStays(negative: bool, v: nat, f: bytes)
    requires Saturated(negative, v)
    ensures Digits(negative, v).All(f).Shown() == if negative then INT_MIN else INT_MAX
    decreases |f|
  {
    hide Signed;
    SignedIsBound(negative, v);
    if f == [] {
    } else {
      if IsDigit(f[0]) {
        SaturatedStays(negative, 10 * v + DigitValue(f[0]), f[1..]);
      } else {
        EndedStays(Signed(negative, v), f[1..]);
      }
    }
  }

  lemma {:induction false} ExtendedGrows(v: nat, w: nat, ds: bytes)
    requires AllDigits(ds) && v <= w
    ensures Extended(v, ds) <= Extended(w, ds)
    decreases |ds|
  {
    if ds == [] {
    } else {
      ExtendedGrows(10 * v + DigitValue(ds[0]), 10 * w + DigitValue(ds[0]), ds[1..]);
    }
  }

  // If even zeros would pass the bound, what comes behind as many characters does not matter.
  lemma {:induction false} EnoughRead(negative: bool, v: nat, g: bytes, rest: bytes)
    requires Saturated(negative, Extended(v, Fill('0', |g|)))
    ensures Digits(negative, v).All(g + rest).Shown() == Digits(negative, v).All(g).Shown()
    decreases |g|
  {
    hide Signed;
    if g == [] {
      assert g + rest == rest;
      SaturatedStays(negative, v, rest);
      SaturatedStays(negative, v, []);
    } else {
      var zeros := Fill('0', |g| - 1);
      assert Fill('0', |g|)[1..] == zeros;
      assert (g + rest)[1..] == g[1..] + rest;
      if IsDigit(g[0]) {
        ExtendedGrows(10 * v, 10 * v + DigitValue(g[0]), zeros);
        EnoughRead(negative, 10 * v + DigitValue(g[0]), g[1..], rest);
      } else {
        EndedStays(Signed(negative, v), g[1..] + rest);
        EndedStays(Signed(negative, v), g[1..]);
      }
    }
  }

  lemma TerminatorsShow(a: Scan, r: nat)
    ensures a.All(Fill(NUL, r)).Shown() == a.Shown()
  {
    if r > 0 {
      EndedStays(a.Shown(), Fill(NUL, r)[1..]);
    }
  }

  // `a` has read at least what `b` has: some text and then the same characters.
  predicate ReadMore(a: Scan, b: Scan) {
    && (b.Sign? ==> !a.Blank?)
    && (b.Digits? ==> a.Digits? || a.Ended?)
    && (b.Ended? ==> a.Ended?)
  }

  lemma {:induction false} StaysReadMore(a: Scan, b: Scan, s: bytes)
    requires ReadMore(a, b)
    ensures ReadMore(a.All(s), b.All(s))
    decreases |s|
  {
    if s == [] {
    } else {
      StaysReadMore(a.Next(s[0]), b.Next(s[0]), s[1..]);
    }
  }

  lemma DigitsSettle(a: Scan, b: Scan, f: bytes, n: nat)
    requires a.Digits? && b.Digits? && n < |f| && a.Shown() == b.Shown()
    requires Saturated(b.negative, Extended(b.v, Fill('0', |f|)))
    requires a.All(Fill('0', n)).Shown() == b.All(Fill('0', |f|)).Shown()
    ensures a.All(f[..n]).Shown() == b.All(f).Shown()
  {
    hide Scan.All, Extended;
    DigitsTaken(b.negative, b.v, Fill('0', |f|));
    DigitsTaken(a.negative, a.v, Fill('0', n));
    if Saturated(b.negative, b.v) && Saturated(a.negative, a.v) {
      SaturatedStays(a.negative, a.v, f[..n]);
      SaturatedStays(b.negative, b.v, f);
    } else {
      EnoughRead(a.negative, a.v, f[..n], f[n..]);
      assert f[..n] + f[n..] == f;
    }
  }

  /** Two readings that agree on the three fillings, the first after fewer characters, agree on every filling. */
  lemma NumberSettles(a: Scan, b: Scan, f: bytes, n: nat)
    requires ReadMore(a, b) && n < |f|
    requires a.All(Fill('0', n)).Shown() == b.All(Fill('0', |f|)).Shown() == b.All(LastOne(|f|)).Shown()
    requires a.All(Fill(NUL, n)).Shown() == b.All(Fill(NUL, |f|)).Shown()
    ensures a.All(f[..n]).Shown() == b.All(f).Shown()
  {
    hide Scan.All, Signed, Saturated, Extended;
    var r := |f|;
    TerminatorsShow(a, n);
    TerminatorsShow(b, r);
    if b.Ended? {
      EndedStays(a.i, f[..n]);
      EndedStays(b.i, f);
    } else if b.Digits? {
      DigitsTaken(b.negative, b.v, Fill('0', r));
      ZerosAndOne(b.v, r);
      DigitsTaken(b.negative, b.v, LastOne(r));
      SignedIsBound(b.negative, Extended(b.v, Fill('0', r)));
      SignedIsBound(b.negative, b.v);
      if a.Ended? {
        EndedStays(a.i, Fill('0', n));
        EndedStays(a.i, f[..n]);
        SaturatedStays(b.negative, b.v, f);
      } else {
        DigitsSettle(a, b, f, n);
      }
    } else {
      StartDiffers(b, r);
    }
  }

  // ---- Words ----

  // What has been met so far: white space, a word, or something that ends the text or the word.
  datatype WordScan = Before | Inside(w: bytes) | Behind(w: bytes) {
    function Next(c: byte): WordScan {
      match this
      case Before => if c == NUL then Behind([]) else if IsSpace(c) then Before else Inside([c])
      case Inside(w) => if c == NUL || IsSpace(c) then Behind(w) else Inside(w + [c])
      case Behind(_) => this
    }

    function Shown(): bytes {
      if Before? then [] else w
    }

    function All(s: bytes): WordScan
      decreases |s|
    {
      if s == [] then this else Next(s[0]).All(s[1..])
    }
  }

  lemma {:induction false} WordConcat(a: WordScan, s: bytes, t: bytes)
    ensures a.All(s + t) == a.All(s).All(t)
    decreases |s|
  {
    if s == [] {
      assert s + t == t;
    } else {
      assert (s + t)[1..] == s[1..] + t;
      WordConcat(a.Next(s[0]), s[1..], t);
    }
  }

  lemma {:induction false} BehindStays(w: bytes, s: bytes)
    ensures Behind(w).All(s) == Behind(w)
    decreases |s|
  {
    if s == [] {
    } else {
      BehindStays(w, s[1..]);
    }
  }

  lemma {:induction false} InsideScanned(w: bytes, s: bytes)
    ensures Inside(w).All(s).Shown() == w + WordRun(CText(s, |s|))
    decreases |s|
  {
    if s == [] {
      assert w + [] == w;
    } else if s[0] == NUL || IsSpace(s[0]) {
      BehindStays(w, s[1..]);
      assert w + [] == w;
    } else {
      InsideScanned(w + [s[0]], s[1..]);
      assert CText(s, |s|)[1..] == CText(s[1..], |s| - 1);
      ConcatAssociates(w, [s[0]], WordRun(CText(s[1..], |s| - 1)));
    }
  }

  lemma WordStep(s: bytes)
    requires s != []
    ensures ReadWord(CText(s, |s|))
            == if s[0] == NUL then []
               else if IsSpace(s[0]) then ReadWord(CText(s[1..], |s[1..]|))
               else [s[0]] + WordRun(CText(s[1..], |s[1..]|))
  {
    assert s[0] != NUL ==> CText(s, |s|) == [s[0]] + CText(s[1..], |s[1..]|);
    assert s[0] != NUL ==> CText(s, |s|)[1..] == CText(s[1..], |s[1..]|);
  }

  /** Scanning shows the word that is extracted. */
  lemma {:induction false} WordIsScanned(s: bytes)
    ensures ReadWord(CText(s, |s|)) == Before.All(s).Shown()
    decreases |s|
  {
    if s == [] {
    } else {
      hide ReadWord, CText, WordRun;
      WordStep(s);
      if s[0] == NUL {
        BehindStays([], s[1..]);
      } else if IsSpace(s[0]) {
        WordIsScanned(s[1..]);
      } else {
        InsideScanned([s[0]], s[1..]);
      }
    }
  }

  lemma {:induction false} TokenTaken(w: bytes, t: bytes)
    requires IsToken(t)
    ensures Inside(w).All(t) == Inside(w + t)
    decreases |t|
  {
    if t == [] {
      assert w + [] == w;
    } else {
      TokenTaken(w + [t[0]], t[1..]);
      assert w + [t[0]] + t[1..] == w + t;
    }
  }

  // Before a word or inside it, every further character of it shows.
  lemma OpenWordGrows(a: WordScan, t: bytes)
    requires !a.Behind? && IsToken(t) && t != []
    ensures a.All(t).Shown() == a.Shown() + t
  {
    if a.Before? {
      TokenTaken([t[0]], t[1..]);
      assert [t[0]] + t[1..] == t && [] + t == t;
    } else {
      TokenTaken(a.w, t);
    }
  }

  lemma OpenWordDiffers(a: WordScan, r: nat)
    requires !a.Behind? && r >= 1
    ensures a.All(Fill('0', r)).Shown() != a.All(LastOne(r)).Shown()
  {
    hide WordScan.All;
    var n := |a.Shown()| + r - 1;
    OpenWordGrows(a, Fill('0', r));
    OpenWordGrows(a, LastOne(r));
    assert (a.Shown() + Fill('0', r))[n] == '0' && (a.Shown() + LastOne(r))[n] == '1';
  }

  predicate WordReadMore(a: WordScan, b: WordScan) {
    (b.Inside? ==> !a.Before?) && (b.Behind? ==> a.Behind?)
  }

  lemma {:induction false} StaysWordReadMore(a: WordScan, b: WordScan, s: bytes)
    requires WordReadMore(a, b)
    ensures WordReadMore(a.All(s), b.All(s))
    decreases |s|
  {
    if s == [] {
    } else {
      StaysWordReadMore(a.Next(s[0]), b.Next(s[0]), s[1..]);
    }
  }

  lemma WordTerminated(a: WordScan, r: nat)
    ensures a.All(Fill(NUL, r)).Shown() == a.Shown()
  {
    if r > 0 {
      BehindStays(a.Shown(), Fill(NUL, r)[1..]);
    }
  }

  /** The same for words. */
  lemma WordSettles(a: WordScan, b: WordScan, f: bytes, n: nat)
    requires WordReadMore(a, b) && n < |f|
    requires a.All(Fill('0', n)).Shown() == b.All(Fill('0', |f|)).Shown() == b.All(LastOne(|f|)).Shown()
    requires a.All(Fill(NUL, n)).Shown() == b.All(Fill(NUL, |f|)).Shown()
    ensures a.All(f[..n]).Shown() == b.All(f).Shown()
  {
    hide WordScan.All;
    var r := |f|;
    WordTerminated(a, n);
    WordTerminated(b, r);
    if b.Behind? {
      BehindStays(a.w, f[..n]);
      BehindStays(b.w, f);
    } else {
      OpenWordDiffers(b, r);
    }
  }
}
