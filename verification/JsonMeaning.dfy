/** What the numbers and strings that the JSON parser reads mean (RFC 8259, sections 6 and 7). */
module JsonMeanings {
  import opened Items
  import opened Slices
  import opened Wrappers
  import opened JsonLexing

  const ZERO: byte := 48

  /* ---- Digits ---- */

  predicate AllDigits(ds: Bytes) {
    forall k | 0 <= k < |ds| :: IsDigit(ds[k])
  }

  // The number written by `m` and then the digits `ds`.
  function Fold(m: nat, ds: Bytes): nat
    requires AllDigits(ds)
    decreases |ds|
  {
    if ds == [] then m else Fold(m * 10 + (ds[0] - ZERO), ds[1..])
  }

  lemma {:induction false} FoldGrows(m: nat, ds: Bytes)
    requires AllDigits(ds)
    ensures m <= Fold(m, ds)
    decreases |ds|
  {
    if ds != [] {
      FoldGrows(m * 10 + (ds[0] - ZERO), ds[1..]);
    }
  }

  lemma {:induction false} FoldAppend(m: nat, ds: Bytes, es: Bytes)
    requires AllDigits(ds) && AllDigits(es)
    ensures AllDigits(ds + es) && Fold(m, ds + es) == Fold(Fold(m, ds), es)
    decreases |ds|
  {
    if ds == [] {
      assert ds + es == es;
    } else {
      FoldAppend(m * 10 + (ds[0] - ZERO), ds[1..], es);
      assert (ds + es)[1..] == ds[1..] + es;
    }
  }

  function Pow10(n: nat): nat {
    if n == 0 then 1 else 10 * Pow10(n - 1)
  }

  // Digits behind a number scale it, and add less than one unit of the new scale.
  lemma {:induction false} FoldScales(m: nat, ds: Bytes)
    requires AllDigits(ds)
    ensures m * Pow10(|ds|) <= Fold(m, ds) < (m + 1) * Pow10(|ds|)
    decreases |ds|
  {
    if ds != [] {
      var d, p := ds[0] - ZERO, Pow10(|ds| - 1);
      FoldScales(m * 10 + d, ds[1..]);
      assert (m * 10 + d) * p == m * (10 * p) + d * p;
      assert (m * 10 + d + 1) * p == m * (10 * p) + (d + 1) * p;
      assert (d + 1) * p <= 10 * p;
      assert (m + 1) * (10 * p) == m * (10 * p) + 10 * p;
    }
  }

  /* ---- Mantissas that fit ---- */

  // The mantissa after the digits `ds`, each kept if it still fits a u64, and how many are kept.
  function Absorb(m: nat, ds: Bytes): (r: (nat, nat))
    requires AllDigits(ds)
    ensures r.1 <= |ds|
    decreases |ds|
  {
    if ds == [] then (m, 0) else
      var m' := m * 10 + (ds[0] - ZERO);
      if m' < U64_LIMIT then (Absorb(m', ds[1..]).0, 1 + Absorb(m', ds[1..]).1) else Absorb(m, ds[1..])
  }

  // Digits that fit together are all kept.
  lemma {:induction false} AbsorbFits(m: nat, ds: Bytes)
    requires AllDigits(ds) && Fold(m, ds) < U64_LIMIT
    ensures Absorb(m, ds) == (Fold(m, ds), |ds|)
    decreases |ds|
  {
    if ds != [] {
      FoldGrows(m * 10 + (ds[0] - ZERO), ds[1..]);
      AbsorbFits(m * 10 + (ds[0] - ZERO), ds[1..]);
    }
  }

  lemma {:induction false} AbsorbAppend(m: nat, ds: Bytes, es: Bytes)
    requires AllDigits(ds) && AllDigits(es)
    ensures AllDigits(ds + es)
    ensures var (a, kept) := Absorb(m, ds); Absorb(m, ds + es) == (Absorb(a, es).0, kept + Absorb(a, es).1)
    decreases |ds|
  {
    if ds == [] {
      assert ds + es == es;
    } else {
      var m' := m * 10 + (ds[0] - ZERO);
      AbsorbAppend(if m' < U64_LIMIT then m' else m, ds[1..], es);
      assert (ds + es)[1..] == ds[1..] + es;
    }
  }

  lemma {:induction false} AbsorbGrows(m: nat, ds: Bytes)
    requires AllDigits(ds)
    ensures m <= Absorb(m, ds).0 && (m < U64_LIMIT ==> Absorb(m, ds).0 < U64_LIMIT)
    decreases |ds|
  {
    if ds != [] {
      var m' := m * 10 + (ds[0] - ZERO);
      AbsorbGrows(if m' < U64_LIMIT then m' else m, ds[1..]);
    }
  }

  // Once one digit does not fit, none of the digits after it does.
  predicate DroppedForGood(m: nat, ds: Bytes)
    requires AllDigits(ds)
    decreases |ds|
  {
    ds == [] ||
    var m' := m * 10 + (ds[0] - ZERO);
    if m' < U64_LIMIT then DroppedForGood(m', ds[1..]) else forall k | 1 <= k < |ds| :: m * 10 + (ds[k] - ZERO) >= U64_LIMIT
  }

  lemma {:induction false} AbsorbNone(m: nat, ds: Bytes)
    requires AllDigits(ds) && forall k | 0 <= k < |ds| :: m * 10 + (ds[k] - ZERO) >= U64_LIMIT
    ensures Absorb(m, ds) == (m, 0)
    decreases |ds|
  {
    if ds != [] {
      AbsorbNone(m, ds[1..]);
    }
  }

  // The number kept is the number written, cut off behind the digits kept, exactly when no digit is
  // kept after one was dropped. Otherwise it is too small.
  lemma {:induction false} AbsorbTruncates(m: nat, ds: Bytes)
    requires AllDigits(ds) && m < U64_LIMIT
    ensures var (a, kept) := Absorb(m, ds);
      var p := Pow10(|ds| - kept);
      && a * p <= Fold(m, ds)
      && (Fold(m, ds) < (a + 1) * p <==> DroppedForGood(m, ds))
    decreases |ds|
  {
    hide Pow10;
    if ds == [] {
      PowZero();
    } else {
      var m' := m * 10 + (ds[0] - ZERO);
      if m' < U64_LIMIT {
        AbsorbTruncates(m', ds[1..]);
      } else if DroppedForGood(m, ds) {
        AbsorbNone(m, ds);
        FoldScales(m, ds);
      } else {
        KeptLater(m, ds);
        TimesGrows(Absorb(m, ds).0, Absorb(m, ds).0 + 1, Pow10(|ds| - 1));
      }
    }
  }

  lemma PowZero()
    ensures Pow10(0) == 1
  {
  }

  // A digit kept late stands in the place of a larger one.
  lemma KeptLater(m: nat, ds: Bytes)
    requires AllDigits(ds) && m < U64_LIMIT && ds != [] && m * 10 + (ds[0] - ZERO) >= U64_LIMIT
    requires exists k | 1 <= k < |ds| :: m * 10 + (ds[k] - ZERO) < U64_LIMIT
    ensures Absorb(m, ds).1 == 1
    ensures (Absorb(m, ds).0 + 1) * Pow10(|ds| - 1) <= Fold(m, ds)
  {
    hide Absorb, Pow10;
    AbsorbOne(m, ds);
    var m' := m * 10 + (ds[0] - ZERO);
    FoldScales(m', ds[1..]);
    assert Fold(m, ds) == Fold(m', ds[1..]);
    TimesGrows(Absorb(m, ds).0 + 1, m', Pow10(|ds| - 1));
  }

  lemma TimesGrows(a: nat, b: nat, p: nat)
    requires a <= b
    ensures a * p <= b * p
  {
  }

  lemma {:induction false} AbsorbOne(m: nat, ds: Bytes)
    requires AllDigits(ds) && m < U64_LIMIT
    requires m * 10 + 9 >= U64_LIMIT && exists k | 0 <= k < |ds| :: m * 10 + (ds[k] - ZERO) < U64_LIMIT
    ensures Absorb(m, ds).1 == 1 && Absorb(m, ds).0 < U64_LIMIT
    decreases |ds|
  {
    var m' := m * 10 + (ds[0] - ZERO);
    if m' < U64_LIMIT {
      AbsorbNone(m', ds[1..]);
    } else {
      AbsorbOne(m, ds[1..]);
    }
  }

  /* ---- The readers of numbers ---- */

  lemma {:induction false} BigAbsorbs(src: Bytes, i: nat, x: Decimal, ds: Bytes)
    requires Here(src, i, ds) && AllDigits(ds) && x.exponent <= I16_MAX
    ensures i + |ds| <= |src|
    ensures var (m, kept) := Absorb(x.mantissa, ds);
      var e := x.exponent + |ds| - kept;
      BigNumber(src, i, x) == if e > I16_MAX then Err(ExceededDepthLimit) else BigNumber(src, i + |ds|, Decimal(m, e))
    decreases |ds|
  {
    hide Fraction, Exponent;
    if ds != [] {
      HereFirst(src, i, ds);
      var m' := x.mantissa * 10 + (ds[0] - ZERO);
      if m' < U64_LIMIT {
        BigAbsorbs(src, i + 1, x.(mantissa := m'), ds[1..]);
      } else if x.exponent < I16_MAX {
        BigAbsorbs(src, i + 1, x.(exponent := x.exponent + 1), ds[1..]);
      }
    }
  }

  lemma {:induction false} NumberAbsorbs(src: Bytes, i: nat, m: nat, ds: Bytes)
    requires Here(src, i, ds) && AllDigits(ds) && (i + |ds| < |src| ==> !IsDigit(src[i + |ds|]))
    ensures i + |ds| <= |src|
    ensures var (a, kept) := Absorb(m, ds);
      if a >= MAX_PRECISION then NumberFrom(src, i, m) == BigNumber(src, i, Decimal(m, 0))
      else kept == |ds| && NumberFrom(src, i, m) == Extension(src, i + |ds|, Decimal(a, 0))
    decreases |ds|
  {
    hide Extension, Fraction, Exponent;
    AbsorbGrows(m, ds);
    if ds != [] {
      HereFirst(src, i, ds);
      if m < MAX_PRECISION {
        NumberAbsorbs(src, i + 1, m * 10 + (ds[0] - ZERO), ds[1..]);
      }
    } else if m < MAX_PRECISION {
      NumberEnds(src, i, m);
    }
  }

  lemma NumberEnds(src: Bytes, i: nat, m: nat)
    requires i <= |src| && m < MAX_PRECISION && (i < |src| ==> !IsDigit(src[i]))
    ensures NumberFrom(src, i, m) == Extension(src, i, Decimal(m, 0))
  {
  }

  lemma {:induction false} FractionAbsorbs(src: Bytes, i: nat, x: Decimal, ds: Bytes)
    requires Here(src, i, ds) && AllDigits(ds)
    ensures i + |ds| <= |src|
    ensures var (m, kept) := Absorb(x.mantissa, ds);
      var e := x.exponent - kept;
      FractionFrom(src, i, x) == if e < I16_MIN then Err(Overflow) else FractionFrom(src, i + |ds|, Decimal(m, e))
    decreases |ds|
  {
    hide Exponent;
    if ds != [] {
      HereFirst(src, i, ds);
      if x.exponent >= I16_MIN {
        FractionAbsorbs(src, i + 1, FractionDigit(x, ds[0] - ZERO), ds[1..]);
      }
    }
  }

  function Min(a: nat, b: nat): nat {
    if a < b then a else b
  }

  // The digits of an exponent saturate.
  lemma {:induction false} ExponentDigitsRead(src: Bytes, i: nat, e: nat, ds: Bytes)
    requires Here(src, i, ds) && AllDigits(ds) && (i + |ds| < |src| ==> !IsDigit(src[i + |ds|])) && e <= I16_MAX
    ensures i <= |src| && ExponentDigits(src, i, e) == (Min(Fold(e, ds), I16_MAX), i + |ds|)
    decreases |ds|
  {
    if ds != [] {
      HereFirst(src, i, ds);
      var v := e * 10 + (ds[0] - ZERO);
      ExponentDigitsRead(src, i + 1, Min(v, I16_MAX), ds[1..]);
      FoldSaturates(v, ds[1..]);
    }
  }

  lemma {:induction false} FoldSaturates(v: nat, ds: Bytes)
    requires AllDigits(ds)
    ensures Min(Fold(Min(v, I16_MAX), ds), I16_MAX) == Min(Fold(v, ds), I16_MAX)
    decreases |ds|
  {
    FoldGrows(v, ds);
    FoldGrows(Min(v, I16_MAX), ds);
  }

  // No byte that would carry a number on.
  predicate Stops(src: Bytes, j: nat) {
    j == |src| || (j < |src| && !IsDigit(src[j]) && src[j] != POINT && src[j] != SMALL_E && src[j] != CAPITAL_E)
  }

  // A number as RFC 8259 writes it: the whole part, the digits of the fraction, the mark of the
  // exponent with its sign, and the digits of the exponent.
  datatype NumberParts = NumberParts(whole: Bytes, fraction: Bytes, mark: Bytes, exponent: Bytes) {
    predicate Valid() {
      && AllDigits(whole) && whole != [] && (whole[0] == ZERO ==> |whole| == 1)
      && AllDigits(fraction) && AllDigits(exponent)
      && (mark == [] <==> exponent == []) && (mark != [] ==> IsMark(mark))
    }

    function Point(): Bytes {
      if fraction == [] then [] else [POINT] + fraction
    }

    function Text(): Bytes {
      whole + (Point() + (mark + exponent))
    }

    // The exponent that is read after the digits have left it at `e`.
    function Adjusted(e: int): int
      requires Valid()
    {
      if exponent == [] then e
      else Saturate(if Negative(mark) then e - Min(Fold(0, exponent), I16_MAX) else e + Min(Fold(0, exponent), I16_MAX))
    }

    // What is read. Digits of the whole part that are dropped raise the exponent, and digits of the
    // fraction that are kept lower it.
    function Value(): Result<Decimal, Error>
      requires Valid()
    {
      var (m, kept) := Absorb(0, whole);
      var (n, more) := Absorb(m, fraction);
      if |whole| - kept > I16_MAX then Err(ExceededDepthLimit)
      else if |whole| - kept - more < I16_MIN then Err(Overflow)
      else Ok(Decimal(n, Adjusted(|whole| - kept - more)))
    }
  }

  predicate IsMark(mark: Bytes) {
    && 1 <= |mark| <= 2 && (mark[0] == SMALL_E || mark[0] == CAPITAL_E)
    && (|mark| == 2 ==> mark[1] == MINUS || mark[1] == PLUS)
  }

  predicate Negative(mark: Bytes) {
    |mark| == 2 && mark[1] == MINUS
  }

  lemma ExponentRead(src: Bytes, i: nat, mark: Bytes, ds: Bytes, x: Decimal)
    requires IsMark(mark) && ds != [] && AllDigits(ds) && Here(src, i, mark + ds) && Stops(src, i + |mark| + |ds|)
    ensures i < |src| && (src[i] == SMALL_E || src[i] == CAPITAL_E)
    ensures var v := Min(Fold(0, ds), I16_MAX);
      Exponent(src, i + 1, x) == Ok((x.(exponent := Saturate(if Negative(mark) then x.exponent - v else x.exponent + v)), i + |mark| + |ds|))
  {
    hide ExponentDigits, Fold, Here, Saturate, Stops;
    HereSplit(src, i, mark, ds);
    HereFirst(src, i, mark);
    if |mark| == 2 {
      HereFirst(src, i + 1, mark[1..]);
    }
    FirstDigit(src, i + |mark|, ds);
  }

  lemma FirstDigit(src: Bytes, j: nat, ds: Bytes)
    requires ds != [] && AllDigits(ds) && Here(src, j, ds) && Stops(src, j + |ds|)
    ensures j < |src| && IsDigit(src[j])
    ensures ExponentDigits(src, j + 1, src[j] - ZERO) == (Min(Fold(0, ds), I16_MAX), j + |ds|)
  {
    hide *;
    HereFirst(src, j, ds);
    FoldFirst(ds);
    StopsIs(src, j + |ds|);
    ExponentDigitsRead(src, j + 1, ds[0] - ZERO, ds[1..]);
  }

  lemma FoldFirst(ds: Bytes)
    requires ds != [] && AllDigits(ds)
    ensures IsDigit(ds[0]) && 0 <= ds[0] - ZERO <= 9 < I16_MAX
    ensures AllDigits(ds[1..]) && Fold(0, ds) == Fold(ds[0] - ZERO, ds[1..])
  {
  }

  lemma StopsIs(src: Bytes, j: nat)
    requires Stops(src, j)
    ensures j < |src| ==> !IsDigit(src[j])
  {
  }

  lemma StopRead(src: Bytes, i: nat, x: Decimal)
    requires Stops(src, i)
    ensures i <= |src| && (i < |src| ==> !IsDigit(src[i]) && src[i] != POINT)
    ensures Extension(src, i, x) == Ok((x, i)) && BigNumber(src, i, x) == Ok((x, i))
    ensures x.exponent >= I16_MIN ==> FractionFrom(src, i, x) == Ok((x, i))
  {
  }

  lemma MarkRead(src: Bytes, i: nat, x: Decimal, y: Decimal, j: nat)
    requires i < |src| && (src[i] == SMALL_E || src[i] == CAPITAL_E)
    requires Exponent(src, i + 1, x) == Ok((y, j)) && Stops(src, j)
    ensures Extension(src, i, x) == Ok((y, j)) && BigNumber(src, i, x) == Ok((y, j))
    ensures x.exponent >= I16_MIN ==> FractionFrom(src, i, x) == Ok((y, j))
  {
    hide Exponent, Stops;
    StopRead(src, j, y);
  }

  // What follows the digits: an exponent or nothing.
  lemma TailRead(src: Bytes, i: nat, p: NumberParts, x: Decimal)
    requires p.Valid() && Here(src, i, p.mark + p.exponent) && Stops(src, i + |p.mark| + |p.exponent|)
    ensures i <= |src| && (i < |src| ==> !IsDigit(src[i]) && src[i] != POINT)
    ensures var r: Read<Decimal> := Ok((x.(exponent := p.Adjusted(x.exponent)), i + |p.mark| + |p.exponent|));
      && Extension(src, i, x) == r && BigNumber(src, i, x) == r
      && (x.exponent >= I16_MIN ==> FractionFrom(src, i, x) == r)
  {
    hide Exponent, Extension, BigNumber, FractionFrom, Stops, Here, Fold, Saturate, IsMark, Negative;
    if p.exponent == [] {
      assert x.(exponent := x.exponent) == x;
      StopRead(src, i, x);
    } else {
      ExponentRead(src, i, p.mark, p.exponent, x);
      MarkRead(src, i, x, x.(exponent := p.Adjusted(x.exponent)), i + |p.mark| + |p.exponent|);
    }
  }

  // The fraction, if there is one, and what follows it.
  lemma PointRead(src: Bytes, i: nat, p: NumberParts, x: Decimal)
    requires p.Valid() && Here(src, i, p.Point() + (p.mark + p.exponent))
    requires Stops(src, i + |p.Point() + (p.mark + p.exponent)|) && 0 <= x.exponent <= I16_MAX
    ensures i <= |src| && (i < |src| ==> !IsDigit(src[i]))
    ensures var (n, more) := Absorb(x.mantissa, p.fraction);
      var r: Read<Decimal> := if x.exponent - more < I16_MIN then Err(Overflow)
        else Ok((Decimal(n, p.Adjusted(x.exponent - more)), i + |p.Point() + (p.mark + p.exponent)|));
      Extension(src, i, x) == r && BigNumber(src, i, x) == r
  {
    hide Exponent, FractionFrom, Fraction, Absorb, Here, Stops, BigNumber, Extension, p.Adjusted;
    HereSplit(src, i, p.Point(), p.mark + p.exponent);
    if p.fraction == [] {
      TailRead(src, i, p, x);
      AbsorbNone(x.mantissa, []);
    } else {
      HereSplit(src, i, [POINT], p.fraction);
      HereFirst(src, i, [POINT]);
      AtPoint(src, i, x);
      var f := p.fraction;
      var (n, more) := Absorb(x.mantissa, f);
      FractionStarts(src, i + 1, f, x);
      FractionAbsorbs(src, i + 1, x, f);
      TailRead(src, i + 1 + |f|, p, Decimal(n, x.exponent - more));
    }
  }

  lemma AtPoint(src: Bytes, i: nat, x: Decimal)
    requires i < |src| && src[i] == POINT
    ensures Extension(src, i, x) == Fraction(src, i + 1, x) && BigNumber(src, i, x) == Fraction(src, i + 1, x)
  {
    hide Fraction;
  }

  lemma FractionStarts(src: Bytes, i: nat, f: Bytes, x: Decimal)
    requires Here(src, i, f) && AllDigits(f) && f != [] && x.exponent >= I16_MIN
    ensures i < |src| && Fraction(src, i, x) == FractionFrom(src, i, x)
  {
    hide Exponent;
    HereFirst(src, i, f);
  }

  // The whole part is read, and then what follows it.
  lemma WholeRead(src: Bytes, i: nat, ds: Bytes)
    requires Here(src, i, ds) && AllDigits(ds) && ds != [] && (ds[0] == ZERO ==> |ds| == 1)
    requires i + |ds| < |src| ==> !IsDigit(src[i + |ds|])
    ensures i + |ds| <= |src| && IsDigit(src[i])
    ensures var (m, kept) := Absorb(0, ds);
      var r, x := Unsigned(src, i + 1, src[i]), Decimal(m, |ds| - kept);
      if |ds| - kept > I16_MAX then r == Err(ExceededDepthLimit)
      else r == Extension(src, i + |ds|, x) || r == BigNumber(src, i + |ds|, x)
  {
    hide NumberFrom, Extension, BigNumber, Absorb, Here;
    HereFirst(src, i, ds);
    AbsorbFirst(ds);
    if ds[0] != ZERO {
      NumberAbsorbs(src, i + 1, ds[0] - ZERO, ds[1..]);
      BigAbsorbs(src, i + 1, Decimal(ds[0] - ZERO, 0), ds[1..]);
    }
  }

  // Every number is read as its value.
  lemma NumberMeans(src: Bytes, i: nat, p: NumberParts)
    requires p.Valid() && Here(src, i, p.Text()) && Stops(src, i + |p.Text()|)
    ensures i < |src| && IsDigit(src[i])
    ensures Unsigned(src, i + 1, src[i]) == match p.Value()
              case Ok(x) => Ok((x, i + |p.Text()|))
              case Err(e) => Err(e)
  {
    hide Unsigned, Extension, BigNumber, Absorb, Here, Stops, AllDigits, IsMark, p.Adjusted, p.Point;
    var ds, rest := p.whole, p.Point() + (p.mark + p.exponent);
    HereSplit(src, i, ds, rest);
    var (m, kept) := Absorb(0, ds);
    PointRead(src, i + |ds|, p, Decimal(m, if |ds| - kept <= I16_MAX then |ds| - kept else 0));
    WholeRead(src, i, ds);
  }

  lemma AbsorbFirst(ds: Bytes)
    requires AllDigits(ds) && ds != []
    ensures AllDigits(ds[1..]) && Absorb(0, ds) == (Absorb(ds[0] - ZERO, ds[1..]).0, 1 + Absorb(ds[0] - ZERO, ds[1..]).1)
    ensures ds == [ZERO] ==> Absorb(0, ds) == (0, 1)
  {
  }

  /* ---- The same, for every text that may stand at an index ---- */

  function AsRead(v: Result<Decimal, Error>, j: nat): Read<Decimal> {
    match v
    case Ok(x) => Ok((x, j))
    case Err(e) => Err(e)
  }

  predicate NumberAt(src: Bytes, i: nat, p: NumberParts) {
    p.Valid() && Here(src, i, p.Text()) && Stops(src, i + |p.Text()|)
  }

  lemma NumbersRead(src: Bytes, i: nat)
    requires i < |src|
    ensures forall p: NumberParts | NumberAt(src, i, p) ::
      Unsigned(src, i + 1, src[i]) == AsRead(p.Value(), i + |p.Text()|)
  {
    forall p: NumberParts | NumberAt(src, i, p)
      ensures Unsigned(src, i + 1, src[i]) == AsRead(p.Value(), i + |p.Text()|)
    {
      NumberMeans(src, i, p);
    }
  }

  // The digits `ds` and nothing that carries them on.
  predicate DigitsAt(src: Bytes, i: nat, ds: Bytes) {
    AllDigits(ds) && Here(src, i, ds) && Stops(src, i + |ds|)
  }

  // Digits that are dropped raise the exponent by their number.
  function BigValue(x: Decimal, ds: Bytes): Result<Decimal, Error>
    requires AllDigits(ds)
  {
    var (m, kept) := Absorb(x.mantissa, ds);
    if x.exponent + |ds| - kept > I16_MAX then Err(ExceededDepthLimit) else Ok(Decimal(m, x.exponent + |ds| - kept))
  }

  // Digits of a fraction that are kept lower it by theirs.
  function FractionValue(x: Decimal, f: Bytes): Result<Decimal, Error>
    requires AllDigits(f)
  {
    var (m, kept) := Absorb(x.mantissa, f);
    if x.exponent - kept < I16_MIN then Err(Overflow) else Ok(Decimal(m, x.exponent - kept))
  }

  function ExponentValue(e: int, sign: Bytes, ds: Bytes): int
    requires AllDigits(ds)
  {
    var v := Min(Fold(0, ds), I16_MAX);
    Saturate(if sign == [MINUS] then e - v else e + v)
  }

  predicate IsSign(sign: Bytes) {
    sign == [] || sign == [PLUS] || sign == [MINUS]
  }

  lemma BigNumbersRead(src: Bytes, i: nat, x: Decimal)
    requires i <= |src| && x.exponent <= I16_MAX
    ensures forall ds | DigitsAt(src, i, ds) :: BigNumber(src, i, x) == AsRead(BigValue(x, ds), i + |ds|)
  {
    forall ds | DigitsAt(src, i, ds)
      ensures BigNumber(src, i, x) == AsRead(BigValue(x, ds), i + |ds|)
    {
      hide Absorb, Here;
      BigAbsorbs(src, i, x, ds);
    }
  }

  lemma FractionsRead(src: Bytes, i: nat, x: Decimal)
    requires i <= |src| && x.exponent >= I16_MIN
    ensures forall f | f != [] && DigitsAt(src, i, f) :: Fraction(src, i, x) == AsRead(FractionValue(x, f), i + |f|)
  {
    forall f | f != [] && DigitsAt(src, i, f)
      ensures Fraction(src, i, x) == AsRead(FractionValue(x, f), i + |f|)
    {
      hide Absorb, Here, Fraction;
      FractionStarts(src, i, f, x);
      FractionAbsorbs(src, i, x, f);
    }
  }

  lemma ExponentsRead(src: Bytes, i: nat, x: Decimal)
    requires i <= |src|
    ensures forall sign, ds | IsSign(sign) && ds != [] && DigitsAt(src, i + |sign|, ds) && Here(src, i, sign) ::
      Exponent(src, i, x) == Ok((x.(exponent := ExponentValue(x.exponent, sign, ds)), i + |sign| + |ds|))
  {
    forall sign, ds | IsSign(sign) && ds != [] && DigitsAt(src, i + |sign|, ds) && Here(src, i, sign)
      ensures Exponent(src, i, x) == Ok((x.(exponent := ExponentValue(x.exponent, sign, ds)), i + |sign| + |ds|))
    {
      hide ExponentDigits, Fold, Stops, Saturate;
      if sign != [] {
        HereFirst(src, i, sign);
      }
      FirstDigit(src, i + |sign|, ds);
    }
  }

  // When all digits fit, the value is exact.
  lemma FittingNumber(p: NumberParts)
    requires p.Valid()
    ensures AllDigits(p.whole + p.fraction)
    ensures Fold(0, p.whole + p.fraction) < U64_LIMIT ==>
      p.Value() == if |p.fraction| > -I16_MIN then Err(Overflow)
                   else Ok(Decimal(Fold(0, p.whole + p.fraction), p.Adjusted(-|p.fraction|)))
  {
    FoldAppend(0, p.whole, p.fraction);
    if Fold(0, p.whole + p.fraction) < U64_LIMIT {
      FoldGrows(Fold(0, p.whole), p.fraction);
      AbsorbFits(0, p.whole);
      AbsorbFits(Fold(0, p.whole), p.fraction);
    }
  }
}
