// Reading numbers: strtod takes the longest decimal there is, and gives its value.
module JsonNumber {
  import opened Bytes
  import opened JsonParse
  import opened JsonValue
  import opened JsonGrammar

  // ----- spans -----

  lemma {:induction false} DigitSpanIs(t: bytes, i: nat, n: nat)
    requires i + n <= |t|
    requires forall k | i <= k < i + n :: IsDigit(t[k])
    ensures DigitSpan(t, i) >= n
    ensures i + n < |t| && !IsDigit(t[i + n]) ==> DigitSpan(t, i) == n
    ensures i + n == |t| ==> DigitSpan(t, i) == n
    decreases n
  {
    if n > 0 { DigitSpanIs(t, i + 1, n - 1); }
  }

  lemma {:induction false} NumberSpanIs(c: bytes, off: nat, n: nat, limit: nat)
    requires off + n <= |c| && n <= limit
    requires forall k | off <= k < off + n :: NumberChar(c[k])
    ensures NumberSpan(c, off, limit) >= n
    decreases n
  {
    if n > 0 { NumberSpanIs(c, off + 1, n - 1, limit - 1); }
  }

  // ----- values -----

  lemma TimesTen(x: int, p: int)
    ensures x * (10 * p) == 10 * (x * p)
  {
  }

  lemma {:induction false} WholeSnoc(t: bytes, x: byte)
    requires AllDigits(t) && AllDigits([x])
    ensures AllDigits(t + [x]) && Whole(t + [x]) == 10 * Whole(t) + (x - 48)
  {
    var u := t + [x];
    if t == [] {
      assert u == [x] && u[1..] == [];
      assert Ten(0) == 1;
    } else {
      WholeSnoc(t[1..], x);
      assert u[1..] == t[1..] + [x];
      assert Ten(|t|) == 10 * Ten(|t| - 1);
      TimesTen(t[0] - 48, Ten(|t| - 1));
    }
  }

  lemma {:induction false} DigitsValueIs(t: bytes)
    requires AllDigits(t)
    ensures DigitsValue(t) == Whole(t)
  {
    if t != [] {
      var n := |t| - 1;
      DigitsValueIs(t[..n]);
      WholeSnoc(t[..n], t[n]);
      assert t[..n] + [t[n]] == t;
    }
  }

  lemma {:induction false} WholeConcat(a: bytes, b: bytes)
    requires AllDigits(a) && AllDigits(b)
    ensures AllDigits(a + b) && Whole(a + b) == Whole(a) * Ten(|b|) + Whole(b)
    decreases b
  {
    if b == [] {
      assert a + b == a;
      assert Ten(0) == 1;
    } else {
      hide Whole;
      var n := |b| - 1;
      var x := b[n];
      WholeConcat(a, b[..n]);
      WholeSnoc(a + b[..n], x);
      WholeSnoc(b[..n], x);
      assert (a + b[..n]) + [x] == a + b && b[..n] + [x] == b;
      assert Ten(n + 1) == 10 * Ten(n);
      TimesTen(Whole(a), Ten(n));
    }
  }

  lemma Shifted(x: real, f: real, p: real)
    ensures (x + f) / 10.0 * (10.0 * p) == x * p + f * p
  {
    var y := (x + f) / 10.0;
    assert y * (10.0 * p) == (10.0 * y) * p;
  }

  lemma RealProduct(a: int, b: int)
    ensures (a * b) as real == a as real * b as real
  {
  }

  // f is the fraction w / p.
  predicate IsRatio(f: real, w: int, p: nat) {
    f * p as real == w as real
  }

  lemma RatioStep(x: int, f: real, w: int, p: nat)
    requires IsRatio(f, w, p)
    ensures IsRatio((x as real + f) / 10.0, x * p + w, 10 * p)
  {
    Shifted(x as real, f, p as real);
    RealProduct(x, p);
    RealProduct(10, p);
  }

  lemma {:induction false} FractionIs(t: bytes)
    requires AllDigits(t)
    ensures IsRatio(Fraction(t), Whole(t), Ten(|t|))
  {
    if t == [] {
    } else {
      hide IsRatio;
      FractionIs(t[1..]);
      RatioStep(t[0] - 48, Fraction(t[1..]), Whole(t[1..]), Ten(|t| - 1));
    }
  }

  lemma Pow10Step(e: int)
    ensures Pow10(e + 1) == 10.0 * Pow10(e)
  {
  }

  lemma Regrouped(p: real, q: real)
    ensures p * (10.0 * q) == (10.0 * p) * q
  {
  }

  lemma {:induction false} Pow10Down(e: int, n: nat)
    ensures Pow10(e - n) * Ten(n) as real == Pow10(e)
  {
    hide Pow10;
    if n > 0 {
      Pow10Down(e, n - 1);
      Pow10Step(e - n);
      assert Ten(n) as real == 10.0 * Ten(n - 1) as real;
      Regrouped(Pow10(e - n), Ten(n - 1) as real);
    }
  }

  lemma Pow10Is(n: nat)
    ensures Pow10(n) == Ten(n) as real && Pow10(0 - n) * Ten(n) as real == 1.0
  {
    Pow10Down(0, n);
    Pow10Down(n, n);
    assert Pow10(0) == 1.0;
    hide Pow10;
    assert n - n == 0;
  }

  lemma Pow10Zero()
    ensures Pow10(0) == 1.0
  {
  }

  function Power(e: Scale): int
    requires IsScale(e)
  {
    match e
    case Unscaled => 0
    case Scale(_, sign, digits) => if sign == [MINUS] then 0 - Whole(digits) else Whole(digits)
  }

  lemma ScaledIs(m: real, e: Scale)
    requires IsScale(e)
    ensures m * Pow10(Power(e)) == Scaled(m, e)
  {
    hide Pow10, Ten, Whole;
    match e
    case Unscaled => Pow10Zero();
    case Scale(_, sign, digits) =>
      Pow10Is(Whole(digits));
      if sign == [MINUS] { Divided(m, Pow10(Power(e)), Ten(Whole(digits)) as real); }
  }

  lemma Divided(v: real, p: real, t: real)
    requires t > 0.0 && p * t == 1.0
    ensures v * p == v / t
  {
    assert v * p * t == v * (p * t) == v;
  }

  lemma Associated(v: real, p: real, q: real, r: real)
    requires q * p == r
    ensures (v * p) * q == v * r
    ensures (-(v * p)) * q == (-v) * r
  {
    assert (v * p) * q == v * (q * p);
  }

  // The mantissa read as one integer, and the point made up for in the exponent.
  lemma ValueIs(n: Numeral)
    requires Wellformed(n)
    ensures AllDigits(n.whole + n.frac)
    ensures var m: int := Whole(n.whole + n.frac);
            Decimal(if n.minus then -m else m, Power(n.exponent) - |n.frac|) == NumeralValue(n)
  {
    hide Pow10, Ten, Whole, Fraction, Power, Scaled;
    var m: int, k, e := Whole(n.whole + n.frac), |n.frac|, Power(n.exponent);
    WholeConcat(n.whole, n.frac);
    FractionIs(n.frac);
    var w, f, p := Whole(n.whole) as real, Fraction(n.frac), Ten(k) as real;
    RealProduct(Whole(n.whole), Ten(k));
    assert m as real == w * p + f * p == (w + f) * p;
    Pow10Down(e, k);
    Associated(w + f, p, Pow10(e - k), Pow10(e));
    ScaledIs(w + f, n.exponent);
    ScaledIs(-(w + f), n.exponent);
  }

  // ----- strtod -----

  // Where the parts of a numeral stand.
  lemma Placed(n: Numeral, t: bytes)
    requires At(t, 0, NumeralText(n))
    ensures var s := if n.minus then 1 else 0;
            var p := s + |n.whole|;
            var f := if n.point then p + 1 else p;
            && (n.minus ==> |t| > 0 && t[0] == MINUS) && At(t, s, n.whole)
            && (n.point ==> p < |t| && t[p] == DOT) && At(t, f, n.frac)
            && At(t, f + |n.frac|, ExponentText(n.exponent))
            && |NumeralText(n)| == f + |n.frac| + |ExponentText(n.exponent)|
  {
    hide At, ExponentText;
    var dot, x := if n.point then [DOT] else [], ExponentText(n.exponent);
    var s := if n.minus then 1 else 0;
    AtSplit(t, 0, if n.minus then [MINUS] else [], n.whole + (dot + (n.frac + x)));
    if n.minus { AtIndex(t, 0, [MINUS], 0); }
    AtSplit(t, s, n.whole, dot + (n.frac + x));
    AtSplit(t, s + |n.whole|, dot, n.frac + x);
    if n.point { AtIndex(t, s + |n.whole|, [DOT], 0); }
    AtSplit(t, s + |n.whole| + |dot|, n.frac, x);
  }

  lemma FirstByte(n: Numeral, t: bytes)
    requires Wellformed(n) && At(t, 0, NumeralText(n)) && !n.minus
    ensures !SignAt(t, 0)
  {
    var u := NumeralText(n);
    AtIndex(t, 0, u, 0);
    assert u[0] == if n.whole != [] then n.whole[0] else DOT;
  }

  lemma DigitsAt(t: bytes, i: nat, ds: bytes)
    requires At(t, i, ds) && AllDigits(ds)
    ensures DigitSpan(t, i) >= |ds|
    ensures i + |ds| == |t| || !IsDigit(t[i + |ds|]) ==> DigitSpan(t, i) == |ds|
  {
    forall k | i <= k < i + |ds| ensures IsDigit(t[k]) { AtIndex(t, i, ds, k - i); }
    DigitSpanIs(t, i, |ds|);
  }

  lemma ExponentPlaced(t: bytes, q: nat, x: Scale)
    requires x.Scale? && At(t, q, ExponentText(x))
    ensures q < |t| && t[q] == x.mark && At(t, q + 1, x.sign) && At(t, q + 1 + |x.sign|, x.digits)
    ensures |ExponentText(x)| == 1 + |x.sign| + |x.digits|
  {
    hide At;
    AtHead(t, q, x.mark, x.sign + x.digits);
    AtSplit(t, q + 1, x.sign, x.digits);
  }

  lemma ExponentReads(t: bytes, q: nat, x: Scale)
    requires At(t, q, ExponentText(x)) && x.Scale?
    requires IsScale(x)
    ensures Exponent(t, q).1 >= q + |ExponentText(x)|
    ensures q + |ExponentText(x)| == |t| ==> Exponent(t, q) == (Power(x), |t|)
  {
    hide ExponentText, DigitSpan, DigitsValue, Whole, AllDigits, At;
    ExponentPlaced(t, q, x);
    var s := q + 1 + |x.sign|;
    DigitsAt(t, s, x.digits);
    if x.sign != [] { AtIndex(t, q + 1, x.sign, 0); }
    DigitsValueIs(x.digits);
    AtIs(t, s, x.digits);
  }

  // Where strtod finds the parts of a numeral at the front of t: at its point and its exponent, and
  // otherwise at least as far as the numeral goes.
  lemma Found(n: Numeral, t: bytes)
    requires Wellformed(n) && At(t, 0, NumeralText(n))
    ensures var s := if n.minus then 1 else 0;
            var p := s + |n.whole|;
            var f := if n.point then p + 1 else p;
            && SignEnd(t) == s && WholeEnd(t) >= p && FracEnd(t) >= f + |n.frac|
            && (n.point ==> WholeEnd(t) == p && PointEnd(t) == f)
            && (n.exponent.Scale? || f + |n.frac| == |t| ==>
                  WholeEnd(t) == p && PointEnd(t) == f && FracEnd(t) == f + |n.frac|)
  {
    hide NumeralText, ExponentText, DigitSpan, AllDigits, At;
    Placed(n, t);
    if !n.minus { FirstByte(n, t); }
    var s := if n.minus then 1 else 0;
    var f := s + |n.whole| + if n.point then 1 else 0;
    DigitsAt(t, s, n.whole);
    DigitsAt(t, f, n.frac);
    if n.exponent.Scale? { ExponentPlaced(t, f + |n.frac|, n.exponent); }
  }

  // strtod takes at least the decimal that stands at the front.
  lemma StrtodReaches(n: Numeral, t: bytes)
    requires Wellformed(n) && At(t, 0, NumeralText(n))
    ensures Strtod(t).Ok? && Strtod(t).end >= |NumeralText(n)|
  {
    hide NumeralText, ExponentText, Exponent, DigitsValue, AllDigits, Decimal, At;
    hide SignEnd, WholeEnd, PointEnd, FracEnd;
    Placed(n, t);
    Found(n, t);
    if n.exponent.Scale? {
      ExponentReads(t, FracEnd(t), n.exponent);
    } else {
      EmptyText();
    }
  }

  // It takes all of a text that is one, and gives its value.
  lemma StrtodReads(n: Numeral)
    requires Wellformed(n)
    ensures Strtod(NumeralText(n)) == Ok(NumeralValue(n), |NumeralText(n)|)
  {
    hide NumeralText, ExponentText, Exponent, DigitsValue, Whole, NumeralValue, Power, AllDigits, Decimal, At;
    hide SignEnd, WholeEnd, PointEnd, FracEnd;
    var t := NumeralText(n);
    AtSelf(t);
    Placed(n, t);
    if !n.minus { FirstByte(n, t); }
    if n.exponent.Scale? { ExponentPlaced(t, |t| - |ExponentText(n.exponent)|, n.exponent); } else { EmptyText(); }
    Found(n, t);
    AtIs(t, SignEnd(t), n.whole);
    AtIs(t, PointEnd(t), n.frac);
    if n.exponent.Scale? { ExponentReads(t, FracEnd(t), n.exponent); } else { NoExponentAt(t, |t|); }
    ValueIs(n);
    DigitsValueIs(n.whole + n.frac);
  }

  lemma AtSelf(t: bytes)
    ensures At(t, 0, t)
  {
  }

  lemma EmptyText()
    ensures ExponentText(Unscaled) == [] && Power(Unscaled) == 0
  {
  }

  lemma NoExponentAt(t: bytes, q: nat)
    requires q == |t|
    ensures Exponent(t, q) == (0, q)
  {
  }

  // The numeral that strtod takes.
  function Taken(t: bytes): Numeral {
    Numeral(
      |t| > 0 && t[0] == MINUS, t[SignEnd(t)..WholeEnd(t)], PointEnd(t) > WholeEnd(t), t[PointEnd(t)..FracEnd(t)],
      ScaleAt(t, FracEnd(t)))
  }

  lemma TakenText(t: bytes)
    requires Strtod(t).Ok? && !(|t| > 0 && t[0] == PLUS)
    ensures Wellformed(Taken(t)) && NumeralText(Taken(t)) == t[..Strtod(t).end]
  {
    hide NumeralText, DigitSpan, DigitsValue, AllDigits, Decimal, Exponent, ScaleAt, IsScale, ExponentText;
    var s, p, f, q := SignEnd(t), WholeEnd(t), PointEnd(t), FracEnd(t);
    SpanDigits(t, s);
    if f > p {
      SpanDigits(t, f);
      assert t[p..f] == [t[p]];
    } else {
      SpanDigits(t, |t|);
      assert t[f..q] == t[|t|..|t|] == t[p..f] == [];
    }
    ScaleFound(t, q);
    AreParts(Taken(t), t, s, p, f, q);
  }

  lemma TakenValue(t: bytes)
    requires Strtod(t).Ok? && Wellformed(Taken(t))
    ensures NumeralValue(Taken(t)) == Strtod(t).value
  {
    hide DigitsValue, AllDigits, Decimal, Exponent, ScaleAt, NumeralValue, Whole, Power;
    hide SignEnd, WholeEnd, PointEnd, FracEnd;
    ScaleFound(t, FracEnd(t));
    ValueIs(Taken(t));
    DigitsValueIs(Taken(t).whole + Taken(t).frac);
  }

  // What strtod takes is a decimal of that value.
  lemma StrtodGives(t: bytes)
    requires Strtod(t).Ok? && !(|t| > 0 && t[0] == PLUS)
    ensures IsDecimal(t[..Strtod(t).end], Strtod(t).value)
  {
    hide Strtod, Wellformed, NumeralText, NumeralValue, Taken;
    TakenText(t);
    TakenValue(t);
    assert IsDecimal(t[..Strtod(t).end], NumeralValue(Taken(t)));
  }

  lemma SpanDigits(t: bytes, i: nat)
    requires i <= |t|
    ensures AllDigits(t[i..i + DigitSpan(t, i)])
  {
  }

  // The exponent part that strtod sees at q.
  function ScaleAt(t: bytes, q: nat): Scale
    requires q <= |t|
  {
    if q < |t| && (t[q] == LOWER_E || t[q] == UPPER_E) then
      var s := if SignAt(t, q + 1) then q + 2 else q + 1;
      var n := DigitSpan(t, s);
      if n == 0 then Unscaled else Scale(t[q], t[q + 1..s], t[s..s + n])
    else Unscaled
  }

  lemma ScaleFound(t: bytes, q: nat)
    requires q <= |t|
    ensures var x := ScaleAt(t, q);
            && IsScale(x) && Exponent(t, q).0 == Power(x) && Exponent(t, q).1 == q + |ExponentText(x)|
            && t[q..Exponent(t, q).1] == ExponentText(x)
  {
    hide DigitsValue, Whole, DigitSpan;
    if q < |t| && (t[q] == LOWER_E || t[q] == UPPER_E) {
      var s := if SignAt(t, q + 1) then q + 2 else q + 1;
      var n := DigitSpan(t, s);
      if n > 0 {
        DigitsValueIs(t[s..s + n]);
        assert t[q..s + n] == [t[q]] + (t[q + 1..s] + t[s..s + n]);
        if s == q + 2 { assert t[q + 1..s] == [t[q + 1]]; }
      }
    }
  }

  lemma AreParts(n: Numeral, t: bytes, s: nat, p: nat, f: nat, q: nat)
    requires s <= p <= f <= q && q + |ExponentText(n.exponent)| <= |t|
    requires s == (if n.minus then 1 else 0) && (n.minus ==> t[0] == MINUS) && n.whole == t[s..p]
    requires t[p..f] == (if n.point then [DOT] else []) && n.frac == t[f..q]
    requires t[q..q + |ExponentText(n.exponent)|] == ExponentText(n.exponent)
    ensures NumeralText(n) == t[..q + |ExponentText(n.exponent)|]
  {
    hide ExponentText;
    var z := q + |ExponentText(n.exponent)|;
    SliceSplit(t, f, q, z);
    SliceSplit(t, p, f, z);
    SliceSplit(t, s, p, z);
    SliceSplit(t, 0, s, z);
    assert t[0..s] == if n.minus then [MINUS] else [];
  }

  // ----- parse_number -----

  lemma NumeralChars(n: Numeral)
    requires Wellformed(n)
    ensures |NumeralText(n)| > 0 && forall i | 0 <= i < |NumeralText(n)| :: NumberChar(NumeralText(n)[i])
  {
  }

  // A decimal at off is inside what strtod gets to see, so it takes no less.
  lemma DecimalSeen(c: bytes, off: nat, e: nat, d: real)
    requires off <= e <= |c| && e - off <= NUMBER_BUFFER && IsDecimal(c[off..e], d)
    ensures e <= off + NumberSpan(c, off, NUMBER_BUFFER)
    ensures var r := Strtod(c[off..off + NumberSpan(c, off, NUMBER_BUFFER)]); r.Ok? && r.end >= e - off > 0
  {
    hide NumeralText, Wellformed, NumberSpan, Strtod, NumberChar, NumeralValue;
    var x: Numeral :| Wellformed(x) && NumeralText(x) == c[off..e] && NumeralValue(x) == d;
    NumeralChars(x);
    forall k | off <= k < e ensures NumberChar(c[k]) { assert c[k] == c[off..e][k - off]; }
    NumberSpanIs(c, off, e - off, NUMBER_BUFFER);
    var n := NumberSpan(c, off, NUMBER_BUFFER);
    assert c[off..off + n][0..e - off] == c[off..e];
    StrtodReaches(x, c[off..off + n]);
  }

  lemma DecimalUnique(t: bytes, d: real, d': real)
    requires IsDecimal(t, d) && IsDecimal(t, d')
    ensures d == d'
  {
    hide NumeralText, Wellformed, Strtod, NumeralValue;
    var x: Numeral :| Wellformed(x) && NumeralText(x) == t && NumeralValue(x) == d;
    var y: Numeral :| Wellformed(y) && NumeralText(y) == t && NumeralValue(y) == d';
    StrtodReads(x);
    StrtodReads(y);
  }

  // What parse_number takes denotes its value, and it takes all it can of the 63 bytes it looks at.
  lemma NumberSound(c: bytes, off: nat)
    requires Terminated(c) && off < |c| && (c[off] == MINUS || IsDigit(c[off])) && ParseNumber(c, off).Ok?
    ensures var r := ParseNumber(c, off);
            r.value.Number? && NumberDenotes(c[off..r.end], r.value.d) && Longest(c[off..], r.end - off)
  {
    hide IsDecimal, Strtod, NumberSpan;
    var n := NumberSpan(c, off, NUMBER_BUFFER);
    var t := c[off..off + n];
    var k := Strtod(t).end;
    assert t[0] == c[off];
    StrtodGives(t);
    assert t[..k] == c[off..off + k];
    forall m, d | k < m <= NUMBER_LENGTH && m <= |c[off..]| ensures !IsDecimal(c[off..][..m], d) {
      assert c[off..][..m] == c[off..off + m];
      if IsDecimal(c[off..off + m], d) { DecimalSeen(c, off, off + m, d); }
    }
  }

  // A decimal that no longer one continues is read, with its value.
  lemma NumberComplete(c: bytes, off: nat, e: nat, d: real)
    requires Terminated(c) && off < e < |c| && NumberDenotes(c[off..e], d) && Longest(c[off..], e - off)
    ensures ParseNumber(c, off) == Ok(Number(d), e)
  {
    hide IsDecimal, Strtod, NumberSpan;
    DecimalSeen(c, off, e, d);
    var n := NumberSpan(c, off, NUMBER_BUFFER);
    var t := c[off..off + n];
    var k := Strtod(t).end;
    assert t[0] == c[off] == c[off..e][0];
    StrtodGives(t);
    assert t[..k] == c[off..off + k] == c[off..][..k];
    DecimalUnique(c[off..e], d, Strtod(t).value);
  }

  // In front of a byte that no decimal holds, the longest one ends.
  lemma NoLonger(c: bytes, off: nat, e: nat)
    requires off <= e < |c| && !NumberChar(c[e])
    ensures Longest(c[off..], e - off)
  {
    hide IsDecimal, NumberChar;
    forall m, d | e - off < m <= NUMBER_LENGTH && m <= |c[off..]| ensures !IsDecimal(c[off..][..m], d) {
      if IsDecimal(c[off..][..m], d) {
        DecimalChars(c[off..][..m], d, e - off);
      }
    }
  }

  lemma DecimalChars(t: bytes, d: real, i: nat)
    requires IsDecimal(t, d) && i < |t|
    ensures NumberChar(t[i])
  {
    hide NumeralText, Wellformed, NumberChar, NumeralValue;
    var x: Numeral :| Wellformed(x) && NumeralText(x) == t && NumeralValue(x) == d;
    NumeralChars(x);
  }
}
