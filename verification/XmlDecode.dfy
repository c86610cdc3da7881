// Decoding text: ezxml_decode resolves exactly the references of the syntax.
module XmlDecode {
  import opened Bytes
  import opened Sequences
  import opened XmlText
  import opened XmlSyntax
  import JsonParse
  import Utf

  // ----- codes -----

  lemma ShiftDown(c: nat, b: nat)
    requires b > 0
    ensures Utf.ShiftRight(c, b) == Utf.ShiftRight(c, b - 1) / 64
    decreases b
  {
    if b > 1 { ShiftDown(c / 64, b - 1); }
  }

  // Reading continuation bytes undoes writing them.
  lemma {:induction false} SextetsIff(v: int, t: bytes, c: nat)
    requires v >= 0 && forall i | 0 <= i < |t| :: 0x80 <= t[i] < 0xC0
    ensures Sextets(v, t) == c <==> Utf.ShiftRight(c, |t|) == v && Utf.Tail(c, |t|) == t
    decreases t
  {
    if t != [] {
      var x, b := t[0] as int - 0x80, |t| - 1;
      SextetsIff(v * 64 + x, t[1..], c);
      ShiftDown(c, b + 1);
      var u := Utf.Tail(c, b + 1);
      assert u[1..] == Utf.Tail(c, b) && u[0] == Utf.PayloadByte(c, b);
      if u == t { assert u[0] == t[0] && u[1..] == t[1..]; }
      if u[0] == t[0] && u[1..] == t[1..] { assert u == [u[0]] + u[1..] && t == [t[0]] + t[1..]; }
    }
  }

  lemma MultibyteIs(w: bytes, c: nat)
    requires 0x80 <= c <= 0x7FFF_FFFF
    ensures IsMultibyte(w, c) <==> w == Utf.Encode(c)
  {
    hide Utf.ShiftRight, Utf.Tail, Sextets;
    var b := Utf.Payload(c);
    var e := Utf.Encode(c);
    Utf.HeadFits(c, b);
    TailIs(c, b);
    HeadRange(c, b);
    assert e[0] == Utf.HeadMark(b) + Utf.ShiftRight(c, b) && e[1..] == Utf.Tail(c, b);
    assert LeadMark(b + 1) == Utf.HeadMark(b);
    SextetsIff(Utf.ShiftRight(c, b), Utf.Tail(c, b), c);
    if IsMultibyte(w, c) {
      SextetsIff(w[0] as int - LeadMark(|w|), w[1..], c);
      Longest(w, c);
      assert w == [w[0]] + w[1..] && e == [e[0]] + e[1..];
    }
  }

  lemma {:induction false} TailIs(c: nat, b: nat)
    ensures |Utf.Tail(c, b)| == b && forall i | 0 <= i < b :: 0x80 <= Utf.Tail(c, b)[i] < 0xC0
    decreases b
  {
    if b > 0 { TailIs(c, b - 1); }
  }

  lemma HeadRange(c: nat, b: nat)
    requires 0x80 <= c <= 0x7FFF_FFFF && b == Utf.Payload(c)
    ensures Utf.ShiftRight(c, b) < Room(b + 1)
  {
    Utf.ShiftValues(c);
  }

  // The bounds leave one length for each code.
  lemma Longest(w: bytes, c: nat)
    requires 0x80 <= c <= 0x7FFF_FFFF && IsMultibyte(w, c)
    requires Utf.ShiftRight(c, |w| - 1) == w[0] as int - LeadMark(|w|)
    ensures |w| == Utf.Payload(c) + 1
  {
    Utf.ShiftValues(c);
  }

  lemma CodeUnique(w: bytes, u: bytes, c: int)
    requires c <= 0x7FFF_FFFF && IsCode(w, c) && IsCode(u, c)
    ensures w == u
  {
    hide IsMultibyte, Utf.Encode;
    if c >= 0x80 {
      MultibyteIs(w, c);
      MultibyteIs(u, c);
    } else {
      assert w == [w[0]] && u == [u[0]] && (w[0] as int - u[0] as int) % 256 == 0;
    }
  }

  // ----- numbers -----

  lemma DigitIs(b: byte, base: nat)
    requires base == 10 || base == 16
    ensures IsDigitOf(b, base) <==> DigitIn(b, base) >= 0
    ensures IsDigitOf(b, base) ==> DigitIn(b, base) == DigitValue(b)
  {
  }

  // Where digits end, and their value.
  lemma {:induction false} DigitsAre(s: bytes, i: nat, e: nat, base: nat, v: nat)
    requires (base == 10 || base == 16) && i <= e <= |s| && (e < |s| ==> DigitIn(s[e], base) < 0)
    requires forall k | i <= k < e :: DigitIn(s[k], base) >= 0
    ensures XmlText.Digits(s, i, base, v).1 == e
    ensures XmlText.Digits(s, i, base, v).0 == v * Power(base, e - i) + Number(s[i..e], base)
    decreases e - i
  {
    if i < e {
      var d := DigitIn(s[i], base);
      DigitIs(s[i], base);
      DigitsAre(s, i + 1, e, base, v * base + d);
      assert s[i..e][0] == s[i] && s[i..e][1..] == s[i + 1..e];
      Horner(v, base, Power(base, e - i - 1), d);
    }
  }

  lemma Horner(v: int, base: int, p: int, d: int)
    ensures (v * base + d) * p == v * (base * p) + d * p
  {
  }

  lemma {:induction false} DigitsStop(s: bytes, i: nat, base: nat, v: nat)
    requires i <= |s|
    ensures var e := XmlText.Digits(s, i, base, v).1;
            && (forall k | i <= k < e :: DigitIn(s[k], base) >= 0) && (e < |s| ==> DigitIn(s[e], base) < 0)
            && (e == i ==> XmlText.Digits(s, i, base, v).0 == v)
    decreases |s| - i
  {
    if i < |s| && DigitIn(s[i], base) >= 0 { DigitsStop(s, i + 1, base, v * base + DigitIn(s[i], base)); }
  }

  lemma {:induction false} SpacesAre(s: bytes, i: nat, e: nat)
    requires i <= e <= |s| && (e < |s| ==> !IsSpace(s[e])) && forall k | i <= k < e :: IsSpace(s[k])
    ensures SpaceRun(s, i) == e
    decreases e - i
  {
    if i < e { SpacesAre(s, i + 1, e); }
  }

  lemma {:induction false} SpacesStop(s: bytes, i: nat)
    requires i <= |s|
    ensures var e := SpaceRun(s, i); (e < |s| ==> !IsSpace(s[e])) && forall k | i <= k < e :: IsSpace(s[k])
    decreases |s| - i
  {
    if i < |s| && IsSpace(s[i]) { SpacesStop(s, i + 1); }
  }

  // ----- character references -----

  // The reference that strtol sees behind the mark, digits and all.
  function Seen(s: bytes): (x: Reference)
    requires |s| >= 3
  {
    var base := SeenBase(s);
    var i := if base == 16 then 3 else 2;
    var j := SpaceRun(s, i);
    var k := SignEnd(s, j);
    var m := PrefixEnd(s, k, base);
    Reference(base == 16, s[i..j], s[j..k], s[k..m], s[m..XmlText.Digits(s, m, base, 0).1])
  }

  function SeenBase(s: bytes): nat
    requires |s| >= 3
  {
    if s[2] == LOWER_X then 16 else 10
  }

  lemma CharRefSound(s: bytes)
    requires CharRef(s).Some?
    ensures CharRefDenotes(s[..CharRef(s).value.1], CharRef(s).value.0)
  {
    hide Strtol, Wellformed, ReferenceText, Code, IsCode, Utf.Encode, Seen;
    SeenIs(s);
    CodeWritten(s, Seen(s));
  }

  lemma SeenIs(s: bytes)
    requires |s| >= 3 && s[0] == AMP && s[1] == HASH
    requires var r := Strtol(s, if s[2] == LOWER_X then 3 else 2, SeenBase(s));
             r.0 != 0 && r.1 < |s| && s[r.1] == SEMICOLON
    ensures var r := Strtol(s, if s[2] == LOWER_X then 3 else 2, SeenBase(s));
            Wellformed(Seen(s)) && Code(Seen(s)) == r.0 && ReferenceText(Seen(s)) == s[..r.1 + 1]
  {
    hide XmlText.Digits, SpaceRun, Number, ReferenceText, DigitIn, SignEnd, PrefixEnd, Wellformed;
    var i := if s[2] == LOWER_X then 3 else 2;
    var base := SeenBase(s);
    var j := SpaceRun(s, i);
    var k := SignEnd(s, j);
    var m := PrefixEnd(s, k, base);
    var e := XmlText.Digits(s, m, base, 0).1;
    SpacesStop(s, i);
    DigitsStop(s, m, base, 0);
    DigitsAre(s, m, e, base, 0);
    forall z | m <= z < e ensures IsDigitOf(s[z], base) { DigitIs(s[z], base); }
    SeenWellformed(s, j, k, m, e);
    SeenText(s, i, j, k, m, e);
  }

  lemma SeenWellformed(s: bytes, j: nat, k: nat, m: nat, e: nat)
    requires |s| >= 3 && j == SpaceRun(s, if s[2] == LOWER_X then 3 else 2) && k == SignEnd(s, j)
    requires m == PrefixEnd(s, k, SeenBase(s)) && m < e && e == XmlText.Digits(s, m, SeenBase(s), 0).1
    requires forall z | m <= z < e :: IsDigitOf(s[z], SeenBase(s))
    ensures Wellformed(Seen(s)) && (Seen(s).sign == Ascii("-") <==> k > j && s[j] == MINUS)
  {
    hide XmlText.Digits, SpaceRun, SignEnd, PrefixEnd;
    SpacesStop(s, if s[2] == LOWER_X then 3 else 2);
    SignText(s, j);
    PrefixText(s, k, SeenBase(s));
  }

  lemma SignText(s: bytes, j: nat)
    requires j <= |s|
    ensures var t := s[j..SignEnd(s, j)];
            && (t == [] || t == Ascii("+") || t == Ascii("-"))
            && (t == Ascii("-") <==> SignEnd(s, j) > j && s[j] == MINUS)
  {
    var t := s[j..SignEnd(s, j)];
    if SignEnd(s, j) > j { assert t == [s[j]] && Ascii("+")[0] == PLUS && Ascii("-")[0] == MINUS; }
  }

  lemma PrefixText(s: bytes, k: nat, base: nat)
    requires k <= |s|
    ensures var t := s[k..PrefixEnd(s, k, base)];
            t == [] || (base == 16 && (t == Ascii("0x") || t == Ascii("0X")))
  {
    if PrefixEnd(s, k, base) > k { assert s[k..k + 2] == [s[k], s[k + 1]]; }
  }

  lemma SeenText(s: bytes, i: nat, j: nat, k: nat, m: nat, e: nat)
    requires |s| >= 3 && s[0] == AMP && s[1] == HASH && i == if s[2] == LOWER_X then 3 else 2
    requires i <= j <= k <= m <= e < |s| && s[e] == SEMICOLON
    requires Seen(s) == Reference(s[2] == LOWER_X, s[i..j], s[j..k], s[k..m], s[m..e])
    ensures ReferenceText(Seen(s)) == s[..e + 1]
  {
    hide Seen;
    var z := e + 1;
    SliceSplit(s, m, e, z);
    SliceSplit(s, k, m, z);
    SliceSplit(s, j, k, z);
    SliceSplit(s, i, j, z);
    assert s[e..z] == Ascii(";");
    assert s[..i] == if s[2] == LOWER_X then Ascii("&#x") else Ascii("&#");
    assert s[..z] == s[..i] + s[i..z];
  }

  // Where the parts of a reference at the front of s stand.
  lemma Placed(x: Reference, s: bytes)
    requires At(s, 0, ReferenceText(x))
    ensures var i := if x.hex then 3 else 2;
            var j := i + |x.spaces|;
            var k := j + |x.sign|;
            var m := k + |x.prefix|;
            var e := m + |x.digits|;
            && e < |s| && s[0] == AMP && s[1] == HASH && (x.hex ==> s[2] == LOWER_X) && s[e] == SEMICOLON
            && |ReferenceText(x)| == e + 1
            && At(s, i, x.spaces) && At(s, j, x.sign) && At(s, k, x.prefix) && At(s, m, x.digits)
  {
    hide At;
    var mark, end := if x.hex then Ascii("&#x") else Ascii("&#"), Ascii(";");
    var rest := x.spaces + (x.sign + (x.prefix + (x.digits + end)));
    AtSplit(s, 0, mark, rest);
    AtIndex(s, 0, mark, 0);
    AtIndex(s, 0, mark, 1);
    if x.hex { AtIndex(s, 0, mark, 2); }
    FivePlaced(s, |mark|, x.spaces, x.sign, x.prefix, x.digits, end);
    AtIndex(s, |mark| + |rest| - 1, end, 0);
  }

  lemma FivePlaced(s: bytes, i: nat, a: bytes, b: bytes, c: bytes, d: bytes, e: bytes)
    requires At(s, i, a + (b + (c + (d + e))))
    ensures At(s, i, a) && At(s, i + |a|, b) && At(s, i + |a| + |b|, c)
    ensures At(s, i + |a| + |b| + |c|, d) && At(s, i + |a| + |b| + |c| + |d|, e)
  {
    hide At;
    AtSplit(s, i, a, b + (c + (d + e)));
    AtSplit(s, i + |a|, b, c + (d + e));
    AtSplit(s, i + |a| + |b|, c, d + e);
    AtSplit(s, i + |a| + |b| + |c|, d, e);
  }

  lemma CharRefComplete(s: bytes, n: nat, w: bytes)
    requires n <= |s| && CharRefDenotes(s[..n], w)
    ensures CharRef(s) == Some((w, n))
  {
    hide XmlText.Digits, SpaceRun, Number, IsCode, Utf.Encode, ReferenceText, DigitIn, Strtol, At;
    var x :| Wellformed(x) && ReferenceText(x) == s[..n] && Code(x) != 0 && Code(x) <= 0x7FFF_FFFF
      && IsCode(w, Code(x));
    assert At(s, 0, ReferenceText(x)) by { AtFront(s, n); }
    Placed(x, s);
    FrontByte(x, s);
    StrtolReads(x, s);
    CodeWritten(s, x);
    CodeUnique(w, CharRef(s).value.0, Code(x));
  }

  lemma AtFront(s: bytes, n: nat)
    requires n <= |s|
    ensures At(s, 0, s[..n])
  {
    assert s[0..n] == s[..n];
  }

  lemma CodeWritten(s: bytes, x: Reference)
    requires CharRef(s).Some? && Code(x) <= 0x7FFF_FFFF
    requires CharRef(s).value.0 == if Code(x) < 0x80 then [Code(x) % 256] else Utf.Encode(Code(x))
    ensures IsCode(CharRef(s).value.0, Code(x))
  {
    if Code(x) >= 0x80 { MultibyteIs(Utf.Encode(Code(x)), Code(x)); }
  }

  // Behind the mark stands no x when the digits are decimal.
  lemma FrontByte(x: Reference, s: bytes)
    requires Wellformed(x) && At(s, 0, ReferenceText(x))
    ensures |s| >= 3 && (s[2] == LOWER_X <==> x.hex)
  {
    Placed(x, s);
    if !x.hex {
      if x.spaces != [] { AtIndex(s, 2, x.spaces, 0); }
      else if x.sign != [] { AtIndex(s, 2, x.sign, 0); }
      else { AtIndex(s, 2, x.digits, 0); }
    }
  }

  lemma StrtolReads(x: Reference, s: bytes)
    requires Wellformed(x) && At(s, 0, ReferenceText(x))
    ensures Strtol(s, if x.hex then 3 else 2, Base(x)) == (Code(x), |ReferenceText(x)| - 1)
  {
    hide XmlText.Digits, SpaceRun, Number, ReferenceText, At, DigitIn, SignEnd, PrefixEnd, Wellformed;
    Placed(x, s);
    var i := if x.hex then 3 else 2;
    var j := i + |x.spaces|;
    var k := j + |x.sign|;
    var m := k + |x.prefix|;
    DigitsRead(x, s, m);
    FrontRead(x, s, i, j, k, m);
    AtIs(s, m, x.digits);
  }

  lemma DigitsRead(x: Reference, s: bytes, m: nat)
    requires Wellformed(x) && At(s, m, x.digits) && m + |x.digits| < |s| && s[m + |x.digits|] == SEMICOLON
    ensures XmlText.Digits(s, m, Base(x), 0) == (Number(s[m..m + |x.digits|], Base(x)), m + |x.digits|)
    ensures forall z | m <= z < m + |x.digits| :: IsDigitOf(s[z], Base(x))
  {
    hide XmlText.Digits, Number, At;
    var e := m + |x.digits|;
    forall z | m <= z < e ensures IsDigitOf(s[z], Base(x)) && DigitIn(s[z], Base(x)) >= 0 {
      AtIndex(s, m, x.digits, z - m);
      DigitIs(s[z], Base(x));
    }
    DigitsAre(s, m, e, Base(x), 0);
  }

  // Spaces, sign and prefix end where they should.
  lemma FrontRead(x: Reference, s: bytes, i: nat, j: nat, k: nat, m: nat)
    requires Wellformed(x) && j == i + |x.spaces| && k == j + |x.sign| && m == k + |x.prefix|
    requires At(s, i, x.spaces) && At(s, j, x.sign) && At(s, k, x.prefix)
    requires m + |x.digits| < |s| && s[m + |x.digits|] == SEMICOLON
    requires forall z | m <= z < m + |x.digits| :: IsDigitOf(s[z], Base(x))
    ensures SpaceRun(s, i) == j && SignEnd(s, j) == k && PrefixEnd(s, k, Base(x)) == m
    ensures x.sign == Ascii("-") <==> k > j && s[j] == MINUS
  {
    hide SpaceRun, At;
    forall z | i <= z < j ensures IsSpace(s[z]) { AtIndex(s, i, x.spaces, z - i); }
    if x.sign != [] { AtIndex(s, j, x.sign, 0); }
    if x.prefix != [] {
      AtIndex(s, k, x.prefix, 0);
      AtIndex(s, k, x.prefix, 1);
    }
    assert IsDigitOf(s[m], Base(x));
    if |x.digits| > 1 { assert IsDigitOf(s[m + 1], Base(x)); }
    SpacesAre(s, i, j);
  }

  // ----- references and text -----

  lemma EntitySound(s: bytes)
    requires Entity(s).Some?
    ensures EntityDenotes(s[..Entity(s).value.1], [Entity(s).value.0])
  {
    Texts();
    if At(s, 0, LT_REF) { AtPrefix(s, LT_REF); }
    else if At(s, 0, GT_REF) { AtPrefix(s, GT_REF); }
    else if At(s, 0, QUOT_REF) { AtPrefix(s, QUOT_REF); }
    else if At(s, 0, APOS_REF) { AtPrefix(s, APOS_REF); }
    else { AtPrefix(s, AMP_REF); }
  }

  lemma Texts()
    ensures LT_REF == Ascii("&lt;") && GT_REF == Ascii("&gt;") && AMP_REF == Ascii("&amp;")
    ensures QUOT_REF == Ascii("&quot;") && APOS_REF == Ascii("&apos;")
  {
  }

  lemma AtPrefix(s: bytes, t: bytes)
    requires At(s, 0, t)
    ensures |t| <= |s| && s[..|t|] == t
  {
    assert s[0..|t|] == s[..|t|];
  }

  lemma EntityComplete(s: bytes, n: nat, w: bytes)
    requires n <= |s| && EntityDenotes(s[..n], w)
    ensures CharRef(s) == None && Entity(s).Some? && Entity(s).value.1 == n && w == [Entity(s).value.0]
  {
    hide Entity, CharRef;
    Texts();
    EntityRef(s[..n], s[n..]);
    assert s[..n] + s[n..] == s;
  }

  // A reference of the syntax stands at the front of s exactly when the decoder sees one, for the same bytes.
  lemma RefersIff(s: bytes, n: nat, w: bytes)
    ensures RefersTo(s, n, w) <==>
            || CharRef(s) == Some((w, n))
            || (CharRef(s) == None && Entity(s).Some? && Entity(s).value.1 == n && w == [Entity(s).value.0])
  {
    hide CharRef, Entity, CharRefDenotes, EntityDenotes;
    if n <= |s| {
      if CharRefDenotes(s[..n], w) { CharRefComplete(s, n, w); }
      if EntityDenotes(s[..n], w) { EntityComplete(s, n, w); }
    }
    if CharRef(s).Some? { CharRefSound(s); }
    if Entity(s).Some? { EntitySound(s); }
  }

  // The one-pass decoding is what the syntax says.
  lemma {:induction false} ResolvesIff(t: bytes, attr: bool, w: bytes)
    ensures Resolves(t, attr, w) <==> w == Decoded(t, attr)
    decreases |t|
  {
    hide CharRef, Entity, RefersTo;
    if t != [] {
      ResolvesFirst(t);
      if CharRef(t).Some? || Entity(t).Some? {
        var (v, n) := if CharRef(t).Some? then CharRef(t).value else ([Entity(t).value.0], Entity(t).value.1);
        OneReference(t, n, v);
        assert exists k: nat, u :: RefersTo(t, k, u);
        if v <= w { ResolvesIff(t[n..], attr, w[|v|..]); }
        assert w == v + Decoded(t[n..], attr) <==> v <= w && w[|v|..] == Decoded(t[n..], attr) by {
          if v <= w { assert w == v + w[|v|..]; }
          assert (v + Decoded(t[n..], attr))[|v|..] == Decoded(t[n..], attr);
        }
      } else {
        if w != [] {
          ResolvesIff(t[1..], attr, w[1..]);
          assert w == [w[0]] + w[1..];
        }
        assert t[..1] == [t[0]];
      }
    }
  }

  lemma ResolvesFirst(t: bytes)
    ensures (exists n: nat, v :: RefersTo(t, n, v)) <==> CharRef(t).Some? || Entity(t).Some?
  {
    hide CharRef, Entity, RefersTo;
    if exists n: nat, v :: RefersTo(t, n, v) {
      var n: nat, v :| RefersTo(t, n, v);
      RefersIff(t, n, v);
    }
    if CharRef(t).Some? {
      RefersIff(t, CharRef(t).value.1, CharRef(t).value.0);
    } else if Entity(t).Some? {
      RefersIff(t, Entity(t).value.1, [Entity(t).value.0]);
    }
  }

  lemma OneReference(t: bytes, n: nat, v: bytes)
    requires CharRef(t) == Some((v, n)) || (CharRef(t) == None && |v| == 1 && Entity(t) == Some((v[0], n)))
    ensures forall k: nat, u :: RefersTo(t, k, u) <==> k == n && u == v
  {
    hide CharRef, Entity, RefersTo;
    forall k: nat, u ensures RefersTo(t, k, u) <==> k == n && u == v {
      RefersIff(t, k, u);
      assert |v| == 1 ==> v == [v[0]];
    }
  }

  // ezxml_decode gives exactly what the text stands for.
  lemma ReadsIff(t: bytes, attr: bool, s: bytes)
    ensures Reads(t, attr, s) <==> s == DecodeText(t, attr)
  {
    hide Decoded, Resolves, CString, Normalized;
    var m := Normalized(t);
    ResolvesIff(m, attr, Decoded(m, attr));
    if Reads(t, attr, s) {
      var w :| Resolves(m, attr, w) && s == CString(w);
      ResolvesIff(m, attr, w);
    }
  }

  // Line ends, whichever of the three they are, become line feeds; nothing else changes.
  lemma {:induction false} LineEnds(line: bytes, end: bytes, rest: bytes)
    requires CR !in line && LF !in line
    requires end == [CR, LF] || end == [LF] || (end == [CR] && (rest == [] || rest[0] != LF))
    ensures Normalized(line) == line && Normalized(line + (end + rest)) == line + ([LF] + Normalized(rest))
    decreases line
  {
    if line == [] {
      OneEnd(end, rest);
      assert [] + (end + rest) == end + rest;
    } else {
      LineEnds(line[1..], end, rest);
      assert (line + (end + rest))[1..] == line[1..] + (end + rest);
      PlainFirst(line);
      PlainFirst(line + (end + rest));
      hide Normalized;
      assert line == [line[0]] + line[1..];
    }
  }

  lemma PlainFirst(t: bytes)
    requires t != [] && t[0] != CR
    ensures Normalized(t) == [t[0]] + Normalized(t[1..])
  {
  }

  lemma OneEnd(end: bytes, rest: bytes)
    requires end == [CR, LF] || end == [LF] || (end == [CR] && (rest == [] || rest[0] != LF))
    ensures Normalized(end + rest) == [LF] + Normalized(rest)
  {
    var t := end + rest;
    assert t[|end|..] == rest;
  }
}
