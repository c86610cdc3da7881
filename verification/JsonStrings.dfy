// Reading string literals: parse_string takes exactly the literals of the grammar, with their meaning.
module JsonStrings {
  import opened Bytes
  import opened JsonParse
  import opened JsonGrammar
  import Utf

  // ----- hexadecimal groups -----

  lemma HexDigitIs(b: byte, d: nat)
    ensures IsHexDigit(b, d) <==> HexValue(b) == d
  {
  }

  lemma Quotients(a: nat, b: nat, d: nat, e: nat)
    requires a < 16 && b < 16 && d < 16 && e < 16
    ensures var u := ((a * 16 + b) * 16 + d) * 16 + e;
            u < 0x10000 && u / 4096 == a && u / 256 % 16 == b && u / 16 % 16 == d && u % 16 == e
  {
    var u := ((a * 16 + b) * 16 + d) * 16 + e;
    assert u / 16 == (a * 16 + b) * 16 + d;
    assert u / 16 / 16 == a * 16 + b && u / 256 == u / 16 / 16;
    assert u / 256 / 16 == a && u / 4096 == u / 256 / 16;
  }

  predicate Hexadecimal(c: bytes, i: nat)
    requires i + 4 <= |c|
  {
    HexValue(c[i]) >= 0 && HexValue(c[i + 1]) >= 0 && HexValue(c[i + 2]) >= 0 && HexValue(c[i + 3]) >= 0
  }

  lemma Hex4Is(c: bytes, i: nat, u: nat)
    requires i + 4 <= |c|
    ensures Spells(c[i..i + 4], u) <==> Hexadecimal(c, i) && Hex4(c, i) == u
    ensures !Hexadecimal(c, i) ==> Hex4(c, i) == 0
  {
    var h := c[i..i + 4];
    assert h[0] == c[i] && h[1] == c[i + 1] && h[2] == c[i + 2] && h[3] == c[i + 3];
    if Hexadecimal(c, i) {
      Quotients(HexValue(c[i]), HexValue(c[i + 1]), HexValue(c[i + 2]), HexValue(c[i + 3]));
    }
    if Spells(h, u) {
      HexDigitIs(h[0], u / 4096);
      HexDigitIs(h[1], u / 256 % 16);
      HexDigitIs(h[2], u / 16 % 16);
      HexDigitIs(h[3], u % 16);
      Recombined(u);
    }
  }

  lemma Recombined(u: nat)
    requires u < 0x10000
    ensures ((u / 4096 * 16 + u / 256 % 16) * 16 + u / 16 % 16) * 16 + u % 16 == u
  {
    assert u / 16 / 16 == u / 256 && u / 256 / 16 == u / 4096;
    assert u == u / 16 * 16 + u % 16;
    assert u / 16 == u / 256 * 16 + u / 16 % 16;
    assert u / 256 == u / 4096 * 16 + u / 256 % 16;
  }

  lemma CodeIs(w: bytes, cp: nat)
    ensures IsCode(w, cp) <==> Utf.Scalar(cp) && w == Utf8(cp)
  {
    hide Utf8, Utf.FirstCode;
    if Utf.Scalar(cp) {
      var t := Utf8(cp);
      Utf.FirstCodeInverse(cp, []);
      Utf.NothingDecoded();
      assert t + [] == t && t[|t|..] == [] && [cp] + [] == [cp];
      if IsCode(w, cp) { Utf.DecodeUtf8Injective(w, t); }
    } else if IsCode(w, cp) {
      Utf.FirstCodeUnique(w);
      assert Utf.DecodeUtf8(w).value[0] == Utf.FirstCode(w).value.0;
    }
  }

  // ----- one piece -----

  lemma LiteralSound(c: bytes, p: nat, e: nat) returns (x: Piece)
    requires p < e < |c| && c[p] == BACKSLASH && c[p + 1] == LOWER_U && Literal(c, p, e).Ok?
    ensures PieceDenotes(x, Literal(c, p, e).value) && PieceText(x) == c[p..Literal(c, p, e).end]
  {
    hide Hex4, Utf8, IsCode, Spells, Hexadecimal;
    var u := Hex4(c, p + 2);
    var h := c[p + 2..p + 6];
    Hex4Is(c, p + 2, u);
    assert c[p..p + 6] == [BACKSLASH, 117] + h;
    if HighSurrogate(u) {
      var v, l := Hex4(c, p + 8), c[p + 8..p + 12];
      Hex4Is(c, p + 8, v);
      assert c[p..p + 12] == c[p..p + 6] + [BACKSLASH, 117] + l;
      CombineIs(u, v);
      CodeIs(Utf8(Combine(u, v)), Combine(u, v));
      x := Pair(h, l);
    } else {
      if Hexadecimal(c, p + 2) {
        CodeIs(Utf8(u), u);
      } else {
        forall k: nat ensures !Spells(h, k) { Hex4Is(c, p + 2, k); }
        ZeroIs();
      }
      x := Unit(h);
    }
  }

  lemma ZeroIs()
    ensures Utf8(0) == [NUL]
  {
  }

  lemma CombineIs(u: nat, v: nat)
    requires HighSurrogate(u) && LowSurrogate(v)
    ensures Combine(u, v) == 0x10000 + (u - 0xD800) * 1024 + (v - 0xDC00)
  {
  }

  // One turn of the second pass writes what a piece of the grammar stands for.
  lemma StepSound(c: bytes, p: nat, e: nat) returns (x: Piece)
    requires p < e < |c| && UnescapeStep(c, p, e).Ok?
    ensures var r := UnescapeStep(c, p, e);
            && PieceDenotes(x, r.value) && PieceText(x) == c[p..r.end] && (r.end <= e || x.Short?)
  {
    hide Literal, Spells, IsCode;
    if c[p] != BACKSLASH {
      x := Raw(c[p]);
    } else if ShortEscapeChar(c[p + 1]) {
      x := Short(c[p + 1]);
      assert c[p..p + 2] == [BACKSLASH, c[p + 1]];
    } else {
      x := LiteralSound(c, p, e);
      assert Literal(c, p, e).end <= e;
    }
  }

  // And what a piece at p stands for is written.
  lemma StepComplete(c: bytes, p: nat, e: nat, x: Piece, w: bytes)
    requires p < e < |c| && PieceDenotes(x, w) && At(c, p, PieceText(x)) && (p + |PieceText(x)| <= e || x.Short?)
    ensures UnescapeStep(c, p, e) == Ok(w, p + |PieceText(x)|)
  {
    hide Literal, Spells, IsCode, At;
    AtIndex(c, p, PieceText(x), 0);
    match x
    case Raw(_) =>
    case Short(_) => AtIndex(c, p, PieceText(x), 1);
    case Unit(h) =>
      AtIndex(c, p, PieceText(x), 1);
      UnitRead(c, p, e, h, w);
    case Pair(h, l) =>
      AtIndex(c, p, PieceText(x), 1);
      PairRead(c, p, e, h, l, w);
  }

  lemma UnitRead(c: bytes, p: nat, e: nat, h: bytes, w: bytes)
    requires PieceDenotes(Unit(h), w) && At(c, p, [BACKSLASH, 117] + h) && p + 6 <= e < |c|
    ensures Literal(c, p, e) == Ok(w, p + 6)
  {
    hide Hex4, Utf8, IsCode, Spells, Hexadecimal;
    AtSplit(c, p, [BACKSLASH, 117], h);
    var u := Hex4(c, p + 2);
    Hex4Is(c, p + 2, u);
    if Hexadecimal(c, p + 2) {
      var k: nat :| Spells(h, k) && IsCode(w, k);
      Hex4Is(c, p + 2, k);
      CodeIs(w, u);
    } else {
      forall k: nat ensures !Spells(h, k) { Hex4Is(c, p + 2, k); }
      ZeroIs();
    }
  }

  lemma PairRead(c: bytes, p: nat, e: nat, h: bytes, l: bytes, w: bytes)
    requires PieceDenotes(Pair(h, l), w) && At(c, p, [BACKSLASH, 117] + h + [BACKSLASH, 117] + l)
    requires p + 4 + |h| + |l| <= e < |c|
    ensures |h| == |l| == 4 && Literal(c, p, e) == Ok(w, p + 12)
  {
    hide Hex4, Utf8, IsCode, Hexadecimal, At;
    var u: nat, v: nat :| Spells(h, u) && Spells(l, v) && 0xD800 <= u < 0xDC00 && 0xDC00 <= v < 0xE000
      && IsCode(w, 0x10000 + (u - 0xD800) * 1024 + (v - 0xDC00));
    AtSplit(c, p, [BACKSLASH, 117] + h + [BACKSLASH, 117], l);
    AtSplit(c, p, [BACKSLASH, 117] + h, [BACKSLASH, 117]);
    AtSplit(c, p, [BACKSLASH, 117], h);
    AtIndex(c, p + 6, [BACKSLASH, 117], 0);
    AtIndex(c, p + 6, [BACKSLASH, 117], 1);
    hide Spells;
    AtIs(c, p + 2, h);
    AtIs(c, p + 8, l);
    Hex4Is(c, p + 2, u);
    Hex4Is(c, p + 8, v);
    CombineIs(u, v);
    CodeIs(w, Combine(u, v));
  }

  // ----- the two passes -----

  // The second pass over what is left of a literal whose closing quote is at e.
  ghost predicate Rest(c: bytes, p: nat, e: nat, w: bytes)
    requires p <= e + 1 && e < |c|
  {
    Unescapes(c[p..e + 1], e - p, w)
  }

  lemma RestStep(c: bytes, p: nat, e: nat, x: Piece, v: bytes, w: bytes)
    requires p < e < |c| && PieceDenotes(x, v) && At(c, p, PieceText(x)) && (p + |PieceText(x)| <= e || x.Short?)
    requires p + |PieceText(x)| <= e + 1 && Rest(c, p + |PieceText(x)|, e, w)
    ensures Rest(c, p, e, v + w)
  {
    hide PieceDenotes, PieceText;
    var t, n := c[p..e + 1], |PieceText(x)|;
    assert t[..n] == c[p..p + n];
    assert t[n..] == c[p + n..e + 1];
    assert (v + w)[|v|..] == w;
    assert Leads(t, e - p, v + w, x, v);
  }

  lemma {:induction false} UnescapeSound(c: bytes, p: nat, e: nat)
    requires p <= e + 1 && e < |c| && Unescape(c, p, e).Ok?
    ensures Rest(c, p, e, Unescape(c, p, e).value)
    decreases e + 1 - p
  {
    hide UnescapeStep, PieceDenotes, PieceText;
    if p < e {
      var q := UnescapeStep(c, p, e).end;
      var x := StepSound(c, p, e);
      UnescapeSound(c, q, e);
      RestStep(c, p, e, x, UnescapeStep(c, p, e).value, Unescape(c, q, e).value);
    }
  }

  lemma FirstPiece(t: bytes, stop: int, w: bytes) returns (x: Piece, v: bytes)
    requires stop > 0 && Unescapes(t, stop, w)
    ensures Leads(t, stop, w, x, v) && Unescapes(t[|PieceText(x)|..], stop - |PieceText(x)|, w[|v|..])
  {
    hide PieceDenotes, PieceText;
    x, v :| Leads(t, stop, w, x, v) && Unescapes(t[|PieceText(x)|..], stop - |PieceText(x)|, w[|v|..]);
  }

  lemma RestSplit(c: bytes, p: nat, e: nat, w: bytes) returns (x: Piece, v: bytes, rest: bytes)
    requires p < e < |c| && Rest(c, p, e, w)
    ensures PieceDenotes(x, v) && (p + |PieceText(x)| <= e || x.Short?) && w == v + rest
    ensures p + |PieceText(x)| <= e + 1 && At(c, p, PieceText(x)) && Rest(c, p + |PieceText(x)|, e, rest)
  {
    hide PieceDenotes, PieceText, Unescapes;
    var t := c[p..e + 1];
    x, v := FirstPiece(t, e - p, w);
    var n := |PieceText(x)|;
    rest := w[|v|..];
    assert c[p..p + n] == t[..n] && c[p + n..e + 1] == t[n..];
  }

  lemma RestEnd(c: bytes, p: nat, e: nat, w: bytes)
    requires e <= p <= e + 1 && e < |c| && Rest(c, p, e, w)
    ensures w == []
  {
  }

  lemma {:induction false} UnescapeComplete(c: bytes, p: nat, e: nat, w: bytes)
    requires p <= e + 1 && e < |c| && Rest(c, p, e, w)
    ensures Unescape(c, p, e).Ok? && Unescape(c, p, e).value == w
    decreases e + 1 - p
  {
    hide UnescapeStep, PieceDenotes, PieceText, Rest, At;
    if p >= e {
      RestEnd(c, p, e, w);
    } else {
      var x, v, rest := RestSplit(c, p, e, w);
      StepComplete(c, p, e, x, v);
      UnescapeComplete(c, p + |PieceText(x)|, e, rest);
    }
  }

  lemma {:induction false} ScanSound(c: bytes, i: nat)
    requires i <= |c| && ScanString(c, i).Ok?
    ensures Unquoted(c[i..ScanString(c, i).end])
    decreases |c| - i
  {
    var e := ScanString(c, i).end;
    var t := c[i..e];
    if c[i] == BACKSLASH {
      ScanSound(c, i + 2);
      assert t[2..] == c[i + 2..e];
    } else if c[i] != QUOTE {
      ScanSound(c, i + 1);
      assert t[1..] == c[i + 1..e];
    }
  }

  lemma {:induction false} ScanComplete(c: bytes, i: nat, e: nat)
    requires i <= e < |c| && c[e] == QUOTE && Unquoted(c[i..e])
    ensures ScanString(c, i).Ok? && ScanString(c, i).end == e
    decreases e - i
  {
    var t := c[i..e];
    if i < e {
      if c[i] == BACKSLASH {
        assert t[2..] == c[i + 2..e];
        ScanComplete(c, i + 2, e);
      } else {
        assert t[1..] == c[i + 1..e];
        ScanComplete(c, i + 1, e);
      }
    }
  }

  // ----- parse_string -----

  // What parse_string takes is a literal for the string it gives.
  lemma StringSound(c: bytes, off: nat)
    requires Terminated(c) && off < |c| && ParseString(c, off).Ok?
    ensures LiteralDenotes(c[off..ParseString(c, off).end], ParseString(c, off).value)
  {
    hide ScanString, Unescape, Unescapes, Unquoted, CString;
    var e := ScanString(c, off + 1).end;
    ScanSound(c, off + 1);
    UnescapeSound(c, off + 1, e);
    Inside(c, off, e);
    assert Unescapes(c[off..e + 1][1..], |c[off..e + 1]| - 2, Unescape(c, off + 1, e).value);
  }

  lemma Inside(c: bytes, off: nat, e: nat)
    requires off < e < |c|
    ensures var t := c[off..e + 1]; t[1..] == c[off + 1..e + 1] && t[1..|t| - 1] == c[off + 1..e]
  {
    var t := c[off..e + 1];
    var a, b := t[1..|t| - 1], c[off + 1..e];
    assert |a| == |b|;
    assert forall i | 0 <= i < |a| :: a[i] == b[i];
  }

  // Wherever a literal stands, parse_string takes it and gives its string.
  lemma StringComplete(c: bytes, off: nat, e: nat, s: bytes)
    requires Terminated(c) && off < e < |c| && LiteralDenotes(c[off..e], s)
    ensures ParseString(c, off) == Ok(s, e) && c[off] == QUOTE
  {
    hide ScanString, Unescape, Unescapes, Unquoted, CString;
    var t := c[off..e];
    Inside(c, off, e - 1);
    assert t[0] == c[off] && t[|t| - 1] == c[e - 1];
    var w :| Unescapes(t[1..], |t| - 2, w) && s == CString(w);
    ScanComplete(c, off + 1, e - 1);
    UnescapeComplete(c, off + 1, e - 1, w);
  }
}
