// Which of the texts that denote a string or an integer is printed: the shortest literal that section 7 of
// RFC 8259 allows, and the decimal without a leading zero.
module JsonSpelling {
  import opened Bytes
  import opened JsonValue
  import opened JsonGrammar
  import JsonNumber
  import JsonStrings
  import Utf

  // ----- strings -----

  // A byte that the standard lets stand for itself.
  predicate Unescaped(b: byte) {
    b >= 32 && b as char != '"' && b as char != '\\'
  }

  // The table of escapes: two bytes where there are such, else a group in lower case.
  lemma EscapeIs(b: byte)
    ensures Unescaped(b) ==> EscapeByte(b) == [b]
    ensures b as char == '"' ==> EscapeByte(b) == Ascii("\\\"")
    ensures b as char == '\\' ==> EscapeByte(b) == Ascii("\\\\")
    ensures b == 8 ==> EscapeByte(b) == Ascii("\\b")
    ensures b == 9 ==> EscapeByte(b) == Ascii("\\t")
    ensures b == 10 ==> EscapeByte(b) == Ascii("\\n")
    ensures b == 12 ==> EscapeByte(b) == Ascii("\\f")
    ensures b == 13 ==> EscapeByte(b) == Ascii("\\r")
    ensures b < 8 || b == 11 || 14 <= b < 32 ==>
              exists h, l :: IsHexDigit(h, b / 16) && IsHexDigit(l, b % 16) && !('A' <= l as char <= 'F')
                             && EscapeByte(b) == Ascii("\\u00") + [h, l]
  {
    if b < 8 || b == 11 || 14 <= b < 32 {
      var h, l := HexDigit(b / 16), HexDigit(b % 16);
      assert EscapeByte(b) == Ascii("\\u00") + [h, l];
      assert IsHexDigit(h, b / 16) && IsHexDigit(l, b % 16);
    } else if !Unescaped(b) {
      assert EscapeByte(b) == [92, ShortEscape(b)];
    }
  }

  // A string is printed as it is exactly when every byte may stand for itself.
  lemma {:induction false} PlainIff(s: bytes)
    ensures Escaped(s) == s <==> forall i | 0 <= i < |s| :: Unescaped(s[i])
    ensures |Escaped(s)| >= |s|
  {
    if s != [] {
      PlainIff(s[1..]);
      EscapeIs(s[0]);
      var t := Escaped(s);
      assert s == [s[0]] + s[1..];
      if EscapeByte(s[0]) == [s[0]] {
        assert t[1..] == Escaped(s[1..]);
      }
    }
  }

  // Pieces the standard allows at the front of t, for all of t and all of s.
  ghost predicate StrictBody(t: bytes, s: bytes)
    decreases |t|
  {
    if t == [] then s == []
    else exists p, v :: Strict(p, v) && PieceText(p) <= t && v <= s && StrictBody(t[|PieceText(p)|..], s[|v|..])
  }

  ghost predicate Strict(p: Piece, v: bytes) {
    PieceDenotes(p, v) && (p.Raw? ==> Unescaped(p.b))
  }

  // No literal of the standard that denotes s is shorter than the printed one.
  lemma {:induction false} Shortest(t: bytes, s: bytes)
    requires StrictBody(t, s) && NulFree(s)
    ensures |Escaped(s)| <= |t|
    decreases |t|
  {
    hide Strict, PieceText, Escaped;
    if t == [] {
      EscapedConcat([], []);
    } else {
      var p, v :| Strict(p, v) && PieceText(p) <= t && v <= s && StrictBody(t[|PieceText(p)|..], s[|v|..]);
      Shortest(t[|PieceText(p)|..], s[|v|..]);
      assert s == v + s[|v|..];
      assert NulFree(v) by { assert forall i | 0 <= i < |v| :: v[i] == s[i]; }
      EscapedConcat(v, s[|v|..]);
      PieceLength(p, v);
    }
  }

  lemma {:induction false} EscapedConcat(a: bytes, b: bytes)
    ensures Escaped(a + b) == Escaped(a) + Escaped(b) && Escaped([]) == []
  {
    hide EscapeByte;
    if a == [] {
      assert a + b == b;
    } else {
      EscapedConcat(a[1..], b);
      assert (a + b)[1..] == a[1..] + b;
      var x, y, z := EscapeByte(a[0]), Escaped(a[1..]), Escaped(b);
      assert x + (y + z) == (x + y) + z;
    }
  }

  lemma PieceLength(p: Piece, v: bytes)
    requires Strict(p, v) && NulFree(v)
    ensures |Escaped(v)| <= |PieceText(p)|
  {
    hide IsCode, Spells;
    match p
    case Raw(b) =>
      assert v[1..] == [];
      EscapeIs(b);
    case Short(e) =>
      assert v[1..] == [] && |EscapeByte(v[0])| <= 2;
    case Unit(h) =>
      NotNul(v);
      var u: nat :| Spells(h, u) && IsCode(v, u);
      CodeLength(v, u);
    case Pair(h, l) =>
      var u: nat, w: nat :| Spells(h, u) && Spells(l, w) && 0xD800 <= u < 0xDC00
        && 0xDC00 <= w < 0xE000 && IsCode(v, 0x10000 + (u - 0xD800) * 1024 + (w - 0xDC00));
      CodeLength(v, 0x10000 + (u - 0xD800) * 1024 + (w - 0xDC00));
      FourDigits(h, u);
      FourDigits(l, w);
  }

  lemma FourDigits(h: bytes, u: nat)
    requires Spells(h, u)
    ensures |h| == 4
  {
  }

  lemma NotNul(v: bytes)
    requires NulFree(v)
    ensures v != [NUL]
  {
    if |v| == 1 { assert v[0] != NUL; }
  }

  // A code point takes no more than the six bytes of one group.
  lemma CodeLength(v: bytes, cp: nat)
    requires IsCode(v, cp)
    ensures |Escaped(v)| <= 6
  {
    JsonStrings.CodeIs(v, cp);
    if cp < 0x80 {
      assert v[1..] == [];
    } else {
      PlainIff(v);
    }
  }

  // ----- integers -----

  // Digits without a leading zero.
  predicate NoLeadingZero(t: bytes) {
    t != [] && AllDigits(t) && (t[0] == 48 ==> |t| == 1)
  }

  // Of the digit strings of a number, the printed one is the one without a leading zero.
  lemma {:induction false} DigitsIff(t: bytes, n: nat)
    ensures t == Digits(n) <==> NoLeadingZero(t) && Whole(t) == n
  {
    DigitsCanonical(n);
    if NoLeadingZero(t) && Whole(t) == n { CanonicalUnique(t); }
  }

  lemma {:induction false} DigitsCanonical(n: nat)
    ensures NoLeadingZero(Digits(n)) && Whole(Digits(n)) == n && (n > 0 ==> Digits(n)[0] != 48)
  {
    if n < 10 {
      assert Digits(n)[1..] == [] && Ten(0) == 1;
    } else {
      DigitsCanonical(n / 10);
      JsonNumber.WholeSnoc(Digits(n / 10), 48 + n % 10);
    }
  }

  lemma {:induction false} CanonicalUnique(t: bytes)
    requires NoLeadingZero(t)
    ensures Digits(Whole(t)) == t && (t[0] != 48 ==> Whole(t) > 0)
    decreases t
  {
    var n := |t| - 1;
    if n == 0 {
      assert t[1..] == [] && Ten(0) == 1;
    } else {
      CanonicalUnique(t[..n]);
      JsonNumber.WholeSnoc(t[..n], t[n]);
      assert t[..n] + [t[n]] == t;
    }
  }

  // The text of an integer: a minus exactly for negative ones, and the digits of its size.
  lemma IntIff(t: bytes, n: int)
    ensures t == IntText(n) <==>
            if n < 0 then t != [] && t[0] as char == '-' && NoLeadingZero(t[1..]) && Whole(t[1..]) == -n
            else NoLeadingZero(t) && Whole(t) == n
  {
    if n < 0 {
      if t != [] { DigitsIff(t[1..], -n); }
      if t != [] && t[0] == 45 { assert t == [45] + t[1..]; }
      assert IntText(n)[1..] == Digits(-n);
    } else {
      DigitsIff(t, n);
    }
  }
}
