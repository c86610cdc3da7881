// Which texts stand for which values, read off the syntax and not off the parser. Beyond section 2 of
// RFC 8259 the syntax is as lax as the source: every byte up to the space is blank, control bytes may
// stand in strings, and a number is any decimal in the form of strtod that starts with a digit or a minus.
module JsonGrammar {
  import opened Bytes
  import opened JsonValue
  import opened Sequences
  import Utf

  predicate Blank(t: bytes) {
    forall i | 0 <= i < |t| :: t[i] <= 32
  }

  // ----- numbers -----

  predicate AllDigits(t: bytes) {
    forall i | 0 <= i < |t| :: 48 <= t[i] <= 57
  }

  function Ten(n: nat): (r: nat)
    ensures r > 0
  {
    if n == 0 then 1 else 10 * Ten(n - 1)
  }

  // The digits in front of the point, and those behind it.
  function Whole(t: bytes): nat
    requires AllDigits(t)
  {
    if t == [] then 0 else (t[0] - 48) * Ten(|t| - 1) + Whole(t[1..])
  }

  function Fraction(t: bytes): real
    requires AllDigits(t)
  {
    if t == [] then 0.0 else ((t[0] - 48) as real + Fraction(t[1..])) / 10.0
  }

  datatype Numeral = Numeral(minus: bool, whole: bytes, point: bool, frac: bytes, exponent: Scale)
  datatype Scale = Unscaled | Scale(mark: byte, sign: bytes, digits: bytes)

  predicate Wellformed(n: Numeral) {
    && AllDigits(n.whole) && AllDigits(n.frac) && |n.whole| + |n.frac| > 0
    && (n.frac != [] ==> n.point) && IsScale(n.exponent)
  }

  predicate IsScale(e: Scale) {
    match e
    case Unscaled => true
    case Scale(mark, sign, digits) =>
      && (mark == 69 || mark == 101) && (sign == [] || sign == [PLUS] || sign == [MINUS])
      && AllDigits(digits) && digits != []
  }

  function ExponentText(e: Scale): bytes {
    match e
    case Unscaled => []
    case Scale(mark, sign, digits) => [mark] + (sign + digits)
  }

  function NumeralText(n: Numeral): bytes {
    (if n.minus then [MINUS] else [])
    + (n.whole + ((if n.point then [DOT] else []) + (n.frac + ExponentText(n.exponent))))
  }

  function Scaled(m: real, e: Scale): real
    requires IsScale(e)
  {
    match e
    case Unscaled => m
    case Scale(_, sign, digits) =>
      if sign == [MINUS] then m / Ten(Whole(digits)) as real else m * Ten(Whole(digits)) as real
  }

  function NumeralValue(n: Numeral): real
    requires Wellformed(n)
  {
    var m := Whole(n.whole) as real + Fraction(n.frac);
    Scaled(if n.minus then -m else m, n.exponent)
  }

  // A decimal as strtod takes it, without a plus sign, and its value.
  ghost predicate IsDecimal(t: bytes, d: real) {
    exists n: Numeral :: Wellformed(n) && NumeralText(n) == t && NumeralValue(n) == d
  }

  const NUMBER_LENGTH: nat := 63

  // No longer decimal of at most 63 bytes stands at the front of t.
  ghost predicate Longest(t: bytes, n: nat) {
    forall m, d | n < m <= NUMBER_LENGTH && m <= |t| :: !IsDecimal(t[..m], d)
  }

  ghost predicate NumberDenotes(t: bytes, d: real) {
    0 < |t| <= NUMBER_LENGTH && (t[0] == MINUS || 48 <= t[0] <= 57) && IsDecimal(t, d)
  }

  // ----- strings -----

  // What stands for one or more bytes of a string; h and l are the four bytes behind \u.
  datatype Piece = Raw(b: byte) | Short(e: byte) | Unit(h: bytes) | Pair(h: bytes, l: bytes)

  function PieceText(p: Piece): (t: bytes)
    ensures |t| > 0
  {
    match p
    case Raw(b) => [b]
    case Short(e) => [BACKSLASH, e]
    case Unit(h) => [BACKSLASH, 117] + h
    case Pair(h, l) => [BACKSLASH, 117] + h + [BACKSLASH, 117] + l
  }

  predicate IsHexDigit(b: byte, d: nat) {
    || ('0' <= b as char <= '9' && d == b - 48)
    || ('a' <= b as char <= 'f' && d == b - 87)
    || ('A' <= b as char <= 'F' && d == b - 55)
  }

  // Four hexadecimal digits, in either case, that spell u.
  predicate Spells(h: bytes, u: nat) {
    && |h| == 4 && u < 0x10000
    && IsHexDigit(h[0], u / 4096) && IsHexDigit(h[1], u / 256 % 16)
    && IsHexDigit(h[2], u / 16 % 16) && IsHexDigit(h[3], u % 16)
  }

  // w is the code point in UTF-8.
  predicate IsCode(w: bytes, cp: nat) {
    Utf.DecodeUtf8(w) == Some([cp])
  }

  function ShortMeaning(e: byte): bytes {
    if e == 34 || e == 92 || e == 47 then [e]
    else if e as char == 'b' then [8]
    else if e as char == 'f' then [12]
    else if e as char == 'n' then [10]
    else if e as char == 'r' then [13]
    else if e as char == 't' then [9]
    else []
  }

  // A group that is not hexadecimal counts as 0, and a surrogate stands for nothing outside a pair.
  ghost predicate PieceDenotes(p: Piece, w: bytes) {
    match p
    case Raw(b) => b != BACKSLASH && w == [b]
    case Short(e) => w != [] && w == ShortMeaning(e)
    case Unit(h) =>
      && |h| == 4
      && if exists u: nat :: Spells(h, u) then exists u: nat :: Spells(h, u) && IsCode(w, u) else w == [NUL]
    case Pair(h, l) =>
      exists u: nat, v: nat :: Spells(h, u) && Spells(l, v) && 0xD800 <= u < 0xDC00 && 0xDC00 <= v < 0xE000
        && IsCode(w, 0x10000 + (u - 0xD800) * 1024 + (v - 0xDC00))
  }

  // Pieces at the front of t stand for w and reach to stop; only an escape of two bytes may reach past it,
  // which takes a group that is not hexadecimal in front.
  ghost predicate Unescapes(t: bytes, stop: int, w: bytes)
    decreases |t|
  {
    if stop <= 0 then w == []
    else exists p, v :: Leads(t, stop, w, p, v) && Unescapes(t[|PieceText(p)|..], stop - |PieceText(p)|, w[|v|..])
  }

  // The first piece of t stands for the front of w.
  ghost predicate Leads(t: bytes, stop: int, w: bytes, p: Piece, v: bytes) {
    PieceDenotes(p, v) && PieceText(p) <= t && (|PieceText(p)| <= stop || p.Short?) && v <= w
  }

  // No quote in t but behind a backslash.
  predicate Unquoted(t: bytes) {
    if t == [] then true
    else if t[0] == BACKSLASH then |t| > 1 && Unquoted(t[2..])
    else t[0] != QUOTE && Unquoted(t[1..])
  }

  // A literal; C sees the string up to its first NUL.
  ghost predicate LiteralDenotes(t: bytes, s: bytes) {
    && |t| >= 2 && t[0] == QUOTE && t[|t| - 1] == QUOTE && Unquoted(t[1..|t| - 1])
    && exists w :: Unescapes(t[1..], |t| - 2, w) && s == CString(w)
  }

  // ----- values -----

  ghost predicate Denotes(t: bytes, v: Json)
    decreases v, 1
  {
    match v
    case Null => t == Ascii("null")
    case False => t == Ascii("false")
    case True => t == Ascii("true")
    case Number(d) => NumberDenotes(t, d)
    case String(s) => LiteralDenotes(t, s)
    case Array(items) =>
      |t| >= 2 && t[0] as char == '[' && t[|t| - 1] as char == ']' && ElementsDenote(t[1..|t| - 1], items)
    case Object(ms) =>
      |t| >= 2 && t[0] as char == '{' && t[|t| - 1] as char == '}' && MembersDenote(t[1..|t| - 1], ms)
  }

  // A value between blanks.
  ghost predicate Padded(t: bytes, v: Json)
    decreases v, 2
  {
    exists i, j :: 0 <= i <= j <= |t| && Blank(t[..i]) && Denotes(t[i..j], v) && Blank(t[j..])
  }

  ghost predicate ElementsDenote(t: bytes, items: seq<Json>)
    decreases items, 0
  {
    if items == [] then Blank(t)
    else if |items| == 1 then Padded(t, items[0])
    else exists k ::
      0 <= k < |t| && t[k] as char == ',' && Padded(t[..k], items[0]) && ElementsDenote(t[k + 1..], items[1..])
  }

  ghost predicate KeyDenotes(t: bytes, key: bytes) {
    exists i, j :: 0 <= i <= j <= |t| && Blank(t[..i]) && LiteralDenotes(t[i..j], key) && Blank(t[j..])
  }

  ghost predicate MemberDenotes(t: bytes, m: Member)
    decreases m, 3
  {
    exists k :: 0 <= k < |t| && t[k] as char == ':' && KeyDenotes(t[..k], m.key) && Padded(t[k + 1..], m.value)
  }

  ghost predicate MembersDenote(t: bytes, ms: seq<Member>)
    decreases ms, 0
  {
    if ms == [] then Blank(t)
    else if |ms| == 1 then MemberDenotes(t, ms[0])
    else exists k ::
      0 <= k < |t| && t[k] as char == ',' && MemberDenotes(t[..k], ms[0]) && MembersDenote(t[k + 1..], ms[1..])
  }

  // ----- documents -----

  // What may stand in front of the value: blanks, behind a byte order mark if there is one.
  predicate Lead(t: bytes) {
    Blank(t) || (|t| >= 3 && t[0] == 0xEF && t[1] == 0xBB && t[2] == 0xBF && Blank(t[3..]))
  }

  // text starts with a value that ends at e.
  ghost predicate StartsWith(text: bytes, v: Json, e: nat) {
    exists i :: 0 <= i <= e <= |text| && Lead(text[..i]) && Denotes(text[i..e], v)
             && (v.Number? ==> Longest(text[i..], e - i))
  }
}
