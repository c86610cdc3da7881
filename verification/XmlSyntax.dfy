// Which texts stand for which element trees, read off the syntax and not off the parser: elements with
// attributes in either kind of quotes, self-closing tags, character content and references (XML 1.0 without
// declarations, comments, sections and instructions), and as lax as the source where it is laxer.
module XmlSyntax {
  import opened Bytes
  import opened XmlTree
  import XmlText

  // ----- references -----

  predicate IsDigitOf(b: byte, base: nat) {
    '0' <= b as char <= '9' || (base == 16 && ('a' <= b as char <= 'f' || 'A' <= b as char <= 'F'))
  }

  function DigitValue(b: byte): int {
    if b as char <= '9' then b - 48 else if b as char <= 'F' then b - 55 else b - 87
  }

  function Power(base: nat, n: nat): nat {
    if n == 0 then 1 else base * Power(base, n - 1)
  }

  function Number(t: bytes, base: nat): int {
    if t == [] then 0 else DigitValue(t[0]) * Power(base, |t| - 1) + Number(t[1..], base)
  }

  predicate Spaces(t: bytes) {
    forall i | 0 <= i < |t| :: t[i] == 32 || 9 <= t[i] <= 13
  }

  datatype Reference = Reference(hex: bool, spaces: bytes, sign: bytes, prefix: bytes, digits: bytes)

  function ReferenceText(x: Reference): bytes {
    (if x.hex then Ascii("&#x") else Ascii("&#")) + (x.spaces + (x.sign + (x.prefix + (x.digits + Ascii(";")))))
  }

  function Base(x: Reference): nat {
    if x.hex then 16 else 10
  }

  function Code(x: Reference): int {
    if x.sign == Ascii("-") then -Number(x.digits, Base(x)) else Number(x.digits, Base(x))
  }

  // A character reference, with whatever strtol allows in front of its digits.
  predicate Wellformed(x: Reference) {
    && Spaces(x.spaces) && (x.sign == [] || x.sign == Ascii("+") || x.sign == Ascii("-"))
    && (x.prefix == [] || (x.hex && (x.prefix == Ascii("0x") || x.prefix == Ascii("0X"))))
    && x.digits != [] && forall i | 0 <= i < |x.digits| :: IsDigitOf(x.digits[i], Base(x))
  }

  // The bytes of a code: itself up to 0x7F, as a char when negative, else in the form of section 2 of RFC 2279.
  predicate IsCode(w: bytes, code: int) {
    if code < 0x80 then |w| == 1 && (w[0] as int - code) % 256 == 0 else IsMultibyte(w, code)
  }

  predicate IsMultibyte(w: bytes, code: nat) {
    && 2 <= |w| <= 6 && (forall i | 0 < i < |w| :: 0x80 <= w[i] < 0xC0)
    && LeadMark(|w|) <= w[0] as int < LeadMark(|w|) + Room(|w|)
    && code == Sextets(w[0] as int - LeadMark(|w|), w[1..])
    && (if |w| == 2 then 0x80 else if |w| == 3 then 0x800 else if |w| == 4 then 0x10000
        else if |w| == 5 then 0x20_0000 else 0x400_0000) <= code
  }

  function LeadMark(n: nat): int {
    if n == 2 then 0xC0 else if n == 3 then 0xE0 else if n == 4 then 0xF0 else if n == 5 then 0xF8 else 0xFC
  }

  function Room(n: nat): int {
    if n == 2 then 32 else if n == 3 then 16 else if n == 4 then 8 else if n == 5 then 4 else 2
  }

  function Sextets(v: int, t: bytes): int
    decreases t
  {
    if t == [] then v else Sextets(v * 64 + (t[0] as int - 0x80), t[1..])
  }

  ghost predicate CharRefDenotes(t: bytes, w: bytes) {
    exists x :: Wellformed(x) && ReferenceText(x) == t && Code(x) != 0 && Code(x) <= 0x7FFF_FFFF && IsCode(w, Code(x))
  }

  predicate EntityDenotes(t: bytes, w: bytes) {
    || (t == Ascii("&lt;") && w == Ascii("<")) || (t == Ascii("&gt;") && w == Ascii(">"))
    || (t == Ascii("&amp;") && w == Ascii("&")) || (t == Ascii("&quot;") && w == Ascii("\""))
    || (t == Ascii("&apos;") && w == Ascii("'"))
  }

  ghost predicate ReferenceDenotes(t: bytes, w: bytes) {
    CharRefDenotes(t, w) || EntityDenotes(t, w)
  }

  // The front of t, n bytes long, is a reference to w.
  ghost predicate RefersTo(t: bytes, n: nat, w: bytes) {
    n <= |t| && ReferenceDenotes(t[..n], w)
  }

  // ----- text -----

  // What t with its line ends made uniform stands for: references are resolved, other bytes stay, but that
  // blanks of an attribute value become spaces.
  ghost predicate Resolves(t: bytes, attr: bool, w: bytes)
    decreases |t|
  {
    if t == [] then w == []
    else if exists n: nat, v :: RefersTo(t, n, v) then
      exists n: nat, v :: RefersTo(t, n, v) && 0 < n && v <= w && Resolves(t[n..], attr, w[|v|..])
    else
      w != [] && w[0] == (if attr && Spaces(t[..1]) then 32 else t[0]) && Resolves(t[1..], attr, w[1..])
  }

  // C sees text up to a NUL, which only a negative reference can bring in.
  ghost predicate Reads(t: bytes, attr: bool, s: bytes) {
    exists w :: Resolves(XmlText.Normalized(t), attr, w) && s == CString(w)
  }

  // ----- markup, by its place in a document -----

  predicate Blank(b: byte) {
    b == 9 || b == 10 || b == 13 || b == 32
  }

  // The bytes of x from a to b are none of those that end a name; more names a further one.
  predicate NameRun(x: bytes, a: nat, b: nat, more: byte)
    requires a <= b <= |x|
  {
    forall i | a <= i < b :: !Blank(x[i]) && x[i] as char != '/' && x[i] as char != '>' && x[i] != more
  }

  predicate EndsName(b: byte) {
    Blank(b) || b as char == '/' || b as char == '>'
  }

  // Blanks and equals signs, as many as there are.
  predicate GapRun(x: bytes, a: nat, b: nat)
    requires a <= b < |x|
  {
    && (forall i | a <= i < b :: Blank(x[i]) || x[i] as char == '=')
    && (a < b ==> !Blank(x[b]) && x[b] as char != '=')
  }

  predicate SpacesBetween(x: bytes, a: nat, b: nat)
    requires a <= b < |x|
  {
    Spaces(x[a..b]) && !Spaces(x[b..b + 1])
  }

  // A value in single or double quotes from q to z, without such a quote in it.
  ghost predicate QuotedAt(x: bytes, q: nat, z: nat, value: bytes)
    requires q <= z <= |x|
  {
    && q + 2 <= z && (x[q] as char == '"' || x[q] as char == '\'') && x[z - 1] == x[q] && x[q] !in x[q + 1..z - 1]
    && Reads(x[q + 1..z - 1], true, value)
  }

  // An attribute from s to e, with the spaces behind it. The value is empty unless a quote stands behind an
  // equals sign or a blank.
  ghost predicate AttrAt(x: bytes, s: nat, e: nat, a: Attr) {
    exists n: nat, q: nat, z: nat :: AttrParts(x, s, n, q, z, e, a)
  }

  ghost predicate AttrParts(x: bytes, s: nat, n: nat, q: nat, z: nat, e: nat, a: Attr) {
    && s <= n <= q <= z <= e < |x|
    && !Spaces(x[s..s + 1]) && x[s] as char != '/' && x[s] as char != '>'
    && NameRun(x, s, n, EQUALS) && (EndsName(x[n]) || x[n] as char == '=') && a.name == x[s..n]
    && GapRun(x, n, q) && (n < q || x[n] as char == '/' || x[n] as char == '>')
    && (if n < q && (x[q] as char == '"' || x[q] as char == '\'') then QuotedAt(x, q, z, a.value)
        else a.value == [] && z == q)
    && SpacesBetween(x, z, e)
  }

  ghost predicate AttrsAt(x: bytes, s: nat, e: nat, attrs: seq<Attr>)
    decreases attrs
  {
    if attrs == [] then s == e
    else exists n: nat :: AttrAt(x, s, n, attrs[0]) && AttrsAt(x, n, e, attrs[1..])
  }

  predicate NameStart(b: byte) {
    'a' <= b as char <= 'z' || 'A' <= b as char <= 'Z' || b as char == '_' || b as char == ':' || b >= 128
  }

  // An opening tag from s to e, or a tag that closes itself.
  ghost predicate OpensAt(x: bytes, s: nat, e: nat, name: bytes, attrs: seq<Attr>, closed: bool) {
    exists n: nat, m: nat :: OpenParts(x, s, n, m, e, name, attrs, closed)
  }

  ghost predicate OpenParts(x: bytes, s: nat, n: nat, m: nat, e: nat, name: bytes, attrs: seq<Attr>, closed: bool) {
    var k := if closed then e - 2 else e - 1;
    && s + 1 < n <= m <= k && e <= |x|
    && x[s] as char == '<' && NameStart(x[s + 1]) && NameRun(x, s + 1, n, NUL) && EndsName(x[n]) && name == x[s + 1..n]
    && SpacesBetween(x, n, m) && AttrsAt(x, m, k, attrs)
    && x[e - 1] as char == '>' && (closed ==> x[k] as char == '/')
  }

  // A closing tag from s to e. Behind blanks any byte does for its end.
  ghost predicate ClosesAt(x: bytes, s: nat, e: nat, name: bytes) {
    exists n: nat :: CloseParts(x, s, n, e, name)
  }

  predicate CloseParts(x: bytes, s: nat, n: nat, e: nat, name: bytes) {
    && s + 2 <= n < e <= |x|
    && x[s] as char == '<' && x[s + 1] as char == '/' && name == x[s + 2..n]
    && (forall i | s + 2 <= i < n :: !Blank(x[i]) && x[i] as char != '>')
    && (forall i | n <= i < e - 1 :: Blank(x[i]))
    && (if x[n] as char == '>' then e == n + 1 else n + 1 < e && (!Blank(x[e - 1]) || e == |x|))
  }

  // ----- elements -----

  ghost predicate ElementAt(x: bytes, s: nat, e: nat, el: Elem)
    decreases el, 1
  {
    || (OpensAt(x, s, e, el.name, el.attrs, true) && el.txt == [] && el.kids == [])
    || exists p: nat, q: nat ::
         && OpensAt(x, s, p, el.name, el.attrs, false)
         && ContentAt(x, p, q, el.txt, el.kids, 0) && ClosesAt(x, q, e, el.name)
  }

  // Text without markup from p to q.
  ghost predicate TextAt(x: bytes, p: nat, q: nat, text: bytes) {
    p <= q <= |x| && LESS !in x[p..q] && Reads(x[p..q], false, text)
  }

  // From p to q, the characters of txt from start on and the sub tags at their places.
  ghost predicate ContentAt(x: bytes, p: nat, q: nat, txt: bytes, kids: seq<Kid>, start: nat)
    decreases kids, 0
  {
    start <= |txt|
    && if kids == [] then TextAt(x, p, q, txt[start..])
       else
         start <= kids[0].off <= |txt|
         && exists i: nat, j: nat ::
              && TextAt(x, p, i, txt[start..kids[0].off]) && KidAt(x, i, j, kids[0])
              && ContentAt(x, j, q, txt, kids[1..], kids[0].off)
  }

  ghost predicate KidAt(x: bytes, s: nat, e: nat, k: Kid)
    decreases k, 2
  {
    ElementAt(x, s, e, k.elem)
  }

  // A document: one element, with no markup in front of it or behind it.
  ghost predicate DocumentDenotes(x: bytes, el: Elem) {
    exists s: nat, e: nat ::
      && ElementAt(x, s, e, el) && s < e <= |x| && LESS !in x[..s] && (e < |x| ==> LESS !in x[e..|x| - 1])
  }
}
