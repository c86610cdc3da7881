// Element trees of ezxml and the text ezxml_toxml gives them.
module XmlTree {
  import opened Bytes
  import opened XmlText

  datatype Attr = Attr(name: bytes, value: bytes)

  // txt is the character content with the sub tags taken out; each of them keeps its place in off.
  datatype Elem = Elem(name: bytes, attrs: seq<Attr>, txt: bytes, kids: seq<Kid>)

  datatype Kid = Kid(off: nat, elem: Elem)

  // The characters of EZXML_WS.
  predicate IsWs(b: byte) {
    b == TAB || b == CR || b == LF || b == SPACE
  }

  predicate IsAlpha(b: byte) {
    UPPER_A <= b <= UPPER_Z || LOWER_A <= b <= LOWER_Z
  }

  // First byte of a tag: a letter, '_', ':' or a byte that is negative as a char.
  predicate TagStart(b: byte) {
    IsAlpha(b) || b == UNDERSCORE || b == COLON || b >= 0x80
  }

  predicate ValidName(s: bytes) {
    |s| > 0 && TagStart(s[0]) &&
    forall i | 0 <= i < |s| :: s[i] != NUL && !IsWs(s[i]) && s[i] != SLASH && s[i] != GREATER
  }

  predicate ValidAttrName(s: bytes) {
    |s| > 0 && !IsSpace(s[0]) &&
    forall i | 0 <= i < |s| :: s[i] != NUL && !IsWs(s[i]) && s[i] != SLASH && s[i] != GREATER && s[i] != EQUALS
  }

  predicate SortedKids(kids: seq<Kid>) {
    forall i, j | 0 <= i < j < |kids| :: kids[i].off <= kids[j].off
  }

  // Trees a program can build through the interface: names that are names, C strings, sub tags in
  // the order of their offsets.
  predicate Valid(e: Elem) {
    && ValidName(e.name)
    && (forall i | 0 <= i < |e.attrs| :: ValidAttrName(e.attrs[i].name) && NulFree(e.attrs[i].value))
    && NulFree(e.txt)
    && SortedKids(e.kids)
    && forall i | 0 <= i < |e.kids| :: Valid(e.kids[i].elem)
  }

  function Min(a: nat, b: nat): nat {
    if a < b then a else b
  }

  // ----- ezxml_toxml -----

  function AttrText(a: Attr): bytes {
    [SPACE] + (a.name + ([EQUALS, QUOTE] + (Encoded(a.value, true) + [QUOTE])))
  }

  // An attribute is skipped when an earlier one has its name.
  predicate Shadowed(attrs: seq<Attr>, i: nat)
    requires i < |attrs|
  {
    exists j | 0 <= j < i :: attrs[j].name == attrs[i].name
  }

  function AttrsText(attrs: seq<Attr>, i: nat): bytes
    requires i <= |attrs|
    decreases |attrs| - i
  {
    if i == |attrs| then []
    else (if Shadowed(attrs, i) then [] else AttrText(attrs[i])) + AttrsText(attrs, i + 1)
  }

  function OpenTag(e: Elem): bytes {
    [LESS] + (e.name + (AttrsText(e.attrs, 0) + [GREATER]))
  }

  function CloseTag(name: bytes): bytes {
    [LESS, SLASH] + (name + [GREATER])
  }

  function ToXml(e: Elem): bytes
    decreases e, 1
  {
    OpenTag(e) + (Body(e.txt, e.kids, 0) + CloseTag(e.name))
  }

  // End of the text in front of a sub tag; the length of the piece is unsigned.
  function PieceEnd(txt: bytes, start: nat, off: nat): (r: nat)
    requires start <= |txt|
    ensures start <= r <= |txt|
  {
    if off < start then |txt| else Min(off, |txt|)
  }

  function KidXml(k: Kid): bytes
    decreases k, 2
  {
    ToXml(k.elem)
  }

  // Content from start on, with the sub tags at their places.
  function Body(txt: bytes, kids: seq<Kid>, start: nat): bytes
    requires start <= |txt|
    decreases kids, 0
  {
    if kids == [] then Encoded(txt[start..], false)
    else
      Encoded(txt[start..PieceEnd(txt, start, kids[0].off)], false) +
      (KidXml(kids[0]) + Body(txt, kids[1..], Min(kids[0].off, |txt|)))
  }

  // ----- what a tree looks like after a round trip -----

  function KeptAttrs(attrs: seq<Attr>, i: nat): seq<Attr>
    requires i <= |attrs|
    decreases |attrs| - i
  {
    if i == |attrs| then []
    else
      (if Shadowed(attrs, i) then [] else [Attr(attrs[i].name, Kept(attrs[i].value, true))]) + KeptAttrs(attrs, i + 1)
  }

  // Shadowed attributes are dropped, blank characters of attribute values are spaces, and offsets
  // beyond the text are at its end.
  function Canonical(e: Elem): Elem
    decreases e, 1
  {
    Elem(e.name, KeptAttrs(e.attrs, 0), e.txt, CanonicalKids(e.kids, |e.txt|))
  }

  function CanonicalKid(k: Kid, n: nat): Kid
    decreases k, 2
  {
    Kid(Min(k.off, n), Canonical(k.elem))
  }

  function CanonicalKids(kids: seq<Kid>, n: nat): seq<Kid>
    decreases kids, 0
  {
    if kids == [] then []
    else [CanonicalKid(kids[0], n)] + CanonicalKids(kids[1..], n)
  }
}
