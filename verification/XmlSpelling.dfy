// Which of the texts that denote a tree is written: no reference but where one is needed, no blank but in
// front of an attribute, and every character once.
module XmlSpelling {
  import opened Bytes
  import opened XmlText
  import opened XmlTree

  // Bytes that stand for themselves when written; in attribute values fewer than in text.
  predicate Bare(b: byte, attr: bool) {
    && b as char != '&' && b as char != '<' && b as char != '>' && b != 13
    && (attr ==> b as char != '"' && b != 9 && b != 10)
  }

  // The table of references.
  lemma EncodeIs(b: byte, attr: bool)
    ensures Bare(b, attr) ==> EncodeByte(b, attr) == [b]
    ensures b as char == '&' ==> EncodeByte(b, attr) == Ascii("&amp;")
    ensures b as char == '<' ==> EncodeByte(b, attr) == Ascii("&lt;")
    ensures b as char == '>' ==> EncodeByte(b, attr) == Ascii("&gt;")
    ensures b == 13 ==> EncodeByte(b, attr) == Ascii("&#xD;")
    ensures attr && b as char == '"' ==> EncodeByte(b, attr) == Ascii("&quot;")
    ensures attr && b == 10 ==> EncodeByte(b, attr) == Ascii("&#xA;")
    ensures attr && b == 9 ==> EncodeByte(b, attr) == Ascii("&#x9;")
  {
    assert AMP_REF == Ascii("&amp;") && LT_REF == Ascii("&lt;") && GT_REF == Ascii("&gt;");
    assert QUOT_REF == Ascii("&quot;") && CR_REF == Ascii("&#xD;");
    assert LF_REF == Ascii("&#xA;") && TAB_REF == Ascii("&#x9;");
  }

  // Text is written as it is exactly when every byte may stand for itself.
  lemma {:induction false} BareIff(s: bytes, attr: bool)
    ensures Encoded(s, attr) == s <==> forall i | 0 <= i < |s| :: Bare(s[i], attr)
    ensures |Encoded(s, attr)| >= |s|
  {
    if s != [] {
      BareIff(s[1..], attr);
      EncodeIs(s[0], attr);
      var t := Encoded(s, attr);
      assert s == [s[0]] + s[1..];
      if EncodeByte(s[0], attr) == [s[0]] { assert t[1..] == Encoded(s[1..], attr); }
    }
  }

  lemma {:induction false} EncodedConcat(a: bytes, b: bytes, attr: bool)
    ensures Encoded(a + b, attr) == Encoded(a, attr) + Encoded(b, attr)
  {
    hide EncodeByte;
    if a == [] {
      assert a + b == b;
    } else {
      EncodedConcat(a[1..], b, attr);
      assert (a + b)[1..] == a[1..] + b;
      var x, y, z := EncodeByte(a[0], attr), Encoded(a[1..], attr), Encoded(b, attr);
      assert x + (y + z) == (x + y) + z;
    }
  }

  // Each attribute that is written takes a space, an equals sign and two quotes besides name and value.
  function AttrsSize(attrs: seq<Attr>, i: nat): nat
    requires i <= |attrs|
    decreases |attrs| - i
  {
    if i == |attrs| then 0
    else
      (if Shadowed(attrs, i) then 0 else |attrs[i].name| + |Encoded(attrs[i].value, true)| + 4)
      + AttrsSize(attrs, i + 1)
  }

  // A tree takes its name twice, five marks, its attributes, its text and its sub tags.
  function Size(e: Elem): nat
    decreases e, 1
  {
    2 * |e.name| + 5 + AttrsSize(e.attrs, 0) + |Encoded(e.txt, false)| + KidsSize(e.kids)
  }

  function KidSize(k: Kid): nat
    decreases k, 2
  {
    Size(k.elem)
  }

  function KidsSize(kids: seq<Kid>): nat
    decreases kids, 0
  {
    if kids == [] then 0 else KidSize(kids[0]) + KidsSize(kids[1..])
  }

  // The written text has no byte more: wherever the sub tags stand, the text is written once.
  lemma {:induction false} WrittenSize(e: Elem)
    requires Valid(e)
    ensures |ToXml(e)| == Size(e)
    decreases e, 1
  {
    hide Body, AttrsText, AttrsSize, Encoded, KidsSize;
    AttrsWrittenSize(e.attrs, 0);
    BodySize(e.txt, e.kids, 0);
    assert e.txt[0..] == e.txt;
  }

  lemma {:induction false} AttrsWrittenSize(attrs: seq<Attr>, i: nat)
    requires i <= |attrs|
    ensures |AttrsText(attrs, i)| == AttrsSize(attrs, i)
    decreases |attrs| - i
  {
    hide Shadowed, Encoded;
    if i < |attrs| { AttrsWrittenSize(attrs, i + 1); }
  }

  lemma {:induction false} BodySize(txt: bytes, kids: seq<Kid>, start: nat)
    requires start <= |txt| && SortedKids(kids)
    requires forall i | 0 <= i < |kids| :: start <= kids[i].off && Valid(kids[i].elem)
    ensures |Body(txt, kids, start)| == |Encoded(txt[start..], false)| + KidsSize(kids)
    decreases kids, 0
  {
    hide Encoded, Valid;
    if kids != [] {
      hide KidXml, KidSize;
      var off := Min(kids[0].off, |txt|);
      KidWrittenSize(kids[0]);
      BodySize(txt, kids[1..], off);
      EncodedConcat(txt[start..off], txt[off..], false);
      assert txt[start..off] + txt[off..] == txt[start..];
    }
  }

  lemma {:induction false} KidWrittenSize(k: Kid)
    requires Valid(k.elem)
    ensures |KidXml(k)| == KidSize(k)
    decreases k, 2
  {
    hide ToXml, Valid, Size;
    WrittenSize(k.elem);
  }
}
