// Parsing what ezxml_toxml wrote: written text is a document for the canonical form of its tree.
module XmlRoundTrip {
  import opened Bytes
  import opened XmlText
  import opened XmlTree
  import opened XmlParse
  import Syntax = XmlSyntax
  import XmlDecides
  import XmlDecode
  import Utf

  // Encoded text stops no scan of the parser.
  lemma {:induction false} EncodedBytes(s: bytes, attr: bool)
    requires NulFree(s)
    ensures forall i | 0 <= i < |Encoded(s, attr)| ::
              var b := Encoded(s, attr)[i]; b != NUL && b != LESS && (attr ==> b != QUOTE)
  {
    if s != [] { EncodedBytes(s[1..], attr); }
  }

  lemma EncodedReads(s: bytes, attr: bool)
    requires NulFree(s)
    ensures Syntax.Reads(Encoded(s, attr), attr, Kept(s, attr))
  {
    TextRoundTrip(s, attr);
    XmlDecode.ReadsIff(Encoded(s, attr), attr, Kept(s, attr));
  }

  // ----- tags -----

  lemma NameWritten(x: bytes, s: nat, name: bytes)
    requires ValidName(name) && At(x, s, name)
    ensures Syntax.NameRun(x, s, s + |name|, NUL) && x[s..s + |name|] == name && Syntax.NameStart(x[s])
  {
    forall i | s <= i < s + |name| ensures x[i] == name[i - s] { AtIndex(x, s, name, i - s); }
  }

  lemma AttrNameWritten(x: bytes, s: nat, name: bytes)
    requires ValidAttrName(name) && At(x, s, name)
    ensures Syntax.NameRun(x, s, s + |name|, EQUALS) && x[s..s + |name|] == name
    ensures !Syntax.Spaces(x[s..s + 1]) && x[s] != SLASH && x[s] != GREATER
  {
    forall i | s <= i < s + |name| ensures x[i] == name[i - s] { AtIndex(x, s, name, i - s); }
    XmlDecides.SpaceIs(x, s);
  }

  lemma ValueWritten(x: bytes, q: nat, value: bytes)
    requires NulFree(value) && At(x, q, [QUOTE] + (Encoded(value, true) + [QUOTE]))
    ensures var z := q + |Encoded(value, true)| + 2; z <= |x| && Syntax.QuotedAt(x, q, z, Kept(value, true))
  {
    hide At, Syntax.Reads, Encoded, Kept;
    var t := Encoded(value, true);
    EncodedBytes(value, true);
    EncodedReads(value, true);
    AtHead(x, q, QUOTE, t + [QUOTE]);
    AtSplit(x, q + 1, t, [QUOTE]);
    AtHead(x, q + 1 + |t|, QUOTE, []);
    AtIs(x, q + 1, t);
  }

  lemma AttrWritten(x: bytes, s: nat, a: Attr, e: nat)
    requires ValidAttrName(a.name) && NulFree(a.value)
    requires At(x, s, a.name + ([EQUALS, QUOTE] + (Encoded(a.value, true) + [QUOTE])))
    requires var z := s + |AttrText(a)| - 1; z <= e < |x| && Syntax.SpacesBetween(x, z, e)
    ensures Syntax.AttrAt(x, s, e, Attr(a.name, Kept(a.value, true)))
  {
    hide At, Encoded, Kept, Syntax.SpacesBetween, Syntax.QuotedAt, ValidAttrName, Syntax.NameRun;
    var value := Encoded(a.value, true);
    var n := s + |a.name|;
    AtSplit(x, s, a.name, [EQUALS, QUOTE] + (value + [QUOTE]));
    AttrNameWritten(x, s, a.name);
    assert [EQUALS, QUOTE] + (value + [QUOTE]) == [EQUALS] + ([QUOTE] + (value + [QUOTE]));
    AtHead(x, n, EQUALS, [QUOTE] + (value + [QUOTE]));
    AtHead(x, n + 1, QUOTE, value + [QUOTE]);
    ValueWritten(x, n + 1, a.value);
    assert Syntax.AttrParts(x, s, n, n + 1, s + |AttrText(a)| - 1, e, Attr(a.name, Kept(a.value, true)));
  }

  // Written attributes, behind the space in front of the first.
  lemma {:induction false} AttrsWritten(x: bytes, n: nat, attrs: seq<Attr>, i: nat) returns (m: nat)
    requires i <= |attrs|
    requires forall k | 0 <= k < |attrs| :: ValidAttrName(attrs[k].name) && NulFree(attrs[k].value)
    requires At(x, n, AttrsText(attrs, i) + [GREATER])
    ensures n + |AttrsText(attrs, i)| < |x| && x[n + |AttrsText(attrs, i)|] == GREATER
    ensures n <= m <= n + |AttrsText(attrs, i)| && Syntax.SpacesBetween(x, n, m)
    ensures Syntax.AttrsAt(x, m, n + |AttrsText(attrs, i)|, KeptAttrs(attrs, i))
    ensures x[n] == SPACE || x[n] == GREATER
    decreases |attrs| - i
  {
    hide At, Shadowed, AttrText, Kept, ValidAttrName, Syntax.SpacesBetween, Syntax.AttrAt;
    if i == |attrs| {
      m := n;
      assert AttrsText(attrs, i) + [GREATER] == [GREATER] + [];
      AtHead(x, n, GREATER, []);
      NoSpace(x, n);
    } else if Shadowed(attrs, i) {
      assert AttrsText(attrs, i) == AttrsText(attrs, i + 1);
      m := AttrsWritten(x, n, attrs, i + 1);
      assert [] + KeptAttrs(attrs, i + 1) == KeptAttrs(attrs, i + 1);
    } else {
      var a := attrs[i];
      var rest := AttrsText(attrs, i + 1);
      assert AttrsText(attrs, i) + [GREATER] == AttrText(a) + (rest + [GREATER]);
      AtSplit(x, n, AttrText(a), rest + [GREATER]);
      var k := AttrsWritten(x, n + |AttrText(a)|, attrs, i + 1);
      m := n + 1;
      SpaceThenAttr(x, n, a, k);
      var kept := [Attr(a.name, Kept(a.value, true))] + KeptAttrs(attrs, i + 1);
      assert kept[1..] == KeptAttrs(attrs, i + 1);
    }
  }

  lemma NoSpace(x: bytes, n: nat)
    requires n < |x| && !IsSpace(x[n])
    ensures Syntax.SpacesBetween(x, n, n)
  {
    XmlDecides.SpaceIs(x, n);
  }

  lemma SpaceThenAttr(x: bytes, n: nat, a: Attr, e: nat)
    requires ValidAttrName(a.name) && NulFree(a.value) && At(x, n, AttrText(a))
    requires n + |AttrText(a)| <= e < |x| && Syntax.SpacesBetween(x, n + |AttrText(a)|, e)
    ensures n + 1 < e && x[n] == SPACE && Syntax.SpacesBetween(x, n, n + 1)
    ensures Syntax.AttrAt(x, n + 1, e, Attr(a.name, Kept(a.value, true)))
  {
    hide At, Encoded, Kept, Syntax.AttrAt;
    AtHead(x, n, SPACE, a.name + ([EQUALS, QUOTE] + (Encoded(a.value, true) + [QUOTE])));
    AtSplit(x, n + 1, a.name, [EQUALS, QUOTE] + (Encoded(a.value, true) + [QUOTE]));
    AttrNameWritten(x, n + 1, a.name);
    assert x[n..n + 1] == [SPACE];
    AttrWritten(x, n + 1, a, e);
  }

  lemma OpenWritten(x: bytes, s: nat, e: Elem)
    requires Valid(e) && At(x, s, OpenTag(e))
    ensures Syntax.OpensAt(x, s, s + |OpenTag(e)|, e.name, KeptAttrs(e.attrs, 0), false)
  {
    hide At, AttrsText, KeptAttrs, Syntax.AttrsAt, Syntax.SpacesBetween, Syntax.NameRun;
    var attrs := AttrsText(e.attrs, 0) + [GREATER];
    AtHead(x, s, LESS, e.name + attrs);
    AtSplit(x, s + 1, e.name, attrs);
    NameWritten(x, s + 1, e.name);
    var n := s + 1 + |e.name|;
    var m := AttrsWritten(x, n, e.attrs, 0);
    assert Syntax.OpenParts(x, s, n, m, s + |OpenTag(e)|, e.name, KeptAttrs(e.attrs, 0), false);
  }

  lemma CloseWritten(x: bytes, s: nat, name: bytes)
    requires ValidName(name) && At(x, s, CloseTag(name))
    ensures Syntax.ClosesAt(x, s, s + |CloseTag(name)|, name)
  {
    var n := s + 2 + |name|;
    AtSplit(x, s, [LESS, SLASH], name + [GREATER]);
    AtIndex(x, s, [LESS, SLASH], 0);
    AtIndex(x, s, [LESS, SLASH], 1);
    AtSplit(x, s + 2, name, [GREATER]);
    AtIndex(x, n, [GREATER], 0);
    forall i | s + 2 <= i < n ensures x[i] == name[i - s - 2] { AtIndex(x, s + 2, name, i - s - 2); }
    assert Syntax.CloseParts(x, s, n, n + 1, name);
  }

  // ----- elements -----

  lemma TextWritten(x: bytes, p: nat, piece: bytes)
    requires NulFree(piece) && At(x, p, Encoded(piece, false))
    ensures Syntax.TextAt(x, p, p + |Encoded(piece, false)|, piece)
  {
    hide Encoded, Syntax.Reads;
    EncodedBytes(piece, false);
    EncodedReads(piece, false);
  }

  // Wherever a tree is written, an element for its canonical form stands.
  lemma {:induction false} ElementWritten(x: bytes, s: nat, e: Elem)
    requires Valid(e) && At(x, s, ToXml(e))
    ensures Syntax.ElementAt(x, s, s + |ToXml(e)|, Canonical(e))
    decreases e, 1
  {
    hide At, Body, CloseTag, OpenTag, KeptAttrs, CanonicalKids, Syntax.OpensAt, Syntax.ClosesAt, Syntax.ContentAt;
    var open, body := OpenTag(e), Body(e.txt, e.kids, 0);
    AtSplit(x, s, open, body + CloseTag(e.name));
    OpenWritten(x, s, e);
    var p := s + |open|;
    AtSplit(x, p, body, CloseTag(e.name));
    ContentWritten(x, p, e.txt, e.kids, 0);
    CloseWritten(x, p + |body|, e.name);
    XmlDecides.WholeIs(x, s, p, p + |body|, s + |ToXml(e)|, Canonical(e));
  }

  lemma {:induction false} ContentWritten(x: bytes, p: nat, txt: bytes, kids: seq<Kid>, start: nat)
    requires start <= |txt| && NulFree(txt) && SortedKids(kids) && At(x, p, Body(txt, kids, start))
    requires forall i | 0 <= i < |kids| :: start <= kids[i].off && Valid(kids[i].elem)
    ensures Syntax.ContentAt(x, p, p + |Body(txt, kids, start)|, txt, CanonicalKids(kids, |txt|), start)
    decreases kids, 0
  {
    hide At, Encoded, Valid, Syntax.TextAt, Syntax.KidAt;
    if kids == [] {
      TextWritten(x, p, txt[start..]);
    } else {
      hide KidXml;
      var off := Min(kids[0].off, |txt|);
      var piece, tag, rest := Encoded(txt[start..off], false), KidXml(kids[0]), Body(txt, kids[1..], off);
      AtSplit(x, p, piece, tag + rest);
      AtSplit(x, p + |piece|, tag, rest);
      TextWritten(x, p, txt[start..off]);
      KidWritten(x, p + |piece|, kids[0], |txt|);
      ContentWritten(x, p + |piece| + |tag|, txt, kids[1..], off);
      var all := CanonicalKids(kids, |txt|);
      assert all[0] == CanonicalKid(kids[0], |txt|) && all[1..] == CanonicalKids(kids[1..], |txt|);
    }
  }

  lemma {:induction false} KidWritten(x: bytes, s: nat, k: Kid, n: nat)
    requires Valid(k.elem) && At(x, s, KidXml(k))
    ensures Syntax.KidAt(x, s, s + |KidXml(k)|, CanonicalKid(k, n))
    decreases k, 2
  {
    hide At, Syntax.ElementAt, ToXml, Canonical;
    ElementWritten(x, s, k.elem);
  }

  // ----- the document -----

  lemma {:induction false} AttrsNulFree(attrs: seq<Attr>, i: nat)
    requires i <= |attrs|
    requires forall k | 0 <= k < |attrs| :: ValidAttrName(attrs[k].name) && NulFree(attrs[k].value)
    ensures NulFree(AttrsText(attrs, i))
    decreases |attrs| - i
  {
    hide Shadowed, Encoded;
    if i < |attrs| {
      AttrsNulFree(attrs, i + 1);
      EncodedBytes(attrs[i].value, true);
      assert NulFree(AttrText(attrs[i]));
      hide AttrText;
    }
  }

  lemma {:induction false} WrittenNulFree(e: Elem)
    requires Valid(e)
    ensures NulFree(ToXml(e))
    decreases e, 1
  {
    hide Body, AttrsText;
    AttrsNulFree(e.attrs, 0);
    assert NulFree(OpenTag(e)) && NulFree(CloseTag(e.name));
    BodyNulFree(e.txt, e.kids, 0);
    hide OpenTag, CloseTag, NulFree;
    NulFreeConcat(Body(e.txt, e.kids, 0), CloseTag(e.name));
    NulFreeConcat(OpenTag(e), Body(e.txt, e.kids, 0) + CloseTag(e.name));
  }

  lemma {:induction false} BodyNulFree(txt: bytes, kids: seq<Kid>, start: nat)
    requires start <= |txt| && NulFree(txt) && forall i | 0 <= i < |kids| :: Valid(kids[i].elem)
    ensures NulFree(Body(txt, kids, start))
    decreases kids, 0
  {
    hide Encoded, Valid;
    if kids == [] {
      EncodedBytes(txt[start..], false);
    } else {
      var z := PieceEnd(txt, start, kids[0].off);
      var rest := Body(txt, kids[1..], Min(kids[0].off, |txt|));
      EncodedBytes(txt[start..z], false);
      KidNulFree(kids[0]);
      BodyNulFree(txt, kids[1..], Min(kids[0].off, |txt|));
      hide KidXml;
      NulFreeConcat(KidXml(kids[0]), rest);
      NulFreeConcat(Encoded(txt[start..z], false), KidXml(kids[0]) + rest);
    }
  }

  lemma {:induction false} KidNulFree(k: Kid)
    requires Valid(k.elem)
    ensures NulFree(KidXml(k))
    decreases k, 2
  {
    hide ToXml, Valid;
    WrittenNulFree(k.elem);
  }

  // The whole of a written text is such a document.
  lemma Written(e: Elem)
    requires Valid(e)
    ensures NulFree(ToXml(e)) && Syntax.DocumentDenotes(ToXml(e), Canonical(e))
  {
    hide ToXml, Canonical, Valid, Syntax.ElementAt;
    var x := ToXml(e);
    WrittenNulFree(e);
    assert At(x, 0, x) by { assert x[0..|x|] == x; }
    ElementWritten(x, 0, e);
    XmlDecides.IsDocument(x, 0, |x|, Canonical(e));
  }

  // Parsing what was written gives the canonical form of the tree.
  lemma RoundTrip(e: Elem)
    requires Valid(e)
    ensures ParseStr(ToXml(e)) == Ok(Canonical(e))
  {
    hide ParseUtf8, ToXml, Canonical, Valid, Syntax.DocumentDenotes;
    StartsWithTag(e);
    Written(e);
    XmlDecides.ParseIff(ToXml(e), Canonical(e));
  }

  lemma StartsWithTag(e: Elem)
    ensures ToXml(e) != [] && ToXml(e)[0] == LESS
  {
    hide Body, CloseTag;
  }

  // The same for every UTF-16 text, whichever the byte order, of the code points of the written document.
  lemma RoundTripUtf16(e: Elem, text: bytes, bigEndian: bool)
    requires Valid(e) && |text| >= 2 && text[0] == (if bigEndian then 0xFE else 0xFF)
    requires Utf.DecodeUtf16(text, 2, bigEndian).Some?
    requires Utf.DecodeUtf16(text, 2, bigEndian) == Utf.DecodeUtf8(ToXml(e))
    ensures ParseStr(text) == Ok(Canonical(e))
  {
    hide ParseUtf8, ToXml, Canonical, Valid, Utf.DecodeUtf16, Utf.DecodeUtf8, Utf.Convert, Syntax.DocumentDenotes;
    Utf.ConvertKeepsCodePoints(text, 2, bigEndian);
    Utf.DecodeUtf8Injective(Utf.Convert(text, 2, bigEndian), ToXml(e));
    Written(e);
    XmlDecides.ParseIff(ToXml(e), Canonical(e));
  }

  // ----- exactly when nothing changes -----

  predicate NoBlanks(s: bytes) {
    VTAB !in s && FORMFEED !in s
  }

  // Distinct attribute names, no vertical tab or form feed in attribute values, and every sub tag
  // inside the text.
  predicate Faithful(e: Elem) {
    && (forall i | 0 <= i < |e.attrs| :: !Shadowed(e.attrs, i) && NoBlanks(e.attrs[i].value))
    && forall i | 0 <= i < |e.kids| :: e.kids[i].off <= |e.txt| && Faithful(e.kids[i].elem)
  }

  lemma KeptIff(s: bytes)
    ensures Kept(s, true) == s <==> NoBlanks(s)
  {
    var k := Kept(s, true);
    if !NoBlanks(s) {
      var i :| 0 <= i < |s| && (s[i] == VTAB || s[i] == FORMFEED);
      assert k[i] != s[i];
    }
  }

  lemma {:induction false} KeptAttrsIff(attrs: seq<Attr>, i: nat)
    requires i <= |attrs|
    ensures |KeptAttrs(attrs, i)| <= |attrs| - i
    ensures KeptAttrs(attrs, i) == attrs[i..]
       <==> forall k | i <= k < |attrs| :: !Shadowed(attrs, k) && NoBlanks(attrs[k].value)
    decreases |attrs| - i
  {
    hide Shadowed, Kept, NoBlanks;
    if i < |attrs| {
      KeptAttrsIff(attrs, i + 1);
      KeptIff(attrs[i].value);
      var rest := KeptAttrs(attrs, i + 1);
      assert attrs[i..] == [attrs[i]] + attrs[i + 1..];
      if !Shadowed(attrs, i) {
        var a := Attr(attrs[i].name, Kept(attrs[i].value, true));
        assert KeptAttrs(attrs, i) == [a] + rest;
        assert KeptAttrs(attrs, i)[0] == a && KeptAttrs(attrs, i)[1..] == rest;
        assert attrs[i..][0] == attrs[i] && attrs[i..][1..] == attrs[i + 1..];
      }
    }
  }

  lemma {:induction false} CanonicalIff(e: Elem)
    ensures Canonical(e) == e <==> Faithful(e)
    decreases e, 1
  {
    hide KeptAttrs, Shadowed, NoBlanks;
    KeptAttrsIff(e.attrs, 0);
    assert e.attrs[0..] == e.attrs;
    CanonicalKidsIff(e.kids, |e.txt|);
  }

  lemma {:induction false} CanonicalKidsIff(kids: seq<Kid>, n: nat)
    ensures |CanonicalKids(kids, n)| == |kids|
    ensures CanonicalKids(kids, n) == kids
       <==> forall i | 0 <= i < |kids| :: kids[i].off <= n && Faithful(kids[i].elem)
    decreases kids, 0
  {
    hide Faithful, Canonical;
    if kids != [] {
      CanonicalKidIff(kids[0], n);
      CanonicalKidsIff(kids[1..], n);
      var t := CanonicalKids(kids, n);
      assert kids == [kids[0]] + kids[1..];
      assert t[0] == CanonicalKid(kids[0], n) && t[1..] == CanonicalKids(kids[1..], n);
      if forall i | 0 <= i < |kids[1..]| :: kids[1..][i].off <= n && Faithful(kids[1..][i].elem) {
        forall i | 0 < i < |kids| ensures kids[i].off <= n && Faithful(kids[i].elem) {
          assert kids[i] == kids[1..][i - 1];
        }
      }
    }
  }

  lemma {:induction false} CanonicalKidIff(k: Kid, n: nat)
    ensures CanonicalKid(k, n) == k <==> k.off <= n && Faithful(k.elem)
    decreases k, 2
  {
    hide Faithful, Canonical;
    CanonicalIff(k.elem);
  }

  // ezxml_parse_str undoes ezxml_toxml exactly on the faithful trees.
  lemma Undoes(e: Elem)
    requires Valid(e)
    ensures ParseStr(ToXml(e)) == Ok(e) <==> Faithful(e)
  {
    hide ParseStr, ToXml, Faithful, Canonical, Valid;
    RoundTrip(e);
    CanonicalIff(e);
  }
}
