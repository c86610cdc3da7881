// The parser decides the syntax: a text without NUL is parsed to a tree exactly when it is a document for
// that tree.
module XmlDecides {
  import opened Bytes
  import opened XmlText
  import opened XmlTree
  import opened XmlParse
  import Syntax = XmlSyntax
  import XmlDecode

  // The work area of a text: the last byte is set aside.
  function Area(x: bytes): (c: bytes)
    requires x != []
    ensures |c| == |x| && WorkArea(c)
  {
    x[..|x| - 1] + [NUL]
  }

  function Aside(x: bytes): byte
    requires x != []
  {
    x[|x| - 1]
  }

  lemma {:induction false} ScanIs(c: bytes, s: nat, e: nat, stop: byte -> bool)
    requires WorkArea(c) && s <= e < |c|
    requires forall i | s <= i < e :: c[i] != NUL && !stop(c[i])
    requires c[e] == NUL || stop(c[e])
    ensures ScanTo(c, s, stop) == e
    decreases e - s
  {
    if s < e { ScanIs(c, s + 1, e, stop); }
  }

  lemma SpaceIs(x: bytes, i: nat)
    requires i < |x|
    ensures Syntax.Spaces(x[i..i + 1]) <==> IsSpace(x[i])
  {
    assert x[i..i + 1] == [x[i]];
  }

  // ----- attributes -----

  lemma SpacesSkipped(x: bytes, a: nat, b: nat)
    requires NulFree(x) && a <= b < |x| && Syntax.SpacesBetween(x, a, b)
    ensures SkipSpaces(Area(x), a) == b
  {
    SpaceIs(x, b);
    forall i | a <= i < b ensures IsSpace(x[i]) { assert x[a..b][i - a] == x[i]; }
    ScanIs(Area(x), a, b, NotSpace);
  }

  lemma QuotedRead(x: bytes, q: nat, z: nat, value: bytes)
    requires NulFree(x) && q <= z < |x| && Syntax.QuotedAt(x, q, z, value)
    ensures var c := Area(x);
            && (c[q] == QUOTE || c[q] == APOS) && QuotedEnd(c, q) == z - 1 && c[z - 1] != NUL
            && DecodeText(c[q + 1..z - 1], true) == value
  {
    hide DecodeText, Syntax.Reads;
    var c := Area(x);
    assert c[q + 1..z - 1] == x[q + 1..z - 1];
    forall i | q < i < z - 1 ensures c[i] != x[q] { assert x[q + 1..z - 1][i - q - 1] == x[i]; }
    if x[q] == QUOTE { ScanIs(c, q + 1, z - 1, IsQuote); } else { ScanIs(c, q + 1, z - 1, IsApos); }
    XmlDecode.ReadsIff(x[q + 1..z - 1], true, value);
  }

  // What stands behind an attribute name.
  ghost predicate ValueParts(x: bytes, n: nat, q: nat, z: nat, value: bytes) {
    && n <= q <= z < |x| && (Syntax.EndsName(x[n]) || x[n] == EQUALS)
    && Syntax.GapRun(x, n, q) && (n < q || x[n] == SLASH || x[n] == GREATER)
    && if n < q && (x[q] == QUOTE || x[q] == APOS) then Syntax.QuotedAt(x, q, z, value) else value == [] && z == q
  }

  lemma ValueRead(x: bytes, n: nat, q: nat, z: nat, value: bytes)
    requires NulFree(x) && ValueParts(x, n, q, z, value)
    ensures AttrValue(Area(x), n) == Ok((value, z))
  {
    hide ScanTo, DecodeText, Syntax.QuotedAt, QuotedEnd;
    var c := Area(x);
    if n < q {
      ScanIs(c, n + 1, q, NotEquals);
      if x[q] == QUOTE || x[q] == APOS { QuotedRead(x, q, z, value); }
    }
  }

  lemma AttrComplete(x: bytes, s: nat, e: nat, a: Attr)
    requires NulFree(x) && Syntax.AttrAt(x, s, e, a)
    ensures s < e < |x| && !IsSpace(x[s]) && x[s] != SLASH && x[s] != GREATER
    ensures !IsSpace(x[e])
    ensures ParseAttr(Area(x), s) == Ok((a, e))
  {
    hide ScanTo, DecodeText, Syntax.QuotedAt, Syntax.SpacesBetween, AttrValue, ValueParts;
    var n: nat, q: nat, z: nat :| Syntax.AttrParts(x, s, n, q, z, e, a);
    var c := Area(x);
    SpaceIs(x, s);
    SpacesEnd(x, z, e);
    assert s < e;
    ScanIs(c, s, n, AttrNameEnd);
    assert c[s..n] == x[s..n];
    PartsAre(x, s, n, q, z, e, a);
    ValueRead(x, n, q, z, a.value);
    SpacesSkipped(x, z, e);
  }

  lemma PartsAre(x: bytes, s: nat, n: nat, q: nat, z: nat, e: nat, a: Attr)
    requires Syntax.AttrParts(x, s, n, q, z, e, a)
    ensures ValueParts(x, n, q, z, a.value)
  {
    hide Syntax.QuotedAt, Syntax.SpacesBetween;
  }

  lemma SpacesEnd(x: bytes, a: nat, b: nat)
    requires a <= b < |x| && Syntax.SpacesBetween(x, a, b)
    ensures !IsSpace(x[b])
  {
    SpaceIs(x, b);
  }

  lemma {:induction false} AttrsComplete(x: bytes, s: nat, k: nat, attrs: seq<Attr>)
    requires NulFree(x) && Syntax.AttrsAt(x, s, k, attrs) && k < |x| && (x[k] == SLASH || x[k] == GREATER)
    ensures s <= k && !IsSpace(x[s]) && ParseAttrs(Area(x), s) == Ok((attrs, k))
    decreases attrs
  {
    hide ParseAttr, Syntax.AttrAt;
    if attrs != [] {
      var n: nat :| Syntax.AttrAt(x, s, n, attrs[0]) && Syntax.AttrsAt(x, n, k, attrs[1..]);
      AttrComplete(x, s, n, attrs[0]);
      AttrsComplete(x, n, k, attrs[1..]);
      assert attrs == [attrs[0]] + attrs[1..];
    }
  }

  // ----- tags -----

  lemma NameScanned(x: bytes, s: nat, n: nat)
    requires NulFree(x) && s < n < |x| && Syntax.NameRun(x, s, n, NUL) && Syntax.EndsName(x[n])
    ensures ScanTo(Area(x), s, NameEnd) == n && Area(x)[s..n] == x[s..n]
  {
    ScanIs(Area(x), s, n, NameEnd);
    assert Area(x)[s..n] == x[s..n];
  }

  lemma OpenComplete(x: bytes, s: nat, e: nat, name: bytes, attrs: seq<Attr>, closed: bool, st: State)
    requires NulFree(x) && Syntax.OpensAt(x, s, e, name, attrs, closed) && Good(st) && !st.Closed?
    ensures s + 2 < e <= |x| && x[s] == LESS
    ensures ParseTag(Area(x), Aside(x), s + 1, st)
         == if closed then Ok((e - 1, Close(Open(st, name, attrs), name).value)) else Ok((e - 1, Open(st, name, attrs)))
    ensures Close(Open(st, name, attrs), name).Ok?
  {
    hide ScanTo, ParseAttrs, Syntax.AttrsAt, Syntax.SpacesBetween, Syntax.NameRun, SkipSpaces;
    var n: nat, m: nat :| Syntax.OpenParts(x, s, n, m, e, name, attrs, closed);
    var k := if closed then e - 2 else e - 1;
    NameScanned(x, s + 1, n);
    SpacesSkipped(x, n, m);
    AttrsComplete(x, m, k, attrs);
    ClosesOpen(st, name, attrs);
    assert TagStart(x[s + 1]);
  }

  lemma ClosesOpen(st: State, name: bytes, attrs: seq<Attr>)
    requires Good(st) && !st.Closed?
    ensures var r := Close(Open(st, name, attrs), name);
            var el := Elem(name, attrs, [], []);
            && (st.Unopened? ==> r == Ok(Closed(el)))
            && (st.Within? ==>
                  var n := |st.stack| - 1;
                  var f := st.stack[n];
                  r == Ok(Within(st.stack[..n] + [f.(kids := f.kids + [Kid(|f.txt|, el)])])))
  {
    if st.Within? {
      var stack := Open(st, name, attrs).stack;
      assert stack[..|stack| - 2] == st.stack[..|st.stack| - 1];
    }
  }

  lemma CloseComplete(x: bytes, s: nat, e: nat, name: bytes, st: State)
    requires NulFree(x) && Syntax.ClosesAt(x, s, e, name) && Good(st) && Close(st, name).Ok?
    ensures s + 2 < e <= |x| && x[s] == LESS
    ensures ParseTag(Area(x), Aside(x), s + 1, st) == Ok((e - 1, Close(st, name).value))
  {
    hide ScanTo, Close;
    var n: nat :| Syntax.CloseParts(x, s, n, e, name);
    var c := Area(x);
    ScanIs(c, s + 2, n, CloseEnd);
    assert c[s + 2..n] == x[s + 2..n];
    ScanIs(c, n, e - 1, NotWs);
    assert !TagStart(SLASH);
  }

  // ----- elements -----

  lemma TextComplete(x: bytes, p: nat, q: nat, text: bytes, below: seq<Frame>, f: Frame)
    requires NulFree(x) && 0 < p && Syntax.TextAt(x, p, q, text) && q < |x| - 1 && x[q] == LESS
    ensures After(Area(x), Aside(x), p - 1, Within(below + [f]))
         == ParseFrom(Area(x), Aside(x), q, Within(below + [f.(txt := f.txt + text)]))
  {
    hide ScanTo, DecodeText, ParseFrom, Syntax.Reads;
    var c := Area(x);
    XmlDecode.ReadsIff(x[p..q], false, text);
    forall i | p <= i < q ensures c[i] != LESS { assert x[p..q][i - p] == x[i]; }
    ScanIs(c, p, q, IsLess);
    assert c[p..q] == x[p..q];
    if p == q {
      NothingRead();
      assert x[p..q] == [] && f.txt + text == f.txt;
    } else {
      assert (below + [f])[..|below|] == below;
    }
  }

  lemma NothingRead()
    ensures DecodeText([], false) == []
  {
  }

  // How an element is put together.
  lemma ElementParts(x: bytes, s: nat, e: nat, el: Elem) returns (alone: bool, p: nat, q: nat)
    requires Syntax.ElementAt(x, s, e, el)
    ensures alone ==> Syntax.OpensAt(x, s, e, el.name, el.attrs, true) && el.txt == [] && el.kids == []
    ensures !alone ==>
              && Syntax.OpensAt(x, s, p, el.name, el.attrs, false)
              && Syntax.ContentAt(x, p, q, el.txt, el.kids, 0) && Syntax.ClosesAt(x, q, e, el.name)
  {
    hide Syntax.ContentAt, Syntax.OpensAt, Syntax.ClosesAt;
    alone, p, q := Syntax.OpensAt(x, s, e, el.name, el.attrs, true) && el.txt == [] && el.kids == [], s, s;
    if !alone {
      p, q :| Syntax.OpensAt(x, s, p, el.name, el.attrs, false)
        && Syntax.ContentAt(x, p, q, el.txt, el.kids, 0) && Syntax.ClosesAt(x, q, e, el.name);
    }
  }

  lemma ContentParts(x: bytes, p: nat, q: nat, txt: bytes, kids: seq<Kid>, start: nat) returns (i: nat, j: nat)
    requires kids != [] && Syntax.ContentAt(x, p, q, txt, kids, start)
    ensures start <= kids[0].off <= |txt|
    ensures Syntax.TextAt(x, p, i, txt[start..kids[0].off]) && Syntax.KidAt(x, i, j, kids[0])
    ensures Syntax.ContentAt(x, j, q, txt, kids[1..], kids[0].off)
  {
    hide Syntax.TextAt, Syntax.KidAt;
    i, j :| Syntax.TextAt(x, p, i, txt[start..kids[0].off]) && Syntax.KidAt(x, i, j, kids[0])
      && Syntax.ContentAt(x, j, q, txt, kids[1..], kids[0].off);
  }

  lemma TagEnds(x: bytes, s: nat, e: nat, name: bytes, attrs: seq<Attr>, closed: bool)
    requires Syntax.OpensAt(x, s, e, name, attrs, closed)
    ensures s + 2 < e <= |x| && x[s] == LESS
  {
    hide Syntax.AttrsAt, Syntax.SpacesBetween, Syntax.NameRun;
  }

  lemma CloseEnds(x: bytes, s: nat, e: nat, name: bytes)
    requires Syntax.ClosesAt(x, s, e, name)
    ensures s + 2 < e <= |x| && x[s] == LESS
  {
  }

  // Every part of a document ends behind its start.
  lemma {:induction false} ElementEnds(x: bytes, s: nat, e: nat, el: Elem)
    requires Syntax.ElementAt(x, s, e, el)
    ensures s + 2 < e <= |x| && x[s] == LESS
    decreases el, 1
  {
    hide Syntax.ElementAt, Syntax.ContentAt, Syntax.OpensAt, Syntax.ClosesAt;
    var alone, p, q := ElementParts(x, s, e, el);
    if alone {
      TagEnds(x, s, e, el.name, el.attrs, true);
    } else {
      TagEnds(x, s, p, el.name, el.attrs, false);
      ContentEnds(x, p, q, el.txt, el.kids, 0);
      CloseEnds(x, q, e, el.name);
    }
  }

  lemma {:induction false} ContentEnds(x: bytes, p: nat, q: nat, txt: bytes, kids: seq<Kid>, start: nat)
    requires Syntax.ContentAt(x, p, q, txt, kids, start)
    ensures p <= q <= |x|
    decreases kids, 0
  {
    if kids != [] {
      hide Syntax.ContentAt, Syntax.KidAt, Syntax.Reads;
      var i, j := ContentParts(x, p, q, txt, kids, start);
      KidEnds(x, i, j, kids[0]);
      ContentEnds(x, j, q, txt, kids[1..], kids[0].off);
    }
  }

  lemma {:induction false} KidEnds(x: bytes, s: nat, e: nat, k: Kid)
    requires Syntax.KidAt(x, s, e, k)
    ensures s + 2 < e <= |x| && x[s] == LESS
    decreases k, 2
  {
    hide Syntax.ElementAt;
    assert Syntax.ElementAt(x, s, e, k.elem);
    ElementEnds(x, s, e, k.elem);
  }

  function WithKid(f: Frame, el: Elem): Frame {
    f.(kids := f.kids + [Kid(|f.txt|, el)])
  }

  // An element becomes the next child of the current tag, at the end of its text so far.
  lemma {:induction false} ElementComplete(x: bytes, s: nat, e: nat, el: Elem, below: seq<Frame>, f: Frame)
    requires NulFree(x) && Syntax.ElementAt(x, s, e, el)
    ensures s + 2 < e <= |x| && x[s] == LESS
    ensures ParseFrom(Area(x), Aside(x), s, Within(below + [f]))
         == After(Area(x), Aside(x), e - 1, Within(below + [WithKid(f, el)]))
    decreases el, 1
  {
    hide Syntax.ElementAt, Syntax.ContentAt, Syntax.OpensAt, Syntax.ClosesAt, After, Open, Close, ParseTag;
    ElementEnds(x, s, e, el);
    var alone, p, q := ElementParts(x, s, e, el);
    var st := Within(below + [f]);
    if alone {
      OpenComplete(x, s, e, el.name, el.attrs, true, st);
      ClosesOpen(st, el.name, el.attrs);
      assert (below + [f])[..|below|] == below && el == Elem(el.name, el.attrs, [], []);
    } else {
      OpenComplete(x, s, p, el.name, el.attrs, false, st);
      OpenPushes(below, f, el.name, el.attrs);
      var g := Frame(|f.txt|, el.name, el.attrs, [], []);
      CloseEnds(x, q, e, el.name);
      ContentComplete(x, p, q, el.txt, el.kids, 0, below + [f], g);
      var done := g.(txt := el.txt, kids := [] + el.kids);
      ClosePops(below, f, done);
      CloseComplete(x, q, e, el.name, Within((below + [f]) + [done]));
      assert [] + el.kids == el.kids;
    }
  }

  lemma OpenPushes(below: seq<Frame>, f: Frame, name: bytes, attrs: seq<Attr>)
    ensures Open(Within(below + [f]), name, attrs) == Within((below + [f]) + [Frame(|f.txt|, name, attrs, [], [])])
  {
  }

  lemma ClosePops(below: seq<Frame>, f: Frame, g: Frame)
    ensures Close(Within((below + [f]) + [g]), g.name)
         == Ok(Within(below + [f.(kids := f.kids + [Kid(g.off, Completed(g))])]))
  {
    var stack := (below + [f]) + [g];
    assert stack[..|stack| - 2] == below;
  }

  // Content fills the current tag.
  lemma {:induction false} ContentComplete(
    x: bytes, p: nat, q: nat, txt: bytes, kids: seq<Kid>, start: nat, below: seq<Frame>, f: Frame)
    requires NulFree(x) && 0 < p && Syntax.ContentAt(x, p, q, txt, kids, start)
    requires q < |x| - 1 && x[q] == LESS && start <= |txt| && f.txt == txt[..start]
    ensures After(Area(x), Aside(x), p - 1, Within(below + [f]))
         == ParseFrom(Area(x), Aside(x), q, Within(below + [f.(txt := txt, kids := f.kids + kids)]))
    decreases kids, 0
  {
    if kids == [] {
      hide Syntax.TextAt, After, ParseFrom;
      TextComplete(x, p, q, txt[start..], below, f);
      assert f.txt + txt[start..] == txt && f.kids + [] == f.kids;
    } else {
      hide Syntax.ContentAt, Syntax.KidAt, Syntax.TextAt, After, ParseFrom;
      var off := kids[0].off;
      var i, j := ContentParts(x, p, q, txt, kids, start);
      KidEnds(x, i, j, kids[0]);
      ContentEnds(x, j, q, txt, kids[1..], off);
      TextComplete(x, p, i, txt[start..off], below, f);
      assert f.txt + txt[start..off] == txt[..off];
      var f1 := f.(txt := txt[..off]);
      KidComplete(x, i, j, kids[0], below, f1);
      var f2 := f1.(kids := f1.kids + [kids[0]]);
      ContentComplete(x, j, q, txt, kids[1..], off, below, f2);
      assert f2.kids + kids[1..] == f.kids + kids;
    }
  }

  lemma {:induction false} KidComplete(x: bytes, s: nat, e: nat, k: Kid, below: seq<Frame>, f: Frame)
    requires NulFree(x) && Syntax.KidAt(x, s, e, k) && k.off == |f.txt|
    ensures s + 2 < e <= |x| && x[s] == LESS
    ensures ParseFrom(Area(x), Aside(x), s, Within(below + [f]))
         == After(Area(x), Aside(x), e - 1, Within(below + [f.(kids := f.kids + [k])]))
    decreases k, 2
  {
    hide Syntax.ElementAt, After, ParseFrom;
    assert Syntax.ElementAt(x, s, e, k.elem);
    ElementComplete(x, s, e, k.elem, below, f);
    assert k == Kid(|f.txt|, k.elem);
  }

  // The root element.
  lemma RootComplete(x: bytes, s: nat, e: nat, el: Elem)
    requires NulFree(x) && Syntax.ElementAt(x, s, e, el)
    ensures s + 2 < e <= |x| && x[s] == LESS
    ensures ParseFrom(Area(x), Aside(x), s, Unopened) == After(Area(x), Aside(x), e - 1, Closed(el))
  {
    hide Syntax.ElementAt, Syntax.ContentAt, Syntax.OpensAt, Syntax.ClosesAt, After, Open, Close, ParseTag;
    ElementEnds(x, s, e, el);
    var alone, p, q := ElementParts(x, s, e, el);
    if alone {
      OpenComplete(x, s, e, el.name, el.attrs, true, Unopened);
      ClosesOpen(Unopened, el.name, el.attrs);
      assert el == Elem(el.name, el.attrs, [], []);
    } else {
      OpenComplete(x, s, p, el.name, el.attrs, false, Unopened);
      OpensRoot(el.name, el.attrs);
      var g := Frame(0, el.name, el.attrs, [], []);
      assert [g] == [] + [g];
      CloseEnds(x, q, e, el.name);
      ContentComplete(x, p, q, el.txt, el.kids, 0, [], g);
      var done := g.(txt := el.txt, kids := [] + el.kids);
      assert [] + [done] == [done] && [] + el.kids == el.kids;
      RootPops(done);
      CloseComplete(x, q, e, el.name, Within([done]));
    }
  }

  lemma OpensRoot(name: bytes, attrs: seq<Attr>)
    ensures Open(Unopened, name, attrs) == Within([Frame(0, name, attrs, [], [])])
  {
  }

  lemma RootPops(g: Frame)
    ensures Close(Within([g]), g.name) == Ok(Closed(Completed(g)))
  {
  }

  // ----- what the parser takes is in the syntax -----

  // The set-aside byte is a '>', or the parser has not come to it.
  predicate Short(x: bytes, e: nat) {
    x != [] && e < |x| && (e == |x| - 1 ==> x[e] == GREATER)
  }

  lemma SkippedSpaces(x: bytes, a: nat, b: nat)
    requires NulFree(x) && a < |x| && Short(x, b) && SkipSpaces(Area(x), a) == b
    ensures a <= b && Syntax.SpacesBetween(x, a, b)
  {
    SpaceIs(x, b);
    forall i | 0 <= i < b - a ensures x[a..b][i] == 32 || 9 <= x[a..b][i] <= 13 { assert Area(x)[a + i] == x[a + i]; }
  }

  lemma QuotedSound(x: bytes, q: nat)
    requires NulFree(x) && q < |x| - 1 && (x[q] == QUOTE || x[q] == APOS)
    requires var z := QuotedEnd(Area(x), q); Area(x)[z] != NUL
    ensures var z := QuotedEnd(Area(x), q);
            z < |x| - 1 && Syntax.QuotedAt(x, q, z + 1, DecodeText(Area(x)[q + 1..z], true))
  {
    hide DecodeText, Syntax.Reads, ScanTo;
    var c := Area(x);
    var z := QuotedEnd(c, q);
    assert c[q + 1..z] == x[q + 1..z];
    XmlDecode.ReadsIff(x[q + 1..z], true, DecodeText(x[q + 1..z], true));
    assert forall i | q < i < z :: c[i] == x[i];
  }

  lemma ValueSound(x: bytes, n: nat)
    requires NulFree(x) && n < |x| && (Syntax.EndsName(x[n]) || x[n] == EQUALS)
    requires AttrValue(Area(x), n).Ok? && Short(x, AttrValue(Area(x), n).value.1)
    ensures var r := AttrValue(Area(x), n).value; exists q: nat :: ValueParts(x, n, q, r.1, r.0)
  {
    hide DecodeText, ScanTo, Syntax.QuotedAt, QuotedEnd;
    var c := Area(x);
    var (v, z) := AttrValue(c, n).value;
    if c[n] == EQUALS || IsSpace(c[n]) {
      var q := SkipEquals(c, n + 1);
      forall i | n <= i < q ensures Syntax.Blank(x[i]) || x[i] == EQUALS { assert c[i] == x[i]; }
      if c[q] == QUOTE || c[q] == APOS { QuotedSound(x, q); }
      assert ValueParts(x, n, q, z, v);
    } else {
      assert ValueParts(x, n, n, z, v);
    }
  }

  lemma AttrSound(x: bytes, s: nat)
    requires NulFree(x) && s < |x| - 1 && !IsSpace(x[s]) && x[s] != SLASH && x[s] != GREATER
    requires ParseAttr(Area(x), s).Ok? && Short(x, ParseAttr(Area(x), s).value.1)
    ensures Syntax.AttrAt(x, s, ParseAttr(Area(x), s).value.1, ParseAttr(Area(x), s).value.0)
  {
    hide AttrValue, ScanTo, Syntax.SpacesBetween, ValueParts, SkipSpaces;
    var c := Area(x);
    var (a, e) := ParseAttr(c, s).value;
    var n := ScanTo(c, s, AttrNameEnd);
    var z := AttrValue(c, n).value.1;
    NameSound(x, s, n);
    SkipsOn(c, z);
    ValueSound(x, n);
    var q: nat :| ValueParts(x, n, q, z, a.value);
    SkippedSpaces(x, z, e);
    SpaceIs(x, s);
    assert c[s..n] == x[s..n];
    PartsJoin(x, s, n, q, z, e, a);
  }

  lemma NameSound(x: bytes, s: nat, n: nat)
    requires NulFree(x) && s < |x| && n == ScanTo(Area(x), s, AttrNameEnd)
    ensures Syntax.NameRun(x, s, n, EQUALS)
    ensures n < |x| - 1 ==> Syntax.EndsName(x[n]) || x[n] == EQUALS
  {
    hide ScanTo;
    forall i | s <= i < n ensures Area(x)[i] == x[i] {}
  }

  lemma SkipsOn(c: bytes, z: nat)
    requires WorkArea(c) && z < |c|
    ensures z <= SkipSpaces(c, z)
  {
  }

  lemma PartsJoin(x: bytes, s: nat, n: nat, q: nat, z: nat, e: nat, a: Attr)
    requires s <= n && e < |x| && z <= e && ValueParts(x, n, q, z, a.value) && Syntax.SpacesBetween(x, z, e)
    requires !Syntax.Spaces(x[s..s + 1]) && x[s] != SLASH && x[s] != GREATER
    requires Syntax.NameRun(x, s, n, EQUALS) && a.name == x[s..n]
    ensures Syntax.AttrAt(x, s, e, a)
  {
    hide Syntax.QuotedAt, Syntax.SpacesBetween;
    assert Syntax.AttrParts(x, s, n, q, z, e, a);
  }

  lemma {:induction false} AttrsSound(x: bytes, s: nat)
    requires NulFree(x) && s < |x| && !IsSpace(x[s])
    requires ParseAttrs(Area(x), s).Ok? && Short(x, ParseAttrs(Area(x), s).value.1)
    ensures Syntax.AttrsAt(x, s, ParseAttrs(Area(x), s).value.1, ParseAttrs(Area(x), s).value.0)
    decreases |x| - s
  {
    hide ParseAttr, Syntax.AttrAt;
    var c := Area(x);
    var (attrs, k) := ParseAttrs(c, s).value;
    if !(c[s] == NUL || c[s] == SLASH || c[s] == GREATER) {
      var (a, n) := ParseAttr(c, s).value;
      AttrSound(x, s);
      EndsSpace(x, n, k);
      AttrsSound(x, n);
      assert attrs[1..] == ParseAttrs(c, n).value.0;
    }
  }

  lemma EndsSpace(x: bytes, n: nat, k: nat)
    requires NulFree(x) && n <= k && Short(x, k) && !IsSpace(Area(x)[n])
    ensures !IsSpace(x[n]) && Short(x, n)
  {
  }

  lemma OpenSound(x: bytes, s: nat, st: State) returns (name: bytes, attrs: seq<Attr>, closed: bool)
    requires NulFree(x) && s < |x| - 1 && x[s] == LESS && Good(st) && TagStart(Area(x)[s + 1])
    requires ParseTag(Area(x), Aside(x), s + 1, st).Ok?
    ensures !st.Closed?
    ensures var (e, next) := ParseTag(Area(x), Aside(x), s + 1, st).value;
            && e < |x| && Syntax.OpensAt(x, s, e + 1, name, attrs, closed)
            && (if closed then Close(Open(st, name, attrs), name) == Ok(next) else Open(st, name, attrs) == next)
  {
    hide ScanTo, ParseAttrs, Syntax.AttrsAt, Syntax.SpacesBetween, Syntax.NameRun, SkipSpaces, Open, Close;
    var c := Area(x);
    var n := ScanTo(c, s + 1, NameEnd);
    var m := SkipSpaces(c, n);
    var (e, next) := ParseTag(c, Aside(x), s + 1, st).value;
    var k := ParseAttrs(c, m).value.1;
    name, attrs, closed := c[s + 1..n], ParseAttrs(c, m).value.0, c[k] == SLASH;
    SkipsOn(c, n);
    assert Short(x, k);
    EndsSpace(x, m, k);
    SkippedSpaces(x, n, m);
    AttrsSound(x, m);
    TagNameSound(x, s + 1, n);
    assert Syntax.OpenParts(x, s, n, m, e + 1, name, attrs, closed);
  }

  lemma TagNameSound(x: bytes, s: nat, n: nat)
    requires NulFree(x) && s < |x| - 1 && TagStart(x[s]) && n == ScanTo(Area(x), s, NameEnd)
    requires n == |x| - 1 ==> x[n] == GREATER
    ensures s < n && Syntax.NameRun(x, s, n, NUL) && Syntax.EndsName(x[n]) && Area(x)[s..n] == x[s..n]
  {
    hide ScanTo;
    assert n > s;
    forall i | s <= i < n ensures Area(x)[i] == x[i] {}
  }

  lemma CloseSound(x: bytes, s: nat, st: State) returns (name: bytes)
    requires NulFree(x) && s < |x| - 1 && x[s] == LESS && Good(st) && Area(x)[s + 1] == SLASH
    requires ParseTag(Area(x), Aside(x), s + 1, st).Ok?
    ensures var (e, next) := ParseTag(Area(x), Aside(x), s + 1, st).value;
            e < |x| && Syntax.ClosesAt(x, s, e + 1, name) && Close(st, name) == Ok(next)
  {
    hide ScanTo, Close;
    var c := Area(x);
    var n := ScanTo(c, s + 2, CloseEnd);
    var e := ScanTo(c, n, NotWs);
    name := c[s + 2..n];
    assert !TagStart(SLASH);
    forall i | s + 2 <= i < e ensures c[i] == x[i] {}
    assert name == x[s + 2..n];
    assert Syntax.CloseParts(x, s, n, e + 1, name);
  }

  // ----- what is left of a document -----

  predicate TailFree(x: bytes, e: nat) {
    e <= |x| && (e < |x| ==> LESS !in x[e..|x| - 1])
  }

  lemma TailIff(x: bytes, e: nat, el: Elem, r: Elem)
    requires NulFree(x) && 0 < e <= |x|
    ensures After(Area(x), Aside(x), e - 1, Closed(el)) == Ok(r) <==> r == el && TailFree(x, e)
  {
    hide ScanTo, ParseAttrs, DecodeText;
    var c := Area(x);
    if e < |x| - 1 {
      var t := ScanTo(c, e, IsLess);
      if c[t] == NUL {
        forall i | e <= i < |x| - 1 ensures x[i] != LESS { assert c[i] == x[i]; }
      } else {
        assert x[e..|x| - 1][t - e] == LESS;
      }
    }
  }

  // The innermost open tag is filled from p to q, and closed there.
  ghost predicate Closing(x: bytes, p: nat, q: nat, e: nat, f: Frame, txt: bytes, kids: seq<Kid>) {
    f.txt <= txt && Syntax.ContentAt(x, p, q, txt, kids, |f.txt|) && Syntax.ClosesAt(x, q, e, f.name)
  }

  // From p on, the text closes the open tags f and below, one in the other, to the tree root.
  ghost predicate Completes(x: bytes, p: nat, below: seq<Frame>, f: Frame, root: Elem)
    decreases |below|
  {
    exists q: nat, e: nat, txt, kids ::
      Closing(x, p, q, e, f, txt, kids) && Rest(x, e, below, Filled(f, txt, kids), root)
  }

  function Filled(f: Frame, txt: bytes, kids: seq<Kid>): Elem {
    Elem(f.name, f.attrs, txt, f.kids + kids)
  }

  ghost predicate Rest(x: bytes, e: nat, below: seq<Frame>, el: Elem, root: Elem)
    decreases |below|, 0
  {
    if below == [] then root == el && TailFree(x, e)
    else
      var n := |below| - 1;
      Completes(x, e, below[..n], WithKid(below[n], el), root)
  }

  // Each open tag stands at the end of the text of the one around it.
  predicate Nested(stack: seq<Frame>) {
    forall i: nat, j: nat | i + 1 == j < |stack| :: stack[j].off == |stack[i].txt|
  }

  lemma CompletesParts(x: bytes, p: nat, below: seq<Frame>, f: Frame, root: Elem)
    returns (q: nat, e: nat, txt: bytes, kids: seq<Kid>)
    requires Completes(x, p, below, f, root)
    ensures Closing(x, p, q, e, f, txt, kids) && Rest(x, e, below, Filled(f, txt, kids), root)
  {
    hide Closing, Rest;
    q, e, txt, kids :| Closing(x, p, q, e, f, txt, kids) && Rest(x, e, below, Filled(f, txt, kids), root);
  }

  lemma CompletesIs(
    x: bytes, p: nat, below: seq<Frame>, f: Frame, root: Elem, q: nat, e: nat, txt: bytes, kids: seq<Kid>)
    requires Closing(x, p, q, e, f, txt, kids) && Rest(x, e, below, Filled(f, txt, kids), root)
    ensures Completes(x, p, below, f, root)
  {
    hide Closing, Rest;
  }

  // Text and one more child in front of what completes a tag.
  lemma Prepend(
    x: bytes, p: nat, t: nat, e: nat, text: bytes, el: Elem, below: seq<Frame>, f: Frame, f1: Frame, root: Elem)
    requires Syntax.TextAt(x, p, t, text) && Syntax.ElementAt(x, t, e, el)
    requires f1 == f.(txt := f.txt + text) && Completes(x, e, below, WithKid(f1, el), root)
    ensures Completes(x, p, below, f, root)
  {
    hide Completes, Rest, Syntax.TextAt, Syntax.ElementAt, Syntax.ClosesAt;
    var q, z, txt, kids := CompletesParts(x, e, below, WithKid(f1, el), root);
    var k := Kid(|f1.txt|, el);
    var all := [k] + kids;
    ContentIs(x, p, q, t, e, text, el, f, txt, kids);
    assert f.kids + all == WithKid(f1, el).kids + kids;
    assert Filled(f, txt, all) == Filled(WithKid(f1, el), txt, kids);
    CompletesIs(x, p, below, f, root, q, z, txt, all);
  }

  lemma ContentIs(
    x: bytes, p: nat, q: nat, t: nat, e: nat, text: bytes, el: Elem, f: Frame, txt: bytes, kids: seq<Kid>)
    requires Syntax.TextAt(x, p, t, text) && Syntax.ElementAt(x, t, e, el)
    requires f.txt + text <= txt && Syntax.ContentAt(x, e, q, txt, kids, |f.txt| + |text|)
    ensures f.txt <= txt && Syntax.ContentAt(x, p, q, txt, [Kid(|f.txt| + |text|, el)] + kids, |f.txt|)
  {
    hide Syntax.TextAt, Syntax.ElementAt;
    var off := |f.txt| + |text|;
    var all := [Kid(off, el)] + kids;
    assert all[1..] == kids && all[0].off == off;
    assert txt[..off] == f.txt + text && txt[..|f.txt|] == f.txt;
    assert txt[|f.txt|..off] == text;
    assert Syntax.KidAt(x, t, e, all[0]);
  }

  // The piece of text in front of the next tag.
  lemma TextSound(x: bytes, p: nat, below: seq<Frame>, f: Frame, root: Elem) returns (t: nat, text: bytes)
    requires NulFree(x) && 0 < p <= |x| && After(Area(x), Aside(x), p - 1, Within(below + [f])) == Ok(root)
    ensures p <= t < |x| - 1 && x[t] == LESS && Syntax.TextAt(x, p, t, text)
    ensures ParseFrom(Area(x), Aside(x), t, Within(below + [f.(txt := f.txt + text)])) == Ok(root)
  {
    hide ScanTo, ParseFrom, DecodeText, Syntax.Reads;
    var c := Area(x);
    t := ScanTo(c, p, IsLess);
    text := DecodeText(c[p..t], false);
    assert c[p..t] == x[p..t];
    forall i | 0 <= i < t - p ensures x[p..t][i] != LESS { assert c[p + i] == x[p + i]; }
    XmlDecode.ReadsIff(x[p..t], false, text);
    if p == t {
      NothingRead();
      assert c[p..t] == [] && f.txt + text == f.txt;
    } else {
      assert (below + [f])[..|below|] == below;
    }
  }

  // From behind a tag on, what the parser takes closes the tags that are open.
  lemma {:induction false} RestSound(x: bytes, p: nat, below: seq<Frame>, f: Frame, root: Elem)
    requires NulFree(x) && 0 < p <= |x| && Nested(below + [f])
    requires After(Area(x), Aside(x), p - 1, Within(below + [f])) == Ok(root)
    ensures Completes(x, p, below, f, root)
    decreases |x| - p
  {
    hide After, Completes, ParseTag, Syntax.TextAt, Syntax.ElementAt, Syntax.OpensAt, Syntax.ClosesAt, Open, Close;
    hide Nested;
    var t, text := TextSound(x, p, below, f, root);
    var f1 := f.(txt := f.txt + text);
    var c := Area(x);
    var st := Within(below + [f1]);
    var e := ParseTag(c, Aside(x), t + 1, st).value.0;
    Renested(below, f, f1);
    if TagStart(c[t + 1]) {
      var name, attrs, closed := OpenSound(x, t, st);
      var h := Frame(|f1.txt|, name, attrs, [], []);
      if closed {
        var el := Elem(name, attrs, [], []);
        ClosesOpen(st, name, attrs);
        assert (below + [f1])[..|below|] == below;
        AloneIs(x, t, e + 1, el);
        Renested(below, f1, WithKid(f1, el));
        RestSound(x, e + 1, below, WithKid(f1, el), root);
        Prepend(x, p, t, e + 1, text, el, below, f, f1, root);
      } else {
        OpenPushes(below, f1, name, attrs);
        NestedPush(below + [f1], h);
        RestSound(x, e + 1, below + [f1], h, root);
        var z, el := ChildClosed(x, t, e + 1, below, f1, h, root);
        Prepend(x, p, t, z, text, el, below, f, f1, root);
      }
    } else {
      ParsesClose(c, Aside(x), t + 1, st);
      var name := CloseSound(x, t, st);
      CloseStep(x, p, t, e + 1, text, below, f, f1, name, root);
    }
  }

  lemma ParsesClose(c: bytes, end: byte, s: nat, st: State)
    requires WorkArea(c) && s < |c| && Good(st) && !TagStart(c[s]) && ParseTag(c, end, s, st).Ok?
    ensures c[s] == SLASH
  {
  }

  lemma Renested(below: seq<Frame>, f: Frame, g: Frame)
    requires Nested(below + [f]) && g.off == f.off
    ensures Nested(below + [g])
  {
    var s, t := below + [f], below + [g];
    forall i: nat, j: nat | i + 1 == j < |t| ensures t[j].off == |t[i].txt| { assert s[j].off == |s[i].txt|; }
  }

  lemma NestedPush(stack: seq<Frame>, h: Frame)
    requires Nested(stack) && stack != [] && h.off == |stack[|stack| - 1].txt|
    ensures Nested(stack + [h])
  {
  }

  lemma AloneIs(x: bytes, s: nat, e: nat, el: Elem)
    requires Syntax.OpensAt(x, s, e, el.name, el.attrs, true) && el.txt == [] && el.kids == []
    ensures Syntax.ElementAt(x, s, e, el)
  {
    hide Syntax.OpensAt;
  }

  // A child whose opening tag stands at t, and what is left behind it.
  lemma ChildClosed(x: bytes, t: nat, p: nat, below: seq<Frame>, f1: Frame, h: Frame, root: Elem)
    returns (z: nat, el: Elem)
    requires Syntax.OpensAt(x, t, p, h.name, h.attrs, false) && h.txt == [] && h.kids == []
    requires Completes(x, p, below + [f1], h, root)
    ensures Syntax.ElementAt(x, t, z, el) && Completes(x, z, below, WithKid(f1, el), root)
  {
    hide Completes, Syntax.OpensAt, Syntax.ClosesAt, Syntax.ContentAt;
    var q, e, txt, kids := CompletesParts(x, p, below + [f1], h, root);
    z, el := e, Filled(h, txt, kids);
    assert (below + [f1])[..|below|] == below;
    assert [] + kids == kids;
    WholeIs(x, t, p, q, e, el);
  }

  lemma WholeIs(x: bytes, s: nat, p: nat, q: nat, e: nat, el: Elem)
    requires Syntax.OpensAt(x, s, p, el.name, el.attrs, false)
    requires Syntax.ContentAt(x, p, q, el.txt, el.kids, 0) && Syntax.ClosesAt(x, q, e, el.name)
    ensures Syntax.ElementAt(x, s, e, el)
  {
    hide Syntax.OpensAt, Syntax.ClosesAt, Syntax.ContentAt;
  }

  // The next tag closes the innermost one.
  lemma {:induction false} CloseStep(
    x: bytes, p: nat, t: nat, z: nat, text: bytes, below: seq<Frame>, f: Frame, f1: Frame, name: bytes, root: Elem)
    requires NulFree(x) && 0 < p <= t < z <= |x| && Nested(below + [f1])
    requires f1 == f.(txt := f.txt + text) && Syntax.TextAt(x, p, t, text) && Syntax.ClosesAt(x, t, z, name)
    requires Close(Within(below + [f1]), name).Ok?
    requires After(Area(x), Aside(x), z - 1, Close(Within(below + [f1]), name).value) == Ok(root)
    ensures Completes(x, p, below, f, root)
    decreases |x| - p, 0
  {
    hide After, Completes, Syntax.TextAt, Syntax.ClosesAt;
    var el := Filled(f, f1.txt, []);
    assert f.kids + [] == f.kids;
    var n := |below| - 1;
    assert el == Completed(f1) && name == f1.name;
    if below == [] {
      assert [] + [f1] == [f1];
      RootPops(f1);
      TailIff(x, z, el, root);
    } else {
      var g := below[n];
      assert below + [f1] == (below[..n] + [g]) + [f1];
      ClosePops(below[..n], g, f1);
      NestedTop(below[..n], g, f1);
      Renested(below[..n], g, WithKid(g, el));
      RestSound(x, z, below[..n], WithKid(g, el), root);
    }
    assert f1.txt[|f.txt|..] == text;
    CompletesIs(x, p, below, f, root, t, z, f1.txt, []);
  }

  lemma NestedTop(below: seq<Frame>, g: Frame, f: Frame)
    requires Nested((below + [g]) + [f])
    ensures Nested(below + [g]) && f.off == |g.txt|
  {
    var s, t := (below + [g]) + [f], below + [g];
    assert s[|below| + 1].off == |s[|below|].txt|;
    forall i: nat, j: nat | i + 1 == j < |t| ensures t[j].off == |t[i].txt| { assert s[j].off == |s[i].txt|; }
  }

  // ----- the document -----

  // A text is parsed to a tree exactly when it is a document for it.
  lemma ParseIff(x: bytes, el: Elem)
    requires NulFree(x)
    ensures ParseUtf8(x) == Ok(el) <==> Syntax.DocumentDenotes(x, el)
  {
    if ParseUtf8(x) == Ok(el) { DocumentSound(x, el); }
    if Syntax.DocumentDenotes(x, el) { DocumentComplete(x, el); }
  }

  lemma DocumentComplete(x: bytes, el: Elem)
    requires NulFree(x) && Syntax.DocumentDenotes(x, el)
    ensures ParseUtf8(x) == Ok(el)
  {
    hide ParseFrom, After, Syntax.ElementAt;
    var s: nat, e: nat :| Syntax.ElementAt(x, s, e, el) && s < e <= |x| && LESS !in x[..s]
      && (e < |x| ==> LESS !in x[e..|x| - 1]);
    RootComplete(x, s, e, el);
    forall i | 0 <= i < s ensures Area(x)[i] != LESS && Area(x)[i] != NUL { assert x[..s][i] == x[i]; }
    ScanIs(Area(x), 0, s, IsLess);
    TailIff(x, e, el, el);
  }

  lemma DocumentSound(x: bytes, el: Elem)
    requires NulFree(x) && ParseUtf8(x) == Ok(el)
    ensures Syntax.DocumentDenotes(x, el)
  {
    hide After, ParseTag, Open, Close, Completes, Syntax.ElementAt, Syntax.OpensAt, Syntax.ClosesAt, ScanTo;
    var c := Area(x);
    var s := ScanTo(c, 0, IsLess);
    forall i | 0 <= i < s ensures x[..s][i] != LESS { assert c[i] == x[i]; }
    if TagStart(c[s + 1]) {
      var e := ParseTag(c, Aside(x), s + 1, Unopened).value.0;
      var name, attrs, closed := OpenSound(x, s, Unopened);
      if closed {
        var alone := Elem(name, attrs, [], []);
        ClosesOpen(Unopened, name, attrs);
        AloneIs(x, s, e + 1, alone);
        TailIff(x, e + 1, alone, el);
        IsDocument(x, s, e + 1, el);
      } else {
        OpensRoot(name, attrs);
        var h := Frame(0, name, attrs, [], []);
        assert [] + [h] == [h];
        RestSound(x, e + 1, [], h, el);
        var q, z, txt, kids := CompletesParts(x, e + 1, [], h, el);
        assert [] + kids == kids;
        WholeIs(x, s, e + 1, q, z, el);
        IsDocument(x, s, z, el);
      }
    } else {
      ParsesClose(c, Aside(x), s + 1, Unopened);
      NothingToClose(c, Aside(x), s + 1);
    }
  }

  lemma IsDocument(x: bytes, s: nat, e: nat, el: Elem)
    requires Syntax.ElementAt(x, s, e, el) && TailFree(x, e) && s <= |x| && LESS !in x[..s]
    ensures Syntax.DocumentDenotes(x, el)
  {
    hide Syntax.ElementAt;
    ElementEnds(x, s, e, el);
  }

  lemma NothingToClose(c: bytes, end: byte, s: nat)
    requires WorkArea(c) && s < |c| && c[s] == SLASH
    ensures ParseTag(c, end, s, Unopened).Err?
  {
    assert !TagStart(SLASH);
  }
}
