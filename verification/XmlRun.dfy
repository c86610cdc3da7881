// ezxml_toxml and ezxml_parse_str as loops over growing text and a moving position.
module XmlRun {
  import opened Bytes
  import opened XmlText
  import opened XmlTree
  import opened XmlParse
  import Utf

  // ----- ezxml_toxml_r -----

  // ezxml_attr: the first attribute of that name.
  method FindAttr(attrs: seq<Attr>, name: bytes) returns (i: nat)
    ensures i <= |attrs| && (i < |attrs| ==> attrs[i].name == name)
    ensures forall j | 0 <= j < i :: attrs[j].name != name
  {
    i := 0;
    while i < |attrs| && attrs[i].name != name
      invariant i <= |attrs|
      invariant forall j | 0 <= j < i :: attrs[j].name != name
    {
      i := i + 1;
    }
  }

  method WriteAttr(a: Attr, dst: bytes) returns (r: bytes)
    requires NulFree(a.value)
    ensures r == dst + AttrText(a)
  {
    hide Encoded;
    r := dst + ([SPACE] + (a.name + [EQUALS, QUOTE]));
    r := Ampencode(a.value, r, true);
    r := r + [QUOTE];
  }

  method WriteAttrs(attrs: seq<Attr>, dst: bytes) returns (r: bytes)
    requires forall i | 0 <= i < |attrs| :: NulFree(attrs[i].value)
    ensures r == dst + AttrsText(attrs, 0)
  {
    hide AttrText, AttrsText, Shadowed;
    r := dst;
    var i: nat := 0;
    while i < |attrs|
      invariant i <= |attrs| && r + AttrsText(attrs, i) == dst + AttrsText(attrs, 0)
    {
      AttrsUnfold(attrs, i);
      var first := FindAttr(attrs, attrs[i].name);
      ShadowedIff(attrs, i, first);
      ghost var rest := AttrsText(attrs, i + 1);
      if first == i {
        ghost var before := r;
        r := WriteAttr(attrs[i], r);
        assert before + (AttrText(attrs[i]) + rest) == r + rest;
      }
      i := i + 1;
    }
    AttrsEnd(attrs);
    assert r + [] == r;
  }

  lemma AttrsUnfold(attrs: seq<Attr>, i: nat)
    requires i < |attrs|
    ensures AttrsText(attrs, i) == (if Shadowed(attrs, i) then [] else AttrText(attrs[i])) + AttrsText(attrs, i + 1)
    ensures Shadowed(attrs, i) ==> AttrsText(attrs, i) == AttrsText(attrs, i + 1)
  {
    hide AttrText, Shadowed;
  }

  lemma AttrsEnd(attrs: seq<Attr>)
    ensures AttrsText(attrs, |attrs|) == []
  {
  }

  lemma ShadowedIff(attrs: seq<Attr>, i: nat, first: nat)
    requires i < |attrs| && first <= |attrs| && (first < |attrs| ==> attrs[first].name == attrs[i].name)
    requires forall j | 0 <= j < first :: attrs[j].name != attrs[i].name
    ensures first <= i && (Shadowed(attrs, i) <==> first < i)
  {
    var a := attrs[i];
    assert a.name == attrs[i].name;
    assert !(i < first);
    if first < i { assert attrs[first].name == a.name; }
  }

  // One element and everything in it, appended to dst.
  method WriteElem(e: Elem, dst: bytes) returns (r: bytes)
    requires Valid(e)
    ensures r == dst + ToXml(e)
    decreases e, 1
  {
    hide AttrsText, Body;
    r := dst + ([LESS] + e.name);
    r := WriteAttrs(e.attrs, r);
    r := r + [GREATER];
    assert r == dst + OpenTag(e);
    ghost var open := r;
    r := WriteBody(e.txt, e.kids, r);
    r := r + CloseTag(e.name);
    assert r == dst + (OpenTag(e) + (Body(e.txt, e.kids, 0) + CloseTag(e.name)));
  }

  method WriteKid(k: Kid, dst: bytes) returns (r: bytes)
    requires Valid(k.elem)
    ensures r == dst + ToXml(k.elem)
    decreases k, 2
  {
    r := WriteElem(k.elem, dst);
  }

  method WriteBody(txt: bytes, kids: seq<Kid>, dst: bytes) returns (r: bytes)
    requires NulFree(txt) && forall i | 0 <= i < |kids| :: Valid(kids[i].elem)
    ensures r == dst + Body(txt, kids, 0)
    decreases kids, 0
  {
    hide Body, Encoded, Valid, ToXml;
    r := dst;
    var i, start: nat := 0, 0;
    assert kids[0..] == kids;
    while i < |kids|
      invariant i <= |kids| && start <= |txt|
      invariant r + Body(txt, kids[i..], start) == dst + Body(txt, kids, 0)
    {
      BodyUnfold(txt, kids, i, start);
      var stop := PieceEnd(txt, start, kids[i].off);
      ghost var before, rest := r, Body(txt, kids[i + 1..], Min(kids[i].off, |txt|));
      r := Ampencode(txt[start..stop], r, false);
      r := WriteKid(kids[i], r);
      assert before + (Encoded(txt[start..stop], false) + (ToXml(kids[i].elem) + rest)) == r + rest;
      start := Min(kids[i].off, |txt|);
      i := i + 1;
    }
    BodyEnd(txt, start);
    assert kids[i..] == [];
    r := Ampencode(txt[start..], r, false);
  }

  lemma BodyUnfold(txt: bytes, kids: seq<Kid>, i: nat, start: nat)
    requires i < |kids| && start <= |txt|
    ensures Body(txt, kids[i..], start)
         == Encoded(txt[start..PieceEnd(txt, start, kids[i].off)], false) +
            (ToXml(kids[i].elem) + Body(txt, kids[i + 1..], Min(kids[i].off, |txt|)))
  {
    hide Encoded, ToXml;
    assert kids[i..][1..] == kids[i + 1..];
  }

  lemma BodyEnd(txt: bytes, start: nat)
    requires start <= |txt|
    ensures Body(txt, [], start) == Encoded(txt[start..], false)
  {
  }

  // ----- ezxml_parse_str -----

  class Reader {
    const c: bytes
    const end: byte
    var s: nat
    var cur: State

    constructor (text: bytes)
      requires text != []
      ensures c == text[..|text| - 1] + [NUL] && end == text[|text| - 1]
      ensures s == 0 && cur == Unopened
    {
      c := text[..|text| - 1] + [NUL];
      end := text[|text| - 1];
      s := 0;
      cur := Unopened;
    }

    ghost predicate Valid()
      reads this
    {
      WorkArea(c) && s < |c| && Good(cur)
    }

    method Advance(stop: byte -> bool)
      requires Valid()
      modifies this`s
      ensures Valid() && s == ScanTo(c, old(s), stop)
    {
      while c[s] != NUL && !stop(c[s])
        invariant Valid() && ScanTo(c, s, stop) == ScanTo(c, old(s), stop)
        decreases |c| - s
      {
        s := s + 1;
      }
    }

    method ReadAttr() returns (r: Result<Attr>)
      requires Valid() && c[s] != NUL && !IsSpace(c[s]) && c[s] != SLASH && c[s] != GREATER
      modifies this`s
      ensures Valid()
      ensures match ParseAttr(c, old(s))
              case Ok((a, n)) => r == Ok(a) && s == n
              case Err(x) => r == Err(x)
    {
      hide ScanTo, AttrValue;
      var d := s;
      Advance(AttrNameEnd);
      var name := c[d..s];
      var value := ReadAttrValue();
      if value.Err? { return Err(value.error); }
      Advance(NotSpace);
      r := Ok(Attr(name, value.value));
    }

    method ReadAttrValue() returns (r: Result<bytes>)
      requires Valid()
      modifies this`s
      ensures Valid()
      ensures match AttrValue(c, old(s))
              case Ok((v, n)) => r == Ok(v) && s == n
              case Err(x) => r == Err(x)
    {
      hide ScanTo, DecodeText, QuotedEnd;
      r := Ok([]);
      if c[s] == EQUALS || IsSpace(c[s]) {
        s := s + 1;
        Advance(NotEquals);
        if c[s] == QUOTE || c[s] == APOS {
          r := ReadQuoted();
        }
      }
    }

    // A quoted value; the position ends up behind the closing quote.
    method ReadQuoted() returns (r: Result<bytes>)
      requires Valid() && (c[s] == QUOTE || c[s] == APOS)
      modifies this`s
      ensures Valid()
      ensures var z := QuotedEnd(c, old(s));
              if c[z] == NUL then r == Err(MissingQuote)
              else r == Ok(DecodeText(c[old(s) + 1..z], true)) && s == z + 1
    {
      hide ScanTo, DecodeText;
      var quote := c[s];
      s := s + 1;
      var v := s;
      if quote == QUOTE {
        Advance(IsQuote);
      } else {
        Advance(IsApos);
      }
      if c[s] == NUL { return Err(MissingQuote); }
      var value := Decode(c[v..s], true);
      s := s + 1;
      r := Ok(value);
    }

    method ReadAttrs() returns (r: Result<seq<Attr>>)
      requires Valid() && !IsSpace(c[s])
      modifies this`s
      ensures Valid()
      ensures match ParseAttrs(c, old(s))
              case Ok((attrs, n)) => r == Ok(attrs) && s == n
              case Err(x) => r == Err(x)
    {
      hide ParseAttrs, ParseAttr;
      var attrs := [];
      AttrsResumeStart(c, s);
      while c[s] != NUL && c[s] != SLASH && c[s] != GREATER
        invariant Valid() && !IsSpace(c[s]) && s >= old(s)
        invariant AttrsResume(c, old(s), s, attrs)
        decreases |c| - s
      {
        AttrsResumeNext(c, old(s), s, attrs);
        var a := ReadAttr();
        if a.Err? { return Err(a.error); }
        attrs := attrs + [a.value];
      }
      AttrsResumeEnd(c, old(s), s, attrs);
      r := Ok(attrs);
    }

    method ReadOpen() returns (r: Result<()>)
      requires Valid() && c[s] != NUL
      modifies this
      ensures Valid()
      ensures match ParseOpen(c, end, old(s), old(cur))
              case Ok((n, st)) => r == Ok(()) && s == n && cur == st
              case Err(x) => r == Err(x)
    {
      hide ScanTo, ParseAttrs, OpenEnd;
      if cur.Closed? { return Err(OutsideRoot); }
      var d := s;
      Advance(NameEnd);
      var name := c[d..s];
      Advance(NotSpace);
      var attrs := ReadAttrs();
      if attrs.Err? { return Err(attrs.error); }
      r := ReadOpenEnd(name, attrs.value);
    }

    method ReadOpenEnd(name: bytes, attrs: seq<Attr>) returns (r: Result<()>)
      requires Valid() && !cur.Closed? && (c[s] == NUL || c[s] == SLASH || c[s] == GREATER)
      modifies this
      ensures Valid()
      ensures match OpenEnd(c, end, old(s), old(cur), name, attrs)
              case Ok((n, st)) => r == Ok(()) && s == n && cur == st
              case Err(x) => r == Err(x)
    {
      hide Open, Close;
      if c[s] == SLASH {
        s := s + 1;
        if (c[s] != NUL && c[s] != GREATER) || (c[s] == NUL && end != GREATER) { return Err(MissingGreater); }
        var closed := Close(Open(cur, name, attrs), name);
        if closed.Err? { return Err(closed.error); }
        cur := closed.value;
      } else if c[s] == GREATER || end == GREATER {
        cur := Open(cur, name, attrs);
      } else {
        return Err(MissingGreater);
      }
      r := Ok(());
    }

    method ReadClose() returns (r: Result<()>)
      requires Valid() && c[s] == SLASH
      modifies this
      ensures Valid()
      ensures match ParseClose(c, end, old(s), old(cur))
              case Ok((n, st)) => r == Ok(()) && s == n && cur == st
              case Err(x) => r == Err(x)
    {
      hide ScanTo, Close;
      s := s + 1;
      var d := s;
      Advance(CloseEnd);
      if c[s] == NUL && end != GREATER { return Err(MissingGreater); }
      var closed := Close(cur, c[d..s]);
      if closed.Err? { return Err(closed.error); }
      cur := closed.value;
      Advance(NotWs);
      r := Ok(());
    }

    // The loop over tags and the text between them.
    method Run() returns (r: Result<Elem>)
      requires Valid() && c[s] == LESS
      modifies this
      ensures r == ParseFrom(c, end, old(s), old(cur))
    {
      hide ScanTo, ParseOpen, ParseClose, Content;
      while true
        invariant Valid() && c[s] == LESS
        invariant ParseFrom(c, end, s, cur) == ParseFrom(c, end, old(s), old(cur))
        decreases |c| - s
      {
        s := s + 1;
        var tag: Result<()> := Err(UnexpectedMarkup);
        if TagStart(c[s]) {
          tag := ReadOpen();
        } else if c[s] == SLASH {
          tag := ReadClose();
        }
        if tag.Err? { return Err(tag.error); }
        if c[s] == NUL { return Finish(cur); }
        s := s + 1;
        if c[s] == NUL { return Finish(cur); }
        var d := s;
        Advance(IsLess);
        if c[s] == NUL { return Finish(cur); }
        if d < s { cur := Content(cur, c[d..s]); }
      }
    }
  }

  method Parse(text: bytes) returns (r: Result<Elem>)
    ensures r == ParseStr(text)
  {
    hide ScanTo, ParseFrom;
    if text == [] { return Err(RootTagMissing); }
    var utf8 := Utf.StrToUtf8(text);
    var work := if utf8.Some? then utf8.value else text;
    if work == [] { return Err(RootTagMissing); }
    var reader := new Reader(work);
    reader.Advance(IsLess);
    if reader.c[reader.s] == NUL { return Err(RootTagMissing); }
    r := reader.Run();
  }

  // attrs is what the attribute loop has collected at s.
  ghost predicate AttrsResume(c: bytes, first: nat, s: nat, attrs: seq<Attr>)
    requires WorkArea(c) && first < |c| && s < |c| && !IsSpace(c[first]) && !IsSpace(c[s])
  {
    match ParseAttrs(c, s)
    case Err(x) => ParseAttrs(c, first) == Err(x)
    case Ok((rest, n)) => ParseAttrs(c, first) == Ok((attrs + rest, n))
  }

  lemma AttrsResumeStart(c: bytes, s: nat)
    requires WorkArea(c) && s < |c| && !IsSpace(c[s])
    ensures AttrsResume(c, s, s, [])
  {
    hide ParseAttrs;
    if ParseAttrs(c, s).Ok? {
      var (rest, _) := ParseAttrs(c, s).value;
      assert [] + rest == rest;
    }
  }

  lemma AttrsResumeNext(c: bytes, first: nat, s: nat, attrs: seq<Attr>)
    requires WorkArea(c) && first < |c| && s < |c| && !IsSpace(c[first]) && !IsSpace(c[s])
    requires c[s] != NUL && c[s] != SLASH && c[s] != GREATER && AttrsResume(c, first, s, attrs)
    ensures var r := ParseAttr(c, s);
            if r.Err? then ParseAttrs(c, first) == Err(r.error)
            else AttrsResume(c, first, r.value.1, attrs + [r.value.0])
  {
    hide ParseAttr;
    var r := ParseAttr(c, s);
    if r.Ok? && ParseAttrs(c, r.value.1).Ok? {
      var (rest, _) := ParseAttrs(c, r.value.1).value;
      assert attrs + ([r.value.0] + rest) == (attrs + [r.value.0]) + rest;
    }
  }

  lemma AttrsResumeEnd(c: bytes, first: nat, s: nat, attrs: seq<Attr>)
    requires WorkArea(c) && first < |c| && s < |c| && !IsSpace(c[first]) && !IsSpace(c[s])
    requires (c[s] == NUL || c[s] == SLASH || c[s] == GREATER) && AttrsResume(c, first, s, attrs)
    ensures ParseAttrs(c, first) == Ok((attrs, s))
  {
    assert attrs + [] == attrs;
  }
}
