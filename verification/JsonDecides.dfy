// The parser decides the grammar: it takes exactly the texts that denote a value nested at most 1000 deep,
// with that value and that end.
module JsonDecides {
  import opened Bytes
  import opened JsonValue
  import opened JsonParse
  import opened JsonGrammar
  import JsonNumber
  import JsonStrings

  // ----- blanks -----

  lemma {:induction false} SkipRun(c: bytes, off: nat, p: nat)
    requires off <= p < |c| && Blank(c[off..p]) && (c[p] > 32 || p == |c| - 1)
    ensures SkipWhitespace(c, off) == p
    decreases p - off
  {
    if off < p {
      assert c[off] == c[off..p][0] && c[off + 1..p] == c[off..p][1..];
      SkipRun(c, off + 1, p);
    } else if c[p] <= 32 {
      assert SkipSpaces(c, p + 1) == p + 1;
    }
  }

  lemma SkipBlank(c: bytes, off: nat)
    requires off < |c|
    ensures var r := SkipWhitespace(c, off); off <= r && Blank(c[off..r])
  {
  }

  // First byte of every text that denotes a value: visible, and none of the bytes the loops test for.
  predicate ValueStart(b: byte) {
    32 < b < 128 && b != RBRACKET && b != RBRACE && b != COMMA
  }

  lemma DenotesStart(t: bytes, v: Json)
    requires Denotes(t, v)
    ensures |t| > 0 && ValueStart(t[0])
  {
    hide IsDecimal, Unescapes, Unquoted, ElementsDenote, MembersDenote;
  }

  // ----- the parts of a text -----

  lemma ThreeParts(c: bytes, a: nat, p: nat, e: nat, q: nat)
    requires a <= p <= e <= q <= |c|
    ensures var t := c[a..q]; t[..p - a] == c[a..p] && t[p - a..e - a] == c[p..e] && t[e - a..] == c[e..q]
  {
    var u, w := c[a..q][p - a..e - a], c[p..e];
    assert |u| == |w| && forall k | 0 <= k < |u| :: u[k] == w[k];
  }

  lemma PaddedIs(c: bytes, a: nat, p: nat, e: nat, q: nat, v: Json)
    requires a <= p <= e <= q <= |c| && Blank(c[a..p]) && Denotes(c[p..e], v) && Blank(c[e..q])
    ensures Padded(c[a..q], v)
  {
    hide Denotes, Blank;
    ThreeParts(c, a, p, e, q);
  }

  lemma PaddedParts(c: bytes, a: nat, q: nat, v: Json) returns (p: nat, e: nat)
    requires a <= q <= |c| && Padded(c[a..q], v)
    ensures a <= p <= e <= q && Blank(c[a..p]) && Denotes(c[p..e], v) && Blank(c[e..q])
  {
    hide Denotes, Blank;
    var t := c[a..q];
    var i, j :| 0 <= i <= j <= |t| && Blank(t[..i]) && Denotes(t[i..j], v) && Blank(t[j..]);
    p, e := a + i, a + j;
    ThreeParts(c, a, p, e, q);
  }

  lemma KeyIs(c: bytes, a: nat, p: nat, e: nat, q: nat, key: bytes)
    requires a <= p <= e <= q <= |c| && Blank(c[a..p]) && LiteralDenotes(c[p..e], key) && Blank(c[e..q])
    ensures KeyDenotes(c[a..q], key)
  {
    hide LiteralDenotes, Blank;
    ThreeParts(c, a, p, e, q);
  }

  lemma KeyParts(c: bytes, a: nat, q: nat, key: bytes) returns (p: nat, e: nat)
    requires a <= q <= |c| && KeyDenotes(c[a..q], key)
    ensures a <= p <= e <= q && Blank(c[a..p]) && LiteralDenotes(c[p..e], key) && Blank(c[e..q])
  {
    hide LiteralDenotes, Blank;
    var t := c[a..q];
    var i, j :| 0 <= i <= j <= |t| && Blank(t[..i]) && LiteralDenotes(t[i..j], key) && Blank(t[j..]);
    p, e := a + i, a + j;
    ThreeParts(c, a, p, e, q);
  }

  lemma CutAt(c: bytes, a: nat, q: nat, z: nat)
    requires a <= q < z <= |c|
    ensures c[a..z][..q - a] == c[a..q] && c[a..z][q - a + 1..] == c[q + 1..z] && c[a..z][q - a] == c[q]
  {
  }

  lemma ElementsIs(c: bytes, a: nat, q: nat, z: nat, v: Json, vs: seq<Json>)
    requires a <= q < z <= |c| && c[q] == COMMA && vs != []
    requires Padded(c[a..q], v) && ElementsDenote(c[q + 1..z], vs)
    ensures ElementsDenote(c[a..z], [v] + vs)
  {
    hide Padded;
    CutAt(c, a, q, z);
    assert ([v] + vs)[1..] == vs;
  }

  lemma ElementsParts(c: bytes, a: nat, z: nat, items: seq<Json>) returns (q: nat)
    requires a <= z <= |c| && |items| > 1 && ElementsDenote(c[a..z], items)
    ensures a <= q < z && c[q] == COMMA && Padded(c[a..q], items[0]) && ElementsDenote(c[q + 1..z], items[1..])
  {
    hide Padded;
    var t := c[a..z];
    var k :| 0 <= k < |t| && t[k] as char == ',' && Padded(t[..k], items[0]) && ElementsDenote(t[k + 1..], items[1..]);
    q := a + k;
    CutAt(c, a, q, z);
  }

  lemma MemberIs(c: bytes, a: nat, q: nat, z: nat, m: Member)
    requires a <= q < z <= |c| && c[q] == COLON && KeyDenotes(c[a..q], m.key) && Padded(c[q + 1..z], m.value)
    ensures MemberDenotes(c[a..z], m)
  {
    hide Padded, KeyDenotes;
    CutAt(c, a, q, z);
  }

  lemma MemberParts(c: bytes, a: nat, z: nat, m: Member) returns (q: nat)
    requires a <= z <= |c| && MemberDenotes(c[a..z], m)
    ensures a <= q < z && c[q] == COLON && KeyDenotes(c[a..q], m.key) && Padded(c[q + 1..z], m.value)
  {
    hide Padded, KeyDenotes;
    var t := c[a..z];
    var k :| 0 <= k < |t| && t[k] as char == ':' && KeyDenotes(t[..k], m.key) && Padded(t[k + 1..], m.value);
    q := a + k;
    CutAt(c, a, q, z);
  }

  lemma MembersIs(c: bytes, a: nat, q: nat, z: nat, m: Member, ms: seq<Member>)
    requires a <= q < z <= |c| && c[q] == COMMA && ms != []
    requires MemberDenotes(c[a..q], m) && MembersDenote(c[q + 1..z], ms)
    ensures MembersDenote(c[a..z], [m] + ms)
  {
    hide MemberDenotes;
    CutAt(c, a, q, z);
    assert ([m] + ms)[1..] == ms;
  }

  lemma MembersParts(c: bytes, a: nat, z: nat, ms: seq<Member>) returns (q: nat)
    requires a <= z <= |c| && |ms| > 1 && MembersDenote(c[a..z], ms)
    ensures a <= q < z && c[q] == COMMA && MemberDenotes(c[a..q], ms[0]) && MembersDenote(c[q + 1..z], ms[1..])
  {
    hide MemberDenotes;
    var t := c[a..z];
    var k :| 0 <= k < |t| && t[k] as char == ',' && MemberDenotes(t[..k], ms[0]) && MembersDenote(t[k + 1..], ms[1..]);
    q := a + k;
    CutAt(c, a, q, z);
  }

  // ----- what the parser takes, denotes -----

  lemma Inner(c: bytes, off: nat, e: nat)
    requires off + 1 < e <= |c|
    ensures var t := c[off..e];
            |t| >= 2 && t[0] == c[off] && t[|t| - 1] == c[e - 1] && t[1..|t| - 1] == c[off + 1..e - 1]
  {
    var a, b := c[off..e][1..e - off - 1], c[off + 1..e - 1];
    assert |a| == |b| && forall i | 0 <= i < |a| :: a[i] == b[i];
  }

  lemma NullIs(c: bytes, off: nat)
    ensures At(c, off, NULL_TEXT) <==> off + 4 <= |c| && c[off..off + 4] == Ascii("null")
    ensures At(c, off, FALSE_TEXT) <==> off + 5 <= |c| && c[off..off + 5] == Ascii("false")
    ensures At(c, off, TRUE_TEXT) <==> off + 4 <= |c| && c[off..off + 4] == Ascii("true")
  {
    assert NULL_TEXT == Ascii("null") && FALSE_TEXT == Ascii("false") && TRUE_TEXT == Ascii("true");
  }

  lemma {:induction false} ValueSound(c: bytes, off: nat, depth: nat)
    requires Terminated(c) && off < |c| && depth <= NESTING_LIMIT && ParseValue(c, off, depth).Ok?
    ensures var r := ParseValue(c, off, depth);
            && Denotes(c[off..r.end], r.value) && depth + Nest(r.value) <= NESTING_LIMIT
            && (r.value.Number? ==> Longest(c[off..], r.end - off))
    decreases |c| - off, 2
  {
    hide ParseNumber, ParseString, ParseArray, ParseObject, LiteralDenotes, ElementsDenote, MembersDenote;
    hide NumberDenotes, Longest, At, Ascii;
    NullIs(c, off);
    if At(c, off, NULL_TEXT) || At(c, off, FALSE_TEXT) || At(c, off, TRUE_TEXT) {
    } else if c[off] == QUOTE {
      JsonStrings.StringSound(c, off);
    } else if c[off] == MINUS || IsDigit(c[off]) {
      JsonNumber.NumberSound(c, off);
    } else if c[off] == LBRACKET {
      ArraySound(c, off, depth);
    } else {
      ObjectSound(c, off, depth);
    }
  }

  lemma {:induction false} ArraySound(c: bytes, off: nat, depth: nat)
    requires Terminated(c) && off < |c| && c[off] == LBRACKET && depth <= NESTING_LIMIT && ParseArray(c, off, depth).Ok?
    ensures var r := ParseArray(c, off, depth);
            r.value.Array? && Denotes(c[off..r.end], r.value) && depth + Nest(r.value) <= NESTING_LIMIT
    decreases |c| - off, 1
  {
    hide ParseElements, ElementsDenote, SkipWhitespace, NestItems, Blank;
    var r := ParseArray(c, off, depth);
    SkipBlank(c, off + 1);
    var p := SkipWhitespace(c, off + 1);
    if c[p] == RBRACKET {
      NothingDenoted(c[off + 1..p]);
    } else {
      ElementsSound(c, off + 1, p - 1, depth + 1);
    }
    Inner(c, off, r.end);
  }

  lemma NothingDenoted(t: bytes)
    requires Blank(t)
    ensures ElementsDenote(t, []) && MembersDenote(t, []) && NestItems([]) == 0 && NestMembers([]) == 0
  {
  }

  lemma OneElement(t: bytes, v: Json)
    ensures ElementsDenote(t, [v]) <==> Padded(t, v)
    ensures NestItems([v]) == Nest(v)
  {
    hide Padded, Nest;
    assert [v][1..] == [];
  }

  lemma NestCons(v: Json, vs: seq<Json>)
    ensures NestItems([v] + vs) == Max(Nest(v), NestItems(vs))
  {
    hide Nest;
    assert ([v] + vs)[1..] == vs;
  }

  // The loop over the elements, entered behind blanks that start at a.
  lemma {:induction false} ElementsSound(c: bytes, a: nat, before: nat, depth: nat)
    requires Terminated(c) && a <= before + 1 < |c| && Blank(c[a..before + 1])
    requires depth <= NESTING_LIMIT && ParseElements(c, before, depth).Ok?
    ensures var r := ParseElements(c, before, depth);
            && c[r.end - 1] == RBRACKET && ElementsDenote(c[a..r.end - 1], r.value)
            && depth + NestItems(r.value) <= NESTING_LIMIT
    decreases |c| - before, 0
  {
    hide ParseValue, ElementsDenote, SkipWhitespace, NestItems, Nest, Blank, Denotes, Padded, Longest;
    var p := SkipWhitespace(c, before + 1);
    SkipBlank(c, before + 1);
    BlankOn(c, a, before + 1, p);
    ValueSound(c, p, depth);
    var v, e := ParseValue(c, p, depth).value, ParseValue(c, p, depth).end;
    var q := SkipWhitespace(c, e);
    SkipBlank(c, e);
    PaddedIs(c, a, p, e, q, v);
    if c[q] == COMMA {
      NoBlank(c, q + 1);
      ElementsSound(c, q + 1, q, depth);
      var r := ParseElements(c, q, depth);
      ElementsIs(c, a, q, r.end - 1, v, r.value);
      NestCons(v, r.value);
    } else {
      OneElement(c[a..q], v);
    }
  }

  lemma BlankOn(c: bytes, a: nat, b: nat, d: nat)
    requires a <= b <= d <= |c| && Blank(c[a..b]) && Blank(c[b..d])
    ensures Blank(c[a..d])
  {
    forall i | 0 <= i < d - a ensures c[a..d][i] <= 32 {
      if i < b - a { assert c[a..d][i] == c[a..b][i]; } else { assert c[a..d][i] == c[b..d][i - (b - a)]; }
    }
  }

  lemma NoBlank(c: bytes, a: nat)
    requires a <= |c|
    ensures Blank(c[a..a])
  {
  }

  lemma {:induction false} ObjectSound(c: bytes, off: nat, depth: nat)
    requires Terminated(c) && off < |c| && c[off] == LBRACE && depth <= NESTING_LIMIT && ParseObject(c, off, depth).Ok?
    ensures var r := ParseObject(c, off, depth);
            r.value.Object? && Denotes(c[off..r.end], r.value) && depth + Nest(r.value) <= NESTING_LIMIT
    decreases |c| - off, 1
  {
    hide ParseMembers, MembersDenote, SkipWhitespace, NestMembers, Blank;
    var r := ParseObject(c, off, depth);
    SkipBlank(c, off + 1);
    var p := SkipWhitespace(c, off + 1);
    if c[p] == RBRACE {
      NothingDenoted(c[off + 1..p]);
    } else {
      MembersSound(c, off + 1, p - 1, depth + 1);
    }
    Inner(c, off, r.end);
  }

  lemma {:induction false} MemberSound(c: bytes, a: nat, before: nat, depth: nat)
    requires Terminated(c) && a <= before + 1 < |c| && Blank(c[a..before + 1])
    requires depth <= NESTING_LIMIT && ParseMember(c, before, depth).Ok?
    ensures var r := ParseMember(c, before, depth);
            var q := SkipWhitespace(c, r.end);
            && r.end <= q && MemberDenotes(c[a..q], r.value) && depth + Nest(r.value.value) <= NESTING_LIMIT
    decreases |c| - before, 0, 0
  {
    hide ParseValue, ParseString, SkipWhitespace, Nest, Blank, Denotes, LiteralDenotes, Padded, KeyDenotes, Longest;
    var p := SkipWhitespace(c, before + 1);
    SkipBlank(c, before + 1);
    BlankOn(c, a, before + 1, p);
    JsonStrings.StringSound(c, p);
    var e := ParseString(c, p).end;
    var k := SkipWhitespace(c, e);
    SkipBlank(c, e);
    KeyIs(c, a, p, e, k, ParseString(c, p).value);
    var i := SkipWhitespace(c, k + 1);
    SkipBlank(c, k + 1);
    ValueSound(c, i, depth);
    var z := ParseValue(c, i, depth).end;
    SkipBlank(c, z);
    PaddedIs(c, k + 1, i, z, SkipWhitespace(c, z), ParseValue(c, i, depth).value);
    MemberIs(c, a, k, SkipWhitespace(c, z), ParseMember(c, before, depth).value);
  }

  lemma OneMember(t: bytes, m: Member)
    ensures MembersDenote(t, [m]) <==> MemberDenotes(t, m)
    ensures NestMembers([m]) == Nest(m.value)
  {
    hide MemberDenotes, Nest;
    assert [m][1..] == [];
  }

  lemma NestMemberCons(m: Member, ms: seq<Member>)
    ensures NestMembers([m] + ms) == Max(Nest(m.value), NestMembers(ms))
  {
    hide Nest;
    assert ([m] + ms)[1..] == ms;
  }

  lemma {:induction false} MembersSound(c: bytes, a: nat, before: nat, depth: nat)
    requires Terminated(c) && a <= before + 1 < |c| && Blank(c[a..before + 1])
    requires depth <= NESTING_LIMIT && ParseMembers(c, before, depth).Ok?
    ensures var r := ParseMembers(c, before, depth);
            && c[r.end - 1] == RBRACE && MembersDenote(c[a..r.end - 1], r.value)
            && depth + NestMembers(r.value) <= NESTING_LIMIT
    decreases |c| - before, 0, 1
  {
    hide ParseMember, MembersDenote, SkipWhitespace, NestMembers, Nest, Blank, MemberDenotes;
    MemberSound(c, a, before, depth);
    var m := ParseMember(c, before, depth).value;
    var q := SkipWhitespace(c, ParseMember(c, before, depth).end);
    if c[q] == COMMA {
      NoBlank(c, q + 1);
      MembersSound(c, q + 1, q, depth);
      var r := ParseMembers(c, q, depth);
      MembersIs(c, a, q, r.end - 1, m, r.value);
      NestMemberCons(m, r.value);
    } else {
      OneMember(c[a..q], m);
    }
  }

  // ----- what denotes a value, the parser takes -----

  // What parsing at a place where a text for v stands must give.
  ghost predicate Recovers(r: Parsed<Json>, v: Json, end: nat, depth: nat) {
    if depth + Nest(v) <= NESTING_LIMIT then r == Ok(v, end) else r.Err?
  }

  // Of the three literals, each begins with another letter, and no other value begins with one of them.
  lemma LiteralStart(c: bytes, off: nat)
    requires off < |c|
    ensures At(c, off, NULL_TEXT) ==> c[off] == 110
    ensures At(c, off, FALSE_TEXT) ==> c[off] == 102
    ensures At(c, off, TRUE_TEXT) ==> c[off] == 116
  {
    if At(c, off, NULL_TEXT) { AtIndex(c, off, NULL_TEXT, 0); }
    if At(c, off, FALSE_TEXT) { AtIndex(c, off, FALSE_TEXT, 0); }
    if At(c, off, TRUE_TEXT) { AtIndex(c, off, TRUE_TEXT, 0); }
  }

  lemma {:induction false} ValueComplete(c: bytes, off: nat, e: nat, v: Json, depth: nat)
    requires Terminated(c) && off <= e < |c| && depth <= NESTING_LIMIT && Denotes(c[off..e], v)
    requires v.Number? ==> Longest(c[off..], e - off)
    ensures off < e && Recovers(ParseValue(c, off, depth), v, e, depth)
    decreases v, 1
  {
    hide ParseNumber, ParseString, ParseArray, ParseObject, LiteralDenotes, ElementsDenote, MembersDenote;
    hide IsDecimal, Longest, At, Ascii;
    DenotesStart(c[off..e], v);
    assert c[off] == c[off..e][0];
    NullIs(c, off);
    LiteralStart(c, off);
    match v
    case Null =>
    case False =>
    case True =>
    case Number(d) => JsonNumber.NumberComplete(c, off, e, d);
    case String(s) => JsonStrings.StringComplete(c, off, e, s);
    case Array(items) => ArrayComplete(c, off, e, items, depth);
    case Object(ms) => ObjectComplete(c, off, e, ms, depth);
  }

  lemma {:induction false} ArrayComplete(c: bytes, off: nat, e: nat, items: seq<Json>, depth: nat)
    requires Terminated(c) && off <= e < |c| && depth <= NESTING_LIMIT && Denotes(c[off..e], Array(items))
    ensures off < e && c[off] == LBRACKET && Recovers(ParseArray(c, off, depth), Array(items), e, depth)
    decreases items, 3
  {
    hide ElementsDenote, ParseElements, SkipWhitespace, NestItems, Blank;
    Inner(c, off, e);
    if items == [] {
      NothingDenoted([]);
      BlankInside(c, off + 1, e - 1);
    } else if depth < NESTING_LIMIT {
      ElementsFirst(c, off + 1, e - 1, items);
      var p := SkipWhitespace(c, off + 1);
      SkipTwice(c, off + 1);
      ElementsComplete(c, off + 1, p - 1, e - 1, items, depth + 1);
    }
  }

  lemma SkipTwice(c: bytes, a: nat)
    requires Terminated(c) && a < |c|
    ensures SkipWhitespace(c, SkipWhitespace(c, a)) == SkipWhitespace(c, a)
  {
    NoBlank(c, SkipWhitespace(c, a));
    SkipRun(c, SkipWhitespace(c, a), SkipWhitespace(c, a));
  }

  lemma BlankInside(c: bytes, a: nat, z: nat)
    requires Terminated(c) && a <= z < |c| && c[z] > 32 && (ElementsDenote(c[a..z], []) || MembersDenote(c[a..z], []))
    ensures SkipWhitespace(c, a) == z
  {
    SkipRun(c, a, z);
  }

  // The first value of a list stands behind the blanks, and begins with none of the bytes tested for.
  lemma ElementsFirst(c: bytes, a: nat, z: nat, items: seq<Json>)
    requires Terminated(c) && a <= z < |c| && items != [] && ElementsDenote(c[a..z], items)
    ensures var p := SkipWhitespace(c, a); a <= p < z && c[p] > 32 && c[p] != RBRACKET
  {
    hide Padded, SkipWhitespace, Blank, Denotes;
    var q := z;
    if |items| > 1 { q := ElementsParts(c, a, z, items); }
    var p, e := PaddedParts(c, a, q, items[0]);
    DenotesStart(c[p..e], items[0]);
    assert c[p] == c[p..e][0];
    SkipRun(c, a, p);
  }

  // One value between blanks, in front of a byte that ends it.
  lemma {:induction false} PaddedComplete(c: bytes, a: nat, q: nat, v: Json, depth: nat)
    requires Terminated(c) && a <= q < |c| && c[q] > 32 && !NumberChar(c[q]) && depth <= NESTING_LIMIT
    requires Padded(c[a..q], v)
    ensures var r := ParseValue(c, SkipWhitespace(c, a), depth);
            if depth + Nest(v) <= NESTING_LIMIT then r.Ok? && r.value == v && SkipWhitespace(c, r.end) == q else r.Err?
    decreases v, 2
  {
    hide SkipWhitespace, Denotes, Nest, ParseValue, NumberChar, Blank;
    var p, e := PaddedParts(c, a, q, v);
    DenotesStart(c[p..e], v);
    assert c[p] == c[p..e][0];
    SkipRun(c, a, p);
    SkipRun(c, e, q);
    EndsNumber(c, e, q);
    JsonNumber.NoLonger(c, p, e);
    ValueComplete(c, p, e, v, depth);
  }

  lemma EndsNumber(c: bytes, e: nat, q: nat)
    requires e <= q < |c| && Blank(c[e..q]) && !NumberChar(c[q])
    ensures !NumberChar(c[e])
  {
    if e < q { assert c[e] == c[e..q][0]; }
  }

  lemma {:induction false} ElementsComplete(c: bytes, a: nat, before: nat, z: nat, items: seq<Json>, depth: nat)
    requires Terminated(c) && a <= z < |c| && before + 1 < |c| && SkipWhitespace(c, before + 1) == SkipWhitespace(c, a)
    requires c[z] == RBRACKET && items != [] && ElementsDenote(c[a..z], items) && depth <= NESTING_LIMIT
    ensures var r := ParseElements(c, before, depth);
            if depth + NestItems(items) <= NESTING_LIMIT then r == Ok(items, z + 1) else r.Err?
    decreases items, 2
  {
    hide SkipWhitespace, Nest, ParseValue, Padded, ElementsDenote;
    if |items| == 1 {
      assert items == [items[0]];
      OneElement(c[a..z], items[0]);
      PaddedComplete(c, a, z, items[0], depth);
    } else {
      var q := ElementsParts(c, a, z, items);
      PaddedComplete(c, a, q, items[0], depth);
      assert items == [items[0]] + items[1..];
      NestCons(items[0], items[1..]);
      if depth + Nest(items[0]) <= NESTING_LIMIT {
        ElementsComplete(c, q + 1, q, z, items[1..], depth);
      }
    }
  }

  lemma {:induction false} ObjectComplete(c: bytes, off: nat, e: nat, ms: seq<Member>, depth: nat)
    requires Terminated(c) && off <= e < |c| && depth <= NESTING_LIMIT && Denotes(c[off..e], Object(ms))
    ensures off < e && c[off] == LBRACE && Recovers(ParseObject(c, off, depth), Object(ms), e, depth)
    decreases ms, 3
  {
    hide MembersDenote, ParseMembers, SkipWhitespace, NestMembers, Blank;
    Inner(c, off, e);
    if ms == [] {
      NothingDenoted([]);
      BlankInside(c, off + 1, e - 1);
    } else if depth < NESTING_LIMIT {
      MembersFirst(c, off + 1, e - 1, ms);
      var p := SkipWhitespace(c, off + 1);
      SkipTwice(c, off + 1);
      MembersComplete(c, off + 1, p - 1, e - 1, ms, depth + 1);
    }
  }

  // The name of a member stands behind the blanks, and is what parse_string takes there.
  lemma KeyComplete(c: bytes, a: nat, q: nat, key: bytes)
    requires Terminated(c) && a <= q < |c| && c[q] > 32 && KeyDenotes(c[a..q], key)
    ensures var p := SkipWhitespace(c, a);
            && a <= p < q && c[p] == QUOTE
            && ParseString(c, p).Ok? && ParseString(c, p).value == key && SkipWhitespace(c, ParseString(c, p).end) == q
  {
    hide SkipWhitespace, Unescapes, Unquoted, ParseString, Blank;
    var p, e := KeyParts(c, a, q, key);
    assert c[p] == c[p..e][0];
    SkipRun(c, a, p);
    SkipRun(c, e, q);
    JsonStrings.StringComplete(c, p, e, key);
  }

  lemma MembersFirst(c: bytes, a: nat, z: nat, ms: seq<Member>)
    requires Terminated(c) && a <= z < |c| && ms != [] && MembersDenote(c[a..z], ms)
    ensures var p := SkipWhitespace(c, a); a <= p < z && c[p] == QUOTE
  {
    hide MemberDenotes, SkipWhitespace, KeyDenotes, Padded;
    var q := z;
    if |ms| > 1 { q := MembersParts(c, a, z, ms); }
    var k := MemberParts(c, a, q, ms[0]);
    KeyComplete(c, a, k, ms[0].key);
  }

  lemma {:induction false} MemberComplete(c: bytes, a: nat, before: nat, q: nat, m: Member, depth: nat)
    requires Terminated(c) && a <= q < |c| && before + 1 < |c| && SkipWhitespace(c, before + 1) == SkipWhitespace(c, a)
    requires c[q] > 32 && !NumberChar(c[q]) && MemberDenotes(c[a..q], m) && depth <= NESTING_LIMIT
    ensures var r := ParseMember(c, before, depth);
            if depth + Nest(m.value) <= NESTING_LIMIT then r.Ok? && r.value == m && SkipWhitespace(c, r.end) == q
            else r.Err?
    decreases m, 3
  {
    hide SkipWhitespace, Nest, ParseValue, ParseString, Padded, KeyDenotes, MemberDenotes, NumberChar;
    var k := MemberParts(c, a, q, m);
    KeyComplete(c, a, k, m.key);
    PaddedComplete(c, k + 1, q, m.value, depth);
  }

  lemma {:induction false} MembersComplete(c: bytes, a: nat, before: nat, z: nat, ms: seq<Member>, depth: nat)
    requires Terminated(c) && a <= z < |c| && before + 1 < |c| && SkipWhitespace(c, before + 1) == SkipWhitespace(c, a)
    requires c[z] == RBRACE && ms != [] && MembersDenote(c[a..z], ms) && depth <= NESTING_LIMIT
    ensures var r := ParseMembers(c, before, depth);
            if depth + NestMembers(ms) <= NESTING_LIMIT then r == Ok(ms, z + 1) else r.Err?
    decreases ms, 2
  {
    hide SkipWhitespace, Nest, ParseMember, MemberDenotes, MembersDenote;
    if |ms| == 1 {
      assert ms == [ms[0]];
      OneMember(c[a..z], ms[0]);
      MemberComplete(c, a, before, z, ms[0], depth);
    } else {
      var q := MembersParts(c, a, z, ms);
      MemberComplete(c, a, before, q, ms[0], depth);
      assert ms == [ms[0]] + ms[1..];
      NestMemberCons(ms[0], ms[1..]);
      if depth + Nest(ms[0].value) <= NESTING_LIMIT {
        MembersComplete(c, q + 1, q, z, ms[1..], depth);
      }
    }
  }

  // ----- the whole text -----

  lemma BomIs(c: bytes)
    ensures At(c, 0, BOM) <==> |c| >= 3 && c[0] == 0xEF && c[1] == 0xBB && c[2] == 0xBF
  {
    if |c| >= 3 { assert c[0..3] == [c[0], c[1], c[2]]; }
  }

  lemma LeadIs(text: bytes, i: nat)
    requires NulFree(text) && i < |text| && 32 < text[i] < 128
    ensures var c := text + [NUL];
            Lead(text[..i]) <==> SkipBom(c) <= i && Blank(c[SkipBom(c)..i])
  {
    var c := text + [NUL];
    BomIs(c);
    assert c[0..i] == text[..i];
    if SkipBom(c) == 3 {
      assert i > 2;
      assert text[..i][3..] == c[3..i];
    }
  }

  // The parser takes a value from the front of a text exactly when one stands there that is nested at most
  // 1000 deep; it gives that value and its end.
  lemma ParseIff(text: bytes, v: Json, e: nat)
    requires NulFree(text)
    ensures Parse(text) == Ok(v, e) <==> StartsWith(text, v, e) && Nest(v) <= NESTING_LIMIT
  {
    hide Denotes, ParseValue, SkipWhitespace, Nest, Longest, Lead, SkipBom, Blank;
    var c := text + [NUL];
    var i := SkipWhitespace(c, SkipBom(c));
    SkipBlank(c, SkipBom(c));
    if Parse(text) == Ok(v, e) {
      ValueSound(c, i, 0);
      Inside(text, i, e);
      DenotesStart(c[i..e], v);
      assert c[i] == c[i..e][0];
      LeadIs(text, i);
      assert Lead(text[..i]) && Denotes(text[i..e], v);
    }
    if StartsWith(text, v, e) {
      var k :| 0 <= k <= e <= |text| && Lead(text[..k]) && Denotes(text[k..e], v)
             && (v.Number? ==> Longest(text[k..], e - k));
      DenotesStart(text[k..e], v);
      assert text[k] == text[k..e][0];
      LeadIs(text, k);
      SkipRun(c, SkipBom(c), k);
      Inside(text, k, e);
      ValueComplete(c, k, e, v, 0);
    }
  }

  lemma Inside(text: bytes, i: nat, e: nat)
    requires i <= e <= |text| && NulFree(text)
    ensures var c := text + [NUL];
            c[i..e] == text[i..e] && (Longest(c[i..], e - i) <==> Longest(text[i..], e - i))
  {
    hide IsDecimal;
    var c := text + [NUL];
    var t, u := text[i..], c[i..];
    forall m | 0 <= m <= |t| ensures u[..m] == t[..m] {}
    forall m, d | m == |u| ensures !IsDecimal(u[..m], d) {
      if IsDecimal(u[..m], d) { JsonNumber.DecimalChars(u[..m], d, m - 1); }
    }
  }

  // With the check for trailing bytes: only blanks follow the value.
  lemma ParseWholeIff(text: bytes, v: Json)
    requires NulFree(text)
    ensures ParseWithOpts(text, true) == Ok(v, |text|) <==>
            Nest(v) <= NESTING_LIMIT && exists e | 0 <= e <= |text| :: StartsWith(text, v, e) && Blank(text[e..])
    ensures ParseWithOpts(text, true).Ok? ==> ParseWithOpts(text, true).end == |text|
  {
    hide StartsWith, ParseValue, SkipWhitespace, Nest, SkipBom, Blank;
    var c := text + [NUL];
    if ParseWithOpts(text, true) == Ok(v, |text|) {
      var e := Parse(text).end;
      ParseIff(text, v, e);
      SkipBlank(c, e);
      assert c[e..|text|] == text[e..];
    }
    if exists e | 0 <= e <= |text| :: StartsWith(text, v, e) && Blank(text[e..]) {
      var e :| 0 <= e <= |text| && StartsWith(text, v, e) && Blank(text[e..]);
      ParseIff(text, v, e);
      assert c[e..|text|] == text[e..];
      SkipRun(c, e, |text|);
    }
  }

  // A text that denotes a value is taken as a whole when the nesting limit allows, and else refused.
  lemma TakenWhole(text: bytes, v: Json, requireNul: bool)
    requires NulFree(text) && Denotes(text, v)
    ensures if Nest(v) <= NESTING_LIMIT then ParseWithOpts(text, requireNul) == Ok(v, |text|)
            else ParseWithOpts(text, requireNul).Err?
  {
    hide Denotes, ParseValue, SkipWhitespace, Nest, Longest, SkipBom, Blank;
    var c := text + [NUL];
    DenotesStart(text, v);
    NoBlank(text, 0);
    LeadIs(text, 0);
    assert text[..0] == [] && c[0..|text|] == text && text[0..] == text;
    NoBlank(c, 0);
    SkipRun(c, 0, 0);
    Inside(text, 0, |text|);
    NoneLonger(text);
    ValueComplete(c, 0, |text|, v, 0);
    NoBlank(c, |text|);
    SkipRun(c, |text|, |text|);
  }

  lemma NoneLonger(t: bytes)
    ensures Longest(t, |t|)
  {
  }
}
