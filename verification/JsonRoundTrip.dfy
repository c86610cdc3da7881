// Parsing what was printed: printed text denotes its value, so the parser takes it and gives it back.
module JsonRoundTrip {
  import opened Bytes
  import opened JsonValue
  import opened JsonParse
  import opened JsonGrammar
  import JsonSpelling
  import JsonStrings
  import opened JsonDecides

  // ----- numbers -----

  function PowerOfTen(k: nat): nat {
    if k == 0 then 1 else 10 * PowerOfTen(k - 1)
  }

  lemma {:induction false} DigitsShort(n: nat, k: nat)
    requires k > 0 && n < PowerOfTen(k)
    ensures |Digits(n)| <= k
  {
    if n >= 10 {
      assert k > 1;
      assert n / 10 < PowerOfTen(k - 1);
      DigitsShort(n / 10, k - 1);
    }
  }

  // No int has more than ten digits.
  lemma IntTextShort(n: int)
    requires INT_MIN <= n <= INT_MAX
    ensures |IntText(n)| <= 11
  {
    assert PowerOfTen(5) == 100_000;
    assert PowerOfTen(10) == 10_000_000_000;
    DigitsShort(if n < 0 then -n else n, 10);
  }

  lemma IntDenotes(n: int)
    requires INT_MIN <= n <= INT_MAX
    ensures NumberDenotes(IntText(n), n as real)
  {
    var digits := Digits(if n < 0 then -n else n);
    JsonSpelling.DigitsCanonical(if n < 0 then -n else n);
    IntTextShort(n);
    var x := Numeral(n < 0, digits, false, [], Unscaled);
    assert NumeralText(x) == IntText(n);
    assert IsDecimal(IntText(n), n as real);
  }

  // ----- strings -----

  lemma EscapeDenotes(b: byte) returns (x: Piece)
    requires b != NUL
    ensures PieceDenotes(x, [b]) && PieceText(x) == EscapeByte(b)
  {
    if NeedsShortEscape(b) {
      x := Short(ShortEscape(b));
    } else if b < 32 {
      var h := [ZERO, ZERO, HexDigit(b / 16), HexDigit(b % 16)];
      assert b / 256 == 0 && Spells(h, b);
      JsonStrings.CodeIs([b], b);
      x := Unit(h);
    } else {
      x := Raw(b);
    }
  }

  // Behind the escaped bytes stands the closing quote.
  lemma {:induction false} EscapedDenotes(s: bytes)
    requires NulFree(s)
    ensures Unescapes(Escaped(s) + [QUOTE], |Escaped(s)|, s) && Unquoted(Escaped(s))
  {
    hide PieceDenotes, PieceText, EscapeByte, Unquoted;
    if s == [] {
      NothingUnquoted();
    } else {
      var w, rest := EscapeByte(s[0]), Escaped(s[1..]);
      var x := EscapeDenotes(s[0]);
      EscapedDenotes(s[1..]);
      var t := Escaped(s) + [QUOTE];
      assert t == w + (rest + [QUOTE]) && t[..|w|] == w && t[|w|..] == rest + [QUOTE];
      assert s == [s[0]] + s[1..] && s[|[s[0]]|..] == s[1..];
      assert Leads(t, |Escaped(s)|, s, x, [s[0]]);
      EscapeUnquoted(s[0], rest);
    }
  }

  lemma NothingUnquoted()
    ensures Unquoted([])
  {
  }

  lemma UnquotedPlain(t: bytes)
    requires t != [] && t[0] != QUOTE && t[0] != BACKSLASH
    ensures Unquoted(t) <==> Unquoted(t[1..])
  {
  }

  lemma EscapeUnquoted(b: byte, rest: bytes)
    requires Unquoted(rest)
    ensures Unquoted(EscapeByte(b) + rest)
  {
    var w := EscapeByte(b);
    var t := w + rest;
    assert t[|w|..] == rest;
    if |w| == 6 {
      assert t[2..][1..] == t[3..] && t[3..][1..] == t[4..] && t[4..][1..] == t[5..] && t[5..][1..] == t[6..];
      UnquotedPlain(t[5..]);
      UnquotedPlain(t[4..]);
      UnquotedPlain(t[3..]);
      UnquotedPlain(t[2..]);
    }
  }

  lemma QuotedDenotes(s: bytes)
    requires NulFree(s)
    ensures LiteralDenotes(Quoted(s), s)
  {
    hide Unescapes, Unquoted, Escaped;
    var t := Quoted(s);
    EscapedDenotes(s);
    assert t[0] == QUOTE && t[|t| - 1] == QUOTE;
    assert t[1..] == Escaped(s) + [QUOTE] && t[1..|t| - 1] == Escaped(s);
    assert CString(s) == s && Unescapes(t[1..], |t| - 2, s);
  }

  // ----- values -----

  lemma {:induction false} PrintDenotes(v: Json, fmt: bool, indent: nat)
    requires Printable(v)
    ensures Denotes(PrintValue(v, fmt, indent), v)
    decreases v, 1
  {
    hide PrintElements, PrintMembers, ElementsDenote, MembersDenote, LiteralDenotes, NumberDenotes, Quoted, IntText;
    match v
    case Null =>
    case False =>
    case True =>
    case Number(d) => IntDenotes(d.Floor);
    case String(s) => QuotedDenotes(s);
    case Array(items) =>
      var body := PrintElements(items, fmt, indent + 1);
      assert PrintValue(v, fmt, indent)[1..|body| + 1] == body == [] + body;
      if items == [] { NoneDenoted(fmt, indent + 1); } else { ElementsDenoted([], items, fmt, indent + 1); }
    case Object(ms) => ObjectDenotes(ms, fmt, indent);
  }

  lemma {:induction false} ObjectDenotes(ms: seq<Member>, fmt: bool, indent: nat)
    requires Printable(Object(ms))
    ensures Denotes(PrintValue(Object(ms), fmt, indent), Object(ms))
    decreases ms, 3
  {
    hide PrintMembers, MembersDenote;
    var body, tail := PrintMembers(ms, fmt, indent + 1), MemberIndent(fmt, indent);
    var lead := ObjectOpen(fmt)[1..];
    var t := PrintValue(Object(ms), fmt, indent);
    assert t[1..|t| - 1] == lead + body + tail;
    if ms == [] {
      NoneDenoted(fmt, indent + 1);
      assert lead + [] + tail == lead + tail;
      NothingDenoted(lead + tail);
    } else {
      MembersDenoted(lead, ms, tail, fmt, indent + 1);
    }
  }

  lemma NoneDenoted(fmt: bool, indent: nat)
    ensures PrintElements([], fmt, indent) == [] && ElementsDenote([], []) && PrintMembers([], fmt, indent) == []
  {
    NoBlank([], 0);
    NothingDenoted([]);
  }

  lemma ElementsText(items: seq<Json>, fmt: bool, indent: nat)
    requires items != [] && forall i | 0 <= i < |items| :: Printable(items[i])
    ensures PrintElements(items, fmt, indent)
         == PrintValue(items[0], fmt, indent) +
            if |items| == 1 then [] else ElementSeparator(fmt) + PrintElements(items[1..], fmt, indent)
  {
    hide PrintValue, Printable, ElementSeparator;
    var more := items[1..];
    if more != [] {
      var w, rest := PrintValue(more[0], fmt, indent), PrintMoreElements(more[1..], fmt, indent);
      assert ElementSeparator(fmt) + w + rest == ElementSeparator(fmt) + (w + rest);
    }
  }

  // Printed elements behind blanks.
  lemma {:induction false} ElementsDenoted(lead: bytes, items: seq<Json>, fmt: bool, indent: nat)
    requires Blank(lead) && items != [] && forall i | 0 <= i < |items| :: Printable(items[i])
    ensures ElementsDenote(lead + PrintElements(items, fmt, indent), items)
    decreases items, 2
  {
    hide PrintValue, Denotes, ElementsDenote, Printable, Padded, PrintElements;
    ElementsText(items, fmt, indent);
    var t := lead + PrintElements(items, fmt, indent);
    var w := PrintValue(items[0], fmt, indent);
    var p, q := |lead|, |lead| + |w|;
    PrintDenotes(items[0], fmt, indent);
    assert t[0..p] == lead && t[p..q] == w && t[q..q] == [];
    PaddedIs(t, 0, p, q, q, items[0]);
    if |items| == 1 {
      assert t == t[0..q] && items == [items[0]];
      OneElement(t, items[0]);
    } else {
      var rest := ElementSeparator(fmt)[1..];
      ElementsDenoted(rest, items[1..], fmt, indent);
      assert t[q] == COMMA && t[q + 1..|t|] == rest + PrintElements(items[1..], fmt, indent);
      ElementsIs(t, 0, q, |t|, items[0], items[1..]);
      assert t[0..|t|] == t && [items[0]] + items[1..] == items;
    }
  }

  lemma MembersText(ms: seq<Member>, fmt: bool, indent: nat)
    requires ms != [] && forall i | 0 <= i < |ms| :: Printable(ms[i].value)
    ensures PrintMembers(ms, fmt, indent)
         == MemberIndent(fmt, indent) +
            (MemberText(ms[0], fmt, indent) + (MemberEnd(fmt, |ms| == 1) + PrintMembers(ms[1..], fmt, indent)))
    ensures |ms| == 1 ==> PrintMembers(ms[1..], fmt, indent) == []
  {
    hide MemberText, Printable;
  }

  lemma EndText(fmt: bool)
    ensures Blank(MemberEnd(fmt, true))
    ensures var end := MemberEnd(fmt, false); |end| > 0 && end[0] == COMMA && Blank(end[1..])
  {
  }

  // A printed member between blanks.
  lemma MemberDenoted(lead: bytes, m: Member, tail: bytes, fmt: bool, indent: nat)
    requires Blank(lead) && Blank(tail) && NulFree(m.key) && Printable(m.value)
    ensures MemberDenotes(lead + (MemberText(m, fmt, indent) + tail), m)
    decreases m, 2
  {
    hide PrintValue, Denotes, Printable, Padded, LiteralDenotes, Quoted, KeyDenotes;
    var key, colon, w := Quoted(m.key), MemberColon(fmt), PrintValue(m.value, fmt, indent);
    var t := lead + (MemberText(m, fmt, indent) + tail);
    var p, q := |lead|, |lead| + |key|;
    var i, e := q + |colon|, q + |colon| + |w|;
    QuotedDenotes(m.key);
    PrintDenotes(m.value, fmt, indent);
    assert t[0..p] == lead && t[p..q] == key && t[q..q] == [];
    assert t[q] == COLON && t[q + 1..i] == colon[1..] && t[i..e] == w && t[e..|t|] == tail;
    KeyIs(t, 0, p, q, q, m.key);
    PaddedIs(t, q + 1, i, e, |t|, m.value);
    MemberIs(t, 0, q, |t|, m);
    assert t[0..|t|] == t;
  }

  // Printed members between blanks.
  lemma {:induction false} MembersDenoted(lead: bytes, ms: seq<Member>, tail: bytes, fmt: bool, indent: nat)
    requires Blank(lead) && Blank(tail) && ms != []
    requires forall i | 0 <= i < |ms| :: NulFree(ms[i].key) && Printable(ms[i].value)
    ensures MembersDenote(lead + PrintMembers(ms, fmt, indent) + tail, ms)
    decreases ms, 2
  {
    hide MemberText, MemberDenotes, MembersDenote, Printable, PrintMembers, MemberEnd;
    var t := lead + PrintMembers(ms, fmt, indent) + tail;
    var first := lead + MemberIndent(fmt, indent);
    var w, end := MemberText(ms[0], fmt, indent), MemberEnd(fmt, |ms| == 1);
    var rest := PrintMembers(ms[1..], fmt, indent);
    MembersText(ms, fmt, indent);
    EndText(fmt);
    LineCut(lead, MemberIndent(fmt, indent), w, end, rest, tail);
    if |ms| == 1 {
      assert end + [] == end && ms == [ms[0]];
      MemberDenoted(first, ms[0], end + tail, fmt, indent);
      OneMember(t, ms[0]);
    } else {
      var q := |first| + |w|;
      MemberDenoted(first, ms[0], [], fmt, indent);
      MembersDenoted(end[1..], ms[1..], tail, fmt, indent);
      MembersIs(t, 0, q, |t|, ms[0], ms[1..]);
      assert t[0..|t|] == t && [ms[0]] + ms[1..] == ms;
    }
  }

  lemma LineCut(lead: bytes, ind: bytes, w: bytes, end: bytes, rest: bytes, tail: bytes)
    ensures var t := lead + (ind + (w + (end + rest))) + tail;
            var q := |lead + ind| + |w|;
            && t == (lead + ind) + (w + (end + rest + tail)) && t[0..q] == (lead + ind) + (w + [])
            && (end != [] ==> t[q] == end[0] && t[q + 1..|t|] == end[1..] + rest + tail)
  {
    var t := lead + (ind + (w + (end + rest))) + tail;
    var front := (lead + ind) + w;
    assert t == front + (end + rest + tail);
    assert t[0..|front|] == front;
    assert t[|front|..] == end + rest + tail;
    if end != [] { assert t[|front| + 1..] == (end + rest + tail)[1..] == end[1..] + rest + tail; }
  }

  // ----- the whole text -----

  lemma {:induction false} EscapedNulFree(s: bytes)
    requires NulFree(s)
    ensures NulFree(Escaped(s))
  {
    if s != [] { EscapedNulFree(s[1..]); }
  }

  lemma KeyNulFree(s: bytes)
    requires NulFree(s)
    ensures NulFree(Quoted(s))
  {
    hide Escaped;
    EscapedNulFree(s);
  }

  lemma {:induction false} PrintNulFree(v: Json, fmt: bool, depth: nat)
    requires Printable(v)
    ensures NulFree(PrintValue(v, fmt, depth))
    decreases v, 1
  {
    hide PrintMembers, PrintElements, Escaped;
    match v
    case String(s) => EscapedNulFree(s);
    case Array(items) =>
      ElementsNulFree(items, fmt, depth + 1);
    case Object(ms) =>
      MembersNulFree(ms, fmt, depth + 1);
      NulFreeConcat(PrintMembers(ms, fmt, depth + 1), ObjectClose(fmt, depth));
      NulFreeConcat(ObjectOpen(fmt), PrintMembers(ms, fmt, depth + 1) + ObjectClose(fmt, depth));
      ObjectText(v, fmt, depth);
    case _ =>
  }

  lemma {:induction false} ElementsNulFree(items: seq<Json>, fmt: bool, depth: nat)
    requires forall i | 0 <= i < |items| :: Printable(items[i])
    ensures NulFree(PrintElements(items, fmt, depth)) && NulFree(PrintMoreElements(items, fmt, depth))
    decreases items, 0
  {
    hide PrintValue, Printable;
    if items != [] {
      PrintNulFree(items[0], fmt, depth);
      ElementsNulFree(items[1..], fmt, depth);
    }
  }

  lemma {:induction false} MemberNulFree(m: Member, fmt: bool, depth: nat)
    requires NulFree(m.key) && Printable(m.value)
    ensures NulFree(MemberText(m, fmt, depth))
    decreases m, 3
  {
    hide PrintValue, Printable, Escaped;
    EscapedNulFree(m.key);
    PrintNulFree(m.value, fmt, depth);
    NulFreeConcat(MemberColon(fmt), PrintValue(m.value, fmt, depth));
    NulFreeConcat(Quoted(m.key), MemberColon(fmt) + PrintValue(m.value, fmt, depth));
  }

  lemma {:induction false} MembersNulFree(ms: seq<Member>, fmt: bool, depth: nat)
    requires forall i | 0 <= i < |ms| :: NulFree(ms[i].key) && Printable(ms[i].value)
    ensures NulFree(PrintMembers(ms, fmt, depth))
    decreases ms, 0
  {
    hide PrintValue, Printable;
    if ms != [] {
      MemberNulFree(ms[0], fmt, depth);
      MembersNulFree(ms[1..], fmt, depth);
      hide MemberText;
      var rest := PrintMembers(ms[1..], fmt, depth);
      NulFreeConcat(MemberEnd(fmt, |ms| == 1), rest);
      NulFreeConcat(MemberText(ms[0], fmt, depth), MemberEnd(fmt, |ms| == 1) + rest);
    }
  }

  lemma ObjectText(v: Json, fmt: bool, indent: nat)
    requires v.Object? && Printable(v)
    ensures forall i | 0 <= i < |v.members| :: NulFree(v.members[i].key) && Printable(v.members[i].value)
    ensures PrintValue(v, fmt, indent)
         == ObjectOpen(fmt) + (PrintMembers(v.members, fmt, indent + 1) + ObjectClose(fmt, indent))
    ensures Nest(v) == 1 + NestMembers(v.members)
  {
    hide PrintMembers, ObjectOpen, ObjectClose;
  }

  // Parsing printed text gives back the tree, formatted or not and with or without the check
  // for trailing bytes, exactly when the nesting limit allows; a deeper tree is refused.
  lemma RoundTrip(v: Json, fmt: bool, requireNul: bool)
    requires Printable(v)
    ensures NulFree(Print(v, fmt))
    ensures Nest(v) <= NESTING_LIMIT <==> ParseWithOpts(Print(v, fmt), requireNul) == Ok(v, |Print(v, fmt)|)
    ensures Nest(v) > NESTING_LIMIT <==> ParseWithOpts(Print(v, fmt), requireNul).Err?
  {
    hide PrintValue, Nest, Printable, Denotes, NulFree, ParseWithOpts;
    PrintNulFree(v, fmt, 0);
    PrintDenotes(v, fmt, 0);
    TakenWhole(Print(v, fmt), v, requireNul);
  }

  // A printed container, or any other value that is not a number, is recovered from the front
  // of a longer text, and the parser stops right behind it.
  lemma PrefixRoundTrip(v: Json, fmt: bool, suffix: bytes)
    requires Printable(v) && !v.Number? && Nest(v) <= NESTING_LIMIT && NulFree(suffix)
    ensures NulFree(Print(v, fmt) + suffix)
    ensures Parse(Print(v, fmt) + suffix) == Ok(v, |Print(v, fmt)|)
  {
    hide PrintValue, Nest, Printable, Denotes, Parse, Longest;
    PrintNulFree(v, fmt, 0);
    PrintDenotes(v, fmt, 0);
    var t := Print(v, fmt) + suffix;
    assert t[..0] == [] && t[0..|Print(v, fmt)|] == Print(v, fmt);
    assert StartsWith(t, v, |Print(v, fmt)|);
    ParseIff(t, v, |Print(v, fmt)|);
  }
}
