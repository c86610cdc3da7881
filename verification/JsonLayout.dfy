// What printed text looks like, beyond denoting its value: which spelling of a string and of an integer it
// is, and where it has blanks.
module JsonLayout {
  import opened Bytes
  import opened JsonValue
  import opened JsonGrammar
  import JsonNumber
  import JsonRoundTrip
  import JsonStrings
  import Utf

  // ----- layout -----

  datatype Mode = Outside | Literal | Escape
  datatype Pending = Nothing | Brace | Comma | Colon

  // Where a scan of text stands: in or outside a string literal, the containers that are open, and the mark
  // just passed.
  datatype Place = Place(mode: Mode, open: seq<byte>, pending: Pending)

  const START := Place(Outside, [], Nothing)

  function Step(p: Place, b: byte): Place {
    match p.mode
    case Escape => p.(mode := Literal)
    case Literal =>
      if b == QUOTE then p.(mode := Outside) else if b == BACKSLASH then p.(mode := Escape) else p
    case Outside =>
      if b == QUOTE then p.(mode := Literal, pending := Nothing)
      else if b == LBRACE then p.(open := p.open + [b], pending := Brace)
      else if b == LBRACKET then p.(open := p.open + [b], pending := Nothing)
      else if b == RBRACE || b == RBRACKET then
        p.(open := if p.open == [] then [] else p.open[..|p.open| - 1], pending := Nothing)
      else p.(pending := if b == COMMA then Comma else if b == COLON then Colon else Nothing)
  }

  function After(p: Place, t: bytes): Place
    decreases t
  {
    if t == [] then p else After(Step(p, t[0]), t[1..])
  }

  // No blank outside string literals.
  predicate Tight(p: Place, t: bytes)
    decreases t
  {
    t != [] ==> (p.mode == Outside ==> t[0] > 32) && Tight(Step(p, t[0]), t[1..])
  }

  function Tabbed(n: nat): bytes {
    if n == 0 then [] else [TAB] + Tabbed(n - 1)
  }

  // Every member of an object and its closing brace stand on a line of their own, behind a tab for each open
  // container; a tab follows each colon, and a space each comma of an array.
  function Gap(p: Place, b: byte): bytes {
    if p.mode != Outside then []
    else if b == RBRACE then [LF] + Tabbed(if p.open == [] then 0 else |p.open| - 1)
    else
      match p.pending
      case Nothing => []
      case Colon => [TAB]
      case Brace => [LF] + Tabbed(|p.open|)
      case Comma => if p.open != [] && p.open[|p.open| - 1] == LBRACE then [LF] + Tabbed(|p.open|) else [SPACE]
  }

  function Spread(p: Place, t: bytes): bytes
    decreases t
  {
    if t == [] then [] else Gap(p, t[0]) + [t[0]] + Spread(Step(p, t[0]), t[1..])
  }

  // Unformatted text has no blank outside string literals, and formatted text is unformatted text spread out.
  lemma Layout(v: Json)
    requires Printable(v)
    ensures Tight(START, Print(v, false)) && Print(v, true) == Spread(START, Print(v, false))
  {
    hide PrintValue;
    ValueSpread(v, START, 0);
    var t := Print(v, true);
    assert Lead(START) + t == t;
  }

  // t is tight, spreads out to u and leads from p to q.
  ghost predicate Turns(p: Place, t: bytes, u: bytes, q: Place) {
    Spread(p, t) == u && After(p, t) == q && Tight(p, t)
  }

  lemma TurnsFirst(p: Place, t: bytes, u: bytes, q: Place)
    requires t != []
    ensures Turns(p, t, Gap(p, t[0]) + [t[0]] + u, q) <==>
            (p.mode == Outside ==> t[0] > 32) && Turns(Step(p, t[0]), t[1..], u, q)
  {
    hide Gap, Step;
    var g := Gap(p, t[0]) + [t[0]];
    assert (g + u)[|g|..] == u && (g + Spread(Step(p, t[0]), t[1..]))[|g|..] == Spread(Step(p, t[0]), t[1..]);
  }

  lemma {:induction false} Then(p: Place, a: bytes, u: bytes, q: Place, b: bytes, w: bytes, r: Place)
    requires Turns(p, a, u, q) && Turns(q, b, w, r)
    ensures Turns(p, a + b, u + w, r)
    decreases a
  {
    if a == [] {
      assert a + b == b && u + w == w;
    } else {
      var g, rest := Gap(p, a[0]) + [a[0]], Spread(Step(p, a[0]), a[1..]);
      assert u == g + rest;
      hide Turns, Gap, Step, Spread;
      TurnsFirst(p, a, rest, q);
      Then(Step(p, a[0]), a[1..], rest, q, b, w, r);
      assert (a + b)[1..] == a[1..] + b;
      TurnsFirst(p, a + b, rest + w, r);
      assert g + (rest + w) == u + w;
    }
  }

  lemma Mark(p: Place, b: byte)
    requires p.mode != Outside || b > 32
    ensures Turns(p, [b], Gap(p, b) + [b], Step(p, b))
  {
    assert [b][1..] == [];
    assert Gap(p, b) + [b] + [] == Gap(p, b) + [b];
  }

  lemma Still(p: Place)
    ensures Turns(p, [], [], p)
  {
  }

  // The blanks in front of a value.
  function Lead(p: Place): bytes {
    Gap(p, 0)
  }

  // t, printed without formatting, is a value that formatting turns into u.
  ghost predicate Spreads(p: Place, t: bytes, u: bytes) {
    Turns(p, t, Lead(p) + u, p.(pending := Nothing))
  }

  predicate PlainByte(b: byte) {
    && b > 32 && b != QUOTE && b != LBRACE && b != RBRACE && b != LBRACKET && b != RBRACKET
    && b != COMMA && b != COLON
  }

  lemma {:induction false} PlainSpread(t: bytes, p: Place)
    requires p.mode == Outside && t != [] && forall i | 0 <= i < |t| :: PlainByte(t[i])
    ensures Spreads(p, t, t)
    decreases t
  {
    hide Turns;
    var q := p.(pending := Nothing);
    assert PlainByte(t[0]);
    Mark(p, t[0]);
    if |t| == 1 {
      assert t == [t[0]];
    } else {
      PlainSpread(t[1..], q);
      Then(p, [t[0]], Lead(p) + [t[0]], q, t[1..], [] + t[1..], q);
      assert Lead(p) + [t[0]] + ([] + t[1..]) == Lead(p) + t && [t[0]] + t[1..] == t;
    }
  }

  // Inside a literal nothing is added, and an escaped byte does not end it.
  lemma EscapeSpread(b: byte, p: Place)
    requires p.mode == Literal
    ensures Turns(p, EscapeByte(b), EscapeByte(b), p)
  {
    hide Turns;
    var t := EscapeByte(b);
    var q := Step(p, t[0]);
    InLiteral(p, t[0]);
    if |t| == 1 {
      assert t == [t[0]];
    } else {
      InLiteral(q, t[1]);
      Then(p, [t[0]], [t[0]], q, [t[1]], [t[1]], p);
      if |t| == 2 {
        assert t == [t[0]] + [t[1]];
      } else {
        InLiteral(p, t[2]);
        InLiteral(p, t[4]);
        InLiteral(p, t[5]);
        Then(p, [ZERO], [ZERO], p, [ZERO], [ZERO], p);
        Then(p, [t[4]], [t[4]], p, [t[5]], [t[5]], p);
        Then(p, [t[0]] + [t[1]], [t[0]] + [t[1]], p, [ZERO] + [ZERO], [ZERO] + [ZERO], p);
        var u := [t[0]] + [t[1]] + ([ZERO] + [ZERO]);
        Then(p, u, u, p, [t[4]] + [t[5]], [t[4]] + [t[5]], p);
        assert t == u + ([t[4]] + [t[5]]);
      }
    }
  }

  lemma InLiteral(p: Place, b: byte)
    requires p.mode != Outside
    ensures Turns(p, [b], [b], Step(p, b))
  {
    Mark(p, b);
    assert [] + [b] == [b];
  }

  lemma {:induction false} EscapedSpread(s: bytes, p: Place)
    requires p.mode == Literal
    ensures Turns(p, Escaped(s), Escaped(s), p)
  {
    hide EscapeByte, Turns;
    if s == [] {
      Still(p);
    } else {
      EscapeSpread(s[0], p);
      EscapedSpread(s[1..], p);
      Then(p, EscapeByte(s[0]), EscapeByte(s[0]), p, Escaped(s[1..]), Escaped(s[1..]), p);
    }
  }

  lemma QuotedSpread(s: bytes, p: Place)
    requires p.mode == Outside
    ensures Spreads(p, Quoted(s), Quoted(s))
  {
    hide Turns, Escaped;
    var q, r := Step(p, QUOTE), p.(pending := Nothing);
    var t := Escaped(s);
    Mark(p, QUOTE);
    EscapedSpread(s, q);
    Then(p, [QUOTE], Lead(p) + [QUOTE], q, t, t, q);
    InLiteral(q, QUOTE);
    Then(p, [QUOTE] + t, Lead(p) + [QUOTE] + t, q, [QUOTE], [QUOTE], r);
    assert Lead(p) + [QUOTE] + t + [QUOTE] == Lead(p) + Quoted(s);
  }

  lemma {:induction false} TabsAre(n: nat)
    ensures Tabbed(n) == Tabs(n)
  {
    if n > 0 {
      TabsAre(n - 1);
      assert Tabs(n) == [TAB] + Tabs(n - 1);
    }
  }

  lemma {:induction false} ValueSpread(v: Json, p: Place, d: nat)
    requires Printable(v) && p.mode == Outside
    ensures Spreads(p, PrintValue(v, false, d), PrintValue(v, true, |p.open|))
    decreases v, 1
  {
    hide Spreads, Quoted, PrintElements, PrintMembers;
    match v
    case Null => PlainSpread(NULL_TEXT, p);
    case False => PlainSpread(FALSE_TEXT, p);
    case True => PlainSpread(TRUE_TEXT, p);
    case Number(d) => PlainSpread(IntText(d.Floor), p);
    case String(s) => QuotedSpread(s, p);
    case Array(items) => ArraySpread(items, p, d);
    case Object(ms) => ObjectSpread(ms, p, d);
  }

  lemma {:induction false} ArraySpread(items: seq<Json>, p: Place, d: nat)
    requires Printable(Array(items)) && p.mode == Outside
    ensures Spreads(p, PrintValue(Array(items), false, d), PrintValue(Array(items), true, |p.open|))
    decreases items, 3
  {
    hide Turns, PrintElements;
    var q := Step(p, LBRACKET);
    var t, u := PrintElements(items, false, d + 1), PrintElements(items, true, |p.open| + 1);
    Mark(p, LBRACKET);
    ElementsSpread(items, q, d + 1);
    Then(p, [LBRACKET], Lead(p) + [LBRACKET], q, t, u, q);
    Mark(q, RBRACKET);
    assert [] + [RBRACKET] == [RBRACKET] && Step(q, RBRACKET) == p.(pending := Nothing);
    Then(p, [LBRACKET] + t, Lead(p) + [LBRACKET] + u, q, [RBRACKET], [RBRACKET], p.(pending := Nothing));
    assert Lead(p) + [LBRACKET] + u + [RBRACKET] == Lead(p) + ([LBRACKET] + u + [RBRACKET]);
  }

  predicate InArray(q: Place) {
    q.mode == Outside && q.open != [] && q.open[|q.open| - 1] == LBRACKET && q.pending == Nothing
  }

  // Elements, entered behind the opening bracket.
  lemma {:induction false} ElementsSpread(items: seq<Json>, q: Place, d: nat)
    requires InArray(q) && forall i | 0 <= i < |items| :: Printable(items[i])
    ensures Turns(q, PrintElements(items, false, d), PrintElements(items, true, |q.open|), q)
    decreases items, 2
  {
    hide Turns, PrintValue, PrintMoreElements, Printable;
    if items == [] {
      Still(q);
    } else {
      ValueSpread(items[0], q, d);
      MoreSpread(items[1..], q, d);
      var u := PrintValue(items[0], true, |q.open|);
      assert q.(pending := Nothing) == q && [] + u == u;
      Then(
        q, PrintValue(items[0], false, d), u, q,
        PrintMoreElements(items[1..], false, d), PrintMoreElements(items[1..], true, |q.open|), q);
    }
  }

  lemma {:induction false} MoreSpread(items: seq<Json>, q: Place, d: nat)
    requires InArray(q) && forall i | 0 <= i < |items| :: Printable(items[i])
    ensures Turns(q, PrintMoreElements(items, false, d), PrintMoreElements(items, true, |q.open|), q)
    decreases items, 2
  {
    hide Turns, PrintValue, Printable;
    if items == [] {
      Still(q);
    } else {
      var r := Step(q, COMMA);
      var t, u := PrintValue(items[0], false, d), PrintValue(items[0], true, |q.open|);
      Mark(q, COMMA);
      ValueSpread(items[0], r, d);
      assert r.(pending := Nothing) == q && [] + [COMMA] == [COMMA];
      Then(q, [COMMA], [COMMA], r, t, [SPACE] + u, q);
      MoreSpread(items[1..], q, d);
      Then(
        q, [COMMA] + t, [COMMA] + ([SPACE] + u), q,
        PrintMoreElements(items[1..], false, d), PrintMoreElements(items[1..], true, |q.open|), q);
      assert [COMMA] + ([SPACE] + u) == ElementSeparator(true) + u;
    }
  }

  // Formatted members, the line end of each in front of it.
  function Lines(ms: seq<Member>, n: nat): bytes
    requires forall i | 0 <= i < |ms| :: Printable(ms[i].value)
  {
    if ms == [] then []
    else [LF] + Tabs(n) + MemberText(ms[0], true, n) + (if |ms| == 1 then [] else [COMMA]) + Lines(ms[1..], n)
  }

  lemma {:induction false} LinesAre(ms: seq<Member>, n: nat)
    requires forall i | 0 <= i < |ms| :: Printable(ms[i].value)
    ensures Lines(ms, n) + [LF] == [LF] + PrintMembers(ms, true, n)
  {
    hide MemberText, Printable;
    if ms != [] {
      LinesAre(ms[1..], n);
      LineJoined(
        Tabs(n), MemberText(ms[0], true, n), if |ms| == 1 then [] else [COMMA], Lines(ms[1..], n),
        PrintMembers(ms[1..], true, n));
    }
  }

  lemma LineJoined(tabs: bytes, u: bytes, comma: bytes, lines: bytes, rest: bytes)
    requires lines + [LF] == [LF] + rest
    ensures [LF] + tabs + u + comma + lines + [LF] == [LF] + (tabs + (u + (comma + [LF] + rest)))
  {
    assert [LF] + tabs + u + comma + lines + [LF] == [LF] + tabs + u + comma + (lines + [LF]);
    assert [LF] + tabs + u + comma + ([LF] + rest) == [LF] + (tabs + (u + (comma + [LF] + rest)));
  }

  lemma {:induction false} ObjectSpread(ms: seq<Member>, p: Place, d: nat)
    requires Printable(Object(ms)) && p.mode == Outside
    ensures Spreads(p, PrintValue(Object(ms), false, d), PrintValue(Object(ms), true, |p.open|))
    decreases ms, 3
  {
    hide Turns, PrintMembers, Lines, PrintValue;
    var n := |p.open|;
    var q, z := Step(p, LBRACE), p.(pending := Nothing);
    var t, u := PrintMembers(ms, false, d + 1), Lines(ms, n + 1);
    Mark(p, LBRACE);
    MembersSpread(ms, q, d + 1);
    var r := if ms == [] then q else q.(pending := Nothing);
    Then(p, [LBRACE], Lead(p) + [LBRACE], q, t, u, r);
    Mark(r, RBRACE);
    TabsAre(n);
    assert Step(r, RBRACE) == z;
    Then(p, [LBRACE] + t, Lead(p) + [LBRACE] + u, r, [RBRACE], [LF] + Tabs(n) + [RBRACE], z);
    LinesAre(ms, n + 1);
    Joined(Lead(p), u, PrintMembers(ms, true, n + 1), Tabs(n));
    JsonRoundTrip.ObjectText(Object(ms), false, d);
    JsonRoundTrip.ObjectText(Object(ms), true, n);
    Unspread(t);
  }

  lemma Joined(lead: bytes, u: bytes, w: bytes, tabs: bytes)
    requires u + [LF] == [LF] + w
    ensures lead + [LBRACE] + u + ([LF] + tabs + [RBRACE]) == lead + ([LBRACE, LF] + (w + (tabs + [RBRACE])))
  {
    var end := tabs + [RBRACE];
    assert lead + [LBRACE] + u + ([LF] + tabs + [RBRACE]) == lead + [LBRACE] + (u + [LF]) + end;
    assert lead + [LBRACE] + ([LF] + w) + end == lead + ([LBRACE, LF] + (w + end));
  }

  lemma Unspread(t: bytes)
    ensures [LBRACE] + t + [RBRACE] == ObjectOpen(false) + (t + ObjectClose(false, 0))
  {
    assert [LBRACE] + t + [RBRACE] == [LBRACE] + (t + ([] + [RBRACE]));
  }

  lemma OneLine(ms: seq<Member>, n: nat, d: nat)
    requires |ms| == 1 && Printable(ms[0].value)
    ensures PrintMembers(ms, false, d) == MemberText(ms[0], false, d)
    ensures Lines(ms, n) == [LF] + Tabs(n) + MemberText(ms[0], true, n)
  {
    hide MemberText, Printable;
    var t, u := MemberText(ms[0], false, d), [LF] + Tabs(n) + MemberText(ms[0], true, n);
    assert PrintMembers(ms[1..], false, d) == [] && Lines(ms[1..], n) == [];
    assert [] + (t + ([] + [] + [])) == t && u + [] + [] == u;
  }

  // Members, entered behind the opening brace or a comma.
  lemma {:induction false} MembersSpread(ms: seq<Member>, q: Place, d: nat)
    requires q.mode == Outside && q.open != [] && q.open[|q.open| - 1] == LBRACE
    requires q.pending == Brace || (q.pending == Comma && ms != [])
    requires forall i | 0 <= i < |ms| :: Printable(ms[i].value)
    ensures Turns(q, PrintMembers(ms, false, d), Lines(ms, |q.open|), if ms == [] then q else q.(pending := Nothing))
    decreases ms, 2
  {
    hide Turns, MemberText, Printable;
    if ms == [] {
      Still(q);
    } else {
      var n := |q.open|;
      var t, u := MemberText(ms[0], false, d), MemberText(ms[0], true, n);
      var p := q.(pending := Nothing);
      MemberSpread(ms[0], q, d);
      TabsAre(n);
      var line := [LF] + Tabs(n) + u;
      if |ms| == 1 {
        OneLine(ms, n, d);
      } else {
        var r := Step(p, COMMA);
        Mark(p, COMMA);
        assert [] + [COMMA] == [COMMA];
        Then(q, t, line, p, [COMMA], [COMMA], r);
        MembersSpread(ms[1..], r, d);
        assert r.(pending := Nothing) == p;
        Then(q, t + [COMMA], line + [COMMA], r, PrintMembers(ms[1..], false, d), Lines(ms[1..], n), p);
        assert PrintMembers(ms, false, d) == t + [COMMA] + PrintMembers(ms[1..], false, d);
      }
    }
  }

  lemma {:induction false} MemberSpread(m: Member, q: Place, d: nat)
    requires q.mode == Outside && Printable(m.value)
    ensures Spreads(q, MemberText(m, false, d), MemberText(m, true, |q.open|))
    decreases m, 3
  {
    hide Turns, PrintValue, Quoted;
    var key, t, u := Quoted(m.key), PrintValue(m.value, false, d), PrintValue(m.value, true, |q.open|);
    var p := q.(pending := Nothing);
    var r := Step(p, COLON);
    QuotedSpread(m.key, q);
    Mark(p, COLON);
    assert [] + [COLON] == [COLON];
    Then(q, key, Lead(q) + key, p, [COLON], [COLON], r);
    ValueSpread(m.value, r, d);
    assert r.(pending := Nothing) == p;
    Then(q, key + [COLON], Lead(q) + key + [COLON], r, t, [TAB] + u, p);
    assert MemberText(m, false, d) == key + [COLON] + t;
    assert Lead(q) + key + [COLON] + ([TAB] + u) == Lead(q) + MemberText(m, true, |q.open|);
  }
}
