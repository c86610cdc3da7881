// The parser as bscJSON runs it: one buffer whose offset and depth move under every call.
module JsonParseBuffer {
  import opened Bytes
  import opened Sequences
  import opened JsonValue
  import opened JsonParse
  import opened JsonStringPass

  // Agreement of a call that left the offset at end with what the parser computes.
  ghost predicate Agrees<T>(r: Parsed<T>, out: Option<T>, end: nat) {
    match r
    case Ok(v, e) => out == Some(v) && end == e
    case Err(at) => out == None && end == at
  }

  class ParseBuffer {
    const content: bytes
    var offset: nat
    var depth: nat

    constructor (text: bytes)
      ensures content == text + [NUL] && offset == 0 && depth == 0
    {
      content := text + [NUL];
      offset := 0;
      depth := 0;
    }

    // The offset is inside the buffer, as every parse function expects it.
    ghost predicate Valid()
      reads this
    {
      Terminated(content) && offset < |content|
    }

    method Skip()
      requires 0 < |content| && offset <= |content|
      modifies this`offset
      ensures offset == SkipWhitespace(content, old(offset))
    {
      while offset < |content| && content[offset] <= 32
        invariant offset <= |content|
        invariant SkipSpaces(content, offset) == SkipSpaces(content, old(offset))
      {
        offset := offset + 1;
      }
      if offset == |content| {
        offset := offset - 1;
      }
    }

    // How much of the buffer parse_number copies out.
    method NumberLength() returns (i: nat)
      requires Valid()
      ensures i == NumberSpan(content, offset, NUMBER_BUFFER)
    {
      i := 0;
      while i < NUMBER_BUFFER && offset + i < |content| && NumberChar(content[offset + i])
        invariant i <= NUMBER_BUFFER && offset + i <= |content|
        invariant NumberSpan(content, offset, NUMBER_BUFFER)
               == i + NumberSpan(content, offset + i, NUMBER_BUFFER - i)
      {
        i := i + 1;
      }
    }

    method ReadNumber() returns (out: Option<Json>)
      requires Valid()
      modifies this`offset
      ensures Agrees(ParseNumber(content, old(offset)), out, offset)
    {
      hide Strtod, NumberSpan;
      var i := NumberLength();
      match Strtod(content[offset..offset + i])
      case Err(_) => out := None;
      case Ok(d, used) =>
        offset := offset + used;
        out := Some(Number(d));
    }

    // First pass over a string literal.
    method FindClosingQuote() returns (inputEnd: nat, skipped: nat, ok: bool)
      requires Valid()
      ensures match ScanString(content, offset + 1)
              case Ok(n, e) => ok && inputEnd == e && skipped == n
              case Err(_) => !ok
    {
      inputEnd, skipped, ok := offset + 1, 0, true;
      while inputEnd < |content| && content[inputEnd] != QUOTE
        invariant inputEnd <= |content|
        invariant match ScanString(content, inputEnd)
                  case Ok(n, e) => ScanString(content, offset + 1) == Ok(n + skipped, e)
                  case Err(_) => ScanString(content, offset + 1).Err?
        decreases |content| - inputEnd
      {
        if content[inputEnd] == BACKSLASH {
          if inputEnd + 1 >= |content| {
            return inputEnd, skipped, false;
          }
          skipped := skipped + 1;
          inputEnd := inputEnd + 1;
        }
        inputEnd := inputEnd + 1;
      }
      ok := inputEnd < |content|;
    }

    // Second pass: unescape the literal into an array of the size that the first pass computed.
    // Every write is in bounds, whatever the literal looks like.
    method UnescapeInto(inputEnd: nat, skipped: nat) returns (out: Option<bytes>)
      requires Valid() && ScanString(content, offset + 1) == Ok(skipped, inputEnd)
      modifies this`offset
      ensures match Unescape(content, old(offset) + 1, inputEnd)
              case Ok(w, _) => out == Some(CString(w)) && offset == old(offset)
              case Err(at) => out == None && offset == at
    {
      hide UnescapeStep, Unescape, Sync, ScanString, CString;
      var start := offset + 1;
      SyncStart(content, start);
      SyncRoom(content, start, inputEnd, skipped);
      ResumesStart(content, start, inputEnd);
      var allocation := inputEnd - offset - skipped;
      var output := new byte[allocation + 1];
      var p: nat, k: nat := start, 0;
      ghost var n: nat := skipped;
      assert output[..k] == [];
      while p < inputEnd
        invariant offset == old(offset) && start <= p <= inputEnd + 1
        invariant k <= allocation && output.Length == allocation + 1
        invariant p <= inputEnd ==> Sync(content, p, inputEnd, n) && k + Room(p, inputEnd, n) <= allocation
        invariant Resumes(content, start, p, inputEnd, output[..k])
      {
        ghost var before := output[..k];
        ResumesNext(content, start, p, inputEnd, before);
        ghost var m := n;
        if UnescapeStep(content, p, inputEnd).Ok? {
          m := StepFits(content, p, inputEnd, n);
        }
        var used, written := UnescapeOne(p, inputEnd, output, k);
        if used == 0 {
          offset := p;
          return None;
        }
        k := k + written;
        p := p + used;
        n := m;
        if p <= inputEnd { SyncRoom(content, p, inputEnd, n); }
      }
      output[k] := NUL;
      ResumesEnd(content, start, p, inputEnd, output[..k]);
      out := Some(CString(output[..k]));
    }

    // One turn of the second pass; used is 0 when the escape is malformed.
    method UnescapeOne(p: nat, inputEnd: nat, output: array<byte>, k: nat) returns (used: nat, written: nat)
      requires p < inputEnd < |content|
      requires UnescapeStep(content, p, inputEnd).Ok? ==>
                 k + |UnescapeStep(content, p, inputEnd).value| <= output.Length
      requires k <= output.Length
      modifies output
      ensures match UnescapeStep(content, p, inputEnd)
              case Err(_) => used == 0
              case Ok(w, q) =>
                && used == q - p && written == |w| && k + written <= output.Length
                && output[..k + written] == old(output[..k]) + w
    {
      used, written := 0, 0;
      if content[p] != BACKSLASH {
        output[k] := content[p];
        used, written := 1, 1;
      } else if ShortEscapeChar(content[p + 1]) {
        output[k] := Unescaped(content[p + 1]);
        used, written := 2, 1;
      } else if content[p + 1] == LOWER_U {
        used, written := Transcode(p, inputEnd, output, k);
      }
    }

    // utf16_literal_to_utf8
    method Transcode(p: nat, inputEnd: nat, output: array<byte>, k: nat) returns (used: nat, written: nat)
      requires p < inputEnd < |content|
      requires Literal(content, p, inputEnd).Ok? ==> k + |Literal(content, p, inputEnd).value| <= output.Length
      requires k <= output.Length
      modifies output
      ensures match Literal(content, p, inputEnd)
              case Err(_) => used == 0
              case Ok(w, q) =>
                && used == q - p && written == |w| && k + written <= output.Length
                && output[..k + written] == old(output[..k]) + w
    {
      hide Utf8, Hex4;
      if inputEnd - p < 6 { return 0, 0; }
      var first := Hex4(content, p + 2);
      if LowSurrogate(first) { return 0, 0; }
      var codepoint := first;
      used := 6;
      if HighSurrogate(first) {
        if inputEnd - (p + 6) < 6 || content[p + 6] != BACKSLASH || content[p + 7] != LOWER_U { return 0, 0; }
        var second := Hex4(content, p + 8);
        if !LowSurrogate(second) { return 0, 0; }
        codepoint := Combine(first, second);
        used := 12;
      }
      written := EncodeUtf8(codepoint, output, k);
    }

    method ReadString() returns (out: Option<bytes>)
      requires Valid()
      modifies this`offset
      ensures Agrees(ParseString(content, old(offset)), out, offset)
    {
      hide Unescape, ScanString, CString;
      if content[offset] != QUOTE {
        offset := offset + 1;
        return None;
      }
      var inputEnd, skipped, ok := FindClosingQuote();
      if !ok {
        offset := offset + 1;
        return None;
      }
      out := UnescapeInto(inputEnd, skipped);
      if out.Some? {
        offset := inputEnd + 1;
      }
    }

    // parse_value. Every recursive call is made at a strictly larger offset than its caller's.
    method ReadValue() returns (out: Option<Json>)
      requires Valid()
      modifies this
      ensures Agrees(ParseValue(content, old(offset), old(depth)), out, offset)
      ensures out.Some? ==> Valid() && old(offset) < offset && depth == old(depth)
      decreases |content| - offset, 2
    {
      hide ParseString, ParseNumber, ParseArray, ParseObject;
      out := None;
      if At(content, offset, NULL_TEXT) {
        offset := offset + 4;
        out := Some(Null);
      } else if At(content, offset, FALSE_TEXT) {
        offset := offset + 5;
        out := Some(False);
      } else if At(content, offset, TRUE_TEXT) {
        offset := offset + 4;
        out := Some(True);
      } else if content[offset] == QUOTE {
        var str := ReadString();
        if str.Some? { out := Some(String(str.value)); }
      } else if content[offset] == MINUS || IsDigit(content[offset]) {
        out := ReadNumber();
      } else if content[offset] == LBRACKET {
        out := ReadArray();
      } else if content[offset] == LBRACE {
        out := ReadObject();
      }
    }

    method ReadArray() returns (out: Option<Json>)
      requires Valid() && content[offset] == LBRACKET
      modifies this
      ensures Agrees(ParseArray(content, old(offset), old(depth)), out, offset)
      ensures out.Some? ==> depth == old(depth)
      decreases |content| - offset, 1
    {
      hide ParseElements, SkipWhitespace;
      if depth >= NESTING_LIMIT { return None; }
      depth := depth + 1;
      offset := offset + 1;
      Skip();
      if content[offset] == RBRACKET {
        depth := depth - 1;
        offset := offset + 1;
        return Some(Array([]));
      }
      offset := offset - 1;
      var items := ReadElements();
      if items.None? { return None; }
      depth := depth - 1;
      out := Some(Array(items.value));
    }

    // The loop over the elements, with the offset on the byte in front of the first.
    method ReadElements() returns (out: Option<seq<Json>>)
      requires Terminated(content) && offset + 1 < |content|
      modifies this
      ensures Agrees(ParseElements(content, old(offset), old(depth)), out, offset)
      ensures out.Some? ==> depth == old(depth)
      decreases |content| - offset, 0
    {
      hide ParseValue, SkipWhitespace, ParseElements;
      var items := [];
      ElementsResumeStart(content, offset, depth);
      while true
        invariant old(offset) <= offset && offset + 1 < |content| && depth == old(depth)
        invariant ElementsResume(content, old(offset), offset, depth, items)
        decreases |content| - offset
      {
        ElementsResumeNext(content, old(offset), offset, depth, items);
        offset := offset + 1;
        Skip();
        var v := ReadValue();
        if v.None? { return None; }
        items := items + [v.value];
        Skip();
        if content[offset] != COMMA {
          if content[offset] != RBRACKET { return None; }
          offset := offset + 1;
          return Some(items);
        }
      }
    }

    method ReadObject() returns (out: Option<Json>)
      requires Valid() && content[offset] == LBRACE
      modifies this
      ensures Agrees(ParseObject(content, old(offset), old(depth)), out, offset)
      ensures out.Some? ==> depth == old(depth)
      decreases |content| - offset, 1
    {
      hide ParseMembers, SkipWhitespace;
      if depth >= NESTING_LIMIT { return None; }
      depth := depth + 1;
      offset := offset + 1;
      Skip();
      if content[offset] == RBRACE {
        depth := depth - 1;
        offset := offset + 1;
        return Some(Object([]));
      }
      offset := offset - 1;
      var members := ReadMembers();
      if members.None? { return None; }
      depth := depth - 1;
      out := Some(Object(members.value));
    }

    method ReadMember() returns (out: Option<Member>)
      requires Terminated(content) && offset + 1 < |content|
      modifies this
      ensures Agrees(ParseMember(content, old(offset), old(depth)), out, offset)
      ensures out.Some? ==> depth == old(depth)
      decreases |content| - offset, 0, 0
    {
      hide ParseValue, ParseString, SkipWhitespace;
      offset := offset + 1;
      Skip();
      var key := ReadString();
      if key.None? { return None; }
      Skip();
      if content[offset] != COLON { return None; }
      offset := offset + 1;
      Skip();
      var v := ReadValue();
      if v.None? { return None; }
      out := Some(Member(key.value, v.value));
    }

    method ReadMembers() returns (out: Option<seq<Member>>)
      requires Terminated(content) && offset + 1 < |content|
      modifies this
      ensures Agrees(ParseMembers(content, old(offset), old(depth)), out, offset)
      ensures out.Some? ==> depth == old(depth)
      decreases |content| - offset, 0, 1
    {
      hide ParseMember, SkipWhitespace, ParseMembers;
      var members := [];
      MembersResumeStart(content, offset, depth);
      while true
        invariant old(offset) <= offset && offset + 1 < |content| && depth == old(depth)
        invariant MembersResume(content, old(offset), offset, depth, members)
        decreases |content| - offset
      {
        MembersResumeNext(content, old(offset), offset, depth, members);
        var m := ReadMember();
        if m.None? { return None; }
        members := members + [m.value];
        Skip();
        if content[offset] != COMMA {
          if content[offset] != RBRACE { return None; }
          offset := offset + 1;
          return Some(members);
        }
      }
    }
  }

  // bscJSON_ParseWithOpts: the value, and the position reported as the end or as the error.
  method Run(text: bytes, requireNul: bool) returns (out: Option<Json>, position: nat)
    requires NulFree(text)
    ensures Agrees(ParseWithOpts(text, requireNul), out, position)
  {
    hide ParseValue, SkipWhitespace;
    var buffer := new ParseBuffer(text);
    buffer.offset := SkipBom(buffer.content);
    buffer.Skip();
    out := buffer.ReadValue();
    if out.Some? && requireNul {
      buffer.Skip();
      if buffer.content[buffer.offset] != NUL { out := None; }
    }
    position := if out.Some? then buffer.offset else ErrorPosition(buffer.content, buffer.offset);
  }

  // The encoder's loop: continuation bytes are filled in from the back.
  method EncodeUtf8(codepoint: nat, output: array<byte>, k: nat) returns (written: nat)
    requires codepoint <= 0x10FFFF && k + |Utf8(codepoint)| <= output.Length
    modifies output
    ensures written == |Utf8(codepoint)|
    ensures output[..k + written] == old(output[..k]) + Utf8(codepoint)
  {
    hide Utf8;
    var cp, mark := codepoint, 0;
    if cp < 0x80 {
      written := 1;
    } else if cp < 0x800 {
      written, mark := 2, 0xC0;
    } else if cp < 0x10000 {
      written, mark := 3, 0xE0;
    } else {
      written, mark := 4, 0xF0;
    }
    var position := written - 1;
    ghost var t := Utf8(codepoint);
    while position > 0
      invariant 0 <= position < written
      invariant cp == Shifted(codepoint, written - 1 - position)
      invariant forall i | 0 <= i < k :: output[i] == old(output[i])
      invariant forall i | position < i < written :: output[k + i] == t[i]
    {
      Utf8Byte(codepoint, position);
      output[k + position] := 0x80 + cp % 64;
      cp := cp / 64;
      position := position - 1;
    }
    Utf8Byte(codepoint, 0);
    output[k] := cp + mark;
  }

  function Shifted(cp: nat, sextets: nat): nat {
    if sextets == 0 then cp else Shifted(cp, sextets - 1) / 64
  }

  lemma Utf8Byte(cp: nat, i: nat)
    requires cp <= 0x10FFFF && i < |Utf8(cp)|
    ensures i > 0 ==> Utf8(cp)[i] == 0x80 + Shifted(cp, |Utf8(cp)| - 1 - i) % 64
    ensures i == 0 ==> Utf8(cp)[0] == Shifted(cp, |Utf8(cp)| - 1)
                         + (if |Utf8(cp)| == 1 then 0
                            else if |Utf8(cp)| == 2 then 0xC0 else if |Utf8(cp)| == 3 then 0xE0 else 0xF0)
  {
    assert Shifted(cp, 1) == cp / 64;
    assert Shifted(cp, 2) == cp / 64 / 64 == cp / 4096;
    assert Shifted(cp, 3) == cp / 64 / 64 / 64 == cp / 262144;
  }

  lemma SyncStart(c: bytes, p: nat)
    requires p <= |c| && ScanString(c, p).Ok?
    ensures Sync(c, p, ScanString(c, p).end, ScanString(c, p).value)
  {
    hide ScanString;
  }

  lemma ResumesStart(c: bytes, start: nat, e: nat)
    requires start <= e < |c|
    ensures Resumes(c, start, start, e, [])
  {
    hide Unescape;
    if Unescape(c, start, e).Ok? {
      assert [] + Unescape(c, start, e).value == Unescape(c, start, e).value;
    }
  }

  lemma ResumesEnd(c: bytes, start: nat, p: nat, e: nat, w: bytes)
    requires start <= e <= p <= e + 1 && e < |c| && Resumes(c, start, p, e, w)
    ensures Unescape(c, start, e) == Ok(w, p)
  {
    assert w + [] == w;
  }

  // w is what the second pass has written when it stands at p.
  ghost predicate Resumes(c: bytes, start: nat, p: nat, e: nat, w: bytes)
    requires start <= e + 1 && p <= e + 1 && e < |c|
  {
    match Unescape(c, p, e)
    case Err(at) => Unescape(c, start, e) == Err(at)
    case Ok(ws, z) => Unescape(c, start, e) == Ok(w + ws, z)
  }

  lemma ResumesNext(c: bytes, start: nat, p: nat, e: nat, w: bytes)
    requires start <= p < e < |c| && Resumes(c, start, p, e, w)
    ensures var r := UnescapeStep(c, p, e);
            if r.Ok? then Resumes(c, start, r.end, e, w + r.value) else Unescape(c, start, e) == Err(p)
  {
    hide UnescapeStep;
    var r := UnescapeStep(c, p, e);
    if r.Ok? && Unescape(c, r.end, e).Ok? {
      var ws := Unescape(c, r.end, e).value;
      assert w + (r.value + ws) == (w + r.value) + ws;
    }
  }

  // items is what the array loop has collected when it stands in front of an element.
  ghost predicate ElementsResume(c: bytes, first: nat, before: nat, depth: nat, items: seq<Json>)
    requires Terminated(c) && first + 1 < |c| && before + 1 < |c|
  {
    match ParseElements(c, before, depth)
    case Err(at) => ParseElements(c, first, depth) == Err(at)
    case Ok(vs, z) => ParseElements(c, first, depth) == Ok(items + vs, z)
  }

  lemma ElementsResumeStart(c: bytes, first: nat, depth: nat)
    requires Terminated(c) && first + 1 < |c|
    ensures ElementsResume(c, first, first, depth, [])
  {
    hide ParseElements;
    if ParseElements(c, first, depth).Ok? {
      var vs := ParseElements(c, first, depth).value;
      assert [] + vs == vs;
    }
  }

  lemma ElementsResumeNext(c: bytes, first: nat, before: nat, depth: nat, items: seq<Json>)
    requires Terminated(c) && first + 1 < |c| && before + 1 < |c|
    requires ElementsResume(c, first, before, depth, items)
    ensures var r := ParseValue(c, SkipWhitespace(c, before + 1), depth);
            if r.Err? then ParseElements(c, first, depth) == Err(r.at)
            else
              var q := SkipWhitespace(c, r.end);
              if c[q] == COMMA then q + 1 < |c| && ElementsResume(c, first, q, depth, items + [r.value])
              else if c[q] != RBRACKET then ParseElements(c, first, depth) == Err(q)
              else ParseElements(c, first, depth) == Ok(items + [r.value], q + 1)
  {
    hide ParseValue, SkipWhitespace;
    var r := ParseValue(c, SkipWhitespace(c, before + 1), depth);
    if r.Ok? {
      var q := SkipWhitespace(c, r.end);
      if c[q] == COMMA && ParseElements(c, q, depth).Ok? {
        var vs := ParseElements(c, q, depth).value;
        assert items + ([r.value] + vs) == (items + [r.value]) + vs;
      }
    }
  }

  ghost predicate MembersResume(c: bytes, first: nat, before: nat, depth: nat, ms: seq<Member>)
    requires Terminated(c) && first + 1 < |c| && before + 1 < |c|
  {
    match ParseMembers(c, before, depth)
    case Err(at) => ParseMembers(c, first, depth) == Err(at)
    case Ok(more, z) => ParseMembers(c, first, depth) == Ok(ms + more, z)
  }

  lemma MembersResumeStart(c: bytes, first: nat, depth: nat)
    requires Terminated(c) && first + 1 < |c|
    ensures MembersResume(c, first, first, depth, [])
  {
    hide ParseMembers;
    if ParseMembers(c, first, depth).Ok? {
      var more := ParseMembers(c, first, depth).value;
      assert [] + more == more;
    }
  }

  lemma MembersResumeNext(c: bytes, first: nat, before: nat, depth: nat, ms: seq<Member>)
    requires Terminated(c) && first + 1 < |c| && before + 1 < |c|
    requires MembersResume(c, first, before, depth, ms)
    ensures var r := ParseMember(c, before, depth);
            if r.Err? then ParseMembers(c, first, depth) == Err(r.at)
            else
              var q := SkipWhitespace(c, r.end);
              if c[q] == COMMA then q + 1 < |c| && MembersResume(c, first, q, depth, ms + [r.value])
              else if c[q] != RBRACE then ParseMembers(c, first, depth) == Err(q)
              else ParseMembers(c, first, depth) == Ok(ms + [r.value], q + 1)
  {
    hide ParseMember, SkipWhitespace;
    var r := ParseMember(c, before, depth);
    if r.Ok? {
      var q := SkipWhitespace(c, r.end);
      if c[q] == COMMA && ParseMembers(c, q, depth).Ok? {
        var more := ParseMembers(c, q, depth).value;
        assert ms + ([r.value] + more) == (ms + [r.value]) + more;
      }
    }
  }
}
