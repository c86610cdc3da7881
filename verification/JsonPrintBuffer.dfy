// The printer as bscJSON runs it: text is written into a buffer that grows, or that may not grow.
module JsonPrintBuffer {
  import opened Bytes
  import opened JsonValue
  import JsonSpelling
  import Texts = JsonRoundTrip

  class PrintBuffer {
    var buffer: array?<byte>
    var length: nat
    var offset: nat
    var depth: nat
    const noalloc: bool
    const grants: bool  // the allocator never fails
    const format: bool

    constructor (data: array<byte>, length: nat, noalloc: bool, grants: bool, format: bool)
      requires length <= data.Length && length <= INT_MAX
      ensures buffer == data && this.length == length && offset == 0 && depth == 0
      ensures this.noalloc == noalloc && this.grants == grants && this.format == format
      ensures Ready([])
    {
      buffer := data;
      this.length := length;
      offset := 0;
      depth := 0;
      this.noalloc := noalloc;
      this.grants := grants;
      this.format := format;
    }

    ghost predicate Valid()
      reads this
    {
      && buffer != null && length <= buffer.Length && length <= INT_MAX
      && (offset < length || offset == length == 0)
    }

    // How long the buffer may become.
    ghost function Limit(): nat
      reads this`length
    {
      if noalloc then length else INT_MAX
    }

    // The text so far is w, and the next byte goes behind it.
    ghost predicate Ready(w: bytes)
      reads this, buffer
    {
      Valid() && offset == |w| && buffer[..offset] == w
    }

    // The state a print function leaves behind: w, then t, then a terminator, with the offset
    // anywhere in t.
    ghost predicate Printed(w: bytes, t: bytes)
      reads this, buffer
    {
      && Valid() && |w| <= offset <= |w| + |t| && |w| + |t| + 2 <= length
      && buffer[..|w| + |t| + 1] == w + t + [NUL]
    }

    method Grant() returns (granted: bool)
      ensures grants ==> granted
    {
      granted := *;
      if grants { granted := true; }
    }

    // ensure: room for needed more bytes and one to spare. A failed reallocation drops the buffer.
    method Ensure(needed: nat) returns (ok: bool)
      requires Valid()
      modifies this`buffer, this`length
      ensures ok ==> Valid() && offset + needed + 1 <= length
      ensures ok ==> buffer[..offset] == old(buffer[..offset])
      ensures buffer == old(buffer) || buffer == null || fresh(buffer)
      ensures noalloc ==> buffer == old(buffer) && length == old(length)
      ensures noalloc ==> buffer[length..] == old(buffer[length..])
      ensures noalloc || grants ==> (ok <==> offset + needed + 1 <= Limit())
    {
      if length > 0 && offset >= length { return false; }
      if needed > INT_MAX { return false; }
      var total := needed + offset + 1;
      if total <= length { return true; }
      if noalloc { return false; }
      var newsize := total * 2;
      if total > INT_MAX / 2 {
        if total > INT_MAX { return false; }
        newsize := INT_MAX;
      }
      var granted := Grant();
      if !granted {
        buffer := null;
        length := 0;
        return false;
      }
      var newbuffer := new byte[newsize];
      var i := 0;
      while i < offset
        invariant i <= offset
        invariant newbuffer[..i] == buffer[..i]
        modifies newbuffer
      {
        newbuffer[i] := buffer[i];
        i := i + 1;
      }
      buffer := newbuffer;
      length := newsize;
      return true;
    }

    // Writes t behind the first k bytes.
    method Put(ghost w: bytes, k: nat, t: bytes)
      requires Valid() && k == |w| && k + |t| <= length && buffer[..k] == w
      modifies buffer
      ensures buffer[..k + |t|] == w + t && buffer[length..] == old(buffer[length..])
    {
      var i := 0;
      while i < |t|
        invariant i <= |t|
        invariant buffer[..k + i] == w + t[..i] && buffer[length..] == old(buffer[length..])
      {
        buffer[k + i] := t[i];
        i := i + 1;
      }
      assert t[..|t|] == t;
    }

    // update_offset: strlen from the offset on.
    method UpdateOffset(ghost w: bytes, ghost t: bytes)
      requires Printed(w, t) && NulFree(t)
      modifies this`offset
      ensures Ready(w + t)
    {
      ghost var n := |w| + |t|;
      ghost var all := w + t + [NUL];
      while buffer[offset] != NUL
        invariant |w| <= offset <= n < length && buffer[..n + 1] == all
        decreases n - offset
      {
        assert buffer[..n + 1][offset] == all[offset];
        offset := offset + 1;
      }
      assert buffer[..n + 1][offset] == all[offset];
      assert offset == n;
      assert buffer[..n] == buffer[..n + 1][..n];
    }

    // The final reallocation of print.
    method Trimmed(ghost t: bytes) returns (printed: array?<byte>)
      requires Ready(t)
      ensures printed != null ==> fresh(printed) && printed[..] == t + [NUL]
      ensures grants ==> printed != null
    {
      var granted := Grant();
      if !granted { return null; }
      printed := new byte[offset + 1];
      var i := 0;
      while i < offset
        invariant i <= offset && printed[..i] == buffer[..i]
        modifies printed
      {
        printed[i] := buffer[i];
        i := i + 1;
      }
      printed[i] := NUL;
      assert printed[..] == printed[..i] + [NUL];
    }

    // Room for a text and its terminator, and the text.
    method PrintText(ghost w: bytes, t: bytes) returns (ok: bool)
      requires Ready(w)
      modifies this`buffer, this`length, buffer
      ensures ok ==> Printed(w, t) && offset == old(offset)
      ensures buffer == old(buffer) || buffer == null || fresh(buffer)
      ensures noalloc ==> buffer == old(buffer) && length == old(length)
      ensures noalloc ==> buffer[length..] == old(buffer[length..])
      ensures noalloc || grants ==> (ok <==> |w| + |t| + 2 <= Limit())
    {
      ok := Ensure(|t| + 1);
      if !ok { return; }
      Put(w, offset, t + [NUL]);
      assert w + (t + [NUL]) == w + t + [NUL];
    }

    // Room for a piece in the middle of a container, and the piece.
    method PrintPiece(ghost w: bytes, t: bytes, spare: nat) returns (ok: bool)
      requires Ready(w) && spare <= 1
      modifies this`buffer, this`length, this`offset, buffer
      ensures ok ==> Ready(w + t)
      ensures buffer == old(buffer) || buffer == null || fresh(buffer)
      ensures noalloc ==> buffer == old(buffer) && length == old(length)
      ensures noalloc ==> buffer[length..] == old(buffer[length..])
      ensures noalloc || grants ==> (ok <==> |w| + |t| + spare + 1 <= Limit())
    {
      ok := Ensure(|t| + spare);
      if !ok { return; }
      Put(w, offset, t);
      offset := offset + |t|;
    }

    // The end of a container whose opening and body stand behind w.
    method PrintEnd(ghost w: bytes, ghost open: bytes, ghost body: bytes, close: bytes) returns (ok: bool)
      requires Ready(w + open + body)
      modifies this`buffer, this`length, buffer
      ensures ok ==> Printed(w, open + body + close)
      ensures buffer == old(buffer) || buffer == null || fresh(buffer)
      ensures noalloc ==> buffer == old(buffer) && length == old(length)
      ensures noalloc ==> buffer[length..] == old(buffer[length..])
      ensures noalloc || grants ==> (ok <==> |w| + |open| + |body| + |close| + 2 <= Limit())
    {
      ok := PrintText(w + open + body, close);
    }

    // print_string_ptr: count what escaping adds, reserve, then copy or escape.
    method PrintString(ghost w: bytes, s: bytes) returns (ok: bool)
      requires Ready(w)
      modifies this`buffer, this`length, buffer
      ensures ok ==> Printed(w, Quoted(s)) && offset == old(offset)
      ensures buffer == old(buffer) || buffer == null || fresh(buffer)
      ensures noalloc ==> buffer == old(buffer) && length == old(length)
      ensures noalloc ==> buffer[length..] == old(buffer[length..])
      ensures noalloc || grants ==> (ok <==> |w| + |Quoted(s)| + 2 <= Limit())
    {
      hide Escaped, Extra;
      var extra := CountEscapes(s);
      EscapedLength(s);
      ok := Ensure(|s| + extra + 3);
      if !ok { return; }
      WriteQuoted(w, s, extra);
    }

    method WriteQuoted(ghost w: bytes, s: bytes, extra: nat)
      requires Ready(w) && extra == Extra(s) && |w| + |s| + extra + 3 <= length
      modifies buffer
      ensures |Escaped(s)| == |s| + extra
      ensures buffer[..|w| + |s| + extra + 3] == w + [QUOTE] + Escaped(s) + [QUOTE, NUL]
      ensures buffer[length..] == old(buffer[length..])
    {
      hide Escaped, Extra;
      EscapedLength(s);
      ghost var q := w + [QUOTE];
      Put(w, offset, [QUOTE]);
      if extra == 0 {
        Put(q, offset + 1, s);
      } else {
        WriteEscaped(q, s);
      }
      Put(q + Escaped(s), offset + 1 + |s| + extra, [QUOTE, NUL]);
    }

    method WriteEscaped(ghost w: bytes, s: bytes)
      requires Valid() && offset + 1 == |w| && |w| + |Escaped(s)| <= length && buffer[..|w|] == w
      modifies buffer
      ensures buffer[..|w| + |Escaped(s)|] == w + Escaped(s) && buffer[length..] == old(buffer[length..])
    {
      hide EscapeByte;
      var i, out := 0, offset + 1;
      assert w + Escaped(s[..0]) == w;
      while i < |s|
        invariant i <= |s| && out == |w| + |Escaped(s[..i])| <= |w| + |Escaped(s)|
        invariant buffer[..out] == w + Escaped(s[..i]) && buffer[length..] == old(buffer[length..])
      {
        EscapedSnoc(s, i);
        EscapedPrefix(s, i + 1);
        Put(w + Escaped(s[..i]), out, EscapeByte(s[i]));
        assert w + Escaped(s[..i]) + EscapeByte(s[i]) == w + Escaped(s[..i + 1]);
        out := out + |EscapeByte(s[i])|;
        i := i + 1;
      }
      assert s[..|s|] == s;
    }

    // print_value: the buffer printer writes exactly the text of the value and a terminator, however
    // often the buffer is replaced; without allocation it succeeds just when there is room for the
    // text and two more bytes.
    method Print(ghost w: bytes, v: Json) returns (ok: bool)
      requires Ready(w) && Printable(v)
      modifies this, buffer
      ensures ok ==> Printed(w, PrintValue(v, format, old(depth))) && depth == old(depth)
      ensures buffer == old(buffer) || buffer == null || fresh(buffer)
      ensures noalloc ==> buffer == old(buffer) && length == old(length)
      ensures noalloc ==> buffer[length..] == old(buffer[length..])
      ensures noalloc || grants ==> (ok <==> |w| + |PrintValue(v, format, old(depth))| + 2 <= Limit())
      decreases v, 3
    {
      hide PrintElements, PrintMembers, IntText, Quoted;
      match v
      case Null => ok := PrintText(w, NULL_TEXT);
      case False => ok := PrintText(w, FALSE_TEXT);
      case True => ok := PrintText(w, TRUE_TEXT);
      case Number(d) =>
        var t := IntText(d.Floor);
        ok := PrintText(w, t);
        if ok { offset := offset + |t|; }
      case String(s) => ok := PrintString(w, s);
      case Array(items) => ok := PrintArray(w, items);
      case Object(ms) => ok := PrintObject(w, ms);
    }

    method PrintArray(ghost w: bytes, items: seq<Json>) returns (ok: bool)
      requires Ready(w) && forall i | 0 <= i < |items| :: Printable(items[i])
      modifies this, buffer
      ensures ok ==> Printed(w, [LBRACKET] + PrintElements(items, format, old(depth) + 1) + [RBRACKET])
      ensures ok ==> depth == old(depth)
      ensures buffer == old(buffer) || buffer == null || fresh(buffer)
      ensures noalloc ==> buffer == old(buffer) && length == old(length)
      ensures noalloc ==> buffer[length..] == old(buffer[length..])
      ensures noalloc || grants ==> (ok <==> |w| + |PrintElements(items, format, old(depth) + 1)| + 4 <= Limit())
      decreases items, 2
    {
      hide PrintElements, Printable;
      ghost var body := PrintElements(items, format, depth + 1);
      ok := PrintPiece(w, [LBRACKET], 0);
      if !ok { return; }
      depth := depth + 1;
      ok := PrintElementList(w + [LBRACKET], items);
      if !ok { return; }
      ok := PrintEnd(w, [LBRACKET], body, [RBRACKET]);
      if !ok { return; }
      depth := depth - 1;
    }

    // The loop over the elements of an array.
    method PrintElementList(ghost w: bytes, items: seq<Json>) returns (ok: bool)
      requires Ready(w) && forall i | 0 <= i < |items| :: Printable(items[i])
      modifies this, buffer
      ensures ok ==> Ready(w + PrintElements(items, format, old(depth))) && depth == old(depth)
      ensures buffer == old(buffer) || buffer == null || fresh(buffer)
      ensures noalloc ==> buffer == old(buffer) && length == old(length)
      ensures noalloc ==> buffer[length..] == old(buffer[length..])
      ensures (noalloc || grants) && !ok ==> |w| + |PrintElements(items, format, old(depth))| + 2 > Limit()
      decreases items, 1
    {
      hide PrintElements, Printable, ElementText;
      var i := 0;
      ghost var done: bytes := [];
      assert items[0..] == items;
      assert w + done == w;
      while i < |items|
        invariant i <= |items| && depth == old(depth) && Ready(w + done)
        invariant buffer == old(buffer) || fresh(buffer)
        invariant noalloc ==> buffer == old(buffer) && length == old(length)
        invariant noalloc ==> buffer[length..] == old(buffer[length..])
        invariant done + PrintElements(items[i..], format, depth) == PrintElements(items, format, depth)
      {
        ElementsSplit(items, i, format, depth);
        ghost var text := ElementText(items[i], i + 1 == |items|, format, depth);
        ok := PrintOneElement(w + done, items[i], i + 1 == |items|);
        if !ok { return; }
        assert w + done + text == w + (done + text);
        done := done + text;
        i := i + 1;
      }
      NoElements(format, depth);
      assert items[i..] == [];
      assert done + [] == done;
      ok := true;
    }

    // One turn of the array loop: a value, and a separator unless it is the last.
    method PrintOneElement(ghost w: bytes, v: Json, last: bool) returns (ok: bool)
      requires Ready(w) && Printable(v)
      modifies this, buffer
      ensures ok ==> Ready(w + ElementText(v, last, format, old(depth))) && depth == old(depth)
      ensures buffer == old(buffer) || buffer == null || fresh(buffer)
      ensures noalloc ==> buffer == old(buffer) && length == old(length)
      ensures noalloc ==> buffer[length..] == old(buffer[length..])
      ensures (noalloc || grants) && !ok ==> |w| + |ElementText(v, last, format, old(depth))| + 2 > Limit()
      decreases v, 4
    {
      hide Printable, PrintValue, ElementSeparator;
      ghost var t := PrintValue(v, format, depth);
      Texts.PrintNulFree(v, format, depth);
      ok := Print(w, v);
      if !ok { return; }
      UpdateOffset(w, t);
      if last {
        assert t + [] == t;
      } else {
        var separator := ElementSeparator(format);
        ok := PrintPiece(w + t, separator, 1);
        assert w + t + separator == w + (t + separator);
      }
    }

    method PrintObject(ghost w: bytes, ms: seq<Member>) returns (ok: bool)
      requires Ready(w) && forall i | 0 <= i < |ms| :: NulFree(ms[i].key) && Printable(ms[i].value)
      modifies this, buffer
      ensures ok ==>
        Printed(w, ObjectOpen(format) + PrintMembers(ms, format, old(depth) + 1) + ObjectClose(format, old(depth)))
      ensures ok ==> depth == old(depth)
      ensures buffer == old(buffer) || buffer == null || fresh(buffer)
      ensures noalloc ==> buffer == old(buffer) && length == old(length)
      ensures noalloc ==> buffer[length..] == old(buffer[length..])
      ensures noalloc || grants ==>
        (ok <==> |w| + |ObjectOpen(format)| + |PrintMembers(ms, format, old(depth) + 1)|
                 + |ObjectClose(format, old(depth))| + 2 <= Limit())
      decreases ms, 2
    {
      hide PrintMembers, Printable, ObjectOpen, ObjectClose;
      ghost var body := PrintMembers(ms, format, depth + 1);
      var open := ObjectOpen(format);
      ok := PrintPiece(w, open, 1);
      if !ok { return; }
      depth := depth + 1;
      ok := PrintMemberList(w + open, ms);
      if !ok { return; }
      var close := ObjectClose(format, depth - 1);
      ok := PrintEnd(w, open, body, close);
      if !ok { return; }
      depth := depth - 1;
    }

    method PrintMemberList(ghost w: bytes, ms: seq<Member>) returns (ok: bool)
      requires Ready(w) && forall i | 0 <= i < |ms| :: NulFree(ms[i].key) && Printable(ms[i].value)
      modifies this, buffer
      ensures ok ==> Ready(w + PrintMembers(ms, format, old(depth))) && depth == old(depth)
      ensures buffer == old(buffer) || buffer == null || fresh(buffer)
      ensures noalloc ==> buffer == old(buffer) && length == old(length)
      ensures noalloc ==> buffer[length..] == old(buffer[length..])
      ensures (noalloc || grants) && !ok ==> |w| + |PrintMembers(ms, format, old(depth))| + 2 > Limit()
      decreases ms, 1
    {
      hide PrintMembers, Printable, MemberText, MemberIndent, MemberEnd;
      var i := 0;
      ghost var done: bytes := [];
      assert ms[0..] == ms;
      assert w + done == w;
      while i < |ms|
        invariant i <= |ms| && depth == old(depth) && Ready(w + done)
        invariant buffer == old(buffer) || fresh(buffer)
        invariant noalloc ==> buffer == old(buffer) && length == old(length)
        invariant noalloc ==> buffer[length..] == old(buffer[length..])
        invariant done + PrintMembers(ms[i..], format, depth) == PrintMembers(ms, format, depth)
      {
        MembersSplit(ms, i, format, depth);
        ghost var indent, text := MemberIndent(format, depth), MemberText(ms[i], format, depth);
        ghost var end := MemberEnd(format, i + 1 == |ms|);
        ok := PrintOneMember(w + done, ms[i], i + 1 == |ms|);
        if !ok { return; }
        assert w + done + (indent + (text + end)) == w + (done + (indent + (text + end)));
        done := done + (indent + (text + end));
        i := i + 1;
      }
      NoMembers(format, depth);
      assert ms[i..] == [];
      assert done + [] == done;
      ok := true;
    }

    // One turn of the object loop: indentation, name, colon, value, comma and line end.
    method PrintOneMember(ghost w: bytes, m: Member, last: bool) returns (ok: bool)
      requires Ready(w) && NulFree(m.key) && Printable(m.value)
      modifies this, buffer
      ensures ok ==>
        Ready(w + (MemberIndent(format, old(depth)) + (MemberText(m, format, old(depth)) + MemberEnd(format, last))))
      ensures ok ==> depth == old(depth)
      ensures buffer == old(buffer) || buffer == null || fresh(buffer)
      ensures noalloc ==> buffer == old(buffer) && length == old(length)
      ensures noalloc ==> buffer[length..] == old(buffer[length..])
      ensures (noalloc || grants) && !ok ==>
        |w| + |MemberIndent(format, old(depth))| + |MemberText(m, format, old(depth))|
        + |MemberEnd(format, last)| + 2 > Limit()
      decreases m, 4
    {
      hide Printable, PrintValue, Quoted, MemberIndent, MemberColon, MemberEnd;
      ghost var indent, key, colon := MemberIndent(format, depth), Quoted(m.key), MemberColon(format);
      ghost var t, end := PrintValue(m.value, format, depth), MemberEnd(format, last);
      ok := PrintName(w, m.key);
      if !ok { return; }
      ok := PrintRest(w + indent + key + colon, m.value, last);
    }

    method PrintName(ghost w: bytes, key: bytes) returns (ok: bool)
      requires Ready(w) && NulFree(key)
      modifies this, buffer
      ensures ok ==> Ready(w + MemberIndent(format, depth) + Quoted(key) + MemberColon(format))
      ensures depth == old(depth)
      ensures buffer == old(buffer) || buffer == null || fresh(buffer)
      ensures noalloc ==> buffer == old(buffer) && length == old(length)
      ensures noalloc ==> buffer[length..] == old(buffer[length..])
      ensures (noalloc || grants) && !ok ==>
        |w| + |MemberIndent(format, depth)| + |Quoted(key)| + |MemberColon(format)| + 2 > Limit()
    {
      hide Quoted, MemberColon;
      Texts.KeyNulFree(key);
      ghost var done := w + MemberIndent(format, depth);
      if format {
        ok := PrintPiece(w, Tabs(depth), 0);
        if !ok { return; }
      } else {
        assert done == w;
      }
      ok := PrintString(done, key);
      if !ok { return; }
      UpdateOffset(done, Quoted(key));
      ok := PrintPiece(done + Quoted(key), MemberColon(format), 0);
    }

    method PrintRest(ghost w: bytes, v: Json, last: bool) returns (ok: bool)
      requires Ready(w) && Printable(v)
      modifies this, buffer
      ensures ok ==> Ready(w + PrintValue(v, format, old(depth)) + MemberEnd(format, last)) && depth == old(depth)
      ensures buffer == old(buffer) || buffer == null || fresh(buffer)
      ensures noalloc ==> buffer == old(buffer) && length == old(length)
      ensures noalloc ==> buffer[length..] == old(buffer[length..])
      ensures (noalloc || grants) && !ok ==>
        |w| + |PrintValue(v, format, old(depth))| + |MemberEnd(format, last)| + 2 > Limit()
      decreases v, 4
    {
      hide Printable, PrintValue, MemberEnd;
      ghost var t := PrintValue(v, format, depth);
      Texts.PrintNulFree(v, format, depth);
      ok := Print(w, v);
      if !ok { return; }
      UpdateOffset(w, t);
      ok := PrintPiece(w + t, MemberEnd(format, last), 1);
    }
  }

  ghost function ElementText(v: Json, last: bool, fmt: bool, depth: nat): bytes
    requires Printable(v)
  {
    PrintValue(v, fmt, depth) + (if last then [] else ElementSeparator(fmt))
  }

  lemma ElementsSplit(items: seq<Json>, i: nat, fmt: bool, depth: nat)
    requires i < |items| && forall k | 0 <= k < |items| :: Printable(items[k])
    ensures PrintElements(items[i..], fmt, depth)
         == ElementText(items[i], i + 1 == |items|, fmt, depth) + PrintElements(items[i + 1..], fmt, depth)
  {
    hide PrintValue, Printable;
    assert items[i..][1..] == items[i + 1..];
    if i + 1 < |items| {
      var rest := items[i + 1..];
      assert PrintMoreElements(rest, fmt, depth) == ElementSeparator(fmt) + PrintElements(rest, fmt, depth);
    }
  }

  lemma MembersSplit(ms: seq<Member>, i: nat, fmt: bool, depth: nat)
    requires i < |ms| && forall k | 0 <= k < |ms| :: Printable(ms[k].value)
    ensures PrintMembers(ms[i..], fmt, depth)
         == (MemberIndent(fmt, depth) + (MemberText(ms[i], fmt, depth) + MemberEnd(fmt, i + 1 == |ms|)))
            + PrintMembers(ms[i + 1..], fmt, depth)
  {
    hide MemberText, Printable, MemberIndent, MemberEnd;
    assert ms[i..][1..] == ms[i + 1..];
  }

  lemma NoElements(fmt: bool, depth: nat)
    ensures PrintElements([], fmt, depth) == []
  {
  }

  lemma NoMembers(fmt: bool, depth: nat)
    ensures PrintMembers([], fmt, depth) == []
  {
  }

  // Bytes that escaping adds.
  function Extra(s: bytes): nat {
    if s == [] then 0 else Extra(s[..|s| - 1]) + |EscapeByte(s[|s| - 1])| - 1
  }

  method CountEscapes(s: bytes) returns (extra: nat)
    ensures extra == Extra(s)
  {
    extra := 0;
    var i := 0;
    while i < |s|
      invariant i <= |s| && extra == Extra(s[..i])
    {
      assert s[..i + 1][..i] == s[..i];
      if NeedsShortEscape(s[i]) {
        extra := extra + 1;
      } else if s[i] < 32 {
        extra := extra + 5;
      }
      i := i + 1;
    }
    assert s[..|s|] == s;
  }

  lemma EscapedSnoc(s: bytes, i: nat)
    requires i < |s|
    ensures Escaped(s[..i + 1]) == Escaped(s[..i]) + EscapeByte(s[i])
  {
    hide EscapeByte;
    assert s[..i + 1] == s[..i] + [s[i]];
    JsonSpelling.EscapedConcat(s[..i], [s[i]]);
    assert Escaped([s[i]]) == EscapeByte(s[i]) + Escaped([s[i]][1..]);
  }

  lemma EscapedPrefix(s: bytes, i: nat)
    requires i <= |s|
    ensures |Escaped(s[..i])| <= |Escaped(s)|
  {
    JsonSpelling.EscapedConcat(s[..i], s[i..]);
    assert s == s[..i] + s[i..];
  }

  lemma EscapeByteLength(b: byte)
    ensures |EscapeByte(b)| == 1 ==> EscapeByte(b) == [b]
  {
  }

  lemma {:induction false} EscapedLength(s: bytes)
    ensures |Escaped(s)| == |s| + Extra(s)
    ensures Extra(s) == 0 ==> Escaped(s) == s
  {
    hide EscapeByte;
    if s != [] {
      var n := |s| - 1;
      EscapeByteLength(s[n]);
      EscapedLength(s[..n]);
      EscapedSnoc(s, n);
      assert s[..n + 1] == s;
      assert s == s[..n] + [s[n]];
    }
  }

  // bscJSON_PrintPreallocated: the caller's buffer receives the text and a terminator exactly when it
  // is two bytes longer than the text.
  method PrintPreallocated(v: Json, buf: array?<byte>, len: int, fmt: bool) returns (ok: bool)
    requires Printable(v) && len <= INT_MAX
    requires buf != null ==> len <= buf.Length
    modifies buf
    ensures ok <==> buf != null && len >= |Print(v, fmt)| + 2
    ensures ok ==> buf[..|Print(v, fmt)| + 1] == Print(v, fmt) + [NUL]
    ensures buf != null && len >= 0 ==> buf[len..] == old(buf[len..])
  {
    hide PrintValue, Printable;
    if len < 0 || buf == null { return false; }
    var p := new PrintBuffer(buf, len, true, false, fmt);
    ok := p.Print([], v);
    assert [] + Print(v, fmt) + [NUL] == Print(v, fmt) + [NUL];
  }

  // print: a growing buffer, cut to the length of the text at the end. A result is the text and its
  // terminator and nothing else; with memory enough there is one unless the text is too long for int.
  method PrintAllocated(v: Json, fmt: bool, grants: bool) returns (printed: array?<byte>)
    requires Printable(v)
    ensures grants ==> (printed != null <==> |Print(v, fmt)| + 2 <= INT_MAX)
    ensures printed != null ==> fresh(printed) && printed[..] == Print(v, fmt) + [NUL]
  {
    hide PrintValue, Printable;
    var data := new byte[256];
    var p := new PrintBuffer(data, data.Length, false, grants, fmt);
    var ok := p.Print([], v);
    if !ok { return null; }
    ghost var t := Print(v, fmt);
    Texts.PrintNulFree(v, fmt, 0);
    p.UpdateOffset([], t);
    assert [] + t == t;
    printed := p.Trimmed(t);
  }
}
