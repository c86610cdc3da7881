// What goes over the line to the DAS and back: a length, a JSON header and a body, padded to whole
// cipher blocks and encrypted.
module Frame {
  import opened Bytes
  import opened JsonValue
  import opened JsonParse
  import opened JsonLookup
  import JsonGrammar
  import JsonRoundTrip

  // ----- padding -----

  const BLOCK: nat := 16

  // calculate_padding_len
  function PaddedLength(n: nat): (r: nat)
    ensures n < r <= n + BLOCK && r % BLOCK == 0
  {
    n + (BLOCK - n % BLOCK)
  }

  function Fill(n: nat, b: byte): (r: bytes)
    ensures |r| == n && forall i | 0 <= i < n :: r[i] == b
  {
    seq(n, _ => b)
  }

  // Section 6.3 of RFC 5652.
  function Pad(s: bytes): (r: bytes)
    ensures |r| == PaddedLength(|s|) && r[..|s|] == s
  {
    s + Fill(BLOCK - |s| % BLOCK, BLOCK - |s| % BLOCK)
  }

  datatype Unpadded = Plain(s: bytes) | BadInput | Unmatched

  predicate EndsWith(b: bytes, n: nat, p: byte) {
    n <= |b| && forall i | |b| - n <= i < |b| :: b[i] == p
  }

  function Unpad(b: bytes): Unpadded {
    if |b| == 0 || |b| % BLOCK != 0 then BadInput
    else
      var p := b[|b| - 1];
      if p > BLOCK || p == 0 || !EndsWith(b, p, p) then Unmatched
      else Plain(b[..|b| - p])
  }

  // The unpadder accepts exactly the paddings of strings, and gives the string back.
  lemma UnpadIff(b: bytes, s: bytes)
    ensures Unpad(b) == Plain(s) <==> b == Pad(s)
  {
    var k: byte := BLOCK - |s| % BLOCK;
    if Unpad(b) == Plain(s) {
      assert |s| == |b| - b[|b| - 1] && b[|b| - 1] == k;
      assert b[|s|..] == Fill(k, k);
      assert b == b[..|s|] + b[|s|..];
    }
    if b == Pad(s) {
      assert EndsWith(b, k, k);
    }
  }

  lemma UnpadAccepts(b: bytes)
    requires |b| % BLOCK == 0
    ensures Unpad(b).Plain? <==> exists s :: b == Pad(s)
  {
    if Unpad(b).Plain? {
      UnpadIff(b, Unpad(b).s);
    } else if s :| b == Pad(s) {
      UnpadIff(b, s);
    }
  }

  // ----- the cipher -----

  // AES-128 in CBC mode under one key and the fixed initial vector: on whole blocks, a bijection that
  // keeps the length.
  ghost predicate Cipher(enc: bytes -> bytes, dec: bytes -> bytes) {
    && (forall b: bytes | |b| % BLOCK == 0 :: |enc(b)| == |b| && dec(enc(b)) == b)
    && (forall b: bytes | |b| % BLOCK == 0 :: |dec(b)| == |b| && enc(dec(b)) == b)
  }

  // ----- the frame -----

  const CMD_VER: bytes := [67, 109, 100, 86, 101, 114]
  const SEQ: bytes := [83, 101, 113]
  const MSG_TYPE: bytes := [77, 115, 103, 84, 121, 112, 101]
  const VERSION_MAX: nat := 32
  const SEND_MAX: nat := 2048
  const LENGTHS: nat := 0x1_0000_0000  // what a length of 32 bits can tell apart

  type Int = n: int | INT_MIN <= n <= INT_MAX

  function Header(version: bytes, sequence: Int, kind: Int): (v: Json)
    requires NulFree(version)
    ensures Printable(v) && Nest(v) == 1 && v.Object?
  {
    var ms := [
      Member(CMD_VER, String(version)), Member(SEQ, Number(sequence as real)), Member(MSG_TYPE, Number(kind as real))];
    HeaderPrintable(ms, version, sequence, kind);
    Object(ms)
  }

  lemma HeaderPrintable(ms: seq<Member>, version: bytes, sequence: Int, kind: Int)
    requires NulFree(version)
    requires ms == [
      Member(CMD_VER, String(version)), Member(SEQ, Number(sequence as real)), Member(MSG_TYPE, Number(kind as real))]
    ensures Printable(Object(ms)) && Nest(Object(ms)) == 1
  {
    assert IsInt(sequence as real) && IsInt(kind as real);
    NestFlat(ms);
  }

  lemma {:induction false} NestFlat(ms: seq<Member>)
    requires forall i | 0 <= i < |ms| :: !ms[i].value.Array? && !ms[i].value.Object?
    ensures NestMembers(ms) == 0
  {
    if ms != [] { NestFlat(ms[1..]); }
  }

  // serialize_payload_common
  function Common(version: bytes, sequence: Int, kind: Int): bytes
    requires NulFree(version)
  {
    Print(Header(version, sequence, kind), false)
  }

  // serialize_short and deserialize_short
  function Short(n: nat): (r: bytes)
    requires n < 0x10000
    ensures |r| == 2 && FromShort(r[0], r[1]) == n
  {
    [n / 256, n % 256]
  }

  function FromShort(hi: byte, lo: byte): nat {
    (hi as int) * 256 + lo as int
  }

  function Payload(common: bytes, body: bytes): bytes
    requires |common| < 0x10000
  {
    Short(|common|) + common + body
  }

  // The length of the padded payload is kept in 16 bits; with these bodies it fits.
  predicate Fits(common: bytes, body: bytes) {
    PaddedLength(2 + |common| + |body|) < 0x10000
  }

  // A payload that does not fit gets a buffer that is too small for it, one that fits gets exactly the
  // room it needs.
  lemma RoomIff(n: nat)
    ensures PaddedLength(n) % 0x10000 >= n <==> PaddedLength(n) < 0x10000
  {
  }

  lemma {:induction false} EscapedLength(s: bytes)
    ensures |Escaped(s)| <= 6 * |s|
  {
    if s != [] { EscapedLength(s[1..]); }
  }

  // A version that the message structure can hold gives a short header.
  lemma CommonLength(version: bytes, sequence: Int, kind: Int)
    requires NulFree(version)
    ensures |Common(version, sequence, kind)| <= 6 * |version| + 160
  {
    var ms := Header(version, sequence, kind).members;
    MembersLength(ms);
    StringMemberLength(CMD_VER, version);
    IntMemberLength(SEQ, sequence);
    IntMemberLength(MSG_TYPE, kind);
    hide MemberText;
  }

  lemma StringMemberLength(key: bytes, s: bytes)
    requires NulFree(s)
    ensures |MemberText(Member(key, String(s)), false, 1)| <= 6 * |key| + 6 * |s| + 5
  {
    EscapedLength(key);
    EscapedLength(s);
    hide Escaped;
  }

  lemma IntMemberLength(key: bytes, n: Int)
    ensures IsInt(n as real) && |MemberText(Member(key, Number(n as real)), false, 1)| <= 6 * |key| + 14
  {
    EscapedLength(key);
    JsonRoundTrip.IntTextShort(n);
    hide Escaped, IntText;
  }

  // Whatever the kernel accepts for sending fits: it refuses longer bodies.
  lemma AcceptedFits(version: bytes, sequence: Int, kind: Int, body: bytes)
    requires NulFree(version) && |version| < VERSION_MAX && |body| <= SEND_MAX
    ensures Fits(Common(version, sequence, kind), body)
  {
    CommonLength(version, sequence, kind);
  }

  lemma MembersLength(ms: seq<Member>)
    requires |ms| == 3 && Printable(Object(ms))
    ensures |Print(Object(ms), false)| == 4 +
            |MemberText(ms[0], false, 1)| + |MemberText(ms[1], false, 1)| + |MemberText(ms[2], false, 1)|
  {
    hide MemberText;
    assert ms[1..][1..] == ms[2..] && ms[2..][1..] == [];
    assert |PrintMembers(ms[2..], false, 1)| == |MemberText(ms[2], false, 1)|;
    assert |PrintMembers(ms[1..], false, 1)| == |MemberText(ms[1], false, 1)| + 1 + |PrintMembers(ms[2..], false, 1)|;
    assert |PrintMembers(ms, false, 1)| == |MemberText(ms[0], false, 1)| + 1 + |PrintMembers(ms[1..], false, 1)|;
  }

  // ----- what a frame says -----

  // A plain text of whole blocks: the length of the header in two bytes, the high one first; an object with
  // the version, the number and the kind as the items of those names; the body; and fill that counts itself.
  ghost predicate Framed(d: bytes, version: bytes, sequence: Int, kind: Int, body: bytes) {
    |d| >= 2
    && var n := d[0] as int * 256 + d[1] as int;
    var end := 2 + n + |body|;
    && end < |d| <= end + 16 && |d| % 16 == 0
    && HasHeader(d[2..2 + n], version, sequence, kind)
    && d[2 + n..end] == body
    && forall i | end <= i < |d| :: d[i] as int == |d| - end
  }

  ghost predicate HasHeader(t: bytes, version: bytes, sequence: Int, kind: Int) {
    exists v :: IsHeader(t, v, version, sequence, kind)
  }

  ghost predicate IsHeader(t: bytes, v: Json, version: bytes, sequence: Int, kind: Int) {
    && JsonGrammar.Denotes(t, v) && v.Object? && |v.members| == 3
    && HasItem(v, "CmdVer", String(version))
    && HasItem(v, "Seq", Number(sequence as real))
    && HasItem(v, "MsgType", Number(kind as real))
  }

  predicate HasItem(v: Json, name: string, value: Json)
    requires forall i | 0 <= i < |name| :: name[i] < 128 as char
  {
    GetItem(v, Ascii(name), true) == Item(value)
  }

  // What is sent is such a frame.
  lemma Frames(version: bytes, sequence: Int, kind: Int, body: bytes)
    requires NulFree(version) && Fits(Common(version, sequence, kind), body)
    ensures Framed(Pad(Payload(Common(version, sequence, kind), body)), version, sequence, kind, body)
  {
    hide Common, Header, Payload, Pad, Printable, Nest, IsHeader;
    var common := Common(version, sequence, kind);
    var p := Payload(common, body);
    var d := Pad(p);
    PayloadParts(common, body);
    PadParts(p);
    var n, end := |common|, |p|;
    assert d[0] == p[0] && d[1] == p[1];
    assert d[2..2 + n] == p[2..][..n] == common;
    assert d[2 + n..end] == p[2..][n..] == body;
    CommonIsHeader(version, sequence, kind);
  }

  lemma PadParts(s: bytes)
    ensures var d := Pad(s);
            && |s| < |d| <= |s| + 16 && |d| % 16 == 0 && d[..|s|] == s
            && forall i | |s| <= i < |d| :: d[i] as int == |d| - |s|
  {
  }

  lemma CommonIsHeader(version: bytes, sequence: Int, kind: Int)
    requires NulFree(version)
    ensures IsHeader(Common(version, sequence, kind), Header(version, sequence, kind), version, sequence, kind)
  {
    hide Printable, Nest, PrintValue, JsonGrammar.Denotes;
    var v := Header(version, sequence, kind);
    JsonRoundTrip.PrintDenotes(v, false, 0);
    assert CMD_VER == Ascii("CmdVer") && SEQ == Ascii("Seq");
    assert MSG_TYPE == Ascii("MsgType");
    var ms := v.members;
    assert |SEQ| != |CMD_VER| && |MSG_TYPE| != |CMD_VER| && |MSG_TYPE| != |SEQ|;
    assert ms[1..][0] == ms[1] && ms[1..][1..] == ms[2..] && ms[2..][0] == ms[2];
    assert Find(ms[2..], MSG_TYPE, true) == Item(ms[2].value);
  }

  // ----- unframing -----

  datatype Received =
    | Message(version: bytes, sequence: int, body: bytes)
    | BadPadding | BadLength | BadHeader
    | Overrun(size: nat)  // the source starts to move that many bytes, more than the buffer holds

  // The version field of a received message holds one byte less than its size.
  function Cut(version: bytes): (r: bytes)
    ensures r <= version && |r| == if |version| < 32 then |version| else 31
  {
    if |version| >= VERSION_MAX then version[..VERSION_MAX - 1] else version
  }

  datatype Head = Head(version: bytes, sequence: int) | NoHead

  // deserialize_common, on the string that starts at the header and ends at the next NUL in memory.
  function ReadHeader(text: bytes): Head
    requires NulFree(text)
  {
    match Parse(text)
    case Err(_) => NoHead
    case Ok(v, _) =>
      var n, c := GetItem(v, SEQ, false), GetItem(v, CMD_VER, false);
      if n.Item? && c.Item? && n.value.Number? && c.value.String?
      then Head(Cut(c.value.s), ValueInt(n.value.d))
      else NoHead
  }

  // What is left for the body, in unsigned 32-bit arithmetic.
  function BodySize(plain: nat, header: nat): nat {
    (plain - 2 - header) % LENGTHS
  }

  // das_message_receive after decryption; beyond is what lies in memory behind the buffer.
  function Unframe(d: bytes, beyond: bytes): Received
    requires |d| < LENGTHS
  {
    match Unpad(d)
    case BadInput => BadPadding
    case Unmatched => BadPadding
    case Plain(s) =>
      var n := FromShort(d[0], d[1]);
      if n >= |s| then BadLength
      else
        var h := ReadHeader(CString(d[2..] + beyond));
        if h.NoHead? then BadHeader
        else
          BodySizeIs(|s|, n);
          if 2 + n + BodySize(|s|, n) > |d| then Overrun(BodySize(|s|, n))
          else Message(h.version, h.sequence, s[2 + n..])
  }

  // ----- staying inside the buffer -----

  // The header is looked at.
  predicate HeaderRead(d: bytes) {
    Unpad(d).Plain? && FromShort(d[0], d[1]) < |Unpad(d).s|
  }

  // Neither is the header string measured past the end of the buffer, nor is memory moved past it.
  predicate StaysInside(d: bytes, beyond: bytes)
    requires |d| < LENGTHS
  {
    && (HeaderRead(d) ==> |CString(d[2..] + beyond)| < |d| - 2)
    && !Unframe(d, beyond).Overrun?
  }

  // For every plain text: unframing stays inside its buffer exactly when the length field is refused, or a
  // terminator lies behind that field in the plain text and the body is not moved past the end.
  lemma StaysInsideIff(s: bytes, beyond: bytes)
    requires |Pad(s)| < LENGTHS
    ensures StaysInside(Pad(s), beyond) <==>
            || |s| < 2 || FromShort(s[0], s[1]) >= |s|
            || (!NulFree(s[2..])
                && !(FromShort(s[0], s[1]) == |s| - 1 && ReadHeader(CString(Pad(s)[2..] + beyond)).Head?))
  {
    OverrunIff(s, beyond);
    LengthField(s);
    UnpadIff(Pad(s), s);
    if |s| >= 2 { TerminatorIff(s, beyond); }
    hide ReadHeader, CString, Pad, Unpad, BodySize, FromShort, Unframe;
  }

  // The header string ends inside the buffer exactly when the plain text has a terminator: the padding has
  // none.
  lemma TerminatorIff(s: bytes, beyond: bytes)
    requires |s| >= 2
    ensures |CString(Pad(s)[2..] + beyond)| < |Pad(s)| - 2 <==> !NulFree(s[2..])
    ensures NulFree(s[2..]) ==> CString(Pad(s)[2..] + beyond) == Pad(s)[2..] + CString(beyond)
  {
    var d := Pad(s);
    var k := BLOCK - |s| % BLOCK;
    assert d[2..] == s[2..] + Fill(k, k);
    if NulFree(s[2..]) {
      assert NulFree(d[2..]);
      CStringConcat(d[2..], beyond);
    } else {
      var i :| 0 <= i < |s[2..]| && s[2..][i] == NUL;
      assert (d[2..] + beyond)[i] == NUL;
      CStringStops(d[2..] + beyond, i);
    }
  }

  // So an ordinary message does not: with a body free of terminators it is received as it was sent, and yet
  // its header string is measured into whatever lies behind the buffer.
  lemma OrdinaryReadsBeyond(version: bytes, sequence: Int, kind: Int, body: bytes, beyond: bytes)
    requires NulFree(version) && NulFree(body) && Fits(Common(version, sequence, kind), body)
    ensures var d := Pad(Payload(Common(version, sequence, kind), body));
            && |d| < LENGTHS
            && Unframe(d, beyond) == Message(Cut(version), sequence, body)
            && CString(d[2..] + beyond) == d[2..] + CString(beyond)
            && !StaysInside(d, beyond)
  {
    var common := Common(version, sequence, kind);
    var p := Payload(common, body);
    UnframesPadded(version, sequence, kind, body, beyond);
    ReadsHeader(version, sequence, kind, []);
    assert common + [] == common;
    PayloadParts(common, body);
    hide Common, Cut, ReadHeader, Unframe, Pad, CString, Payload, FromShort, StaysInside;
    assert NulFree(p[2..]);
    TerminatorIff(p, beyond);
    StaysInsideIff(p, beyond);
  }

  lemma PayloadParts(common: bytes, body: bytes)
    requires |common| < 0x10000
    ensures var p := Payload(common, body);
            p[2..] == common + body && FromShort(p[0], p[1]) == |common| && |p| == 2 + |common| + |body|
  {
  }

  // Memory is moved past the end for one value of the length field: the guard lets a header pass that ends
  // one byte behind the plain text, and the size of the body wraps around.
  lemma OverrunIff(s: bytes, beyond: bytes)
    requires |Pad(s)| < LENGTHS
    ensures Unframe(Pad(s), beyond).Overrun? <==>
            && |s| >= 2 && FromShort(s[0], s[1]) == |s| - 1
            && ReadHeader(CString(Pad(s)[2..] + beyond)).Head?
    ensures Unframe(Pad(s), beyond).Overrun? ==> Unframe(Pad(s), beyond) == Overrun(0xFFFF_FFFF)
  {
    hide ReadHeader, CString, Pad, Unpad, BodySize, FromShort;
    var d := Pad(s);
    UnpadIff(d, s);
    LengthField(s);
    var n := FromShort(d[0], d[1]);
    if n < |s| { BodySizeIs(|s|, n); }
  }

  lemma LengthField(s: bytes)
    ensures var d := Pad(s);
            && |d| >= BLOCK
            && (|s| >= 2 ==> d[0] == s[0] && d[1] == s[1])
            && (|s| < 2 ==> FromShort(d[0], d[1]) >= |s|)
  {
    var d := Pad(s);
    if |s| >= 2 { assert d[..|s|] == s && d[0] == s[0] && d[1] == s[1]; }
    if |s| == 1 { assert d[1] == 15; }
  }

  lemma BodySizeIs(plain: nat, header: nat)
    requires header < plain < LENGTHS
    ensures BodySize(plain, header) == if header == plain - 1 then 0xFFFF_FFFF else plain - 2 - header
  {
  }

  // A message that does it: any header, no body, and a length field one too large.
  lemma OverrunReached(version: bytes, sequence: Int, kind: Int, beyond: bytes)
    requires NulFree(version) && |version| < VERSION_MAX
    ensures |Common(version, sequence, kind)| < 0xFFFF
    ensures var common := Common(version, sequence, kind);
            var s := Short(|common| + 1) + common;
            |Pad(s)| < LENGTHS && Unframe(Pad(s), beyond) == Overrun(0xFFFF_FFFF)
  {
    CommonLength(version, sequence, kind);
    hide Common, ReadHeader, CString, Unframe;
    var common := Common(version, sequence, kind);
    var s := Short(|common| + 1) + common;
    var d := Pad(s);
    var rest := d[2 + |common|..] + beyond;
    assert d[..|s|] == s;
    assert d[2..] + beyond == common + rest by {
      assert d[2..2 + |common|] == s[2..] == common;
      assert d[2..] == d[2..2 + |common|] + d[2 + |common|..];
    }
    ReadsHeader(version, sequence, kind, []);
    assert common + [] == common;
    CStringConcat(common, rest);
    ReadsHeader(version, sequence, kind, CString(rest));
    assert s[0] == Short(|common| + 1)[0] && s[1] == Short(|common| + 1)[1];
    OverrunIff(s, beyond);
  }

  lemma {:induction false} CStringStops(s: bytes, i: nat)
    requires i < |s| && s[i] == NUL
    ensures |CString(s)| <= i
  {
    if i > 0 { CStringStops(s[1..], i - 1); }
  }

  lemma {:induction false} CStringConcat(a: bytes, b: bytes)
    requires NulFree(a)
    ensures CString(a + b) == a + CString(b)
  {
    if a == [] {
      assert a + b == b;
    } else {
      assert (a + b)[1..] == a[1..] + b;
      CStringConcat(a[1..], b);
      assert a == [a[0]] + a[1..];
    }
  }

  lemma FindsHeader(version: bytes, sequence: Int, kind: Int)
    requires NulFree(version)
    ensures GetItem(Header(version, sequence, kind), SEQ, false) == Item(Number(sequence as real))
    ensures GetItem(Header(version, sequence, kind), CMD_VER, false) == Item(String(version))
  {
    var ms := Header(version, sequence, kind).members;
    assert SameKey(CMD_VER, ms[0].key, false);
    assert |SEQ| != |CMD_VER| && !SameKey(SEQ, ms[0].key, false) && SameKey(SEQ, ms[1..][0].key, false);
  }

  lemma ReadsHeader(version: bytes, sequence: Int, kind: Int, suffix: bytes)
    requires NulFree(version) && NulFree(suffix)
    ensures NulFree(Common(version, sequence, kind) + suffix)
    ensures ReadHeader(Common(version, sequence, kind) + suffix) == Head(Cut(version), sequence)
  {
    hide Nest, Printable, PrintValue, Parse, Header, Cut;
    JsonRoundTrip.PrefixRoundTrip(Header(version, sequence, kind), false, suffix);
    FindsHeader(version, sequence, kind);
    var n: int := sequence;
    assert (n as real).Floor == n && (-(n as real)).Floor == -n;
  }

  // For every version, number and body, and whatever lies behind the buffer, the receiver gets back
  // what the sender framed; of a version longer than its field, the front.
  lemma RoundTrip(
    version: bytes, sequence: Int, kind: Int, body: bytes, beyond: bytes, enc: bytes -> bytes, dec: bytes -> bytes)
    requires Cipher(enc, dec) && NulFree(version) && Fits(Common(version, sequence, kind), body)
    ensures var sent := enc(Pad(Payload(Common(version, sequence, kind), body)));
            Unframe(dec(sent), beyond) == Message(Cut(version), sequence, body)
  {
    hide Common, Pad, Cut, Payload, Unframe;
    UnframesPadded(version, sequence, kind, body, beyond);
    var d := Pad(Payload(Common(version, sequence, kind), body));
    assert dec(enc(d)) == d;
  }

  lemma UnframesPadded(version: bytes, sequence: Int, kind: Int, body: bytes, beyond: bytes)
    requires NulFree(version) && Fits(Common(version, sequence, kind), body)
    ensures var d := Pad(Payload(Common(version, sequence, kind), body));
            Unframe(d, beyond) == Message(Cut(version), sequence, body)
  {
    hide Common, Cut, Pad, Unpad, ReadHeader, CString;
    var common := Common(version, sequence, kind);
    var p := Payload(common, body);
    var d := Pad(p);
    UnpadIff(d, p);
    assert d[..|p|] == p && d[0] == p[0] && d[1] == p[1];
    var rest := d[2 + |common|..] + beyond;
    ReadsHeader(version, sequence, kind, []);
    assert common + [] == common;
    CStringConcat(common, rest);
    ReadsHeader(version, sequence, kind, CString(rest));
    HeaderPart(d, common, body, beyond);
    assert p[2 + |common|..] == body;
  }

  lemma HeaderPart(d: bytes, common: bytes, body: bytes, beyond: bytes)
    requires |common| < 0x10000 && Payload(common, body) <= d
    ensures d[2..] + beyond == common + (d[2 + |common|..] + beyond)
  {
    var p := Payload(common, body);
    assert d[2..2 + |common|] == p[2..2 + |common|] == common;
    assert d[2..] == d[2..2 + |common|] + d[2 + |common|..];
  }
}
