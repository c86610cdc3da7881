// Character content and attribute values of ezxml: encoding, and decoding in place.
module XmlText {
  import opened Bytes
  import opened Sequences
  import JsonParse
  import Utf

  // ----- ezxml_ampencode -----

  const AMP_REF: bytes := [38, 97, 109, 112, 59]
  const LT_REF: bytes := [38, 108, 116, 59]
  const GT_REF: bytes := [38, 103, 116, 59]
  const QUOT_REF: bytes := [38, 113, 117, 111, 116, 59]
  const APOS_REF: bytes := [38, 97, 112, 111, 115, 59]
  const LF_REF: bytes := [38, 35, 120, 65, 59]
  const TAB_REF: bytes := [38, 35, 120, 57, 59]
  const CR_REF: bytes := [38, 35, 120, 68, 59]

  function EncodeByte(b: byte, attr: bool): (t: bytes)
    ensures 0 < |t| <= 6
  {
    if b == AMP then AMP_REF
    else if b == LESS then LT_REF
    else if b == GREATER then GT_REF
    else if b == QUOTE && attr then QUOT_REF
    else if b == LF && attr then LF_REF
    else if b == TAB && attr then TAB_REF
    else if b == CR then CR_REF
    else [b]
  }

  function Encoded(s: bytes, attr: bool): bytes {
    if s == [] then [] else EncodeByte(s[0], attr) + Encoded(s[1..], attr)
  }

  // ----- character and entity references -----

  function DigitIn(b: byte, base: nat): int {
    if base == 16 then JsonParse.HexValue(b) else if IsDigit(b) then b - ZERO else -1
  }

  function SpaceRun(s: bytes, i: nat): (j: nat)
    requires i <= |s|
    ensures i <= j <= |s|
    decreases |s| - i
  {
    if i < |s| && IsSpace(s[i]) then SpaceRun(s, i + 1) else i
  }

  // Value of the digits from i on, with v already read, and the offset behind them.
  function Digits(s: bytes, i: nat, base: nat, v: nat): (r: (nat, nat))
    requires i <= |s|
    ensures i <= r.1 <= |s|
    decreases |s| - i
  {
    if i < |s| && DigitIn(s[i], base) >= 0 then Digits(s, i + 1, base, v * base + DigitIn(s[i], base)) else (v, i)
  }

  function SignEnd(s: bytes, j: nat): (k: nat)
    requires j <= |s|
    ensures j <= k <= |s|
  {
    if JsonParse.SignAt(s, j) then j + 1 else j
  }

  // Behind "0x" in base 16, when a digit follows.
  function PrefixEnd(s: bytes, k: nat, base: nat): (m: nat)
    requires k <= |s|
    ensures k <= m <= |s|
  {
    if base == 16 && k + 2 < |s| && s[k] == ZERO && (s[k + 1] == LOWER_X || s[k + 1] == UPPER_X)
       && DigitIn(s[k + 2], 16) >= 0
    then k + 2 else k
  }

  // strtol at i; a text without digits has the value 0.
  function Strtol(s: bytes, i: nat, base: nat): (r: (int, nat))
    requires i <= |s|
    ensures i <= r.1 <= |s|
  {
    var j := SpaceRun(s, i);
    var k := SignEnd(s, j);
    var d := Digits(s, PrefixEnd(s, k, base), base, 0);
    var v: int := d.0;
    (if k > j && s[j] == MINUS then -v else v, d.1)
  }

  // A character reference at the front of s: the bytes it stands for and its length.
  function CharRef(s: bytes): (r: Option<(bytes, nat)>)
    ensures r.Some? ==> 2 < r.value.1 <= |s|
  {
    if |s| < 3 || s[0] != AMP || s[1] != HASH then None
    else
      var n := if s[2] == LOWER_X then Strtol(s, 3, 16) else Strtol(s, 2, 10);
      if n.0 == 0 || n.0 > Utf.MAX_CODE || n.1 >= |s| || s[n.1] != SEMICOLON then None
      else if n.0 < 0x80 then Some(([n.0 % 256], n.1 + 1))
      else Some((Utf.Encode(n.0), n.1 + 1))
  }

  // One of the five predefined entities at the front of s: its character and its length.
  function Entity(s: bytes): (r: Option<(byte, nat)>)
    ensures r.Some? ==> 2 < r.value.1 <= |s|
  {
    if At(s, 0, LT_REF) then Some((LESS, 4))
    else if At(s, 0, GT_REF) then Some((GREATER, 4))
    else if At(s, 0, QUOT_REF) then Some((QUOTE, 6))
    else if At(s, 0, APOS_REF) then Some((APOS, 6))
    else if At(s, 0, AMP_REF) then Some((AMP, 5))
    else None
  }

  // ----- ezxml_decode, in one pass over the text -----

  function Normalized(s: bytes): bytes {
    if s == [] then []
    else if s[0] == CR then [LF] + Normalized(if |s| > 1 && s[1] == LF then s[2..] else s[1..])
    else [s[0]] + Normalized(s[1..])
  }

  function Decoded(s: bytes, attr: bool): bytes {
    if s == [] then []
    else if CharRef(s).Some? then CharRef(s).value.0 + Decoded(s[CharRef(s).value.1..], attr)
    else if Entity(s).Some? then [Entity(s).value.0] + Decoded(s[Entity(s).value.1..], attr)
    else [if attr && IsSpace(s[0]) then SPACE else s[0]] + Decoded(s[1..], attr)
  }

  function DecodeText(s: bytes, attr: bool): bytes {
    CString(Decoded(Normalized(s), attr))
  }

  // ----- decoding undoes encoding -----

  // What becomes of a value: only vertical tab and form feed of an attribute are lost.
  function Kept(s: bytes, attr: bool): bytes {
    if attr then seq(|s|, i requires 0 <= i < |s| => if s[i] == VTAB || s[i] == FORMFEED then SPACE else s[i]) else s
  }

  lemma HexRef(h: byte, rest: bytes)
    requires JsonParse.HexValue(h) > 0
    ensures CharRef([AMP, HASH, LOWER_X, h, SEMICOLON] + rest) == Some(([JsonParse.HexValue(h)], 5))
  {
    var s := [AMP, HASH, LOWER_X, h, SEMICOLON] + rest;
    assert SpaceRun(s, 3) == 3;
    assert Digits(s, 4, 16, JsonParse.HexValue(h)) == (JsonParse.HexValue(h), 4);
    assert Digits(s, 3, 16, 0) == (JsonParse.HexValue(h), 4);
    assert Strtol(s, 3, 16) == (JsonParse.HexValue(h), 4);
  }

  lemma DecimalRef(d: byte, e: byte, rest: bytes)
    requires ZERO < d <= NINE && IsDigit(e)
    ensures CharRef([AMP, HASH, d, e, SEMICOLON] + rest) == Some(([10 * (d - ZERO) + (e - ZERO)], 5))
  {
    var s := [AMP, HASH, d, e, SEMICOLON] + rest;
    var v := 10 * (d - ZERO) + (e - ZERO);
    assert SpaceRun(s, 2) == 2;
    assert Digits(s, 4, 10, v) == (v, 4);
    assert Digits(s, 3, 10, d - ZERO) == (v, 4);
    assert Digits(s, 2, 10, 0) == (v, 4);
    assert Strtol(s, 2, 10) == (v, 4);
  }

  lemma EntityRef(t: bytes, rest: bytes)
    requires t == AMP_REF || t == LT_REF || t == GT_REF || t == QUOT_REF || t == APOS_REF
    ensures CharRef(t + rest) == None
    ensures Entity(t + rest).Some? && Entity(t + rest).value.1 == |t|
    ensures t == AMP_REF ==> Entity(t + rest).value.0 == AMP
    ensures t == LT_REF ==> Entity(t + rest).value.0 == LESS
    ensures t == GT_REF ==> Entity(t + rest).value.0 == GREATER
    ensures t == QUOT_REF ==> Entity(t + rest).value.0 == QUOTE
    ensures t == APOS_REF ==> Entity(t + rest).value.0 == APOS
  {
    var s := t + rest;
    assert s[..|t|] == t;
    assert s[1] == t[1] && s[2] == t[2];
    if At(s, 0, LT_REF) { AtIndex(s, 0, LT_REF, 1); }
    if At(s, 0, GT_REF) { AtIndex(s, 0, GT_REF, 1); }
    if At(s, 0, QUOT_REF) { AtIndex(s, 0, QUOT_REF, 1); }
    if At(s, 0, APOS_REF) { AtIndex(s, 0, APOS_REF, 2); }
    if At(s, 0, AMP_REF) { AtIndex(s, 0, AMP_REF, 2); }
  }

  lemma DecodesByte(b: byte, rest: bytes, attr: bool)
    requires b != NUL
    ensures Decoded(EncodeByte(b, attr) + rest, attr)
         == [if attr && (b == VTAB || b == FORMFEED) then SPACE else b] + Decoded(rest, attr)
  {
    hide CharRef, Entity;
    var t := EncodeByte(b, attr);
    var s := t + rest;
    assert s[|t|..] == rest;
    if t == LF_REF {
      HexRef(65, rest);
    } else if t == TAB_REF {
      HexRef(57, rest);
    } else if t == CR_REF {
      HexRef(68, rest);
    } else if |t| > 1 {
      EntityRef(t, rest);
    } else {
      PlainByte(s);
    }
  }

  lemma PlainByte(s: bytes)
    requires s != [] && s[0] != AMP
    ensures CharRef(s) == None && Entity(s) == None
  {
    if At(s, 0, LT_REF) { AtIndex(s, 0, LT_REF, 0); }
    if At(s, 0, GT_REF) { AtIndex(s, 0, GT_REF, 0); }
    if At(s, 0, QUOT_REF) { AtIndex(s, 0, QUOT_REF, 0); }
    if At(s, 0, APOS_REF) { AtIndex(s, 0, APOS_REF, 0); }
    if At(s, 0, AMP_REF) { AtIndex(s, 0, AMP_REF, 0); }
  }

  lemma {:induction false} DecodedEncoded(s: bytes, attr: bool)
    requires NulFree(s)
    ensures Decoded(Encoded(s, attr), attr) == Kept(s, attr)
  {
    hide EncodeByte;
    if s != [] {
      hide Decoded;
      DecodedEncoded(s[1..], attr);
      DecodesByte(s[0], Encoded(s[1..], attr), attr);
    }
  }

  lemma {:induction false} NormalizedPlain(s: bytes)
    requires CR !in s
    ensures Normalized(s) == s
  {
    if s != [] { NormalizedPlain(s[1..]); }
  }

  lemma {:induction false} EncodedNoCr(s: bytes, attr: bool)
    ensures CR !in Encoded(s, attr)
  {
    if s != [] { EncodedNoCr(s[1..], attr); }
  }

  // Text comes back unchanged, and an attribute value exactly when it holds no vertical tab and no
  // form feed.
  lemma TextRoundTrip(s: bytes, attr: bool)
    requires NulFree(s)
    ensures DecodeText(Encoded(s, attr), attr) == Kept(s, attr)
    ensures DecodeText(Encoded(s, attr), attr) == s <==> (attr ==> VTAB !in s && FORMFEED !in s)
  {
    EncodedNoCr(s, attr);
    NormalizedPlain(Encoded(s, attr));
    DecodedEncoded(s, attr);
    var k := Kept(s, attr);
    assert NulFree(k);
    if attr && (VTAB in s || FORMFEED in s) {
      var i :| 0 <= i < |s| && (s[i] == VTAB || s[i] == FORMFEED);
      assert k[i] != s[i];
    }
  }

  // ----- the same as the source runs it -----

  // ezxml_ampencode appends to a buffer; the text ends at a NUL or after len bytes.
  method Ampencode(s: bytes, dst: bytes, attr: bool) returns (r: bytes)
    ensures r == dst + Encoded(CString(s), attr)
  {
    hide EncodeByte;
    ghost var all := CString(s);
    r := dst;
    var i := 0;
    ghost var rest := all;
    while i < |s| && s[i] != NUL
      invariant i <= |all| && rest == all[i..]
      invariant r + Encoded(rest, attr) == dst + Encoded(all, attr)
    {
      assert i < |all| && all[i] == s[i];
      ghost var before := r;
      r := r + EncodeByte(s[i], attr);
      rest := rest[1..];
      assert before + (EncodeByte(s[i], attr) + Encoded(rest, attr)) == r + Encoded(rest, attr);
      i := i + 1;
    }
    assert rest == [];
    assert r + [] == r;
  }

  // The line-end loop, which shortens the text as it goes.
  method NormalizeInPlace(s: bytes) returns (buf: bytes)
    ensures buf == Normalized(s)
  {
    hide Normalized, NormalWhole;
    buf := s;
    var p: nat := 0;
    NormalWholeEnds(buf);
    while p < |buf|
      invariant p <= |buf| && NormalWhole(buf, p) == Normalized(s)
      decreases |buf| - p
    {
      NormalWholeStep(buf, p);
      if buf[p] == CR {
        buf := buf[p := LF];
        if p + 1 < |buf| && buf[p + 1] == LF {
          buf := buf[..p + 1] + buf[p + 2..];
        }
      }
      p := p + 1;
    }
    NormalWholeEnds(buf);
  }

  ghost function NormalWhole(buf: bytes, p: nat): bytes
    requires p <= |buf|
  {
    buf[..p] + Normalized(buf[p..])
  }

  lemma NormalWholeEnds(buf: bytes)
    ensures NormalWhole(buf, 0) == Normalized(buf)
    ensures NormalWhole(buf, |buf|) == buf
  {
    assert buf[0..] == buf && buf[..0] == [] && buf[..|buf|] == buf && buf[|buf|..] == [];
  }

  lemma NormalWholeStep(buf: bytes, p: nat)
    requires p < |buf|
    ensures buf[p] != CR ==> NormalWhole(buf, p + 1) == NormalWhole(buf, p)
    ensures buf[p] == CR ==>
              var next := buf[p := LF];
              var cut := if p + 1 < |next| && next[p + 1] == LF then next[..p + 1] + next[p + 2..] else next;
              NormalWhole(cut, p + 1) == NormalWhole(buf, p)
  {
    var done, rest := buf[..p], buf[p..];
    if buf[p] != CR {
      assert buf[p + 1..] == rest[1..];
      assert buf[..p + 1] == done + [rest[0]];
    } else {
      var next := buf[p := LF];
      var cut := if p + 1 < |next| && next[p + 1] == LF then next[..p + 1] + next[p + 2..] else next;
      assert cut[..p + 1] == done + [LF];
      assert cut[p + 1..] == if |rest| > 1 && rest[1] == LF then rest[2..] else rest[1..];
    }
  }

  // The text the source stores for each entity: a character reference that is read again.
  function Replacement(c: byte): (t: bytes)
    requires c == LESS || c == GREATER || c == QUOTE || c == APOS || c == AMP
    ensures |t| == 5
  {
    [AMP, HASH, ZERO + c / 10, ZERO + c % 10, SEMICOLON]
  }

  lemma EntityChar(s: bytes)
    requires Entity(s).Some?
    ensures var c := Entity(s).value.0; c == LESS || c == GREATER || c == QUOTE || c == APOS || c == AMP
  {
  }

  // Ampersands that do not start a character reference; each replacement removes one.
  function PlainAmps(s: bytes): nat {
    if s == [] then 0
    else (if s[0] == AMP && !(|s| > 1 && s[1] == HASH) then 1 else 0) + PlainAmps(s[1..])
  }

  lemma {:induction false} PlainAmpsDrop(s: bytes, n: nat)
    requires n <= |s|
    ensures PlainAmps(s[n..]) <= PlainAmps(s)
  {
    if n == 0 {
      assert s[0..] == s;
    } else {
      PlainAmpsDrop(s[1..], n - 1);
      assert s[n..] == s[1..][n - 1..];
    }
  }

  lemma EntityStart(s: bytes)
    requires Entity(s).Some?
    ensures s[0] == AMP && s[1] != HASH
  {
    if At(s, 0, LT_REF) {
      AtIndex(s, 0, LT_REF, 0);
      AtIndex(s, 0, LT_REF, 1);
    } else if At(s, 0, GT_REF) {
      AtIndex(s, 0, GT_REF, 0);
      AtIndex(s, 0, GT_REF, 1);
    } else if At(s, 0, QUOT_REF) {
      AtIndex(s, 0, QUOT_REF, 0);
      AtIndex(s, 0, QUOT_REF, 1);
    } else if At(s, 0, APOS_REF) {
      AtIndex(s, 0, APOS_REF, 0);
      AtIndex(s, 0, APOS_REF, 1);
    } else {
      AtIndex(s, 0, AMP_REF, 0);
      AtIndex(s, 0, AMP_REF, 1);
    }
  }

  lemma ReplacementAmps(t: bytes, rest: bytes)
    requires |t| == 5 && t[0] == AMP && t[1] == HASH && AMP !in t[1..]
    ensures PlainAmps(t + rest) == PlainAmps(rest)
  {
    var s := t + rest;
    assert s[5..] == rest;
    assert PlainAmps(s) == PlainAmps(s[1..]);
    assert s[1..][1..] == s[2..] && s[2..][1..] == s[3..] && s[3..][1..] == s[4..] && s[4..][1..] == s[5..];
    assert t[1] == s[1] && t[2] == s[2] && t[3] == s[3] && t[4] == s[4];
    assert t[1..][0] != AMP && t[1..][1] != AMP && t[1..][2] != AMP && t[1..][3] != AMP;
    assert PlainAmps(s[4..]) == PlainAmps(s[5..]);
    assert PlainAmps(s[3..]) == PlainAmps(s[4..]);
    assert PlainAmps(s[2..]) == PlainAmps(s[3..]);
    assert PlainAmps(s[1..]) == PlainAmps(s[2..]);
  }

  // Putting the replacement in place of an entity and reading on from the same spot gives the
  // entity's character.
  lemma Rescan(s: bytes, attr: bool)
    requires CharRef(s) == None && Entity(s).Some?
    ensures var c := Entity(s).value.0;
            && (c == LESS || c == GREATER || c == QUOTE || c == APOS || c == AMP)
            && Decoded(Replacement(c) + s[Entity(s).value.1..], attr) == Decoded(s, attr)
            && PlainAmps(Replacement(c) + s[Entity(s).value.1..]) < PlainAmps(s)
  {
    EntityChar(s);
    EntityStart(s);
    var (c, n) := Entity(s).value;
    var rest := s[n..];
    var t := Replacement(c);
    DecimalRef(t[2], t[3], rest);
    assert (t + rest)[5..] == rest;
    ReplacementAmps(t, rest);
    PlainAmpsDrop(s[1..], n - 1);
    assert s[1..][n - 1..] == rest;
    hide CharRef, Entity;
  }

  // The text that a buffer decoded up to p stands for.
  ghost function Whole(buf: bytes, p: nat, attr: bool): bytes
    requires p <= |buf|
  {
    buf[..p] + Decoded(buf[p..], attr)
  }

  lemma WholeEnds(buf: bytes, attr: bool)
    ensures Whole(buf, 0, attr) == Decoded(buf, attr)
    ensures Whole(buf, |buf|, attr) == buf
  {
    assert buf[0..] == buf && buf[..0] == [] && buf[..|buf|] == buf && buf[|buf|..] == [];
  }

  // ezxml_decode: replaced entities are scanned again where they stand, and the text may grow.
  method Decode(s: bytes, attr: bool) returns (r: bytes)
    ensures r == DecodeText(s, attr)
  {
    hide Normalized, PlainAmps, Decoded, Whole, CString;
    var buf := NormalizeInPlace(s);
    WholeEnds(buf, attr);
    var p: nat := 0;
    while p < |buf|
      invariant p <= |buf| && Whole(buf, p, attr) == Decoded(Normalized(s), attr)
      decreases PlainAmps(buf[p..]), |buf| - p
    {
      buf, p := DecodeStep(buf, p, attr);
    }
    WholeEnds(buf, attr);
    r := CString(buf);
  }

  // One turn of the decoding loop.
  method DecodeStep(buf: bytes, p: nat, attr: bool) returns (r: bytes, q: nat)
    requires p < |buf|
    ensures q <= |r| && Whole(r, q, attr) == Whole(buf, p, attr)
    ensures PlainAmps(r[q..]) < PlainAmps(buf[p..])
         || (PlainAmps(r[q..]) <= PlainAmps(buf[p..]) && |r| - q < |buf| - p)
  {
    hide CharRef, Entity;
    var done, rest := buf[..p], buf[p..];
    var ref := CharRef(rest);
    var ent := Entity(rest);
    if ref.Some? {
      var (t, n) := ref.value;
      r, q := done + t + rest[n..], p + |t|;
      assert r[q..] == rest[n..] && r[..q] == done + t;
      PlainAmpsDrop(rest, n);
      assert done + (t + Decoded(rest[n..], attr)) == (done + t) + Decoded(rest[n..], attr);
    } else if ent.Some? {
      Rescan(rest, attr);
      var (c, n) := ent.value;
      r, q := done + (Replacement(c) + rest[n..]), p;
      assert r[q..] == Replacement(c) + rest[n..] && r[..q] == done;
    } else {
      var b := if attr && IsSpace(rest[0]) then SPACE else rest[0];
      r, q := buf[p := b], p + 1;
      assert r[q..] == rest[1..] && r[..q] == done + [b];
      PlainAmpsDrop(rest, 1);
      assert done + ([b] + Decoded(rest[1..], attr)) == (done + [b]) + Decoded(rest[1..], attr);
    }
  }
}
