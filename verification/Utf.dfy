// UTF-16 to UTF-8 as ezxml does it, against the encoder bscJSON uses and against a decoder.
module Utf {
  import opened Bytes
  import opened Sequences
  import JsonParse

  // ----- the bit-counting encoder of ezxml -----

  function Bits(c: nat): nat {
    if c == 0 then 0 else 1 + Bits(c / 2)
  }

  function Pow2(k: nat): (r: nat)
    ensures r > 0
  {
    if k == 0 then 1 else 2 * Pow2(k - 1)
  }

  lemma {:induction false} BitsRange(c: nat, k: nat)
    ensures c < Pow2(k) <==> Bits(c) <= k
  {
    if k > 0 && c > 0 { BitsRange(c / 2, k - 1); }
  }

  // Largest value whose head byte the shift in the source defines.
  const MAX_CODE: nat := 0x7FFF_FFFF

  // Number of continuation bytes.
  function Payload(c: nat): (b: nat)
    requires 0x80 <= c <= MAX_CODE
    ensures b ==
            if c < 0x800 then 1 else if c < 0x10000 then 2
            else if c < 0x20_0000 then 3 else if c < 0x400_0000 then 4 else 5
  {
    BitsSteps(c);
    (Bits(c) - 2) / 5
  }

  lemma BitsSteps(c: nat)
    ensures c < 0x80 <==> Bits(c) <= 7
    ensures c < 0x800 <==> Bits(c) <= 11
    ensures c < 0x10000 <==> Bits(c) <= 16
    ensures c < 0x20_0000 <==> Bits(c) <= 21
    ensures c < 0x400_0000 <==> Bits(c) <= 26
    ensures c <= MAX_CODE <==> Bits(c) <= 31
  {
    assert Pow2(7) == 0x80;
    assert Pow2(11) == 0x800;
    assert Pow2(16) == 0x10000;
    assert Pow2(21) == 0x20_0000;
    assert Pow2(26) == 0x400_0000;
    assert Pow2(31) == MAX_CODE + 1;
    BitsRange(c, 7);
    BitsRange(c, 11);
    BitsRange(c, 16);
    BitsRange(c, 21);
    BitsRange(c, 26);
    BitsRange(c, 31);
  }

  // c >> (6 * b)
  function ShiftRight(c: nat, b: nat): nat {
    if b == 0 then c else ShiftRight(c / 64, b - 1)
  }

  // 0xFF << (7 - b), as a char.
  function HeadMark(b: nat): byte
    requires 1 <= b <= 5
  {
    if b == 1 then 0xC0 else if b == 2 then 0xE0 else if b == 3 then 0xF0 else if b == 4 then 0xF8 else 0xFC
  }

  // Continuation bytes from the most significant sextet down.
  function Tail(c: nat, b: nat): bytes {
    if b == 0 then [] else [PayloadByte(c, b - 1)] + Tail(c, b - 1)
  }

  function PayloadByte(c: nat, b: nat): byte {
    0x80 + ShiftRight(c, b) % 64
  }

  function Encode(c: nat): (t: bytes)
    requires c <= MAX_CODE
  {
    if c < 0x80 then [c]
    else
      var b := Payload(c);
      HeadFits(c, b);
      [HeadMark(b) + ShiftRight(c, b)] + Tail(c, b)
  }

  lemma HeadFits(c: nat, b: nat)
    requires 0x80 <= c <= MAX_CODE && b == Payload(c)
    ensures HeadMark(b) + ShiftRight(c, b) < 256
  {
    ShiftValues(c);
  }

  lemma ShiftValues(c: nat)
    ensures ShiftRight(c, 0) == c && ShiftRight(c, 1) == c / 64 && ShiftRight(c, 2) == c / 4096
    ensures ShiftRight(c, 3) == c / 262144 && ShiftRight(c, 4) == c / 16777216 && ShiftRight(c, 5) == c / 1073741824
  {
    var d := c / 64;
    var e := d / 64;
    var f := e / 64;
    assert ShiftRight(f, 2) == f / 64 / 64;
    assert ShiftRight(e, 3) == ShiftRight(f, 2);
    assert ShiftRight(d, 4) == ShiftRight(e, 3);
  }

  // Byte for byte the same as the range-based encoder of bscJSON.
  lemma EncodersAgree(cp: nat)
    requires cp <= 0x10FFFF
    ensures Encode(cp) == JsonParse.Utf8(cp)
  {
    ShiftValues(cp);
    if cp >= 0x80 {
      var b := Payload(cp);
      assert b <= 3;
      assert Tail(cp, 0) == [];
      assert Tail(cp, 1) == [0x80 + cp % 64];
      if b >= 2 { assert Tail(cp, 2) == [0x80 + cp / 64 % 64] + Tail(cp, 1); }
      if b >= 3 { assert Tail(cp, 3) == [0x80 + cp / 4096 % 64] + Tail(cp, 2); }
    }
  }

  // ----- UTF-16 -----

  predicate Scalar(cp: nat) {
    cp <= 0x10FFFF && !(0xD800 <= cp <= 0xDFFF)
  }

  // The 16-bit unit at i.
  function Unit(s: bytes, i: nat, bigEndian: bool): (u: nat)
    requires i + 1 < |s|
    ensures u <= 0xFFFF
  {
    if bigEndian then s[i] as int * 256 + s[i + 1] as int else s[i + 1] as int * 256 + s[i] as int
  }

  // Section 2.2 of RFC 2781, from offset i on.
  function DecodeUtf16(s: bytes, i: nat, bigEndian: bool): Option<seq<nat>>
    requires i <= |s|
    decreases |s| - i
  {
    if i == |s| then Some([])
    else if i + 1 >= |s| then None
    else
      var u := Unit(s, i, bigEndian);
      if u < 0xD800 || u > 0xDFFF then Prepend(u, DecodeUtf16(s, i + 2, bigEndian))
      else if u > 0xDBFF || i + 3 >= |s| then None
      else
        var v := Unit(s, i + 2, bigEndian);
        if v < 0xDC00 || v > 0xDFFF then None
        else Prepend((u - 0xD800) * 0x400 + (v - 0xDC00) + 0x10000, DecodeUtf16(s, i + 4, bigEndian))
  }

  function Prepend(x: nat, r: Option<seq<nat>>): Option<seq<nat>> {
    if r.None? then None else Some([x] + r.value)
  }

  // The loop of ezxml_str2utf8 from offset i on.
  function Convert(s: bytes, i: nat, bigEndian: bool): bytes
    decreases |s| - i
  {
    if i + 1 >= |s| then []
    else
      var c := Unit(s, i, bigEndian);
      if 0xD800 <= c <= 0xDFFF then
        if i + 3 < |s| then
          var d := Unit(s, i + 2, bigEndian);
          Encode((c % 0x400) * 0x400 + d % 0x400 + 0x10000) + Convert(s, i + 4, bigEndian)
        else Encode(c)
      else Encode(c) + Convert(s, i + 2, bigEndian)
  }

  // ezxml_str2utf8: None when the text does not start with a byte order mark.
  method StrToUtf8(s: bytes) returns (r: Option<bytes>)
    requires |s| > 0
    ensures s[0] == 0xFE ==> r == Some(Convert(s, 2, true))
    ensures s[0] == 0xFF ==> r == Some(Convert(s, 2, false))
    ensures s[0] != 0xFE && s[0] != 0xFF ==> r == None
  {
    if s[0] != 0xFE && s[0] != 0xFF { return None; }
    var out := ConvertAll(s, s[0] == 0xFE);
    r := Some(out);
  }

  method ConvertAll(s: bytes, bigEndian: bool) returns (out: bytes)
    ensures out == Convert(s, 2, bigEndian)
  {
    hide Convert;
    ghost var all := Convert(s, 2, bigEndian);
    var i: nat := 2;
    out := [];
    ghost var rest := all;
    while i + 1 < |s|
      invariant rest == Convert(s, i, bigEndian)
      invariant out + rest == all
      decreases |s| - i
    {
      var t, next := ConvertOne(s, i, bigEndian);
      ghost var after := Convert(s, next, bigEndian);
      assert out + (t + after) == (out + t) + after;
      out, i, rest := out + t, next, after;
    }
    ConvertedAll(s, i, bigEndian);
  }

  lemma ConvertedAll(s: bytes, i: nat, bigEndian: bool)
    requires i + 1 >= |s|
    ensures Convert(s, i, bigEndian) == []
  {
  }

  // One turn of the loop: one code point.
  method ConvertOne(s: bytes, i: nat, bigEndian: bool) returns (t: bytes, next: nat)
    requires i + 1 < |s|
    ensures i < next && Convert(s, i, bigEndian) == t + Convert(s, next, bigEndian)
  {
    hide Encode;
    var c := Unit(s, i, bigEndian);
    next := i;
    if 0xD800 <= c <= 0xDFFF {
      next := next + 2;
      if next + 1 < |s| {
        var d := Unit(s, next, bigEndian);
        c := (c % 0x400) * 0x400 + d % 0x400 + 0x10000;
      }
    }
    t := EncodeLoop(c);
    next := next + 2;
    if next + 1 >= |s| { assert t + [] == t; }
  }

  // The multi-byte branch: a head byte, then the payload from the top.
  method EncodeLoop(c: nat) returns (t: bytes)
    requires c <= MAX_CODE
    ensures t == Encode(c)
  {
    if c < 0x80 { return [c]; }
    hide Bits, ShiftRight, Encode, PayloadByte, HeadMark;
    var bits := CountBits(c);
    BitsSteps(c);
    var b := (bits - 2) / 5;
    HeadFits(c, b);
    EncodeParts(c, b);
    t := [HeadMark(b) + ShiftRight(c, b)];
    var tail := EncodeTail(c, b);
    t := t + tail;
  }

  // The bytes behind the first one, six bits each.
  method EncodeTail(c: nat, n: nat) returns (t: bytes)
    ensures t == Tail(c, n)
  {
    hide PayloadByte;
    var b := n;
    t := [];
    while b > 0
      invariant t + Tail(c, b) == Tail(c, n)
    {
      ghost var before := t;
      b := b - 1;
      var x := PayloadByte(c, b);
      t := t + [x];
      assert before + ([x] + Tail(c, b)) == t + Tail(c, b);
    }
    assert t + [] == t;
  }

  method CountBits(c: nat) returns (bits: nat)
    ensures bits == Bits(c)
  {
    bits := 0;
    var d := c;
    while d > 0
      invariant bits + Bits(d) == Bits(c)
    {
      d := d / 2;
      bits := bits + 1;
    }
  }

  lemma EncodeParts(c: nat, b: nat)
    requires 0x80 <= c <= MAX_CODE && b == Payload(c)
    ensures HeadMark(b) + ShiftRight(c, b) < 256
    ensures Encode(c) == [HeadMark(b) + ShiftRight(c, b)] + Tail(c, b)
  {
    HeadFits(c, b);
  }

  // ----- UTF-8 -----

  predicate Continuation(b: byte) {
    0x80 <= b <= 0xBF
  }

  // The code point at the front of t and its length, by the syntax of section 4 of RFC 3629.
  function FirstCode(t: bytes): Option<(nat, nat)> {
    if |t| >= 1 && t[0] <= 0x7F then Some((t[0], 1))
    else if |t| >= 2 && 0xC2 <= t[0] <= 0xDF && Continuation(t[1]) then
      Some(((t[0] as int - 0xC0) * 64 + (t[1] as int - 0x80), 2))
    else if |t| >= 3 && 0xE0 <= t[0] <= 0xEF && Continuation(t[1]) && Continuation(t[2])
            && (t[0] == 0xE0 ==> t[1] >= 0xA0) && (t[0] == 0xED ==> t[1] <= 0x9F) then
      Some(((t[0] as int - 0xE0) * 4096 + (t[1] as int - 0x80) * 64 + (t[2] as int - 0x80), 3))
    else if |t| >= 4 && 0xF0 <= t[0] <= 0xF4 && Continuation(t[1]) && Continuation(t[2]) && Continuation(t[3])
            && (t[0] == 0xF0 ==> t[1] >= 0x90) && (t[0] == 0xF4 ==> t[1] <= 0x8F) then
      Some((
        (t[0] as int - 0xF0) * 262144 + (t[1] as int - 0x80) * 4096 + (t[2] as int - 0x80) * 64 + (t[3] as int - 0x80),
        4))
    else None
  }

  function DecodeUtf8(t: bytes): Option<seq<nat>> {
    if t == [] then Some([])
    else
      match FirstCode(t)
      case None => None
      case Some((cp, n)) => Prepend(cp, DecodeUtf8(t[n..]))
  }

  lemma FirstCodeInverse(cp: nat, rest: bytes)
    requires Scalar(cp)
    ensures FirstCode(JsonParse.Utf8(cp) + rest) == Some((cp, |JsonParse.Utf8(cp)|))
  {
    var t := JsonParse.Utf8(cp);
    if |t| == 3 {
      Split3(cp);
    } else if |t| == 4 {
      Split4(cp);
    }
  }

  lemma Split3(cp: nat)
    requires 0x800 <= cp < 0x10000
    ensures cp / 4096 * 4096 + cp / 64 % 64 * 64 + cp % 64 == cp
    ensures cp / 4096 == 0 ==> cp / 64 % 64 >= 32
    ensures cp / 4096 == 13 && !(0xD800 <= cp <= 0xDFFF) ==> cp / 64 % 64 <= 31
  {
    assert cp / 64 / 64 == cp / 4096;
  }

  lemma Split4(cp: nat)
    requires 0x10000 <= cp <= 0x10FFFF
    ensures cp / 262144 * 262144 + cp / 4096 % 64 * 4096 + cp / 64 % 64 * 64 + cp % 64 == cp
    ensures cp / 262144 <= 4
    ensures cp / 262144 == 0 ==> cp / 4096 % 64 >= 16
    ensures cp / 262144 == 4 ==> cp / 4096 % 64 <= 15
  {
    assert cp / 64 / 64 == cp / 4096;
    assert cp / 4096 / 64 == cp / 262144;
  }

  // Every well-formed UTF-16 text is converted to UTF-8 that decodes to the same code points.
  lemma {:induction false} ConvertKeepsCodePoints(s: bytes, i: nat, bigEndian: bool)
    requires i <= |s| && DecodeUtf16(s, i, bigEndian).Some?
    ensures DecodeUtf8(Convert(s, i, bigEndian)) == DecodeUtf16(s, i, bigEndian)
    decreases |s| - i
  {
    hide Encode, FirstCode, Unit, DecodeUtf8;
    if i == |s| {
      assert DecodeUtf8([]) == Some([]) by { NothingDecoded(); }
    } else {
      var c := Unit(s, i, bigEndian);
      if c < 0xD800 || c > 0xDFFF {
        ConvertKeepsCodePoints(s, i + 2, bigEndian);
        DecodesFirst(c, Convert(s, i + 2, bigEndian));
      } else {
        var d := Unit(s, i + 2, bigEndian);
        var cp := (c % 0x400) * 0x400 + d % 0x400 + 0x10000;
        Surrogates(c, d);
        ConvertKeepsCodePoints(s, i + 4, bigEndian);
        DecodesFirst(cp, Convert(s, i + 4, bigEndian));
      }
    }
  }

  lemma NothingDecoded()
    ensures DecodeUtf8([]) == Some([])
  {
  }

  lemma Surrogates(c: nat, d: nat)
    requires 0xD800 <= c <= 0xDBFF && 0xDC00 <= d <= 0xDFFF
    ensures c % 0x400 == c - 0xD800 && d % 0x400 == d - 0xDC00
  {
  }

  lemma DecodesFirst(cp: nat, rest: bytes)
    requires Scalar(cp)
    ensures DecodeUtf8(Encode(cp) + rest) == Prepend(cp, DecodeUtf8(rest))
  {
    hide Encode, FirstCode, JsonParse.Utf8;
    EncodersAgree(cp);
    FirstCodeInverse(cp, rest);
    var t := Encode(cp) + rest;
    assert t[|Encode(cp)|..] == rest;
  }

  // Decoding leaves no choice: what decodes to a code point is its encoding.
  lemma FirstCodeUnique(t: bytes)
    requires FirstCode(t).Some?
    ensures var (cp, n) := FirstCode(t).value; 0 < n <= |t| && Scalar(cp) && t[..n] == JsonParse.Utf8(cp)
  {
    var (cp, n) := FirstCode(t).value;
    hide JsonParse.Utf8;
    if n == 1 {
      Utf8One(cp);
    } else if n == 2 {
      Unique2(t[0], t[1]);
    } else if n == 3 {
      Unique3(t[0], t[1], t[2]);
    } else {
      Unique4(t[0], t[1], t[2], t[3]);
    }
  }

  lemma Unique2(a: byte, b: byte)
    requires 0xC2 <= a <= 0xDF && Continuation(b)
    ensures var cp := (a as int - 0xC0) * 64 + (b as int - 0x80); 0x80 <= cp < 0x800 && JsonParse.Utf8(cp) == [a, b]
  {
    hide JsonParse.Utf8;
    Join2(a as int - 0xC0, b as int - 0x80);
    Utf8Two((a as int - 0xC0) * 64 + (b as int - 0x80));
  }

  lemma Unique3(a: byte, b: byte, c: byte)
    requires 0xE0 <= a <= 0xEF && Continuation(b) && Continuation(c)
    requires (a == 0xE0 ==> b >= 0xA0) && (a == 0xED ==> b <= 0x9F)
    ensures var cp := (a as int - 0xE0) * 4096 + (b as int - 0x80) * 64 + (c as int - 0x80);
            0x800 <= cp < 0x10000 && Scalar(cp) && JsonParse.Utf8(cp) == [a, b, c]
  {
    hide JsonParse.Utf8;
    Join3(a as int - 0xE0, b as int - 0x80, c as int - 0x80);
    Utf8Three((a as int - 0xE0) * 4096 + (b as int - 0x80) * 64 + (c as int - 0x80));
  }

  lemma Unique4(a: byte, b: byte, c: byte, d: byte)
    requires 0xF0 <= a <= 0xF4 && Continuation(b) && Continuation(c) && Continuation(d)
    requires (a == 0xF0 ==> b >= 0x90) && (a == 0xF4 ==> b <= 0x8F)
    ensures var cp :=
              (a as int - 0xF0) * 262144 + (b as int - 0x80) * 4096 + (c as int - 0x80) * 64 + (d as int - 0x80);
            0x10000 <= cp <= 0x10FFFF && JsonParse.Utf8(cp) == [a, b, c, d]
  {
    hide JsonParse.Utf8;
    Join4(a as int - 0xF0, b as int - 0x80, c as int - 0x80, d as int - 0x80);
    Utf8Four((a as int - 0xF0) * 262144 + (b as int - 0x80) * 4096 + (c as int - 0x80) * 64 + (d as int - 0x80));
  }

  lemma Utf8One(cp: nat)
    requires cp < 0x80
    ensures JsonParse.Utf8(cp) == [cp]
  {
  }

  lemma Utf8Two(cp: nat)
    requires 0x80 <= cp < 0x800
    ensures JsonParse.Utf8(cp) == [0xC0 + cp / 64, 0x80 + cp % 64]
  {
  }

  lemma Utf8Three(cp: nat)
    requires 0x800 <= cp < 0x10000
    ensures JsonParse.Utf8(cp) == [0xE0 + cp / 4096, 0x80 + cp / 64 % 64, 0x80 + cp % 64]
  {
  }

  lemma Utf8Four(cp: nat)
    requires 0x10000 <= cp <= 0x10FFFF
    ensures JsonParse.Utf8(cp) == [0xF0 + cp / 262144, 0x80 + cp / 4096 % 64, 0x80 + cp / 64 % 64, 0x80 + cp % 64]
  {
  }

  lemma Join2(a: nat, b: nat)
    requires b < 64
    ensures (a * 64 + b) / 64 == a && (a * 64 + b) % 64 == b
  {
  }

  lemma Join3(a: nat, b: nat, c: nat)
    requires b < 64 && c < 64
    ensures var cp := a * 4096 + b * 64 + c; cp / 4096 == a && cp / 64 % 64 == b && cp % 64 == c
  {
    var cp := a * 4096 + b * 64 + c;
    assert cp == (a * 64 + b) * 64 + c;
    Join2(a * 64 + b, c);
    Join2(a, b);
    assert cp / 64 / 64 == cp / 4096;
  }

  lemma Join4(a: nat, b: nat, c: nat, d: nat)
    requires b < 64 && c < 64 && d < 64
    ensures var cp := a * 262144 + b * 4096 + c * 64 + d;
            cp / 262144 == a && cp / 4096 % 64 == b && cp / 64 % 64 == c && cp % 64 == d
  {
    var cp := a * 262144 + b * 4096 + c * 64 + d;
    assert cp == (a * 64 + b) * 4096 + c * 64 + d;
    Join3(a * 64 + b, c, d);
    Join2(a, b);
    assert cp / 4096 / 64 == cp / 262144;
  }

  // Texts of the same code points are the same bytes.
  lemma {:induction false} DecodeUtf8Injective(a: bytes, b: bytes)
    requires DecodeUtf8(a).Some? && DecodeUtf8(a) == DecodeUtf8(b)
    ensures a == b
    decreases |a|
  {
    hide FirstCode, JsonParse.Utf8;
    if a != [] && b != [] {
      FirstCodeUnique(a);
      FirstCodeUnique(b);
      var (x, n) := FirstCode(a).value;
      var (y, m) := FirstCode(b).value;
      var p, q := DecodeUtf8(a).value, DecodeUtf8(b).value;
      assert p[0] == x && q[0] == y && p[1..] == DecodeUtf8(a[n..]).value && q[1..] == DecodeUtf8(b[m..]).value;
      DecodeUtf8Injective(a[n..], b[m..]);
      assert a == a[..n] + a[n..] && b == b[..m] + b[m..];
    }
  }
}
