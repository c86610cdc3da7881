// Octet strings as the C sources see them, with the ASCII codes the codecs name.
module Bytes {

  type byte = x: int | 0 <= x < 256

  type bytes = seq<byte>

  const NUL: byte := 0
  const BACKSPACE: byte := 8
  const TAB: byte := 9
  const LF: byte := 10
  const VTAB: byte := 11
  const FORMFEED: byte := 12
  const CR: byte := 13
  const SPACE: byte := 32
  const QUOTE: byte := 34
  const HASH: byte := 35
  const AMP: byte := 38
  const APOS: byte := 39
  const PLUS: byte := 43
  const COMMA: byte := 44
  const MINUS: byte := 45
  const DOT: byte := 46
  const SLASH: byte := 47
  const ZERO: byte := 48
  const NINE: byte := 57
  const COLON: byte := 58
  const SEMICOLON: byte := 59
  const LESS: byte := 60
  const EQUALS: byte := 61
  const GREATER: byte := 62
  const UPPER_A: byte := 65
  const UPPER_E: byte := 69
  const UPPER_F: byte := 70
  const UPPER_X: byte := 88
  const UPPER_Z: byte := 90
  const LBRACKET: byte := 91
  const BACKSLASH: byte := 92
  const RBRACKET: byte := 93
  const UNDERSCORE: byte := 95
  const LOWER_A: byte := 97
  const LOWER_B: byte := 98
  const LOWER_E: byte := 101
  const LOWER_F: byte := 102
  const LOWER_N: byte := 110
  const LOWER_R: byte := 114
  const LOWER_T: byte := 116
  const LOWER_U: byte := 117
  const LOWER_X: byte := 120
  const LOWER_Z: byte := 122
  const LBRACE: byte := 123
  const RBRACE: byte := 125

  // The bytes of an ASCII text.
  function Ascii(s: string): (t: bytes)
    requires forall i | 0 <= i < |s| :: s[i] < 128 as char
    ensures |t| == |s| && forall i | 0 <= i < |s| :: t[i] == s[i] as int
  {
    seq(|s|, i requires 0 <= i < |s| => s[i] as int)
  }

  predicate NulFree(s: bytes) {
    forall i | 0 <= i < |s| :: s[i] != NUL
  }

  predicate IsDigit(b: byte) {
    ZERO <= b <= NINE
  }

  lemma NulFreeConcat(a: bytes, b: bytes)
    requires NulFree(a) && NulFree(b)
    ensures NulFree(a + b)
  {
  }

  lemma SliceSplit(t: bytes, a: nat, b: nat, c: nat)
    requires a <= b <= c <= |t|
    ensures t[a..c] == t[a..b] + t[b..c]
  {
  }

  // C's isspace in the "C" locale.
  predicate IsSpace(b: byte) {
    b == SPACE || TAB <= b <= CR
  }

  // The part of a buffer that string functions see: everything before the first NUL.
  function CString(s: bytes): (r: bytes)
    ensures |r| <= |s| && r == s[..|r|] && NulFree(r)
    ensures |r| < |s| ==> s[|r|] == NUL
    ensures NulFree(s) ==> r == s
  {
    if |s| == 0 || s[0] == NUL then []
    else
      var rest := CString(s[1..]);
      assert s == [s[0]] + s[1..];
      [s[0]] + rest
  }

  // t occurs in c at offset off.
  predicate At(c: bytes, off: nat, t: bytes) {
    off + |t| <= |c| && c[off..off + |t|] == t
  }

  lemma AtSplit(c: bytes, off: nat, a: bytes, b: bytes)
    requires At(c, off, a + b)
    ensures At(c, off, a) && At(c, off + |a|, b)
  {
    var t := a + b;
    assert c[off..off + |a|] == c[off..off + |t|][..|a|] == a;
    assert c[off + |a|..off + |t|] == c[off..off + |t|][|a|..] == b;
  }

  lemma AtIs(c: bytes, off: nat, t: bytes)
    requires At(c, off, t)
    ensures off + |t| <= |c| && c[off..off + |t|] == t
  {
  }

  lemma AtIndex(c: bytes, off: nat, t: bytes, i: nat)
    requires At(c, off, t) && i < |t|
    ensures c[off + i] == t[i]
  {
    assert c[off..off + |t|][i] == t[i];
  }

  lemma AtHead(c: bytes, off: nat, b: byte, t: bytes)
    requires At(c, off, [b] + t)
    ensures off < |c| && c[off] == b && At(c, off + 1, t)
  {
    AtSplit(c, off, [b], t);
    AtIndex(c, off, [b], 0);
  }
}
