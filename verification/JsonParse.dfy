// What the bscJSON parser computes: a function from a buffer and an offset to a value and the
// offset behind it, or to the offset at which parsing gave up.
module JsonParse {
  import opened Bytes
  import opened JsonValue

  datatype Parsed<+T> = Ok(value: T, end: nat) | Err(at: nat)

  // A buffer as bscJSON_ParseWithOpts sets it up: the last byte is the terminator.
  predicate Terminated(c: bytes) {
    |c| > 0 && c[|c| - 1] == NUL
  }

  // buffer_skip_whitespace, with its step back off the end of the buffer.
  function SkipSpaces(c: bytes, off: nat): (r: nat)
    requires off <= |c|
    ensures off <= r <= |c|
    ensures forall i | off <= i < r :: c[i] <= 32
    ensures r < |c| ==> c[r] > 32
    decreases |c| - off
  {
    if off < |c| && c[off] <= 32 then SkipSpaces(c, off + 1) else off
  }

  function SkipWhitespace(c: bytes, off: nat): (r: nat)
    requires 0 < |c| && off <= |c|
    ensures r < |c| && (off < |c| ==> off <= r)
    ensures c[r] > 32 || r == |c| - 1
  {
    var r := SkipSpaces(c, off);
    if r == |c| then r - 1 else r
  }

  // ----- numbers -----

  const NUMBER_BUFFER: nat := 63

  predicate NumberChar(b: byte) {
    IsDigit(b) || b == PLUS || b == MINUS || b == LOWER_E || b == UPPER_E || b == DOT
  }

  // How many bytes parse_number copies before it calls strtod.
  function NumberSpan(c: bytes, off: nat, limit: nat): (n: nat)
    requires off <= |c|
    ensures n <= limit && off + n <= |c|
    ensures forall i | off <= i < off + n :: NumberChar(c[i])
    ensures n < limit && off + n < |c| ==> !NumberChar(c[off + n])
    decreases limit
  {
    if limit == 0 || off == |c| || !NumberChar(c[off]) then 0
    else 1 + NumberSpan(c, off + 1, limit - 1)
  }

  function DigitSpan(t: bytes, i: nat): (n: nat)
    requires i <= |t|
    ensures i + n <= |t|
    ensures forall k | i <= k < i + n :: IsDigit(t[k])
    ensures i + n < |t| ==> !IsDigit(t[i + n])
    decreases |t| - i
  {
    if i < |t| && IsDigit(t[i]) then 1 + DigitSpan(t, i + 1) else 0
  }

  function DigitsValue(t: bytes): int {
    if t == [] then 0 else DigitsValue(t[..|t| - 1]) * 10 + (t[|t| - 1] - ZERO)
  }

  function Pow10(e: int): (r: real)
    decreases if e < 0 then -e else e
  {
    if e == 0 then 1.0 else if e > 0 then 10.0 * Pow10(e - 1) else Pow10(e + 1) / 10.0
  }

  function Decimal(m: int, e: int): real {
    m as real * Pow10(e)
  }

  predicate SignAt(t: bytes, i: nat) {
    i < |t| && (t[i] == PLUS || t[i] == MINUS)
  }

  // Where the sign, the digits, the point and the digits behind it end.
  function SignEnd(t: bytes): (r: nat)
    ensures r <= |t|
  {
    if SignAt(t, 0) then 1 else 0
  }

  function WholeEnd(t: bytes): (r: nat)
    ensures SignEnd(t) <= r <= |t|
  {
    SignEnd(t) + DigitSpan(t, SignEnd(t))
  }

  function PointEnd(t: bytes): (r: nat)
    ensures WholeEnd(t) <= r <= |t|
  {
    if WholeEnd(t) < |t| && t[WholeEnd(t)] == DOT then WholeEnd(t) + 1 else WholeEnd(t)
  }

  function FracEnd(t: bytes): (r: nat)
    ensures PointEnd(t) <= r <= |t|
  {
    PointEnd(t) + if PointEnd(t) > WholeEnd(t) then DigitSpan(t, PointEnd(t)) else 0
  }

  // strtod on the characters parse_number lets through, with the exact decimal value.
  function Strtod(t: bytes): (r: Parsed<real>)
    ensures r.Ok? ==> 0 < r.end <= |t|
  {
    var digits := t[SignEnd(t)..WholeEnd(t)] + t[PointEnd(t)..FracEnd(t)];
    if digits == [] then Err(0)
    else
      var e := Exponent(t, FracEnd(t));
      var m := DigitsValue(digits);
      Ok(Decimal(if |t| > 0 && t[0] == MINUS then -m else m, e.0 - (FracEnd(t) - PointEnd(t))), e.1)
  }

  // Value of the exponent part at q and the offset behind it; q itself when there is none.
  function Exponent(t: bytes, q: nat): (r: (int, nat))
    requires q <= |t|
    ensures q <= r.1 <= |t|
  {
    if q < |t| && (t[q] == LOWER_E || t[q] == UPPER_E) then
      var s := if SignAt(t, q + 1) then q + 2 else q + 1;
      var n := DigitSpan(t, s);
      if n == 0 then (0, q)
      else
        var e := DigitsValue(t[s..s + n]);
        (if s == q + 2 && t[q + 1] == MINUS then -e else e, s + n)
    else (0, q)
  }

  function ParseNumber(c: bytes, off: nat): (r: Parsed<Json>)
    requires Terminated(c) && off < |c|
    ensures r.Ok? ==> off < r.end < |c|
    ensures r.Err? ==> r.at <= |c|
  {
    var n := NumberSpan(c, off, NUMBER_BUFFER);
    match Strtod(c[off..off + n])
    case Err(_) => Err(off)
    case Ok(d, used) =>
      assert off + used <= off + n;
      assert NumberChar(c[off + used - 1]);
      Ok(Number(d), off + used)
  }

  // ----- strings -----

  // First pass of parse_string: the closing quote and the number of escapes before it.
  function ScanString(c: bytes, i: nat): (r: Parsed<nat>)
    requires i <= |c|
    ensures r.Ok? ==> i <= r.end < |c| && c[r.end] == QUOTE
    decreases |c| - i
  {
    if i == |c| then Err(i)
    else if c[i] == QUOTE then Ok(0, i)
    else if c[i] == BACKSLASH then
      if i + 1 >= |c| then Err(i)
      else
        match ScanString(c, i + 2)
        case Err(at) => Err(at)
        case Ok(n, e) => Ok(n + 1, e)
    else ScanString(c, i + 1)
  }

  function HexValue(b: byte): (r: int)
    ensures -1 <= r < 16
  {
    if IsDigit(b) then b - ZERO
    else if UPPER_A <= b <= UPPER_F then 10 + b - UPPER_A
    else if LOWER_A <= b <= LOWER_F then 10 + b - LOWER_A
    else -1
  }

  // parse_hex4: a malformed group counts as zero.
  function Hex4(c: bytes, i: nat): (r: nat)
    requires i + 4 <= |c|
    ensures r <= 0xFFFF
  {
    var (a, b, d, e) := (HexValue(c[i]), HexValue(c[i + 1]), HexValue(c[i + 2]), HexValue(c[i + 3]));
    if a < 0 || b < 0 || d < 0 || e < 0 then 0
    else ((a * 16 + b) * 16 + d) * 16 + e
  }

  predicate HighSurrogate(u: nat) {
    0xD800 <= u <= 0xDBFF
  }

  predicate LowSurrogate(u: nat) {
    0xDC00 <= u <= 0xDFFF
  }

  function Combine(high: nat, low: nat): (cp: nat)
    requires HighSurrogate(high) && LowSurrogate(low)
    ensures 0x10000 <= cp <= 0x10FFFF
  {
    0x10000 + (high % 0x400) * 0x400 + low % 0x400
  }

  // The range-based UTF-8 encoder of utf16_literal_to_utf8.
  function Utf8(cp: nat): (t: bytes)
    requires cp <= 0x10FFFF
    ensures |t| == if cp < 0x80 then 1 else if cp < 0x800 then 2 else if cp < 0x10000 then 3 else 4
  {
    if cp < 0x80 then [cp]
    else if cp < 0x800 then [0xC0 + cp / 64, 0x80 + cp % 64]
    else if cp < 0x10000 then [0xE0 + cp / 4096, 0x80 + cp / 64 % 64, 0x80 + cp % 64]
    else [0xF0 + cp / 262144, 0x80 + cp / 4096 % 64, 0x80 + cp / 64 % 64, 0x80 + cp % 64]
  }

  // utf16_literal_to_utf8 at p, with the literal confined to c[..e].
  function Literal(c: bytes, p: nat, e: nat): (r: Parsed<bytes>)
    requires p <= e <= |c|
    ensures r.Ok? ==> (r.end == p + 6 && |r.value| <= 3) || (r.end == p + 12 && |r.value| == 4)
    ensures r.Ok? ==> r.end <= e
  {
    if e - p < 6 then Err(p)
    else
      var first := Hex4(c, p + 2);
      if LowSurrogate(first) then Err(p)
      else if HighSurrogate(first) then
        if e - (p + 6) < 6 || c[p + 6] != BACKSLASH || c[p + 7] != LOWER_U then Err(p)
        else
          var second := Hex4(c, p + 8);
          if !LowSurrogate(second) then Err(p) else Ok(Utf8(Combine(first, second)), p + 12)
      else Ok(Utf8(first), p + 6)
  }

  predicate ShortEscapeChar(b: byte) {
    b == QUOTE || b == BACKSLASH || b == SLASH ||
    b == LOWER_B || b == LOWER_F || b == LOWER_N || b == LOWER_R || b == LOWER_T
  }

  function Unescaped(b: byte): byte
    requires ShortEscapeChar(b)
  {
    if b == LOWER_B then BACKSPACE
    else if b == LOWER_F then FORMFEED
    else if b == LOWER_N then LF
    else if b == LOWER_R then CR
    else if b == LOWER_T then TAB
    else b
  }

  // One turn of parse_string's second pass: the bytes it writes and where it goes on.
  function UnescapeStep(c: bytes, p: nat, e: nat): (r: Parsed<bytes>)
    requires p < e < |c|
    ensures r.Ok? ==> p < r.end <= e + 1
  {
    if c[p] != BACKSLASH then Ok([c[p]], p + 1)
    else if ShortEscapeChar(c[p + 1]) then Ok([Unescaped(c[p + 1])], p + 2)
    else if c[p + 1] == LOWER_U then Literal(c, p, e)
    else Err(p)
  }

  function Unescape(c: bytes, p: nat, e: nat): (r: Parsed<bytes>)
    requires p <= e + 1 && e < |c|
    ensures r.Err? ==> r.at < e
    decreases e + 1 - p
  {
    if p >= e then Ok([], p)
    else
      match UnescapeStep(c, p, e)
      case Err(at) => Err(p)
      case Ok(w, q) =>
        match Unescape(c, q, e)
        case Err(at) => Err(at)
        case Ok(ws, z) => Ok(w + ws, z)
  }

  // parse_string; the caller sees the bytes before the first NUL written.
  function ParseString(c: bytes, off: nat): (r: Parsed<bytes>)
    requires Terminated(c) && off < |c|
    ensures r.Ok? ==> off < r.end < |c| && NulFree(r.value)
    ensures r.Err? ==> r.at <= |c|
  {
    if c[off] != QUOTE then Err(off + 1)
    else
      match ScanString(c, off + 1)
      case Err(_) => Err(off + 1)
      case Ok(_, e) =>
        match Unescape(c, off + 1, e)
        case Err(at) => Err(at)
        case Ok(w, _) => Ok(CString(w), e + 1)
  }

  // ----- values -----

  function ParseValue(c: bytes, off: nat, depth: nat): (r: Parsed<Json>)
    requires Terminated(c) && off < |c|
    ensures r.Ok? ==> off < r.end < |c|
    ensures r.Err? ==> r.at <= |c|
    decreases |c| - off, 2
  {
    if At(c, off, NULL_TEXT) then AtIndex(c, off, NULL_TEXT, 3); Ok(Null, off + 4)
    else if At(c, off, FALSE_TEXT) then AtIndex(c, off, FALSE_TEXT, 4); Ok(False, off + 5)
    else if At(c, off, TRUE_TEXT) then AtIndex(c, off, TRUE_TEXT, 3); Ok(True, off + 4)
    else if c[off] == QUOTE then
      match ParseString(c, off)
      case Err(at) => Err(at)
      case Ok(s, e) => Ok(String(s), e)
    else if c[off] == MINUS || IsDigit(c[off]) then ParseNumber(c, off)
    else if c[off] == LBRACKET then ParseArray(c, off, depth)
    else if c[off] == LBRACE then ParseObject(c, off, depth)
    else Err(off)
  }

  function ParseArray(c: bytes, off: nat, depth: nat): (r: Parsed<Json>)
    requires Terminated(c) && off < |c| && c[off] == LBRACKET
    ensures r.Ok? ==> off < r.end < |c|
    ensures r.Err? ==> r.at <= |c|
    decreases |c| - off, 1
  {
    if depth >= NESTING_LIMIT then Err(off)
    else
      var p := SkipWhitespace(c, off + 1);
      if c[p] == RBRACKET then Ok(Array([]), p + 1)
      else
        match ParseElements(c, p - 1, depth + 1)
        case Err(at) => Err(at)
        case Ok(items, e) => Ok(Array(items), e)
  }

  // The array loop, entered with the offset on the byte in front of an element.
  function ParseElements(c: bytes, before: nat, depth: nat): (r: Parsed<seq<Json>>)
    requires Terminated(c) && before + 1 < |c|
    ensures r.Ok? ==> before + 1 < r.end < |c| && |r.value| > 0
    ensures r.Err? ==> r.at <= |c|
    decreases |c| - before, 0
  {
    var p := SkipWhitespace(c, before + 1);
    match ParseValue(c, p, depth)
    case Err(at) => Err(at)
    case Ok(v, e) =>
      var q := SkipWhitespace(c, e);
      if c[q] == COMMA then
        match ParseElements(c, q, depth)
        case Err(at) => Err(at)
        case Ok(vs, z) => Ok([v] + vs, z)
      else if c[q] != RBRACKET then Err(q)
      else Ok([v], q + 1)
  }

  function ParseObject(c: bytes, off: nat, depth: nat): (r: Parsed<Json>)
    requires Terminated(c) && off < |c| && c[off] == LBRACE
    ensures r.Ok? ==> off < r.end < |c|
    ensures r.Err? ==> r.at <= |c|
    decreases |c| - off, 1
  {
    if depth >= NESTING_LIMIT then Err(off)
    else
      var p := SkipWhitespace(c, off + 1);
      if c[p] == RBRACE then Ok(Object([]), p + 1)
      else
        match ParseMembers(c, p - 1, depth + 1)
        case Err(at) => Err(at)
        case Ok(ms, e) => Ok(Object(ms), e)
  }

  // Name, colon and value of one member.
  function ParseMember(c: bytes, before: nat, depth: nat): (r: Parsed<Member>)
    requires Terminated(c) && before + 1 < |c|
    ensures r.Ok? ==> before + 1 < r.end < |c|
    ensures r.Err? ==> r.at <= |c|
    decreases |c| - before, 0, 0
  {
    var p := SkipWhitespace(c, before + 1);
    match ParseString(c, p)
    case Err(at) => Err(at)
    case Ok(key, e) =>
      var q := SkipWhitespace(c, e);
      if c[q] != COLON then Err(q)
      else
        match ParseValue(c, SkipWhitespace(c, q + 1), depth)
        case Err(at) => Err(at)
        case Ok(v, z) => Ok(Member(key, v), z)
  }

  function ParseMembers(c: bytes, before: nat, depth: nat): (r: Parsed<seq<Member>>)
    requires Terminated(c) && before + 1 < |c|
    ensures r.Ok? ==> before + 1 < r.end < |c| && |r.value| > 0
    ensures r.Err? ==> r.at <= |c|
    decreases |c| - before, 0, 1
  {
    match ParseMember(c, before, depth)
    case Err(at) => Err(at)
    case Ok(m, e) =>
      var q := SkipWhitespace(c, e);
      if c[q] == COMMA then
        match ParseMembers(c, q, depth)
        case Err(at) => Err(at)
        case Ok(ms, z) => Ok([m] + ms, z)
      else if c[q] != RBRACE then Err(q)
      else Ok([m], q + 1)
  }

  // ----- bscJSON_ParseWithOpts -----

  const BOM: bytes := [0xEF, 0xBB, 0xBF]

  // skip_utf8_bom
  function SkipBom(c: bytes): (r: nat)
    ensures r < |c| || (r == 0 && |c| == 0)
  {
    if 4 < |c| && At(c, 0, BOM) then 3 else 0
  }

  // Position that the source publishes as the error position.
  function ErrorPosition(c: bytes, at: nat): (r: nat)
    requires |c| > 0
    ensures r < |c|
  {
    if at < |c| then at else |c| - 1
  }

  function ParseWithOpts(text: bytes, requireNul: bool): (r: Parsed<Json>)
    requires NulFree(text)
    ensures r.Ok? ==> 0 < r.end <= |text|
    ensures r.Err? ==> r.at <= |text|
    ensures r.Ok? && requireNul ==> r.end == |text|
  {
    var c := text + [NUL];
    match ParseValue(c, SkipWhitespace(c, SkipBom(c)), 0)
    case Err(at) => Err(ErrorPosition(c, at))
    case Ok(v, e) =>
      if requireNul then
        var q := SkipWhitespace(c, e);
        if c[q] != NUL then Err(q) else Ok(v, q)
      else Ok(v, e)
  }

  // bscJSON_Parse: trailing bytes are not looked at.
  function Parse(text: bytes): (r: Parsed<Json>)
    requires NulFree(text)
    ensures r.Ok? ==> 0 < r.end <= |text|
  {
    ParseWithOpts(text, false)
  }
}
