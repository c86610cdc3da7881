// The values a bscJSON tree denotes, and the text the printer gives each of them.
module JsonValue {
  import opened Bytes

  const INT_MAX: int := 0x7fff_ffff
  const INT_MIN: int := -0x8000_0000
  const NESTING_LIMIT: nat := 1000

  const NULL_TEXT: bytes := [110, 117, 108, 108]
  const FALSE_TEXT: bytes := [102, 97, 108, 115, 101]
  const TRUE_TEXT: bytes := [116, 114, 117, 101]

  datatype Json =
    | Null
    | False
    | True
    | Number(d: real)
    | String(s: bytes)
    | Array(items: seq<Json>)
    | Object(members: seq<Member>)

  datatype Member = Member(key: bytes, value: Json)

  // valueint beside valuedouble: truncation towards zero with saturation.
  function ValueInt(d: real): (n: int)
    ensures INT_MIN <= n <= INT_MAX
    ensures d >= 2147483647.0 ==> n == 2147483647
    ensures d <= -2147483648.0 ==> n == -2147483648
    ensures 0.0 <= d < 2147483647.0 ==> n as real <= d < n as real + 1.0
    ensures -2147483648.0 < d <= 0.0 ==> n as real - 1.0 < d <= n as real
  {
    if d >= INT_MAX as real then INT_MAX
    else if d <= INT_MIN as real then INT_MIN
    else if d >= 0.0 then d.Floor
    else -((-d).Floor)
  }

  // A number that the printer renders with "%d" and no loss.
  predicate IsInt(d: real) {
    INT_MIN as real <= d <= INT_MAX as real && d.Floor as real == d
  }

  // Trees the round trips speak of: integer numbers, and strings that C can hold.
  predicate Printable(v: Json) {
    match v
    case Number(d) => IsInt(d)
    case String(s) => NulFree(s)
    case Array(items) => forall i | 0 <= i < |items| :: Printable(items[i])
    case Object(ms) => forall i | 0 <= i < |ms| :: NulFree(ms[i].key) && Printable(ms[i].value)
    case _ => true
  }

  function Max(a: nat, b: nat): nat {
    if a < b then b else a
  }

  // Number of containers on the deepest path.
  function Nest(v: Json): nat {
    match v
    case Array(items) => 1 + NestItems(items)
    case Object(ms) => 1 + NestMembers(ms)
    case _ => 0
  }

  function NestItems(items: seq<Json>): nat {
    if items == [] then 0 else Max(Nest(items[0]), NestItems(items[1..]))
  }

  function NestMembers(ms: seq<Member>): nat {
    if ms == [] then 0 else Max(Nest(ms[0].value), NestMembers(ms[1..]))
  }

  // ----- text -----

  function Digits(n: nat): (t: bytes)
    ensures |t| > 0 && forall i | 0 <= i < |t| :: IsDigit(t[i])
  {
    if n < 10 then [ZERO + n] else Digits(n / 10) + [ZERO + n % 10]
  }

  function IntText(n: int): (t: bytes)
    ensures |t| > 0
  {
    if n < 0 then [MINUS] + Digits(-n) else Digits(n)
  }

  function HexDigit(n: nat): byte
    requires n < 16
  {
    if n < 10 then ZERO + n else LOWER_A + (n - 10)
  }

  predicate NeedsShortEscape(b: byte) {
    b == QUOTE || b == BACKSLASH || b == BACKSPACE || b == FORMFEED || b == LF || b == CR || b == TAB
  }

  function ShortEscape(b: byte): byte
    requires NeedsShortEscape(b)
  {
    if b == BACKSPACE then LOWER_B
    else if b == FORMFEED then LOWER_F
    else if b == LF then LOWER_N
    else if b == CR then LOWER_R
    else if b == TAB then LOWER_T
    else b
  }

  function EscapeByte(b: byte): (t: bytes)
    ensures 0 < |t| <= 6
  {
    if NeedsShortEscape(b) then [BACKSLASH, ShortEscape(b)]
    else if b < 32 then [BACKSLASH, LOWER_U, ZERO, ZERO, HexDigit(b / 16), HexDigit(b % 16)]
    else [b]
  }

  function Escaped(s: bytes): bytes {
    if s == [] then [] else EscapeByte(s[0]) + Escaped(s[1..])
  }

  function Quoted(s: bytes): bytes {
    [QUOTE] + Escaped(s) + [QUOTE]
  }

  function Tabs(n: nat): (t: bytes)
    ensures |t| == n && forall i | 0 <= i < n :: t[i] == TAB
  {
    seq(n, _ => TAB)
  }

  function PrintValue(v: Json, fmt: bool, depth: nat): (t: bytes)
    requires Printable(v)
    ensures |t| > 0
    decreases v, 1
  {
    match v
    case Null => NULL_TEXT
    case False => FALSE_TEXT
    case True => TRUE_TEXT
    case Number(d) => IntText(d.Floor)
    case String(s) => Quoted(s)
    case Array(items) => [LBRACKET] + PrintElements(items, fmt, depth + 1) + [RBRACKET]
    case Object(ms) => ObjectOpen(fmt) + PrintMembers(ms, fmt, depth + 1) + ObjectClose(fmt, depth)
  }

  function ElementSeparator(fmt: bool): bytes {
    if fmt then [COMMA, SPACE] else [COMMA]
  }

  function PrintElements(items: seq<Json>, fmt: bool, depth: nat): bytes
    requires forall i | 0 <= i < |items| :: Printable(items[i])
    decreases items, 0
  {
    if items == [] then []
    else PrintValue(items[0], fmt, depth) + PrintMoreElements(items[1..], fmt, depth)
  }

  function PrintMoreElements(items: seq<Json>, fmt: bool, depth: nat): bytes
    requires forall i | 0 <= i < |items| :: Printable(items[i])
    decreases items, 0
  {
    if items == [] then []
    else ElementSeparator(fmt) + PrintValue(items[0], fmt, depth) + PrintMoreElements(items[1..], fmt, depth)
  }

  function ObjectOpen(fmt: bool): bytes {
    if fmt then [LBRACE, LF] else [LBRACE]
  }

  function ObjectClose(fmt: bool, depth: nat): bytes {
    (if fmt then Tabs(depth) else []) + [RBRACE]
  }

  function MemberIndent(fmt: bool, depth: nat): bytes {
    if fmt then Tabs(depth) else []
  }

  function MemberColon(fmt: bool): bytes {
    if fmt then [COLON, TAB] else [COLON]
  }

  function MemberEnd(fmt: bool, last: bool): bytes {
    (if last then [] else [COMMA]) + (if fmt then [LF] else [])
  }

  function MemberText(m: Member, fmt: bool, depth: nat): bytes
    requires Printable(m.value)
    decreases m, 2
  {
    Quoted(m.key) + (MemberColon(fmt) + PrintValue(m.value, fmt, depth))
  }

  function PrintMembers(ms: seq<Member>, fmt: bool, depth: nat): bytes
    requires forall i | 0 <= i < |ms| :: Printable(ms[i].value)
    decreases ms, 0
  {
    if ms == [] then []
    else
      MemberIndent(fmt, depth) +
      (MemberText(ms[0], fmt, depth) + (MemberEnd(fmt, |ms| == 1) + PrintMembers(ms[1..], fmt, depth)))
  }

  // bscJSON_Print and bscJSON_PrintUnformatted.
  function Print(v: Json, fmt: bool): bytes
    requires Printable(v)
  {
    PrintValue(v, fmt, 0)
  }
}
