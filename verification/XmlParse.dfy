// What ezxml_parse_str computes, for documents of elements, attributes and character content.
module XmlParse {
  import opened Bytes
  import opened XmlText
  import opened XmlTree
  import Utf

  datatype Error =
    | RootTagMissing | OutsideRoot | MissingQuote | MissingGreater
    | UnexpectedClose | UnexpectedMarkup | UnclosedTag

  datatype Result<+T> = Ok(value: T) | Err(error: Error)

  // A tag that has been opened and not closed yet; off is its place in the enclosing tag.
  datatype Frame = Frame(off: nat, name: bytes, attrs: seq<Attr>, txt: bytes, kids: seq<Kid>)

  // root->cur: the unnamed root, the path to the current tag, or null behind the root element.
  datatype State = Unopened | Within(stack: seq<Frame>) | Closed(root: Elem)

  predicate Good(st: State) {
    st.Within? ==> |st.stack| > 0
  }

  // The work area: the last byte is set aside and a terminator stands in its place.
  predicate WorkArea(c: bytes) {
    |c| > 0 && c[|c| - 1] == NUL
  }

  // ----- scanning -----

  predicate NameEnd(b: byte) {
    IsWs(b) || b == SLASH || b == GREATER
  }

  predicate AttrNameEnd(b: byte) {
    NameEnd(b) || b == EQUALS
  }

  predicate CloseEnd(b: byte) {
    IsWs(b) || b == GREATER
  }

  predicate NotSpace(b: byte) {
    !IsSpace(b)
  }

  predicate NotWs(b: byte) {
    !IsWs(b)
  }

  predicate NotEquals(b: byte) {
    !IsWs(b) && b != EQUALS
  }

  predicate IsLess(b: byte) {
    b == LESS
  }

  predicate IsQuote(b: byte) {
    b == QUOTE
  }

  predicate IsApos(b: byte) {
    b == APOS
  }

  // First position from s on whose byte is NUL or satisfies stop.
  function ScanTo(c: bytes, s: nat, stop: byte -> bool): (r: nat)
    requires WorkArea(c) && s < |c|
    ensures s <= r < |c| && (c[r] == NUL || stop(c[r]))
    ensures forall i | s <= i < r :: c[i] != NUL && !stop(c[i])
    decreases |c| - s
  {
    if c[s] == NUL || stop(c[s]) then s else ScanTo(c, s + 1, stop)
  }

  function SkipSpaces(c: bytes, s: nat): (r: nat)
    requires WorkArea(c) && s < |c|
    ensures s <= r < |c|
    ensures !IsSpace(c[r])
  {
    ScanTo(c, s, NotSpace)
  }

  // strspn(s, EZXML_WS "=")
  function SkipEquals(c: bytes, s: nat): (r: nat)
    requires WorkArea(c) && s < |c|
    ensures s <= r < |c|
  {
    ScanTo(c, s, NotEquals)
  }

  // ----- attributes -----

  // The closing quote of the value that starts at q, or the end of the work area.
  function QuotedEnd(c: bytes, q: nat): (z: nat)
    requires WorkArea(c) && q < |c| && (c[q] == QUOTE || c[q] == APOS)
    ensures q < z < |c|
  {
    if c[q] == QUOTE then ScanTo(c, q + 1, IsQuote) else ScanTo(c, q + 1, IsApos)
  }

  // The value behind an attribute name that ends at n, and the position behind it.
  function AttrValue(c: bytes, n: nat): (r: Result<(bytes, nat)>)
    requires WorkArea(c) && n < |c|
    ensures r.Ok? ==> n <= r.value.1 < |c| && (c[n] == EQUALS ==> n < r.value.1)
  {
    if c[n] == EQUALS || IsSpace(c[n]) then
      var q := SkipEquals(c, n + 1);
      if c[q] == QUOTE || c[q] == APOS then
        var z := QuotedEnd(c, q);
        if c[z] == NUL then Err(MissingQuote) else Ok((DecodeText(c[q + 1..z], true), z + 1))
      else Ok(([], q))
    else Ok(([], n))
  }

  // One attribute at s, and the position behind it and the blanks that follow.
  function ParseAttr(c: bytes, s: nat): (r: Result<(Attr, nat)>)
    requires WorkArea(c) && s < |c| && c[s] != NUL && !IsSpace(c[s]) && c[s] != SLASH && c[s] != GREATER
    ensures r.Ok? ==> s < r.value.1 < |c| && !IsSpace(c[r.value.1])
  {
    var n := ScanTo(c, s, AttrNameEnd);
    match AttrValue(c, n)
    case Err(x) => Err(x)
    case Ok((v, e)) => Ok((Attr(c[s..n], v), SkipSpaces(c, e)))
  }

  function ParseAttrs(c: bytes, s: nat): (r: Result<(seq<Attr>, nat)>)
    requires WorkArea(c) && s < |c| && !IsSpace(c[s])
    ensures r.Ok? ==> var e := r.value.1; s <= e < |c| && (c[e] == NUL || c[e] == SLASH || c[e] == GREATER)
    decreases |c| - s
  {
    if c[s] == NUL || c[s] == SLASH || c[s] == GREATER then Ok(([], s))
    else
      match ParseAttr(c, s)
      case Err(x) => Err(x)
      case Ok((a, n)) =>
        match ParseAttrs(c, n)
        case Err(x) => Err(x)
        case Ok((rest, e)) => Ok(([a] + rest, e))
  }

  // ----- the tree -----

  function Open(st: State, name: bytes, attrs: seq<Attr>): (r: State)
    requires Good(st) && !st.Closed?
    ensures r.Within? && Good(r)
  {
    if st.Unopened? then Within([Frame(0, name, attrs, [], [])])
    else Within(st.stack + [Frame(|st.stack[|st.stack| - 1].txt|, name, attrs, [], [])])
  }

  function Completed(f: Frame): Elem {
    Elem(f.name, f.attrs, f.txt, f.kids)
  }

  function Close(st: State, name: bytes): (r: Result<State>)
    requires Good(st)
    ensures r.Ok? ==> Good(r.value)
  {
    if !st.Within? || st.stack[|st.stack| - 1].name != name then Err(UnexpectedClose)
    else
      var n := |st.stack| - 1;
      var f := st.stack[n];
      if n == 0 then Ok(Closed(Completed(f)))
      else
        var p := st.stack[n - 1];
        Ok(Within(st.stack[..n - 1] + [p.(kids := p.kids + [Kid(f.off, Completed(f))])]))
  }

  // ezxml_char_content
  function Content(st: State, text: bytes): (r: State)
    requires Good(st)
    ensures Good(r)
  {
    if !st.Within? then st
    else
      var n := |st.stack| - 1;
      var f := st.stack[n];
      Within(st.stack[..n] + [f.(txt := f.txt + DecodeText(text, false))])
  }

  // ----- tags -----

  // The end of an opening tag, at a '/', a '>' or the end of the work area.
  function OpenEnd(c: bytes, end: byte, e: nat, st: State, name: bytes, attrs: seq<Attr>): (r: Result<(nat, State)>)
    requires WorkArea(c) && e < |c| && Good(st) && !st.Closed?
    ensures r.Ok? ==> e <= r.value.0 < |c| && Good(r.value.1)
  {
    if c[e] == SLASH then
      if (c[e + 1] != NUL && c[e + 1] != GREATER) || (c[e + 1] == NUL && end != GREATER) then Err(MissingGreater)
      else
        match Close(Open(st, name, attrs), name)
        case Err(x) => Err(x)
        case Ok(st') => Ok((e + 1, st'))
    else if c[e] == GREATER || end == GREATER then Ok((e, Open(st, name, attrs)))
    else Err(MissingGreater)
  }

  function ParseOpen(c: bytes, end: byte, s: nat, st: State): (r: Result<(nat, State)>)
    requires WorkArea(c) && s < |c| && c[s] != NUL && Good(st)
    ensures r.Ok? ==> s <= r.value.0 < |c| && Good(r.value.1)
  {
    if st.Closed? then Err(OutsideRoot)
    else
      var n := ScanTo(c, s, NameEnd);
      match ParseAttrs(c, SkipSpaces(c, n))
      case Err(x) => Err(x)
      case Ok((attrs, e)) => OpenEnd(c, end, e, st, c[s..n], attrs)
  }

  function ParseClose(c: bytes, end: byte, s: nat, st: State): (r: Result<(nat, State)>)
    requires WorkArea(c) && s < |c| && c[s] == SLASH && Good(st)
    ensures r.Ok? ==> s < r.value.0 < |c| && Good(r.value.1)
  {
    var n := ScanTo(c, s + 1, CloseEnd);
    if c[n] == NUL && end != GREATER then Err(MissingGreater)
    else
      match Close(st, c[s + 1..n])
      case Err(x) => Err(x)
      case Ok(st') => Ok((ScanTo(c, n, NotWs), st'))
  }

  function ParseTag(c: bytes, end: byte, s: nat, st: State): (r: Result<(nat, State)>)
    requires WorkArea(c) && s < |c| && Good(st)
    ensures r.Ok? ==> s <= r.value.0 < |c| && Good(r.value.1)
  {
    if TagStart(c[s]) then ParseOpen(c, end, s, st)
    else if c[s] == SLASH then ParseClose(c, end, s, st)
    else Err(UnexpectedMarkup)
  }

  // ----- the document -----

  function Finish(st: State): Result<Elem> {
    match st
    case Closed(root) => Ok(root)
    case Unopened => Err(RootTagMissing)
    case Within(_) => Err(UnclosedTag)
  }

  // The loop, from a '<' on.
  function ParseFrom(c: bytes, end: byte, s: nat, st: State): Result<Elem>
    requires WorkArea(c) && s < |c| && c[s] == LESS && Good(st)
    decreases |c| - s, 1
  {
    match ParseTag(c, end, s + 1, st)
    case Err(x) => Err(x)
    case Ok((e, st')) => After(c, end, e, st')
  }

  // Behind a tag: character content up to the next one.
  function After(c: bytes, end: byte, s: nat, st: State): Result<Elem>
    requires WorkArea(c) && s < |c| && Good(st)
    decreases |c| - s, 0
  {
    if c[s] == NUL || c[s + 1] == NUL then Finish(st)
    else
      var t := ScanTo(c, s + 1, IsLess);
      if c[t] == NUL then Finish(st)
      else ParseFrom(c, end, t, if t == s + 1 then st else Content(st, c[s + 1..t]))
  }

  // ezxml_parse_str: a text that starts with a byte order mark of UTF-16 is converted first.
  function ParseStr(text: bytes): Result<Elem> {
    ParseUtf8(Utf8Form(text))
  }

  function Utf8Form(text: bytes): bytes {
    if text == [] then []
    else if text[0] == 0xFE then Utf.Convert(text, 2, true)
    else if text[0] == 0xFF then Utf.Convert(text, 2, false)
    else text
  }

  function ParseUtf8(text: bytes): Result<Elem> {
    if text == [] then Err(RootTagMissing)
    else
      var c := text[..|text| - 1] + [NUL];
      var s := ScanTo(c, 0, IsLess);
      if c[s] == NUL then Err(RootTagMissing) else ParseFrom(c, text[|text| - 1], s, Unopened)
  }
}
