// The two passes of parse_string agree on a size even where they disagree on escape boundaries.
module JsonStringPass {
  import opened Bytes
  import opened JsonParse

  // Where the second pass can stand relative to the first: on the start of one of its tokens, or
  // on the second byte of an escape. n escapes of the first pass are still to come before e.
  ghost predicate Sync(c: bytes, p: nat, e: nat, n: nat) {
    || (p <= |c| && ScanString(c, p) == Ok(n, e))
    || (0 < p < |c| && c[p - 1] == BACKSLASH && ScanString(c, p + 1) == Ok(n, e))
  }

  // Bytes the first pass has reserved for c[p..e].
  ghost function Room(p: nat, e: nat, n: nat): int {
    e - p - n
  }

  lemma NextByte(c: bytes, p: nat, e: nat, n: nat) returns (m: nat)
    requires Sync(c, p, e, n) && p < e
    ensures Sync(c, p + 1, e, m)
    ensures m == n || (m == n - 1 && c[p] == BACKSLASH)
    ensures m == n - 1 ==> p + 1 < |c| && ScanString(c, p + 2) == Ok(m, e)
  {
    if p <= |c| && ScanString(c, p) == Ok(n, e) {
      m := if c[p] == BACKSLASH then n - 1 else n;
    } else {
      m := n;
    }
  }

  // Two bytes never start two escapes.
  lemma NextPair(c: bytes, p: nat, e: nat, n: nat) returns (m: nat)
    requires Sync(c, p, e, n) && p + 2 <= e
    ensures Sync(c, p + 2, e, m) && Room(p + 2, e, m) + 1 <= Room(p, e, n)
  {
    var k := NextByte(c, p, e, n);
    if k == n - 1 {
      m := k;
    } else {
      m := NextByte(c, p + 1, e, k);
    }
  }

  lemma NextPairs(c: bytes, p: nat, e: nat, n: nat, pairs: nat) returns (m: nat)
    requires Sync(c, p, e, n) && p + 2 * pairs <= e
    ensures Sync(c, p + 2 * pairs, e, m) && Room(p + 2 * pairs, e, m) + pairs <= Room(p, e, n)
  {
    m := n;
    for i := 0 to pairs
      invariant Sync(c, p + 2 * i, e, m) && Room(p + 2 * i, e, m) + i <= Room(p, e, n)
    {
      m := NextPair(c, p + 2 * i, e, m);
    }
  }

  // One turn of the second pass writes no more than the first pass reserved for what it consumes.
  lemma StepFits(c: bytes, p: nat, e: nat, n: nat) returns (m: nat)
    requires e < |c| && Sync(c, p, e, n) && p < e && UnescapeStep(c, p, e).Ok?
    ensures var r := UnescapeStep(c, p, e);
            && |r.value| <= Room(p, e, n)
            && (r.end <= e ==> Sync(c, r.end, e, m) && |r.value| + Room(r.end, e, m) <= Room(p, e, n))
  {
    m := 0;
    var r := UnescapeStep(c, p, e);
    if c[p] != BACKSLASH {
      m := NextByte(c, p, e, n);
      SyncRoom(c, p + 1, e, m);
    } else if r.end <= e {
      m := NextPairs(c, p, e, n, (r.end - p) / 2);
      SyncRoom(c, r.end, e, m);
    } else {
      assert p + 1 == e;
      SyncRoom(c, p, e, n);
    }
  }

  lemma SyncRoom(c: bytes, p: nat, e: nat, n: nat)
    requires e < |c| && Sync(c, p, e, n)
    ensures p <= e && Room(p, e, n) >= 0
    ensures p + 1 == e && c[p] == BACKSLASH ==> Room(p, e, n) >= 1
  {
    if p <= |c| && ScanString(c, p) == Ok(n, e) {
      ScanRoom(c, p);
    } else {
      ScanRoom(c, p + 1);
    }
  }

  lemma {:induction false} ScanRoom(c: bytes, i: nat)
    requires i <= |c| && ScanString(c, i).Ok?
    ensures 2 * ScanString(c, i).value <= ScanString(c, i).end - i
    decreases |c| - i
  {
    if c[i] == QUOTE {
    } else if c[i] == BACKSLASH {
      ScanRoom(c, i + 2);
    } else {
      ScanRoom(c, i + 1);
    }
  }

  // What the second pass has written when it stops, at the end or at a malformed escape.
  function Written(c: bytes, p: nat, e: nat): (r: bytes)
    requires p <= e + 1 && e < |c|
    ensures Unescape(c, p, e).Ok? ==> r == Unescape(c, p, e).value
    decreases e + 1 - p
  {
    if p >= e then []
    else
      match UnescapeStep(c, p, e)
      case Err(_) => []
      case Ok(w, q) => w + Written(c, q, e)
  }

  // For every string literal, well formed or not, the bytes the second pass writes fit the size the
  // first pass computed.
  lemma {:induction false} UnescapeFits(c: bytes, p: nat, e: nat, n: nat)
    requires e < |c| && Sync(c, p, e, n)
    ensures p <= e && |Written(c, p, e)| <= Room(p, e, n)
    decreases e + 1 - p
  {
    SyncRoom(c, p, e, n);
    if p < e && UnescapeStep(c, p, e).Ok? {
      var m := StepFits(c, p, e, n);
      var q := UnescapeStep(c, p, e).end;
      if q <= e { UnescapeFits(c, q, e, m); }
    }
  }

  // With the terminator, the literal whose opening quote is at off fits what is allocated for it.
  lemma StringFits(c: bytes, off: nat)
    requires off < |c| && ScanString(c, off + 1).Ok?
    ensures var Ok(skipped, e) := ScanString(c, off + 1);
            off < e && |Written(c, off + 1, e)| + 1 <= (e - off - skipped) + 1
  {
    var Ok(skipped, e) := ScanString(c, off + 1);
    UnescapeFits(c, off + 1, e, skipped);
  }
}
