// Which topics a subscription takes.
module Topic {
  import opened Bytes

  // ----- levels -----

  // Length of the first level.
  function Span(s: bytes): (n: nat)
    ensures n <= |s| && (n < |s| ==> s[n] == SLASH)
    ensures forall i | 0 <= i < n :: s[i] != SLASH
  {
    if s == [] || s[0] == SLASH then 0
    else
      assert s == [s[0]] + s[1..];
      1 + Span(s[1..])
  }

  function Levels(s: bytes): (r: seq<bytes>)
    ensures r != []
    decreases |s|
  {
    var n := Span(s);
    if n == |s| then [s] else [s[..n]] + Levels(s[n + 1..])
  }

  predicate IsWild(b: byte) {
    b == PLUS || b == HASH
  }

  predicate Wildless(s: bytes) {
    forall i | 0 <= i < |s| :: !IsWild(s[i])
  }

  // Wildcards stand alone in their level, and # only in the last one.
  predicate WellFormed(fs: seq<bytes>) {
    forall i | 0 <= i < |fs| :: Wildless(fs[i]) || fs[i] == [PLUS] || (fs[i] == [HASH] && i == |fs| - 1)
  }

  // ----- two matchers on levels -----

  // + takes one level that is not empty, # one or more levels of which the first is not empty.
  predicate Matches(fs: seq<bytes>, ts: seq<bytes>) {
    if fs == [] || ts == [] then fs == [] && ts == []
    else if fs[0] == [HASH] then ts[0] != []
    else (if fs[0] == [PLUS] then ts[0] != [] else fs[0] == ts[0]) && Matches(fs[1..], ts[1..])
  }

  // Section 4.7.1 of MQTT 3.1.1: + takes any one level, # any number of them, none included.
  predicate MatchesStandard(fs: seq<bytes>, ts: seq<bytes>) {
    if fs == [] then ts == []
    else if fs[0] == [HASH] then true
    else ts != [] && (fs[0] == [PLUS] || fs[0] == ts[0]) && MatchesStandard(fs[1..], ts[1..])
  }

  lemma {:induction false} MatchesAreStandard(fs: seq<bytes>, ts: seq<bytes>)
    requires Matches(fs, ts)
    ensures MatchesStandard(fs, ts)
  {
    if fs != [] && fs[0] != [HASH] { MatchesAreStandard(fs[1..], ts[1..]); }
  }

  // Every wildcard stands opposite a level that is not empty.
  predicate Covered(fs: seq<bytes>, ts: seq<bytes>) {
    forall i | 0 <= i < |fs| && (fs[i] == [PLUS] || fs[i] == [HASH]) :: i < |ts| && ts[i] != []
  }

  // The matches of the standard that the matcher reports are those in which every wildcard has a level
  // that is not empty opposite.
  lemma {:induction false} StandardIff(fs: seq<bytes>, ts: seq<bytes>)
    requires WellFormed(fs)
    ensures Matches(fs, ts) <==> MatchesStandard(fs, ts) && Covered(fs, ts)
  {
    if fs != [] {
      FirstWellFormed(fs);
      if fs[0] != [HASH] && ts != [] {
        TailWellFormed(fs);
        StandardIff(fs[1..], ts[1..]);
      }
    }
  }

  // On topics without empty levels the two differ only in whether # takes the parent level too.
  lemma StandardIffNoneEmpty(fs: seq<bytes>, ts: seq<bytes>)
    requires WellFormed(fs) && forall i | 0 <= i < |ts| :: ts[i] != []
    ensures Matches(fs, ts) <==>
            MatchesStandard(fs, ts) && (fs != [] && fs[|fs| - 1] == [HASH] ==> |ts| >= |fs|)
  {
    StandardIff(fs, ts);
    if MatchesStandard(fs, ts) { StandardLength(fs, ts); }
  }

  lemma {:induction false} StandardLength(fs: seq<bytes>, ts: seq<bytes>)
    requires WellFormed(fs) && MatchesStandard(fs, ts)
    ensures fs != [] && fs[|fs| - 1] == [HASH] ==> |ts| >= |fs| - 1
    ensures fs == [] || fs[|fs| - 1] != [HASH] ==> |ts| == |fs|
    ensures forall i | 0 <= i < |fs| && fs[i] == [HASH] :: i == |fs| - 1
  {
    if fs != [] {
      FirstWellFormed(fs);
      if fs[0] != [HASH] {
        TailWellFormed(fs);
        StandardLength(fs[1..], ts[1..]);
        assert forall i | 0 <= i < |fs| - 1 :: fs[1..][i] == fs[i + 1];
        forall i | 0 <= i < |fs| && fs[i] == [HASH] ensures i == |fs| - 1 {
          if i > 0 { assert fs[1..][i - 1] == fs[i]; }
        }
      }
    }
  }

  predicate WellFormedAt(fs: seq<bytes>, i: nat)
    requires i < |fs|
  {
    Wildless(fs[i]) || fs[i] == [PLUS] || (fs[i] == [HASH] && i == |fs| - 1)
  }

  // ----- the walk -----

  // What is left to do when the two pointers of isTopicMatched stand at f and t.
  predicate Walk(f: bytes, t: bytes)
    decreases |f|
  {
    if f == [] || t == [] then f == [] && t == []
    else if t[0] == SLASH && f[0] != SLASH then false
    else if !IsWild(f[0]) && f[0] != t[0] then false
    else if f[0] == PLUS then Walk(f[1..], t[Span(t)..])
    else if f[0] == HASH then f[1..] == []
    else Walk(f[1..], t[1..])
  }

  // isTopicMatched
  method IsTopicMatched(filter: bytes, topic: bytes) returns (r: bool)
    requires NulFree(filter)
    ensures r == Walk(filter, topic)
  {
    hide Span;
    var end := |topic|;
    var f: nat, n: nat := 0, 0;
    while f < |filter| && n < end
      invariant f <= |filter| && n <= end
      invariant Walk(filter[f..], topic[n..]) == Walk(filter, topic)
      decreases |filter| - f
    {
      assert filter[f..][1..] == filter[f + 1..] && topic[n..][1..] == topic[n + 1..];
      if topic[n] == SLASH && filter[f] != SLASH { break; }
      if filter[f] != PLUS && filter[f] != HASH && filter[f] != topic[n] { break; }
      if filter[f] == PLUS {
        n := LevelEnd(topic, n);
      } else if filter[f] == HASH {
        n := end - 1;
      }
      f := f + 1;
      n := n + 1;
    }
    r := n == end && f == |filter|;
  }

  // The last byte of the level that n stands in.
  method LevelEnd(topic: bytes, n: nat) returns (m: nat)
    requires n < |topic| && topic[n] != SLASH
    ensures n <= m < |topic|
    ensures topic[m + 1..] == topic[n..][Span(topic[n..])..]
  {
    m := n;
    var next: nat := n + 1;
    while next < |topic| && topic[next] != SLASH
      invariant n <= m < |topic| && next == m + 1
      invariant forall k | n <= k <= m :: topic[k] != SLASH
    {
      m := m + 1;
      next := m + 1;
    }
    SpanIs(topic[n..], m + 1 - n);
  }

  lemma {:induction false} SpanIs(s: bytes, n: nat)
    requires n <= |s| && (n < |s| ==> s[n] == SLASH) && forall i | 0 <= i < n :: s[i] != SLASH
    ensures Span(s) == n
  {
    if n > 0 {
      assert s[1..] == s[1..];
      SpanIs(s[1..], n - 1);
    }
  }

  // ----- the walk goes level by level -----

  lemma {:induction false} WalkLiteral(level: bytes, f: bytes, t: bytes)
    requires Wildless(level) && (forall i | 0 <= i < |level| :: level[i] != SLASH)
    requires f == [] || f[0] == SLASH
    ensures Walk(level + f, t) <==> t[..Span(t)] == level && Walk(f, t[Span(t)..])
  {
    if level == [] {
      assert level + f == f;
      if Span(t) == 0 { assert t[0..] == t && t[..0] == []; }
    } else {
      assert (level + f)[1..] == level[1..] + f;
      if t != [] && t[0] == level[0] {
        WalkLiteral(level[1..], f, t[1..]);
        assert t[..Span(t)] == [t[0]] + t[1..][..Span(t[1..])];
        assert level == [level[0]] + level[1..];
        assert t[Span(t)..] == t[1..][Span(t[1..])..];
      } else if t != [] && t[0] != SLASH {
        assert t[..Span(t)][0] == t[0];
      }
    }
  }

  lemma Separator(f: bytes, t: bytes)
    requires f == [] || f[0] == SLASH
    requires t == [] || t[0] == SLASH
    ensures Walk(f, t) <==> (f == [] && t == []) || (f != [] && t != [] && Walk(f[1..], t[1..]))
  {
  }

  lemma LastLevel(s: bytes)
    requires Span(s) == |s|
    ensures Levels(s) == [s] && s[..Span(s)] == s && s[Span(s)..] == []
  {
    hide Span;
  }

  lemma NextLevel(s: bytes)
    requires Span(s) < |s|
    ensures var rest := s[Span(s)..]; rest != [] && rest[0] == SLASH && rest[1..] == s[Span(s) + 1..]
    ensures Levels(s) == [s[..Span(s)]] + Levels(s[Span(s) + 1..])
    ensures |Levels(s)| > 1 && Levels(s)[0] == s[..Span(s)] && Levels(s)[1..] == Levels(s[Span(s) + 1..])
  {
    hide Span;
    var x, y := [s[..Span(s)]], Levels(s[Span(s) + 1..]);
    assert (x + y)[1..] == y;
  }

  // For every filter as the standard wants it and every topic, the walk of the two pointers decides the
  // match of their levels.
  lemma {:induction false} WalkMatches(f: bytes, t: bytes)
    requires WellFormed(Levels(f))
    ensures Walk(f, t) <==> Matches(Levels(f), Levels(t))
    decreases |f|
  {
    hide Span, Levels, Walk, Matches, WellFormed;
    var a, b := f[..Span(f)], f[Span(f)..];
    var c, d := t[..Span(t)], t[Span(t)..];
    var fs, ts := Levels(f), Levels(t);
    assert f == a + b;
    FirstWellFormed(fs);
    if Span(f) == |f| { LastLevel(f); } else { NextLevel(f); TailWellFormed(fs); }
    if Span(t) == |t| { LastLevel(t); } else { NextLevel(t); }
    if Span(f) < |f| && Span(t) < |t| { WalkMatches(f[Span(f) + 1..], t[Span(t) + 1..]); }
    Separator(b, d);
    Tails(fs, ts);
    MatchesStep(fs, ts);
    if a == [HASH] {
      WalkHash(f, t);
    } else if a == [PLUS] {
      WalkPlus(b, t);
    } else {
      WalkLiteral(a, b, t);
    }
  }

  lemma FirstWellFormed(fs: seq<bytes>)
    requires fs != [] && WellFormed(fs)
    ensures WellFormedAt(fs, 0) && (fs[0] == [HASH] ==> |fs| == 1)
  {
    if fs[0] == [HASH] { assert IsWild(fs[0][0]); }
  }

  lemma MatchesStep(fs: seq<bytes>, ts: seq<bytes>)
    requires fs != [] && ts != []
    ensures Matches(fs, ts) <==>
            if fs[0] == [HASH] then ts[0] != []
            else (if fs[0] == [PLUS] then ts[0] != [] else fs[0] == ts[0]) && Matches(fs[1..], ts[1..])
  {
  }

  // So the walk reports exactly the matches of the standard in which every wildcard is covered.
  lemma WalkIff(f: bytes, t: bytes)
    requires WellFormed(Levels(f))
    ensures Walk(f, t) <==> MatchesStandard(Levels(f), Levels(t)) && Covered(Levels(f), Levels(t))
  {
    hide Walk, Levels, Matches, MatchesStandard, Covered, WellFormed;
    WalkMatches(f, t);
    StandardIff(Levels(f), Levels(t));
  }

  // Both lists of levels end here, or neither does, or they cannot match.
  lemma Tails(fs: seq<bytes>, ts: seq<bytes>)
    requires fs != [] && ts != []
    ensures |fs| == 1 && |ts| == 1 ==> Matches(fs[1..], ts[1..])
    ensures (|fs| == 1) != (|ts| == 1) ==> !Matches(fs[1..], ts[1..])
  {
  }

  lemma TailWellFormed(fs: seq<bytes>)
    requires fs != [] && WellFormed(fs)
    ensures WellFormed(fs[1..])
  {
    assert forall i | 0 <= i < |fs| - 1 :: fs[1..][i] == fs[i + 1];
  }

  lemma WalkHash(f: bytes, t: bytes)
    requires f == [HASH]
    ensures Walk(f, t) <==> t[..Span(t)] != []
  {
    if t != [] && t[0] != SLASH { assert Span(t) > 0; }
  }

  lemma WalkPlus(b: bytes, t: bytes)
    requires b == [] || b[0] == SLASH
    ensures Walk([PLUS] + b, t) <==> t[..Span(t)] != [] && Walk(b, t[Span(t)..])
  {
    assert ([PLUS] + b)[1..] == b;
    if t != [] && t[0] != SLASH { assert Span(t) > 0; }
  }

  // A match that the standard has and the walk has not, for each of the two reasons.
  lemma NotAllOfTheStandard()
    ensures MatchesStandard([[97], [HASH]], [[97]]) && !Matches([[97], [HASH]], [[97]])
    ensures MatchesStandard([[97], [PLUS]], [[97], []]) && !Matches([[97], [PLUS]], [[97], []])
  {
    assert MatchesStandard([[HASH]], []);
    assert MatchesStandard([[PLUS]], [[]]);
    assert !Matches([[HASH]], []) && !Matches([[PLUS]], [[]]);
  }
}
