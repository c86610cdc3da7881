// The three lists on which ezxml threads the sub tags of a tag.
module XmlIndex {
  import opened Bytes
  import opened Sequences

  class Tag {
    const name: bytes
    var off: nat
    var child: Tag?
    var parent: Tag?
    var ordered: Tag?
    var sibling: Tag?
    var next: Tag?

    constructor (name: bytes)
      ensures this.name == name && off == 0
      ensures child == null && parent == null && ordered == null && sibling == null && next == null
    {
      this.name := name;
      off := 0;
      child, parent, ordered, sibling, next := null, null, null, null, null;
    }
  }

  function Nth(s: seq<Tag>, i: nat): Tag? {
    if i < |s| then s[i] else null
  }

  // ----- chains -----

  ghost predicate OrderedChain(s: seq<Tag>)
    reads (set t | t in s)`ordered
  {
    forall i | 0 <= i < |s| :: s[i].ordered == Nth(s, i + 1)
  }

  ghost predicate SiblingChain(s: seq<Tag>)
    reads (set t | t in s)`sibling
  {
    forall i | 0 <= i < |s| :: s[i].sibling == Nth(s, i + 1)
  }

  ghost predicate NextChain(s: seq<Tag>)
    reads (set t | t in s)`next
  {
    forall i | 0 <= i < |s| :: s[i].next == Nth(s, i + 1)
  }

  ghost predicate Sorted(s: seq<Tag>)
    reads (set t | t in s)`off
  {
    forall i, j | 0 <= i < j < |s| :: s[i].off <= s[j].off
  }

  // k of the tags are at or before off.
  ghost predicate Split(s: seq<Tag>, k: nat, off: nat)
    reads (set t | t in s)`off
  {
    && k <= |s|
    && (forall i | 0 <= i < k :: s[i].off <= off)
    && (forall i | k <= i < |s| :: s[i].off > off)
  }

  // ----- what the lists are meant to hold -----

  // Tags of one name, in document order.
  function Named(s: seq<Tag>, name: bytes): (r: seq<Tag>)
    ensures forall t | t in r :: t in s && t.name == name
  {
    if s == [] then []
    else if s[0].name == name then [s[0]] + Named(s[1..], name)
    else Named(s[1..], name)
  }

  // The first tag of each name that is not in seen.
  function FirstsFrom(seen: set<bytes>, s: seq<Tag>): (r: seq<Tag>)
    ensures forall t | t in r :: t in s && t.name !in seen
    decreases s
  {
    if s == [] then []
    else if s[0].name in seen then FirstsFrom(seen, s[1..])
    else [s[0]] + FirstsFrom(seen + {s[0].name}, s[1..])
  }

  function Firsts(s: seq<Tag>): (r: seq<Tag>)
    ensures forall t | t in r :: t in s
  {
    FirstsFrom({}, s)
  }

  // kids is the document order of the sub tags of dest, ordered lists them all, next lists those of each
  // name, and sibs is the list along sibling.
  ghost predicate Threaded(dest: Tag, kids: seq<Tag>, sibs: seq<Tag>)
    reads dest, set t | t in kids
  {
    && Distinct(kids) && dest !in kids
    && Sorted(kids)
    && dest.child == Nth(kids, 0)
    && OrderedChain(kids)
    && NextIndex(kids)
    && Siblings(kids, sibs)
  }

  // The list along sibling starts with the first sub tag, is in the order of offsets, and the first tag of
  // each name on it is the first of that name in the document. Tags that were first once may stand behind.
  ghost predicate Siblings(kids: seq<Tag>, sibs: seq<Tag>)
    reads (set t | t in kids)`off, (set t | t in kids)`sibling
  {
    && (forall t | t in sibs :: t in kids)
    && Distinct(sibs) && Sorted(sibs) && SiblingChain(sibs)
    && Nth(sibs, 0) == Nth(kids, 0)
    && SameFirsts(kids, sibs)
  }

  ghost predicate SameFirsts(kids: seq<Tag>, sibs: seq<Tag>) {
    forall name :: Nth(Named(sibs, name), 0) == Nth(Named(kids, name), 0)
  }

  // A name occurs twice.
  ghost predicate Repeated(s: seq<Tag>) {
    exists t, u :: t in s && u in s && t != u && t.name == u.name
  }

  ghost predicate NextIndex(kids: seq<Tag>)
    reads (set t | t in kids)`next
  {
    forall name :: NamedChain(kids, name)
  }

  ghost predicate NamedChain(kids: seq<Tag>, name: bytes)
    reads (set t | t in kids)`next
  {
    assert forall t | t in Named(kids, name) :: t in kids;
    NextChain(Named(kids, name))
  }

  // ----- reading -----

  // ezxml_child
  method Child(dest: Tag, name: bytes, ghost kids: seq<Tag>, ghost sibs: seq<Tag>) returns (r: Tag?)
    requires Threaded(dest, kids, sibs)
    ensures r == Nth(Named(kids, name), 0)
  {
    hide Named;
    r := dest.child;
    ghost var i: nat := 0;
    while r != null && r.name != name
      invariant i <= |sibs| && r == Nth(sibs, i)
      invariant forall j | 0 <= j < i :: sibs[j].name != name
      decreases |sibs| - i
    {
      r := r.sibling;
      i := i + 1;
    }
    FirstNamed(sibs, i, name);
  }

  // ezxml_idx
  method Idx(t: Tag?, idx: nat, ghost s: seq<Tag>) returns (r: Tag?)
    requires NextChain(s) && t == Nth(s, 0)
    ensures r == Nth(s, idx)
  {
    r := t;
    var n := idx;
    ghost var i: nat := 0;
    while r != null && n > 0
      invariant i + n == idx && i <= |s| && r == Nth(s, i)
    {
      r := r.next;
      n := n - 1;
      i := i + 1;
    }
  }

  lemma {:induction false} FirstNamed(s: seq<Tag>, i: nat, name: bytes)
    requires i <= |s| && (forall j | 0 <= j < i :: s[j].name != name) && (i < |s| ==> s[i].name == name)
    ensures Nth(Named(s, name), 0) == Nth(s, i)
  {
    if i > 0 { FirstNamed(s[1..], i - 1, name); }
  }

  // No name occurs twice among first tags.
  lemma {:induction false} FirstsUnrepeated(seen: set<bytes>, s: seq<Tag>)
    ensures !Repeated(FirstsFrom(seen, s))
    decreases s
  {
    if s != [] {
      if s[0].name in seen {
        FirstsUnrepeated(seen, s[1..]);
      } else {
        FirstsUnrepeated(seen + {s[0].name}, s[1..]);
        var r := FirstsFrom(seen + {s[0].name}, s[1..]);
        forall t, u | t in [s[0]] + r && u in [s[0]] + r && t != u ensures t.name != u.name {}
      }
    }
  }

  lemma {:induction false} NoneNamed(s: seq<Tag>, seen: set<bytes>, name: bytes)
    requires name !in seen && forall t | t in FirstsFrom(seen, s) :: t.name != name
    ensures Named(s, name) == []
  {
    if s != [] {
      var f := FirstsFrom(seen, s);
      if s[0].name in seen {
        NoneNamed(s[1..], seen, name);
      } else {
        assert f[0] == s[0] && f[0] in f;
        assert forall t | t in f[1..] :: t in f;
        NoneNamed(s[1..], seen + {s[0].name}, name);
      }
    }
  }

  // ----- inserting: the sequences -----

  function Names(s: seq<Tag>): set<bytes> {
    set t | t in s :: t.name
  }

  lemma {:induction false} NamedConcat(a: seq<Tag>, b: seq<Tag>, name: bytes)
    ensures Named(a + b, name) == Named(a, name) + Named(b, name)
  {
    if a == [] {
      assert a + b == b;
    } else {
      NamedConcat(a[1..], b, name);
      assert (a + b)[1..] == a[1..] + b;
    }
  }

  lemma {:induction false} FirstsConcat(seen: set<bytes>, a: seq<Tag>, b: seq<Tag>)
    ensures FirstsFrom(seen, a + b) == FirstsFrom(seen, a) + FirstsFrom(seen + Names(a), b)
    decreases a
  {
    if a == [] {
      assert a + b == b;
      assert seen + Names(a) == seen;
    } else {
      assert (a + b)[1..] == a[1..] + b;
      assert a == [a[0]] + a[1..];
      if a[0].name in seen {
        FirstsConcat(seen, a[1..], b);
        assert seen + Names(a[1..]) == seen + Names(a);
      } else {
        FirstsConcat(seen + {a[0].name}, a[1..], b);
        assert seen + {a[0].name} + Names(a[1..]) == seen + Names(a);
      }
    }
  }

  // Names already seen before the tags of s change nothing.
  lemma {:induction false} FirstsAbsent(seen: set<bytes>, s: seq<Tag>, name: bytes)
    requires name !in Names(s)
    ensures FirstsFrom(seen + {name}, s) == FirstsFrom(seen, s)
    decreases s
  {
    if s != [] {
      assert s == [s[0]] + s[1..];
      assert s[0].name in Names(s) && Names(s[1..]) <= Names(s);
      FirstsAbsent(seen, s[1..], name);
      FirstsAbsent(seen + {s[0].name}, s[1..], name);
      assert seen + {s[0].name} + {name} == seen + {name} + {s[0].name};
    }
  }

  // Marking a name as seen takes its first tag out.
  lemma {:induction false} FirstsRemove(seen: set<bytes>, s: seq<Tag>, i: nat)
    requires i < |FirstsFrom(seen, s)|
    ensures var f := FirstsFrom(seen, s);
            FirstsFrom(seen + {f[i].name}, s) == f[..i] + f[i + 1..]
    decreases s
  {
    var f := FirstsFrom(seen, s);
    var name := f[i].name;
    if s[0].name in seen {
      FirstsRemove(seen, s[1..], i);
    } else if i == 0 {
      assert f[..0] + f[1..] == FirstsFrom(seen + {name}, s[1..]);
    } else {
      var rest := FirstsFrom(seen + {s[0].name}, s[1..]);
      FirstsRemove(seen + {s[0].name}, s[1..], i - 1);
      assert rest[i - 1] in rest;
      assert seen + {s[0].name} + {name} == seen + {name} + {s[0].name};
      assert f[..i] + f[i + 1..] == [s[0]] + (rest[..i - 1] + rest[i..]);
    }
  }

  lemma FirstsSingle(seen: set<bytes>, x: Tag)
    ensures FirstsFrom(seen, [x]) == if x.name in seen then [] else [x]
  {
    assert [x][1..] == [];
  }

  lemma NamesAdd(a: seq<Tag>, x: Tag)
    ensures Names(a + [x]) == Names(a) + {x.name}
    ensures x.name in Names(a) ==> Names(a + [x]) == Names(a)
  {
    assert x in a + [x];
    forall t | t in a ensures t.name in Names(a + [x]) { assert t in a + [x]; }
  }

  lemma NamedSingle(x: Tag, name: bytes)
    ensures Named([x], name) == if x.name == name then [x] else []
  {
    assert [x][1..] == [];
  }

  lemma {:induction false} NamedKeeps(s: seq<Tag>, name: bytes)
    requires Distinct(s) && Sorted(s)
    ensures Distinct(Named(s, name)) && Sorted(Named(s, name))
  {
    if s != [] {
      NamedKeeps(s[1..], name);
      var r := Named(s[1..], name);
      forall i | 0 <= i < |r| ensures r[i] != s[0] && s[0].off <= r[i].off {
        assert r[i] in r;
        var j :| 0 <= j < |s[1..]| && s[1..][j] == r[i];
        assert s[j + 1] == r[i];
      }
    }
  }

  // ----- inserting: what the lists must become -----

  lemma SplitParts(s: seq<Tag>, k: nat, off: nat, r: seq<Tag>, m: nat, a: seq<Tag>, b: seq<Tag>)
    requires Split(s, k, off) && r == a + b
    requires (forall t | t in a :: t in s[..k]) && forall t | t in b :: t in s[k..]
    requires Split(r, m, off)
    ensures m == |a|
  {
    forall i | 0 <= i < |a| ensures r[i].off <= off {
      assert a[i] in a && r[i] == a[i];
      var j :| 0 <= j < k && s[j] == a[i];
    }
    forall i | |a| <= i < |r| ensures r[i].off > off {
      assert b[i - |a|] in b && r[i] == b[i - |a|];
      var j :| 0 <= j < |s[k..]| && s[k..][j] == r[i];
      assert s[k + j] == r[i];
    }
    var n := if m < |a| then m else |a|;
    if n < |r| { var t := r[n]; }
  }

  // The list of tags of one name.
  lemma NamedInserted(kids: seq<Tag>, k: nat, off: nat, x: Tag, m: nat)
    requires Split(kids, k, off) && Split(Named(kids, x.name), m, off)
    ensures Named(Inserted(kids, k, x), x.name) == Inserted(Named(kids, x.name), m, x)
  {
    var a, b := kids[..k], kids[k..];
    var na, nb := Named(a, x.name), Named(b, x.name);
    assert kids == a + b;
    NamedConcat(a, b, x.name);
    SplitParts(kids, k, off, Named(kids, x.name), m, na, nb);
    NamedConcat(a + [x], b, x.name);
    NamedConcat(a, [x], x.name);
    NamedSingle(x, x.name);
    hide Named;
    assert Named(kids, x.name)[..m] == na && Named(kids, x.name)[m..] == nb;
  }

  lemma NamedUntouched(kids: seq<Tag>, k: nat, x: Tag, name: bytes)
    requires k <= |kids| && name != x.name
    ensures Named(Inserted(kids, k, x), name) == Named(kids, name)
  {
    var a, b := kids[..k], kids[k..];
    assert kids == a + b;
    NamedConcat(a, b, name);
    NamedConcat(a + [x], b, name);
    NamedConcat(a, [x], name);
    NamedSingle(x, name);
    hide Named;
  }

  // The list of first tags when the name is already there before the new tag.
  lemma FirstsSame(kids: seq<Tag>, k: nat, x: Tag)
    requires k <= |kids| && x.name in Names(kids[..k])
    ensures Firsts(Inserted(kids, k, x)) == Firsts(kids)
  {
    hide FirstsFrom, Names;
    var a, b := kids[..k], kids[k..];
    assert kids == a + b;
    FirstsConcat({}, a, b);
    FirstsConcat({}, a + [x], b);
    FirstsConcat({}, a, [x]);
    FirstsSingle({} + Names(a), x);
    NamesAdd(a, x);
    assert FirstsFrom({}, a) + [] == FirstsFrom({}, a);
  }

  // The list of first tags when the new tag is the first of its name; j is the place of the tag
  // that was first before, or the length of the list.
  lemma FirstsInserted(kids: seq<Tag>, k: nat, off: nat, x: Tag, j: nat, r: seq<Tag>, m: nat)
    requires Split(kids, k, off) && x.name !in Names(kids[..k])
    requires j <= |Firsts(kids)| && forall i | 0 <= i < j :: Firsts(kids)[i].name != x.name
    requires j < |Firsts(kids)| ==> Firsts(kids)[j].name == x.name
    requires r == if j < |Firsts(kids)| then Firsts(kids)[..j] + Firsts(kids)[j + 1..] else Firsts(kids)
    requires Split(r, m, off)
    ensures Firsts(Inserted(kids, k, x)) == Inserted(r, m, x)
  {
    hide FirstsFrom, Named;
    var a, b := kids[..k], kids[k..];
    var fa, fb, rest := FirstsFrom({}, a), FirstsFrom(Names(a), b), FirstsFrom(Names(a) + {x.name}, b);
    assert kids == a + b && {} + Names(a) == Names(a);
    FirstsConcat({}, a, b);
    FirstsOfNew(a, b, x);
    WithoutFirst(a, b, x.name, j);
    assert r == fa + rest;
    SplitParts(kids, k, off, r, m, fa, rest);
    assert Inserted(r, m, x) == fa + [x] + rest;
  }

  // Taking the first tag of a name out of the list is the same as having seen the name.
  lemma WithoutFirst(a: seq<Tag>, b: seq<Tag>, name: bytes, j: nat)
    requires name !in Names(a)
    requires var f := FirstsFrom({}, a) + FirstsFrom(Names(a), b);
             && f == Firsts(a + b)
             && j <= |f| && (forall i | 0 <= i < j :: f[i].name != name) && (j < |f| ==> f[j].name == name)
    ensures var f := Firsts(a + b);
            (if j < |f| then f[..j] + f[j + 1..] else f) == FirstsFrom({}, a) + FirstsFrom(Names(a) + {name}, b)
  {
    hide FirstsFrom, Named;
    var fa, fb := FirstsFrom({}, a), FirstsFrom(Names(a), b);
    var f := Firsts(a + b);
    forall i | 0 <= i < |fa| ensures fa[i].name != name {
      assert fa[i] in fa;
      assert fa[i].name in Names(a);
    }
    if j < |f| {
      assert j >= |fa|;
      FirstsRemove(Names(a), b, j - |fa|);
    } else {
      NoneNamed(a + b, {}, name);
      NamedConcat(a, b, name);
      AbsentNamed(b, name);
      FirstsAbsent(Names(a), b, name);
    }
  }

  lemma FirstsOfNew(a: seq<Tag>, b: seq<Tag>, x: Tag)
    requires x.name !in Names(a)
    ensures FirstsFrom({}, a + [x] + b) == FirstsFrom({}, a) + [x] + FirstsFrom(Names(a) + {x.name}, b)
  {
    hide FirstsFrom, Names;
    FirstsConcat({}, a + [x], b);
    FirstsConcat({}, a, [x]);
    assert {} + Names(a) == Names(a);
    FirstsSingle(Names(a), x);
    NamesAdd(a, x);
    assert {} + Names(a + [x]) == Names(a) + {x.name};
  }

  lemma {:induction false} AbsentNamed(s: seq<Tag>, name: bytes)
    requires Named(s, name) == []
    ensures name !in Names(s)
  {
    if s != [] {
      AbsentNamed(s[1..], name);
      assert s == [s[0]] + s[1..];
    }
  }

  // ----- inserting: the links -----

  lemma SplitRest(s: seq<Tag>, k: nat, off: nat)
    requires Sorted(s) && k <= |s| && (forall i | 0 <= i < k :: s[i].off <= off) && (k < |s| ==> s[k].off > off)
    ensures Split(s, k, off)
  {
    forall i | k <= i < |s| ensures s[i].off > off {
      if i > k { assert s[k].off <= s[i].off; }
    }
  }

  lemma SplitAll(s: seq<Tag>, off: nat)
    requires Sorted(s) && s != [] && s[0].off > off
    ensures Split(s, 0, off)
  {
    SplitRest(s, 0, off);
  }

  // The last tag at or before off.
  method WalkOrdered(first: Tag, off: nat, ghost s: seq<Tag>) returns (cur: Tag, ghost k: nat)
    requires Sorted(s) && OrderedChain(s) && first == Nth(s, 0) && first.off <= off
    ensures 0 < k <= |s| && cur == s[k - 1] && Split(s, k, off)
  {
    hide Sorted;
    cur, k := first, 1;
    while cur.ordered != null && cur.ordered.off <= off
      invariant 0 < k <= |s| && cur == s[k - 1]
      invariant forall i | 0 <= i < k :: s[i].off <= off
      decreases |s| - k
    {
      cur := cur.ordered;
      k := k + 1;
    }
    SplitRest(s, k, off);
  }

  method LinkOrdered(x: Tag, prev: Tag, ghost s: seq<Tag>, ghost k: nat)
    requires Distinct(s) && x !in s && OrderedChain(s) && 0 < k <= |s| && prev == s[k - 1]
    modifies x`ordered, prev`ordered
    ensures OrderedChain(Inserted(s, k, x))
  {
    x.ordered := prev.ordered;
    prev.ordered := x;
    ghost var t := Inserted(s, k, x);
    forall i | 0 <= i < |t| ensures t[i].ordered == Nth(t, i + 1) {
      if i < k {
        assert t[i] == s[i];
      } else if i > k {
        assert t[i] == s[i - 1];
      }
    }
  }

  method LinkOrderedFirst(x: Tag, head: Tag?, ghost s: seq<Tag>)
    requires x !in s && OrderedChain(s) && head == Nth(s, 0)
    modifies x`ordered
    ensures OrderedChain(Inserted(s, 0, x))
  {
    x.ordered := head;
    ghost var t := Inserted(s, 0, x);
    forall i | 0 <= i < |t| ensures t[i].ordered == Nth(t, i + 1) {
      if i > 0 { assert t[i] == s[i - 1]; }
    }
  }

  // The last tag at or before off.
  method WalkNext(first: Tag, off: nat, ghost s: seq<Tag>) returns (cur: Tag, ghost k: nat)
    requires Sorted(s) && NextChain(s) && first == Nth(s, 0) && first.off <= off
    ensures 0 < k <= |s| && cur == s[k - 1] && Split(s, k, off)
  {
    hide Sorted;
    cur, k := first, 1;
    while cur.next != null && cur.next.off <= off
      invariant 0 < k <= |s| && cur == s[k - 1]
      invariant forall i | 0 <= i < k :: s[i].off <= off
      decreases |s| - k
    {
      cur := cur.next;
      k := k + 1;
    }
    SplitRest(s, k, off);
  }

  method LinkNext(x: Tag, prev: Tag, ghost s: seq<Tag>, ghost k: nat)
    requires Distinct(s) && x !in s && NextChain(s) && 0 < k <= |s| && prev == s[k - 1]
    modifies x`next, prev`next
    ensures NextChain(Inserted(s, k, x))
  {
    x.next := prev.next;
    prev.next := x;
    ghost var t := Inserted(s, k, x);
    forall i | 0 <= i < |t| ensures t[i].next == Nth(t, i + 1) {
      if i < k {
        assert t[i] == s[i];
      } else if i > k {
        assert t[i] == s[i - 1];
      }
    }
  }

  method LinkNextFirst(x: Tag, head: Tag?, ghost s: seq<Tag>)
    requires x !in s && NextChain(s) && head == Nth(s, 0)
    modifies x`next
    ensures NextChain(Inserted(s, 0, x))
  {
    x.next := head;
    ghost var t := Inserted(s, 0, x);
    forall i | 0 <= i < |t| ensures t[i].next == Nth(t, i + 1) {
      if i > 0 { assert t[i] == s[i - 1]; }
    }
  }

  // The last tag at or before off.
  method WalkSibling(first: Tag, off: nat, ghost s: seq<Tag>) returns (cur: Tag, ghost k: nat)
    requires Sorted(s) && SiblingChain(s) && first == Nth(s, 0) && first.off <= off
    ensures 0 < k <= |s| && cur == s[k - 1] && Split(s, k, off)
  {
    hide Sorted;
    cur, k := first, 1;
    while cur.sibling != null && cur.sibling.off <= off
      invariant 0 < k <= |s| && cur == s[k - 1]
      invariant forall i | 0 <= i < k :: s[i].off <= off
      decreases |s| - k
    {
      cur := cur.sibling;
      k := k + 1;
    }
    SplitRest(s, k, off);
  }

  method LinkSibling(x: Tag, prev: Tag, ghost s: seq<Tag>, ghost k: nat)
    requires Distinct(s) && x !in s && SiblingChain(s) && 0 < k <= |s| && prev == s[k - 1]
    modifies x`sibling, prev`sibling
    ensures SiblingChain(Inserted(s, k, x))
  {
    x.sibling := prev.sibling;
    prev.sibling := x;
    ghost var t := Inserted(s, k, x);
    forall i | 0 <= i < |t| ensures t[i].sibling == Nth(t, i + 1) {
      if i < k {
        assert t[i] == s[i];
      } else if i > k {
        assert t[i] == s[i - 1];
      }
    }
  }

  method LinkSiblingFirst(x: Tag, head: Tag?, ghost s: seq<Tag>)
    requires x !in s && SiblingChain(s) && head == Nth(s, 0)
    modifies x`sibling
    ensures SiblingChain(Inserted(s, 0, x))
  {
    x.sibling := head;
    ghost var t := Inserted(s, 0, x);
    forall i | 0 <= i < |t| ensures t[i].sibling == Nth(t, i + 1) {
      if i > 0 { assert t[i] == s[i - 1]; }
    }
  }

  // The first tag of x's name on the list of first tags, and the tag before it.
  method FindKind(name: bytes, head: Tag, ghost s: seq<Tag>) returns (cur: Tag?, prev: Tag?, ghost j: nat)
    requires SiblingChain(s) && head == Nth(s, 0)
    ensures j <= |s| && cur == Nth(s, j) && prev == if j == 0 then null else s[j - 1]
    ensures forall i | 0 <= i < j :: s[i].name != name
    ensures j < |s| ==> s[j].name == name
  {
    cur, prev, j := head, null, 0;
    while cur != null && cur.name != name
      invariant j <= |s| && cur == Nth(s, j) && prev == if j == 0 then null else s[j - 1]
      invariant forall i | 0 <= i < j :: s[i].name != name
      decreases |s| - j
    {
      prev := cur;
      cur := cur.sibling;
      j := j + 1;
    }
  }

  // The new tag joins the tags of its name behind one that is already there.
  method JoinKind(x: Tag, first: Tag, off: nat, ghost kids: seq<Tag>, ghost k: nat)
    requires Distinct(kids) && Sorted(kids) && x !in kids && Split(kids, k, off)
    requires first == Nth(Named(kids, x.name), 0) && first.off <= off
    requires NextIndex(kids)
    modifies x`next, (set t | t in kids)`next
    ensures NextIndex(Inserted(kids, k, x))
  {
    hide Named, Inserted;
    ghost var s := Named(kids, x.name);
    NamedKeeps(kids, x.name);
    assert NamedChain(kids, x.name);
    var prev, m := WalkNext(first, off, s);
    assert prev in s;
    LinkNext(x, prev, s, m);
    NamedInserted(kids, k, off, x, m);
    forall name ensures NamedChain(Inserted(kids, k, x), name) {
      if name != x.name {
        NamedUntouched(kids, k, x, name);
        assert prev !in Named(kids, name) && x !in Named(kids, name);
        assert old(NamedChain(kids, name));
      }
    }
  }

  // The new tag comes before all tags of its name.
  method LeadKind(x: Tag, cur: Tag?, off: nat, ghost kids: seq<Tag>, ghost k: nat)
    requires Distinct(kids) && Sorted(kids) && x !in kids && Split(kids, k, off)
    requires cur == Nth(Named(kids, x.name), 0) && (cur != null ==> cur.off > off)
    requires NextIndex(kids)
    modifies x`next
    ensures NextIndex(Inserted(kids, k, x))
  {
    hide Named, Inserted;
    ghost var s := Named(kids, x.name);
    NamedKeeps(kids, x.name);
    assert NamedChain(kids, x.name);
    LinkNextFirst(x, cur, s);
    SplitRest(s, 0, off);
    NamedInserted(kids, k, off, x, 0);
    forall name ensures NamedChain(Inserted(kids, k, x), name) {
      if name != x.name {
        NamedUntouched(kids, k, x, name);
        assert x !in Named(kids, name);
        assert old(NamedChain(kids, name));
      }
    }
  }

  function Without(s: seq<Tag>, j: nat): seq<Tag>
    requires j <= |s|
  {
    if j < |s| then Removed(s, j) else s
  }

  lemma WithoutKeeps(s: seq<Tag>, j: nat)
    requires j <= |s| && Distinct(s) && Sorted(s)
    ensures Distinct(Without(s, j)) && Sorted(Without(s, j))
  {
    var t := Without(s, j);
    forall a, b | 0 <= a < b < |t| ensures t[a] != t[b] && t[a].off <= t[b].off {
      var c := if a < j then a else a + 1;
      var d := if b < j then b else b + 1;
      if j < |s| {
        assert t[a] == s[c] && t[b] == s[d];
      }
    }
  }

  method Unlink(prev: Tag, cur: Tag, ghost s: seq<Tag>, ghost j: nat)
    requires 0 < j < |s| && Distinct(s) && SiblingChain(s) && prev == s[j - 1] && cur == s[j]
    modifies prev`sibling
    ensures SiblingChain(Without(s, j))
  {
    prev.sibling := cur.sibling;
    ghost var t := Without(s, j);
    forall i | 0 <= i < |t| ensures t[i].sibling == Nth(t, i + 1) {
      if i < j {
        assert t[i] == s[i];
      } else {
        assert t[i] == s[i + 1];
      }
    }
  }

  // The list of first tags, s, gets the new first tag x of a name; cur is the one it displaces, at
  // place j. Only when that is the head of the list does it stay where it was.
  method LeadSibling(x: Tag, head: Tag, cur: Tag?, prev: Tag?, off: nat, ghost s: seq<Tag>, ghost j: nat)
    returns (ghost r: seq<Tag>, ghost m: nat)
    requires Distinct(s) && Sorted(s) && x !in s && SiblingChain(s) && head == Nth(s, 0)
    requires j <= |s| && cur == Nth(s, j) && prev == if j == 0 then null else s[j - 1]
    modifies x`sibling, (set t | t in s)`sibling
    ensures r == if j == 0 then s else Without(s, j)
    ensures Split(r, m, off) && SiblingChain(Inserted(r, m, x))
  {
    hide Without, Inserted, Sorted, Distinct, Split, SiblingChain;
    WithoutKeeps(s, j);
    WithoutMembers(s, j);
    r := s;
    if prev != null && cur != null {
      Unlink(prev, cur, s, j);
      r := Without(s, j);
    }
    if head.off <= off {
      var last, k := WalkSibling(head, off, r);
      m := k;
      assert last in r;
      LinkSibling(x, last, r, m);
    } else {
      m := 0;
      SplitAll(r, off);
      LinkSiblingFirst(x, head, r);
    }
  }

  lemma WithoutMembers(s: seq<Tag>, j: nat)
    requires j <= |s|
    ensures forall t | t in Without(s, j) :: t in s
    ensures 0 < j ==> Nth(Without(s, j), 0) == Nth(s, 0)
    ensures j == |s| ==> Without(s, j) == s
  {
  }

  // ----- ezxml_insert -----

  // The new tag comes before a first tag of its own name.
  ghost predicate Displaces(name: bytes, off: nat, kids: seq<Tag>)
    reads (set t | t in kids)`off
  {
    kids != [] && kids[0].name == name && kids[0].off > off
  }

  lemma InsertedKeeps(kids: seq<Tag>, k: nat, x: Tag)
    requires Distinct(kids) && Sorted(kids) && x !in kids && Split(kids, k, x.off)
    ensures Distinct(Inserted(kids, k, x)) && Sorted(Inserted(kids, k, x))
  {
    var t := Inserted(kids, k, x);
    forall a, b | 0 <= a < b < |t| ensures t[a] != t[b] && t[a].off <= t[b].off {
      if a < k {
        assert t[a] == kids[a];
      } else if a > k {
        assert t[a] == kids[a - 1];
      }
      if b < k {
        assert t[b] == kids[b];
      } else if b > k {
        assert t[b] == kids[b - 1];
      }
    }
  }

  // Whether the name occurs before off shows in the first tag of that name.
  lemma NameBefore(kids: seq<Tag>, k: nat, off: nat, name: bytes)
    requires Split(kids, k, off)
    ensures var cur := Nth(Named(kids, name), 0);
            name in Names(kids[..k]) <==> cur != null && cur.off <= off
  {
    var a, b := kids[..k], kids[k..];
    assert kids == a + b;
    NamedConcat(a, b, name);
    if Named(a, name) == [] { AbsentNamed(a, name); } else { PresentNamed(a, name); }
    hide Names, Named, Split;
    var all, na, nb := Named(kids, name), Named(a, name), Named(b, name);
    assert all == na + nb;
    if na != [] {
      assert all[0] == na[0] && na[0] in na;
    } else if nb != [] {
      assert all[0] == nb[0] && nb[0] in nb;
    }
  }

  lemma PresentNamed(s: seq<Tag>, name: bytes)
    requires Named(s, name) != []
    ensures name in Names(s)
  {
    var t := Named(s, name)[0];
    assert t in Named(s, name);
  }

  // The list along sibling with the new first tag of a name in it.
  lemma LeadFirsts(kids: seq<Tag>, k: nat, off: nat, x: Tag, sibs: seq<Tag>, j: nat, r: seq<Tag>, m: nat)
    requires Split(kids, k, off) && Sorted(sibs) && SameFirsts(kids, sibs)
    requires j <= |sibs| && (forall i | 0 <= i < j :: sibs[i].name != x.name) && (j < |sibs| ==> sibs[j].name == x.name)
    requires j < |sibs| ==> sibs[j].off > off
    requires r == (if j == 0 then sibs else Without(sibs, j)) && Split(r, m, off)
    ensures SameFirsts(Inserted(kids, k, x), Inserted(r, m, x))
  {
    hide Named, Split, Sorted, Inserted, Without;
    FirstNamed(sibs, j, x.name);
    WithoutMembers(sibs, j);
    SplitBound(kids, k, off);
    SplitBound(r, m, off);
    forall name ensures Nth(Named(Inserted(r, m, x), name), 0) == Nth(Named(Inserted(kids, k, x), name), 0) {
      if name == x.name {
        LeadsNamed(kids, k, off, x, Nth(sibs, j));
        AllLater(sibs, r, j, off, x.name);
        LeadsAll(r, m, off, x);
      } else {
        NamedUntouched(kids, k, x, name);
        NamedUntouched(r, m, x, name);
        WithoutNamed(sibs, j, name);
      }
    }
  }

  lemma LeadsNamed(kids: seq<Tag>, k: nat, off: nat, x: Tag, first: Tag?)
    requires Split(kids, k, off) && first == Nth(Named(kids, x.name), 0) && (first != null ==> first.off > off)
    ensures Nth(Named(Inserted(kids, k, x), x.name), 0) == x
  {
    var a, b := kids[..k], kids[k..];
    assert kids == a + b;
    NamedConcat(a, b, x.name);
    NamedConcat(a + [x], b, x.name);
    NamedConcat(a, [x], x.name);
    NamedSingle(x, x.name);
    NameBefore(kids, k, off, x.name);
    NamedNone(a, x.name);
    hide Named, Names;
  }

  lemma {:induction false} NamedNone(s: seq<Tag>, name: bytes)
    requires name !in Names(s)
    ensures Named(s, name) == []
  {
    if s != [] {
      assert s == [s[0]] + s[1..] && s[0].name in Names(s) && Names(s[1..]) <= Names(s);
      NamedNone(s[1..], name);
    }
  }

  lemma LeadsAll(r: seq<Tag>, m: nat, off: nat, x: Tag)
    requires Split(r, m, off) && forall t | t in r && t.name == x.name :: t.off > off
    ensures Nth(Named(Inserted(r, m, x), x.name), 0) == x
  {
    var n := Named(r, x.name);
    if n != [] { assert n[0] in n; }
    LeadsNamed(r, m, off, x, Nth(n, 0));
  }

  // All tags of that name on the list lie after off.
  lemma AllLater(s: seq<Tag>, r: seq<Tag>, j: nat, off: nat, name: bytes)
    requires Sorted(s) && (forall t | t in r :: t in s)
    requires j <= |s| && (forall i | 0 <= i < j :: s[i].name != name) && (j < |s| ==> s[j].off > off)
    ensures forall t | t in r && t.name == name :: t.off > off
  {
    forall t | t in r && t.name == name ensures t.off > off {
      var i :| 0 <= i < |s| && s[i] == t;
      if i > j { assert s[j].off <= s[i].off; }
    }
  }

  lemma WithoutNamed(s: seq<Tag>, j: nat, name: bytes)
    requires j <= |s| && (j < |s| ==> s[j].name != name)
    ensures Named(Without(s, j), name) == Named(s, name)
  {
    if j < |s| {
      var a, b := s[..j], s[j + 1..];
      assert s == a + [s[j]] + b;
      NamedConcat(a + [s[j]], b, name);
      NamedConcat(a, [s[j]], name);
      NamedSingle(s[j], name);
      NamedConcat(a, b, name);
      hide Named;
      assert Named(a, name) + [] == Named(a, name);
    }
  }

  // The list of first tags after the insertion is right unless a head of the same name was displaced.
  lemma LeadVerdict(kids: seq<Tag>, k: nat, off: nat, x: Tag, sibs: seq<Tag>, j: nat, r: seq<Tag>, m: nat)
    requires kids != [] && Split(kids, k, off) && x !in kids && x.name !in Names(kids[..k])
    requires (forall t | t in sibs :: t in kids) && Nth(sibs, 0) == kids[0]
    requires j <= |sibs| && (forall i | 0 <= i < j :: sibs[i].name != x.name) && (j < |sibs| ==> sibs[j].name == x.name)
    requires r == (if j == 0 then sibs else Without(sibs, j)) && Split(r, m, off)
    ensures sibs == Firsts(kids) && !Displaces(x.name, off, kids) ==> Inserted(r, m, x) == Firsts(Inserted(kids, k, x))
    ensures Displaces(x.name, off, kids) || Repeated(sibs) ==> Repeated(Inserted(r, m, x))
  {
    if sibs == Firsts(kids) && !Displaces(x.name, off, kids) {
      assert j > 0;
      FirstsInserted(kids, k, off, x, j, r, m);
    }
    hide Firsts, Split, Names;
    SplitBound(r, m, off);
    if Displaces(x.name, off, kids) || Repeated(sibs) { RepeatedStays(sibs, j, r, m, x); }
  }

  lemma RepeatedStays(sibs: seq<Tag>, j: nat, r: seq<Tag>, m: nat, x: Tag)
    requires x !in sibs && j <= |sibs| && m <= |r| && (j < |sibs| ==> sibs[j].name == x.name)
    requires r == (if j == 0 then sibs else Without(sibs, j))
    requires (j == 0 && sibs != []) || Repeated(sibs)
    ensures Repeated(Inserted(r, m, x))
  {
    var all := Inserted(r, m, x);
    assert all[m] == x;
    forall t | t in sibs && (j == 0 || j == |sibs| || t != sibs[j]) ensures t in all {
      InsertedHas(r, m, x, t) by { WithoutHas(sibs, j, t); }
    }
    if j == 0 && sibs != [] {
      assert x in all && sibs[0] in all && x != sibs[0];
    } else {
      var t, u :| t in sibs && u in sibs && t != u && t.name == u.name;
      if j < |sibs| && t == sibs[j] {
        assert x in all && u in all && x != u && x.name == u.name;
      } else if j < |sibs| && u == sibs[j] {
        assert x in all && t in all && x != t && x.name == t.name;
      } else {
        assert t in all && u in all;
      }
    }
  }

  lemma WithoutHas(s: seq<Tag>, j: nat, t: Tag)
    requires t in s && j <= |s| && (j == 0 || j == |s| || t != s[j])
    ensures t in if j == 0 then s else Without(s, j)
  {
    var i :| 0 <= i < |s| && s[i] == t;
    if 0 < j < |s| {
      assert Without(s, j)[if i < j then i else i - 1] == t;
    }
  }

  lemma InsertedHas(r: seq<Tag>, m: nat, x: Tag, t: Tag)
    requires m <= |r| && t in r
    ensures t in Inserted(r, m, x)
  {
    var i :| 0 <= i < |r| && r[i] == t;
    assert Inserted(r, m, x)[if i < m then i else i + 1] == t;
  }

  lemma SplitBound(s: seq<Tag>, k: nat, off: nat)
    requires Split(s, k, off)
    ensures k <= |s|
  {
  }

  // Threads x into the sub tags of dest, whatever was inserted before and in whatever order. Look-up by
  // name and number stays right. The list along sibling stays that of the first tags unless x displaces a
  // head of its own name; from then on it holds some name twice.
  method Insert(x: Tag, dest: Tag, off: nat, ghost kids: seq<Tag>, ghost sibs: seq<Tag>)
    returns (ghost k: nat, ghost after: seq<Tag>)
    requires Threaded(dest, kids, sibs) && x !in kids && x != dest
    modifies x, dest`child
    modifies (set t | t in kids)`ordered, (set t | t in kids)`sibling, (set t | t in kids)`next
    ensures x.off == off && x.parent == dest && Split(kids, k, off)
    ensures Threaded(dest, Inserted(kids, k, x), after)
    ensures sibs == Firsts(kids) && !Displaces(x.name, off, kids) ==> after == Firsts(Inserted(kids, k, x))
    ensures Displaces(x.name, off, kids) || Repeated(sibs) ==> Repeated(after)
  {
    hide Distinct, Sorted, Split, Siblings, NextIndex, OrderedChain, Firsts, Repeated;
    x.next, x.sibling, x.ordered := null, null, null;
    x.off := off;
    x.parent := dest;
    var head := dest.child;
    if head == null {
      dest.child := x;
      k, after := 0, [x];
      NothingSplit(off);
      OnlyTag(x, dest, sibs);
      assert kids == [] && Inserted(kids, k, x) == [x];
    } else {
      k := InsertOrdered(x, dest, head, off, kids);
      after := InsertKind(x, head, off, kids, k, sibs);
      InsertedKeeps(kids, k, x);
      assert dest !in Inserted(kids, k, x);
    }
  }

  lemma NothingSplit(off: nat)
    ensures Split([], 0, off)
  {
  }

  lemma OnlyTag(x: Tag, dest: Tag, sibs: seq<Tag>)
    requires x != dest && dest.child == x && x.ordered == null && x.sibling == null && x.next == null
    requires Siblings([], sibs)
    ensures Threaded(dest, [x], [x]) && [x] == Firsts([x]) && !Repeated(sibs)
  {
    FirstsSingle({}, x);
    forall name ensures NamedChain([x], name) { NamedSingle(x, name); }
    assert forall t | t in sibs :: false;
  }

  method InsertOrdered(x: Tag, dest: Tag, head: Tag, off: nat, ghost kids: seq<Tag>) returns (ghost k: nat)
    requires Distinct(kids) && Sorted(kids) && OrderedChain(kids) && x !in kids && dest !in kids && x != dest
    requires dest.child == head == Nth(kids, 0)
    modifies dest`child, x`ordered, (set t | t in kids)`ordered
    ensures k <= |kids| && Split(kids, k, off)
    ensures OrderedChain(Inserted(kids, k, x)) && dest.child == Nth(Inserted(kids, k, x), 0)
  {
    hide Distinct, Sorted, OrderedChain, Split;
    if head.off <= off {
      var prev, n := WalkOrdered(head, off, kids);
      k := n;
      LinkOrdered(x, prev, kids, k);
    } else {
      k := 0;
      SplitAll(kids, off);
      LinkOrderedFirst(x, head, kids);
      dest.child := x;
    }
  }

  method InsertKind(x: Tag, head: Tag, off: nat, ghost kids: seq<Tag>, ghost k: nat, ghost sibs: seq<Tag>)
    returns (ghost after: seq<Tag>)
    requires Distinct(kids) && Sorted(kids) && x !in kids && Split(kids, k, off) && head == Nth(kids, 0)
    requires x.off == off && Siblings(kids, sibs) && NextIndex(kids)
    modifies x`next, x`sibling, (set t | t in kids)`next, (set t | t in kids)`sibling
    ensures NextIndex(Inserted(kids, k, x)) && Siblings(Inserted(kids, k, x), after)
    ensures sibs == Firsts(kids) && !Displaces(x.name, off, kids) ==> after == Firsts(Inserted(kids, k, x))
    ensures Displaces(x.name, off, kids) || Repeated(sibs) ==> Repeated(after)
  {
    hide Named, Firsts, Names, Without, Inserted, Split, Sorted, Distinct, SiblingChain, NextIndex, SameFirsts;
    hide Repeated;
    SplitBound(kids, k, off);
    ghost var all := Inserted(kids, k, x);
    var cur, prev, j := FindKind(x.name, head, sibs);
    FindsFirst(kids, sibs, j, x.name);
    NameBefore(kids, k, off, x.name);
    if cur != null && cur.off <= off {
      JoinKind(x, cur, off, kids, k);
      after := sibs;
      FirstsSame(kids, k, x);
      JoinSiblings(kids, k, off, x, sibs);
    } else {
      LeadKind(x, cur, off, kids, k);
      assert NextIndex(all);
      var r, m := LeadSibling(x, head, cur, prev, off, sibs, j);
      assert NextIndex(all);
      SplitBound(r, m, off);
      after := Inserted(r, m, x);
      LeadFirsts(kids, k, off, x, sibs, j, r, m);
      LeadVerdict(kids, k, off, x, sibs, j, r, m);
      LeadOrder(kids, k, off, x, sibs, j, r, m);
    }
  }

  lemma FindsFirst(kids: seq<Tag>, sibs: seq<Tag>, j: nat, name: bytes)
    requires SameFirsts(kids, sibs)
    requires j <= |sibs| && (forall i | 0 <= i < j :: sibs[i].name != name) && (j < |sibs| ==> sibs[j].name == name)
    ensures Nth(Named(kids, name), 0) == Nth(sibs, j)
  {
    hide Named;
    FirstNamed(sibs, j, name);
  }

  lemma JoinSiblings(kids: seq<Tag>, k: nat, off: nat, x: Tag, sibs: seq<Tag>)
    requires Siblings(kids, sibs) && Sorted(kids) && Split(kids, k, off) && x.name in Names(kids[..k])
    ensures Siblings(Inserted(kids, k, x), sibs)
  {
    hide Named, Names, SiblingChain;
    var all := Inserted(kids, k, x);
    assert k > 0 by { if k == 0 { NoNames(kids[..k]); } }
    assert all[0] == kids[0];
    forall t | t in sibs ensures t in all { InsertedHas(kids, k, x, t); }
    forall name ensures Nth(Named(all, name), 0) == Nth(Named(kids, name), 0) {
      if name == x.name { JoinsNamed(kids, k, x); } else { NamedUntouched(kids, k, x, name); }
    }
  }

  lemma NoNames(s: seq<Tag>)
    ensures s == [] ==> Names(s) == {}
  {
  }

  lemma JoinsNamed(kids: seq<Tag>, k: nat, x: Tag)
    requires k <= |kids| && x.name in Names(kids[..k])
    ensures Nth(Named(Inserted(kids, k, x), x.name), 0) == Nth(Named(kids, x.name), 0)
  {
    var a, b := kids[..k], kids[k..];
    assert kids == a + b;
    NamedConcat(a, b, x.name);
    NamedConcat(a + [x], b, x.name);
    NamedConcat(a, [x], x.name);
    if Named(a, x.name) == [] { AbsentNamed(a, x.name); }
    hide Named, Names;
  }

  lemma LeadOrder(kids: seq<Tag>, k: nat, off: nat, x: Tag, sibs: seq<Tag>, j: nat, r: seq<Tag>, m: nat)
    requires kids != [] && x !in kids && Sorted(kids) && Split(kids, k, off) && x.off == off
    requires (forall t | t in sibs :: t in kids) && Distinct(sibs) && Sorted(sibs) && Nth(sibs, 0) == kids[0]
    requires j <= |sibs| && r == (if j == 0 then sibs else Without(sibs, j)) && Split(r, m, off)
    ensures var all, after := Inserted(kids, k, x), Inserted(r, m, x);
            && (forall t | t in after :: t in all)
            && Distinct(after) && Sorted(after) && Nth(after, 0) == Nth(all, 0)
  {
    WithoutKeeps(sibs, j);
    WithoutMembers(sibs, j);
    InsertedKeeps(r, m, x);
    var all, after := Inserted(kids, k, x), Inserted(r, m, x);
    forall t | t in after ensures t in all {
      if t == x { assert all[k] == x; } else { InsertedHas(kids, k, x, t); }
    }
    assert r[0] == kids[0];
    assert m == 0 <==> k == 0;
  }

  // ----- whole runs -----

  // ezxml_add_child
  method AddChild(dest: Tag, name: bytes, off: nat, ghost kids: seq<Tag>, ghost sibs: seq<Tag>)
    returns (x: Tag, ghost k: nat, ghost after: seq<Tag>)
    requires Threaded(dest, kids, sibs)
    modifies dest`child, (set t | t in kids)`ordered, (set t | t in kids)`sibling, (set t | t in kids)`next
    ensures fresh(x) && x.name == name && x.off == off && x.parent == dest && Split(kids, k, off)
    ensures Threaded(dest, Inserted(kids, k, x), after)
    ensures sibs == Firsts(kids) && !old(Displaces(name, off, kids)) ==> after == Firsts(Inserted(kids, k, x))
    ensures old(Displaces(name, off, kids)) || Repeated(sibs) ==> Repeated(after)
  {
    hide Threaded, Firsts, Repeated;
    x := new Tag(name);
    assert Threaded(dest, kids, sibs);
    k, after := Insert(x, dest, off, kids, sibs);
  }

  // Any number of sub tags at any offsets, in any order: they are listed in the order of their offsets, and
  // those at one offset in the order of their arrival; a look-up by name and number gives the n-th of that
  // name. The list along sibling is that of the first tags exactly when no arrival has displaced a head of
  // its own name.
  method AddAll(dest: Tag, names: seq<bytes>, offs: seq<nat>) returns (ghost kids: seq<Tag>, ghost sibs: seq<Tag>)
    requires dest.child == null && |names| == |offs|
    modifies dest`child
    ensures Threaded(dest, kids, sibs) && (forall t | t in kids :: fresh(t))
    ensures Labels(kids) == Placed(names, offs, |names|)
    ensures sibs == Firsts(kids) <==> !exists i :: 0 <= i < |names| && Displacing(names, offs, i)
  {
    hide Threaded, Firsts, Repeated, Placed, Labels, Inserted, Displaces, Displacing, Split;
    kids, sibs := [], [];
    Childless(dest);
    NonePlaced(names, offs);
    var i: nat := 0;
    while i < |names|
      invariant i <= |names| && Threaded(dest, kids, sibs)
      invariant forall t | t in kids :: fresh(t)
      invariant Labels(kids) == Placed(names, offs, i)
      invariant if exists a :: 0 <= a < i && Displacing(names, offs, a) then Repeated(sibs) else sibs == Firsts(kids)
    {
      DisplacingIff(kids, names, offs, i);
      var x, k, after := AddChild(dest, names[i], offs[i], kids, sibs);
      PlacedNext(kids, k, x, names, offs, i);
      SplitBound(kids, k, offs[i]);
      InsertedMembers(kids, k, x);
      kids, sibs := Inserted(kids, k, x), after;
      i := i + 1;
    }
    NotRepeated(kids);
  }

  // The i-th arrival comes before a first tag of its own name.
  predicate Displacing(names: seq<bytes>, offs: seq<nat>, i: nat)
    requires i < |names| == |offs|
  {
    var s := Placed(names, offs, i);
    s != [] && s[0].name == names[i] && s[0].off > offs[i]
  }

  lemma DisplacingIff(kids: seq<Tag>, names: seq<bytes>, offs: seq<nat>, i: nat)
    requires i < |names| == |offs| && Labels(kids) == Placed(names, offs, i)
    ensures Displaces(names[i], offs[i], kids) <==> Displacing(names, offs, i)
  {
    LabelsAt(kids);
    hide Labels, Placed;
  }

  // Arrivals at offsets that never decrease keep their order and displace nothing.
  lemma NonDecreasingKeepsOrder(names: seq<bytes>, offs: seq<nat>)
    requires |names| == |offs| && NonDecreasing(offs)
    ensures |Placed(names, offs, |names|)| == |names|
    ensures forall i | 0 <= i < |names| :: Placed(names, offs, |names|)[i] == Label(names[i], offs[i])
    ensures forall i | 0 <= i < |names| :: !Displacing(names, offs, i)
  {
    PlacedInOrder(names, offs, |names|);
    forall i | 0 <= i < |names| ensures !Displacing(names, offs, i) {
      PlacedInOrder(names, offs, i);
    }
  }

  lemma NotRepeated(kids: seq<Tag>)
    ensures !Repeated(Firsts(kids))
  {
    FirstsUnrepeated({}, kids);
  }

  ghost predicate NonDecreasing(offs: seq<nat>) {
    forall i, j | 0 <= i < j < |offs| :: offs[i] <= offs[j]
  }

  lemma InsertedMembers(kids: seq<Tag>, k: nat, x: Tag)
    requires k <= |kids|
    ensures forall t | t in Inserted(kids, k, x) :: t == x || t in kids
  {
  }

  lemma Childless(dest: Tag)
    requires dest.child == null
    ensures Threaded(dest, [], []) && [] == Firsts([])
  {
  }

  // Name and offset of a tag.
  datatype Label = Label(name: bytes, off: nat)

  ghost function Labels(kids: seq<Tag>): seq<Label>
    reads (set t | t in kids)`off
  {
    if kids == [] then [] else
      assert forall t | t in kids[1..] :: t in kids;
      [Label(kids[0].name, kids[0].off)] + Labels(kids[1..])
  }

  lemma {:induction false} LabelsAt(kids: seq<Tag>)
    ensures |Labels(kids)| == |kids|
    ensures forall i | 0 <= i < |kids| :: Labels(kids)[i] == Label(kids[i].name, kids[i].off)
  {
    if kids != [] {
      LabelsAt(kids[1..]);
      var r := Labels(kids[1..]);
      assert Labels(kids) == [Label(kids[0].name, kids[0].off)] + r;
      forall i | 0 < i < |kids| ensures Labels(kids)[i] == Label(kids[i].name, kids[i].off) {
        assert kids[1..][i - 1] == kids[i];
      }
    }
  }

  // How many of them are at or before off, up to the first that is not.
  function Before(s: seq<Label>, off: nat): (k: nat)
    ensures k <= |s|
  {
    if s == [] || s[0].off > off then 0 else 1 + Before(s[1..], off)
  }

  // The first n arrivals, each behind those at or before its offset.
  function Placed(names: seq<bytes>, offs: seq<nat>, n: nat): seq<Label>
    requires n <= |names| == |offs|
  {
    if n == 0 then []
    else
      var s := Placed(names, offs, n - 1);
      var k := Before(s, offs[n - 1]);
      s[..k] + [Label(names[n - 1], offs[n - 1])] + s[k..]
  }

  lemma {:induction false} PlacedInOrder(names: seq<bytes>, offs: seq<nat>, n: nat)
    requires n <= |names| == |offs| && NonDecreasing(offs)
    ensures |Placed(names, offs, n)| == n
    ensures forall i | 0 <= i < n :: Placed(names, offs, n)[i] == Label(names[i], offs[i])
  {
    if n > 0 {
      PlacedInOrder(names, offs, n - 1);
      BeforeIs(Placed(names, offs, n - 1), n - 1, offs[n - 1]);
    }
  }

  lemma NonePlaced(names: seq<bytes>, offs: seq<nat>)
    requires |names| == |offs|
    ensures Placed(names, offs, 0) == [] == Labels([])
  {
  }

  lemma {:induction false} BeforeIs(s: seq<Label>, k: nat, off: nat)
    requires k <= |s| && (forall i | 0 <= i < k :: s[i].off <= off) && (k < |s| ==> s[k].off > off)
    ensures Before(s, off) == k
  {
    if k > 0 { BeforeIs(s[1..], k - 1, off); }
  }

  lemma PlacedNext(kids: seq<Tag>, k: nat, x: Tag, names: seq<bytes>, offs: seq<nat>, i: nat)
    requires i < |names| == |offs| && Labels(kids) == Placed(names, offs, i)
    requires Split(kids, k, offs[i]) && x.name == names[i] && x.off == offs[i]
    ensures Labels(Inserted(kids, k, x)) == Placed(names, offs, i + 1)
  {
    var s := Labels(kids);
    LabelsAt(kids);
    BeforeIs(s, k, offs[i]);
    LabelsInserted(kids, k, x);
  }

  lemma LabelsInserted(kids: seq<Tag>, k: nat, x: Tag)
    requires k <= |kids| == |Labels(kids)|
    ensures var s := Labels(kids); Labels(Inserted(kids, k, x)) == s[..k] + [Label(x.name, x.off)] + s[k..]
  {
    var a, b := kids[..k], kids[k..];
    assert [x][1..] == [] && Labels([x]) == [Label(x.name, x.off)];
    LabelsAt(a);
    LabelsConcat(a, b);
    LabelsConcat(a + [x], b);
    LabelsConcat(a, [x]);
    hide Labels;
    assert a + b == kids && Inserted(kids, k, x) == a + [x] + b;
    assert (Labels(a) + Labels(b))[..k] == Labels(a) && (Labels(a) + Labels(b))[k..] == Labels(b);
  }

  lemma {:induction false} LabelsConcat(a: seq<Tag>, b: seq<Tag>)
    ensures Labels(a + b) == Labels(a) + Labels(b)
  {
    if a == [] {
      assert a + b == b;
    } else {
      LabelsConcat(a[1..], b);
      assert (a + b)[1..] == a[1..] + b;
    }
  }

  // ezxml_idx(ezxml_child(dest, name), n)
  method NthNamed(dest: Tag, name: bytes, n: nat, ghost kids: seq<Tag>, ghost sibs: seq<Tag>) returns (r: Tag?)
    requires Threaded(dest, kids, sibs)
    ensures r == Nth(Named(kids, name), n)
  {
    var first := Child(dest, name, kids, sibs);
    assert NamedChain(kids, name);
    r := Idx(first, n, Named(kids, name));
  }

  // Two tags of one name, the second before the first: both are on the list along sibling.
  method Displaced(dest: Tag, name: bytes) returns (head: Tag, oldHead: Tag, ghost sibs: seq<Tag>)
    requires dest.child == null
    modifies dest`child
    ensures Threaded(dest, [head, oldHead], sibs) && Repeated(sibs) && sibs != Firsts([head, oldHead])
  {
    hide Threaded, Repeated, Firsts, Split, Inserted;
    Childless(dest);
    ghost var k;
    oldHead, k, sibs := AddChild(dest, name, 1, [], []);
    OneInserted(oldHead, k);
    head, k, sibs := AddChild(dest, name, 0, [oldHead], sibs);
    InsertedBefore(oldHead, head, k);
    NotRepeated([head, oldHead]);
  }

  lemma OneInserted(x: Tag, k: nat)
    requires Split([], k, 1)
    ensures k == 0 && Inserted([], k, x) == [x]
  {
  }

  lemma InsertedBefore(t: Tag, x: Tag, k: nat)
    requires Split([t], k, 0) && t.off == 1
    ensures Inserted([t], k, x) == [x, t]
  {
    assert [t][0] == t;
  }
}
