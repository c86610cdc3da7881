// JSON trees as they lie in memory: nodes linked to their first child and to their neighbours.
module JsonTree {
  import opened Bytes
  import opened JsonValue
  import opened JsonLookup
  import opened JsonCompare

  datatype Kind = NullKind | FalseKind | TrueKind | NumberKind | StringKind | ArrayKind | ObjectKind

  class Item {
    var kind: Kind
    var valuedouble: real
    var valuestring: bytes
    var name: bytes
    var child: Item?
    var next: Item?
    var prev: Item?

    constructor (kind: Kind, valuedouble: real, valuestring: bytes, name: bytes)
      ensures this.kind == kind && this.valuedouble == valuedouble && this.valuestring == valuestring
      ensures this.name == name && child == null && next == null && prev == null
    {
      this.kind, this.valuedouble, this.valuestring, this.name := kind, valuedouble, valuestring, name;
      child, next, prev := null, null, null;
    }
  }

  // Which nodes make up a tree.
  datatype Shape = Shape(node: Item, kids: seq<Shape>)

  ghost function Foot(sh: Shape): set<Item>
    decreases sh, 1
  {
    {sh.node} + FootAll(sh.kids)
  }

  ghost function FootAll(ks: seq<Shape>): set<Item>
    decreases ks, 0
  {
    set i, n | 0 <= i < |ks| && n in Foot(ks[i]) :: n
  }

  function NodeAt(ks: seq<Shape>, i: int): Item? {
    if 0 <= i < |ks| then ks[i].node else null
  }

  // No node occurs twice.
  ghost predicate Apart(sh: Shape)
    decreases sh, 1
  {
    sh.node !in FootAll(sh.kids) && AllApart(sh.kids)
  }

  ghost predicate AllApart(ks: seq<Shape>)
    decreases ks, 0
  {
    && (forall i, j | 0 <= i < j < |ks| :: Foot(ks[i]) !! Foot(ks[j]))
    && (forall i | 0 <= i < |ks| :: Apart(ks[i]))
  }

  ghost function Tops(ks: seq<Shape>): (r: set<Item>)
    ensures r <= FootAll(ks)
  {
    assert forall i | 0 <= i < |ks| :: ks[i].node in Foot(ks[i]);
    set i | 0 <= i < |ks| :: ks[i].node
  }

  ghost predicate Chained(ks: seq<Shape>)
    reads Tops(ks)`next, Tops(ks)`prev
  {
    && (forall i {:trigger ks[i].node.next} | 0 <= i < |ks| :: ks[i].node.next == NodeAt(ks, i + 1))
    && (forall i {:trigger ks[i].node.prev} | 0 <= i < |ks| :: ks[i].node.prev == NodeAt(ks, i - 1))
  }

  // The tree of that shape stands for the value v.
  ghost predicate Stands(sh: Shape, v: Json)
    reads sh.node`kind, sh.node`valuedouble, sh.node`valuestring, sh.node`child, FootAll(sh.kids)
    decreases sh, 1
  {
    && Labelled(sh.node, v)
    && |sh.kids| == Arity(v) && sh.node.child == NodeAt(sh.kids, 0)
    && KidsStand(sh.kids, v)
  }

  // The trees of ks, linked to each other, stand for the first parts of v.
  ghost predicate KidsStand(ks: seq<Shape>, v: Json)
    reads FootAll(ks)
    decreases ks, 0
  {
    && |ks| <= Arity(v)
    && Chained(ks)
    && forall i | 0 <= i < |ks| ::
         && (assert ks[i].node in Foot(ks[i]); NameStands(ks[i], v, i))
         && Stands(ks[i], Part(v, i))
  }

  ghost predicate NameStands(sh: Shape, v: Json, i: nat)
    requires i < Arity(v)
    reads sh.node`name
  {
    v.Object? ==> sh.node.name == v.members[i].key
  }

  function Arity(v: Json): nat {
    match v
    case Array(items) => |items|
    case Object(ms) => |ms|
    case _ => 0
  }

  function Part(v: Json, i: nat): Json
    requires i < Arity(v)
  {
    if v.Array? then v.items[i] else v.members[i].value
  }

  ghost predicate Labelled(n: Item, v: Json)
    reads n`kind, n`valuedouble, n`valuestring
  {
    match v
    case Null => n.kind == NullKind
    case False => n.kind == FalseKind
    case True => n.kind == TrueKind
    case Number(d) => n.kind == NumberKind && n.valuedouble == d
    case String(s) => n.kind == StringKind && n.valuestring == s
    case Array(_) => n.kind == ArrayKind
    case Object(_) => n.kind == ObjectKind
  }

  // ----- copying -----

  // bscJSON_Duplicate. The copy consists of new nodes only; the original is not written to.
  method Duplicate(item: Item, ghost sh: Shape, ghost v: Json) returns (r: Item, ghost rs: Shape)
    requires sh.node == item && Stands(sh, v)
    ensures rs.node == r && Stands(rs, v) && Apart(rs) && fresh(Foot(rs)) && Stands(sh, v)
    ensures fresh(r) && r.next == null && r.prev == null && r.name == item.name
    decreases sh
  {
    hide Foot, FootAll, Apart, AllApart, Stands, KidsStand, Chained, Tops, Part, Labelled;
    ghost var below := FootAll(sh.kids);
    assert allocated(below);
    NodeStands(sh, v);
    Nothing(v);
    r := Clone(item, sh, v);
    ghost var ns: seq<Shape> := [];
    var child := item.child;
    var last: Item? := null;
    while child != null
      invariant |ns| <= |sh.kids| && child == NodeAt(sh.kids, |ns|) && Stands(sh, v)
      invariant Bare(r, item, v) && last == NodeAt(ns, |ns| - 1) && r.child == NodeAt(ns, 0)
      invariant KidsStand(ns, v) && AllApart(ns) && r !in FootAll(ns) && fresh(FootAll(ns))
      decreases |sh.kids| - |ns|
    {
      ghost var i := |ns|;
      ghost var cs: Shape;
      var copy;
      PartStands(sh, v, i);
      ghost var before := FootAll(ns);
      assert allocated(before);
      copy, cs := Duplicate(child, sh.kids[i], Part(v, i));
      assert NameStands(cs, v, i);
      Join(r, last, copy, ns, cs, v);
      last := copy;
      ns := ns + [cs];
      child := child.next;
    }
    rs := Shape(r, ns);
    TreeStands(r, ns, v);
  }

  // The new node, with everything of the old one but its links.
  method Clone(item: Item, ghost sh: Shape, ghost v: Json) returns (r: Item)
    requires sh.node == item && Stands(sh, v)
    ensures fresh(r) && Stands(sh, v) && Bare(r, item, v) && r.child == null
  {
    hide Foot, FootAll, KidsStand;
    ghost var below := FootAll(sh.kids);
    assert allocated(below);
    r := new Item(item.kind, item.valuedouble, item.valuestring, item.name);
  }

  lemma NodeStands(sh: Shape, v: Json)
    requires Stands(sh, v)
    ensures |sh.kids| == Arity(v) && sh.node.child == NodeAt(sh.kids, 0)
  {
    hide KidsStand;
  }

  lemma Nothing(v: Json)
    ensures KidsStand([], v) && AllApart([]) && FootAll([]) == {}
  {
  }

  lemma TreeStands(r: Item, ns: seq<Shape>, v: Json)
    requires |ns| == Arity(v) && KidsStand(ns, v) && Labelled(r, v) && r.child == NodeAt(ns, 0)
    requires AllApart(ns) && r !in FootAll(ns)
    ensures Stands(Shape(r, ns), v) && Apart(Shape(r, ns)) && Foot(Shape(r, ns)) == {r} + FootAll(ns)
  {
    hide KidsStand, AllApart;
  }

  lemma PartStands(sh: Shape, v: Json, i: nat)
    requires Stands(sh, v) && i < |sh.kids|
    ensures Stands(sh.kids[i], Part(v, i)) && NameStands(sh.kids[i], v, i)
    ensures sh.kids[i].node.next == NodeAt(sh.kids, i + 1)
  {
  }

  lemma NextKid(sh: Shape, v: Json, i: nat)
    requires Stands(sh, v) && i < |sh.kids|
    ensures sh.kids[i].node.next == NodeAt(sh.kids, i + 1)
  {
    PartStands(sh, v, i);
  }

  ghost predicate Bare(r: Item, item: Item, v: Json)
    reads r, item`name
  {
    Labelled(r, v) && r.next == null && r.prev == null && r.name == item.name
  }

  // The new child goes behind the last one, or becomes the first.
  method Join(r: Item, last: Item?, copy: Item, ghost ns: seq<Shape>, ghost cs: Shape, ghost v: Json)
    requires |ns| < Arity(v) && KidsStand(ns, v) && AllApart(ns)
    requires last == NodeAt(ns, |ns| - 1) && r.child == NodeAt(ns, 0)
    requires cs.node == copy && copy.next == null && copy.prev == null && Apart(cs)
    requires Stands(cs, Part(v, |ns|)) && NameStands(cs, v, |ns|)
    requires Foot(cs) !! FootAll(ns) && r !in FootAll(ns) && r !in Foot(cs)
    modifies r`child, copy`prev, Tops(ns)`next
    ensures KidsStand(ns + [cs], v) && r.child == NodeAt(ns + [cs], 0)
    ensures AllApart(ns + [cs]) && FootAll(ns + [cs]) == FootAll(ns) + Foot(cs)
  {
    hide Foot, FootAll, Apart, AllApart, Chained, Tops, Part, NameStands, Stands;
    Untouched(ns, cs, r);
    FootAppended(ns, cs);
    forall k: Shape | k in ns || k == cs ensures allocated(FootAll(k.kids)) {}
    Hook(r, last, copy, ns, cs);
    ghost var ks := ns + [cs];
    forall i | 0 <= i < |ks| ensures Stands(ks[i], Part(v, i)) && NameStands(ks[i], v, i) {
      if i < |ns| {
        assert ks[i] == ns[i] && old(Stands(ns[i], Part(v, i)) && NameStands(ns[i], v, i));
      } else {
        assert ks[i] == cs && old(Stands(cs, Part(v, i)) && NameStands(cs, v, i));
      }
    }
  }

  ghost predicate Clear(s: set<Item>, ns: seq<Shape>, cs: Shape, r: Item) {
    forall o | o in s :: o != r && o != cs.node && o !in Tops(ns)
  }

  // Nothing that hooking a child writes to lies inside the trees.
  lemma Untouched(ns: seq<Shape>, cs: Shape, r: Item)
    requires AllApart(ns) && Apart(cs) && Foot(cs) !! FootAll(ns) && r !in FootAll(ns) && r !in Foot(cs)
    ensures forall i | 0 <= i < |ns| ::
              Clear(FootAll(ns[i].kids), ns, cs, r) && ns[i].node != r && ns[i].node != cs.node
    ensures Clear(FootAll(cs.kids), ns, cs, r) && cs.node != r && cs.node !in Tops(ns) && r !in Tops(ns)
    ensures forall i, j | 0 <= i < j < |ns| :: ns[i].node != ns[j].node
  {
    TopsApart(ns);
    FootParts(ns);
    assert cs.node in Foot(cs) && FootAll(cs.kids) <= Foot(cs);
    assert cs.node !in FootAll(cs.kids);
    hide Foot, FootAll, Apart, AllApart;
  }

  method Hook(r: Item, last: Item?, copy: Item, ghost ns: seq<Shape>, ghost cs: Shape)
    requires Chained(ns) && last == NodeAt(ns, |ns| - 1) && r.child == NodeAt(ns, 0)
    requires forall i, j | 0 <= i < j < |ns| :: ns[i].node != ns[j].node
    requires cs.node == copy && copy.next == null && copy.prev == null && copy !in Tops(ns)
    modifies r`child, copy`prev, Tops(ns)`next
    ensures Chained(ns + [cs]) && r.child == NodeAt(ns + [cs], 0)
  {
    hide Foot, FootAll;
    if last != null {
      last.next := copy;
      copy.prev := last;
    } else {
      r.child := copy;
    }
    ghost var ks := ns + [cs];
    forall i | 0 <= i < |ks| ensures ks[i].node.next == NodeAt(ks, i + 1) && ks[i].node.prev == NodeAt(ks, i - 1) {
      if i < |ns| { assert ks[i] == ns[i] && ns[i].node in Tops(ns); }
    }
  }

  lemma FootParts(ks: seq<Shape>)
    ensures forall i | 0 <= i < |ks| ::
              Foot(ks[i]) <= FootAll(ks) && ks[i].node in Foot(ks[i]) && FootAll(ks[i].kids) <= Foot(ks[i])
  {
  }

  lemma FootAppended(ns: seq<Shape>, cs: Shape)
    requires AllApart(ns) && Apart(cs) && Foot(cs) !! FootAll(ns)
    ensures AllApart(ns + [cs]) && FootAll(ns + [cs]) == FootAll(ns) + Foot(cs)
  {
    FootOfBoth(ns, cs);
    FootParts(ns);
    hide Foot, Apart, FootAll;
    var ks := ns + [cs];
    assert ks[|ns|] == cs;
    forall i, j | 0 <= i < j < |ks| ensures Foot(ks[i]) !! Foot(ks[j]) {
      assert ks[i] == ns[i];
      if j < |ns| { assert ks[j] == ns[j]; }
    }
    forall i | 0 <= i < |ks| ensures Apart(ks[i]) {
      if i < |ns| { assert ks[i] == ns[i]; }
    }
  }

  lemma FootOfBoth(ns: seq<Shape>, cs: Shape)
    ensures FootAll(ns + [cs]) == FootAll(ns) + Foot(cs)
  {
    hide Foot;
    var ks := ns + [cs];
    forall n | n in FootAll(ks) ensures n in FootAll(ns) + Foot(cs) {
      var i :| 0 <= i < |ks| && n in Foot(ks[i]);
      if i < |ns| { assert ks[i] == ns[i]; }
    }
    forall n | n in FootAll(ns) + Foot(cs) ensures n in FootAll(ks) {
      if n in FootAll(ns) {
        var i :| 0 <= i < |ns| && n in Foot(ns[i]);
        assert ks[i] == ns[i];
      } else {
        assert ks[|ns|] == cs;
      }
    }
  }

  lemma TopsApart(ns: seq<Shape>)
    requires AllApart(ns)
    ensures forall i, j | 0 <= i < |ns| && 0 <= j < |ns| :: ns[j].node !in FootAll(ns[i].kids)
    ensures forall i, j | 0 <= i < j < |ns| :: ns[i].node != ns[j].node
  {
    forall i, j | 0 <= i < |ns| && 0 <= j < |ns| ensures ns[j].node !in FootAll(ns[i].kids) {
      assert ns[j].node in Foot(ns[j]) && FootAll(ns[i].kids) <= Foot(ns[i]);
      assert Apart(ns[i]);
    }
    forall i, j | 0 <= i < j < |ns| ensures ns[i].node != ns[j].node {
      assert ns[i].node in Foot(ns[i]) && ns[j].node in Foot(ns[j]);
    }
  }

  // ----- comparing -----

  // A node stands for one value only.
  lemma {:induction false} SameNode(sa: Shape, a: Json, sb: Shape, b: Json)
    requires Stands(sa, a) && Stands(sb, b) && sa.node == sb.node
    ensures a == b
    decreases sa
  {
    LabelStands(sa, a);
    LabelStands(sb, b);
    NodeStands(sa, a);
    NodeStands(sb, b);
    var ka, kb := sa.kids, sb.kids;
    SameKids(ka, kb, if |ka| < |kb| then |ka| else |kb|);
    assert |ka| == |kb|;
    forall i | 0 <= i < |ka|
      ensures a.Array? ==> a.items[i] == b.items[i]
      ensures a.Object? ==> a.members[i] == b.members[i]
    {
      SameKids(ka, kb, i);
      PartStands(sa, a, i);
      PartStands(sb, b, i);
      SameNode(ka[i], Part(a, i), kb[i], Part(b, i));
    }
    hide Stands;
    if a.Array? { assert a.items == b.items; }
    if a.Object? { assert a.members == b.members; }
  }

  lemma {:induction false} SameKids(ka: seq<Shape>, kb: seq<Shape>, i: nat)
    requires Chained(ka) && Chained(kb) && NodeAt(ka, 0) == NodeAt(kb, 0) && i <= |ka| && i <= |kb|
    ensures NodeAt(ka, i) == NodeAt(kb, i)
  {
    if i > 0 {
      SameKids(ka, kb, i - 1);
      assert ka[i - 1].node.next == kb[i - 1].node.next;
    }
  }

  // get_object_item
  method FindNode(parent: Item, name: bytes, cs: bool, ghost sh: Shape, ghost v: Json) returns (r: Item?, ghost k: nat)
    requires sh.node == parent && Stands(sh, v) && v.Object?
    ensures k == Place(v.members, name, cs)
    ensures r == NodeAt(sh.kids, k)
  {
    NodeStands(sh, v);
    ghost var below := FootAll(sh.kids);
    assert allocated(below);
    hide Stands, SameKey, FirstAt, FootAll, Foot, Find;
    ghost var ms := v.members;
    r, k := parent.child, 0;
    assert ms[0..] == ms;
    while r != null && !SameKey(name, r.name, cs)
      invariant k <= |ms| && r == NodeAt(sh.kids, k) && Stands(sh, v)
      invariant k + Place(ms[k..], name, cs) == Place(ms, name, cs)
      decreases |ms| - k
    {
      PartStands(sh, v, k);
      assert ms[k..][1..] == ms[k + 1..];
      r := r.next;
      k := k + 1;
    }
    if r != null { PartStands(sh, v, k); }
  }

  // ----- what the comparison of nodes decides -----

  // The shape has a node for every part of the value.
  ghost predicate Fits(sh: Shape, v: Json)
    decreases sh
  {
    |sh.kids| == Arity(v) && forall i | 0 <= i < |sh.kids| :: Fits(sh.kids[i], Part(v, i))
  }

  lemma {:induction false} StandsFits(sh: Shape, v: Json)
    requires Stands(sh, v)
    ensures Fits(sh, v)
    decreases sh
  {
    forall i | 0 <= i < |sh.kids| ensures Fits(sh.kids[i], Part(v, i)) {
      PartStands(sh, v, i);
      StandsFits(sh.kids[i], Part(v, i));
    }
  }

  lemma FitsPart(sh: Shape, v: Json, i: nat)
    requires Fits(sh, v) && i < |sh.kids|
    ensures |sh.kids| == Arity(v) && Fits(sh.kids[i], Part(v, i))
  {
  }

  // Trees that compare equal when identical nodes need no second look.
  ghost predicate Alike(sa: Shape, a: Json, sb: Shape, b: Json, cs: bool)
    requires Fits(sa, a) && Fits(sb, b)
    decreases Nest(a) + Nest(b), 2
  {
    || sa.node == sb.node
    || (match a
        case Array(items) => b.Array? && |items| == |b.items| && AlikeItems(sa, a, sb, b, cs)
        case Object(_) => b.Object? && AlikeMembers(sa, a, sb, b, cs) && AlikeMembers(sb, b, sa, a, cs)
        case _ => a == b)
  }

  ghost predicate AlikeItems(sa: Shape, a: Json, sb: Shape, b: Json, cs: bool)
    requires Fits(sa, a) && Fits(sb, b) && |sa.kids| == |sb.kids|
    decreases Nest(a) + Nest(b), 1
  {
    forall i | 0 <= i < |sa.kids| :: AlikeParts(sa, a, sb, b, cs, i, i)
  }

  // Every member of a is like the first of its name in b.
  ghost predicate AlikeMembers(sa: Shape, a: Json, sb: Shape, b: Json, cs: bool)
    requires Fits(sa, a) && Fits(sb, b) && a.Object? && b.Object?
    decreases Nest(a) + Nest(b), 1
  {
    forall i | 0 <= i < |sa.kids| :: AlikeParts(sa, a, sb, b, cs, i, Place(b.members, a.members[i].key, cs))
  }

  // The i-th part of a is like the k-th of b.
  ghost predicate AlikeParts(sa: Shape, a: Json, sb: Shape, b: Json, cs: bool, i: nat, k: nat)
    requires Fits(sa, a) && Fits(sb, b) && i < |sa.kids|
    decreases Nest(a) + Nest(b), 0
  {
    && k < |sb.kids|
    && (NestPart(a, i); NestPart(b, k); Alike(sa.kids[i], Part(a, i), sb.kids[k], Part(b, k), cs))
  }

  // Where the first member of that name stands.
  function Place(ms: seq<Member>, name: bytes, cs: bool): (k: nat)
    ensures k <= |ms|
  {
    if ms == [] || SameKey(name, ms[0].key, cs) then 0 else 1 + Place(ms[1..], name, cs)
  }

  lemma {:induction false} PlaceFinds(ms: seq<Member>, name: bytes, cs: bool)
    ensures var k := Place(ms, name, cs);
            Find(ms, name, cs) == if k < |ms| then Item(ms[k].value) else NoItem
    ensures var k := Place(ms, name, cs); k < |ms| ==> SameKey(name, ms[k].key, cs)
  {
    hide SameKey, FirstAt;
    if ms != [] && !SameKey(name, ms[0].key, cs) { PlaceFinds(ms[1..], name, cs); }
  }

  lemma NestPart(v: Json, i: nat)
    requires i < Arity(v)
    ensures Nest(Part(v, i)) < Nest(v)
  {
    if v.Array? { NestItem(v.items, i); } else { NestMember(v.members, i); }
  }

  // Alike trees mean the same, whatever nodes they share.
  lemma {:induction false} AlikeMeans(sa: Shape, a: Json, sb: Shape, b: Json, cs: bool)
    requires Fits(sa, a) && Fits(sb, b) && Stands(sa, a) && Stands(sb, b) && Alike(sa, a, sb, b, cs)
    ensures Meant(a, cs) == Meant(b, cs)
    decreases Nest(a) + Nest(b), 1
  {
    if sa.node == sb.node {
      SameNode(sa, a, sb, b);
    } else if a.Array? {
      forall i | 0 <= i < |a.items| ensures Meant(a.items[i], cs) == Meant(b.items[i], cs) {
        assert AlikeParts(sa, a, sb, b, cs, i, i);
        PartsMean(sa, a, sb, b, cs, i, i);
      }
      hide Meant, Stands, Fits, Alike;
      ItemsMeant(a.items, b.items, cs);
    } else if a.Object? {
      MembersFound(sa, a, sb, b, cs);
      MembersFound(sb, b, sa, a, cs);
      hide Meant, Stands, Fits, Alike;
      MembersMeant(a.members, b.members, cs);
    }
  }

  lemma {:induction false} PartsMean(sa: Shape, a: Json, sb: Shape, b: Json, cs: bool, i: nat, k: nat)
    requires Stands(sa, a) && Stands(sb, b) && Fits(sa, a) && Fits(sb, b)
    requires i < |sa.kids| && AlikeParts(sa, a, sb, b, cs, i, k)
    ensures |sa.kids| == Arity(a) && k < |sb.kids| == Arity(b)
    ensures Meant(Part(a, i), cs) == Meant(Part(b, k), cs)
    decreases Nest(a) + Nest(b), 0, 0
  {
    FitsPart(sa, a, i);
    FitsPart(sb, b, k);
    hide Meant, Alike, Fits;
    PartStands(sa, a, i);
    PartStands(sb, b, k);
    NestPart(a, i);
    NestPart(b, k);
    AlikeMeans(sa.kids[i], Part(a, i), sb.kids[k], Part(b, k), cs);
  }

  // Every member is found, with its meaning.
  ghost predicate FoundMeant(ms: seq<Member>, others: seq<Member>, cs: bool) {
    forall i | 0 <= i < |ms| ::
      && Find(others, ms[i].key, cs).Item?
      && Meant(Find(others, ms[i].key, cs).value, cs) == Meant(ms[i].value, cs)
  }

  lemma {:induction false} MembersFound(sa: Shape, a: Json, sb: Shape, b: Json, cs: bool)
    requires Fits(sa, a) && Fits(sb, b) && Stands(sa, a) && Stands(sb, b) && a.Object? && b.Object?
    requires AlikeMembers(sa, a, sb, b, cs)
    ensures FoundMeant(a.members, b.members, cs)
    decreases Nest(a) + Nest(b), 0, 1
  {
    hide Meant, Stands, Alike;
    forall i | 0 <= i < |a.members|
      ensures Find(b.members, a.members[i].key, cs).Item?
      ensures Meant(Find(b.members, a.members[i].key, cs).value, cs) == Meant(a.members[i].value, cs)
    {
      var k := Place(b.members, a.members[i].key, cs);
      assert AlikeParts(sa, a, sb, b, cs, i, k);
      PlaceFinds(b.members, a.members[i].key, cs);
      PartsMean(sa, a, sb, b, cs, i, k);
    }
  }

  lemma {:induction false} ItemsMeant(xs: seq<Json>, ys: seq<Json>, cs: bool)
    requires |xs| == |ys| && forall i | 0 <= i < |xs| :: Meant(xs[i], cs) == Meant(ys[i], cs)
    ensures MeantItems(xs, cs) == MeantItems(ys, cs)
  {
    hide Meant;
    if xs != [] {
      assert forall i | 0 <= i < |xs| - 1 :: xs[1..][i] == xs[i + 1] && ys[1..][i] == ys[i + 1];
      ItemsMeant(xs[1..], ys[1..], cs);
    }
  }

  lemma MembersMeant(ms: seq<Member>, others: seq<Member>, cs: bool)
    requires FoundMeant(ms, others, cs) && FoundMeant(others, ms, cs)
    ensures MeantMembers(ms, cs) == MeantMembers(others, cs)
  {
    hide MeantMembers, FoundMeant;
    FoundWithin(ms, others, cs);
    FoundWithin(others, ms, cs);
    WithinBoth(MeantMembers(ms, cs), MeantMembers(others, cs));
  }

  lemma FoundWithin(ms: seq<Member>, others: seq<Member>, cs: bool)
    requires FoundMeant(ms, others, cs)
    ensures Within(MeantMembers(ms, cs), MeantMembers(others, cs))
  {
    hide Find, FoldKey, Meant, MeantMembers, SameKey;
    var x, y := MeantMembers(ms, cs), MeantMembers(others, cs);
    forall k | k in x ensures k in y && y[k] == x[k] {
      KeysAreMeant(ms, cs, k);
      var i :| 0 <= i < |ms| && FoldKey(ms[i].key, cs) == k;
      MeantKeys(ms, cs, ms[i].key);
      var f := Place(ms, ms[i].key, cs);
      PlaceFinds(ms, ms[i].key, cs);
      FindsTheSame(others, ms[i].key, ms[f].key, cs);
      MeantKeys(others, cs, ms[i].key);
    }
  }

  // Trees that compare equal are alike.
  lemma {:induction false} CompareAlike(sa: Shape, a: Json, sb: Shape, b: Json, cs: bool)
    requires Fits(sa, a) && Fits(sb, b) && Compare(a, b, cs)
    ensures Alike(sa, a, sb, b, cs)
    decreases Nest(a) + Nest(b), 1
  {
    if a.Array? {
      ItemsAt(a.items, b.items, cs);
      hide Compare, CompareItems, Alike;
      forall i | 0 <= i < |sa.kids| ensures AlikeParts(sa, a, sb, b, cs, i, i) {
        NestPart(a, i);
        NestPart(b, i);
        CompareAlike(sa.kids[i], Part(a, i), sb.kids[i], Part(b, i), cs);
      }
      AlikeArrays(sa, a, sb, b, cs);
    } else if a.Object? {
      MembersAlike(sa, a, sb, b, cs);
      MembersAlike(sb, b, sa, a, cs);
    }
  }

  lemma AlikeArrays(sa: Shape, a: Json, sb: Shape, b: Json, cs: bool)
    requires Fits(sa, a) && Fits(sb, b) && a.Array? && b.Array?
    requires |a.items| == |b.items| && AlikeItems(sa, a, sb, b, cs)
    ensures Alike(sa, a, sb, b, cs)
  {
    hide AlikeItems, Fits;
  }

  lemma {:induction false} MembersAlike(sa: Shape, a: Json, sb: Shape, b: Json, cs: bool)
    requires Fits(sa, a) && Fits(sb, b) && a.Object? && b.Object? && Covers(a.members, b.members, cs)
    ensures AlikeMembers(sa, a, sb, b, cs)
    decreases Nest(a) + Nest(b), 0
  {
    hide Alike, Compare, Covers;
    forall i | 0 <= i < |sa.kids|
      ensures AlikeParts(sa, a, sb, b, cs, i, Place(b.members, a.members[i].key, cs))
    {
      CoversAt(a.members, b.members, cs, i);
      var k := Place(b.members, a.members[i].key, cs);
      PlaceFinds(b.members, a.members[i].key, cs);
      NestPart(a, i);
      NestPart(b, k);
      CompareAlike(sa.kids[i], Part(a, i), sb.kids[k], Part(b, k), cs);
    }
  }

  lemma {:induction false} ItemsAt(xs: seq<Json>, ys: seq<Json>, cs: bool)
    ensures CompareItems(xs, ys, cs) <==> |xs| == |ys| && forall i | 0 <= i < |xs| :: Compare(xs[i], ys[i], cs)
  {
    hide Compare;
    if xs != [] && ys != [] {
      assert forall i | 0 <= i < |xs| - 1 :: xs[1..][i] == xs[i + 1];
      assert forall i | 0 <= i < |ys| - 1 :: ys[1..][i] == ys[i + 1];
      ItemsAt(xs[1..], ys[1..], cs);
    }
  }

  lemma {:induction false} CoversAt(ms: seq<Member>, others: seq<Member>, cs: bool, i: nat)
    requires i < |ms|
    ensures Covers(ms, others, cs) ==>
              var found := Find(others, ms[i].key, cs); found.Item? && Compare(ms[i].value, found.value, cs)
  {
    hide Compare, Find;
    if i > 0 { CoversAt(ms[1..], others, cs, i - 1); }
  }

  lemma {:induction false} CoversFrom(ms: seq<Member>, others: seq<Member>, cs: bool)
    requires forall i | 0 <= i < |ms| ::
               var found := Find(others, ms[i].key, cs); found.Item? && Compare(ms[i].value, found.value, cs)
    ensures Covers(ms, others, cs)
  {
    hide Compare, Find;
    if ms != [] {
      assert forall i | 0 <= i < |ms| - 1 :: ms[1..][i] == ms[i + 1];
      CoversFrom(ms[1..], others, cs);
    }
  }

  // Where the short cut changes nothing: one of the trees is consistent, or they share no node.
  ghost predicate Exact(sa: Shape, a: Json, sb: Shape, b: Json, cs: bool) {
    Consistent(a, cs) || Consistent(b, cs) || Foot(sa) !! Foot(sb)
  }

  // There, being alike is comparing equal.
  lemma {:induction false} AlikeCompares(sa: Shape, a: Json, sb: Shape, b: Json, cs: bool)
    requires Fits(sa, a) && Fits(sb, b) && Stands(sa, a) && Stands(sb, b)
    requires Alike(sa, a, sb, b, cs) && Exact(sa, a, sb, b, cs)
    ensures Compare(a, b, cs)
    decreases Nest(a) + Nest(b), 1
  {
    if sa.node == sb.node {
      SameNode(sa, a, sb, b);
      ReflexiveIff(a, cs);
      assert sa.node in Foot(sa) && sb.node in Foot(sb);
    } else if a.Array? {
      forall i | 0 <= i < |a.items| ensures Compare(a.items[i], b.items[i], cs) {
        assert AlikeParts(sa, a, sb, b, cs, i, i);
        PartsCompare(sa, a, sb, b, cs, i, i);
      }
      ItemsAt(a.items, b.items, cs);
    } else if a.Object? {
      MembersCompare(sa, a, sb, b, cs);
      MembersCompare(sb, b, sa, a, cs);
    }
  }

  lemma {:induction false} PartsCompare(sa: Shape, a: Json, sb: Shape, b: Json, cs: bool, i: nat, k: nat)
    requires Stands(sa, a) && Stands(sb, b) && Fits(sa, a) && Fits(sb, b)
    requires i < |sa.kids| && AlikeParts(sa, a, sb, b, cs, i, k) && Exact(sa, a, sb, b, cs)
    ensures |sa.kids| == Arity(a) && k < |sb.kids| == Arity(b)
    ensures Compare(Part(a, i), Part(b, k), cs)
    decreases Nest(a) + Nest(b), 0, 0
  {
    FitsPart(sa, a, i);
    FitsPart(sb, b, k);
    ExactPart(sa, a, sb, b, cs, i, k);
    hide Alike, Fits, Compare, Exact;
    PartStands(sa, a, i);
    PartStands(sb, b, k);
    NestPart(a, i);
    NestPart(b, k);
    AlikeCompares(sa.kids[i], Part(a, i), sb.kids[k], Part(b, k), cs);
  }

  lemma {:induction false} MembersCompare(sa: Shape, a: Json, sb: Shape, b: Json, cs: bool)
    requires Fits(sa, a) && Fits(sb, b) && Stands(sa, a) && Stands(sb, b) && a.Object? && b.Object?
    requires AlikeMembers(sa, a, sb, b, cs) && Exact(sa, a, sb, b, cs)
    ensures Covers(a.members, b.members, cs)
    decreases Nest(a) + Nest(b), 0, 1
  {
    hide Stands, Alike, Compare, Exact;
    forall i | 0 <= i < |a.members|
      ensures var found := Find(b.members, a.members[i].key, cs);
              found.Item? && Compare(a.members[i].value, found.value, cs)
    {
      var k := Place(b.members, a.members[i].key, cs);
      assert AlikeParts(sa, a, sb, b, cs, i, k);
      PlaceFinds(b.members, a.members[i].key, cs);
      PartsCompare(sa, a, sb, b, cs, i, k);
    }
    CoversFrom(a.members, b.members, cs);
  }

  lemma ExactPart(sa: Shape, a: Json, sb: Shape, b: Json, cs: bool, i: nat, j: nat)
    requires i < |sa.kids| == Arity(a) && j < |sb.kids| == Arity(b)
    ensures Exact(sa, a, sb, b, cs) ==> Exact(sa.kids[i], Part(a, i), sb.kids[j], Part(b, j), cs)
  {
    ConsistentPart(a, cs, i);
    ConsistentPart(b, cs, j);
    FootPart(sa, i);
    FootPart(sb, j);
    hide Foot, Consistent, Arity, Part;
  }

  lemma ConsistentPart(v: Json, cs: bool, i: nat)
    requires i < Arity(v)
    ensures Consistent(v, cs) ==> Consistent(Part(v, i), cs)
  {
    hide Agreeing;
  }

  lemma FootPart(sh: Shape, i: nat)
    requires i < |sh.kids|
    ensures Foot(sh.kids[i]) <= Foot(sh)
  {
    FootParts(sh.kids);
    assert FootAll(sh.kids) <= Foot(sh);
    hide Foot, FootAll;
  }

  // ----- comparing -----

  // bscJSON_Compare: true exactly on trees that are alike. What stands for a value fits it.
  method CompareNodes(a: Item, b: Item, cs: bool, ghost sa: Shape, ghost va: Json, ghost sb: Shape, ghost vb: Json)
    returns (r: bool)
    requires sa.node == a && Stands(sa, va) && Fits(sa, va)
    requires sb.node == b && Stands(sb, vb) && Fits(sb, vb)
    ensures r <==> Alike(sa, va, sb, vb, cs)
    decreases Nest(va) + Nest(vb), 2, 0
  {
    LabelStands(sa, va);
    LabelStands(sb, vb);
    ghost var fa, fb := FootAll(sa.kids), FootAll(sb.kids);
    assert allocated(fa) && allocated(fb);
    if a == b { SameNode(sa, va, sb, vb); }
    hide Stands, Fits, FootAll, Foot, AlikeItems, AlikeMembers, Nest;
    if a.kind != b.kind { return false; }
    if a == b { return true; }
    match a.kind
    case NumberKind => r := a.valuedouble == b.valuedouble;
    case StringKind => r := a.valuestring == b.valuestring;
    case ArrayKind => r := CompareArrays(a, b, cs, sa, va, sb, vb);
    case ObjectKind =>
      r := CoversNode(a, b, cs, sa, va, sb, vb);
      if r { r := CoversNode(b, a, cs, sb, vb, sa, va); }
    case _ => r := true;
  }

  lemma LabelStands(sh: Shape, v: Json)
    requires Stands(sh, v)
    ensures Labelled(sh.node, v)
  {
  }

  method CompareArrays(a: Item, b: Item, cs: bool, ghost sa: Shape, ghost va: Json, ghost sb: Shape, ghost vb: Json)
    returns (r: bool)
    requires sa.node == a && Stands(sa, va) && Fits(sa, va) && va.Array?
    requires sb.node == b && Stands(sb, vb) && Fits(sb, vb) && vb.Array?
    ensures r <==> |sa.kids| == |sb.kids| && AlikeItems(sa, va, sb, vb, cs)
    decreases Nest(va) + Nest(vb), 1, 0
  {
    NodeStands(sa, va);
    NodeStands(sb, vb);
    ghost var fa, fb := FootAll(sa.kids), FootAll(sb.kids);
    assert allocated(fa) && allocated(fb);
    hide Stands, Fits, AlikeParts, Nest, FootAll, Foot;
    var x, y := a.child, b.child;
    ghost var i: nat := 0;
    while x != null && y != null
      invariant Stands(sa, va) && Stands(sb, vb)
      invariant i <= |sa.kids| && i <= |sb.kids| && x == NodeAt(sa.kids, i) && y == NodeAt(sb.kids, i)
      invariant forall j | 0 <= j < i :: AlikeParts(sa, va, sb, vb, cs, j, j)
      decreases |sa.kids| - i
    {
      var same := CompareParts(x, y, cs, i, i, sa, va, sb, vb);
      if !same { return false; }
      NextKid(sa, va, i);
      NextKid(sb, vb, i);
      x, y := x.next, y.next;
      i := i + 1;
    }
    r := x == y;
  }

  // The i-th child of a against the k-th of b.
  method CompareParts(
    x: Item, y: Item, cs: bool, ghost i: nat, ghost k: nat,
    ghost sa: Shape, ghost va: Json, ghost sb: Shape, ghost vb: Json)
    returns (r: bool)
    requires Stands(sa, va) && Fits(sa, va) && i < |sa.kids| && x == sa.kids[i].node
    requires Stands(sb, vb) && Fits(sb, vb) && k < |sb.kids| && y == sb.kids[k].node
    ensures r <==> AlikeParts(sa, va, sb, vb, cs, i, k)
    decreases Nest(va) + Nest(vb), 0, 0
  {
    FitsPart(sa, va, i);
    FitsPart(sb, vb, k);
    PartStands(sa, va, i);
    PartStands(sb, vb, k);
    NestPart(va, i);
    NestPart(vb, k);
    hide Stands, Fits, Alike, Nest;
    r := CompareNodes(x, y, cs, sa.kids[i], Part(va, i), sb.kids[k], Part(vb, k));
  }

  // One of the two loops over the members: every one of a has its like in b.
  method CoversNode(a: Item, b: Item, cs: bool, ghost sa: Shape, ghost va: Json, ghost sb: Shape, ghost vb: Json)
    returns (r: bool)
    requires sa.node == a && Stands(sa, va) && Fits(sa, va) && va.Object?
    requires sb.node == b && Stands(sb, vb) && Fits(sb, vb) && vb.Object?
    ensures r <==> AlikeMembers(sa, va, sb, vb, cs)
    decreases Nest(va) + Nest(vb), 1, 1
  {
    NodeStands(sa, va);
    ghost var fa, fb := FootAll(sa.kids), FootAll(sb.kids);
    assert allocated(fa) && allocated(fb);
    assert LikeUpTo(sa, va, sb, vb, cs, 0) by { LikeUpToAll(sa, va, sb, vb, cs, 0); }
    hide Stands, Fits, AlikeParts, AlikeMembers, LikeUpTo, Nest, FootAll, Foot, Place;
    var x := a.child;
    ghost var i: nat := 0;
    while x != null
      invariant i <= |sa.kids| && x == NodeAt(sa.kids, i) && Stands(sa, va) && Stands(sb, vb)
      invariant LikeUpTo(sa, va, sb, vb, cs, i)
      decreases |sa.kids| - i
    {
      var same := FindLike(x, b, cs, i, sa, va, sb, vb);
      LikeUpToAll(sa, va, sb, vb, cs, i);
      if !same { return false; }
      NextKid(sa, va, i);
      x := x.next;
      i := i + 1;
    }
    LikeUpToAll(sa, va, sb, vb, cs, i);
    r := true;
  }

  // The first n members of a are like the first of their names in b.
  ghost predicate LikeUpTo(sa: Shape, a: Json, sb: Shape, b: Json, cs: bool, n: nat)
    requires Fits(sa, a) && Fits(sb, b) && a.Object? && b.Object? && n <= |sa.kids|
  {
    forall i | 0 <= i < n :: AlikeParts(sa, a, sb, b, cs, i, Place(b.members, a.members[i].key, cs))
  }

  lemma LikeUpToAll(sa: Shape, a: Json, sb: Shape, b: Json, cs: bool, n: nat)
    requires Fits(sa, a) && Fits(sb, b) && a.Object? && b.Object? && n <= |sa.kids| == |a.members|
    ensures LikeUpTo(sa, a, sb, b, cs, 0)
    ensures n == |sa.kids| ==> (LikeUpTo(sa, a, sb, b, cs, n) <==> AlikeMembers(sa, a, sb, b, cs))
    ensures n < |sa.kids| ==>
              var like := AlikeParts(sa, a, sb, b, cs, n, Place(b.members, a.members[n].key, cs));
              && (AlikeMembers(sa, a, sb, b, cs) ==> like)
              && (LikeUpTo(sa, a, sb, b, cs, n) && like ==> LikeUpTo(sa, a, sb, b, cs, n + 1))
  {
    hide AlikeParts, Place, Fits;
  }

  method FindLike(
    x: Item, b: Item, cs: bool, ghost i: nat, ghost sa: Shape, ghost va: Json, ghost sb: Shape, ghost vb: Json)
    returns (r: bool)
    requires Stands(sa, va) && Fits(sa, va) && va.Object? && i < |sa.kids| == |va.members| && x == sa.kids[i].node
    requires sb.node == b && Stands(sb, vb) && Fits(sb, vb) && vb.Object?
    ensures r <==> AlikeParts(sa, va, sb, vb, cs, i, Place(vb.members, va.members[i].key, cs))
    decreases Nest(va) + Nest(vb), 1, 0
  {
    NodeStands(sb, vb);
    PartStands(sa, va, i);
    ghost var fa, fb := FootAll(sa.kids), FootAll(sb.kids);
    assert allocated(fa) && allocated(fb);
    hide Stands, Fits, Alike, Nest, FootAll, Foot, Place;
    ghost var k: nat;
    var y;
    y, k := FindNode(b, x.name, cs, sb, vb);
    if y == null { return false; }
    r := CompareParts(x, y, cs, i, k, sa, va, sb, vb);
  }

  // A copy compares equal to its original exactly when the value is consistent.
  method DuplicateCompares(item: Item, cs: bool, ghost sh: Shape, ghost v: Json) returns (copy: Item, r: bool)
    requires sh.node == item && Stands(sh, v)
    ensures fresh(copy) && (r <==> Consistent(v, cs))
  {
    ghost var foot := Foot(sh);
    assert allocated(foot);
    ghost var rs: Shape;
    copy, rs := Duplicate(item, sh, v);
    assert Foot(rs) !! foot;
    StandsFits(sh, v);
    StandsFits(rs, v);
    ReflexiveIff(v, cs);
    if Consistent(v, cs) { CompareAlike(sh, v, rs, v, cs); }
    if Alike(sh, v, rs, v, cs) { AlikeCompares(sh, v, rs, v, cs); }
    hide Stands, Fits, Alike, Consistent, Compare, Foot;
    r := CompareNodes(item, copy, cs, sh, v, rs, v);
  }

  // The short cut does make a difference: a node compares equal to itself, consistent or not.
  method SelfCompares(item: Item, cs: bool, ghost sh: Shape, ghost v: Json) returns (r: bool)
    requires sh.node == item && Stands(sh, v)
    ensures r && (Compare(v, v, cs) <==> Consistent(v, cs))
  {
    StandsFits(sh, v);
    r := CompareNodes(item, item, cs, sh, v, sh, v);
    ReflexiveIff(v, cs);
  }
}
