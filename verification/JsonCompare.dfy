// Structural comparison of two JSON trees.
module JsonCompare {
  import opened Bytes
  import opened JsonValue
  import opened JsonLookup

  // ----- what is compared -----

  lemma {:induction false} NestItem(items: seq<Json>, i: nat)
    requires i < |items|
    ensures Nest(items[i]) <= NestItems(items)
  {
    if i > 0 { NestItem(items[1..], i - 1); }
  }

  lemma {:induction false} NestMember(ms: seq<Member>, i: nat)
    requires i < |ms|
    ensures Nest(ms[i].value) <= NestMembers(ms)
  {
    if i > 0 { NestMember(ms[1..], i - 1); }
  }

  lemma NestFound(ms: seq<Member>, name: bytes, cs: bool)
    requires Find(ms, name, cs).Item?
    ensures Nest(Find(ms, name, cs).value) <= NestMembers(ms)
  {
    var i :| FirstAt(ms, name, cs, i) && Find(ms, name, cs).value == ms[i].value;
    NestMember(ms, i);
  }

  lemma NestTail(ms: seq<Member>)
    requires ms != []
    ensures Nest(ms[0].value) <= NestMembers(ms) && NestMembers(ms[1..]) <= NestMembers(ms)
  {
  }

  // bscJSON_Compare on trees that share no node.
  predicate Compare(a: Json, b: Json, cs: bool)
    decreases Nest(a) + Nest(b), 2, 0
  {
    match a
    case Null => b.Null?
    case False => b.False?
    case True => b.True?
    case Number(d) => b.Number? && d == b.d
    case String(s) => b.String? && s == b.s
    case Array(items) => b.Array? && CompareItems(items, b.items, cs)
    case Object(ms) => b.Object? && Covers(ms, b.members, cs) && Covers(b.members, ms, cs)
  }

  predicate CompareItems(xs: seq<Json>, ys: seq<Json>, cs: bool)
    decreases NestItems(xs) + NestItems(ys), 3, |xs|
  {
    if xs == [] || ys == [] then xs == ys
    else Compare(xs[0], ys[0], cs) && CompareItems(xs[1..], ys[1..], cs)
  }

  // Each of the members is found among the others and compares to it.
  predicate Covers(ms: seq<Member>, others: seq<Member>, cs: bool)
    decreases NestMembers(ms) + NestMembers(others), 3, |ms|
  {
    if ms == [] then true
    else
      NestTail(ms);
      var found := Find(others, ms[0].key, cs);
      found.Item?
      && (NestFound(others, ms[0].key, cs); Compare(ms[0].value, found.value, cs))
      && Covers(ms[1..], others, cs)
  }

  // ----- the meaning of a tree -----

  // An object is a finite map from names, made equal in case where case does not count.
  datatype Meaning =
    | Atom(v: Json)
    | List(items: seq<Meaning>)
    | Map(members: map<bytes, Meaning>)

  function FoldKey(key: bytes, cs: bool): bytes {
    if cs then key else seq(|key|, i requires 0 <= i < |key| => Lower(key[i]))
  }

  lemma FoldIff(a: bytes, b: bytes, cs: bool)
    ensures SameKey(a, b, cs) <==> FoldKey(a, cs) == FoldKey(b, cs)
  {
    if !cs && FoldKey(a, cs) == FoldKey(b, cs) {
      assert |a| == |FoldKey(a, cs)| == |b|;
      forall i | 0 <= i < |a| ensures Lower(a[i]) == Lower(b[i]) {
        assert FoldKey(a, cs)[i] == FoldKey(b, cs)[i];
      }
    }
  }

  function Meant(v: Json, cs: bool): Meaning
    decreases v, 1
  {
    match v
    case Array(items) => List(MeantItems(items, cs))
    case Object(ms) => Map(MeantMembers(ms, cs))
    case _ => Atom(v)
  }

  function MeantItems(items: seq<Json>, cs: bool): seq<Meaning>
    decreases items, 0
  {
    if items == [] then [] else [Meant(items[0], cs)] + MeantItems(items[1..], cs)
  }

  function MeantMembers(ms: seq<Member>, cs: bool): map<bytes, Meaning>
    decreases ms, 0
  {
    if ms == [] then map[] else MeantMembers(ms[1..], cs)[FoldKey(ms[0].key, cs) := MeantValue(ms[0], cs)]
  }

  function MeantValue(m: Member, cs: bool): Meaning
    decreases m, 2
  {
    Meant(m.value, cs)
  }

  // Wherever an object in the tree has one name more than once, all its values mean the same.
  predicate Consistent(v: Json, cs: bool)
    decreases v, 1
  {
    match v
    case Array(items) => forall i | 0 <= i < |items| :: Consistent(items[i], cs)
    case Object(ms) => Agreeing(ms, cs) && forall i | 0 <= i < |ms| :: Consistent(ms[i].value, cs)
    case _ => true
  }

  predicate Agreeing(ms: seq<Member>, cs: bool) {
    forall i, j | 0 <= i < |ms| && 0 <= j < |ms| && SameKey(ms[i].key, ms[j].key, cs) ::
      Meant(ms[i].value, cs) == Meant(ms[j].value, cs)
  }

  predicate AllConsistent(ms: seq<Member>, cs: bool) {
    forall i | 0 <= i < |ms| :: Consistent(ms[i].value, cs)
  }

  predicate ItemsConsistent(xs: seq<Json>, cs: bool) {
    forall i | 0 <= i < |xs| :: Consistent(xs[i], cs)
  }

  // No object in the tree has two names that are the same under the chosen case mode.
  predicate Unambiguous(v: Json, cs: bool)
    decreases v, 1
  {
    match v
    case Array(items) => forall i | 0 <= i < |items| :: Unambiguous(items[i], cs)
    case Object(ms) => DistinctKeys(ms, cs) && forall i | 0 <= i < |ms| :: Unambiguous(ms[i].value, cs)
    case _ => true
  }

  predicate DistinctKeys(ms: seq<Member>, cs: bool) {
    forall i, j | 0 <= i < j < |ms| :: !SameKey(ms[i].key, ms[j].key, cs)
  }

  // ----- comparing decides equality of meanings -----

  lemma {:induction false} MeantKeys(ms: seq<Member>, cs: bool, name: bytes)
    ensures FoldKey(name, cs) in MeantMembers(ms, cs) <==> Find(ms, name, cs).Item?
    ensures Find(ms, name, cs).Item? ==>
              MeantMembers(ms, cs)[FoldKey(name, cs)] == Meant(Find(ms, name, cs).value, cs)
  {
    hide FoldKey, SameKey;
    if ms != [] {
      FoldIff(name, ms[0].key, cs);
      MeantKeys(ms[1..], cs, name);
    }
  }

  lemma {:induction false} KeysAreMeant(ms: seq<Member>, cs: bool, k: bytes)
    requires k in MeantMembers(ms, cs)
    ensures exists i :: 0 <= i < |ms| && FoldKey(ms[i].key, cs) == k
  {
    hide FoldKey;
    if FoldKey(ms[0].key, cs) != k {
      KeysAreMeant(ms[1..], cs, k);
      var i :| 0 <= i < |ms[1..]| && FoldKey(ms[1..][i].key, cs) == k;
      assert ms[i + 1] == ms[1..][i];
    }
  }

  // A member of agreeing ones means what the first of its name means.
  lemma FindsItsLike(ms: seq<Member>, cs: bool, i: nat)
    requires Agreeing(ms, cs) && i < |ms|
    ensures var found := Find(ms, ms[i].key, cs); found.Item? && Meant(found.value, cs) == Meant(ms[i].value, cs)
  {
    hide SameKey, Meant;
    SameKeyIsEquivalence(ms[i].key, ms[i].key, ms[i].key, cs);
    var found := Find(ms, ms[i].key, cs);
    var k :| FirstAt(ms, ms[i].key, cs, k) && found.value == ms[k].value;
  }

  // Names that are the same find the same.
  lemma {:induction false} FindsTheSame(ms: seq<Member>, a: bytes, b: bytes, cs: bool)
    requires SameKey(a, b, cs)
    ensures Find(ms, a, cs) == Find(ms, b, cs)
  {
    hide SameKey;
    if ms != [] {
      SameKeyIsEquivalence(a, b, ms[0].key, cs);
      SameKeyIsEquivalence(b, a, ms[0].key, cs);
      FindsTheSame(ms[1..], a, b, cs);
    }
  }

  // One map lies in the other.
  ghost predicate Within(a: map<bytes, Meaning>, b: map<bytes, Meaning>) {
    forall k | k in a :: k in b && b[k] == a[k]
  }

  lemma WithinBoth(a: map<bytes, Meaning>, b: map<bytes, Meaning>)
    ensures a == b <==> Within(a, b) && Within(b, a)
  {
    if Within(a, b) && Within(b, a) {
      assert a.Keys == b.Keys;
    }
  }

  // Two trees compare equal exactly when both are consistent and they mean the same.
  lemma {:induction false} CompareMeans(a: Json, b: Json, cs: bool)
    ensures Compare(a, b, cs) <==> Consistent(a, cs) && Consistent(b, cs) && Meant(a, cs) == Meant(b, cs)
    decreases Nest(a) + Nest(b), 2, 0
  {
    hide MeantItems, MeantMembers, CompareItems, Covers, Agreeing, Found, Consistent;
    ConsistentParts(a, cs);
    ConsistentParts(b, cs);
    if a.Array? && b.Array? {
      ItemsMean(a.items, b.items, cs);
    } else if a.Object? && b.Object? {
      var ms, others := a.members, b.members;
      CoversMeans(ms, others, cs);
      CoversMeans(others, ms, cs);
      MembersMean(ms, others, cs);
    }
  }

  lemma ConsistentParts(v: Json, cs: bool)
    ensures v.Array? ==> (Consistent(v, cs) <==> ItemsConsistent(v.items, cs))
    ensures v.Object? ==> (Consistent(v, cs) <==> Agreeing(v.members, cs) && AllConsistent(v.members, cs))
    ensures !v.Array? && !v.Object? ==> Consistent(v, cs)
  {
    hide Agreeing;
  }

  lemma {:induction false} ItemsMean(xs: seq<Json>, ys: seq<Json>, cs: bool)
    ensures CompareItems(xs, ys, cs) <==>
            ItemsConsistent(xs, cs) && ItemsConsistent(ys, cs) && MeantItems(xs, cs) == MeantItems(ys, cs)
    decreases NestItems(xs) + NestItems(ys), 3, |xs|
  {
    if xs != [] && ys != [] {
      CompareMeans(xs[0], ys[0], cs);
      ItemsMean(xs[1..], ys[1..], cs);
      ItemsConsistentStep(xs, cs);
      ItemsConsistentStep(ys, cs);
      var p, q := MeantItems(xs, cs), MeantItems(ys, cs);
      assert p[0] == Meant(xs[0], cs) && p[1..] == MeantItems(xs[1..], cs);
      assert q[0] == Meant(ys[0], cs) && q[1..] == MeantItems(ys[1..], cs);
      assert p == [p[0]] + p[1..] && q == [q[0]] + q[1..];
      hide Consistent, Meant, Compare, ItemsConsistent;
    }
  }

  lemma ItemsConsistentStep(xs: seq<Json>, cs: bool)
    requires xs != []
    ensures ItemsConsistent(xs, cs) <==> Consistent(xs[0], cs) && ItemsConsistent(xs[1..], cs)
  {
    hide Consistent;
    assert forall i | 0 <= i < |xs| - 1 :: xs[1..][i] == xs[i + 1];
    if ItemsConsistent(xs[1..], cs) {
      assert forall i | 1 <= i < |xs| :: xs[i] == xs[1..][i - 1];
    }
  }

  // The member m is found among the others, with its meaning, and both are consistent.
  ghost predicate FoundOne(m: Member, others: seq<Member>, cs: bool) {
    var found := Find(others, m.key, cs);
    && found.Item?
    && Consistent(m.value, cs) && Consistent(found.value, cs)
    && Meant(found.value, cs) == Meant(m.value, cs)
  }

  ghost predicate Found(ms: seq<Member>, others: seq<Member>, cs: bool) {
    forall i | 0 <= i < |ms| :: FoundOne(ms[i], others, cs)
  }

  lemma {:induction false} CoversMeans(ms: seq<Member>, others: seq<Member>, cs: bool)
    ensures Covers(ms, others, cs) <==> Found(ms, others, cs)
    decreases NestMembers(ms) + NestMembers(others), 3, |ms|
  {
    if ms != [] {
      NestTail(ms);
      var found := Find(others, ms[0].key, cs);
      if found.Item? {
        NestFound(others, ms[0].key, cs);
        CompareMeans(ms[0].value, found.value, cs);
      }
      CoversMeans(ms[1..], others, cs);
      FoundStep(ms, others, cs);
    }
  }

  lemma FoundStep(ms: seq<Member>, others: seq<Member>, cs: bool)
    requires ms != []
    ensures Found(ms, others, cs) <==> FoundOne(ms[0], others, cs) && Found(ms[1..], others, cs)
  {
    hide FoundOne;
    assert forall i | 0 <= i < |ms| - 1 :: ms[1..][i] == ms[i + 1];
    if Found(ms[1..], others, cs) {
      assert forall i | 1 <= i < |ms| :: ms[i] == ms[1..][i - 1];
    }
  }

  // The two loops over the members together.
  lemma MembersMean(ms: seq<Member>, others: seq<Member>, cs: bool)
    ensures Found(ms, others, cs) && Found(others, ms, cs) <==>
            && Agreeing(ms, cs) && AllConsistent(ms, cs)
            && Agreeing(others, cs) && AllConsistent(others, cs)
            && MeantMembers(ms, cs) == MeantMembers(others, cs)
  {
    hide Agreeing, AllConsistent, Found, MeantMembers;
    WithinBoth(MeantMembers(ms, cs), MeantMembers(others, cs));
    if Found(ms, others, cs) && Found(others, ms, cs) {
      FoundAgrees(ms, others, cs);
      FoundAgrees(others, ms, cs);
      MembersWithin(ms, others, cs);
      MembersWithin(others, ms, cs);
    } else if Agreeing(ms, cs) && AllConsistent(ms, cs) && Agreeing(others, cs) && AllConsistent(others, cs) {
      MembersWithin(ms, others, cs);
      MembersWithin(others, ms, cs);
    }
  }

  lemma FoundAgrees(ms: seq<Member>, others: seq<Member>, cs: bool)
    requires Found(ms, others, cs)
    ensures Agreeing(ms, cs) && AllConsistent(ms, cs)
  {
    hide SameKey, Find, Meant, Consistent;
    forall i, j | 0 <= i < |ms| && 0 <= j < |ms| && SameKey(ms[i].key, ms[j].key, cs)
      ensures Meant(ms[i].value, cs) == Meant(ms[j].value, cs)
    {
      FindsTheSame(others, ms[i].key, ms[j].key, cs);
      assert FoundOne(ms[i], others, cs) && FoundOne(ms[j], others, cs);
    }
    forall i | 0 <= i < |ms| ensures Consistent(ms[i].value, cs) { assert FoundOne(ms[i], others, cs); }
  }

  lemma MembersWithin(ms: seq<Member>, others: seq<Member>, cs: bool)
    requires Agreeing(ms, cs) && AllConsistent(ms, cs) && AllConsistent(others, cs)
    ensures Found(ms, others, cs) <==> Within(MeantMembers(ms, cs), MeantMembers(others, cs))
  {
    hide Find, FoldKey, Meant, MeantMembers, Agreeing, Consistent;
    var x, y := MeantMembers(ms, cs), MeantMembers(others, cs);
    forall i | 0 <= i < |ms|
      ensures FoldKey(ms[i].key, cs) in x && x[FoldKey(ms[i].key, cs)] == Meant(ms[i].value, cs)
    {
      FindsItsLike(ms, cs, i);
      MeantKeys(ms, cs, ms[i].key);
    }
    forall i | 0 <= i < |ms|
      ensures FoundOne(ms[i], others, cs) <==>
              FoldKey(ms[i].key, cs) in y && y[FoldKey(ms[i].key, cs)] == Meant(ms[i].value, cs)
    {
      MeantKeys(others, cs, ms[i].key);
      if Find(others, ms[i].key, cs).Item? { FoundConsistent(others, ms[i].key, cs); }
    }
    hide FoundOne, AllConsistent;
    if Found(ms, others, cs) {
      forall k | k in x ensures k in y && y[k] == x[k] {
        KeysAreMeant(ms, cs, k);
        var i :| 0 <= i < |ms| && FoldKey(ms[i].key, cs) == k;
      }
    }
  }

  lemma FoundConsistent(ms: seq<Member>, name: bytes, cs: bool)
    requires AllConsistent(ms, cs) && Find(ms, name, cs).Item?
    ensures Consistent(Find(ms, name, cs).value, cs)
  {
    hide Consistent;
    var i :| FirstAt(ms, name, cs, i) && Find(ms, name, cs).value == ms[i].value;
  }

  // ----- what follows -----

  // A tree compares equal to a copy of itself exactly when it is consistent.
  lemma ReflexiveIff(v: Json, cs: bool)
    ensures Compare(v, v, cs) <==> Consistent(v, cs)
  {
    CompareMeans(v, v, cs);
  }

  // On all trees whatever, comparing is symmetric and transitive.
  lemma CompareIsEquivalence(a: Json, b: Json, c: Json, cs: bool)
    ensures Compare(a, b, cs) <==> Compare(b, a, cs)
    ensures Compare(a, b, cs) && Compare(b, c, cs) ==> Compare(a, c, cs)
    ensures Compare(a, b, cs) ==> Compare(a, a, cs) && Compare(b, b, cs)
  {
    CompareMeans(a, a, cs);
    CompareMeans(b, b, cs);
    CompareMeans(a, b, cs);
    CompareMeans(b, a, cs);
    CompareMeans(b, c, cs);
    CompareMeans(a, c, cs);
    hide Compare, Consistent, Meant;
  }

  // Trees without repeated names are consistent, so on them comparing decides equality of meanings.
  lemma {:induction false} UnambiguousConsistent(v: Json, cs: bool)
    requires Unambiguous(v, cs)
    ensures Consistent(v, cs)
    decreases v
  {
    if v.Array? {
      forall i | 0 <= i < |v.items| ensures Consistent(v.items[i], cs) { UnambiguousConsistent(v.items[i], cs); }
    } else if v.Object? {
      var ms := v.members;
      forall i | 0 <= i < |ms| ensures Consistent(ms[i].value, cs) { UnambiguousConsistent(ms[i].value, cs); }
      DistinctAgree(ms, cs);
    }
  }

  lemma DistinctAgree(ms: seq<Member>, cs: bool)
    requires DistinctKeys(ms, cs)
    ensures Agreeing(ms, cs)
  {
    hide SameKey, Meant;
    forall i, j | 0 <= i < |ms| && 0 <= j < |ms| && SameKey(ms[i].key, ms[j].key, cs)
      ensures Meant(ms[i].value, cs) == Meant(ms[j].value, cs)
    {
      SameKeyIsEquivalence(ms[i].key, ms[j].key, ms[i].key, cs);
    }
  }

  lemma CompareUnambiguous(a: Json, b: Json, cs: bool)
    requires Unambiguous(a, cs) && Unambiguous(b, cs)
    ensures Compare(a, b, cs) <==> Meant(a, cs) == Meant(b, cs)
  {
    UnambiguousConsistent(a, cs);
    UnambiguousConsistent(b, cs);
    CompareMeans(a, b, cs);
  }

  // A name twice with values that mean the same does no harm, with others it does: the later member is
  // held against the first.
  lemma RepeatedName(name: bytes, v: Json, w: Json, cs: bool)
    requires Consistent(v, cs) && Consistent(w, cs)
    ensures var twice := Object([Member(name, v), Member(name, w)]);
            Compare(twice, twice, cs) <==> Meant(v, cs) == Meant(w, cs)
  {
    var ms := [Member(name, v), Member(name, w)];
    SameKeyIsEquivalence(name, name, name, cs);
    ReflexiveIff(Object(ms), cs);
    hide Meant, Compare;
    if Agreeing(ms, cs) {
      assert SameKey(ms[0].key, ms[1].key, cs);
    }
  }
}
