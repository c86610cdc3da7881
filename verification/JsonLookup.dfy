// Looking up a member of an object by its name.
module JsonLookup {
  import opened Bytes
  import opened JsonValue

  datatype Item = NoItem | Item(value: Json)

  function Lower(b: byte): byte {
    if UPPER_A <= b <= UPPER_Z then b + 32 else b
  }

  // Equality of names under the chosen case mode.
  predicate SameKey(a: bytes, b: bytes, caseSensitive: bool) {
    |a| == |b| && forall i | 0 <= i < |a| :: if caseSensitive then a[i] == b[i] else Lower(a[i]) == Lower(b[i])
  }

  // Two bytes are the same letter in different case.
  predicate OtherCase(a: byte, b: byte) {
    ('A' <= a as char <= 'Z' && b == a + 32) || ('A' <= b as char <= 'Z' && a == b + 32)
  }

  // Where case counts, names are the same when equal; where not, when they differ at most in the case of
  // ASCII letters.
  lemma SameKeyIff(a: bytes, b: bytes)
    ensures SameKey(a, b, true) <==> a == b
    ensures SameKey(a, b, false) <==> |a| == |b| && forall i | 0 <= i < |a| :: a[i] == b[i] || OtherCase(a[i], b[i])
  {
  }

  lemma SameKeyIsEquivalence(a: bytes, b: bytes, c: bytes, cs: bool)
    ensures SameKey(a, a, cs) && (SameKey(a, b, cs) ==> SameKey(b, a, cs))
    ensures SameKey(a, b, cs) && SameKey(b, c, cs) ==> SameKey(a, c, cs)
  {
  }

  predicate FirstAt(ms: seq<Member>, name: bytes, cs: bool, i: int) {
    0 <= i < |ms| && SameKey(name, ms[i].key, cs) && forall j | 0 <= j < i :: !SameKey(name, ms[j].key, cs)
  }

  // The first member of that name.
  function Find(ms: seq<Member>, name: bytes, cs: bool): (r: Item)
    ensures r.NoItem? <==> forall i | 0 <= i < |ms| :: !SameKey(name, ms[i].key, cs)
    ensures r.Item? ==> exists i :: FirstAt(ms, name, cs, i) && r.value == ms[i].value
  {
    if ms == [] then NoItem
    else if SameKey(name, ms[0].key, cs) then
      assert FirstAt(ms, name, cs, 0);
      Item(ms[0].value)
    else
      assert forall i | 1 <= i < |ms| :: ms[i] == ms[1..][i - 1];
      assert forall i | 0 <= i < |ms| - 1 && FirstAt(ms[1..], name, cs, i) :: FirstAt(ms, name, cs, i + 1);
      Find(ms[1..], name, cs)
  }

  // get_object_item; only members have names.
  function GetItem(v: Json, name: bytes, cs: bool): Item {
    if v.Object? then Find(v.members, name, cs) else NoItem
  }

  // case_insensitive_strcmp against zero, on two strings that end at their NUL.
  method EqualIgnoringCase(a: bytes, b: bytes) returns (equal: bool)
    requires NulFree(a) && NulFree(b)
    ensures equal <==> SameKey(a, b, false)
  {
    var x, y := a + [NUL], b + [NUL];
    var i: nat := 0;
    while Lower(x[i]) == Lower(y[i])
      invariant i <= |a| && i <= |b|
      invariant forall k | 0 <= k < i :: Lower(a[k]) == Lower(b[k])
      decreases |a| - i
    {
      if x[i] == NUL { return true; }
      i := i + 1;
    }
    equal := false;
  }

  // The walk of get_object_item along the children.
  method FindItem(v: Json, name: bytes, cs: bool) returns (r: Item)
    requires v.Object? ==> NulFree(name) && forall i | 0 <= i < |v.members| :: NulFree(v.members[i].key)
    ensures r == GetItem(v, name, cs)
  {
    r := NoItem;
    if v.Object? {
      var i: nat := 0;
      var ms := v.members;
      while i < |ms|
        invariant i <= |ms| && Find(ms[i..], name, cs) == Find(ms, name, cs)
      {
        var same;
        if cs { same := name == ms[i].key; } else { same := EqualIgnoringCase(name, ms[i].key); }
        if same { return Item(ms[i].value); }
        assert ms[i..][1..] == ms[i + 1..];
        i := i + 1;
      }
    }
  }
}
