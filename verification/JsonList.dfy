// The children of a JSON node: a list linked both ways, with NULL at either end.
module JsonList {
  import opened Sequences

  class Node {
    const id: nat
    var child: Node?
    var next: Node?
    var prev: Node?

    constructor (id: nat)
      ensures this.id == id && child == null && next == null && prev == null
    {
      this.id := id;
      child, next, prev := null, null, null;
    }
  }

  function Nth(s: seq<Node>, i: int): Node? {
    if 0 <= i < |s| then s[i] else null
  }

  // next and prev are inverse to each other and NULL at the ends.
  ghost predicate Chain(s: seq<Node>)
    reads (set n | n in s)`next, (set n | n in s)`prev
  {
    Forward(s) && Backward(s)
  }

  ghost predicate Forward(s: seq<Node>)
    reads (set n | n in s)`next
  {
    forall i {:trigger s[i].next} | 0 <= i < |s| :: s[i].next == Nth(s, i + 1)
  }

  ghost predicate Backward(s: seq<Node>)
    reads (set n | n in s)`prev
  {
    forall i {:trigger s[i].prev} | 0 <= i < |s| :: s[i].prev == Nth(s, i - 1)
  }

  // The children of parent are s, in that order.
  ghost predicate Children(parent: Node, s: seq<Node>)
    reads parent`child, (set n | n in s)`next, (set n | n in s)`prev
  {
    Distinct(s) && Chain(s) && parent.child == Nth(s, 0)
  }

  ghost predicate Loose(n: Node)
    reads n`next, n`prev
  {
    n.next == null && n.prev == null
  }

  // ----- sequences -----

  lemma DistinctInserted(s: seq<Node>, k: nat, x: Node)
    requires Distinct(s) && k <= |s| && x !in s
    ensures Distinct(Inserted(s, k, x)) && Nth(Inserted(s, k, x), 0) == if k == 0 then x else Nth(s, 0)
  {
    var t := Inserted(s, k, x);
    forall i, j | 0 <= i < j < |t| ensures t[i] != t[j] {
      assert t[i] == if i < k then s[i] else if i == k then x else s[i - 1];
      assert t[j] == if j < k then s[j] else if j == k then x else s[j - 1];
    }
  }

  lemma DistinctRemoved(s: seq<Node>, k: nat)
    requires Distinct(s) && k < |s|
    ensures Distinct(Removed(s, k)) && Nth(Removed(s, k), 0) == Nth(s, if k == 0 then 1 else 0)
    ensures s[k] !in Removed(s, k)
  {
    var t := Removed(s, k);
    forall i, j | 0 <= i < j < |t| ensures t[i] != t[j] {
      assert t[i] == s[if i < k then i else i + 1] && t[j] == s[if j < k then j else j + 1];
    }
    forall i | 0 <= i < |t| ensures t[i] != s[k] {
      assert t[i] == s[if i < k then i else i + 1];
    }
  }

  lemma DistinctReplaced(s: seq<Node>, k: nat, x: Node)
    requires Distinct(s) && k < |s| && x !in s
    ensures Distinct(s[k := x]) && Nth(s[k := x], 0) == (if k == 0 then x else Nth(s, 0)) && s[k] !in s[k := x]
  {
  }

  // ----- reading -----

  // get_array_item
  method GetItem(parent: Node?, index: nat, ghost s: seq<Node>) returns (r: Node?)
    requires parent != null ==> Children(parent, s)
    ensures r == if parent == null then null else Nth(s, index)
  {
    if parent == null { return null; }
    r := parent.child;
    var n := index;
    ghost var i: nat := 0;
    while r != null && n > 0
      invariant i + n == index && i <= |s| && r == Nth(s, i)
    {
      n := n - 1;
      r := r.next;
      i := i + 1;
    }
  }

  method GetSize(parent: Node?, ghost s: seq<Node>) returns (size: nat)
    requires parent != null ==> Children(parent, s)
    ensures size == if parent == null then 0 else |s|
  {
    size := 0;
    if parent == null { return; }
    var c := parent.child;
    while c != null
      invariant size <= |s| && c == Nth(s, size)
      decreases |s| - size
    {
      size := size + 1;
      c := c.next;
    }
  }

  // ----- editing -----

  // add_item_to_array
  method Add(parent: Node?, item: Node?, ghost s: seq<Node>) returns (ok: bool)
    requires parent != null && item != null ==>
               Children(parent, s) && item !in s && Loose(item)
    modifies if parent != null && item != null then {parent} else {}
    modifies if parent != null && item != null then {item} else {}
    modifies if parent != null && item != null then set n | n in s else {}
    ensures ok <==> parent != null && item != null
    ensures ok ==> Children(parent, s + [item])
  {
    if item == null || parent == null { return false; }
    ok := true;
    AddTo(parent, item, s);
  }

  method AddTo(parent: Node, item: Node, ghost s: seq<Node>)
    requires Children(parent, s) && item !in s && Loose(item)
    modifies parent`child, item`prev, (set n | n in s)`next
    ensures Children(parent, s + [item])
  {
    if parent.child == null {
      parent.child := item;
    } else {
      var last := Last(parent, s);
      last.next := item;
      item.prev := last;
      ChainAppended(s, item);
    }
  }

  method Last(parent: Node, ghost s: seq<Node>) returns (c: Node)
    requires Children(parent, s) && s != []
    ensures c == s[|s| - 1]
  {
    c := parent.child;
    ghost var i: nat := 0;
    while c.next != null
      invariant i < |s| && c == s[i]
      decreases |s| - i
    {
      c := c.next;
      i := i + 1;
    }
  }

  lemma ChainAppended(s: seq<Node>, item: Node)
    requires s != [] && item.next == null && item.prev == s[|s| - 1] && s[|s| - 1].next == item
    requires forall i | 0 <= i < |s| - 1 :: s[i].next == s[i + 1]
    requires forall i | 0 <= i < |s| :: s[i].prev == Nth(s, i - 1)
    ensures Chain(s + [item])
  {
  }

  // bscJSON_InsertItemInArray: at a place past the end, the item is appended.
  method Insert(parent: Node, which: int, item: Node, ghost s: seq<Node>)
    requires Children(parent, s) && item !in s && (which >= |s| ==> Loose(item))
    modifies parent`child, item`next, item`prev, (set n | n in s)`next, (set n | n in s)`prev
    ensures Children(parent, if which < 0 then s else Inserted(s, if which < |s| then which else |s|, item))
  {
    if which < 0 { return; }
    var after := GetItem(parent, which, s);
    if after == null {
      AddTo(parent, item, s);
      assert Inserted(s, |s|, item) == s + [item];
      return;
    }
    Link(parent, after, item, s, which);
  }

  method Link(parent: Node, after: Node, item: Node, ghost s: seq<Node>, ghost k: nat)
    requires Children(parent, s) && item !in s && k < |s| && after == s[k]
    modifies parent`child, item`next, item`prev, (set n | n in s)`next, (set n | n in s)`prev
    ensures Children(parent, Inserted(s, k, item))
  {
    DistinctInserted(s, k, item);
    var first := after == parent.child;
    assert first <==> k == 0;
    LinkPrev(after, item, s, k);
    LinkNext(after, item, if first then null else item.prev, s, k);
    hide Distinct, Forward, Backward, Inserted;
    if first { parent.child := item; }
  }

  method LinkPrev(after: Node, item: Node, ghost s: seq<Node>, ghost k: nat)
    requires Distinct(s) && Backward(s) && item !in s && k < |s| && after == s[k]
    modifies item`prev, after`prev
    ensures Backward(Inserted(s, k, item)) && item.prev == Nth(s, k - 1)
  {
    item.prev := after.prev;
    after.prev := item;
    ghost var t := Inserted(s, k, item);
    forall i | 0 <= i < |t| ensures t[i].prev == Nth(t, i - 1) {
      if i < k { assert t[i] == s[i]; } else if i > k { assert t[i] == s[i - 1]; }
    }
  }

  method LinkNext(after: Node, item: Node, before: Node?, ghost s: seq<Node>, ghost k: nat)
    requires Distinct(s) && Forward(s) && item !in s && k < |s| && after == s[k] && before == Nth(s, k - 1)
    modifies item`next, (if before == null then {} else {before})`next
    ensures Forward(Inserted(s, k, item))
  {
    item.next := after;
    if before != null { before.next := item; }
    ghost var t := Inserted(s, k, item);
    forall i | 0 <= i < |t| ensures t[i].next == Nth(t, i + 1) {
      if i < k { assert t[i] == s[i]; } else if i > k { assert t[i] == s[i - 1]; }
    }
  }

  // bscJSON_DetachItemViaPointer, for the child at place k
  method Detach(parent: Node, item: Node, ghost s: seq<Node>, ghost k: nat)
    requires Children(parent, s) && k < |s| && s[k] == item
    modifies parent`child, (set n | n in s)`next, (set n | n in s)`prev
    ensures Children(parent, Removed(s, k)) && Loose(item)
  {
    DistinctRemoved(s, k);
    assert parent.child == item <==> k == 0;
    BypassNext(item, s, k);
    BypassPrev(item, s, k);
    assert item.next == Nth(s, k + 1);
    hide Distinct, Forward, Backward, Removed;
    if item == parent.child { parent.child := item.next; }
    Loosen(item, Removed(s, k));
  }

  method Loosen(item: Node, ghost t: seq<Node>)
    requires item !in t && Chain(t)
    modifies item`next, item`prev
    ensures Chain(t) && Loose(item)
  {
    item.prev := null;
    item.next := null;
  }

  method BypassNext(item: Node, ghost s: seq<Node>, ghost k: nat)
    requires Distinct(s) && Chain(s) && k < |s| && s[k] == item
    modifies (set n | n in s)`next
    ensures Forward(Removed(s, k)) && item.next == old(item.next)
  {
    if item.prev != null { item.prev.next := item.next; }
    ghost var t := Removed(s, k);
    forall i | 0 <= i < |t| ensures t[i].next == Nth(t, i + 1) {
      if i < k { assert t[i] == s[i]; } else { assert t[i] == s[i + 1]; }
    }
  }

  method BypassPrev(item: Node, ghost s: seq<Node>, ghost k: nat)
    requires Distinct(s) && Backward(s) && k < |s| && s[k] == item && item.next == Nth(s, k + 1)
    modifies (set n | n in s)`prev
    ensures Backward(Removed(s, k)) && item.prev == old(item.prev)
  {
    if item.next != null { item.next.prev := item.prev; }
    ghost var t := Removed(s, k);
    forall i | 0 <= i < |t| ensures t[i].prev == Nth(t, i - 1) {
      if i < k { assert t[i] == s[i]; } else { assert t[i] == s[i + 1]; }
    }
  }

  // bscJSON_DetachItemFromArray
  method DetachAt(parent: Node, which: int, ghost s: seq<Node>) returns (r: Node?)
    requires Children(parent, s)
    modifies parent`child, (set n | n in s)`next, (set n | n in s)`prev
    ensures r == Nth(s, which) && (r != null ==> Loose(r))
    ensures Children(parent, if 0 <= which < |s| then Removed(s, which) else s)
  {
    if which < 0 { return null; }
    r := GetItem(parent, which, s);
    if r != null { Detach(parent, r, s, which); }
  }

  // bscJSON_ReplaceItemViaPointer, for the child at place k
  method Replace(parent: Node, item: Node, replacement: Node, ghost s: seq<Node>, ghost k: nat)
    requires Children(parent, s) && k < |s| && s[k] == item && (replacement == item || replacement !in s)
    modifies parent`child, replacement`next, replacement`prev, (set n | n in s)`next, (set n | n in s)`prev
    ensures Children(parent, s[k := replacement]) && (replacement != item ==> Loose(item))
  {
    if replacement == item {
      assert s[k := replacement] == s;
      return;
    }
    DistinctReplaced(s, k, replacement);
    assert parent.child == item <==> k == 0;
    SubstituteNext(item, replacement, s, k);
    SubstitutePrev(item, replacement, s, k);
    hide Distinct, Forward, Backward;
    if parent.child == item { parent.child := replacement; }
    Loosen(item, s[k := replacement]);
  }

  method SubstituteNext(item: Node, x: Node, ghost s: seq<Node>, ghost k: nat)
    requires Distinct(s) && Chain(s) && k < |s| && s[k] == item && x !in s
    modifies x`next, (set n | n in s)`next
    ensures Forward(s[k := x]) && x.next == Nth(s, k + 1)
  {
    x.next := item.next;
    if item.prev != null { item.prev.next := x; }
    ghost var t := s[k := x];
    forall i | 0 <= i < |t| ensures t[i].next == Nth(t, i + 1) {
      if i != k { assert t[i] == s[i]; }
    }
  }

  method SubstitutePrev(item: Node, x: Node, ghost s: seq<Node>, ghost k: nat)
    requires Distinct(s) && Backward(s) && k < |s| && s[k] == item && x !in s && x.next == Nth(s, k + 1)
    modifies x`prev, (set n | n in s)`prev
    ensures Backward(s[k := x])
  {
    x.prev := item.prev;
    if x.next != null { x.next.prev := x; }
    ghost var t := s[k := x];
    forall i | 0 <= i < |t| ensures t[i].prev == Nth(t, i - 1) {
      if i != k { assert t[i] == s[i]; }
    }
  }

  // bscJSON_ReplaceItemInArray
  method ReplaceAt(parent: Node, which: int, replacement: Node, ghost s: seq<Node>)
    requires Children(parent, s) && replacement !in s
    modifies parent`child, replacement`next, replacement`prev, (set n | n in s)`next, (set n | n in s)`prev
    ensures Children(parent, if 0 <= which < |s| then s[which := replacement] else s)
  {
    if which < 0 { return; }
    var item := GetItem(parent, which, s);
    if item != null { Replace(parent, item, replacement, s, which); }
  }

  // ----- whole runs -----

  // Edits by a caller that keeps the nodes it has detached: new nodes come from id, old ones from the
  // place kept among those.
  datatype Edit =
    | Adding(id: nat)
    | Inserting(which: int, id: nat)
    | Replacing(which: int, id: nat)
    | Detaching(which: int)
    | Returning(which: int, kept: nat)

  // The identities of the children and of the nodes kept.
  datatype Ids = Ids(list: seq<nat>, kept: seq<nat>)

  function Insertion(s: seq<nat>, which: int, id: nat): seq<nat> {
    if which < 0 then s else Inserted(s, if which < |s| then which else |s|, id)
  }

  function Edited(s: Ids, e: Edit): Ids {
    match e
    case Adding(id) => s.(list := s.list + [id])
    case Inserting(which, id) => s.(list := Insertion(s.list, which, id))
    case Replacing(which, id) => if 0 <= which < |s.list| then s.(list := s.list[which := id]) else s
    case Detaching(which) =>
      if 0 <= which < |s.list| then Ids(Removed(s.list, which), s.kept + [s.list[which]]) else s
    case Returning(which, kept) =>
      if which < 0 || kept >= |s.kept| then s
      else Ids(Insertion(s.list, which, s.kept[kept]), Removed(s.kept, kept))
  }

  function EditedAll(s: Ids, es: seq<Edit>): Ids
    decreases es
  {
    if es == [] then s else EditedAll(Edited(s, es[0]), es[1..])
  }

  ghost function IdsOf(s: seq<Node>): (r: seq<nat>)
    ensures |r| == |s| && forall i | 0 <= i < |s| :: r[i] == s[i].id
  {
    seq(|s|, i requires 0 <= i < |s| => s[i].id)
  }

  // The nodes kept have no links, and none of them is a child.
  ghost predicate Kept(s: seq<Node>, kept: seq<Node>)
    reads (set n | n in kept)`next, (set n | n in kept)`prev
  {
    Distinct(kept) && forall n | n in kept :: n !in s && Loose(n)
  }

  ghost predicate Held(parent: Node, s: seq<Node>, kept: seq<Node>)
    reads parent`child, (set n | n in s)`next, (set n | n in s)`prev, (set n | n in kept)`next, (set n | n in kept)`prev
  {
    Children(parent, s) && Kept(s, kept)
  }

  function Place(n: nat, which: nat): nat {
    if which < n then which else n
  }

  method PlaceNode(parent: Node, which: nat, x: Node, ghost s: seq<Node>, ghost kept: seq<Node>)
    requires Held(parent, s, kept) && x !in s && x !in kept && Loose(x)
    modifies parent`child, x`next, x`prev, (set n | n in s)`next, (set n | n in s)`prev
    ensures Held(parent, Inserted(s, Place(|s|, which), x), kept)
  {
    hide Distinct, Children;
    Insert(parent, which, x, s);
    IdsInserted(s, Place(|s|, which), x);
    hide Inserted;
  }

  method Apply(parent: Node, e: Edit, ghost s: seq<Node>, kept: seq<Node>)
    returns (ghost t: seq<Node>, keeping: seq<Node>)
    requires Held(parent, s, kept)
    modifies parent`child
    modifies (set n | n in s)`next, (set n | n in s)`prev, (set n | n in kept)`next, (set n | n in kept)`prev
    ensures Held(parent, t, keeping)
    ensures Ids(IdsOf(t), IdsOf(keeping)) == Edited(Ids(IdsOf(s), IdsOf(kept)), e)
    ensures forall n | n in t || n in keeping :: n in s || n in kept || fresh(n)
  {
    hide Inserted, Removed, Held;
    t, keeping := s, kept;
    match e {
      case Adding(id) => t := ApplyAdd(parent, id, s, kept);
      case Inserting(which, id) => if which >= 0 { t := ApplyNew(parent, which, id, s, kept); }
      case Replacing(which, id) => t := ApplyReplace(parent, which, id, s, kept);
      case Detaching(which) => t, keeping := ApplyDetach(parent, which, s, kept);
      case Returning(which, place) =>
        if which >= 0 && place < |kept| { t, keeping := ApplyReturn(parent, which, place, s, kept); }
    }
  }

  method ApplyAdd(parent: Node, id: nat, ghost s: seq<Node>, ghost kept: seq<Node>) returns (ghost t: seq<Node>)
    requires Held(parent, s, kept)
    modifies parent`child, (set n | n in s)`next, (set n | n in s)`prev
    ensures Held(parent, t, kept) && IdsOf(t) == IdsOf(s) + [id]
    ensures forall n | n in t :: n in s || fresh(n)
  {
    hide Children;
    var x := new Node(id);
    assert Children(parent, s);
    AddTo(parent, x, s);
    t := s + [x];
  }

  method ApplyNew(parent: Node, which: nat, id: nat, ghost s: seq<Node>, ghost kept: seq<Node>)
    returns (ghost t: seq<Node>)
    requires Held(parent, s, kept)
    modifies parent`child, (set n | n in s)`next, (set n | n in s)`prev
    ensures Held(parent, t, kept) && IdsOf(t) == Inserted(IdsOf(s), Place(|s|, which), id)
    ensures forall n | n in t :: n in s || fresh(n)
  {
    hide Inserted, Held;
    var x := new Node(id);
    assert Held(parent, s, kept);
    PlaceNode(parent, which, x, s, kept);
    t := Inserted(s, Place(|s|, which), x);
    IdsInserted(s, Place(|s|, which), x);
  }

  method ApplyReturn(parent: Node, which: nat, place: nat, ghost s: seq<Node>, kept: seq<Node>)
    returns (ghost t: seq<Node>, keeping: seq<Node>)
    requires Held(parent, s, kept) && place < |kept|
    modifies parent`child
    modifies (set n | n in s)`next, (set n | n in s)`prev, (set n | n in kept)`next, (set n | n in kept)`prev
    ensures Held(parent, t, keeping)
    ensures IdsOf(t) == Inserted(IdsOf(s), Place(|s|, which), IdsOf(kept)[place])
    ensures IdsOf(keeping) == Removed(IdsOf(kept), place)
    ensures forall n | n in t || n in keeping :: n in s || n in kept
  {
    var x := kept[place];
    assert x in kept;
    keeping := Removed(kept, place);
    DistinctRemoved(kept, place);
    IdsRemoved(kept, place);
    hide Inserted, Removed, Children;
    assert Held(parent, s, keeping);
    PlaceNode(parent, which, x, s, keeping);
    t := Inserted(s, Place(|s|, which), x);
    IdsInserted(s, Place(|s|, which), x);
  }

  method ApplyDetach(parent: Node, which: int, ghost s: seq<Node>, kept: seq<Node>)
    returns (ghost t: seq<Node>, keeping: seq<Node>)
    requires Held(parent, s, kept)
    modifies parent`child, (set n | n in s)`next, (set n | n in s)`prev
    ensures Held(parent, t, keeping)
    ensures Ids(IdsOf(t), IdsOf(keeping)) == Edited(Ids(IdsOf(s), IdsOf(kept)), Detaching(which))
    ensures forall n | n in t || n in keeping :: n in s || n in kept
  {
    t, keeping := s, kept;
    var r := DetachAt(parent, which, s);
    if r != null {
      t, keeping := Removed(s, which), kept + [r];
      DistinctRemoved(s, which);
      IdsRemoved(s, which);
      assert r in s;
      hide Removed, Children;
    }
  }

  method ApplyReplace(parent: Node, which: int, id: nat, ghost s: seq<Node>, ghost kept: seq<Node>)
    returns (ghost t: seq<Node>)
    requires Held(parent, s, kept)
    modifies parent`child, (set n | n in s)`next, (set n | n in s)`prev
    ensures Held(parent, t, kept)
    ensures IdsOf(t) == if 0 <= which < |s| then IdsOf(s)[which := id] else IdsOf(s)
    ensures forall n | n in t :: n in s || fresh(n)
  {
    hide Children;
    var x := new Node(id);
    assert Children(parent, s);
    ReplaceAt(parent, which, x, s);
    t := if 0 <= which < |s| then s[which := x] else s;
  }

  lemma IdsInserted(s: seq<Node>, k: nat, x: Node)
    requires k <= |s|
    ensures IdsOf(Inserted(s, k, x)) == Inserted(IdsOf(s), k, x.id)
    ensures forall n | n in Inserted(s, k, x) :: n in s || n == x
  {
  }

  lemma IdsRemoved(s: seq<Node>, k: nat)
    requires k < |s|
    ensures IdsOf(Removed(s, k)) == Removed(IdsOf(s), k)
    ensures forall n | n in Removed(s, k) :: n in s
  {
  }

  // Any number of edits, on any children: the list holds what the same edits make of a sequence.
  method ApplyAll(parent: Node, es: seq<Edit>, ghost s: seq<Node>) returns (ghost t: seq<Node>, kept: seq<Node>)
    requires Children(parent, s)
    modifies parent`child, (set n | n in s)`next, (set n | n in s)`prev
    ensures Children(parent, t) && Ids(IdsOf(t), IdsOf(kept)) == EditedAll(Ids(IdsOf(s), []), es)
    ensures forall n | n in kept :: n !in t && Loose(n)
  {
    hide Edited, Children;
    t, kept := s, [];
    var i: nat := 0;
    while i < |es|
      invariant i <= |es| && Held(parent, t, kept)
      invariant forall n | n in t || n in kept :: n in s || fresh(n)
      invariant EditedAll(Ids(IdsOf(t), IdsOf(kept)), es[i..]) == EditedAll(Ids(IdsOf(s), []), es)
    {
      assert es[i..][1..] == es[i + 1..];
      t, kept := Apply(parent, es[i], t, kept);
      i := i + 1;
    }
  }
}
