/** The operations of 3rdparty/cjson/cJSON.c on linked nodes: child lists, comparison and duplication. */
module JsonNodes {
  import opened Bytes
  import opened Json
  import opened JsonCompare
  import opened JsonTrees

  // ---------------------------------------------------------------- child lists

  /** ns with x put in front of position k. */
  ghost function Inserted<T>(ns: seq<T>, k: nat, x: T): seq<T>
    requires k <= |ns|
  {
    ns[..k] + [x] + ns[k..]
  }

  ghost function Removed<T>(ns: seq<T>, k: nat): seq<T>
    requires k < |ns|
  {
    ns[..k] + ns[k + 1..]
  }

  method GetArrayItem(parent: Node, index: nat, ghost ns: seq<Node>) returns (r: Node?)
    requires Linked(parent.child, ns)
    ensures r == if index < |ns| then ns[index] else null
  {
    r := parent.child;
    var left := index;
    ghost var k := 0;
    while r != null && left > 0
      invariant k <= |ns| && r == (if k < |ns| then ns[k] else null)
      invariant k + left == index
      decreases left
    {
      r := r.next;
      left := left - 1;
      k := k + 1;
    }
  }

  method GetArraySize(parent: Node, ghost ns: seq<Node>) returns (size: nat)
    requires Linked(parent.child, ns)
    ensures size == |ns|
  {
    var child := parent.child;
    size := 0;
    while child != null
      invariant size <= |ns| && child == (if size < |ns| then ns[size] else null)
      decreases |ns| - size
    {
      size := size + 1;
      child := child.next;
    }
  }

  /** add_item_to_array: appends a detached item. */
  method AddItemToArray(parent: Node, item: Node, ghost ns: seq<Node>)
    requires Linked(parent.child, ns) && Detached(item) && item !in ns
    modifies parent`child, ns`next, item`prev
    ensures Linked(parent.child, ns + [item])
  {
    var child := parent.child;
    if child == null {
      parent.child := item;
    } else {
      ghost var k := 0;
      while child.next != null
        invariant k < |ns| && child == ns[k] && Linked(parent.child, ns)
        invariant unchanged(ns) && unchanged(parent) && unchanged(item)
        decreases |ns| - k
      {
        child := child.next;
        k := k + 1;
      }
      child.next := item;
      item.prev := child;
    }
  }

  /** cJSON_InsertItemInArray: a negative position changes nothing, one behind the end appends. */
  method InsertItemInArray(parent: Node, which: int, newItem: Node, ghost ns: seq<Node>)
    requires Linked(parent.child, ns) && Detached(newItem) && newItem !in ns
    modifies parent`child, ns`next, ns`prev, newItem`next, newItem`prev
    ensures Linked(parent.child, if which < 0 then ns
                                 else if which < |ns| then Inserted(ns, which, newItem)
                                 else ns + [newItem])
    ensures which < 0 ==> Detached(newItem)
  {
    if which < 0 {
      return;
    }
    var after := GetArrayItem(parent, which, ns);
    if after == null {
      AddItemToArray(parent, newItem, ns);
      return;
    }
    InsertBefore(parent, after, newItem, ns, which);
  }

  /** The relinking of cJSON_InsertItemInArray in front of the child at position k. */
  method InsertBefore(parent: Node, after: Node, newItem: Node, ghost ns: seq<Node>, ghost k: nat)
    requires Linked(parent.child, ns) && newItem !in ns && k < |ns| && ns[k] == after
    modifies parent`child, ns`next, ns`prev, newItem`next, newItem`prev
    ensures Linked(parent.child, Inserted(ns, k, newItem))
  {
    newItem.next := after;
    newItem.prev := after.prev;
    after.prev := newItem;
    if after == parent.child {
      parent.child := newItem;
    } else {
      newItem.prev.next := newItem;
    }
  }

  /** cJSON_DetachItemViaPointer for the child at position k, or for no item. */
  method DetachItemViaPointer(parent: Node, item: Node?, ghost ns: seq<Node>, ghost k: nat) returns (r: Node?)
    requires Linked(parent.child, ns) && (item != null ==> k < |ns| && ns[k] == item)
    modifies parent`child, ns`next, ns`prev
    ensures r == item
    ensures item == null ==> Linked(parent.child, ns)
    ensures item != null ==> Linked(parent.child, Removed(ns, k)) && Detached(item)
  {
    if item == null {
      return null;
    }
    if item.prev != null {
      item.prev.next := item.next;
    }
    if item.next != null {
      item.next.prev := item.prev;
    }
    if item == parent.child {
      parent.child := item.next;
    }
    item.prev := null;
    item.next := null;
    r := item;
  }

  /** cJSON_DetachItemFromArray: a position outside the list detaches nothing. */
  method DetachItemFromArray(parent: Node, which: int, ghost ns: seq<Node>) returns (r: Node?)
    requires Linked(parent.child, ns)
    modifies parent`child, ns`next, ns`prev
    ensures !(0 <= which < |ns|) ==> r == null && Linked(parent.child, ns)
    ensures 0 <= which < |ns| ==> r == ns[which] && Linked(parent.child, Removed(ns, which)) && Detached(ns[which])
  {
    if which < 0 {
      return null;
    }
    var item := GetArrayItem(parent, which, ns);
    r := DetachItemViaPointer(parent, item, ns, which);
  }

  /** cJSON_ReplaceItemViaPointer for the child at position k, or for no item; the replaced node ends up
      detached, ready for its deletion. */
  method ReplaceItemViaPointer(parent: Node, item: Node?, replacement: Node, ghost ns: seq<Node>, ghost k: nat)
    returns (ok: bool)
    requires Linked(parent.child, ns) && (item != null ==> k < |ns| && ns[k] == item)
    requires replacement == item || (Detached(replacement) && replacement !in ns)
    modifies parent`child, ns`next, ns`prev, replacement`next, replacement`prev
    ensures ok <==> item != null
    ensures !ok ==> Linked(parent.child, ns)
    ensures ok ==> Linked(parent.child, ns[k := replacement]) && (replacement != item ==> Detached(item))
  {
    if item == null {
      return false;
    }
    if replacement == item {
      assert ns[k := replacement] == ns;
      return true;
    }
    replacement.next := item.next;
    replacement.prev := item.prev;
    if replacement.next != null {
      replacement.next.prev := replacement;
    }
    if replacement.prev != null {
      replacement.prev.next := replacement;
    }
    if parent.child == item {
      parent.child := replacement;
    }
    item.next := null;
    item.prev := null;
    ok := true;
  }

  /** cJSON_ReplaceItemInArray: a position outside the list changes nothing. */
  method ReplaceItemInArray(parent: Node, which: int, newItem: Node, ghost ns: seq<Node>)
    requires Linked(parent.child, ns) && Detached(newItem) && newItem !in ns
    modifies parent`child, ns`next, ns`prev, newItem`next, newItem`prev
    ensures Linked(parent.child, if 0 <= which < |ns| then ns[which := newItem] else ns)
    ensures 0 <= which < |ns| ==> Detached(ns[which])
  {
    if which < 0 {
      return;
    }
    var item := GetArrayItem(parent, which, ns);
    var ok := ReplaceItemViaPointer(parent, item, newItem, ns, which);
  }

  // ---------------------------------------------------------------- comparison

  lemma FindRound(ms: seq<Member>, k: nat, name: Text, caseSensitive: bool)
    requires k <= |ms|
    ensures Find(ms[k..], name, caseSensitive) ==
            if k == |ms| then None
            else if KeyMatches(name, ms[k].key, caseSensitive) then Some(ms[k].value)
            else Find(ms[k + 1..], name, caseSensitive)
    ensures ms[0..] == ms
  {
    if k < |ms| {
      assert ms[k..][1..] == ms[k + 1..];
    }
  }

  /** The first child whose key matches; |ts| if there is none. */
  function KidIndex(ts: seq<Tree>, name: Text, caseSensitive: bool): (k: nat)
    requires forall i :: 0 <= i < |ts| ==> ts[i].key.Some?
    ensures k <= |ts| && (k < |ts| ==> KeyMatches(name, ts[k].key.value, caseSensitive))
    ensures forall i :: 0 <= i < k ==> !KeyMatches(name, ts[i].key.value, caseSensitive)
  {
    if ts == [] || KeyMatches(name, ts[0].key.value, caseSensitive) then 0
    else 1 + KidIndex(ts[1..], name, caseSensitive)
  }

  lemma {:induction false} FindAtIndex(ts: seq<Tree>, name: Text, caseSensitive: bool)
    requires forall i :: 0 <= i < |ts| ==> ts[i].key.Some? && Keyed(ts[i])
    ensures var k := KidIndex(ts, name, caseSensitive);
            Find(ToMembers(ts), name, caseSensitive) == if k < |ts| then Some(ToValue(ts[k])) else None
  {
    hide ToValue, Keyed, KeyMatches, ToMembers;
    MembersRound(ts);
    if ts != [] && !KeyMatches(name, ts[0].key.value, caseSensitive) {
      FindAtIndex(ts[1..], name, caseSensitive);
    }
  }

  lemma MembersRound(ts: seq<Tree>)
    requires forall i :: 0 <= i < |ts| ==> ts[i].key.Some? && Keyed(ts[i])
    ensures ts == [] ==> ToMembers(ts) == []
    ensures ts != [] ==> ToMembers(ts) != [] && ToMembers(ts)[0] == Member(ts[0].key.value, ToValue(ts[0]))
                         && ToMembers(ts)[1..] == ToMembers(ts[1..])
  {
    hide ToValue, Keyed;
  }

  lemma KidFound(t: Tree, name: Text, caseSensitive: bool)
    requires Keyed(t) && t.item == IObject
    ensures var k := KidIndex(t.kids, name, caseSensitive);
            GetItem(ToMembers(t.kids), name, caseSensitive)
            == if k < |t.kids| && t.kids[k].item != INull then Some(ToValue(t.kids[k])) else None
  {
    hide ToMembers, Find, KidIndex;
    FindAtIndex(t.kids, name, caseSensitive);
  }

  /** get_object_item: the first child whose key matches, unless it is null. */
  method GetObjectItem(object_: Node, name: Text, caseSensitive: bool, ghost t: Tree, ghost R: set<Node>)
    returns (r: Node?, ghost k: nat)
    requires Matches(t, R) && t.node == object_ && t.item == IObject && Keyed(t)
    ensures k == KidIndex(t.kids, name, caseSensitive)
    ensures r == null <==> k == |t.kids| || t.kids[k].item == INull
    ensures r == null <==> GetItem(ToMembers(t.kids), name, caseSensitive) == None
    ensures r != null ==> r == t.kids[k].node
                          && GetItem(ToMembers(t.kids), name, caseSensitive) == Some(ToValue(t.kids[k]))
  {
    hide ToMembers, Matches, Find, KeyMatches, KidIndex;
    KidFound(t, name, caseSensitive);
    ghost var ms := ToMembers(t.kids);
    r, k := object_.child, 0;
    FirstKid(t, R);
    if r != null {
      NextKid(t, 0, R);
    }
    FindRound(ms, 0, name, caseSensitive);
    while r != null && !KeyMatches(name, r.key.value, caseSensitive)
      invariant Matches(t, R) && k <= |ms| && r == KidNode(t, k) && (r != null ==> r.key == t.kids[k].key)
      invariant Find(ms, name, caseSensitive) == Find(ms[k..], name, caseSensitive)
      invariant k <= KidIndex(t.kids, name, caseSensitive)
      decreases |ms| - k
    {
      FindRound(ms, k, name, caseSensitive);
      NextKid(t, k, R);
      r := r.next;
      k := k + 1;
      if k < |t.kids| {
        NextKid(t, k, R);
      }
    }
    FindRound(ms, k, name, caseSensitive);
    if r != null {
      NextKid(t, k, R);
      if r.item == INull {
        r := null;
      }
    }
  }

  lemma KidsDisjoint(ta: Tree, tb: Tree, i: nat, j: nat)
    requires Nodes(ta) !! Nodes(tb) && i < |ta.kids| && j < |tb.kids|
    ensures Nodes(ta.kids[i]) !! Nodes(tb.kids[j]) && ta.kids[i].node != tb.kids[j].node
  {
    KidsInside(ta.kids);
    KidsInside(tb.kids);
  }

  predicate SameKind(a: Item, b: Item) {
    (a.INull? <==> b.INull?) && (a.IFalse? <==> b.IFalse?) && (a.ITrue? <==> b.ITrue?) && (a.INumber? <==> b.INumber?)
    && (a.IString? <==> b.IString?) && (a.IArray? <==> b.IArray?) && (a.IObject? <==> b.IObject?)
  }

  function Height(t: Tree): nat { KidsHeight(t.kids) }

  function KidsHeight(ts: seq<Tree>): nat {
    if ts == [] then 0 else Max(1 + Height(ts[0]), KidsHeight(ts[1..]))
  }

  lemma {:induction false} KidHeight(ts: seq<Tree>, i: nat)
    requires i < |ts|
    ensures Height(ts[i]) < KidsHeight(ts)
  {
    if i > 0 {
      KidHeight(ts[1..], i - 1);
    }
  }

  /** What cJSON_Compare answers for any two trees, whether they share nodes or not: a node equals itself at once. */
  ghost predicate SameTree(a: Tree, b: Tree, caseSensitive: bool)
    requires Keyed(a) && Keyed(b)
    decreases Height(a) + Height(b), 2
  {
    a.node == b.node
    || (SameKind(a.item, b.item)
        && match a.item
           case INumber(x) => x == b.item.value
           case IString(x) => x == b.item.text
           case IArray => SameKids(a, b, caseSensitive)
           case IObject => CoveredTree(a, b, caseSensitive) && CoveredTree(b, a, caseSensitive)
           case _ => true)
  }

  ghost predicate SameKids(a: Tree, b: Tree, caseSensitive: bool)
    requires Keyed(a) && Keyed(b)
    decreases Height(a) + Height(b), 1
  {
    |a.kids| == |b.kids|
    && forall i :: 0 <= i < |a.kids| ==>
         (KidHeight(a.kids, i); KidHeight(b.kids, i); SameTree(a.kids[i], b.kids[i], caseSensitive))
  }

  ghost predicate CoveredTree(a: Tree, b: Tree, caseSensitive: bool)
    requires Keyed(a) && Keyed(b) && a.item == IObject && b.item == IObject
    decreases Height(a) + Height(b), 1
  {
    forall i :: 0 <= i < |a.kids| ==>
      var k := KidIndex(b.kids, a.kids[i].key.value, caseSensitive);
      k < |b.kids| && b.kids[k].item != INull
      && (KidHeight(a.kids, i); KidHeight(b.kids, k); SameTree(a.kids[i], b.kids[k], caseSensitive))
  }

  /** Trees that share no node are compared by their values. */
  lemma {:induction false} SameTreeIsSame(a: Tree, b: Tree, caseSensitive: bool)
    requires Keyed(a) && Keyed(b) && Nodes(a) !! Nodes(b)
    ensures SameTree(a, b, caseSensitive) <==> Same(ToValue(a), ToValue(b), caseSensitive)
    decreases Height(a) + Height(b), 2
  {
    hide Nodes, ToItems, ToMembers, Covered, CoveredTree, SameKids;
    RootInside(a);
    RootInside(b);
    if a.item == IArray && b.item == IArray {
      SameItems(a, b, caseSensitive);
      SameKidsAreSame(a, b, caseSensitive);
    } else if a.item == IObject && b.item == IObject {
      CoveredTreeIsCovered(a, b, caseSensitive);
      CoveredTreeIsCovered(b, a, caseSensitive);
    }
  }

  lemma {:induction false} SameKidsAreSame(a: Tree, b: Tree, caseSensitive: bool)
    requires Keyed(a) && Keyed(b) && Nodes(a) !! Nodes(b)
    ensures SameKids(a, b, caseSensitive) <==>
            |a.kids| == |b.kids|
            && forall i :: 0 <= i < |a.kids| ==> Same(ToValue(a.kids[i]), ToValue(b.kids[i]), caseSensitive)
    decreases Height(a) + Height(b), 1
  {
    hide Nodes, ToValue, Same, SameTree;
    KidsKeyed(a);
    KidsKeyed(b);
    if |a.kids| == |b.kids| {
      forall i | 0 <= i < |a.kids|
        ensures SameTree(a.kids[i], b.kids[i], caseSensitive) <==>
                Same(ToValue(a.kids[i]), ToValue(b.kids[i]), caseSensitive)
      {
        KidHeight(a.kids, i);
        KidHeight(b.kids, i);
        KidsDisjoint(a, b, i, i);
        SameTreeIsSame(a.kids[i], b.kids[i], caseSensitive);
      }
    }
  }

  lemma {:induction false} CoveredTreeIsCovered(a: Tree, b: Tree, caseSensitive: bool)
    requires Keyed(a) && Keyed(b) && Nodes(a) !! Nodes(b) && a.item == IObject && b.item == IObject
    ensures CoveredTree(a, b, caseSensitive) <==> Covered(ToMembers(a.kids), ToMembers(b.kids), caseSensitive)
    decreases Height(a) + Height(b), 1
  {
    hide Nodes, ToValue, Same, SameTree, ToMembers, KidIndex, GetItem, Covered;
    KidsKeyed(a);
    KidsKeyed(b);
    AllCovered(a, b, caseSensitive);
    forall i | 0 <= i < |a.kids|
      ensures MemberCovered(a, i, b, caseSensitive) <==>
              var k := KidIndex(b.kids, a.kids[i].key.value, caseSensitive);
              k < |b.kids| && b.kids[k].item != INull && SameTree(a.kids[i], b.kids[k], caseSensitive)
    {
      var k := KidIndex(b.kids, a.kids[i].key.value, caseSensitive);
      KidFound(b, a.kids[i].key.value, caseSensitive);
      if k < |b.kids| {
        KidHeight(a.kids, i);
        KidHeight(b.kids, k);
        KidsDisjoint(a, b, i, k);
        SameTreeIsSame(a.kids[i], b.kids[k], caseSensitive);
      }
    }
  }

  /** cJSON_Compare; for trees that share no node it compares the values. */
  method Compare(a: Node?, b: Node?, caseSensitive: bool, ghost ta: Tree, ghost tb: Tree, ghost R: set<Node>)
    returns (r: bool)
    requires a != null ==> Matches(ta, R) && ta.node == a && Keyed(ta)
    requires b != null ==> Matches(tb, R) && tb.node == b && Keyed(tb)
    ensures a == null || b == null ==> !r
    ensures a != null && b != null ==> r == SameTree(ta, tb, caseSensitive)
    ensures a != null && b != null && Nodes(ta) !! Nodes(tb) ==> r == Same(ToValue(ta), ToValue(tb), caseSensitive)
    decreases if a == null || b == null then 0 else Height(ta) + Height(tb) + 1, 2
  {
    hide Matches, Nodes, SameKids, CoveredTree, Same, ToValue, Height;
    if a == null || b == null {
      return false;
    }
    FirstKid(ta, R);
    FirstKid(tb, R);
    if Nodes(ta) !! Nodes(tb) {
      SameTreeIsSame(ta, tb, caseSensitive);
    }
    assert a == b ==> SameKind(a.item, b.item);
    if !SameKind(a.item, b.item) {
      return false;
    }
    if a == b {
      return true;
    }
    match a.item
    case INumber(x) => r := x == b.item.value;
    case IString(x) => r := x == b.item.text;
    case IArray => r := CompareItems(a, b, caseSensitive, ta, tb, R);
    case IObject =>
      r := CompareMembers(a, b, caseSensitive, ta, tb, R);
      if r {
        r := CompareMembers(b, a, caseSensitive, tb, ta, R);
      }
    case _ => r := true;
  }

  method CompareItems(a: Node, b: Node, caseSensitive: bool, ghost ta: Tree, ghost tb: Tree, ghost R: set<Node>)
    returns (r: bool)
    requires Matches(ta, R) && ta.node == a && Keyed(ta) && ta.item == IArray
    requires Matches(tb, R) && tb.node == b && Keyed(tb) && tb.item == IArray
    ensures r == SameKids(ta, tb, caseSensitive)
    decreases Height(ta) + Height(tb) + 1, 1
  {
    hide Matches, Nodes, Same, ToValue, Keyed, SameTree, KidsHeight;
    FirstKid(ta, R);
    FirstKid(tb, R);
    KidsKeyed(ta);
    KidsKeyed(tb);
    var x, y := a.child, b.child;
    ghost var k := 0;
    while x != null && y != null
      invariant Matches(ta, R) && Matches(tb, R)
      invariant k <= |ta.kids| && k <= |tb.kids| && x == KidNode(ta, k) && y == KidNode(tb, k)
      invariant forall i :: 0 <= i < k ==> SameTree(ta.kids[i], tb.kids[i], caseSensitive)
      decreases |ta.kids| - k
    {
      NextKid(ta, k, R);
      NextKid(tb, k, R);
      KidHeight(ta.kids, k);
      KidHeight(tb.kids, k);
      r := Compare(x, y, caseSensitive, ta.kids[k], tb.kids[k], R);
      if !r {
        return;
      }
      x, y := x.next, y.next;
      k := k + 1;
    }
    r := x == y;
  }

  lemma KidsKeyed(t: Tree)
    ensures Keyed(t) ==> forall i :: 0 <= i < |t.kids| ==> Keyed(t.kids[i])
  {
  }

  lemma SameItems(ta: Tree, tb: Tree, caseSensitive: bool)
    requires Keyed(ta) && Keyed(tb) && ta.item == IArray && tb.item == IArray
    ensures Same(ToValue(ta), ToValue(tb), caseSensitive) <==>
            |ta.kids| == |tb.kids|
            && forall i :: 0 <= i < |ta.kids| ==> Same(ToValue(ta.kids[i]), ToValue(tb.kids[i]), caseSensitive)
  {
    hide ToItems, Nesting;
  }

  /** Child i of ta is found in tb and is the same there. */
  ghost predicate KidCovered(ta: Tree, i: nat, tb: Tree, caseSensitive: bool)
    requires Keyed(ta) && Keyed(tb) && ta.item == IObject && tb.item == IObject && i < |ta.kids|
  {
    var k := KidIndex(tb.kids, ta.kids[i].key.value, caseSensitive);
    k < |tb.kids| && tb.kids[k].item != INull && SameTree(ta.kids[i], tb.kids[k], caseSensitive)
  }

  lemma AllKidsCovered(ta: Tree, tb: Tree, caseSensitive: bool)
    requires Keyed(ta) && Keyed(tb) && ta.item == IObject && tb.item == IObject
    ensures CoveredTree(ta, tb, caseSensitive) <==>
            forall i :: 0 <= i < |ta.kids| ==> KidCovered(ta, i, tb, caseSensitive)
  {
    hide SameTree, KidIndex;
    assert forall i :: 0 <= i < |ta.kids| ==>
             (KidCovered(ta, i, tb, caseSensitive) <==>
              var k := KidIndex(tb.kids, ta.kids[i].key.value, caseSensitive);
              k < |tb.kids| && tb.kids[k].item != INull && SameTree(ta.kids[i], tb.kids[k], caseSensitive));
  }

  method CompareMembers(a: Node, b: Node, caseSensitive: bool, ghost ta: Tree, ghost tb: Tree, ghost R: set<Node>)
    returns (r: bool)
    requires Matches(ta, R) && ta.node == a && Keyed(ta) && ta.item == IObject
    requires Matches(tb, R) && tb.node == b && Keyed(tb) && tb.item == IObject
    ensures r == CoveredTree(ta, tb, caseSensitive)
    decreases Height(ta) + Height(tb) + 1, 1
  {
    hide Matches, Nodes, Same, GetItem, ToValue, ToMembers, CoveredTree, SameTree, KidIndex, KidsHeight;
    FirstKid(ta, R);
    AllKidsCovered(ta, tb, caseSensitive);
    var x := a.child;
    ghost var k := 0;
    while x != null
      invariant Matches(ta, R) && Matches(tb, R) && k <= |ta.kids| && x == KidNode(ta, k)
      invariant forall i :: 0 <= i < k ==> KidCovered(ta, i, tb, caseSensitive)
      decreases |ta.kids| - k
    {
      NextKid(ta, k, R);
      var y, j := GetObjectItem(b, x.key.value, caseSensitive, tb, R);
      if y == null {
        assert !KidCovered(ta, k, tb, caseSensitive);
        return false;
      }
      NextKid(tb, j, R);
      KidHeight(ta.kids, k);
      KidHeight(tb.kids, j);
      r := Compare(x, y, caseSensitive, ta.kids[k], tb.kids[j], R);
      if !r {
        assert !KidCovered(ta, k, tb, caseSensitive);
        return;
      }
      NextKid(ta, k, R);
      x := x.next;
      k := k + 1;
    }
    r := true;
  }

  /** Child i of ta is found in tb with the same value. */
  ghost predicate MemberCovered(ta: Tree, i: nat, tb: Tree, caseSensitive: bool)
    requires Keyed(ta) && Keyed(tb) && ta.item == IObject && tb.item == IObject && i < |ta.kids|
  {
    var y := GetItem(ToMembers(tb.kids), ta.kids[i].key.value, caseSensitive);
    y.Some? && Same(ToValue(ta.kids[i]), y.value, caseSensitive)
  }

  lemma AllCovered(ta: Tree, tb: Tree, caseSensitive: bool)
    requires Keyed(ta) && Keyed(tb) && ta.item == IObject && tb.item == IObject
    ensures Covered(ToMembers(ta.kids), ToMembers(tb.kids), caseSensitive) <==>
            forall i :: 0 <= i < |ta.kids| ==> MemberCovered(ta, i, tb, caseSensitive)
  {
    hide ToMembers, ToValue, Same, GetItem;
    var xs, ys := ToMembers(ta.kids), ToMembers(tb.kids);
    forall i | 0 <= i < |xs|
      ensures MemberCovered(ta, i, tb, caseSensitive) <==>
              var y := GetItem(ys, xs[i].key, caseSensitive); y.Some? && Same(xs[i].value, y.value, caseSensitive)
    {
      assert xs[i] == Member(ta.kids[i].key.value, ToValue(ta.kids[i]));
    }
  }

  // ---------------------------------------------------------------- duplication

  /** u holds the same values as t, node by node. */
  ghost predicate Copies(t: Tree, u: Tree)
    decreases t
  {
    u.item == t.item && u.key == t.key && |u.kids| == |t.kids|
    && forall i :: 0 <= i < |t.kids| ==> Copies(t.kids[i], u.kids[i])
  }

  lemma {:induction false} CopiesSameValue(t: Tree, u: Tree)
    requires Copies(t, u) && Keyed(t)
    ensures Keyed(u) && ToValue(u) == ToValue(t)
    decreases t
  {
    forall i | 0 <= i < |t.kids| ensures Keyed(u.kids[i]) && ToValue(u.kids[i]) == ToValue(t.kids[i]) {
      CopiesSameValue(t.kids[i], u.kids[i]);
    }
    if t.item == IArray {
      assert ToItems(u.kids) == ToItems(t.kids);
    } else if t.item == IObject {
      assert forall i :: 0 <= i < |t.kids| ==> u.kids[i].key == t.kids[i].key;
      assert ToMembers(u.kids) == ToMembers(t.kids);
    }
  }

  /** A recursive duplicate compares equal to its source exactly when every member of its objects is found under its
      key; if the keys are distinct and case matters, when no object member is null. */
  lemma DuplicateComparesEqual(t: Tree, u: Tree, caseSensitive: bool)
    requires Copies(t, u) && Keyed(t)
    ensures Keyed(u) && (Same(ToValue(u), ToValue(t), caseSensitive) <==> Coherent(ToValue(t), caseSensitive))
    ensures DistinctKeys(ToValue(t)) && caseSensitive ==>
              (Same(ToValue(u), ToValue(t), true) <==> NoNullMembers(ToValue(t)))
  {
    hide Same, ToValue, Keyed, Copies, Coherent;
    CopiesSameValue(t, u);
    CompareExactly(ToValue(u), ToValue(t), caseSensitive);
    if DistinctKeys(ToValue(t)) {
      CoherentExactly(ToValue(t));
    }
  }

  /** cJSON_Duplicate: a copy made of new nodes only, in no list; without `recurse` it has no children. */
  method Duplicate(item: Node?, recurse: bool, ghost t: Tree, ghost R: set<Node>)
    returns (newItem: Node?, ghost u: Tree)
    requires item != null ==> Matches(t, R) && t.node == item
    ensures newItem == null <==> item == null
    ensures item != null ==>
              u.node == newItem && fresh(Nodes(u)) && Matches(u, NodesOf(u.kids)) && Detached(newItem)
              && Copies(if recurse then t else t.(kids := []), u)
    decreases t, 2
  {
    hide Matches, NodesOf, Nodes, Copies;
    if item == null {
      return null, t;
    }
    var copy := new Node();
    copy.item := item.item;
    copy.key := item.key;
    if recurse {
      u := DuplicateRecursively(item, copy, t, R);
    } else {
      u := Tree(copy, t.item, t.key, []);
      FirstKid(t, R);
      NoKids(copy);
      MatchesTogether(u);
      RootOutside(u, {});
      CopiesTogether(t.(kids := []), u);
      assert Nodes(u) == {copy};
    }
    newItem := copy;
  }

  /** The recursive part of cJSON_Duplicate, on the new node `copy`. */
  method DuplicateRecursively(item: Node, copy: Node, ghost t: Tree, ghost R: set<Node>) returns (ghost u: Tree)
    requires Matches(t, R) && t.node == item && copy.child == null && copy != item && copy !in R
    requires copy.item == item.item && copy.key == item.key
    modifies copy`child
    ensures u.node == copy && (forall n :: n in Nodes(u) ==> n == copy || fresh(n))
    ensures Matches(u, NodesOf(u.kids)) && Copies(t, u)
    decreases t, 1
  {
    hide Matches, Linked, Disjoint, NodesOf, Roots, Nodes, Copies;
    FirstKid(t, R);
    ghost var us := DuplicateChildren(item, copy, t, R);
    u := Tree(copy, t.item, t.key, us);
    MatchesTogether(u);
    RootOutside(u, NodesOf(us));
    CopiesTogether(t, u);
  }

  lemma CopiesTogether(t: Tree, u: Tree)
    requires u.item == t.item && u.key == t.key && |u.kids| == |t.kids|
    requires forall i :: 0 <= i < |t.kids| ==> Copies(t.kids[i], u.kids[i])
    ensures Copies(t, u)
  {
  }

  /** Links newChild behind the last node of the list. */
  method LinkLast(parent: Node, last: Node?, newChild: Node, ghost ns: seq<Node>)
    requires Linked(parent.child, ns) && Detached(newChild) && newChild !in ns
    requires last == if ns == [] then null else ns[|ns| - 1]
    modifies parent`child, ns`next, newChild`prev
    ensures Linked(parent.child, ns + [newChild])
  {
    if last != null {
      last.next := newChild;
      newChild.prev := last;
    } else {
      parent.child := newChild;
    }
  }

  /** The copy w is hung behind the last child. */
  method HangCopy(copy: Node, last: Node?, newChild: Node, ghost us: seq<Tree>, ghost all: set<Node>,
                  ghost below: set<Node>, ghost w: Tree)
    requires Built(copy.child, us, all, below) && copy !in all && copy !in Nodes(w) && all !! Nodes(w)
    requires w.node == newChild && Matches(w, NodesOf(w.kids)) && Detached(newChild)
    requires last == if us == [] then null else us[|us| - 1].node
    modifies copy`child, all`next, newChild`prev
    ensures Built(copy.child, us + [w], all + Nodes(w), below + NodesOf(w.kids))
  {
    hide Matches, Linked, Disjoint, NodesOf, Nodes, Roots, AllMatch;
    KidsInside(us);
    ghost var ns, inner := Roots(us), NodesOf(w.kids);
    assert forall n :: n in ns ==> n in all;
    RootOutside(w, inner);
    NodesAllocated(w);
    AllAllocated(us);
    RootsOutside(us, below);
    assert forall n :: n in ns ==> n !in below && n !in inner;
    assert copy !in inner && copy != newChild && newChild !in inner && newChild !in below && newChild !in ns;
    LinkLast(copy, last, newChild, ns);
    AllMatchAppend(us, below, w);
    AppendTree(us, w);
  }

  /** One round of the loop over the children: a copy of `child` is made and hung behind the last one. */
  method DuplicateNext(child: Node, copy: Node, last: Node?, ghost t: Tree, ghost R: set<Node>,
                       ghost us: seq<Tree>, ghost all: set<Node>, ghost below: set<Node>)
    returns (newChild: Node, ghost w: Tree, ghost all': set<Node>, ghost below': set<Node>)
    requires Matches(t, R) && t.node == child && Built(copy.child, us, all, below) && copy !in all
    requires last == if us == [] then null else us[|us| - 1].node
    modifies copy`child, all`next
    ensures w.node == newChild && Copies(t, w) && Built(copy.child, us + [w], all', below')
    ensures all <= all' && fresh(all' - all)
    decreases t, 3
  {
    AllAllocated(us);
    hide Matches, Linked, Disjoint, NodesOf, Nodes, Roots, Copies, AllMatch, Built;
    newChild, w := Duplicate(child, true, t, R);
    NodesAllocated(w);
    RootInside(w);
    assert all !! Nodes(w) && copy !in Nodes(w);
    HangCopy(copy, last, newChild, us, all, below, w);
    all', below' := all + Nodes(w), below + NodesOf(w.kids);
  }

  /** The loop over the children of `item`, which hangs their copies below `copy`. */
  method DuplicateChildren(item: Node, copy: Node, ghost t: Tree, ghost R: set<Node>) returns (ghost us: seq<Tree>)
    requires Matches(t, R) && t.node == item && copy.child == null && copy != item && copy !in R
    modifies copy`child
    ensures |us| == |t.kids| && forall i :: 0 <= i < |us| ==> Copies(t.kids[i], us[i])
    ensures fresh(NodesOf(us)) && Disjoint(us) && Linked(copy.child, Roots(us))
    ensures forall i :: 0 <= i < |us| ==> Matches(us[i], NodesOf(us))
    decreases t, 0
  {
    hide Matches, Linked, Disjoint, NodesOf, Nodes, Roots, Copies, AllMatch, Built;
    us := [];
    ghost var all: set<Node>, below: set<Node> := {}, {};
    var child, last: Node? := item.child, null;
    ghost var k := 0;
    FirstKid(t, R);
    NothingBuilt();
    while child != null
      invariant Matches(t, R) && k <= |t.kids| && child == KidNode(t, k)
      invariant |us| == k && forall i :: 0 <= i < k ==> Copies(t.kids[i], us[i])
      invariant Built(copy.child, us, all, below) && fresh(all)
      invariant last == if k == 0 then null else us[k - 1].node
      decreases |t.kids| - k
    {
      NextKid(t, k, R);
      ghost var w: Tree;
      last, w, all, below := DuplicateNext(child, copy, last, t.kids[k], R, us, all, below);
      us := us + [w];
      NextKid(t, k, R);
      child := child.next;
      k := k + 1;
    }
    BuiltTogether(copy.child, us, all, below);
  }
}
