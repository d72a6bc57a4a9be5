/** The linked cJSON nodes of 3rdparty/cjson/cJSON.c: their doubly linked child lists, the trees they form, and how
    such a tree is put together. */
module JsonTrees {
  import opened Bytes
  import opened Json

  /** Type and value of a node; an array's or object's children hang off the node itself. */
  datatype Item = INull | IFalse | ITrue | INumber(value: real) | IString(text: Text) | IArray | IObject

  class Node {
    var item: Item
    var key: Option<Text>
    var child: Node?
    var next: Node?
    var prev: Node?

    constructor ()
      ensures item == INull && key == None && child == null && next == null && prev == null
    {
      item, key, child, next, prev := INull, None, null, null, null;
    }
  }

  /** first heads the doubly linked list of the nodes ns: next and prev are mutually inverse. */
  ghost predicate Linked(first: Node?, ns: seq<Node>)
    reads ns`next, ns`prev
  {
    first == (if ns == [] then null else ns[0])
    && (forall i {:trigger ns[i].prev} :: 0 <= i < |ns| ==> ns[i].prev == if i == 0 then null else ns[i - 1])
    && (forall i {:trigger ns[i].next} :: 0 <= i < |ns| ==> ns[i].next == if i + 1 == |ns| then null else ns[i + 1])
    && forall i, j :: 0 <= i < j < |ns| ==> ns[i] != ns[j]
  }

  /** A node that is in no list. */
  ghost predicate Detached(n: Node)
    reads n
  {
    n.next == null && n.prev == null
  }

  // ---------------------------------------------------------------- trees

  /** A snapshot of a node and everything below it. */
  datatype Tree = Tree(node: Node, item: Item, key: Option<Text>, kids: seq<Tree>)

  ghost function Nodes(t: Tree): set<Node> {
    {t.node} + NodesOf(t.kids)
  }

  ghost function NodesOf(ts: seq<Tree>): set<Node> {
    if ts == [] then {} else NodesOf(ts[..|ts| - 1]) + Nodes(ts[|ts| - 1])
  }

  ghost function Roots(ts: seq<Tree>): (r: seq<Node>)
    ensures |r| == |ts| && forall i :: 0 <= i < |ts| ==> r[i] == ts[i].node
  {
    if ts == [] then [] else Roots(ts[..|ts| - 1]) + [ts[|ts| - 1].node]
  }

  lemma {:induction false} KidsInside(ts: seq<Tree>)
    ensures forall i :: 0 <= i < |ts| ==> Nodes(ts[i]) <= NodesOf(ts) && ts[i].node in NodesOf(ts)
  {
    if ts != [] {
      var init := ts[..|ts| - 1];
      KidsInside(init);
      assert forall i :: 0 <= i < |init| ==> ts[i] == init[i];
    }
  }

  /** No two of the trees share a node. */
  ghost predicate Disjoint(ts: seq<Tree>) {
    ts == [] || (Disjoint(ts[..|ts| - 1]) && NodesOf(ts[..|ts| - 1]) !! Nodes(ts[|ts| - 1]))
  }

  /** The recursive definition says that the trees are pairwise disjoint. */
  lemma {:induction false} DisjointPairs(ts: seq<Tree>, i: nat, j: nat)
    requires Disjoint(ts) && i < j < |ts|
    ensures Nodes(ts[i]) !! Nodes(ts[j])
  {
    hide Nodes;
    var init := ts[..|ts| - 1];
    if j < |init| {
      DisjointPairs(init, i, j);
    } else {
      KidsInside(init);
      assert init[i] == ts[i];
    }
  }

  /** The heap at t.node is what t says, with everything below t.node among the nodes R; the links of
      t.node itself belong to the list it is in. */
  ghost predicate Matches(t: Tree, R: set<Node>)
    reads t.node`item, t.node`key, t.node`child, R
  {
    t.node.item == t.item && t.node.key == t.key
    && NodesOf(t.kids) <= R && t.node !in NodesOf(t.kids) && Disjoint(t.kids)
    && (KidsInside(t.kids); Linked(t.node.child, Roots(t.kids)))
    && forall i :: 0 <= i < |t.kids| ==> (KidsInside(t.kids); Matches(t.kids[i], R))
  }

  /** The children of an object all have a key. */
  predicate Keyed(t: Tree) {
    (t.item == IObject ==> forall i :: 0 <= i < |t.kids| ==> t.kids[i].key.Some?)
    && forall i :: 0 <= i < |t.kids| ==> Keyed(t.kids[i])
  }

  /** The text of a key; a missing one counts as empty. */
  function KeyText(key: Option<Text>): Text { if key.Some? then key.value else [] }

  /** The JSON value of a tree. */
  function ToValue(t: Tree): Value {
    match t.item
    case INull => Null
    case IFalse => False
    case ITrue => True
    case INumber(r) => Number(r)
    case IString(s) => String(s)
    case IArray => Array(ToItems(t.kids))
    case IObject => Object(ToMembers(t.kids))
  }

  function ToItems(ts: seq<Tree>): (r: seq<Value>)
    ensures |r| == |ts| && forall i :: 0 <= i < |ts| ==> r[i] == ToValue(ts[i])
  {
    if ts == [] then [] else [ToValue(ts[0])] + ToItems(ts[1..])
  }

  function ToMembers(ts: seq<Tree>): (r: seq<Member>)
    ensures |r| == |ts| && forall i :: 0 <= i < |ts| ==> r[i] == Member(KeyText(ts[i].key), ToValue(ts[i]))
  {
    if ts == [] then [] else [Member(KeyText(ts[0].key), ToValue(ts[0]))] + ToMembers(ts[1..])
  }

  // ---------------------------------------------------------------- walking over the children

  /** The node of child k of a matched tree, or null behind the last child. */
  ghost function KidNode(t: Tree, k: nat): Node?
    requires k <= |t.kids|
  {
    if k == |t.kids| then null else t.kids[k].node
  }

  lemma FirstKid(t: Tree, R: set<Node>)
    ensures Matches(t, R) ==> t.node.item == t.item && t.node.key == t.key && t.node.child == KidNode(t, 0)
  {
  }

  lemma NextKid(t: Tree, k: nat, R: set<Node>)
    requires Matches(t, R) && k < |t.kids|
    ensures Matches(t.kids[k], R) && t.kids[k].node.next == KidNode(t, k + 1)
    ensures t.kids[k].node.item == t.kids[k].item && t.kids[k].node.key == t.kids[k].key
  {
    assert Roots(t.kids)[k] == t.kids[k].node;
  }

  // ---------------------------------------------------------------- putting a tree together

  lemma RootInside(t: Tree)
    ensures t.node in Nodes(t)
  {
  }

  lemma {:induction false} Rebase(t: Tree, R: set<Node>, S: set<Node>)
    requires Matches(t, R) && NodesOf(t.kids) <= S
    ensures Matches(t, S)
    decreases t
  {
    hide Linked, Disjoint, Roots, NodesOf;
    KidsInside(t.kids);
    forall i | 0 <= i < |t.kids| ensures Matches(t.kids[i], S) {
      assert NodesOf(t.kids[i].kids) <= Nodes(t.kids[i]);
      Rebase(t.kids[i], R, S);
    }
  }

  lemma AppendTree(ts: seq<Tree>, w: Tree)
    requires Disjoint(ts) && NodesOf(ts) !! Nodes(w)
    ensures Disjoint(ts + [w]) && NodesOf(ts + [w]) == NodesOf(ts) + Nodes(w) && Roots(ts + [w]) == Roots(ts) + [w.node]
  {
    hide Nodes;
    assert (ts + [w])[..|ts|] == ts;
  }

  lemma NoKids(n: Node)
    ensures n.child == null ==> Disjoint([]) && NodesOf([]) == {} && Linked(n.child, Roots([]))
  {
  }

  lemma MatchesTogether(u: Tree)
    requires u.node.item == u.item && u.node.key == u.key && u.node !in NodesOf(u.kids) && Disjoint(u.kids)
    requires Linked(u.node.child, Roots(u.kids))
    requires forall i :: 0 <= i < |u.kids| ==> Matches(u.kids[i], NodesOf(u.kids))
    ensures Matches(u, NodesOf(u.kids))
  {
  }

  lemma {:induction false} NodesAllocated(t: Tree)
    ensures forall n :: n in Nodes(t) ==> allocated(n)
    decreases t, 1
  {
    AllAllocated(t.kids);
  }

  lemma {:induction false} AllAllocated(ts: seq<Tree>)
    ensures forall n :: n in NodesOf(ts) ==> allocated(n)
    decreases ts, 0
  {
    if ts != [] {
      AllAllocated(ts[..|ts| - 1]);
      NodesAllocated(ts[|ts| - 1]);
    }
  }

  lemma RootOutside(t: Tree, R: set<Node>)
    ensures Matches(t, R) ==> t.node !in NodesOf(t.kids) && Nodes(t) == {t.node} + NodesOf(t.kids)
  {
  }

  /** Every tree of us matches below its root, where the roots themselves may be relinked. */
  ghost predicate AllMatch(us: seq<Tree>, below: set<Node>)
    reads (set i | 0 <= i < |us| :: us[i].node)`item, (set i | 0 <= i < |us| :: us[i].node)`key
    reads (set i | 0 <= i < |us| :: us[i].node)`child, below
  {
    forall i :: 0 <= i < |us| ==> us[i].node !in below && Matches(us[i], below)
  }

  lemma RootsOutside(us: seq<Tree>, below: set<Node>)
    requires AllMatch(us, below)
    ensures forall i :: 0 <= i < |us| ==> us[i].node !in below
    ensures forall n :: n in Roots(us) ==> n !in below
  {
    hide Matches, Roots;
  }

  lemma AllMatchAppend(us: seq<Tree>, below: set<Node>, w: Tree)
    requires AllMatch(us, below) && Matches(w, NodesOf(w.kids)) && w.node !in below
    requires forall i :: 0 <= i < |us| ==> us[i].node !in NodesOf(w.kids)
    ensures AllMatch(us + [w], below + NodesOf(w.kids))
  {
    hide Linked, Disjoint, Roots, NodesOf;
    forall i | 0 <= i < |us| ensures Matches(us[i], below + NodesOf(w.kids)) {
      Rebase(us[i], below, below + NodesOf(w.kids));
    }
    Rebase(w, NodesOf(w.kids), below + NodesOf(w.kids));
  }

  /** What has been built so far: first heads the list of the roots of us; the trees have the nodes `all`, those under
      the roots are in `below`. */
  ghost predicate Built(first: Node?, us: seq<Tree>, all: set<Node>, below: set<Node>)
    reads all, below
  {
    NodesOf(us) == all && below <= all && Disjoint(us)
    && (KidsInside(us); AllMatch(us, below) && Linked(first, Roots(us)))
  }

  lemma BuiltInside(first: Node?, us: seq<Tree>, all: set<Node>, below: set<Node>)
    ensures Built(first, us, all, below) ==> NodesOf(us) == all && below <= all
  {
  }

  lemma NothingBuilt()
    ensures Built(null, [], {}, {})
  {
    NoMatches();
  }

  lemma BuiltTogether(first: Node?, us: seq<Tree>, all: set<Node>, below: set<Node>)
    requires Built(first, us, all, below)
    ensures NodesOf(us) == all && Disjoint(us) && Linked(first, Roots(us))
    ensures forall i :: 0 <= i < |us| ==> Matches(us[i], NodesOf(us))
  {
    hide Linked, Disjoint, Roots, NodesOf, Matches, AllMatch;
    AllMatchTogether(us, below);
  }

  lemma NoMatches()
    ensures AllMatch([], {}) && NodesOf([]) == {}
  {
  }

  lemma AllMatchTogether(us: seq<Tree>, below: set<Node>)
    requires AllMatch(us, below)
    ensures forall i :: 0 <= i < |us| ==> Matches(us[i], NodesOf(us))
  {
    hide Linked, Disjoint, Roots, NodesOf;
    KidsInside(us);
    forall i | 0 <= i < |us| ensures Matches(us[i], NodesOf(us)) {
      assert NodesOf(us[i].kids) <= Nodes(us[i]);
      Rebase(us[i], below, NodesOf(us));
    }
  }

  // ---------------------------------------------------------------- a list that grows while its last node is filled

  /** The trees us are built, and n is linked behind them, whatever it will hold. */
  ghost predicate Begun(first: Node?, us: seq<Tree>, all: set<Node>, below: set<Node>, n: Node)
    reads all, below, n`next, n`prev
  {
    NodesOf(us) == all && below <= all && Disjoint(us) && n !in all
    && (KidsInside(us); AllMatch(us, below) && Linked(first, Roots(us) + [n]))
  }

  /** A new node becomes the first or the last of the list. */
  method LinkNew(head: Node?, last: Node?, n: Node, ghost us: seq<Tree>, ghost all: set<Node>, ghost below: set<Node>)
    returns (head': Node)
    requires Built(head, us, all, below) && Detached(n) && n !in all
    requires last == if us == [] then null else us[|us| - 1].node
    modifies all`next, n`prev
    ensures Begun(head', us, all, below, n)
  {
    hide Matches, NodesOf, Disjoint, AllMatch;
    KidsInside(us);
    RootsOutside(us, below);
    if head == null {
      head' := n;
    } else {
      head' := head;
      last.next := n;
      n.prev := last;
    }
  }

  /** Once it is filled, the last node completes the list. */
  lemma Adopt(first: Node?, us: seq<Tree>, all: set<Node>, below: set<Node>, w: Tree)
    requires Begun(first, us, all, below, w.node) && Matches(w, NodesOf(w.kids)) && all !! NodesOf(w.kids)
    ensures Built(first, us + [w], all + Nodes(w), below + NodesOf(w.kids))
  {
    hide Matches, Linked, Disjoint, NodesOf, Nodes, Roots, AllMatch;
    KidsInside(us);
    RootOutside(w, NodesOf(w.kids));
    AllMatchAppend(us, below, w);
    AppendTree(us, w);
  }

  // ---------------------------------------------------------------- the value of a tree that was built

  /** The tree u at the node n stands for the value v. */
  ghost predicate Stands(n: Node, u: Tree, v: Value)
    reads n`item, n`key, n`child, NodesOf(u.kids)
  {
    u.node == n && Matches(u, NodesOf(u.kids)) && Keyed(u) && ToValue(u) == v
  }

  lemma LeafStands(n: Node)
    requires n.child == null && n.item != IArray && n.item != IObject
    ensures var u := Tree(n, n.item, n.key, []); Stands(n, u, ToValue(u)) && NodesOf(u.kids) == {}
  {
    NoKids(n);
    MatchesTogether(Tree(n, n.item, n.key, []));
  }

  ghost predicate StandForItems(us: seq<Tree>, items: seq<Value>) {
    (forall i :: 0 <= i < |us| ==> Keyed(us[i])) && ToItems(us) == items
  }

  ghost predicate StandForMembers(us: seq<Tree>, members: seq<Member>) {
    (forall i :: 0 <= i < |us| ==> us[i].key.Some? && Keyed(us[i])) && ToMembers(us) == members
  }

  lemma OneMoreItem(us: seq<Tree>, items: seq<Value>, w: Tree)
    requires StandForItems(us, items) && Keyed(w)
    ensures StandForItems(us + [w], items + [ToValue(w)])
  {
    hide Keyed, ToValue;
  }

  lemma OneMoreMember(us: seq<Tree>, members: seq<Member>, w: Tree)
    requires StandForMembers(us, members) && Keyed(w) && w.key.Some?
    ensures StandForMembers(us + [w], members + [Member(w.key.value, ToValue(w))])
  {
    hide Keyed, ToValue;
  }

  lemma ArrayStands(n: Node, us: seq<Tree>, all: set<Node>, below: set<Node>, items: seq<Value>)
    requires Built(n.child, us, all, below) && n !in all && n.item == IArray && StandForItems(us, items)
    ensures Stands(n, Tree(n, IArray, n.key, us), Array(items))
  {
    hide Matches, Linked, Disjoint, NodesOf, Roots;
    BuiltTogether(n.child, us, all, below);
    MatchesTogether(Tree(n, IArray, n.key, us));
  }

  lemma ObjectStands(n: Node, us: seq<Tree>, all: set<Node>, below: set<Node>, members: seq<Member>)
    requires Built(n.child, us, all, below) && n !in all && n.item == IObject && StandForMembers(us, members)
    ensures Stands(n, Tree(n, IObject, n.key, us), Object(members))
  {
    hide Matches, Linked, Disjoint, NodesOf, Roots;
    BuiltTogether(n.child, us, all, below);
    MatchesTogether(Tree(n, IObject, n.key, us));
  }

  lemma NothingStands()
    ensures StandForItems([], []) && StandForMembers([], [])
  {
  }

  lemma KeyStands(n: Node, u: Tree, v: Value)
    ensures Stands(n, u, v) ==> u.node == n && u.key == n.key && Nodes(u) == {n} + NodesOf(u.kids)
  {
  }
}
