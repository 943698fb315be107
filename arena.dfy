/** The NodeObj records of Dictionary.c and the recursive helpers that work
    on them (findKey, inOrder, deleteAll). Nodes live in an arena: a pointer
    is an index into a sequence of records and NULL is NIL. A node allocated
    by insert goes at the end of the arena and is attached under an earlier
    node, so every child link points forward. */
module Arena {
  import opened Keys
  import opened Trees
  import opened Format

  /** The NULL pointer. */
  const NIL: int := -1

  /** NodeObj: a pair, the two child pointers and the parent pointer prev. */
  datatype NodeObj = NodeObj(key: string, value: int, left: int, right: int, prev: int)

  /** NewNode: a node holding (key, value) with all three pointers NULL. On
      its own it is a well-formed one-node tree, the leaf holding the pair. */
  function NewNode(key: string, value: int): (n: NodeObj)
    ensures n.key == key && n.value == value
    ensures WellFormed([n], 0) && TreeAt([n], 0) == Node(Nil, key, value, Nil)
  {
    var n := NodeObj(key, value, NIL, NIL, NIL);
    assert Reach([n], 0) == {0} == Indices(1);
    n
  }

  /** r is NULL or points at a node of the arena. */
  predicate IsRef(nodes: seq<NodeObj>, r: int) {
    r == NIL || 0 <= r < |nodes|
  }

  /** A child pointer of node i is NULL or points at a later node. */
  predicate ChildOk(nodes: seq<NodeObj>, i: int, c: int) {
    c == NIL || i < c < |nodes|
  }

  ghost predicate Linked(nodes: seq<NodeObj>) {
    forall i :: 0 <= i < |nodes| ==> ChildOk(nodes, i, nodes[i].left) && ChildOk(nodes, i, nodes[i].right)
  }

  /** Termination measure for walks that follow child pointers. */
  function Rank(nodes: seq<NodeObj>, r: int): nat
    requires IsRef(nodes, r)
  {
    if r == NIL then 0 else |nodes| - r
  }

  /** The tree of the nodes reachable from r. */
  ghost function TreeAt(nodes: seq<NodeObj>, r: int): Tree
    requires Linked(nodes) && IsRef(nodes, r)
    decreases Rank(nodes, r)
  {
    if r == NIL then Nil
    else Node(TreeAt(nodes, nodes[r].left), nodes[r].key, nodes[r].value, TreeAt(nodes, nodes[r].right))
  }

  /** The indices of the nodes reachable from r. */
  ghost function Reach(nodes: seq<NodeObj>, r: int): (s: set<int>)
    requires Linked(nodes) && IsRef(nodes, r)
    ensures forall j :: j in s ==> r <= j < |nodes|
    ensures r != NIL ==> r in s
    decreases Rank(nodes, r)
  {
    if r == NIL then {}
    else {r} + Reach(nodes, nodes[r].left) + Reach(nodes, nodes[r].right)
  }

  /** The two subtrees of every node share no node. */
  ghost predicate Disjoint(nodes: seq<NodeObj>)
    requires Linked(nodes)
  {
    forall i :: 0 <= i < |nodes| ==> Splits(nodes, i)
  }

  /** The subtrees under node i share no node. */
  ghost predicate Splits(nodes: seq<NodeObj>, i: int)
    requires Linked(nodes) && 0 <= i < |nodes|
  {
    Reach(nodes, nodes[i].left) !! Reach(nodes, nodes[i].right)
  }

  /** A child c of node i has prev == i. */
  ghost predicate BackLink(nodes: seq<NodeObj>, i: int, c: int) {
    c == NIL || (0 <= c < |nodes| && nodes[c].prev == i)
  }

  /** Both children of node i name it as their parent. */
  ghost predicate ParentOf(nodes: seq<NodeObj>, i: int)
    requires 0 <= i < |nodes|
  {
    BackLink(nodes, i, nodes[i].left) && BackLink(nodes, i, nodes[i].right)
  }

  ghost predicate ParentLinks(nodes: seq<NodeObj>) {
    forall i :: 0 <= i < |nodes| ==> ParentOf(nodes, i)
  }

  /** The indices 0 .. n-1 of an arena of n nodes. */
  ghost function Indices(n: nat): (s: set<int>)
    ensures forall i :: i in s <==> 0 <= i < n
    ensures |s| == n
  {
    if n == 0 then {} else Indices(n - 1) + {n - 1}
  }

  /** The arena holds one tree rooted at root: child pointers go forward,
      subtrees are disjoint, every prev names the parent, the root's prev is
      NULL, and every node of the arena is reachable from the root. */
  ghost predicate WellFormed(nodes: seq<NodeObj>, root: int) {
    && Linked(nodes)
    && IsRef(nodes, root)
    && (root == NIL <==> nodes == [])
    && (root != NIL ==> nodes[root].prev == NIL)
    && Disjoint(nodes)
    && ParentLinks(nodes)
    && Reach(nodes, root) == Indices(|nodes|)
  }

  // ---------------------------------------------------------------------------
  // findKey, inOrder and deleteAll

  /** findKey: the node of the subtree at r whose key equals k, found by the
      binary search, or NULL. */
  function FindKey(nodes: seq<NodeObj>, r: int, k: string): (n: int)
    requires Linked(nodes) && IsRef(nodes, r)
    ensures IsRef(nodes, n)
    ensures TreeAt(nodes, n) == Find(TreeAt(nodes, r), k)
    decreases Rank(nodes, r)
  {
    if r == NIL || KeyCmp(k, nodes[r].key) == 0 then r
    else if KeyCmp(k, nodes[r].key) < 0 then FindKey(nodes, nodes[r].left, k)
    else FindKey(nodes, nodes[r].right, k)
  }

  /** inOrder: the lines printed for the subtree at n, left subtree first,
      then the node, then the right subtree. */
  function InOrder(nodes: seq<NodeObj>, n: int): (out: seq<string>)
    requires Linked(nodes) && IsRef(nodes, n)
    ensures out == Lines(Flatten(TreeAt(nodes, n)))
    decreases Rank(nodes, n)
  {
    if n == NIL then []
    else
      var left, right := nodes[n].left, nodes[n].right;
      LinesConcat(Flatten(TreeAt(nodes, left)), [Pair(nodes[n].key, nodes[n].value)]);
      LinesConcat(Flatten(TreeAt(nodes, left)) + [Pair(nodes[n].key, nodes[n].value)], Flatten(TreeAt(nodes, right)));
      InOrder(nodes, left) + [FormatLine(Pair(nodes[n].key, nodes[n].value))] + InOrder(nodes, right)
  }

  ghost predicate NoDup(s: seq<int>) {
    forall i, j :: 0 <= i < j < |s| ==> s[i] != s[j]
  }

  /** Node x's children, where it has them, occur in done. */
  ghost predicate ChildrenIn(nodes: seq<NodeObj>, x: int, done: seq<int>) {
    0 <= x < |nodes| &&
    (nodes[x].left == NIL || nodes[x].left in done) &&
    (nodes[x].right == NIL || nodes[x].right in done)
  }

  /** The node released at step i of s is released after its children. */
  ghost predicate FreedAfterChildren(nodes: seq<NodeObj>, s: seq<int>, i: int)
    requires 0 <= i < |s|
  {
    ChildrenIn(nodes, s[i], s[..i])
  }

  /** Every node is released after its children. */
  ghost predicate PostOrder(nodes: seq<NodeObj>, s: seq<int>) {
    forall i :: 0 <= i < |s| ==> FreedAfterChildren(nodes, s, i)
  }

  /** deleteAll: the nodes of the subtree at r in the order they are freed,
      both subtrees before their parent. Each reachable node is freed exactly
      once, and no node is freed before its children. */
  function DeleteAll(nodes: seq<NodeObj>, r: int): (freed: seq<int>)
    requires Linked(nodes) && Disjoint(nodes) && IsRef(nodes, r)
    ensures forall x :: x in freed <==> x in Reach(nodes, r)
    ensures NoDup(freed)
    ensures PostOrder(nodes, freed)
    decreases Rank(nodes, r)
  {
    if r == NIL then []
    else
      var a := DeleteAll(nodes, nodes[r].left);
      var b := DeleteAll(nodes, nodes[r].right);
      DeleteAllStep(nodes, r, a, b);
      a + b + [r]
  }

  /** On a well-formed arena, deleteAll from the root frees every node. */
  lemma DeleteAllFreesAll(nodes: seq<NodeObj>, root: int)
    requires WellFormed(nodes, root)
    ensures forall x :: x in DeleteAll(nodes, root) <==> 0 <= x < |nodes|
  {
    assert forall x :: x in Reach(nodes, root) <==> x in Indices(|nodes|);
  }

  /** The inductive step of DeleteAll. */
  lemma DeleteAllStep(nodes: seq<NodeObj>, r: int, a: seq<int>, b: seq<int>)
    requires Linked(nodes) && Disjoint(nodes) && 0 <= r < |nodes|
    requires forall x :: x in a <==> x in Reach(nodes, nodes[r].left)
    requires forall x :: x in b <==> x in Reach(nodes, nodes[r].right)
    requires NoDup(a) && NoDup(b) && PostOrder(nodes, a) && PostOrder(nodes, b)
    ensures forall x :: x in a + b + [r] <==> x in Reach(nodes, r)
    ensures NoDup(a + b + [r])
    ensures PostOrder(nodes, a + b + [r])
  {
    var s := a + b + [r];
    assert Splits(nodes, r);
    forall i, j | 0 <= i < j < |s| ensures s[i] != s[j] {
      if j < |a| {
        assert s[i] == a[i] && s[j] == a[j];
      } else if i >= |a| && j < |a| + |b| {
        assert s[i] == b[i - |a|] && s[j] == b[j - |a|];
      } else if i < |a| && j < |a| + |b| {
        assert s[i] == a[i] && s[j] == b[j - |a|];
        assert s[i] in a && s[j] in b;
      } else {
        assert s[j] == r;
        assert s[i] in a + b;
      }
    }
    forall i | 0 <= i < |s| ensures FreedAfterChildren(nodes, s, i) {
      if i < |a| {
        assert s[..i] == a[..i] && s[i] == a[i];
        assert FreedAfterChildren(nodes, a, i);
      } else if i < |a| + |b| {
        assert s[..i] == a + b[..i - |a|] && s[i] == b[i - |a|];
        assert FreedAfterChildren(nodes, b, i - |a|);
      } else {
        assert s[..i] == a + b;
        var l, rt := nodes[r].left, nodes[r].right;
        assert l != NIL ==> l in a;
        assert rt != NIL ==> rt in b;
      }
    }
  }

  // ---------------------------------------------------------------------------
  // The walk and the attachment of insert

  /** The child insert's walk moves to from node a: left for a key that
      compares less, right otherwise. */
  function Next(nodes: seq<NodeObj>, a: int, k: string): int
    requires 0 <= a < |nodes|
  {
    if KeyCmp(k, nodes[a].key) < 0 then nodes[a].left else nodes[a].right
  }

  /** Where insert's walk from a stops: the last node it visits, whose child
      slot in the walk's direction is NULL; NULL when a is NULL. */
  ghost function Walk(nodes: seq<NodeObj>, a: int, k: string): (b: int)
    requires Linked(nodes) && IsRef(nodes, a)
    ensures IsRef(nodes, b)
    ensures b == NIL <==> a == NIL
    ensures b != NIL ==> b in Reach(nodes, a) && Next(nodes, b, k) == NIL
    decreases Rank(nodes, a)
  {
    if a == NIL then NIL
    else if Next(nodes, a, k) == NIL then a
    else Walk(nodes, Next(nodes, a, k), k)
  }

  /** insert's descent: from the root, go left on a key that compares less
      and right otherwise until a NULL child is reached; the result is the
      last node visited, or NULL when the tree is empty. */
  method Descend(nodes: seq<NodeObj>, root: int, k: string) returns (parent: int)
    requires Linked(nodes) && IsRef(nodes, root)
    ensures parent == Walk(nodes, root, k)
  {
    parent := NIL;
    var a := root;
    while a != NIL
      invariant IsRef(nodes, a) && IsRef(nodes, parent)
      invariant Walk(nodes, root, k) == if a == NIL then parent else Walk(nodes, a, k)
      decreases Rank(nodes, a)
    {
      parent := a;
      if KeyCmp(k, nodes[a].key) < 0 {
        a := nodes[a].left;
      } else {
        a := nodes[a].right;
      }
    }
  }

  /** The arena after the new node for (k, v) is appended with prev == b and
      hung in b's child slot for k (or left as the root when b is NULL). */
  ghost function Attach(nodes: seq<NodeObj>, b: int, k: string, v: int): (m: seq<NodeObj>)
    requires Linked(nodes) && IsRef(nodes, b)
    ensures Linked(m) && |m| == |nodes| + 1
  {
    var n := |nodes|;
    var grown := nodes + [NodeObj(k, v, NIL, NIL, b)];
    if b == NIL then grown
    else if KeyCmp(k, nodes[b].key) < 0 then grown[b := nodes[b].(left := n)]
    else grown[b := nodes[b].(right := n)]
  }

  /** The attachment appends a leaf whose prev is b, fills b's child slot for k
      with it, and changes nothing else. */
  lemma AttachKeeps(nodes: seq<NodeObj>, b: int, k: string, v: int)
    requires Linked(nodes) && IsRef(nodes, b)
    ensures var m := Attach(nodes, b, k, v);
      && m[|nodes|] == NodeObj(k, v, NIL, NIL, b)
      && (forall i :: 0 <= i < |nodes| && i != b ==> m[i] == nodes[i])
      && (b != NIL ==>
            && m[b].key == nodes[b].key && m[b].value == nodes[b].value && m[b].prev == nodes[b].prev
            && (KeyCmp(k, nodes[b].key) < 0 ==> m[b].left == |nodes| && m[b].right == nodes[b].right)
            && (KeyCmp(k, nodes[b].key) >= 0 ==> m[b].right == |nodes| && m[b].left == nodes[b].left))
  {
  }

  /** Subtrees that do not contain b are not changed by the attachment. */
  lemma {:induction false} AttachFrame(nodes: seq<NodeObj>, b: int, k: string, v: int, j: int)
    requires Linked(nodes) && IsRef(nodes, b) && IsRef(nodes, j)
    requires b !in Reach(nodes, j)
    ensures TreeAt(Attach(nodes, b, k, v), j) == TreeAt(nodes, j)
    ensures Reach(Attach(nodes, b, k, v), j) == Reach(nodes, j)
    decreases Rank(nodes, j)
  {
    if j != NIL {
      var m := Attach(nodes, b, k, v);
      assert m[j] == nodes[j];
      AttachFrame(nodes, b, k, v, nodes[j].left);
      AttachFrame(nodes, b, k, v, nodes[j].right);
    }
  }

  /** The new node is a leaf. */
  lemma AttachLeaf(nodes: seq<NodeObj>, b: int, k: string, v: int)
    requires Linked(nodes) && IsRef(nodes, b)
    ensures TreeAt(Attach(nodes, b, k, v), |nodes|) == Node(Nil, k, v, Nil)
    ensures Reach(Attach(nodes, b, k, v), |nodes|) == {|nodes|}
  {
    var m := Attach(nodes, b, k, v);
    AttachKeeps(nodes, b, k, v);
    var leaf := m[|nodes|];
    assert leaf.left == NIL && leaf.right == NIL;
    assert Reach(m, |nodes|) == {|nodes|} + Reach(m, NIL) + Reach(m, NIL);
  }

  /** The subtree at a node on the walk grows by the new node exactly as the
      functional insertion says. */
  lemma {:induction false} AttachAlongWalk(nodes: seq<NodeObj>, a: int, k: string, v: int)
    requires Linked(nodes) && Disjoint(nodes) && 0 <= a < |nodes|
    ensures TreeAt(Attach(nodes, Walk(nodes, a, k), k, v), a) == Ins(TreeAt(nodes, a), k, v)
    decreases Rank(nodes, a)
  {
    var b := Walk(nodes, a, k);
    var m := Attach(nodes, b, k, v);
    var c := Next(nodes, a, k);
    var other := if KeyCmp(k, nodes[a].key) < 0 then nodes[a].right else nodes[a].left;
    assert Splits(nodes, a);
    AttachLeaf(nodes, b, k, v);
    if c == NIL {
      assert b == a;
      AttachFrame(nodes, b, k, v, other);
    } else {
      AttachAlongWalk(nodes, c, k, v);
      AttachFrame(nodes, b, k, v, other);
      assert m[a] == nodes[a];
    }
  }

  /** The nodes reachable from j gain the new node when b is one of them. */
  lemma {:induction false} AttachReach(nodes: seq<NodeObj>, b: int, k: string, v: int, j: int)
    requires Linked(nodes) && 0 <= b < |nodes| && Next(nodes, b, k) == NIL && IsRef(nodes, j)
    requires b in Reach(nodes, j)
    ensures Reach(Attach(nodes, b, k, v), j) == Reach(nodes, j) + {|nodes|}
    decreases Rank(nodes, j)
  {
    var m := Attach(nodes, b, k, v);
    var l, r := nodes[j].left, nodes[j].right;
    if j == b {
      AttachLeaf(nodes, b, k, v);
      var other := if KeyCmp(k, nodes[b].key) < 0 then nodes[b].right else nodes[b].left;
      AttachFrame(nodes, b, k, v, other);
    } else {
      assert m[j] == nodes[j];
      if b in Reach(nodes, l) {
        AttachReach(nodes, b, k, v, l);
      } else {
        AttachFrame(nodes, b, k, v, l);
      }
      if b in Reach(nodes, r) {
        AttachReach(nodes, b, k, v, r);
      } else {
        AttachFrame(nodes, b, k, v, r);
      }
    }
  }

  /** The nodes reachable from j after the attachment: the new node joins
      them exactly when b is one of them. */
  lemma AttachReachAny(nodes: seq<NodeObj>, b: int, k: string, v: int, j: int)
    requires Linked(nodes) && 0 <= b < |nodes| && Next(nodes, b, k) == NIL && IsRef(nodes, j)
    ensures b in Reach(nodes, j) ==> Reach(Attach(nodes, b, k, v), j) == Reach(nodes, j) + {|nodes|}
    ensures b !in Reach(nodes, j) ==> Reach(Attach(nodes, b, k, v), j) == Reach(nodes, j)
  {
    if b in Reach(nodes, j) {
      AttachReach(nodes, b, k, v, j);
    } else {
      AttachFrame(nodes, b, k, v, j);
    }
  }

  /** Attaching at the end of the walk from the root keeps the arena one
      well-formed tree, and the tree grows as the functional insertion says. */
  lemma AttachWellFormed(nodes: seq<NodeObj>, root: int, k: string, v: int)
    requires WellFormed(nodes, root)
    ensures var m := Attach(nodes, Walk(nodes, root, k), k, v);
            var root' := if root == NIL then |nodes| else root;
            WellFormed(m, root') && TreeAt(m, root') == Ins(TreeAt(nodes, root), k, v)
  {
    if root == NIL {
      AttachFirst(nodes, k, v);
    } else {
      AttachBelowRoot(nodes, root, k, v);
    }
  }

  /** The first node of an empty dictionary becomes its root. */
  lemma AttachFirst(nodes: seq<NodeObj>, k: string, v: int)
    requires nodes == []
    ensures var m := Attach(nodes, NIL, k, v);
            WellFormed(m, 0) && TreeAt(m, 0) == Node(Nil, k, v, Nil)
  {
    var m := Attach(nodes, NIL, k, v);
    AttachLeaf(nodes, NIL, k, v);
    assert m == [NodeObj(k, v, NIL, NIL, NIL)];
    assert Reach(m, NIL) == {};
  }

  lemma AttachBelowRoot(nodes: seq<NodeObj>, root: int, k: string, v: int)
    requires WellFormed(nodes, root) && root != NIL
    ensures var m := Attach(nodes, Walk(nodes, root, k), k, v);
            WellFormed(m, root) && TreeAt(m, root) == Ins(TreeAt(nodes, root), k, v)
  {
    var b := Walk(nodes, root, k);
    var m := Attach(nodes, b, k, v);
    var n := |nodes|;
    AttachAlongWalk(nodes, root, k, v);
    AttachDisjoint(nodes, b, k, v);
    AttachParentLinks(nodes, b, k, v);
    AttachReach(nodes, b, k, v, root);
    assert Linked(m);
    assert IsRef(m, root);
    assert m != [];
    AttachKeeps(nodes, b, k, v);
    assert Disjoint(m);
    assert ParentLinks(m);
    assert Reach(m, root) == Indices(n + 1);
  }

  lemma AttachDisjoint(nodes: seq<NodeObj>, b: int, k: string, v: int)
    requires Linked(nodes) && Disjoint(nodes) && 0 <= b < |nodes| && Next(nodes, b, k) == NIL
    ensures Disjoint(Attach(nodes, b, k, v))
  {
    var m := Attach(nodes, b, k, v);
    var n := |nodes|;
    forall i | 0 <= i < |m| ensures Splits(m, i) {
      if i == n {
        assert m[i].left == NIL && m[i].right == NIL;
      } else if i == b {
        AttachLeaf(nodes, b, k, v);
        var other := if KeyCmp(k, nodes[b].key) < 0 then nodes[b].right else nodes[b].left;
        AttachFrame(nodes, b, k, v, other);
      } else {
        assert m[i] == nodes[i];
        assert Splits(nodes, i);
        AttachReachAny(nodes, b, k, v, nodes[i].left);
        AttachReachAny(nodes, b, k, v, nodes[i].right);
      }
    }
  }

  lemma AttachParentLinks(nodes: seq<NodeObj>, b: int, k: string, v: int)
    requires Linked(nodes) && ParentLinks(nodes) && 0 <= b < |nodes|
    ensures ParentLinks(Attach(nodes, b, k, v))
  {
    var m := Attach(nodes, b, k, v);
    var n := |nodes|;
    assert forall i :: 0 <= i < n ==> m[i].prev == nodes[i].prev;
    forall i | 0 <= i < |m| ensures ParentOf(m, i) {
      if i < n && i != b {
        assert m[i] == nodes[i];
        assert ParentOf(nodes, i);
      } else if i == b {
        assert ParentOf(nodes, i);
      }
    }
  }
}
