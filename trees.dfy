/** The abstract shape of the dictionary: the binary tree that the NodeObj
    records of Dictionary.c form, seen as a value. */
module Trees {
  import opened Keys

  /** One (key, value) pair as stored in a NodeObj and printed by inOrder. */
  datatype Pair = Pair(key: string, value: int)

  datatype Tree = Nil | Node(left: Tree, key: string, value: int, right: Tree)

  function Size(t: Tree): nat {
    match t
    case Nil => 0
    case Node(l, _, _, r) => Size(l) + 1 + Size(r)
  }

  /** The pair held at the root of a non-empty tree. */
  function Entry(t: Tree): Pair
    requires t.Node?
  {
    Pair(t.key, t.value)
  }

  /** The pairs of t in in-order: left subtree, node, right subtree. */
  function Flatten(t: Tree): (s: seq<Pair>)
    ensures |s| == Size(t)
  {
    match t
    case Nil => []
    case Node(l, k, v, r) => Flatten(l) + [Pair(k, v)] + Flatten(r)
  }

  /** The search of findKey: the subtree rooted at the first node on the
      search path whose key compares equal to k, or Nil when the path ends. */
  function Find(t: Tree, k: string): (found: Tree)
    ensures found == Nil || found.key == k
    ensures found != Nil ==> Entry(found) in Flatten(t)
  {
    match t
    case Nil => Nil
    case Node(l, key, _, r) =>
      if KeyCmp(k, key) == 0 then t
      else if KeyCmp(k, key) < 0 then Find(l, k)
      else Find(r, k)
  }

  /** The tree after insert's walk attaches (k, v) as a new leaf: a key that
      compares less goes left, an equal or greater key goes right. */
  function Ins(t: Tree, k: string, v: int): (u: Tree)
    ensures Size(u) == Size(t) + 1
  {
    match t
    case Nil => Node(Nil, k, v, Nil)
    case Node(l, key, val, r) =>
      if Less(k, key) then Node(Ins(l, k, v), key, val, r)
      else Node(l, key, val, Ins(r, k, v))
  }

  /** The ordering invariant: every key in a node's left subtree compares
      less than the node's key, every key in its right subtree compares
      greater or equal. */
  ghost predicate Ordered(t: Tree) {
    match t
    case Nil => true
    case Node(l, key, _, r) =>
      && Ordered(l)
      && Ordered(r)
      && (forall p :: p in Flatten(l) ==> Less(p.key, key))
      && (forall p :: p in Flatten(r) ==> !Less(p.key, key))
  }

  /** Insertion adds exactly one pair to the tree's contents. */
  lemma {:induction false} InsElements(t: Tree, k: string, v: int)
    ensures multiset(Flatten(Ins(t, k, v))) == multiset(Flatten(t)) + multiset{Pair(k, v)}
  {
    match t
    case Nil =>
    case Node(l, key, val, r) =>
      var x := Pair(key, val);
      assert Flatten(t) == Flatten(l) + [x] + Flatten(r);
      if Less(k, key) {
        InsElements(l, k, v);
        assert Flatten(Ins(t, k, v)) == Flatten(Ins(l, k, v)) + [x] + Flatten(r);
      } else {
        InsElements(r, k, v);
        assert Flatten(Ins(t, k, v)) == Flatten(l) + [x] + Flatten(Ins(r, k, v));
      }
  }

  /** Insertion preserves the ordering invariant. */
  lemma {:induction false} InsOrdered(t: Tree, k: string, v: int)
    requires Ordered(t)
    ensures Ordered(Ins(t, k, v))
  {
    match t
    case Nil =>
    case Node(l, key, val, r) =>
      if Less(k, key) {
        InsOrdered(l, k, v);
        InsElements(l, k, v);
        forall p | p in Flatten(Ins(l, k, v)) ensures Less(p.key, key) {
          assert p in multiset(Flatten(Ins(l, k, v)));
        }
      } else {
        InsOrdered(r, k, v);
        InsElements(r, k, v);
        forall p | p in Flatten(Ins(r, k, v)) ensures !Less(p.key, key) {
          assert p in multiset(Flatten(Ins(r, k, v)));
        }
      }
  }

  /** Under the ordering invariant the search misses exactly when no stored
      key compares equal to k. */
  lemma {:induction false} FindMisses(t: Tree, k: string)
    requires Ordered(t)
    ensures Find(t, k) == Nil <==> forall p :: p in Flatten(t) ==> p.key != k
  {
    match t
    case Nil =>
    case Node(l, key, _, r) =>
      if KeyCmp(k, key) != 0 {
        FindMisses(l, k);
        FindMisses(r, k);
      }
  }

  /** How an insertion changes the outcome of a later search: a key that was
      already found keeps its node's pair, and a key that was missing is found
      exactly when it is the inserted key. */
  lemma {:induction false} FindIns(t: Tree, k': string, v': int, k: string)
    ensures Find(Ins(t, k', v'), k) != Nil <==> Find(t, k) != Nil || k' == k
    ensures Find(t, k) != Nil ==> Entry(Find(Ins(t, k', v'), k)) == Entry(Find(t, k))
    ensures Find(t, k) == Nil && k' == k ==> Entry(Find(Ins(t, k', v'), k)) == Pair(k', v')
  {
    match t
    case Nil =>
    case Node(l, key, _, r) =>
      if KeyCmp(k, key) != 0 {
        if Less(k', key) {
          FindIns(l, k', v', k);
        } else {
          FindIns(r, k', v', k);
        }
      }
  }
}
