/** The Dictionary ADT of Dictionary.c: a handle holding the root of an
    unbalanced binary search tree, the pair count and the uniqueness flag.
    Keys are strings compared as strcmp compares them, values are ints. */
module DictionaryADT {
  import opened Keys
  import opened Trees
  import opened History
  import opened Format
  import opened Arena

  /** VAL_UNDEF, what lookup returns for a missing key. Dictionary.h is not
      part of this model; the value is taken to be -1, and nothing proved here
      depends on it. */
  const ValUndef: int := -1

  /** The outcome of insert: the C code exits the process on a duplicate key
      in unique mode; here that is a returned error. */
  datatype InsertOutcome = Inserted | DuplicateKey(key: string)

  /** What getUnique reports for the stored flag. */
  function UniqueFlag(isUnique: int): int {
    if isUnique == 0 then 0 else 1
  }

  /** What lookup answers for a dictionary holding the pairs h, inserted in
      that order: the value of the earliest pair with key k, or VAL_UNDEF. */
  function EarliestValue(h: seq<Pair>, k: string): int {
    var f := Filter(h, k);
    if f == [] then ValUndef else f[0].value
  }

  /** insert's duplicate check as written: it fires only when the stored flag
      is exactly 1. */
  predicate RejectsAsWritten(isUnique: int, h: seq<Pair>, k: string) {
    isUnique == 1 && Filter(h, k) != []
  }

  /** insert's duplicate check as its header comment states it: it fires
      whenever getUnique reports 1 and the key is present. */
  predicate Rejects(isUnique: int, h: seq<Pair>, k: string) {
    UniqueFlag(isUnique) != 0 && Filter(h, k) != []
  }

  /** The pairs after an insert whose duplicate check is `rejects`. */
  function InsertPairs(rejects: bool, h: seq<Pair>, k: string, v: int): seq<Pair> {
    if rejects then h else h + [Pair(k, v)]
  }

  /** As written, a dictionary created with a nonzero flag other than 1 reports
      itself unique and still takes a second pair with the same key. */
  lemma AsWrittenAdmitsDuplicate()
    ensures UniqueFlag(2) == 1
    ensures var h := InsertPairs(RejectsAsWritten(2, [Pair("k", 1)], "k"), [Pair("k", 1)], "k", 2);
            h == [Pair("k", 1), Pair("k", 2)] && !DistinctKeys(h)
  {
    assert Filter([Pair("k", 1)], "k") == [Pair("k", 1)];
    var h := [Pair("k", 1), Pair("k", 2)];
    assert h[0].key == h[1].key;
  }

  /** With the check as intended, every dictionary that reports itself unique
      keeps its keys distinct across inserts. */
  lemma InsertKeepsKeysDistinct(isUnique: int, h: seq<Pair>, k: string, v: int)
    requires UniqueFlag(isUnique) == 1 ==> DistinctKeys(h)
    ensures var h' := InsertPairs(Rejects(isUnique, h, k), h, k, v);
            UniqueFlag(isUnique) == 1 ==> DistinctKeys(h')
  {
    if UniqueFlag(isUnique) == 1 && !Rejects(isUnique, h, k) {
      DistinctKeysAppend(h, Pair(k, v));
    }
  }

  /** The invariant of a Dictionary handle, over its fields and the pairs
      inserted since the last clear. */
  ghost predicate Represents(nodes: seq<NodeObj>, root: int, numPairs: int, isUnique: int, h: seq<Pair>) {
    && WellFormed(nodes, root)
    && numPairs == |nodes| == |h|
    && TreeAt(nodes, root) == Build(h)
    && (UniqueFlag(isUnique) == 1 ==> DistinctKeys(h))
  }

  /** The empty handle of newDictionary and makeEmpty satisfies the invariant. */
  lemma EmptyRepresents(isUnique: int)
    ensures Represents([], NIL, 0, isUnique, [])
  {
    assert Reach([], NIL) == {} == Indices(0);
  }

  /** An accepted insert keeps the invariant: the arena with the new node
      attached where the walk ends, rooted at the new node when the tree was
      empty, represents the pairs with (k, v) appended; its tree is the old
      tree with (k, v) inserted, ordered, holding one pair more. */
  lemma InsertRepresents(nodes: seq<NodeObj>, root: int, numPairs: int, isUnique: int, h: seq<Pair>, k: string, v: int,
                         b: int, nodes': seq<NodeObj>, root': int, numPairs': int, h': seq<Pair>)
    requires Represents(nodes, root, numPairs, isUnique, h) && !Rejects(isUnique, h, k)
    requires b == Walk(nodes, root, k) && nodes' == Attach(nodes, b, k, v)
    requires root' == (if b == NIL then |nodes| else root)
    requires numPairs' == numPairs + 1 && h' == h + [Pair(k, v)]
    ensures Represents(nodes', root', numPairs', isUnique, h')
    ensures TreeAt(nodes', root') == Ins(TreeAt(nodes, root), k, v)
    ensures Ordered(TreeAt(nodes', root'))
    ensures multiset(Flatten(TreeAt(nodes', root'))) == multiset(Flatten(TreeAt(nodes, root))) + multiset{Pair(k, v)}
  {
    assert h'[..|h'| - 1] == h;
    AttachWellFormed(nodes, root, k, v);
    InsElements(TreeAt(nodes, root), k, v);
    BuildOrdered(h');
    InsertKeepsKeysDistinct(isUnique, h, k, v);
  }

  class Dictionary {
    /** The NodeObj records in allocation order; pointers are indices. */
    var nodes: seq<NodeObj>
    var root: int
    var numPairs: int
    var isUnique: int
    /** The pairs inserted since construction or the last makeEmpty, in
        insertion order. */
    ghost var History: seq<Pair>

    ghost predicate Valid()
      reads this
    {
      Represents(nodes, root, numPairs, isUnique, History)
    }

    /** The tree the handle's root points at. */
    ghost function Shape(): Tree
      reads this
      requires Valid()
    {
      TreeAt(nodes, root)
    }

    /** newDictionary: an empty dictionary with the given uniqueness flag.
        The C code leaves root unset; here it is NULL. */
    constructor (unique: int)
      ensures Valid()
      ensures isUnique == unique && numPairs == 0 && root == NIL && nodes == [] && History == []
    {
      nodes := [];
      root := NIL;
      numPairs := 0;
      isUnique := unique;
      History := [];
      EmptyRepresents(unique);
    }

    /** size: the number of pairs, which is the number of pairs inserted since
        the last clear and the number of nodes reachable from root. */
    method Size() returns (n: int)
      requires Valid()
      ensures n == |History| == |Reach(nodes, root)|
      ensures n == |Flatten(Shape())|
    {
      n := numPairs;
      BuildSize(History);
    }

    /** getUnique: 0 when the flag is 0, 1 for any other flag. */
    method GetUnique() returns (u: int)
      ensures u == 0 || u == 1
      ensures u == 0 <==> isUnique == 0
    {
      if isUnique == 0 {
        u := 0;
      } else {
        u := 1;
      }
    }

    /** lookup: the value of the first node on the search path whose key
        equals k, which is the earliest inserted pair with key k; VAL_UNDEF
        when no stored key equals k. */
    method Lookup(k: string) returns (v: int)
      requires Valid()
      ensures v == EarliestValue(History, k)
      ensures (forall p :: p in History ==> p.key != k) ==> v == ValUndef
      ensures (exists p :: p in History && p.key == k) ==> exists p :: p in History && p.key == k && p.value == v
    {
      var n := FindKey(nodes, root, k);
      v := if n == NIL then ValUndef else nodes[n].value;
      FindBuild(History, k);
      FilterEmpty(History, k);
      if Filter(History, k) != [] {
        FilterMember(History, k);
      }
    }

    /** insert: in unique mode a key already present is refused and nothing
        changes; otherwise the pair goes in as a new leaf (see Link). */
    method Insert(k: string, v: int) returns (res: InsertOutcome)
      requires Valid()
      modifies this
      ensures Valid()
      ensures isUnique == old(isUnique)
      ensures res == DuplicateKey(k) <==> old(Rejects(isUnique, History, k))
      ensures res != Inserted ==> res == DuplicateKey(k)
      ensures res == DuplicateKey(k) ==>
        nodes == old(nodes) && root == old(root) && numPairs == old(numPairs) && History == old(History)
      ensures res == Inserted ==>
        && History == old(History) + [Pair(k, v)]
        && numPairs == old(numPairs) + 1
        && nodes == Attach(old(nodes), old(Walk(nodes, root, k)), k, v)
        && root == (if old(root) == NIL then old(|nodes|) else old(root))
        && Shape() == Ins(old(Shape()), k, v)
        && Ordered(Shape())
        && multiset(Flatten(Shape())) == old(multiset(Flatten(Shape()))) + multiset{Pair(k, v)}
    {
      FindBuild(History, k);
      if isUnique != 0 {
        if FindKey(nodes, root, k) != NIL {
          return DuplicateKey(k);
        }
      }
      Link(k, v);
      res := Inserted;
    }

    /** The part of insert after the duplicate check: the walk from root goes
        left on a smaller key and right on an equal or greater one, the new
        node hangs as a leaf under the last node visited, with prev pointing
        at it, or becomes the root of an empty tree; the count goes up by one. */
    method Link(k: string, v: int)
      requires Valid() && !Rejects(isUnique, History, k)
      modifies this
      ensures Valid()
      ensures isUnique == old(isUnique)
      ensures History == old(History) + [Pair(k, v)]
      ensures numPairs == old(numPairs) + 1
      ensures nodes == Attach(old(nodes), old(Walk(nodes, root, k)), k, v)
      ensures root == (if old(root) == NIL then old(|nodes|) else old(root))
      ensures Shape() == Ins(old(Shape()), k, v)
      ensures Ordered(Shape())
      ensures multiset(Flatten(Shape())) == old(multiset(Flatten(Shape()))) + multiset{Pair(k, v)}
    {
      var n := |nodes|;
      var N := NewNode(k, v);
      var B := Descend(nodes, root, k);
      // The new node's prev is B in every branch (NULL when it becomes the root).
      var m := nodes + [N.(prev := B)];
      if B == NIL {
      } else if KeyCmp(k, nodes[B].key) < 0 {
        m := m[B := nodes[B].(left := n)];
      } else {
        m := m[B := nodes[B].(right := n)];
      }
      assert m == Attach(nodes, B, k, v);
      ghost var nodes0, root0, count0, h0 := nodes, root, numPairs, History;
      nodes := m;
      if B == NIL {
        root := n;
      }
      numPairs := numPairs + 1;
      History := History + [Pair(k, v)];
      InsertRepresents(nodes0, root0, count0, isUnique, h0, k, v, B, nodes, root, numPairs, History);
    }

    /** makeEmpty: every node is released (deleteAll, children before
        parents), root becomes NULL and the count 0; the flag is untouched.
        The state afterwards depends only on the flag, so a second call
        changes nothing. */
    method MakeEmpty() returns (ghost freed: seq<int>)
      requires Valid()
      modifies this
      ensures Valid()
      ensures nodes == [] && root == NIL && numPairs == 0 && History == []
      ensures isUnique == old(isUnique)
      ensures forall x :: x in freed <==> 0 <= x < old(|nodes|)
      ensures NoDup(freed) && PostOrder(old(nodes), freed)
    {
      freed := DeleteAll(nodes, root);
      DeleteAllFreesAll(nodes, root);
      root := NIL;
      nodes := [];
      numPairs := 0;
      History := [];
      EmptyRepresents(isUnique);
    }

    /** printDictionary: one line per pair, in in-order; that is every pair
        inserted since the last clear, sorted by key, pairs with equal keys in
        insertion order. */
    method PrintDictionary() returns (out: seq<string>)
      requires Valid()
      ensures out == Lines(StableSort(History))
      ensures |out| == numPairs
    {
      out := InOrder(nodes, root);
      FlattenBuild(History);
      BuildSize(History);
    }
  }
}
