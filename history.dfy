/** The dictionary as the sequence of pairs inserted since it was created or
    last emptied. The tree the inserts build, the order inOrder prints and the
    pair lookup finds are all functions of that sequence. */
module History {
  import opened Keys
  import opened Trees

  /** The tree built by inserting the pairs of h, first to last, into an
      empty tree. */
  function Build(h: seq<Pair>): Tree {
    if h == [] then Nil
    else Ins(Build(h[..|h| - 1]), h[|h| - 1].key, h[|h| - 1].value)
  }

  /** s with p placed just before the first pair whose key compares greater
      than p's key, that is after every pair whose key is not greater. */
  function InsertAfter(s: seq<Pair>, p: Pair): seq<Pair> {
    if s == [] || Less(p.key, s[0].key) then [p] + s
    else [s[0]] + InsertAfter(s[1..], p)
  }

  /** InsertAfter adds p and keeps every pair of s. */
  lemma {:induction false} InsertAfterElements(s: seq<Pair>, p: Pair)
    ensures multiset(InsertAfter(s, p)) == multiset(s) + multiset{p}
  {
    if s != [] && !Less(p.key, s[0].key) {
      assert s == [s[0]] + s[1..];
      InsertAfterElements(s[1..], p);
    }
  }

  /** The pairs of h sorted by key, pairs with equal keys in the order of h. */
  function StableSort(h: seq<Pair>): seq<Pair> {
    if h == [] then []
    else InsertAfter(StableSort(h[..|h| - 1]), h[|h| - 1])
  }

  /** The pairs of s whose key is k, in the order of s. */
  function Filter(s: seq<Pair>, k: string): seq<Pair> {
    if s == [] then []
    else (if s[0].key == k then [s[0]] else []) + Filter(s[1..], k)
  }

  /** Non-decreasing key order. */
  ghost predicate Sorted(s: seq<Pair>) {
    forall i, j :: 0 <= i < j < |s| ==> !Less(s[j].key, s[i].key)
  }

  ghost predicate DistinctKeys(h: seq<Pair>) {
    forall i, j :: 0 <= i < j < |h| ==> h[i].key != h[j].key
  }

  lemma {:induction false} FilterConcat(a: seq<Pair>, b: seq<Pair>, k: string)
    ensures Filter(a + b, k) == Filter(a, k) + Filter(b, k)
  {
    if a == [] {
      assert a + b == b;
    } else {
      assert (a + b)[0] == a[0] && (a + b)[1..] == a[1..] + b;
      FilterConcat(a[1..], b, k);
      var hd := if a[0].key == k then [a[0]] else [];
      assert Filter(a + b, k) == hd + (Filter(a[1..], k) + Filter(b, k));
      assert Filter(a, k) == hd + Filter(a[1..], k);
    }
  }

  /** Filter is empty exactly when no pair has key k. */
  lemma {:induction false} FilterEmpty(s: seq<Pair>, k: string)
    ensures Filter(s, k) == [] <==> forall p :: p in s ==> p.key != k
  {
    if s != [] {
      FilterEmpty(s[1..], k);
      assert forall p :: p in s <==> p == s[0] || p in s[1..];
    }
  }

  /** Inserting into a sorted sequence keeps it sorted. */
  lemma {:induction false} InsertAfterSorted(s: seq<Pair>, p: Pair)
    requires Sorted(s)
    ensures Sorted(InsertAfter(s, p))
  {
    var r := InsertAfter(s, p);
    if s == [] || Less(p.key, s[0].key) {
      forall j | 0 <= j < |s| ensures !Less(s[j].key, p.key) {
        if Less(s[j].key, p.key) {
          LessTransitive(s[j].key, p.key, s[0].key);
        }
      }
    } else {
      var tail := InsertAfter(s[1..], p);
      InsertAfterSorted(s[1..], p);
      InsertAfterElements(s[1..], p);
      forall j | 0 <= j < |tail| ensures !Less(tail[j].key, s[0].key) {
        assert tail[j] in multiset(tail);
        if tail[j] != p {
          assert tail[j] in s[1..];
        }
      }
    }
  }

  /** Inserting at the front of a pair that sorts after p lands in a. */
  lemma {:induction false} InsertAfterBefore(a: seq<Pair>, b: seq<Pair>, p: Pair)
    requires b != [] && Less(p.key, b[0].key)
    ensures InsertAfter(a + b, p) == InsertAfter(a, p) + b
  {
    if a != [] {
      assert (a + b)[0] == a[0] && (a + b)[1..] == a[1..] + b;
      if !Less(p.key, a[0].key) {
        InsertAfterBefore(a[1..], b, p);
      }
    }
  }

  /** Inserting behind a prefix whose keys are all not greater than p's. */
  lemma {:induction false} InsertAfterBehind(a: seq<Pair>, b: seq<Pair>, p: Pair)
    requires forall q :: q in a ==> !Less(p.key, q.key)
    ensures InsertAfter(a + b, p) == a + InsertAfter(b, p)
  {
    if a == [] {
      assert a + b == b;
    } else {
      assert (a + b)[0] == a[0] && (a + b)[1..] == a[1..] + b;
      InsertAfterBehind(a[1..], b, p);
    }
  }

  /** Under the ordering invariant, the in-order pairs after an insertion are
      the in-order pairs before it with the new pair placed after every pair
      whose key is not greater: equal keys stay in insertion order. */
  lemma {:induction false} FlattenIns(t: Tree, k: string, v: int)
    requires Ordered(t)
    ensures Flatten(Ins(t, k, v)) == InsertAfter(Flatten(t), Pair(k, v))
  {
    match t
    case Nil =>
    case Node(l, key, val, r) =>
      if Less(k, key) {
        FlattenIns(l, k, v);
        InsertAfterLeftOf(Flatten(l), Pair(key, val), Flatten(r), Flatten(Ins(l, k, v)), Pair(k, v));
      } else {
        FlattenIns(r, k, v);
        InsertAfterRightOf(Flatten(l), Pair(key, val), Flatten(r), Pair(k, v));
      }
  }

  /** The step of FlattenIns where the new pair goes left of the node x. */
  lemma InsertAfterLeftOf(a: seq<Pair>, x: Pair, rest: seq<Pair>, a': seq<Pair>, p: Pair)
    requires Less(p.key, x.key) && a' == InsertAfter(a, p)
    ensures InsertAfter(a + [x] + rest, p) == a' + [x] + rest
  {
    assert a + [x] + rest == a + ([x] + rest);
    assert a' + [x] + rest == a' + ([x] + rest);
    InsertAfterBefore(a, [x] + rest, p);
  }

  /** The step of FlattenIns where the new pair goes right of the node x. */
  lemma InsertAfterRightOf(a: seq<Pair>, x: Pair, rest: seq<Pair>, p: Pair)
    requires forall q :: q in a ==> Less(q.key, x.key)
    requires !Less(p.key, x.key)
    ensures InsertAfter(a + [x] + rest, p) == a + [x] + InsertAfter(rest, p)
  {
    var ax := a + [x];
    forall q | q in ax ensures !Less(p.key, q.key) {
      assert q in a || q == x;
      if q != x && Less(p.key, q.key) {
        LessTransitive(p.key, q.key, x.key);
      }
    }
    InsertAfterBehind(ax, rest, p);
  }

  /** Every tree built by inserts satisfies the ordering invariant. */
  lemma {:induction false} BuildOrdered(h: seq<Pair>)
    ensures Ordered(Build(h))
  {
    if h != [] {
      BuildOrdered(h[..|h| - 1]);
      InsOrdered(Build(h[..|h| - 1]), h[|h| - 1].key, h[|h| - 1].value);
    }
  }

  /** The in-order pairs of the built tree are the stable sort of the
      inserted pairs. */
  lemma {:induction false} FlattenBuild(h: seq<Pair>)
    ensures Flatten(Build(h)) == StableSort(h)
  {
    if h != [] {
      FlattenBuild(h[..|h| - 1]);
      BuildOrdered(h[..|h| - 1]);
      FlattenIns(Build(h[..|h| - 1]), h[|h| - 1].key, h[|h| - 1].value);
    }
  }

  /** The stable sort is sorted, is a permutation of h, and keeps the pairs
      of every key in the order of h. */
  lemma {:induction false} StableSortSpec(h: seq<Pair>, k: string)
    ensures Sorted(StableSort(h))
    ensures multiset(StableSort(h)) == multiset(h)
    ensures Filter(StableSort(h), k) == Filter(h, k)
  {
    if h != [] {
      var front, p := h[..|h| - 1], h[|h| - 1];
      assert h == front + [p];
      StableSortSpec(front, k);
      InsertAfterSorted(StableSort(front), p);
      InsertAfterElements(StableSort(front), p);
      InsertAfterFilter(StableSort(front), p, k);
      FilterConcat(front, [p], k);
    }
  }

  /** Inserting into a sorted sequence appends p to the pairs of its key. */
  lemma {:induction false} InsertAfterFilter(s: seq<Pair>, p: Pair, k: string)
    requires Sorted(s)
    ensures Filter(InsertAfter(s, p), k) == Filter(s, k) + Filter([p], k)
  {
    if s == [] {
      assert InsertAfter(s, p) == [p];
    } else if Less(p.key, s[0].key) {
      assert InsertAfter(s, p) == [p] + s;
      FilterConcat([p], s, k);
      if p.key == k {
        SortedAfterMisses(s, p.key);
      }
    } else {
      assert Sorted(s[1..]);
      InsertAfterFilter(s[1..], p, k);
      assert InsertAfter(s, p) == [s[0]] + InsertAfter(s[1..], p);
      FilterConcat([s[0]], InsertAfter(s[1..], p), k);
      FilterConcat([s[0]], s[1..], k);
      assert [s[0]] + s[1..] == s;
    }
  }

  /** A sorted sequence whose first key is greater than k holds no pair with
      key k. */
  lemma SortedAfterMisses(s: seq<Pair>, k: string)
    requires Sorted(s) && s != [] && Less(k, s[0].key)
    ensures Filter(s, k) == []
  {
    forall q | q in s ensures q.key != k {
      var j :| 0 <= j < |s| && s[j] == q;
      assert j == 0 || !Less(s[j].key, s[0].key);
    }
    FilterEmpty(s, k);
  }

  /** The pair the search of a built tree finds is the earliest inserted pair
      with that key, and the search misses exactly when there is none. */
  lemma {:induction false} FindBuild(h: seq<Pair>, k: string)
    ensures Find(Build(h), k) == Nil <==> Filter(h, k) == []
    ensures Filter(h, k) != [] ==> Entry(Find(Build(h), k)) == Filter(h, k)[0]
  {
    if h != [] {
      var front, p := h[..|h| - 1], h[|h| - 1];
      assert h == front + [p];
      FindBuild(front, k);
      FindIns(Build(front), p.key, p.value, k);
      FilterConcat(front, [p], k);
    }
  }

  /** The built tree has one node per inserted pair. */
  lemma {:induction false} BuildSize(h: seq<Pair>)
    ensures Size(Build(h)) == |h|
  {
    if h != [] {
      BuildSize(h[..|h| - 1]);
    }
  }

  /** Filter keeps pairs of s with key k and nothing else. */
  lemma {:induction false} FilterMember(s: seq<Pair>, k: string)
    ensures forall q :: q in Filter(s, k) ==> q in s && q.key == k
  {
    if s != [] {
      FilterMember(s[1..], k);
      assert forall q :: q in s[1..] ==> q in s;
    }
  }

  /** A pair whose key is absent keeps the keys distinct. */
  lemma DistinctKeysAppend(h: seq<Pair>, p: Pair)
    requires DistinctKeys(h) && Filter(h, p.key) == []
    ensures DistinctKeys(h + [p])
  {
    FilterEmpty(h, p.key);
    forall i | 0 <= i < |h| ensures h[i].key != p.key {
      assert h[i] in h;
    }
  }
}
