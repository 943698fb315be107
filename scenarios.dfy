/** Small client runs of the Dictionary ADT, each stated as a contract over
    what its calls return. */
module Scenarios {
  import opened Trees
  import opened History
  import opened Keys
  import opened Format
  import opened DictionaryADT

  /** A dictionary holding the pairs of h, inserted first to last; in unique
      mode the keys of h must be distinct, so that no insert is refused. */
  method FromPairs(unique: int, h: seq<Pair>) returns (d: Dictionary)
    requires UniqueFlag(unique) == 1 ==> DistinctKeys(h)
    ensures fresh(d) && d.Valid()
    ensures d.isUnique == unique && d.History == h
  {
    if h == [] {
      d := new Dictionary(unique);
    } else {
      var front, p := h[..|h| - 1], h[|h| - 1];
      assert h == front + [p];
      if UniqueFlag(unique) == 1 {
        AbsentBefore(h, |h| - 1);
      }
      d := FromPairs(unique, front);
      Push(d, p);
    }
  }

  /** An insert that is known not to be refused, with only what a client
      building a dictionary needs to know about it. */
  method Push(d: Dictionary, p: Pair)
    requires d.Valid() && !Rejects(d.isUnique, d.History, p.key)
    modifies d
    ensures d.Valid() && d.isUnique == old(d.isUnique)
    ensures d.History == old(d.History) + [p]
  {
    var r := d.Insert(p.key, p.value);
  }

  /** With distinct keys, no pair before position i has the key of h[i]. */
  lemma AbsentBefore(h: seq<Pair>, i: int)
    requires DistinctKeys(h) && 0 <= i < |h|
    ensures Filter(h[..i], h[i].key) == [] && DistinctKeys(h[..i])
  {
    forall p | p in h[..i] ensures p.key != h[i].key {
      var j :| 0 <= j < i && h[..i][j] == p;
    }
    FilterEmpty(h[..i], h[i].key);
  }

  /** A unique dictionary dumps its pairs sorted by key, whatever the
      insertion order: here the middle key goes in first. */
  method SortedDump(a: string, b: string, c: string) returns (out: seq<string>, size: int)
    requires Less(a, b) && Less(b, c)
    ensures out == [FormatLine(Pair(a, 1)), FormatLine(Pair(b, 2)), FormatLine(Pair(c, 3))]
    ensures size == 3
  {
    var h := [Pair(b, 2), Pair(a, 1), Pair(c, 3)];
    SortedDumpFacts(a, b, c);
    var d := FromPairs(1, h);
    out := d.PrintDictionary();
    size := d.Size();
  }

  /** The three keys are distinct, and the stable sort of the pairs in the
      order b, a, c is a, b, c. */
  lemma SortedDumpFacts(a: string, b: string, c: string)
    requires Less(a, b) && Less(b, c)
    ensures DistinctKeys([Pair(b, 2), Pair(a, 1), Pair(c, 3)])
    ensures StableSort([Pair(b, 2), Pair(a, 1), Pair(c, 3)]) == [Pair(a, 1), Pair(b, 2), Pair(c, 3)]
  {
    var pb, pa, pc := Pair(b, 2), Pair(a, 1), Pair(c, 3);
    var h := [pb, pa, pc];
    LessTransitive(a, b, c);
    Trichotomy(a, b);
    Trichotomy(b, c);
    Trichotomy(a, c);
    assert h[..1] == [pb] && h[..2] == [pb, pa] && [pb, pa][..1] == [pb] && [pb][..0] == [];
    assert [pb][1..] == [] && [pb, pc][1..] == [pc] && [pa, pb][1..] == [pb];
    assert StableSort([pb]) == [pb];
    assert InsertAfter([pb], pa) == [pa, pb];
    assert StableSort([pb, pa]) == [pa, pb];
    assert InsertAfter([pb], pc) == [pb] + InsertAfter([], pc);
    assert InsertAfter([pa, pb], pc) == [pa] + InsertAfter([pb], pc);
    assert StableSort(h) == InsertAfter([pa, pb], pc);
  }

  /** Without uniqueness, a repeated key is stored twice and lookup answers
      with the pair inserted first: the search stops at the first node whose
      key is equal, and that node is the older one. */
  method RepeatedKey(k: string, v1: int, v2: int) returns (found: int, size: int, out: seq<string>)
    ensures found == v1 && size == 2
    ensures out == [FormatLine(Pair(k, v1)), FormatLine(Pair(k, v2))]
  {
    RepeatedKeyFacts(k, v1, v2);
    var d := FromPairs(0, [Pair(k, v1), Pair(k, v2)]);
    found := d.Lookup(k);
    size := d.Size();
    out := d.PrintDictionary();
  }

  /** The earliest pair with key k is the first one, and the stable sort
      keeps the two pairs in insertion order. */
  lemma RepeatedKeyFacts(k: string, v1: int, v2: int)
    ensures EarliestValue([Pair(k, v1), Pair(k, v2)], k) == v1
    ensures StableSort([Pair(k, v1), Pair(k, v2)]) == [Pair(k, v1), Pair(k, v2)]
  {
    var p1, p2 := Pair(k, v1), Pair(k, v2);
    assert [p1, p2][1..] == [p2] && [p1, p2][..1] == [p1] && [p2][1..] == [] && [p1][..0] == [];
    assert Filter([p1, p2], k)[0] == p1;
    assert !Less(k, k);
    assert StableSort([p1]) == [p1];
    assert InsertAfter([p1], p2) == [p1] + InsertAfter([], p2);
  }

  /** With uniqueness, a second pair with a present key is refused and the
      dictionary is unchanged. */
  method RefusedDuplicate() returns (second: InsertOutcome, size: int, found: int)
    ensures second == DuplicateKey("k")
    ensures size == 1 && found == 1
  {
    var d := new Dictionary(1);
    assert Filter([], "k") == [];
    var first := d.Insert("k", 1);
    assert d.History == [Pair("k", 1)];
    assert Filter(d.History, "k") == [Pair("k", 1)];
    second := d.Insert("k", 2);
    assert d.History == [Pair("k", 1)];
    size := d.Size();
    found := d.Lookup("k");
  }

  /** getUnique reports the flag given at construction as 0 or 1, and no
      later operation changes it. */
  method FlagKept(flag: int) returns (before: int, after: int)
    ensures before == after
    ensures before == 0 <==> flag == 0
    ensures before == 1 <==> flag != 0
  {
    var d := new Dictionary(flag);
    before := d.GetUnique();
    var r := d.Insert("a", 1);
    var freed := d.MakeEmpty();
    after := d.GetUnique();
  }

  /** A new dictionary is empty: size 0, and every lookup answers VAL_UNDEF. */
  method FreshIsEmpty(unique: int, k: string) returns (size: int, found: int, out: seq<string>)
    ensures size == 0 && found == ValUndef && out == []
  {
    var d := new Dictionary(unique);
    size := d.Size();
    found := d.Lookup(k);
    out := d.PrintDictionary();
  }

  /** makeEmpty leaves an empty dictionary whatever it held, and a second
      makeEmpty leaves it as it was. */
  method ClearTwice(unique: int, h: seq<Pair>, k: string) returns (found: int, size: int, sizeAgain: int)
    requires UniqueFlag(unique) == 1 ==> DistinctKeys(h)
    ensures found == ValUndef && size == 0 && sizeAgain == 0
  {
    var d := FromPairs(unique, h);
    var freed := d.MakeEmpty();
    found := d.Lookup(k);
    size := d.Size();
    freed := d.MakeEmpty();
    sizeAgain := d.Size();
  }
}
