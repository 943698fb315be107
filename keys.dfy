/** Keys of the dictionary are character strings compared as the C library's
    strcmp compares them (KEY_CMP). Only the sign of the comparison is used
    by the dictionary, so only the sign is modelled. */
module Keys {

  /** Three-way comparison: -1, 0 or 1 as `a` sorts before, equal to or after
      `b`, character by character, a proper prefix sorting first. */
  function KeyCmp(a: string, b: string): (c: int)
    ensures -1 <= c <= 1
    ensures c == 0 <==> a == b
  {
    if a == [] || b == [] then
      (if a == b then 0 else if a == [] then -1 else 1)
    else if a[0] < b[0] then -1
    else if a[0] > b[0] then 1
    else
      assert a == [a[0]] + a[1..] && b == [b[0]] + b[1..];
      KeyCmp(a[1..], b[1..])
  }

  /** KEY_CMP(a, b) < 0 */
  predicate Less(a: string, b: string) {
    KeyCmp(a, b) < 0
  }

  /** Swapping the operands negates the comparison. */
  lemma {:induction false} KeyCmpFlip(a: string, b: string)
    ensures KeyCmp(b, a) == -KeyCmp(a, b)
  {
    if a != [] && b != [] && a[0] == b[0] {
      KeyCmpFlip(a[1..], b[1..]);
    }
  }

  /** Exactly one of a < b, a == b, b < a holds. */
  lemma Trichotomy(a: string, b: string)
    ensures Less(a, b) <==> a != b && !Less(b, a)
  {
    KeyCmpFlip(a, b);
  }

  lemma {:induction false} LessTransitive(a: string, b: string, c: string)
    requires Less(a, b) && Less(b, c)
    ensures Less(a, c)
  {
    if a != [] && b != [] && c != [] && a[0] == b[0] == c[0] {
      LessTransitive(a[1..], b[1..], c[1..]);
    }
  }
}
