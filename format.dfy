/** The text printDictionary writes: one line per pair, the key, a single
    space and the value in the decimal form of printf's "%d". */
module Format {
  import opened Trees

  datatype Option<T> = None | Some(value: T)

  function DigitChar(d: int): char
    requires 0 <= d < 10
  {
    ('0' as int + d) as char
  }

  predicate IsDigit(c: char) {
    '0' <= c <= '9'
  }

  /** Decimal digits of n, without leading zeros. */
  function FormatNat(n: nat): (s: string)
    ensures s != [] && forall c :: c in s ==> IsDigit(c)
    ensures s[0] == '0' ==> n == 0
  {
    if n < 10 then [DigitChar(n)]
    else FormatNat(n / 10) + [DigitChar(n % 10)]
  }

  /** printf's "%d": a minus sign before the digits of a negative value. */
  function FormatInt(n: int): string {
    if n < 0 then "-" + FormatNat(-n) else FormatNat(n)
  }

  /** One line of the dump: key, one space, value (the newline ends it). */
  function FormatLine(p: Pair): string {
    p.key + " " + FormatInt(p.value)
  }

  function Lines(ps: seq<Pair>): (out: seq<string>)
    ensures |out| == |ps|
    ensures forall i :: 0 <= i < |ps| ==> out[i] == FormatLine(ps[i])
  {
    if ps == [] then [] else [FormatLine(ps[0])] + Lines(ps[1..])
  }

  lemma {:induction false} LinesConcat(a: seq<Pair>, b: seq<Pair>)
    ensures Lines(a + b) == Lines(a) + Lines(b)
  {
    if a == [] {
      assert a + b == b;
    } else {
      assert (a + b)[0] == a[0] && (a + b)[1..] == a[1..] + b;
      LinesConcat(a[1..], b);
    }
  }

  /** Reading a line back: the digits of a decimal numeral. */
  function ParseNat(s: string): int {
    if s == [] then 0
    else 10 * ParseNat(s[..|s| - 1]) + (s[|s| - 1] as int - '0' as int)
  }

  function ParseInt(s: string): int {
    if s != [] && s[0] == '-' then -ParseNat(s[1..]) else ParseNat(s)
  }

  /** Index of the last space in s, or -1. */
  function LastSpace(s: string): (i: int)
    ensures -1 <= i < |s|
    ensures i >= 0 ==> s[i] == ' '
  {
    if s == [] then -1
    else if s[|s| - 1] == ' ' then |s| - 1
    else LastSpace(s[..|s| - 1])
  }

  /** The pair a dump line stands for: the key is everything before the last
      space, the value the numeral after it. */
  function ParseLine(line: string): Option<Pair> {
    var i := LastSpace(line);
    if i < 0 then None else Some(Pair(line[..i], ParseInt(line[i + 1..])))
  }

  lemma {:induction false} ParseFormatNat(n: nat)
    ensures ParseNat(FormatNat(n)) == n
  {
    if n >= 10 {
      var s := FormatNat(n);
      assert s[..|s| - 1] == FormatNat(n / 10);
      ParseFormatNat(n / 10);
    }
  }

  lemma ParseFormatInt(n: int)
    ensures ParseInt(FormatInt(n)) == n
  {
    if n < 0 {
      assert FormatInt(n)[1..] == FormatNat(-n);
      ParseFormatNat(-n);
    } else {
      assert IsDigit(FormatNat(n)[0]);
      ParseFormatNat(n);
    }
  }

  /** The last space of a + " " + b is the one after a, when b has none. */
  lemma {:induction false} LastSpaceAt(a: string, b: string)
    requires forall c :: c in b ==> c != ' '
    ensures LastSpace(a + " " + b) == |a|
  {
    if b != [] {
      var s := a + " " + b;
      var b' := b[..|b| - 1];
      assert b[|b| - 1] in b;
      assert s[|s| - 1] == b[|b| - 1] != ' ';
      assert s[..|s| - 1] == a + " " + b';
      assert forall c :: c in b' ==> c in b;
      LastSpaceAt(a, b');
    } else {
      assert a + " " + b == a + " ";
    }
  }

  /** Every dump line reads back as the pair it was written from, whatever
      the key holds. */
  lemma LineRoundTrip(p: Pair)
    ensures ParseLine(FormatLine(p)) == Some(p)
  {
    var num := FormatInt(p.value);
    assert forall c :: c in num ==> c != ' ' by {
      if p.value < 0 {
        assert forall c :: c in num ==> c == '-' || c in FormatNat(-p.value);
      }
    }
    LastSpaceAt(p.key, num);
    var line := FormatLine(p);
    assert line[..|p.key|] == p.key;
    assert line[|p.key| + 1..] == num;
    ParseFormatInt(p.value);
  }
}
