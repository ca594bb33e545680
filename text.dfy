/** The string operations the tree relies on: Python's ordering of strings
    (used by `terms.sort()` and by `max` over (depth, name) pairs), the
    case folding of `key.lower()`, and the sorted list of a dictionary's
    keys. */
module TextOrder {

  /** Python's `<` on strings: lexicographic by character code, a proper
      prefix coming first. */
  predicate StrLess(a: string, b: string)
    decreases |a|
  {
    if a == [] then b != []
    else if b == [] then false
    else if a[0] != b[0] then a[0] < b[0]
    else StrLess(a[1..], b[1..])
  }

  lemma {:induction false} StrLessIrreflexive(a: string)
    ensures !StrLess(a, a)
    decreases |a|
  {
    if a != [] {
      StrLessIrreflexive(a[1..]);
    }
  }

  lemma {:induction false} StrLessTransitive(a: string, b: string, c: string)
    requires StrLess(a, b) && StrLess(b, c)
    ensures StrLess(a, c)
    decreases |a|
  {
    if a != [] && b != [] && c != [] && a[0] == b[0] && b[0] == c[0] {
      StrLessTransitive(a[1..], b[1..], c[1..]);
    }
  }

  /** Any two distinct strings are ordered one way or the other. */
  lemma {:induction false} StrLessTotal(a: string, b: string)
    ensures a == b || StrLess(a, b) || StrLess(b, a)
    decreases |a|
  {
    if a != [] && b != [] && a[0] == b[0] {
      StrLessTotal(a[1..], b[1..]);
      if a[1..] == b[1..] {
        assert a == [a[0]] + a[1..] && b == [b[0]] + b[1..];
      }
    }
  }

  /** Strictly increasing in Python's string order (hence without duplicates). */
  predicate StrictlySorted(ts: seq<string>)
  {
    forall i, j | 0 <= i < j < |ts| :: StrLess(ts[i], ts[j])
  }

  /** Inserts a string into a strictly sorted list at its place. */
  function Insert(ts: seq<string>, k: string): (r: seq<string>)
    requires StrictlySorted(ts)
    ensures StrictlySorted(r)
    ensures forall x :: x in r <==> x in ts || x == k
    ensures k !in ts ==> |r| == |ts| + 1
    decreases |ts|
  {
    if ts == [] then [k]
    else if k == ts[0] then ts
    else if StrLess(k, ts[0]) then
      InsertFrontSorted(ts, k);
      [k] + ts
    else
      StrLessTotal(k, ts[0]);
      var tail := Insert(ts[1..], k);
      InsertBehindSorted(ts[0], ts[1..], k, tail);
      assert [ts[0]] + ts[1..] == ts;
      [ts[0]] + tail
  }

  lemma InsertFrontSorted(ts: seq<string>, k: string)
    requires StrictlySorted(ts) && ts != [] && StrLess(k, ts[0])
    ensures StrictlySorted([k] + ts)
  {
    var r := [k] + ts;
    forall i, j | 0 <= i < j < |r| ensures StrLess(r[i], r[j]) {
      if i == 0 {
        if j > 1 {
          StrLessTransitive(k, ts[0], ts[j - 1]);
        }
      } else {
        assert r[i] == ts[i - 1] && r[j] == ts[j - 1];
      }
    }
  }

  lemma InsertBehindSorted(h: string, rest: seq<string>, k: string, tail: seq<string>)
    requires StrictlySorted([h] + rest) && StrictlySorted(tail) && StrLess(h, k)
    requires forall x :: x in tail <==> x in rest || x == k
    ensures StrictlySorted([h] + tail)
  {
    var r := [h] + tail;
    forall i, j | 0 <= i < j < |r| ensures StrLess(r[i], r[j]) {
      if i == 0 {
        var x := tail[j - 1];
        assert x in tail;
        if x != k {
          var m :| 0 <= m < |rest| && rest[m] == x;
          assert ([h] + rest)[0] == h && ([h] + rest)[m + 1] == x;
        }
      } else {
        assert r[i] == tail[i - 1] && r[j] == tail[j - 1];
      }
    }
  }

  /** `keys(); sort()`: the keys of a dictionary as a strictly sorted list.
      The keys are taken out of the key set in an unspecified order, as a
      dictionary's iteration order is unspecified. */
  method SortedKeys<V>(m: map<string, V>) returns (ts: seq<string>)
    ensures StrictlySorted(ts)
    ensures forall t :: t in ts <==> t in m
    ensures |ts| == |m.Keys|
  {
    ts := [];
    var rest := m.Keys;
    while rest != {}
      invariant rest <= m.Keys
      invariant StrictlySorted(ts)
      invariant forall t :: t in ts <==> t in m.Keys - rest
      invariant |ts| + |rest| == |m.Keys|
      decreases rest
    {
      var k :| k in rest;
      ts := Insert(ts, k);
      rest := rest - {k};
    }
  }

  /** ASCII case folding of one character (Python 2 `str.lower` without a locale). */
  function LowerChar(c: char): char
  {
    if 'A' <= c <= 'Z' then (c as int + 32) as char else c
  }

  /** `s.lower()`, character by character. */
  function Lower(s: string): string
  {
    seq(|s|, i requires 0 <= i < |s| => LowerChar(s[i]))
  }

  /** Lower-casing a lower-cased string changes nothing. */
  lemma LowerIdempotent(s: string)
    ensures Lower(Lower(s)) == Lower(s)
  {
    assert forall i | 0 <= i < |s| :: LowerChar(LowerChar(s[i])) == LowerChar(s[i]);
  }
}
