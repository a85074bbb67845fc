/** A stable sort of a population, as JavaScript's `Array.prototype.sort`
    performs it with a consistent comparator: the sorted copy is a sequence of
    positions into the original, ordered by key and, among equal keys, by
    position. */
module Ordering {

  /** A sort key: compared on `primary`, then on `secondary`. */
  datatype Key = Key(primary: int, secondary: real)

  predicate KeyLess(a: Key, b: Key) {
    a.primary < b.primary || (a.primary == b.primary && a.secondary < b.secondary)
  }

  /** Position i comes before position j in the stable order. */
  predicate Before(keys: seq<Key>, i: nat, j: nat)
    requires i < |keys| && j < |keys|
  {
    KeyLess(keys[i], keys[j]) || (keys[i] == keys[j] && i < j)
  }

  /** s lists positions of keys in strictly increasing stable order
      (so no position occurs twice). */
  predicate SortedBy(keys: seq<Key>, s: seq<nat>) {
    && (forall a :: 0 <= a < |s| ==> s[a] < |keys|)
    && (forall a, b :: 0 <= a < b < |s| ==> Before(keys, s[a], s[b]))
  }

  /** Inserts position x into the sorted positions s. */
  function Insert(keys: seq<Key>, x: nat, s: seq<nat>): (r: seq<nat>)
    requires x < |keys| && SortedBy(keys, s) && x !in s
    ensures |r| == |s| + 1
    ensures forall y :: y in r <==> y in s || y == x
    ensures SortedBy(keys, r)
  {
    if s == [] then [x]
    else if Before(keys, x, s[0]) then [x] + s
    else
      var rest := Insert(keys, x, s[1..]);
      assert forall y :: y in rest ==> Before(keys, s[0], y);
      [s[0]] + rest
  }

  /** The first n positions, stably sorted by key. */
  function SortPrefix(keys: seq<Key>, n: nat): (r: seq<nat>)
    requires n <= |keys|
    ensures |r| == n
    ensures forall y: nat :: y in r <==> y < n
    ensures SortedBy(keys, r)
  {
    if n == 0 then [] else Insert(keys, n - 1, SortPrefix(keys, n - 1))
  }

  /** `[...xs].sort(cmp)`, as positions into xs. */
  function StableSort(keys: seq<Key>): (r: seq<nat>)
    ensures |r| == |keys|
    ensures forall y: nat :: y in r <==> y < |keys|
    ensures SortedBy(keys, r)
  {
    SortPrefix(keys, |keys|)
  }

  /** Every position in the first m of a stable order comes before every
      position left out of them: a prefix of the sorted copy holds the least
      elements. */
  lemma {:induction false} PrefixComesFirst(keys: seq<Key>, m: nat, a: nat, j: nat)
    requires m <= |keys| && a < m && j < |keys|
    requires j !in StableSort(keys)[..m]
    ensures Before(keys, StableSort(keys)[a], j)
  {
    var s := StableSort(keys);
    assert j in s;
    var b :| 0 <= b < |s| && s[b] == j;
    assert m <= b;
  }

  /** A stably sorted sequence of positions never repeats one. */
  lemma SortedDistinct(keys: seq<Key>, s: seq<nat>)
    requires SortedBy(keys, s)
    ensures forall a, b :: 0 <= a < b < |s| ==> s[a] != s[b]
  {
    forall a, b | 0 <= a < b < |s|
      ensures s[a] != s[b]
    {
      assert Before(keys, s[a], s[b]);
    }
  }
}
