/**
 * `OrderBy(x => x.Key)`: a stable sort of rows by key under ordinal string
 * comparison.
 */
module Ordering {
  import opened KeyValue
  import opened Sequences

  // ---------------------------------------------------------------------------
  // Ordinal comparison of keys
  // ---------------------------------------------------------------------------

  /** `a` comes at or before `b` when their characters are compared one by one; a prefix comes first. */
  predicate KeyLessEq(a: string, b: string)
    decreases |a|
  {
    a == [] || (b != [] && (a[0] < b[0] || (a[0] == b[0] && KeyLessEq(a[1..], b[1..]))))
  }

  lemma {:induction false} KeyLessEqReflexive(a: string)
    ensures KeyLessEq(a, a)
    decreases |a|
  {
    if a != [] {
      KeyLessEqReflexive(a[1..]);
    }
  }

  lemma {:induction false} KeyLessEqAntisymmetric(a: string, b: string)
    requires KeyLessEq(a, b) && KeyLessEq(b, a)
    ensures a == b
    decreases |a|
  {
    if a != [] && b != [] {
      KeyLessEqAntisymmetric(a[1..], b[1..]);
      assert a == [a[0]] + a[1..] && b == [b[0]] + b[1..];
    }
  }

  lemma {:induction false} KeyLessEqTransitive(a: string, b: string, c: string)
    requires KeyLessEq(a, b) && KeyLessEq(b, c)
    ensures KeyLessEq(a, c)
    decreases |a|
  {
    if a != [] && a[0] == b[0] && b[0] == c[0] {
      KeyLessEqTransitive(a[1..], b[1..], c[1..]);
    }
  }

  lemma {:induction false} KeyLessEqTotal(a: string, b: string)
    ensures KeyLessEq(a, b) || KeyLessEq(b, a)
    decreases |a|
  {
    if a != [] && b != [] && a[0] == b[0] {
      KeyLessEqTotal(a[1..], b[1..]);
    }
  }

  // ---------------------------------------------------------------------------
  // Sorting
  // ---------------------------------------------------------------------------

  /** Each row's key is at or after the key of the row before it. */
  predicate SortedByKey(s: seq<KeyValueData>) {
    forall i :: 0 < i < |s| ==> KeyLessEq(s[i - 1].key, s[i].key)
  }

  /** In a list sorted by key, every row's key is at or before the key of every later row. */
  lemma {:induction false} SortedByKeyPairwise(s: seq<KeyValueData>, i: nat, j: nat)
    requires SortedByKey(s)
    requires i < j < |s|
    ensures KeyLessEq(s[i].key, s[j].key)
    decreases j - i
  {
    if i + 1 < j {
      SortedByKeyPairwise(s, i + 1, j);
      KeyLessEqTransitive(s[i].key, s[i + 1].key, s[j].key);
    }
  }

  /** Places `x` in front of the first row whose key is at or after its own. */
  function InsertByKey(x: KeyValueData, sorted: seq<KeyValueData>): (r: seq<KeyValueData>)
    ensures multiset(r) == multiset(sorted) + multiset{x}
    ensures |r| > 0 && (r[0] == x || (sorted != [] && r[0] == sorted[0]))
    ensures SortedByKey(sorted) ==> SortedByKey(r)
    decreases |sorted|
  {
    if sorted == [] || KeyLessEq(x.key, sorted[0].key) then
      [x] + sorted
    else
      KeyLessEqTotal(x.key, sorted[0].key);
      var rest := InsertByKey(x, sorted[1..]);
      assert sorted == [sorted[0]] + sorted[1..];
      [sorted[0]] + rest
  }

  /** `OrderBy(x => x.Key)`: the rows sorted by key, rows with equal keys in their original order. */
  function OrderByKey(s: seq<KeyValueData>): (r: seq<KeyValueData>)
    ensures SortedByKey(r)
    ensures multiset(r) == multiset(s)
    decreases |s|
  {
    if s == [] then
      []
    else
      assert s == [s[0]] + s[1..];
      InsertByKey(s[0], OrderByKey(s[1..]))
  }

  // ---------------------------------------------------------------------------
  // Stability
  // ---------------------------------------------------------------------------

  /** The test "this row carries key `k`". */
  function KeyIs(k: string): KeyValueData -> bool {
    (d: KeyValueData) => d.key == k
  }

  /** The rows carrying key `k`, in order. */
  function WithKey(s: seq<KeyValueData>, k: string): seq<KeyValueData> {
    Where(s, KeyIs(k))
  }

  lemma WithKeySingle(x: KeyValueData, k: string)
    ensures WithKey([x], k) == if x.key == k then [x] else []
  {
    assert [x][1..] == [];
  }

  /** Inserting `x` puts it before every row of the same key already present. */
  lemma {:induction false} InsertByKeyStable(x: KeyValueData, sorted: seq<KeyValueData>, k: string)
    ensures WithKey(InsertByKey(x, sorted), k) == (if x.key == k then [x] else []) + WithKey(sorted, k)
    decreases |sorted|
  {
    var r := InsertByKey(x, sorted);
    var mine := if x.key == k then [x] else [];
    if sorted == [] || KeyLessEq(x.key, sorted[0].key) {
      assert r == [x] + sorted;
      WhereAppend([x], sorted, KeyIs(k));
      WithKeySingle(x, k);
      assert WithKey(r, k) == WithKey([x], k) + WithKey(sorted, k);
    } else {
      var head, tail := sorted[0], sorted[1..];
      var rest := InsertByKey(x, tail);
      assert r == [head] + rest;
      assert sorted == [head] + tail;
      KeyLessEqReflexive(x.key);
      InsertByKeyStable(x, tail, k);
      WhereAppend([head], rest, KeyIs(k));
      WhereAppend([head], tail, KeyIs(k));
      WithKeySingle(head, k);
      SwapDisjoint(WithKey([head], k), mine, WithKey(tail, k));
    }
  }

  /** Two pieces of which one is empty can be swapped. */
  lemma SwapDisjoint<T>(a: seq<T>, b: seq<T>, c: seq<T>)
    requires a == [] || b == []
    ensures a + (b + c) == b + (a + c)
  {
  }

  /** `OrderByKey` is stable: for every key, the rows carrying it appear in the same order as before. */
  lemma {:induction false} OrderByKeyStable(s: seq<KeyValueData>, k: string)
    ensures WithKey(OrderByKey(s), k) == WithKey(s, k)
    decreases |s|
  {
    if s != [] {
      OrderByKeyStable(s[1..], k);
      InsertByKeyStable(s[0], OrderByKey(s[1..]), k);
    }
  }
}
