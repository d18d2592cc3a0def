/**
 * A Python dictionary as the list of its (key, value) items in insertion
 * order, which is the order `d.items()` visits them.  `d[k] = v` replaces
 * the value in place when `k` is present and appends the pair otherwise.
 */
module PyDict {
  import opened Wrappers

  type Dict<K, V> = seq<(K, V)>

  predicate DistinctKeys<K(==), V>(d: Dict<K, V>) {
    forall i, j :: 0 <= i < j < |d| ==> d[i].0 != d[j].0
  }

  predicate HasKey<K(==), V>(d: Dict<K, V>, k: K) {
    exists i :: 0 <= i < |d| && d[i].0 == k
  }

  /** `d.get(k)`: the value of the first item with key `k`. */
  function Get<K(==), V>(d: Dict<K, V>, k: K): Option<V> {
    if d == [] then None
    else if d[0].0 == k then Some(d[0].1)
    else Get(d[1..], k)
  }

  /** `d[k] = v`. */
  function Set<K(==), V>(d: Dict<K, V>, k: K, v: V): Dict<K, V> {
    if d == [] then [(k, v)]
    else if d[0].0 == k then [(k, v)] + d[1..]
    else [d[0]] + Set(d[1..], k, v)
  }

  lemma {:induction false} GetNone<K, V>(d: Dict<K, V>, k: K)
    ensures Get(d, k).None? <==> !HasKey(d, k)
  {
    if d != [] && d[0].0 != k {
      GetNone(d[1..], k);
      if HasKey(d, k) {
        var i :| 0 <= i < |d| && d[i].0 == k;
        assert d[1..][i - 1].0 == k;
      }
    }
  }

  lemma {:induction false} TailDistinct<K, V>(d: Dict<K, V>)
    requires DistinctKeys(d) && d != []
    ensures DistinctKeys(d[1..])
    ensures !HasKey(d[1..], d[0].0)
  {
    forall i, j | 0 <= i < j < |d[1..]| ensures d[1..][i].0 != d[1..][j].0 {
      assert d[1..][i] == d[i + 1] && d[1..][j] == d[j + 1];
    }
    forall i | 0 <= i < |d[1..]| ensures d[1..][i].0 != d[0].0 {
      assert d[1..][i] == d[i + 1];
    }
  }

  /** With distinct keys, looking up the key of an item gives its value. */
  lemma {:induction false} GetAt<K, V>(d: Dict<K, V>, k: nat)
    requires DistinctKeys(d) && k < |d|
    ensures Get(d, d[k].0) == Some(d[k].1)
  {
    if k > 0 {
      TailDistinct(d);
      assert d[1..][k - 1] == d[k];
      GetAt(d[1..], k - 1);
    }
  }

  /** After `d[k] = v`, `k` reads `v` and every other key reads as before. */
  lemma {:induction false} GetSet<K, V>(d: Dict<K, V>, k: K, v: V, x: K)
    ensures Get(Set(d, k, v), x) == if x == k then Some(v) else Get(d, x)
  {
    if d != [] && d[0].0 != k {
      GetSet(d[1..], k, v, x);
    }
  }

  /** Assigning to a present key keeps every key at its position; assigning
      to an absent key appends one item. */
  lemma {:induction false} SetShape<K, V>(d: Dict<K, V>, k: K, v: V)
    ensures HasKey(d, k) ==> |Set(d, k, v)| == |d| && forall i :: 0 <= i < |d| ==> Set(d, k, v)[i].0 == d[i].0
    ensures !HasKey(d, k) ==> Set(d, k, v) == d + [(k, v)]
  {
    if d != [] && d[0].0 != k {
      SetShape(d[1..], k, v);
      var r := Set(d, k, v);
      if HasKey(d, k) {
        var i :| 0 <= i < |d| && d[i].0 == k;
        assert d[1..][i - 1].0 == k;
        forall j | 0 <= j < |d| ensures r[j].0 == d[j].0 {
          if j > 0 { assert r[j] == Set(d[1..], k, v)[j - 1]; }
        }
      } else {
        forall i | 0 <= i < |d[1..]| ensures d[1..][i].0 != k {
          assert d[1..][i] == d[i + 1];
        }
        assert d == [d[0]] + d[1..];
      }
    }
  }

  lemma SetKeepsDistinct<K, V>(d: Dict<K, V>, k: K, v: V)
    requires DistinctKeys(d)
    ensures DistinctKeys(Set(d, k, v))
  {
    SetShape(d, k, v);
    var r := Set(d, k, v);
    if !HasKey(d, k) {
      forall i, j | 0 <= i < j < |r| ensures r[i].0 != r[j].0 {
        if j == |d| { assert r[i] == d[i]; }
      }
    }
  }

  /** Setting the same key to the same value twice is setting it once. */
  lemma {:induction false} SetTwice<K, V>(d: Dict<K, V>, k: K, v: V)
    ensures Set(Set(d, k, v), k, v) == Set(d, k, v)
  {
    if d != [] && d[0].0 != k {
      SetTwice(d[1..], k, v);
      assert ([d[0]] + Set(d[1..], k, v))[1..] == Set(d[1..], k, v);
    } else if d != [] {
      assert ([(k, v)] + d[1..])[1..] == d[1..];
    }
  }
}
