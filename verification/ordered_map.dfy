/** An insertion-ordered map held as a sequence of entries. It models a
    JavaScript `Map` and the string-keyed properties of a plain JavaScript
    object: both enumerate their keys in insertion order, overwriting an
    existing key keeps its position, and deleting a key removes it from
    the order. */
module OrderedMap {
  import opened Wrappers

  type Entries<K, V> = seq<(K, V)>

  function Keys<K, V>(m: Entries<K, V>): (ks: seq<K>)
    ensures |ks| == |m|
    ensures forall i :: 0 <= i < |m| ==> ks[i] == m[i].0
  {
    if m == [] then [] else [m[0].0] + Keys(m[1..])
  }

  predicate Distinct<K(==)>(ks: seq<K>) {
    forall i, j :: 0 <= i < j < |ks| ==> ks[i] != ks[j]
  }

  /** No key occurs twice: the shape every JavaScript `Map` has. */
  predicate DistinctKeys<K(==), V>(m: Entries<K, V>) {
    Distinct(Keys(m))
  }

  /** The value of the first entry with key `k` (`map.get(k)`, `obj[k]`). */
  function Get<K(==), V>(m: Entries<K, V>, k: K): (r: Option<V>)
    ensures r.None? <==> k !in Keys(m)
  {
    if m == [] then None else if m[0].0 == k then Some(m[0].1) else Get(m[1..], k)
  }

  lemma {:induction false} GetAt<K, V>(m: Entries<K, V>, i: nat)
    requires DistinctKeys(m) && i < |m|
    ensures Get(m, m[i].0) == Some(m[i].1)
  {
    if i > 0 {
      assert Keys(m)[0] != Keys(m)[i];
      assert m[1..][i - 1] == m[i];
      assert Keys(m[1..]) == Keys(m)[1..];
      GetAt(m[1..], i - 1);
    }
  }

  /** `map.set(k, v)` / `obj[k] = v`: overwrite in place, or append. */
  function Set<K(==,!new), V>(m: Entries<K, V>, k: K, v: V): (r: Entries<K, V>)
    ensures Get(r, k) == Some(v)
    ensures forall k' :: k' != k ==> Get(r, k') == Get(m, k')
    ensures k in Keys(m) ==> Keys(r) == Keys(m)
    ensures k !in Keys(m) ==> Keys(r) == Keys(m) + [k]
  {
    if m == [] then [(k, v)]
    else if m[0].0 == k then
      KeysCons((k, v), m[1..]);
      KeysCons(m[0], m[1..]);
      assert ([(k, v)] + m[1..])[1..] == m[1..];
      [(k, v)] + m[1..]
    else
      var rest := Set(m[1..], k, v);
      KeysCons(m[0], rest);
      KeysCons(m[0], m[1..]);
      assert ([m[0]] + rest)[1..] == rest;
      [m[0]] + rest
  }

  /** Looking at the first entry, then the rest. */
  lemma KeysCons<K, V>(e: (K, V), m: Entries<K, V>)
    ensures Keys([e] + m) == [e.0] + Keys(m)
  {
    assert ([e] + m)[1..] == m;
  }

  lemma SetKeepsDistinct<K(!new), V>(m: Entries<K, V>, k: K, v: V)
    requires DistinctKeys(m)
    ensures DistinctKeys(Set(m, k, v))
  {
    if k !in Keys(m) {
      var ks := Keys(m) + [k];
      forall i, j | 0 <= i < j < |ks| ensures ks[i] != ks[j] {
        if j == |ks| - 1 {
          assert ks[i] in Keys(m);
        }
      }
    }
  }

  /** `map.delete(k)` / `delete obj[k]`: drop the entry for `k`, keeping
      the order of the others. */
  function Delete<K(==,!new), V>(m: Entries<K, V>, k: K): (r: Entries<K, V>)
    ensures k !in Keys(r)
    ensures forall k' :: k' != k ==> Get(r, k') == Get(m, k')
  {
    if m == [] then []
    else if m[0].0 == k then Delete(m[1..], k)
    else [m[0]] + Delete(m[1..], k)
  }

  /** Deleting keeps the remaining entries as an ordered subsequence. */
  function DeletedKeys<K(==)>(ks: seq<K>, k: K): seq<K> {
    if ks == [] then [] else if ks[0] == k then DeletedKeys(ks[1..], k) else [ks[0]] + DeletedKeys(ks[1..], k)
  }

  lemma {:induction false} DeleteKeys<K(!new), V>(m: Entries<K, V>, k: K)
    ensures Keys(Delete(m, k)) == DeletedKeys(Keys(m), k)
  {
    if m != [] {
      assert Keys(m)[1..] == Keys(m[1..]);
      DeleteKeys(m[1..], k);
    }
  }

  lemma {:induction false} DeletedKeysOfDistinct<K>(ks: seq<K>, k: K)
    requires Distinct(ks)
    ensures Distinct(DeletedKeys(ks, k))
    ensures forall x :: x in DeletedKeys(ks, k) <==> x in ks && x != k
    ensures k in ks ==> |DeletedKeys(ks, k)| == |ks| - 1
    ensures k !in ks ==> DeletedKeys(ks, k) == ks
  {
    if ks != [] {
      assert Distinct(ks[1..]);
      DeletedKeysOfDistinct(ks[1..], k);
      if ks[0] == k {
        assert k !in ks[1..];
      } else {
        var r := [ks[0]] + DeletedKeys(ks[1..], k);
        assert ks[0] !in ks[1..];
        forall i, j | 0 <= i < j < |r| ensures r[i] != r[j] {
          if i == 0 {
            assert r[j] in DeletedKeys(ks[1..], k);
          } else {
            assert r[i] == DeletedKeys(ks[1..], k)[i - 1];
          }
        }
      }
    }
  }

  /** Deleting keeps keys distinct, removes exactly `k` from them, and so
      shrinks the map by one entry when `k` was there. */
  lemma DeleteKeepsDistinct<K(!new), V>(m: Entries<K, V>, k: K)
    requires DistinctKeys(m)
    ensures DistinctKeys(Delete(m, k))
    ensures forall x :: x in Keys(Delete(m, k)) <==> x in Keys(m) && x != k
    ensures k in Keys(m) ==> |Delete(m, k)| == |m| - 1
  {
    DeleteKeys(m, k);
    DeletedKeysOfDistinct(Keys(m), k);
  }
}
