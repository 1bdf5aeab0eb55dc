/**
 * An insertion-ordered map, the shape of a JavaScript `Map` (and of a plain
 * object used as a string-keyed record): `set` on a present key replaces the
 * value in place, on a new key appends; `delete` removes the entry.
 */
module OrderedMap {
  import opened Wrappers

  type Entries<K, V> = seq<(K, V)>

  function Keys<K, V>(m: Entries<K, V>): (ks: seq<K>)
    ensures |ks| == |m|
    ensures forall i :: 0 <= i < |m| ==> ks[i] == m[i].0
  {
    if |m| == 0 then [] else [m[0].0] + Keys(m[1..])
  }

  predicate UniqueKeys<K(==), V>(m: Entries<K, V>) {
    forall i, j :: 0 <= i < j < |m| ==> m[i].0 != m[j].0
  }

  /** The entries pairing each key with the value at the same position. */
  function Zip<K, V>(ks: seq<K>, vs: seq<V>): (m: Entries<K, V>)
    requires |ks| == |vs|
    ensures Keys(m) == ks
    ensures forall i :: 0 <= i < |m| ==> m[i] == (ks[i], vs[i])
  {
    if |ks| == 0 then [] else [(ks[0], vs[0])] + Zip(ks[1..], vs[1..])
  }

  /** `map.get(k)`: the value of the first entry with key k. */
  function Get<K(==), V>(m: Entries<K, V>, k: K): (r: Option<V>)
    ensures r.None? <==> k !in Keys(m)
  {
    if |m| == 0 then None else if m[0].0 == k then Some(m[0].1) else Get(m[1..], k)
  }

  /** `map.set(k, v)`. */
  function Put<K(==), V>(m: Entries<K, V>, k: K, v: V): (r: Entries<K, V>)
    ensures k in Keys(m) ==> Keys(r) == Keys(m)
    ensures k !in Keys(m) ==> r == m + [(k, v)]
  {
    if |m| == 0 then [(k, v)]
    else if m[0].0 == k then [(k, v)] + m[1..]
    else
      var rest := Put(m[1..], k, v);
      assert Keys(m) == [m[0].0] + Keys(m[1..]);
      [m[0]] + rest
  }

  /** `map.delete(k)`. */
  function Remove<K(==), V>(m: Entries<K, V>, k: K): (r: Entries<K, V>)
    ensures |r| <= |m|
    ensures k !in Keys(m) ==> r == m
    ensures forall i :: 0 <= i < |r| ==> r[i].0 in Keys(m)
  {
    if |m| == 0 then [] else if m[0].0 == k then m[1..] else [m[0]] + Remove(m[1..], k)
  }

  lemma {:induction false} GetPut<K, V>(m: Entries<K, V>, k: K, v: V, k': K)
    ensures Get(Put(m, k, v), k') == if k' == k then Some(v) else Get(m, k')
    decreases |m|
  {
    if |m| > 0 && m[0].0 != k {
      GetPut(m[1..], k, v, k');
    }
  }

  lemma {:induction false} PutUnique<K, V>(m: Entries<K, V>, k: K, v: V)
    requires UniqueKeys(m)
    ensures UniqueKeys(Put(m, k, v))
    decreases |m|
  {
    if |m| > 0 && m[0].0 != k {
      PutUnique(m[1..], k, v);
      var rest := Put(m[1..], k, v);
      forall i | 0 <= i < |rest| ensures rest[i].0 != m[0].0 {
        if k in Keys(m[1..]) {
          assert Keys(rest)[i] == Keys(m[1..])[i];
        } else {
          assert rest == m[1..] + [(k, v)];
        }
      }
    }
  }

  lemma {:induction false} GetRemove<K, V>(m: Entries<K, V>, k: K, k': K)
    requires UniqueKeys(m)
    ensures Get(Remove(m, k), k') == if k' == k then None else Get(m, k')
    decreases |m|
  {
    if |m| > 0 {
      if m[0].0 == k {
        if k' == k {
          assert forall i :: 0 <= i < |m| - 1 ==> m[1..][i].0 != k;
          assert k !in Keys(m[1..]);
        }
      } else {
        GetRemove(m[1..], k, k');
      }
    }
  }

  lemma {:induction false} RemoveUnique<K, V>(m: Entries<K, V>, k: K)
    requires UniqueKeys(m)
    ensures UniqueKeys(Remove(m, k))
    decreases |m|
  {
    if |m| > 0 && m[0].0 != k {
      RemoveUnique(m[1..], k);
    }
  }

  /** Position of the first entry with key k. */
  function KeyIndex<K(==), V>(m: Entries<K, V>, k: K): (i: nat)
    requires k in Keys(m)
    ensures i < |m| && m[i].0 == k && k !in Keys(m[..i])
  {
    if m[0].0 == k then 0
    else
      assert k in Keys(m[1..]) by { assert Keys(m) == [m[0].0] + Keys(m[1..]); }
      var j := KeyIndex(m[1..], k);
      assert m[..j + 1] == [m[0]] + m[1..][..j];
      assert Keys(m[..j + 1]) == [m[0].0] + Keys(m[1..][..j]);
      j + 1
  }

  /** Removing a present key deletes exactly its entry and keeps the order of the others. */
  lemma {:induction false} RemoveAt<K, V>(m: Entries<K, V>, k: K)
    requires k in Keys(m)
    ensures var i := KeyIndex(m, k); Remove(m, k) == m[..i] + m[i + 1..]
    decreases |m|
  {
    if m[0].0 == k {
      assert m[..0] + m[1..] == m[1..];
    } else {
      assert k in Keys(m[1..]) by { assert Keys(m) == [m[0].0] + Keys(m[1..]); }
      RemoveAt(m[1..], k);
      var j := KeyIndex(m[1..], k);
      var tail := m[1..];
      assert KeyIndex(m, k) == j + 1;
      assert Remove(m, k) == [m[0]] + Remove(tail, k);
      assert Remove(tail, k) == tail[..j] + tail[j + 1..];
      ConsSplice(m, j);
    }
  }

  lemma ConsSplice<T>(m: seq<T>, j: nat)
    requires j + 1 < |m|
    ensures [m[0]] + (m[1..][..j] + m[1..][j + 1..]) == m[..j + 1] + m[j + 2..]
  {
    assert [m[0]] + m[1..][..j] == m[..j + 1];
    assert m[1..][j + 1..] == m[j + 2..];
  }
}
