/** An insertion-ordered table as JavaScript keeps one for a `Map` and for
    the string keys of a plain object: a sequence of distinct keys, in the
    order they were first set, beside a map holding the values. */
module Table {

  predicate Distinct<K(==)>(keys: seq<K>)
  {
    forall i, j | 0 <= i < j < |keys| :: keys[i] != keys[j]
  }

  /** `keys` lists exactly the keys of `m`, each once. */
  ghost predicate Valid<K(!new), V>(keys: seq<K>, m: map<K, V>)
  {
    Distinct(keys) && forall k :: k in m <==> k in keys
  }

  /** Key order after setting `k`: a new key goes last, a key already
      present keeps its place. */
  function Put<K(==,!new)>(keys: seq<K>, k: K): (r: seq<K>)
    ensures forall x :: x in r <==> x in keys || x == k
    ensures |keys| <= |r| <= |keys| + 1 && r[..|keys|] == keys
    ensures k in keys <==> |r| == |keys|
    ensures k !in keys ==> r[|keys|] == k
    ensures Distinct(keys) ==> Distinct(r)
  {
    if k in keys then keys else keys + [k]
  }

  /** Key order after deleting `k`: every other key keeps its place. */
  function Remove<K(==,!new)>(keys: seq<K>, k: K): (r: seq<K>)
    ensures forall x :: x in r <==> x in keys && x != k
    ensures |r| <= |keys|
    ensures k !in keys ==> r == keys
    ensures Distinct(keys) ==> Distinct(r)
    ensures Distinct(keys) && k in keys ==> |r| == |keys| - 1
  {
    if keys == [] then []
    else if keys[0] == k then Remove(keys[1..], k)
    else
      var rest := Remove(keys[1..], k);
      assert Distinct(keys) ==> Distinct(keys[1..]) && keys[0] !in rest by {
        if Distinct(keys) {
          forall j | 0 <= j < |keys[1..]| ensures keys[1..][j] != keys[0] {
            assert keys[1..][j] == keys[j + 1];
          }
        }
      }
      [keys[0]] + rest
  }

  /** Deleting the key at position `i` of distinct keys closes the gap:
      the keys before it and the keys after it keep their order. */
  lemma {:induction false} RemoveKeepsOrder<K(!new)>(keys: seq<K>, i: nat)
    requires Distinct(keys) && i < |keys|
    ensures Remove(keys, keys[i]) == keys[..i] + keys[i + 1..]
    decreases i
  {
    DistinctTail(keys);
    if i == 0 {
      RemoveAbsent(keys[1..], keys[0]);
    } else {
      var t := keys[1..];
      assert t[i - 1] == keys[i];
      RemoveKeepsOrder(t, i - 1);
      RemovePastHead(keys, i);
    }
  }

  /** The inductive step: the head stays in front of what is removed from the tail. */
  lemma {:induction false} RemovePastHead<K(!new)>(keys: seq<K>, i: nat)
    requires 0 < i < |keys| && keys[0] != keys[i]
    requires Remove(keys[1..], keys[i]) == keys[1..][..i - 1] + keys[1..][i..]
    ensures Remove(keys, keys[i]) == keys[..i] + keys[i + 1..]
  {
    var t := keys[1..];
    assert Remove(keys, keys[i]) == [keys[0]] + Remove(t, keys[i]);
    assert keys[..i] == [keys[0]] + t[..i - 1];
    assert keys[i + 1..] == t[i..];
  }

  lemma {:induction false} RemoveAbsent<K(!new)>(t: seq<K>, k: K)
    requires k !in t
    ensures Remove([k] + t, k) == t
  {
    assert ([k] + t)[1..] == t;
  }

  lemma {:induction false} DistinctTail<K>(keys: seq<K>)
    requires Distinct(keys) && keys != []
    ensures Distinct(keys[1..]) && keys[0] !in keys[1..]
  {
    var t := keys[1..];
    forall a, b | 0 <= a < b < |t| ensures t[a] != t[b] {
      assert t[a] == keys[a + 1] && t[b] == keys[b + 1];
    }
    forall j | 0 <= j < |t| ensures t[j] != keys[0] {
      assert t[j] == keys[j + 1];
    }
  }

  /** The values of `m` in key order (`Array.from(m.values())`). */
  function Values<K, V>(keys: seq<K>, m: map<K, V>): (r: seq<V>)
    requires forall k | k in keys :: k in m
    ensures |r| == |keys|
    ensures forall i | 0 <= i < |keys| :: r[i] == m[keys[i]]
  {
    seq(|keys|, i requires 0 <= i < |keys| => m[keys[i]])
  }

  lemma PutKeepsValid<K(!new), V>(keys: seq<K>, m: map<K, V>, k: K, v: V)
    requires Valid(keys, m)
    ensures Valid(Put(keys, k), m[k := v])
  {
  }

  lemma RemoveKeepsValid<K(!new), V>(keys: seq<K>, m: map<K, V>, k: K)
    requires Valid(keys, m)
    ensures Valid(Remove(keys, k), m - {k})
  {
  }
}
