/** A Python `dict` (or `OrderedDict`): a map that remembers the order in which its keys were first
    inserted. Assigning to a present key keeps its place; deleting a key removes it from the order. */
module OrderedMaps {

  datatype OrderedMap<K(==,!new), V> = OrderedMap(keys: seq<K>, values: map<K, V>)
  {
    /** The keys are distinct and are exactly the keys of the map. */
    ghost predicate Valid()
    {
      Distinct(keys) && (forall k :: k in values <==> k in keys)
    }
  }

  ghost predicate Distinct<K>(s: seq<K>)
  {
    forall i, j :: 0 <= i < j < |s| ==> s[i] != s[j]
  }

  function Empty<K(==,!new), V>(): (m: OrderedMap<K, V>)
    ensures m.Valid()
  {
    OrderedMap([], map[])
  }

  /** `d[k] = v`. */
  function Put<K(==,!new), V>(m: OrderedMap<K, V>, k: K, v: V): OrderedMap<K, V>
  {
    if k in m.values then OrderedMap(m.keys, m.values[k := v])
    else OrderedMap(m.keys + [k], m.values[k := v])
  }

  /** The keys of `s` other than `k`, in order. */
  function Without<K(==,!new)>(s: seq<K>, k: K): (r: seq<K>)
    ensures forall x :: x in r <==> x in s && x != k
    ensures |r| <= |s|
    decreases |s|
  {
    if |s| == 0 then []
    else (if s[0] == k then [] else [s[0]]) + Without(s[1..], k)
  }

  /** `del d[k]` for a present key. */
  function Remove<K(==,!new), V>(m: OrderedMap<K, V>, k: K): OrderedMap<K, V>
  {
    OrderedMap(Without(m.keys, k), m.values - {k})
  }

  /** The values in key order: what iterating `d.items()` visits. */
  function ValuesInOrder<K(==,!new), V>(m: OrderedMap<K, V>): seq<V>
    requires m.Valid()
  {
    seq(|m.keys|, i requires 0 <= i < |m.keys| => m.values[m.keys[i]])
  }

  /** Assignment keeps the map well formed, gives the key its new value and leaves every other key
      alone; a present key keeps its place, a new key goes last. */
  lemma PutProperties<K(!new), V>(m: OrderedMap<K, V>, k: K, v: V)
    requires m.Valid()
    ensures Put(m, k, v).Valid()
    ensures k in Put(m, k, v).values && Put(m, k, v).values[k] == v
    ensures forall x :: x != k ==> (x in Put(m, k, v).values <==> x in m.values)
    ensures forall x :: x != k && x in m.values ==> Put(m, k, v).values[x] == m.values[x]
    ensures k in m.values ==> Put(m, k, v).keys == m.keys
    ensures k !in m.values ==> Put(m, k, v).keys == m.keys + [k]
  {
  }

  /** Re-assigning a present key replaces its value in place: no second entry appears. */
  lemma PutPresent<K(!new), V>(m: OrderedMap<K, V>, k: K, v: V)
    requires m.Valid() && k in m.values
    ensures Put(m, k, v).keys == m.keys
    ensures |ValuesInOrder(Put(m, k, v))| == |ValuesInOrder(m)|
    ensures forall i :: 0 <= i < |m.keys| ==>
              ValuesInOrder(Put(m, k, v))[i] == if m.keys[i] == k then v else ValuesInOrder(m)[i]
  {
    PutProperties(m, k, v);
  }

  /** A new key's value is visited last, after the others in their old order. */
  lemma PutAbsent<K(!new), V>(m: OrderedMap<K, V>, k: K, v: V)
    requires m.Valid() && k !in m.values
    ensures ValuesInOrder(Put(m, k, v)) == ValuesInOrder(m) + [v]
  {
    PutProperties(m, k, v);
  }

  lemma {:induction false} WithoutDistinct<K(!new)>(s: seq<K>, k: K)
    requires Distinct(s)
    ensures Distinct(Without(s, k))
    decreases |s|
  {
    if |s| > 0 {
      DistinctTail(s);
      WithoutDistinct(s[1..], k);
      var rest := Without(s[1..], k);
      var r := Without(s, k);
      if s[0] != k {
        assert r == [s[0]] + rest;
        assert s[0] !in rest;
        forall i, j | 0 <= i < j < |r| ensures r[i] != r[j] {
          assert r[j] == rest[j - 1];
          if i > 0 { assert r[i] == rest[i - 1]; }
          else { assert r[j] in rest; }
        }
      } else {
        assert r == [] + rest;
      }
    }
  }

  /** Deleting a present key keeps the map well formed, removes exactly that key and leaves the
      others, their values and their order alone. */
  lemma RemoveProperties<K(!new), V>(m: OrderedMap<K, V>, k: K)
    requires m.Valid() && k in m.values
    ensures Remove(m, k).Valid()
    ensures k !in Remove(m, k).values
    ensures forall x :: x != k ==> (x in Remove(m, k).values <==> x in m.values)
    ensures forall x :: x != k && x in m.values ==> Remove(m, k).values[x] == m.values[x]
    ensures |Remove(m, k).keys| == |m.keys| - 1
    ensures forall i :: 0 <= i < |m.keys| && m.keys[i] == k ==>
              Remove(m, k).keys == m.keys[..i] + m.keys[i + 1..]
  {
    WithoutDistinct(m.keys, k);
    WithoutLength(m.keys, k);
    forall i | 0 <= i < |m.keys| && m.keys[i] == k
      ensures Remove(m, k).keys == m.keys[..i] + m.keys[i + 1..]
    {
      WithoutAt(m.keys, k, i);
    }
  }

  /** Removing the key at position i closes the gap and keeps the rest in order. */
  lemma {:induction false} WithoutAt<K(!new)>(s: seq<K>, k: K, i: nat)
    requires Distinct(s) && i < |s| && s[i] == k
    ensures Without(s, k) == s[..i] + s[i + 1..]
    decreases i
  {
    DistinctTail(s);
    if i == 0 {
      WithoutAbsent(s[1..], k);
    } else {
      WithoutAt(s[1..], k, i - 1);
      assert s[1..][..i - 1] == s[1..i] && s[1..][i..] == s[i + 1..];
      assert s[..i] == [s[0]] + s[1..i];
    }
  }

  lemma {:induction false} WithoutLength<K(!new)>(s: seq<K>, k: K)
    requires Distinct(s)
    requires k in s
    ensures |Without(s, k)| == |s| - 1
    decreases |s|
  {
    if s[0] == k {
      assert k !in s[1..] by {
        forall j | 0 <= j < |s[1..]| ensures s[1..][j] != k { assert s[1..][j] == s[j + 1]; }
      }
      WithoutAbsent(s[1..], k);
    } else {
      assert k in s[1..];
      DistinctTail(s);
      WithoutLength(s[1..], k);
    }
  }

  lemma {:induction false} WithoutAbsent<K(!new)>(s: seq<K>, k: K)
    requires k !in s
    ensures Without(s, k) == s
    decreases |s|
  {
    if |s| > 0 {
      assert k !in s[1..];
      WithoutAbsent(s[1..], k);
      assert [s[0]] + s[1..] == s;
    }
  }

  lemma DistinctTail<K>(s: seq<K>)
    requires Distinct(s) && |s| > 0
    ensures Distinct(s[1..]) && s[0] !in s[1..]
  {
    forall i, j | 0 <= i < j < |s[1..]| ensures s[1..][i] != s[1..][j] {
      assert s[1..][i] == s[i + 1] && s[1..][j] == s[j + 1];
    }
    forall j | 0 <= j < |s[1..]| ensures s[1..][j] != s[0] { assert s[1..][j] == s[j + 1]; }
  }
}
