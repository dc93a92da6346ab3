/** Python's `dict`, whose iteration order is insertion order: a sequence of
    (key, value) pairs. `Put` is `d[k] = v`: a new key goes to the end, an
    existing key keeps its place and gets the new value. */
module OrderedDict {
  import opened Common

  /** No key occurs twice. */
  ghost predicate DistinctKeys<K, V>(d: seq<(K, V)>) {
    forall i, j :: 0 <= i < j < |d| ==> d[i].0 != d[j].0
  }

  /** The keys in iteration order (`d.keys()`). */
  function Keys<K, V>(d: seq<(K, V)>): seq<K> {
    seq(|d|, i requires 0 <= i < |d| => d[i].0)
  }

  /** The values in iteration order (`d.values()`). */
  function Values<K, V>(d: seq<(K, V)>): seq<V> {
    seq(|d|, i requires 0 <= i < |d| => d[i].1)
  }

  /** `d[k]`, or None when `k` is absent. */
  function Get<K(==), V>(d: seq<(K, V)>, k: K): Option<V>
    decreases |d|
  {
    if d == [] then None
    else if d[0].0 == k then Some(d[0].1)
    else Get(d[1..], k)
  }

  /** `d[k] = v`. */
  function Put<K(==,!new), V>(d: seq<(K, V)>, k: K, v: V): (r: seq<(K, V)>)
    ensures Get(r, k) == Some(v)
    ensures forall k' :: k' != k ==> Get(r, k') == Get(d, k')
    ensures k in Keys(d) ==> Keys(r) == Keys(d)
    ensures k !in Keys(d) ==> Keys(r) == Keys(d) + [k]
    ensures DistinctKeys(d) ==> DistinctKeys(r)
    decreases |d|
  {
    if d == [] then [(k, v)]
    else
      KeysCons(d[0], d[1..]);
      assert d == [d[0]] + d[1..];
      if d[0].0 == k then
        var r := [(k, v)] + d[1..];
        assert r[1..] == d[1..];
        KeysCons((k, v), d[1..]);
        DistinctCons(d[0], d[1..]);
        DistinctCons((k, v), d[1..]);
        r
      else
        var rest := Put(d[1..], k, v);
        var r := [d[0]] + rest;
        assert r[1..] == rest;
        KeysCons(d[0], rest);
        DistinctCons(d[0], d[1..]);
        DistinctCons(d[0], rest);
        r
  }

  lemma KeysCons<K, V>(x: (K, V), rest: seq<(K, V)>)
    ensures Keys([x] + rest) == [x.0] + Keys(rest)
  {
  }

  lemma DistinctCons<K, V>(x: (K, V), rest: seq<(K, V)>)
    ensures DistinctKeys([x] + rest) <==> DistinctKeys(rest) && x.0 !in Keys(rest)
  {
    var d := [x] + rest;
    if DistinctKeys(d) {
      forall i, j | 0 <= i < j < |rest| ensures rest[i].0 != rest[j].0 {
        assert rest[i] == d[i + 1] && rest[j] == d[j + 1];
      }
      forall i | 0 <= i < |rest| ensures Keys(rest)[i] != x.0 {
        assert d[0] == x && d[i + 1] == rest[i];
      }
    }
    if DistinctKeys(rest) && x.0 !in Keys(rest) {
      forall i, j | 0 <= i < j < |d| ensures d[i].0 != d[j].0 {
        if i == 0 {
          assert Keys(rest)[j - 1] == d[j].0;
        } else {
          assert d[i] == rest[i - 1] && d[j] == rest[j - 1];
        }
      }
    }
  }

  /** In a dict with distinct keys, looking up the key at position `i`
      yields the value at position `i`; a key at no position is absent. */
  lemma {:induction false} GetAt<K, V>(d: seq<(K, V)>, i: nat)
    requires DistinctKeys(d) && i < |d|
    ensures Get(d, d[i].0) == Some(d[i].1)
    decreases |d|
  {
    if i > 0 {
      GetAt(d[1..], i - 1);
    }
  }

  /** A lookup misses exactly the keys the dict does not hold, and a hit
      returns the value of an entry for that key. */
  lemma {:induction false} GetAbsent<K, V>(d: seq<(K, V)>, k: K)
    ensures k !in Keys(d) <==> Get(d, k) == None
    ensures Get(d, k).Some? ==> (k, Get(d, k).value) in d
    decreases |d|
  {
    if d != [] {
      KeysCons(d[0], d[1..]);
      assert d == [d[0]] + d[1..];
      GetAbsent(d[1..], k);
    }
  }

  /** Assigning a new key appends it. */
  lemma {:induction false} PutNew<K(!new), V>(d: seq<(K, V)>, k: K, v: V)
    requires k !in Keys(d)
    ensures Put(d, k, v) == d + [(k, v)]
    decreases |d|
  {
    if d != [] {
      assert Keys(d) == [d[0].0] + Keys(d[1..]);
      PutNew(d[1..], k, v);
      assert d == [d[0]] + d[1..];
    }
  }

  /** Assigning an existing key replaces its value where it stands. */
  lemma {:induction false} PutAt<K(!new), V>(d: seq<(K, V)>, k: K, v: V, i: nat)
    requires i < |d| && d[i].0 == k && k !in Keys(d[..i])
    ensures Put(d, k, v) == d[i := (k, v)]
    decreases |d|
  {
    if i > 0 {
      var rest := d[1..];
      assert d[..i] == [d[0]] + rest[..i - 1];
      KeysCons(d[0], rest[..i - 1]);
      PutAt(rest, k, v, i - 1);
      assert Put(d, k, v) == [d[0]] + Put(rest, k, v);
      assert d[i := (k, v)] == [d[0]] + rest[i - 1 := (k, v)];
    }
  }

  /** With distinct keys, assigning the key at position `i` replaces the
      value at position `i` and no other. */
  lemma PutValuesAt<K(!new), V>(d: seq<(K, V)>, k: K, v: V, i: nat)
    requires DistinctKeys(d) && i < |d| && d[i].0 == k
    ensures Values(Put(d, k, v)) == Values(d)[i := v]
  {
    KeyNotBefore(d, i);
    PutAt(d, k, v, i);
    ValuesUpdate(d, i, (k, v));
  }

  lemma ValuesUpdate<K, V>(d: seq<(K, V)>, i: nat, x: (K, V))
    requires i < |d|
    ensures Values(d[i := x]) == Values(d)[i := x.1]
  {
  }

  lemma KeyNotBefore<K, V>(d: seq<(K, V)>, i: nat)
    requires DistinctKeys(d) && i < |d|
    ensures d[i].0 !in Keys(d[..i])
  {
    forall i' | 0 <= i' < i ensures Keys(d[..i])[i'] != d[i].0 {
      assert d[..i][i'] == d[i'];
    }
  }
}
