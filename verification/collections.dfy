/** Optional values: JavaScript's `null`/`undefined` versus a present value. */
module Wrappers {

  datatype Option<+T> = None | Some(value: T)
}

/**
 The two JavaScript collections the hub is built from, as values.

 A `Set` iterates in insertion order and holds each element once; it is an
 `OrderedSet`, a sequence without repeats. A `Map` iterates its keys in
 insertion order, and `set` on a key already present keeps that key's
 position; it is an `OrderedMap`, a map together with its key order.
 */
module JsCollections {

  predicate Distinct<T(==)>(s: seq<T>) {
    forall i, j | 0 <= i < j < |s| :: s[i] != s[j]
  }

  type OrderedSet<T(==)> = s: seq<T> | Distinct(s) witness []

  function Elems<T>(s: seq<T>): set<T> {
    set x | x in s
  }

  /** `p` is `s` with some elements left out and the rest in their original order, as `Array.filter` leaves it. */
  predicate Subsequence<T(==)>(p: seq<T>, s: seq<T>)
    decreases |s|
  {
    p == [] || (s != [] && ((p[0] == s[0] && Subsequence(p[1..], s[1..])) || Subsequence(p, s[1..])))
  }

  /** `set.add(x)`: a new element goes to the end, a present one stays where it is. */
  function Add<T(==)>(s: OrderedSet<T>, x: T): (r: OrderedSet<T>)
    ensures Elems(r) == Elems(s) + {x}
    ensures |s| <= |r| && r[..|s|] == s
    ensures |r| == if x in s then |s| else |s| + 1
  {
    if x in s then s
    else
      assert Distinct(s + [x]) by {
        forall i, j | 0 <= i < j < |s + [x]| ensures (s + [x])[i] != (s + [x])[j] {
          if j == |s| {
            assert (s + [x])[i] == s[i];
          }
        }
      }
      s + [x]
  }

  /** `set.delete(x)`: `x` is gone and the other elements keep their relative order. */
  function Delete<T(==)>(s: OrderedSet<T>, x: T): (r: OrderedSet<T>)
    ensures Elems(r) == Elems(s) - {x}
    ensures |r| == if x in s then |s| - 1 else |s|
    ensures x !in s ==> r == s
    ensures forall i | 0 <= i < |s| && s[i] == x :: r == s[..i] + s[i + 1..]
    decreases |s|
  {
    if s == [] then []
    else
      var tail: OrderedSet<T> := s[1..];
      var rest := Delete(tail, x);
      assert s == [s[0]] + tail;
      if s[0] == x then
        assert x !in tail;
        assert Elems(s) == {x} + Elems(tail);
        rest
      else
        assert s[0] !in Elems(rest);
        ConsKeepsDistinct(s[0], rest);
        assert Elems(s) == {s[0]} + Elems(tail);
        assert Elems([s[0]] + rest) == {s[0]} + Elems(rest);
        forall i | 0 <= i < |s| && s[i] == x ensures [s[0]] + rest == s[..i] + s[i + 1..] {
          ConsDeleted(s, rest, i);
        }
        [s[0]] + rest
  }

  lemma ConsKeepsDistinct<T>(a: T, t: seq<T>)
    requires Distinct(t) && a !in t
    ensures Distinct([a] + t)
  {
    forall i, j | 0 <= i < j < |[a] + t| ensures ([a] + t)[i] != ([a] + t)[j] {
      assert ([a] + t)[j] == t[j - 1];
    }
  }

  /** Putting back the head in front of the tail with one element removed removes that element from the whole. */
  lemma ConsDeleted<T>(s: seq<T>, rest: seq<T>, i: int)
    requires 0 < i < |s| && rest == s[1..][..i - 1] + s[1..][i..]
    ensures [s[0]] + rest == s[..i] + s[i + 1..]
  {
    assert s[..i] == [s[0]] + s[1..][..i - 1];
    assert s[i + 1..] == s[1..][i..];
  }

  /** A set's `size` is the number of entries it iterates over. */
  lemma {:induction false} SizeIsLength<T>(s: OrderedSet<T>)
    ensures |Elems(s)| == |s|
    decreases |s|
  {
    if s != [] {
      var tail: OrderedSet<T> := s[1..];
      SizeIsLength(tail);
      assert s[0] !in tail;
      assert Elems(s) == Elems(tail) + {s[0]};
    }
  }

  datatype Table<K, V> = Table(keys: seq<K>, entries: map<K, V>)

  type OrderedMap<K(==), V> = t: Table<K, V> | Distinct(t.keys) && Elems(t.keys) == t.entries.Keys
    witness Table([], map[])

  /**
   `map.set(k, v)`: `k` now maps to `v`, nothing else changes, and `k` keeps its
   place in the key order when it was present or is appended when it was not.
   */
  function Put<K(==), V>(m: OrderedMap<K, V>, k: K, v: V): (r: OrderedMap<K, V>)
    ensures r.entries.Keys == m.entries.Keys + {k}
    ensures r.entries[k] == v
    ensures forall j | j in m.entries && j != k :: r.entries[j] == m.entries[j]
    ensures |m.keys| <= |r.keys| && r.keys[..|m.keys|] == m.keys
    ensures |r.keys| == if k in m.entries then |m.keys| else |m.keys| + 1
  {
    if k in m.entries then Table(m.keys, m.entries[k := v])
    else
      var ks := Add(m.keys, k);
      Table(ks, m.entries[k := v])
  }
}
