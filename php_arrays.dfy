/**
 * PHP's ordered arrays as the plugin uses them: keyed buffers that remember
 * insertion order (`$a[$k] = $v` keeps an existing key in place and appends a
 * new one at the end, `unset($a[$k])` drops it), and `array_unique`.
 */
module PhpArrays {

  predicate Distinct<T(==,!new)>(s: seq<T>) {
    forall i, j :: 0 <= i < j < |s| ==> s[i] != s[j]
  }

  /** `s` without any occurrence of `x`, order otherwise kept. */
  function Without<T(==,!new)>(s: seq<T>, x: T): (r: seq<T>)
    ensures forall y :: y in r <==> y in s && y != x
    ensures Distinct(s) ==> Distinct(r)
  {
    if s == [] then []
    else if s[0] == x then Without(s[1..], x)
    else
      assert Distinct(s) ==> s[0] !in s[1..];
      [s[0]] + Without(s[1..], x)
  }

  /** An ordered PHP array: its keys in insertion order and the value under each key. */
  datatype OMap<K(==,!new), V> = OMap(keys: seq<K>, vals: map<K, V>)
  {
    ghost predicate Valid() {
      Distinct(keys) && forall k :: k in vals <==> k in keys
    }

    /** `sizeof($a)`. */
    function Size(): nat {
      |keys|
    }

    /** `$a[$k] = $v`. */
    function Put(k: K, v: V): (r: OMap<K, V>)
      ensures Valid() ==> r.Valid()
      ensures r.vals == vals[k := v]
    {
      if k in vals then OMap(keys, vals[k := v]) else OMap(keys + [k], vals[k := v])
    }

    /** `unset($a[$k])`. */
    function Remove(k: K): (r: OMap<K, V>)
      ensures Valid() ==> r.Valid()
      ensures r.vals == vals - {k}
    {
      OMap(Without(keys, k), vals - {k})
    }
  }

  /** A second assignment to the same key overwrites the first and keeps the key where it was. */
  lemma PutTwice<K(!new), V>(m: OMap<K, V>, k: K, a: V, b: V)
    ensures m.Put(k, a).Put(k, b) == m.Put(k, b)
  {
    assert m.vals[k := a][k := b] == m.vals[k := b];
  }

  function EmptyOMap<K(==,!new), V>(): (r: OMap<K, V>)
    ensures r.Valid() && r.Size() == 0
  {
    OMap([], map[])
  }

  /** `array_unique(s)` after `seen`: the first occurrence of each value not in `seen`, in order. */
  function UniqueExcept<T(==,!new)>(s: seq<T>, seen: set<T>): (r: seq<T>)
    ensures Distinct(r)
    ensures forall x :: x in r <==> x in s && x !in seen
  {
    if s == [] then []
    else if s[0] in seen then UniqueExcept(s[1..], seen)
    else [s[0]] + UniqueExcept(s[1..], seen + {s[0]})
  }

  /** `array_unique(s)`: every value of `s` once, at its first position. */
  function Unique<T(==,!new)>(s: seq<T>): (r: seq<T>)
    ensures Distinct(r)
    ensures forall x :: x in r <==> x in s
  {
    UniqueExcept(s, {})
  }
}
