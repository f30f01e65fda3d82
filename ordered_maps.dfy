/**
 * The insertion-ordered `Map` of ECMAScript, as the loader service uses it:
 * `set` of a new key appends the key to the iteration order, `set` of a key
 * already present replaces its value and keeps its place, and `delete` removes
 * the key and keeps the order of the others. `Array.from(m.keys())` is `keys`.
 */
module OrderedMaps {

  /** No element occurs twice. */
  predicate Distinct<K(==, !new)>(xs: seq<K>) {
    forall i, j :: 0 <= i < j < |xs| ==> xs[i] != xs[j]
  }

  /** `a` is `b` with some elements dropped and the rest kept in order. */
  predicate IsSubsequence<K(==, !new)>(a: seq<K>, b: seq<K>)
    decreases |b|
  {
    if a == [] then true
    else if b == [] then false
    else if a[0] == b[0] then IsSubsequence(a[1..], b[1..])
    else IsSubsequence(a, b[1..])
  }

  /** `Array.prototype.filter` with a membership test: the elements of `xs` in `keep`, in order. */
  function Filter<K(==, !new)>(xs: seq<K>, keep: set<K>): (r: seq<K>)
    ensures forall x :: x in r <==> x in xs && x in keep
    ensures IsSubsequence(r, xs)
    ensures Distinct(xs) ==> Distinct(r)
  {
    if xs == [] then []
    else if xs[0] in keep then [xs[0]] + Filter(xs[1..], keep)
    else Filter(xs[1..], keep)
  }

  /** `keys` is the iteration order, `entries` the key/value table. */
  datatype OrderedMap<K(==, !new), V> = OrderedMap(keys: seq<K>, entries: map<K, V>)
  {
    /** Every key is listed exactly once in the iteration order. */
    ghost predicate Valid() {
      && Distinct(keys)
      && (forall k :: k in entries <==> k in keys)
    }

    predicate Has(k: K) {
      k in entries
    }

    function Get(k: K): V
      requires Has(k)
    {
      entries[k]
    }

    /** `Map.prototype.set`. */
    function Set(k: K, v: V): (r: OrderedMap<K, V>)
      ensures Valid() ==> r.Valid()
      ensures r.Has(k) && r.Get(k) == v
      ensures forall x :: x != k ==> (r.Has(x) <==> Has(x))
      ensures forall x :: x != k && Has(x) ==> r.Get(x) == Get(x)
      ensures Has(k) ==> r.keys == keys
      ensures !Has(k) ==> r.keys == keys + [k]
    {
      OrderedMap(if k in entries then keys else keys + [k], entries[k := v])
    }

    /** `Map.prototype.delete`; deleting an absent key changes nothing. */
    function Delete(k: K): (r: OrderedMap<K, V>)
      ensures Valid() ==> r.Valid()
      ensures !r.Has(k)
      ensures forall x :: x != k ==> (r.Has(x) <==> Has(x))
      ensures forall x :: r.Has(x) ==> r.Get(x) == Get(x)
      ensures IsSubsequence(r.keys, keys)
    {
      var rest := Filter(keys, set x | x in keys && x != k);
      OrderedMap(rest, entries - {k})
    }
  }

  /** `new Map()`. */
  function Empty<K(==, !new), V>(): (r: OrderedMap<K, V>)
    ensures r.Valid()
    ensures forall k :: !r.Has(k)
  {
    OrderedMap([], map[])
  }
}
