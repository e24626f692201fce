/**
 * PHP's ordered associative arrays with string keys: a key keeps the
 * position of its first insertion, and assigning to an existing key replaces
 * the value in place.
 */
module PhpArrays {

  datatype PhpArray<V> = PhpArray(keys: seq<string>, values: map<string, V>)

  /** Keys in insertion order, each once, and exactly the keys of the map. */
  ghost predicate Valid<V>(a: PhpArray<V>)
  {
    (forall i, j :: 0 <= i < j < |a.keys| ==> a.keys[i] != a.keys[j]) &&
    (forall k :: k in a.values <==> k in a.keys) &&
    (forall i :: 0 <= i < |a.keys| ==> a.keys[i] in a.values)
  }

  function Empty<V>(): (a: PhpArray<V>)
    ensures Valid(a) && a.keys == [] && a.values == map[]
  {
    PhpArray([], map[])
  }

  /**
   * `$a[$key] = $value`: the value is stored under `key`; a new key is appended
   * to the order, an existing one keeps its position; every other entry is kept.
   */
  function Set<V>(a: PhpArray<V>, key: string, value: V): (r: PhpArray<V>)
    requires Valid(a)
    ensures Valid(r)
    ensures key in r.values && r.values[key] == value
    ensures forall k :: k != key ==> (k in r.values <==> k in a.values)
    ensures forall k :: k != key && k in a.values ==> r.values[k] == a.values[k]
    ensures key in a.values ==> r.keys == a.keys
    ensures key !in a.values ==> r.keys == a.keys + [key]
  {
    if key in a.values then PhpArray(a.keys, a.values[key := value])
    else PhpArray(a.keys + [key], a.values[key := value])
  }

  /** The values in key order (`array_values`). */
  function Values<V>(a: PhpArray<V>): (r: seq<V>)
    requires Valid(a)
    ensures |r| == |a.keys|
    ensures forall i :: 0 <= i < |r| ==> r[i] == a.values[a.keys[i]]
  {
    ValuesOf(a.keys, a.values)
  }

  function ValuesOf<V>(keys: seq<string>, values: map<string, V>): (r: seq<V>)
    requires forall k :: k in keys ==> k in values
    ensures |r| == |keys|
    ensures forall i :: 0 <= i < |r| ==> r[i] == values[keys[i]]
  {
    if |keys| == 0 then [] else [values[keys[0]]] + ValuesOf(keys[1..], values)
  }
}
