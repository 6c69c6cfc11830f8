/**
 * A `Dictionary<string, V>` as the parameter-file reader uses it: a map together with the
 * order in which its keys were first inserted, which is the order `foreach` enumerates
 * when nothing is ever removed. The indexer overwrites in place or appends; `Add` refuses
 * a key that is already present (the library throws).
 */
module Dictionaries {
  import opened Wrappers

  datatype Dict<V> = Dict(keys: seq<string>, values: map<string, V>)

  predicate Distinct(s: seq<string>) {
    forall i, j :: 0 <= i < j < |s| ==> s[i] != s[j]
  }

  /** The keys listed once each, and exactly the keys of the map. */
  ghost predicate Valid<V>(d: Dict<V>) {
    (forall k :: k in d.values <==> k in d.keys) && Distinct(d.keys)
  }

  function Empty<V>(): (d: Dict<V>)
    ensures Valid(d) && d.keys == []
  {
    Dict([], map[])
  }

  /** `d[k] = v`. */
  function Put<V>(d: Dict<V>, k: string, v: V): Dict<V> {
    Dict(if k in d.values then d.keys else d.keys + [k], d.values[k := v])
  }

  /** `d.Add(k, v)`: `None` stands for the exception on a key already present. */
  function Add<V>(d: Dict<V>, k: string, v: V): (r: Option<Dict<V>>)
    ensures r.None? <==> k in d.values
    ensures r.Some? ==> r.value.keys == d.keys + [k] && r.value.values == d.values[k := v]
  {
    if k in d.values then None else Some(Put(d, k, v))
  }

  /**
   * The indexer keeps the dictionary well formed; an existing key keeps its position, a
   * new key goes last; only `k`'s value changes.
   */
  lemma PutKeepsOrder<V>(d: Dict<V>, k: string, v: V)
    requires Valid(d)
    ensures var r := Put(d, k, v);
      Valid(r)
      && r.values[k] == v
      && (forall other :: other != k ==> (other in r.values <==> other in d.values))
      && (forall other :: other != k && other in d.values ==> r.values[other] == d.values[other])
      && (k in d.values ==> r.keys == d.keys)
      && (k !in d.values ==> r.keys == d.keys + [k])
  {
    var r := Put(d, k, v);
    if k !in d.values {
      forall other ensures other in r.values <==> other in r.keys {
        assert other in r.keys <==> other in d.keys || other == k;
      }
    }
  }
}
