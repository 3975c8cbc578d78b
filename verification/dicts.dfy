/** index.js `getOrDefault`: fetch-or-insert on a plain object used as a
    dictionary. */
module Dicts {

  /** Returns the entry stored under `id` if it is defined; otherwise stores
      `dflt` (the value the default thunk builds) under `id` and returns it.
      The second component is the dictionary afterwards. `defined` is the
      `isDefined` test on the stored kind of value. */
  function GetOrDefault<K, V>(dict: map<K, V>, id: K, dflt: V, defined: V -> bool): (r: (V, map<K, V>))
    ensures r.1.Keys == dict.Keys + {id}
    ensures r.1[id] == r.0
    ensures forall k :: k in dict && k != id ==> r.1[k] == dict[k]
    ensures id in dict && defined(dict[id]) ==> r.0 == dict[id] && r.1 == dict
    ensures !(id in dict && defined(dict[id])) ==> r.0 == dflt
  {
    if id in dict && defined(dict[id]) then (dict[id], dict)
    else (dflt, dict[id := dflt])
  }
}
