/** Label sets: the plain objects the plugin passes to `gauge.set` and
    `gauge.remove`, and index.js `shallowEquals` on them.

    A label set maps a label name to the JavaScript value stored under it.
    A key assigned `undefined` is still a key (`'name' in labels` holds),
    so the map keeps it. The plugin only ever uses the ten names of its
    label schema, so label names are an enumeration of those.
 */
module LabelSets {
  import opened JsValues

  /** The label schema every gauge is created with (index.js:6-17). */
  datatype LabelName =
    | NodeIdLabel | LocationLabel | NameLabel | CommandClassLabel | PropertyLabel
    | PropertyKeyLabel | LabelLabel | EndpointLabel | IdLabel | StateLabel

  type LabelSet = map<LabelName, JsValue>

  /** index.js `shallowEquals`: every key of `a` is in `b` with a `===`
      value, and every key of `b` is in `a`. */
  predicate ShallowEquals(a: LabelSet, b: LabelSet)
  {
    && (forall key :: key in a ==> key in b && a[key] == b[key])
    && (forall key :: key in b ==> key in a)
  }

  /** The two loops decide exactly equality of label sets; in particular
      the relation is reflexive and symmetric. */
  lemma ShallowEqualsIsEquality(a: LabelSet, b: LabelSet)
    ensures ShallowEquals(a, b) <==> a == b
    ensures ShallowEquals(a, a)
    ensures ShallowEquals(a, b) <==> ShallowEquals(b, a)
  {
    if ShallowEquals(a, b) {
      assert a.Keys == b.Keys;
    }
  }

  /** The `name` and `location` assignments of index.js:219-220. */
  function Rename(labels: LabelSet, name: JsValue, loc: JsValue): (r: LabelSet)
    ensures r.Keys == labels.Keys + {NameLabel, LocationLabel}
    ensures r[NameLabel] == name && r[LocationLabel] == loc
    ensures forall k :: k in labels && k != NameLabel && k != LocationLabel ==> r[k] == labels[k]
  {
    labels[NameLabel := name][LocationLabel := loc]
  }

  /** Renaming twice to the same name and location is renaming once. */
  lemma RenameIdempotent(labels: LabelSet, name: JsValue, loc: JsValue)
    ensures Rename(Rename(labels, name, loc), name, loc) == Rename(labels, name, loc)
  {
  }
}
