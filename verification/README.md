# zwavejs-prom: the event-to-metric projection engine in Dafny

zwavejs-prom is a zwavejs2mqtt plugin. It turns Z-Wave value-change events into
Prometheus gauges. This project models its engine, `index.js` without the wiring, as pure
functions over an immutable state with two maps:

- `gauges`: gauge name → gauge. A gauge is modelled as its help text plus a map from
  label set to value, with `set` (insert or overwrite) and `remove` (delete the key).
- `nodes`: node id → `{name, location, values}`. `values` maps a value id to its series
  record `{labels, value, gauge}`. The record names its gauge. Gauges are never removed or
  replaced, so the name identifies the same gauge object for the whole run.

Files and modules:

- `results.dfy` (`Results`): `Option`, `Result`, and the TypeErrors the handlers can throw.
- `js_values.dfy` (`JsValues`): JavaScript values, truthiness, `isDefined`, `String(v)`
  and `v.toString()`.
- `sanitizer.dfy` (`Sanitizer`): `zwaveLabel`.
- `label_sets.dfy` (`LabelSets`): label sets, `shallowEquals`, and the rename done by
  `updateNameAndLocation`.
- `dicts.dfy` (`Dicts`): `getOrDefault`.
- `projection.dfy` (`Projection`): the pure part of `onValueChanged`. This covers the skip
  rules, the state table, the idle default, the `typeof` switch, the gauge name, the help
  text and the label set.
- `engine.dfy` (`Engine`): the handlers as written: `updateNameAndLocation`, `updateNode`,
  `onNodeStatus`, the reconciliation of `onValueChanged`, and `onNodeRemoved`. It also holds
  the state invariant `Valid`.
- `intended.dfy` (`Intended`): corrected versions of three defective lines, each next to a
  lemma about the code as written (see Findings). The shared yardstick is `NoStaleSeries`:
  every series a gauge exposes belongs to some record.

Each handler that throws a TypeError in the source returns `Err` here, with the state
unchanged. In the source every throw happens before the handler changes anything. The
controller's node table (`zwave.nodes`) is a parameter, `directory`, keyed by the event's
`nodeId`.

In three places the surrounding code shows what a line means to do, and the line does something else.
The first is the `shallowEquals(labels, nodeValue.labels)` guard at index.js:205. It only has
a purpose if the branch retracts the record's *previous* label set, but the branch removes
the new one. The second is index.js:89-93, which loops over the node's records to remove
each series before the `delete`, but it iterates the keys instead of the records. The third
is the guard at index.js:109. It reads `n.loc`, but the node object stores its location as
`location` (index.js:106, 226), so `n.loc` is always undefined.
The `Engine` module follows the code as written. The `Intended` module corrects those lines
and proves that the corrected handlers keep every series owned by some record
(`NoStaleSeries`).

## Model

| member | source | states |
|---|---|---|
| `Sanitizer.ZwaveLabel` | index.js:47-53 | fails (TypeError) exactly when the value is undefined or null; otherwise the token is the sanitized `String(v)` and consists of `[a-z0-9_]` only |
| `Sanitizer.Sanitize` | index.js:49-52 | the lower-case, space, subscript-two and strip steps produce only characters in `[a-z0-9_]`, and never a longer string |
| `Sanitizer.StripDisallowed` | index.js:52 | the strip step keeps only `[a-zA-Z0-9_]` characters, each taken from the input; every allowed character of the input survives; an input made only of allowed characters comes back unchanged |
| `Sanitizer.StripCounts` | index.js:52 | the strip step keeps each allowed character exactly as many times as the input has it, and no disallowed character at all |
| `Sanitizer.LabelIsFixedPoint` | index.js:49-52 | a string made of `[a-z0-9_]` passes through the sanitizer unchanged |
| `Sanitizer.SanitizeIdempotent` | index.js:49-52 | sanitizing twice equals sanitizing once |
| `Sanitizer.ZwaveLabelIdempotent` | index.js:47-53 | applying `zwaveLabel` to its own result gives that result back |
| `Sanitizer.SanitizeMatchesCharImages` | index.js:49-52 | the chained `replaceAll` pipeline equals a character-by-character reference: the concatenation of each character's image |
| `JsValues.ToStringMethod` | index.js:48 | `toString()` throws on undefined and null and yields `String(v)` on every other value |
| `JsValues.NatToDecimalInjective` | index.js:86 | different naturals print to different decimal strings |
| `JsValues.IntToDecimalInjective` | index.js:86 | `node.id.toString()` is injective on integers, so keying nodes by the integer id is keying them by its string |
| `LabelSets.ShallowEqualsIsEquality` | index.js:19-31 | `ShallowEquals` (the two `for…in` loops) holds iff the label sets have the same keys and `===` values at every key; it is reflexive and symmetric |
| `LabelSets.Rename` | index.js:219-220 | renaming sets `name` and `location`, adds those two keys if missing, and keeps every other label (including `state`) |
| `LabelSets.RenameIdempotent` | index.js:219-220 | renaming twice to the same name and location is renaming once |
| `Dicts.GetOrDefault` | index.js:33-45 | the `defined` test is a parameter; every caller passes one that holds for all stored values, because they are objects and `isDefined` (`JsValues.IsDefined`, index.js:33-35) holds for every object; a defined entry is returned and the dictionary is unchanged; otherwise the default is stored under the key and returned; no other key changes |
| `Projection.BuildStates` | index.js:135-137 | the state table has a key for every entry's value, converted to a property key, and no other keys |
| `Projection.StatesLastWins` | index.js:135-137 | the text under a key is that of the last entry whose value converts to that key |
| `Projection.StateTable` | index.js:133-138 | the table is empty unless `list` is truthy; a truthy `list` without a states array throws; a truthy `list` with a states array gives the table built from its entries |
| `Projection.ResolveValue` | index.js:140-143 | a defined value is kept; an undefined one becomes 0 exactly when `states["0"]` is `'idle'` |
| `Projection.Classify` | index.js:146-157 | numbers and booleans are kept with their value; every other type is unsupported |
| `Projection.MetricValue` | index.js:145-157 | the metric is the number itself, 1 for `true` and 0 for `false` |
| `Projection.GaugeName` | index.js:161-179 | the name is `zwave_` + sanitized command class name + `_` + sanitized property, plus `_` + sanitized property key iff the key is defined; it throws iff the class name or property is nullish |
| `Projection.GaugeNameIsMetricName` | index.js:161-179 | every derived gauge name starts with `zwave_` and contains only `[a-z0-9_]` |
| `Projection.BuildLabels` | index.js:164-184 | the label set has the eight fixed labels, plus `propertyKey` iff it is defined, plus `state` iff `states[v]` is defined; every label carries its value from the event, the node or the state table |
| `Projection.Derive` | index.js:159-184 | once the skip rules have passed, the handler throws iff the class name or property is nullish or the node is unknown; otherwise the projection carries the node, value id, gauge name, metric, the label set built from the event and the node, and the help text `Projection.HelpText` (index.js:162, 178) |
| `Projection.Project` | index.js:116-184 | excluded command classes (`Projection.IsExcluded`: 0x70, 0x72, 0x86, 0x60 by `===`), falsy `readable` and unsupported value types are skipped; past the skip rules a nullish class name or property throws (index.js:161), and otherwise an unknown node throws (index.js:166); the emitted label set is the one built from the event, the node, the state table and the resolved value, and the help text is the derived one; the metric is the number, 1/0 for booleans, or 0 for an idle undefined value; `state` is labelled iff `states[v]` is defined |
| `Engine.SetSeries` | index.js:209 | `gauge.set` makes the gauge map the labels to the value and changes no other series |
| `Engine.RemoveSeries` | index.js:206 | `gauge.remove` deletes that series and changes no other |
| `Engine.InitialValid` | index.js:64-66 | the empty state the constructor starts from satisfies the invariant |
| `Engine.Relabel` | index.js:216-223 | the relabel loop keeps the gauge names and help texts; every visited record gets renamed labels with its value and gauge unchanged; the other records are untouched |
| `Engine.RelabelFrame` | index.js:216-223 | the loop changes no series other than the visited records' old and renamed ones |
| `Engine.RelabelSetsRenamed` | index.js:216-223 | after the loop each record's gauge maps its renamed labels to its stored value |
| `Engine.RelabelAll` | index.js:216-223 | the two properties above, for every record of a node |
| `Engine.RelabelKeepsNodeValid` | index.js:216-226 | the relabelled node still keys each record by its `id` label and points at existing gauges |
| `Engine.UpdateNameAndLocation` | index.js:215-227 | the node gets the new name and location; every record keeps its value and gauge and has only `name`/`location` changed; its gauge maps the new labels to the value; series the node does not touch are unchanged |
| `Engine.UpdateNode` | index.js:102-114 | an unknown node is created with no records; the relabel runs exactly when `Engine.StatusRelabels` holds: the name differs or the status's `loc` is anything other than undefined, null included, since the stored `n.loc` is always undefined; otherwise nothing changes |
| `Engine.OnNodeStatus` | index.js:97-114 | after a status the node is known and no other node changes; a new node has no records; when the guard does not fire nothing changes; when it fires, the result is exactly `updateNameAndLocation`'s, so the node and every record's labels carry the status's name and location; a new node leaves the gauges unchanged |
| `Engine.WriteGauge` | index.js:191-209 | an existing gauge is reused with its help text; a missing one is created with the derived help; the gauge's series become the old ones plus the new labels → metric, with nothing retracted |
| `Engine.WriteRecord` | index.js:199-212 | the record for the value id holds exactly the new labels and metric; a new record points at the derived gauge and an existing one keeps its gauge; the other records are unchanged |
| `Engine.WriteRecordKeepsNodeValid` | index.js:199-212 | the written node keeps distinct value ids in insertion order, each record keyed by its `id` label |
| `Engine.Reconcile` | index.js:191-212 | first-writer-wins gauge creation; the chosen gauge gains labels → metric and loses nothing; the record holds exactly labels and metric; no other gauge, node or record changes |
| `Engine.OnValueChanged` | index.js:116-213 | skipped events leave gauges and nodes unchanged; a throw iff the projection fails; for an emitted event the record holds labels and metric and keeps the gauge it was created with, the gauge maps labels to the metric, first-writer-wins help text, only the event's gauge and node are added, and other nodes are unchanged |
| `Engine.OnValueChangedKeepsOtherSeries` | index.js:205-209 | apart from the event's own series, every series is as the node update left it, so the record's previous series stays |
| `Engine.OnValueChangedKeepsNode` | index.js:186-212 | the event's node keeps the name, location and other records that `updateNode` left; only the event's record is added or written |
| `Engine.OnNodeRemoved` | index.js:83-95 | an unknown id is a no-op; the handler throws exactly when the node is known and has at least one record, and the state is then unchanged; a node without records is deleted and nothing else changes |
| `Intended.InitialHasNoStaleSeries` | index.js:64-66 | the empty state has no stale series |
| `Intended.RelabelKeepsOnlyRenamed` | index.js:216-223 | any series the relabel loop touched that is still present is some record's renamed series |
| `Intended.UpdateNameAndLocationNoStale` | index.js:215-227 | `updateNameAndLocation` as written keeps every series owned by a record |
| `Intended.StaleSeriesRetained` | index.js:205-211 | when a record's labels change within its gauge, the previous series keeps its value, no record owns it any more (`Owns` is false), and NoStaleSeries fails |
| `Intended.RetractAndSet` | index.js:191-209 | corrected gauge update: the new series is set, the record's previous series is gone, no other series appears, and every other series keeps its value |
| `Intended.WriteRecordIntended` | index.js:199-212 | corrected record update: the record holds the new labels, metric and gauge |
| `Intended.ReconcileIntended` | index.js:191-212 | corrected reconciliation: the record and its gauge agree, the previous series is retracted, every other series keeps its value, the node's name, location and other records are unchanged, other nodes are unchanged, and NoStaleSeries is preserved |
| `Intended.OnValueChangedIntended` | index.js:116-213 | corrected `onValueChanged`: same skips, and the same errors with the same error value; every series other than the new one and the record's previous one keeps its value; the record equals (labels, metric, gauge); the node carries the controller's name and location; the record's previous series is gone; only the event's gauge and node are added and other nodes are unchanged; NoStaleSeries is preserved |
| `Intended.OnValueChangedIntendedKeepsNode` | index.js:186-212 | corrected `onValueChanged`: the event's node keeps the name, location and other records that the corrected node update left; only the event's record is added or written |
| `Intended.ClearedLocationIgnored` | index.js:102-111 | as written, a status that only clears the location changes nothing, so the stored location stays stale |
| `Intended.UnchangedStatusRelabels` | index.js:109 | as written, the relabel guard fires for a status that changes nothing whenever its `loc` is anything other than undefined (null included) |
| `Intended.UpdateNodeIntended` | index.js:102-114 | corrected `updateNode`: the stored node always ends with the status's name and location; a new node has no records; an unchanged status changes nothing; a changed name or location relabels every record exactly as `updateNameAndLocation` does; NoStaleSeries is preserved |
| `Intended.RemovalOfNodeWithRecordsFails` | index.js:86-94 | as written, removing a node with records throws |
| `Intended.RetractAll` | index.js:89-91 | corrected loop: every listed record's series is removed, nothing is added, and the other series are unchanged |
| `Intended.OnNodeRemovedIntended` | index.js:83-95 | corrected removal: never throws; an unknown id is a no-op; every record's series is retracted; the node is gone; other nodes and untouched series are unchanged; NoStaleSeries is preserved |

## Left out

- The prom-client `Registry`, metric text rendering and `sendMetrics` (index.js:79-81). These are a foreign library and async I/O; gauges are abstract maps.
- The constructor's event subscriptions and route registration, the logger and mqtt handles (index.js:56-73), `destroy` and the module export (index.js:75-77, 230-232). These are plumbing.
- Concurrency: there is none. Handlers run one at a time on the JavaScript event loop.
- JavaScript numbers are modelled as mathematical integers. NaN (which is not `===` itself), `-0`, fractional values and the exponent form `String(1e21)` are not modelled. Metric values are only copied, so no arithmetic is lost.
- `Sanitizer.ZwaveLabel`: lower-casing is ASCII only. Full Unicode `toLowerCase` turns U+0130 into `i` plus a combining dot, and U+212A (Kelvin) into `k`, which the final strip would keep. The model strips those characters entirely.
- prom-client keys a series by a printed form of its labels, in which a number and its decimal string coincide. The model keys series by the label map itself. prom-client's checks of label names and values are not modelled either.
- Label names are the enumeration of the ten schema names.
- Object-prototype quirks of plain objects are not modelled: a `"__proto__"` state value, or a lookup that finds an inherited property.
  - The state table is read with decimal numbers, `"true"` or `"false"`.
  - Gauges are read with names that start with `zwave_`, and nodes with decimal ids.
  - None of these names an inherited property.
  - `node.values` is read with the event's value id, an arbitrary string in the model. A value id such as `"constructor"` would find an inherited function there, and `shallowEquals` would then throw. The model treats such a key as absent. Z-Wave JS value ids begin with the node number (`"5-49-0-Air temperature"`), so they cannot name an inherited property.
- `Object.values` visits integer-like keys first, in ascending order. The model visits records in insertion order, which is the order for value ids such as `"5-49-0-Air temperature"`. The relabel result does not depend on this, because records are keyed by their `id` label.
- Value ids are strings and node ids are integers. `node.id.toString()` is injective on integers (`JsValues.IntToDecimalInjective`). A `states` entry that is itself null or undefined is not modelled.
- The help text is built by concatenation with `String(v)`. Nothing reads it back.

## Findings

| source | as written | input that shows it | evidently intended | confidence | as-written member | corrected member |
|---|---|---|---|---|---|---|
| index.js:205-206 | `gauge.remove(labels)` retracts the new label set, so the record's previous series is never removed | a list value with states 0 "idle" and 1 "motion" whose value changes from 0 to 1: the `state="idle"` series stays in the gauge next to `state="motion"` | `remove(nodeValue.labels)` from the gauge the previous series lives in | high, not executed | `Intended.StaleSeriesRetained` | `Intended.ReconcileIntended` |
| index.js:109 | compares `n.loc`, which the stored node never has (it stores `location`) | a node stored with name "A" and location "Kitchen", then a status with name "A" and no location: nothing changes and every label keeps "Kitchen" | compare `n.location !== node.loc` | high, not executed | `Intended.ClearedLocationIgnored` | `Intended.UpdateNodeIntended` |
| index.js:89-90 | `for (const v in n.values)` binds each key string, so `v.gauge.remove` throws on the first record and the node is never deleted | removal of any node that has one value record | `for (const v of Object.values(n.values))` | high, not executed | `Intended.RemovalOfNodeWithRecordsFails` | `Intended.OnNodeRemovedIntended` |
