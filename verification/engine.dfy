/** The state-changing part of index.js: the gauge registry (`gauges`), the
    per-node records (`nodes`) and the handlers that change them.

    A prom-client Gauge is modelled as its help text and a map from label
    set to value, with `set` (insert or overwrite) and `remove` (delete the
    key). Every gauge is created with the same label schema (LabelName). A
    series record refers to its gauge by name: gauges are never removed or
    replaced, so the name identifies the same object for the whole run.
 */
module Engine {
  import opened Results
  import opened JsValues
  import opened LabelSets
  import opened Dicts
  import opened Projection

  datatype Gauge = Gauge(help: string, series: map<LabelSet, int>)

  /** `{labels, value, gauge}` of index.js:199-203. */
  datatype SeriesRecord = SeriesRecord(labels: LabelSet, value: int, gauge: string)

  /** `{values, name, location}` of index.js:103-107. `order` lists the keys
      of `values` in insertion order, the order `Object.values` visits them. */
  datatype Node = Node(name: JsValue, location: JsValue, values: map<string, SeriesRecord>, order: seq<string>)

  /** `this.gauges` and `this.nodes`; nodes are keyed by `node.id`. */
  datatype State = State(gauges: map<string, Gauge>, nodes: map<int, Node>)

  /** The state the constructor starts from. */
  const Initial: State := State(map[], map[])

  /** The value a gauge holds for a label set, if any. */
  function Series(gauges: map<string, Gauge>, g: string, labels: LabelSet): Option<int>
  {
    if g in gauges && labels in gauges[g].series then Some(gauges[g].series[labels]) else None
  }

  /** `gauge.set(labels, v)`. */
  function SetSeries(gauges: map<string, Gauge>, g: string, labels: LabelSet, v: int): (r: map<string, Gauge>)
    requires g in gauges
    ensures r.Keys == gauges.Keys
    ensures forall h :: h in gauges ==> r[h].help == gauges[h].help
    ensures Series(r, g, labels) == Some(v)
    ensures forall h, l :: h != g || l != labels ==> Series(r, h, l) == Series(gauges, h, l)
  {
    gauges[g := gauges[g].(series := gauges[g].series[labels := v])]
  }

  /** `gauge.remove(labels)`. */
  function RemoveSeries(gauges: map<string, Gauge>, g: string, labels: LabelSet): (r: map<string, Gauge>)
    requires g in gauges
    ensures r.Keys == gauges.Keys
    ensures forall h :: h in gauges ==> r[h].help == gauges[h].help
    ensures Series(r, g, labels) == None
    ensures forall h, l :: h != g || l != labels ==> Series(r, h, l) == Series(gauges, h, l)
  {
    gauges[g := gauges[g].(series := gauges[g].series - {labels})]
  }

  // ---------------------------------------------------------------------
  // The state invariant

  /** A record's `id` label is the key it is stored under (index.js:172 and
      199 both take `value.id`). */
  predicate IdLabelled(id: string, labels: LabelSet)
  {
    IdLabel in labels && labels[IdLabel] == Str(id)
  }

  predicate Distinct(ids: seq<string>)
  {
    forall i, j :: 0 <= i < j < |ids| ==> ids[i] != ids[j]
  }

  ghost predicate NodeValid(n: Node, gauges: map<string, Gauge>)
  {
    && Distinct(n.order)
    && (forall id :: id in n.order <==> id in n.values)
    && (forall id :: id in n.values ==> IdLabelled(id, n.values[id].labels) && n.values[id].gauge in gauges)
  }

  /** What every state the handlers reach satisfies. */
  ghost predicate Valid(st: State)
  {
    forall k :: k in st.nodes ==> NodeValid(st.nodes[k], st.gauges)
  }

  lemma InitialValid()
    ensures Valid(Initial)
  {
  }

  lemma NodeValidMoreGauges(n: Node, gauges: map<string, Gauge>, gauges': map<string, Gauge>)
    requires NodeValid(n, gauges) && gauges.Keys <= gauges'.Keys
    ensures NodeValid(n, gauges')
  {
  }

  lemma OtherNodesStayValid(st: State, key: int, gauges: map<string, Gauge>)
    requires Valid(st) && st.gauges.Keys <= gauges.Keys
    ensures forall k :: k in st.nodes && k != key ==> NodeValid(st.nodes[k], gauges)
  {
    forall k | k in st.nodes && k != key ensures NodeValid(st.nodes[k], gauges) {
      NodeValidMoreGauges(st.nodes[k], st.gauges, gauges);
    }
  }

  lemma DistinctTail(ids: seq<string>)
    requires Distinct(ids) && ids != []
    ensures Distinct(ids[1..])
    ensures ids[0] !in ids[1..]
  {
    forall i, j | 0 <= i < j < |ids[1..]| ensures ids[1..][i] != ids[1..][j] {
      assert ids[1..][i] == ids[i + 1] && ids[1..][j] == ids[j + 1];
    }
  }

  // ---------------------------------------------------------------------
  // updateNameAndLocation (index.js:215-227)

  function Renamed(rec: SeriesRecord, name: JsValue, loc: JsValue): SeriesRecord
  {
    rec.(labels := Rename(rec.labels, name, loc))
  }

  /** The loop of index.js:216-223 over the records `ids`, in that order:
      retract the record's series, rename its labels, set the series again
      with the stored value. Answers the gauges and the records afterwards. */
  function Relabel(gauges: map<string, Gauge>, values: map<string, SeriesRecord>, ids: seq<string>, name: JsValue, loc: JsValue)
    : (r: (map<string, Gauge>, map<string, SeriesRecord>))
    requires forall id :: id in ids ==> id in values && values[id].gauge in gauges
    ensures r.0.Keys == gauges.Keys
    ensures forall g :: g in gauges ==> r.0[g].help == gauges[g].help
    ensures r.1.Keys == values.Keys
    ensures forall id :: id in values ==> r.1[id] == if id in ids then Renamed(values[id], name, loc) else values[id]
    decreases |ids|
  {
    if ids == [] then (gauges, values)
    else
      var rec := values[ids[0]];
      var renamed := Renamed(rec, name, loc);
      RenameIdempotent(rec.labels, name, loc);
      var gauges1 := SetSeries(RemoveSeries(gauges, rec.gauge, rec.labels), rec.gauge, renamed.labels, rec.value);
      Relabel(gauges1, values[ids[0] := renamed], ids[1..], name, loc)
  }

  /** Some record among `ids` lives in gauge `g` under label set `l`,
      before or after renaming. */
  ghost predicate Touched(values: map<string, SeriesRecord>, ids: seq<string>, name: JsValue, loc: JsValue, g: string, l: LabelSet)
    requires forall id :: id in ids ==> id in values
  {
    exists id :: id in ids && values[id].gauge == g && (values[id].labels == l || Rename(values[id].labels, name, loc) == l)
  }

  /** The relabel loop changes no series but the records' old and new ones. */
  lemma {:induction false} RelabelFrame(gauges: map<string, Gauge>, values: map<string, SeriesRecord>, ids: seq<string>,
                                        name: JsValue, loc: JsValue, g: string, l: LabelSet)
    requires forall id :: id in ids ==> id in values && values[id].gauge in gauges
    requires !Touched(values, ids, name, loc, g, l)
    ensures Series(Relabel(gauges, values, ids, name, loc).0, g, l) == Series(gauges, g, l)
    decreases |ids|
  {
    if ids != [] {
      var rec := values[ids[0]];
      var renamed := Renamed(rec, name, loc);
      var gauges1 := SetSeries(RemoveSeries(gauges, rec.gauge, rec.labels), rec.gauge, renamed.labels, rec.value);
      var values1 := values[ids[0] := renamed];
      assert ids[0] in ids;
      assert Series(gauges1, g, l) == Series(gauges, g, l);
      RenameIdempotent(rec.labels, name, loc);
      forall id | id in ids[1..]
        ensures values1[id].gauge == g ==> values1[id].labels != l && Rename(values1[id].labels, name, loc) != l
      {
        assert id in ids;
      }
      RelabelFrame(gauges1, values1, ids[1..], name, loc, g, l);
    }
  }

  /** With distinct ids, each carrying its own `id` label, every record's
      renamed label set ends up in its gauge with the record's value. */
  lemma {:induction false} RelabelSetsRenamed(gauges: map<string, Gauge>, values: map<string, SeriesRecord>, ids: seq<string>,
                                              name: JsValue, loc: JsValue, id: string)
    requires forall i :: i in ids ==> i in values && values[i].gauge in gauges
    requires Distinct(ids)
    requires forall i :: i in ids ==> IdLabelled(i, values[i].labels)
    requires id in ids
    ensures Series(Relabel(gauges, values, ids, name, loc).0, values[id].gauge, Rename(values[id].labels, name, loc))
            == Some(values[id].value)
    decreases |ids|
  {
    var rec := values[ids[0]];
    var renamed := Renamed(rec, name, loc);
    var gauges1 := SetSeries(RemoveSeries(gauges, rec.gauge, rec.labels), rec.gauge, renamed.labels, rec.value);
    var values1 := values[ids[0] := renamed];
    assert ids[0] in ids;
    forall i | i in ids[1..] ensures i != ids[0] && values1[i] == values[i] {
      var j :| 1 <= j < |ids| && ids[j] == i;
    }
    if id == ids[0] {
      forall i | i in ids[1..]
        ensures values1[i].gauge == rec.gauge ==> values1[i].labels != renamed.labels && Rename(values1[i].labels, name, loc) != renamed.labels
      {
        assert i in ids;
        assert values1[i].labels[IdLabel] == Str(i);
        assert Rename(values1[i].labels, name, loc)[IdLabel] == Str(i);
        assert renamed.labels[IdLabel] == Str(ids[0]);
      }
      RelabelFrame(gauges1, values1, ids[1..], name, loc, rec.gauge, renamed.labels);
    } else {
      assert id in ids[1..] by {
        var j :| 0 <= j < |ids| && ids[j] == id;
        assert j > 0;
        assert ids[1..][j - 1] == id;
      }
      DistinctTail(ids);
      forall i | i in ids[1..] ensures IdLabelled(i, values1[i].labels) {
        assert i in ids;
      }
      RelabelSetsRenamed(gauges1, values1, ids[1..], name, loc, id);
    }
  }

  /** Some record of node `n` lives in gauge `g` under label set `l`, before
      or after renaming to `name` and `loc`. */
  ghost predicate NodeTouches(n: Node, name: JsValue, loc: JsValue, g: string, l: LabelSet)
    requires forall id :: id in n.order ==> id in n.values
  {
    Touched(n.values, n.order, name, loc, g, l)
  }

  /** index.js `updateNameAndLocation` on the node stored under `key`. */
  function UpdateNameAndLocation(st: State, key: int, name: JsValue, loc: JsValue): (r: State)
    requires Valid(st) && key in st.nodes
    ensures Valid(r)
    ensures r.gauges.Keys == st.gauges.Keys
    ensures forall g :: g in st.gauges ==> r.gauges[g].help == st.gauges[g].help
    ensures r.nodes.Keys == st.nodes.Keys
    ensures forall k :: k in st.nodes && k != key ==> r.nodes[k] == st.nodes[k]
    ensures r.nodes[key].name == name && r.nodes[key].location == loc
    ensures r.nodes[key].order == st.nodes[key].order
    ensures r.nodes[key].values.Keys == st.nodes[key].values.Keys
    ensures forall id :: id in st.nodes[key].values ==>
              var rec := st.nodes[key].values[id];
              var rec' := r.nodes[key].values[id];
              && rec'.value == rec.value
              && rec'.gauge == rec.gauge
              && rec'.labels == Rename(rec.labels, name, loc)
              && Series(r.gauges, rec.gauge, rec'.labels) == Some(rec.value)
    ensures forall g, l :: !NodeTouches(st.nodes[key], name, loc, g, l) ==> Series(r.gauges, g, l) == Series(st.gauges, g, l)
  {
    var n := st.nodes[key];
    var relabelled := Relabel(st.gauges, n.values, n.order, name, loc);
    RelabelAll(st.gauges, n, name, loc);
    RelabelKeepsNodeValid(st.gauges, n, name, loc);
    var n' := n.(values := relabelled.1, name := name, location := loc);
    OtherNodesStayValid(st, key, relabelled.0);
    st.(gauges := relabelled.0, nodes := st.nodes[key := n'])
  }

  /** The two relabel lemmas for every record and every untouched series of
      a node. */
  lemma RelabelAll(gauges: map<string, Gauge>, n: Node, name: JsValue, loc: JsValue)
    requires NodeValid(n, gauges)
    ensures forall id :: id in n.values ==>
              Series(Relabel(gauges, n.values, n.order, name, loc).0, n.values[id].gauge, Rename(n.values[id].labels, name, loc))
              == Some(n.values[id].value)
    ensures forall g, l :: !NodeTouches(n, name, loc, g, l) ==>
              Series(Relabel(gauges, n.values, n.order, name, loc).0, g, l) == Series(gauges, g, l)
  {
    forall id | id in n.values
      ensures Series(Relabel(gauges, n.values, n.order, name, loc).0, n.values[id].gauge, Rename(n.values[id].labels, name, loc))
              == Some(n.values[id].value)
    {
      RelabelSetsRenamed(gauges, n.values, n.order, name, loc, id);
    }
    forall g, l | !NodeTouches(n, name, loc, g, l)
      ensures Series(Relabel(gauges, n.values, n.order, name, loc).0, g, l) == Series(gauges, g, l)
    {
      RelabelFrame(gauges, n.values, n.order, name, loc, g, l);
    }
  }

  /** Relabelling keeps a node's records keyed, with their gauges. */
  lemma RelabelKeepsNodeValid(gauges: map<string, Gauge>, n: Node, name: JsValue, loc: JsValue)
    requires NodeValid(n, gauges)
    ensures var r := Relabel(gauges, n.values, n.order, name, loc);
            NodeValid(n.(values := r.1, name := name, location := loc), r.0)
  {
    var r := Relabel(gauges, n.values, n.order, name, loc);
    var n' := n.(values := r.1, name := name, location := loc);
    forall id | id in n'.values ensures IdLabelled(id, n'.values[id].labels) && n'.values[id].gauge in r.0 {
      assert id in n.order;
      assert n'.values[id] == Renamed(n.values[id], name, loc);
    }
  }

  // ---------------------------------------------------------------------
  // updateNode and onNodeStatus (index.js:97-114)

  /** The guard of index.js:109. The stored node has no `loc` property (it
      stores `location`), so `n.loc` is always undefined there. */
  predicate StatusRelabels(n: Node, info: NodeInfo)
  {
    n.name != info.name || Undefined != info.loc
  }

  /** index.js `updateNode`: fetch or create the node's record, then relabel
      when the guard fires. */
  function UpdateNode(st: State, info: NodeInfo): (r: State)
    requires Valid(st)
    ensures Valid(r)
    ensures r.gauges.Keys == st.gauges.Keys
    ensures forall g :: g in st.gauges ==> r.gauges[g].help == st.gauges[g].help
    ensures r.nodes.Keys == st.nodes.Keys + {info.id}
    ensures forall k :: k in st.nodes && k != info.id ==> r.nodes[k] == st.nodes[k]
    ensures info.id !in st.nodes ==>
              r.gauges == st.gauges && r.nodes[info.id] == Node(info.name, info.loc, map[], [])
    ensures info.id in st.nodes && !StatusRelabels(st.nodes[info.id], info) ==> r == st
    ensures info.id in st.nodes && StatusRelabels(st.nodes[info.id], info) ==>
              r == UpdateNameAndLocation(st, info.id, info.name, info.loc)
  {
    var fetched := GetOrDefault(st.nodes, info.id, Node(info.name, info.loc, map[], []), (_: Node) => true);
    var st1 := st.(nodes := fetched.1);
    assert Valid(st1);
    if StatusRelabels(fetched.0, info) then UpdateNameAndLocation(st1, info.id, info.name, info.loc) else st1
  }

  /** index.js `onNodeStatus`: after a status the node is known; whenever
      the guard fires (a changed name, or any `loc` other than undefined)
      the node and every one of its records carry the status's name and
      location. Other nodes are untouched. */
  function OnNodeStatus(st: State, info: NodeInfo): (r: State)
    requires Valid(st)
    ensures Valid(r)
    ensures r.nodes.Keys == st.nodes.Keys + {info.id}
    ensures forall k :: k in st.nodes && k != info.id ==> r.nodes[k] == st.nodes[k]
    ensures info.id !in st.nodes ==>
              r.gauges == st.gauges && r.nodes[info.id] == Node(info.name, info.loc, map[], [])
    ensures info.id in st.nodes && !StatusRelabels(st.nodes[info.id], info) ==> r == st
    ensures info.id in st.nodes && StatusRelabels(st.nodes[info.id], info) ==>
              r == UpdateNameAndLocation(st, info.id, info.name, info.loc)
    ensures info.id in st.nodes && StatusRelabels(st.nodes[info.id], info) ==>
              && r.nodes[info.id].name == info.name
              && r.nodes[info.id].location == info.loc
              && forall id :: id in r.nodes[info.id].values ==>
                   var labels := r.nodes[info.id].values[id].labels;
                   NameLabel in labels && LocationLabel in labels
                   && labels[NameLabel] == info.name && labels[LocationLabel] == info.loc
  {
    UpdateNode(st, info)
  }

  // ---------------------------------------------------------------------
  // onValueChanged (index.js:116-213)

  /** The projection's `id` label names the record it is stored under. */
  predicate Keyed(p: Emission)
  {
    IdLabelled(p.valueId, p.labels)
  }

  /** The record a value event finds under its value id: the stored one,
      or the one index.js:199-203 creates. */
  function FetchRecord(n: Node, p: Emission): SeriesRecord
  {
    GetOrDefault(n.values, p.valueId, SeriesRecord(p.labels, p.metric, p.gaugeName), (_: SeriesRecord) => true).0
  }

  /** index.js:191-197 and 205-209 on the gauges: fetch or create the gauge
      `p.gaugeName`, retract `p.labels` when they differ from the record's
      `previous` labels, then set `p.labels` to the metric value. */
  function WriteGauge(gauges: map<string, Gauge>, p: Emission, previous: LabelSet): (r: map<string, Gauge>)
    ensures r.Keys == gauges.Keys + {p.gaugeName}
    ensures forall h :: h in gauges && h != p.gaugeName ==> r[h] == gauges[h]
    ensures p.gaugeName in gauges ==> r[p.gaugeName].help == gauges[p.gaugeName].help
    ensures p.gaugeName !in gauges ==> r[p.gaugeName].help == p.help
    ensures r[p.gaugeName].series
            == (if p.gaugeName in gauges then gauges[p.gaugeName].series else map[])[p.labels := p.metric]
    ensures forall g, l :: (g != p.gaugeName || l != p.labels) ==> Series(r, g, l) == Series(gauges, g, l)
  {
    var fetched := GetOrDefault(gauges, p.gaugeName, Gauge(p.help, map[]), (_: Gauge) => true);
    var gauge := fetched.0;
    var series := if !ShallowEquals(p.labels, previous) then gauge.series - {p.labels} else gauge.series;
    fetched.1[p.gaugeName := gauge.(series := series[p.labels := p.metric])]
  }

  /** index.js:199-203 and 211-212 on the node: fetch or create the record,
      then store the new labels and value in it. Its gauge stays the one it
      was created with. */
  function WriteRecord(n: Node, p: Emission): (r: Node)
    ensures r.name == n.name && r.location == n.location
    ensures r.values.Keys == n.values.Keys + {p.valueId}
    ensures forall id :: id in n.values && id != p.valueId ==> r.values[id] == n.values[id]
    ensures r.values[p.valueId].labels == p.labels
    ensures r.values[p.valueId].value == p.metric
    ensures r.values[p.valueId].gauge == (if p.valueId in n.values then n.values[p.valueId].gauge else p.gaugeName)
    ensures r.order == if p.valueId in n.values then n.order else n.order + [p.valueId]
  {
    var fetched := GetOrDefault(n.values, p.valueId, SeriesRecord(p.labels, p.metric, p.gaugeName), (_: SeriesRecord) => true);
    var rec := fetched.0;
    var order := if p.valueId in n.values then n.order else n.order + [p.valueId];
    n.(values := fetched.1[p.valueId := rec.(labels := p.labels, value := p.metric)], order := order)
  }

  lemma WriteRecordKeepsNodeValid(n: Node, gauges: map<string, Gauge>, gauges': map<string, Gauge>, p: Emission)
    requires NodeValid(n, gauges) && Keyed(p)
    requires gauges.Keys <= gauges'.Keys && p.gaugeName in gauges'
    ensures NodeValid(WriteRecord(n, p), gauges')
  {
    var r := WriteRecord(n, p);
    if p.valueId !in n.values {
      assert p.valueId !in n.order;
      forall i, j | 0 <= i < j < |r.order| ensures r.order[i] != r.order[j] {
        if j == |n.order| {
          assert r.order[i] == n.order[i];
          assert n.order[i] in n.order;
        }
      }
    }
  }

  /** index.js:191-212: reconcile one (node, value id) pair with a new
      projection. The series is set under the new labels; the record's
      previous label set is not retracted (see Intended). */
  function Reconcile(st: State, p: Emission): (r: State)
    requires Valid(st) && p.node.id in st.nodes && Keyed(p)
    ensures Valid(r)
    ensures r.gauges.Keys == st.gauges.Keys + {p.gaugeName}
    ensures forall h :: h in st.gauges && h != p.gaugeName ==> r.gauges[h] == st.gauges[h]
    ensures p.gaugeName in st.gauges ==> r.gauges[p.gaugeName].help == st.gauges[p.gaugeName].help
    ensures p.gaugeName !in st.gauges ==> r.gauges[p.gaugeName].help == p.help
    ensures r.gauges[p.gaugeName].series
            == (if p.gaugeName in st.gauges then st.gauges[p.gaugeName].series else map[])[p.labels := p.metric]
    ensures forall g, l :: (g != p.gaugeName || l != p.labels) ==> Series(r.gauges, g, l) == Series(st.gauges, g, l)
    ensures r.nodes.Keys == st.nodes.Keys
    ensures forall k :: k in st.nodes && k != p.node.id ==> r.nodes[k] == st.nodes[k]
    ensures var n := st.nodes[p.node.id];
            var n' := r.nodes[p.node.id];
            && n'.name == n.name && n'.location == n.location
            && n'.values.Keys == n.values.Keys + {p.valueId}
            && (forall id :: id in n.values && id != p.valueId ==> n'.values[id] == n.values[id])
            && n'.values[p.valueId].labels == p.labels
            && n'.values[p.valueId].value == p.metric
            && n'.values[p.valueId].gauge == (if p.valueId in n.values then n.values[p.valueId].gauge else p.gaugeName)
  {
    var node := st.nodes[p.node.id];
    var gauges := WriteGauge(st.gauges, p, FetchRecord(node, p).labels);
    var node' := WriteRecord(node, p);
    WriteRecordKeepsNodeValid(node, st.gauges, gauges, p);
    OtherNodesStayValid(st, p.node.id, gauges);
    st.(gauges := gauges, nodes := st.nodes[p.node.id := node'])
  }

  /** index.js `onValueChanged`. `directory` stands for `zwave.nodes`. An
      event the skip rules reject changes nothing; an event that throws
      changes nothing either. */
  function OnValueChanged(st: State, ev: ValueEvent, directory: map<JsValue, NodeInfo>): (r: Result<State>)
    requires Valid(st)
    ensures r.Ok? ==> Valid(r.value)
    ensures IsExcluded(ev.commandClass) ==> r == Ok(st)
    ensures !Truthy(ev.readable) ==> r == Ok(st)
    ensures Project(ev, directory).Skip? ==> r == Ok(st)
    ensures r.Err? <==> Project(ev, directory).Fail?
    ensures r.Err? ==> r.error == Project(ev, directory).error
    ensures Project(ev, directory).Emit? ==>
              var p := Project(ev, directory).p;
              && r.Ok?
              && p.node.id in r.value.nodes
              && p.valueId in r.value.nodes[p.node.id].values
              && r.value.nodes[p.node.id].values[p.valueId].labels == p.labels
              && r.value.nodes[p.node.id].values[p.valueId].value == p.metric
              && Series(r.value.gauges, p.gaugeName, p.labels) == Some(p.metric)
              && (p.gaugeName in st.gauges ==> r.value.gauges[p.gaugeName].help == st.gauges[p.gaugeName].help)
              && (p.gaugeName !in st.gauges ==> r.value.gauges[p.gaugeName].help == p.help)
              && r.value.gauges.Keys == st.gauges.Keys + {p.gaugeName}
              && r.value.nodes.Keys == st.nodes.Keys + {p.node.id}
              && (forall k :: k in st.nodes && k != p.node.id ==> r.value.nodes[k] == st.nodes[k])
              && r.value.nodes[p.node.id].values.Keys
                 == (if p.node.id in st.nodes then st.nodes[p.node.id].values.Keys else {}) + {p.valueId}
              && r.value.nodes[p.node.id].values[p.valueId].gauge
                 == (if p.node.id in st.nodes && p.valueId in st.nodes[p.node.id].values
                     then st.nodes[p.node.id].values[p.valueId].gauge else p.gaugeName)
  {
    match Project(ev, directory)
    case Skip => Ok(st)
    case Fail(e) => Err(e)
    case Emit(p) => Ok(Reconcile(UpdateNode(st, p.node), p))
  }

  /** What `onValueChanged` as written does to the series: apart from the
      event's own series, every series is as the node update left it. In
      particular the record's previous series stays. */
  lemma OnValueChangedKeepsOtherSeries(st: State, ev: ValueEvent, directory: map<JsValue, NodeInfo>)
    requires Valid(st)
    ensures Project(ev, directory).Emit? ==>
              var p := Project(ev, directory).p;
              forall g, l :: (g != p.gaugeName || l != p.labels) ==>
                Series(OnValueChanged(st, ev, directory).value.gauges, g, l) == Series(UpdateNode(st, p.node).gauges, g, l)
  {
    if Project(ev, directory).Emit? {
      var p := Project(ev, directory).p;
      var st1 := UpdateNode(st, p.node);
      assert p.node.id in st1.nodes && Keyed(p);
      assert OnValueChanged(st, ev, directory) == Ok(Reconcile(st1, p));
    }
  }

  /** What `onValueChanged` as written does to the event's node: its name,
      location and other records are as `updateNode` (index.js:186) left
      them; only the event's record is written. */
  lemma OnValueChangedKeepsNode(st: State, ev: ValueEvent, directory: map<JsValue, NodeInfo>)
    requires Valid(st)
    ensures Project(ev, directory).Emit? ==>
              var p := Project(ev, directory).p;
              var n1 := UpdateNode(st, p.node).nodes[p.node.id];
              var n' := OnValueChanged(st, ev, directory).value.nodes[p.node.id];
              && n'.name == n1.name && n'.location == n1.location
              && n'.values.Keys == n1.values.Keys + {p.valueId}
              && forall id :: id in n1.values && id != p.valueId ==> n'.values[id] == n1.values[id]
  {
    if Project(ev, directory).Emit? {
      var p := Project(ev, directory).p;
      var st1 := UpdateNode(st, p.node);
      assert p.node.id in st1.nodes && Keyed(p);
      assert OnValueChanged(st, ev, directory) == Ok(Reconcile(st1, p));
    }
  }

  // ---------------------------------------------------------------------
  // onNodeRemoved (index.js:83-95)

  /** index.js `onNodeRemoved` as written. `for (const v in n.values)` binds
      `v` to each key, a string, so `v.gauge` is undefined and
      `v.gauge.remove` throws on the first record, before the node is
      deleted. Only a node without records is removed. */
  function OnNodeRemoved(st: State, id: int): (r: Result<State>)
    requires Valid(st)
    ensures id !in st.nodes ==> r == Ok(st)
    ensures id in st.nodes && st.nodes[id].values != map[] ==> r == Err(ValueKeyHasNoGauge)
    ensures r.Err? <==> id in st.nodes && st.nodes[id].values != map[]
    ensures r.Ok? ==>
              && Valid(r.value)
              && r.value.gauges == st.gauges
              && id !in r.value.nodes
              && r.value.nodes.Keys == st.nodes.Keys - {id}
              && forall k :: k in r.value.nodes ==> r.value.nodes[k] == st.nodes[k]
  {
    if id !in st.nodes then Ok(st)
    else if st.nodes[id].values != map[] then Err(ValueKeyHasNoGauge)
    else Ok(st.(nodes := st.nodes - {id}))
  }
}
