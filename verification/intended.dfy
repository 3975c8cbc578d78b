/** The behaviour index.js evidently intends in three places where the code
    says otherwise, each next to a lemma about the code as written.

    1. index.js:205-206 retracts the new `labels` instead of the record's
       previous ones, so an outdated series stays in its gauge.
    2. index.js:109 reads `n.loc`, a property the stored node never has
       (it stores `location`).
    3. index.js:89 iterates the keys of `n.values` instead of its records,
       so removing a node with records throws.

    The common yardstick is NoStaleSeries: every series in every gauge is
    the current series of some record. The corrected handlers keep it; the
    reconciliation as written does not.
 */
module Intended {
  import opened Results
  import opened JsValues
  import opened LabelSets
  import opened Dicts
  import opened Projection
  import opened Engine

  /** Some record of the state lives in gauge `g` under label set `l`. */
  ghost predicate Owns(st: State, g: string, l: LabelSet)
  {
    exists k, id :: k in st.nodes && id in st.nodes[k].values
                    && st.nodes[k].values[id].gauge == g && st.nodes[k].values[id].labels == l
  }

  /** Every series a gauge exposes belongs to a record. */
  ghost predicate NoStaleSeries(st: State)
  {
    forall g, l :: Series(st.gauges, g, l).Some? ==> Owns(st, g, l)
  }

  lemma InitialHasNoStaleSeries()
    ensures NoStaleSeries(Initial)
  {
  }

  // ---------------------------------------------------------------------
  // The relabel loop leaves no stale series

  /** A series the relabel loop touched and that is present afterwards is
      some record's renamed series. */
  lemma {:induction false} RelabelKeepsOnlyRenamed(gauges: map<string, Gauge>, values: map<string, SeriesRecord>, ids: seq<string>,
                                                   name: JsValue, loc: JsValue, g: string, l: LabelSet)
    requires forall id :: id in ids ==> id in values && values[id].gauge in gauges
    requires Distinct(ids)
    requires Touched(values, ids, name, loc, g, l)
    ensures Series(Relabel(gauges, values, ids, name, loc).0, g, l).Some? ==>
              exists id :: id in ids && values[id].gauge == g && Rename(values[id].labels, name, loc) == l
    decreases |ids|
  {
    if Series(Relabel(gauges, values, ids, name, loc).0, g, l).None? {
      return;
    }
    var rec := values[ids[0]];
    var renamed := Renamed(rec, name, loc);
    var gauges1 := SetSeries(RemoveSeries(gauges, rec.gauge, rec.labels), rec.gauge, renamed.labels, rec.value);
    var values1 := values[ids[0] := renamed];
    DistinctTail(ids);
    forall i | i in ids[1..] ensures values1[i] == values[i] && i in ids {
    }
    assert forall i :: i in ids ==> i == ids[0] || i in ids[1..];
    assert Series(gauges1, rec.gauge, rec.labels) == None || rec.labels == renamed.labels;
    if Touched(values1, ids[1..], name, loc, g, l) {
      RelabelKeepsOnlyRenamed(gauges1, values1, ids[1..], name, loc, g, l);
      var id :| id in ids[1..] && values1[id].gauge == g && Rename(values1[id].labels, name, loc) == l;
      assert id in ids;
    } else {
      RelabelFrame(gauges1, values1, ids[1..], name, loc, g, l);
      var id :| id in ids && values[id].gauge == g && (values[id].labels == l || Rename(values[id].labels, name, loc) == l);
      assert id == ids[0];
      assert Rename(rec.labels, name, loc) == l;
    }
  }

  /** index.js `updateNameAndLocation` as written keeps NoStaleSeries. */
  lemma UpdateNameAndLocationNoStale(st: State, key: int, name: JsValue, loc: JsValue)
    requires Valid(st) && key in st.nodes
    ensures NoStaleSeries(st) ==> NoStaleSeries(UpdateNameAndLocation(st, key, name, loc))
  {
    var r := UpdateNameAndLocation(st, key, name, loc);
    var n := st.nodes[key];
    forall g, l | NoStaleSeries(st) && Series(r.gauges, g, l).Some? ensures Owns(r, g, l) {
      if NodeTouches(n, name, loc, g, l) {
        RelabelKeepsOnlyRenamed(st.gauges, n.values, n.order, name, loc, g, l);
        var id :| id in n.order && n.values[id].gauge == g && Rename(n.values[id].labels, name, loc) == l;
        assert r.nodes[key].values[id].gauge == g && r.nodes[key].values[id].labels == l;
      } else {
        assert Series(st.gauges, g, l).Some?;
        var k, id :| k in st.nodes && id in st.nodes[k].values
                     && st.nodes[k].values[id].gauge == g && st.nodes[k].values[id].labels == l;
        assert k != key;
        assert r.nodes[k].values[id] == st.nodes[k].values[id];
      }
    }
  }

  // ---------------------------------------------------------------------
  // Finding 1: the stale series of index.js:205-206

  /** As written: when a record's labels change within the same gauge (an
      enumerated value whose state text changes, say), the record's
      previous series stays in the gauge and no record owns it any more. */
  lemma StaleSeriesRetained(st: State, p: Emission)
    requires Valid(st) && p.node.id in st.nodes && Keyed(p)
    requires p.valueId in st.nodes[p.node.id].values
    requires var rec := st.nodes[p.node.id].values[p.valueId];
             && rec.gauge == p.gaugeName
             && rec.labels != p.labels
             && Series(st.gauges, rec.gauge, rec.labels).Some?
    requires forall k, id :: k in st.nodes && id in st.nodes[k].values && (k != p.node.id || id != p.valueId) ==>
               st.nodes[k].values[id].gauge != p.gaugeName
               || st.nodes[k].values[id].labels != st.nodes[p.node.id].values[p.valueId].labels
    ensures var previous := st.nodes[p.node.id].values[p.valueId].labels;
            && Series(Reconcile(st, p).gauges, p.gaugeName, previous) == Series(st.gauges, p.gaugeName, previous)
            && !Owns(Reconcile(st, p), p.gaugeName, previous)
            && !NoStaleSeries(Reconcile(st, p))
  {
    var r := Reconcile(st, p);
    var previous := st.nodes[p.node.id].values[p.valueId].labels;
    assert Series(r.gauges, p.gaugeName, previous).Some?;
    assert !Owns(r, p.gaugeName, previous) by {
      forall k, id | k in r.nodes && id in r.nodes[k].values && r.nodes[k].values[id].gauge == p.gaugeName
        ensures r.nodes[k].values[id].labels != previous
      {
        if k == p.node.id && id == p.valueId {
          assert r.nodes[k].values[id].labels == p.labels;
        } else {
          assert r.nodes[k].values[id] == st.nodes[k].values[id];
        }
      }
    }
  }

  /** Corrected index.js:191-209 on the gauges: fetch or create the gauge,
      retract the record's previous series `prev` (if there is a record)
      from the gauge it lives in, then set the new series. */
  function RetractAndSet(gauges: map<string, Gauge>, p: Emission, prev: Option<SeriesRecord>): (r: map<string, Gauge>)
    requires prev.Some? ==> prev.value.gauge in gauges
    ensures r.Keys == gauges.Keys + {p.gaugeName}
    ensures forall h :: h in gauges ==> r[h].help == gauges[h].help
    ensures p.gaugeName !in gauges ==> r[p.gaugeName].help == p.help
    ensures Series(r, p.gaugeName, p.labels) == Some(p.metric)
    ensures prev.Some? && (prev.value.gauge != p.gaugeName || prev.value.labels != p.labels) ==>
              Series(r, prev.value.gauge, prev.value.labels) == None
    ensures forall g, l :: Series(r, g, l).Some? ==> (g == p.gaugeName && l == p.labels) || Series(gauges, g, l).Some?
    ensures forall g, l :: (g != p.gaugeName || l != p.labels)
                           && (prev.None? || g != prev.value.gauge || l != prev.value.labels) ==>
                             Series(r, g, l) == Series(gauges, g, l)
  {
    var gauges1 := GetOrDefault(gauges, p.gaugeName, Gauge(p.help, map[]), (_: Gauge) => true).1;
    var gauges2 := if prev.Some? then RemoveSeries(gauges1, prev.value.gauge, prev.value.labels) else gauges1;
    SetSeries(gauges2, p.gaugeName, p.labels, p.metric)
  }

  /** Corrected index.js:199-212 on the node: the record ends up holding the
      new labels, the new value and the gauge the series now lives in. */
  function WriteRecordIntended(n: Node, p: Emission): (r: Node)
    ensures r.name == n.name && r.location == n.location
    ensures r.values.Keys == n.values.Keys + {p.valueId}
    ensures forall id :: id in n.values && id != p.valueId ==> r.values[id] == n.values[id]
    ensures r.values[p.valueId] == SeriesRecord(p.labels, p.metric, p.gaugeName)
    ensures r.order == WriteRecord(n, p).order
  {
    var written := WriteRecord(n, p);
    written.(values := written.values[p.valueId := SeriesRecord(p.labels, p.metric, p.gaugeName)])
  }

  lemma WriteRecordIntendedKeepsNodeValid(n: Node, gauges: map<string, Gauge>, gauges': map<string, Gauge>, p: Emission)
    requires NodeValid(n, gauges) && Keyed(p)
    requires gauges.Keys <= gauges'.Keys && p.gaugeName in gauges'
    ensures NodeValid(WriteRecordIntended(n, p), gauges')
  {
    var w := WriteRecord(n, p);
    var r := WriteRecordIntended(n, p);
    WriteRecordKeepsNodeValid(n, gauges, gauges', p);
    assert r.order == w.order && r.values.Keys == w.values.Keys;
    forall id | id in r.values
      ensures IdLabelled(id, r.values[id].labels) && r.values[id].gauge in gauges'
    {
      if id != p.valueId {
        assert r.values[id] == w.values[id];
      }
    }
  }

  /** Corrected index.js:191-212: after the event the record and the gauge
      agree, and the record's previous series is gone. */
  function ReconcileIntended(st: State, p: Emission): (r: State)
    requires Valid(st) && p.node.id in st.nodes && Keyed(p)
    ensures Valid(r)
    ensures r.gauges.Keys == st.gauges.Keys + {p.gaugeName}
    ensures forall h :: h in st.gauges ==> r.gauges[h].help == st.gauges[h].help
    ensures p.gaugeName !in st.gauges ==> r.gauges[p.gaugeName].help == p.help
    ensures Series(r.gauges, p.gaugeName, p.labels) == Some(p.metric)
    ensures r.nodes.Keys == st.nodes.Keys
    ensures forall k :: k in st.nodes && k != p.node.id ==> r.nodes[k] == st.nodes[k]
    ensures p.valueId in r.nodes[p.node.id].values
    ensures r.nodes[p.node.id].values[p.valueId] == SeriesRecord(p.labels, p.metric, p.gaugeName)
    ensures var n := st.nodes[p.node.id];
            var n' := r.nodes[p.node.id];
            && n'.name == n.name && n'.location == n.location
            && n'.values.Keys == n.values.Keys + {p.valueId}
            && forall id :: id in n.values && id != p.valueId ==> n'.values[id] == n.values[id]
    ensures p.valueId in st.nodes[p.node.id].values ==>
              var prev := st.nodes[p.node.id].values[p.valueId];
              (prev.gauge != p.gaugeName || prev.labels != p.labels) ==> Series(r.gauges, prev.gauge, prev.labels) == None
    ensures forall g, l :: (g != p.gaugeName || l != p.labels) && !Previously(st, p, g, l) ==>
              Series(r.gauges, g, l) == Series(st.gauges, g, l)
    ensures NoStaleSeries(st) ==> NoStaleSeries(r)
  {
    var node := st.nodes[p.node.id];
    var prev := if p.valueId in node.values then Some(node.values[p.valueId]) else None;
    var gauges := RetractAndSet(st.gauges, p, prev);
    var node' := WriteRecordIntended(node, p);
    WriteRecordIntendedKeepsNodeValid(node, st.gauges, gauges, p);
    OtherNodesStayValid(st, p.node.id, gauges);
    var r := st.(gauges := gauges, nodes := st.nodes[p.node.id := node']);
    ReconcileIntendedNoStale(st, p, r);
    r
  }

  /** The record `p` is written to lived in gauge `g` under label set `l`
      before the event. */
  predicate Previously(st: State, p: Emission, g: string, l: LabelSet)
  {
    && p.node.id in st.nodes
    && p.valueId in st.nodes[p.node.id].values
    && st.nodes[p.node.id].values[p.valueId].gauge == g
    && st.nodes[p.node.id].values[p.valueId].labels == l
  }

  lemma ReconcileIntendedNoStale(st: State, p: Emission, r: State)
    requires Valid(st) && p.node.id in st.nodes && Keyed(p)
    requires r.nodes.Keys == st.nodes.Keys
    requires forall k :: k in st.nodes && k != p.node.id ==> r.nodes[k] == st.nodes[k]
    requires r.nodes[p.node.id].values.Keys == st.nodes[p.node.id].values.Keys + {p.valueId}
    requires forall id :: id in st.nodes[p.node.id].values && id != p.valueId ==>
               r.nodes[p.node.id].values[id] == st.nodes[p.node.id].values[id]
    requires r.nodes[p.node.id].values[p.valueId] == SeriesRecord(p.labels, p.metric, p.gaugeName)
    requires Series(r.gauges, p.gaugeName, p.labels) == Some(p.metric)
    requires p.valueId in st.nodes[p.node.id].values ==>
               var prev := st.nodes[p.node.id].values[p.valueId];
               Series(r.gauges, prev.gauge, prev.labels).Some? ==> prev.gauge == p.gaugeName && prev.labels == p.labels
    requires forall g, l :: Series(r.gauges, g, l).Some? ==>
               (g == p.gaugeName && l == p.labels) || Series(st.gauges, g, l).Some?
    ensures NoStaleSeries(st) ==> NoStaleSeries(r)
  {
    if NoStaleSeries(st) {
      forall g, l | Series(r.gauges, g, l).Some? ensures Owns(r, g, l) {
        if g == p.gaugeName && l == p.labels {
          assert r.nodes[p.node.id].values[p.valueId].gauge == g;
        } else {
          var k, id :| k in st.nodes && id in st.nodes[k].values
                       && st.nodes[k].values[id].gauge == g && st.nodes[k].values[id].labels == l;
          assert k != p.node.id || id != p.valueId;
          assert r.nodes[k].values[id] == st.nodes[k].values[id];
        }
      }
    }
  }

  /** Corrected index.js `onValueChanged`: the corrected node update and
      reconciliation after the same projection. */
  function OnValueChangedIntended(st: State, ev: ValueEvent, directory: map<JsValue, NodeInfo>): (r: Result<State>)
    requires Valid(st)
    ensures r.Ok? ==> Valid(r.value)
    ensures Project(ev, directory).Skip? ==> r == Ok(st)
    ensures r.Err? <==> Project(ev, directory).Fail?
    ensures r.Err? ==> r.error == Project(ev, directory).error
    ensures Project(ev, directory).Emit? ==>
              var p := Project(ev, directory).p;
              && r.Ok?
              && p.node.id in r.value.nodes
              && p.valueId in r.value.nodes[p.node.id].values
              && r.value.nodes[p.node.id].values[p.valueId] == SeriesRecord(p.labels, p.metric, p.gaugeName)
              && Series(r.value.gauges, p.gaugeName, p.labels) == Some(p.metric)
              && r.value.nodes[p.node.id].name == p.node.name
              && r.value.nodes[p.node.id].location == p.node.loc
              && r.value.gauges.Keys == st.gauges.Keys + {p.gaugeName}
              && r.value.nodes.Keys == st.nodes.Keys + {p.node.id}
              && (forall k :: k in st.nodes && k != p.node.id ==> r.value.nodes[k] == st.nodes[k])
    ensures Project(ev, directory).Emit? ==>
              var p := Project(ev, directory).p;
              var st1 := UpdateNodeIntended(st, p.node);
              forall g, l :: Previously(st1, p, g, l) && (g != p.gaugeName || l != p.labels) ==>
                Series(r.value.gauges, g, l) == None
    ensures Project(ev, directory).Emit? ==>
              var p := Project(ev, directory).p;
              var st1 := UpdateNodeIntended(st, p.node);
              forall g, l :: (g != p.gaugeName || l != p.labels) && !Previously(st1, p, g, l) ==>
                Series(r.value.gauges, g, l) == Series(st1.gauges, g, l)
    ensures NoStaleSeries(st) && r.Ok? ==> NoStaleSeries(r.value)
  {
    match Project(ev, directory)
    case Skip => Ok(st)
    case Fail(e) => Err(e)
    case Emit(p) =>
      var st1 := UpdateNodeIntended(st, p.node);
      Ok(ReconcileIntended(st1, p))
  }

  /** What the corrected `onValueChanged` does to the event's node: its
      name, location and other records are as the corrected node update left
      them; only the event's record is written. */
  lemma OnValueChangedIntendedKeepsNode(st: State, ev: ValueEvent, directory: map<JsValue, NodeInfo>)
    requires Valid(st)
    ensures Project(ev, directory).Emit? ==>
              var p := Project(ev, directory).p;
              var n1 := UpdateNodeIntended(st, p.node).nodes[p.node.id];
              var n' := OnValueChangedIntended(st, ev, directory).value.nodes[p.node.id];
              && n'.name == n1.name && n'.location == n1.location
              && n'.values.Keys == n1.values.Keys + {p.valueId}
              && forall id :: id in n1.values && id != p.valueId ==> n'.values[id] == n1.values[id]
  {
    if Project(ev, directory).Emit? {
      var p := Project(ev, directory).p;
      var st1 := UpdateNodeIntended(st, p.node);
      assert p.node.id in st1.nodes && Keyed(p);
      assert OnValueChangedIntended(st, ev, directory) == Ok(ReconcileIntended(st1, p));
    }
  }

  // ---------------------------------------------------------------------
  // Finding 2: the `n.loc` guard of index.js:109

  /** As written: a status that clears a node's location (same name,
      location undefined) changes nothing, so the stored location and every
      label keep the old location. */
  lemma ClearedLocationIgnored(st: State, info: NodeInfo)
    requires Valid(st) && info.id in st.nodes
    requires st.nodes[info.id].name == info.name
    requires st.nodes[info.id].location != Undefined && info.loc == Undefined
    ensures UpdateNode(st, info) == st
    ensures UpdateNode(st, info).nodes[info.id].location != info.loc
  {
  }

  /** As written the guard also fires for a status that changes nothing,
      whenever its `loc` is anything other than undefined, null included. */
  lemma UnchangedStatusRelabels(n: Node, info: NodeInfo)
    requires n.name == info.name && n.location == info.loc && info.loc != Undefined
    ensures StatusRelabels(n, info)
  {
  }

  /** The guard index.js:109 evidently means: name or location changed. */
  predicate StatusRelabelsIntended(n: Node, info: NodeInfo)
  {
    n.name != info.name || n.location != info.loc
  }

  /** Corrected index.js `updateNode`: after a status the stored node has
      the status's name and location, and a status that changes neither
      changes nothing. */
  function UpdateNodeIntended(st: State, info: NodeInfo): (r: State)
    requires Valid(st)
    ensures Valid(r)
    ensures r.gauges.Keys == st.gauges.Keys
    ensures forall g :: g in st.gauges ==> r.gauges[g].help == st.gauges[g].help
    ensures r.nodes.Keys == st.nodes.Keys + {info.id}
    ensures forall k :: k in st.nodes && k != info.id ==> r.nodes[k] == st.nodes[k]
    ensures r.nodes[info.id].name == info.name && r.nodes[info.id].location == info.loc
    ensures info.id !in st.nodes ==>
              r.gauges == st.gauges && r.nodes[info.id] == Node(info.name, info.loc, map[], [])
    ensures info.id in st.nodes && !StatusRelabelsIntended(st.nodes[info.id], info) ==> r == st
    ensures info.id in st.nodes && StatusRelabelsIntended(st.nodes[info.id], info) ==>
              r == UpdateNameAndLocation(st, info.id, info.name, info.loc)
    ensures NoStaleSeries(st) ==> NoStaleSeries(r)
  {
    var fetched := GetOrDefault(st.nodes, info.id, Node(info.name, info.loc, map[], []), (_: Node) => true);
    var st1 := st.(nodes := fetched.1);
    assert Valid(st1);
    assert NoStaleSeries(st) ==> NoStaleSeries(st1) by {
      if NoStaleSeries(st) {
        forall g, l | Series(st1.gauges, g, l).Some? ensures Owns(st1, g, l) {
          var k, id :| k in st.nodes && id in st.nodes[k].values
                       && st.nodes[k].values[id].gauge == g && st.nodes[k].values[id].labels == l;
          assert st1.nodes[k] == st.nodes[k];
        }
      }
    }
    if StatusRelabelsIntended(fetched.0, info) then
      UpdateNameAndLocationNoStale(st1, info.id, info.name, info.loc);
      UpdateNameAndLocation(st1, info.id, info.name, info.loc)
    else st1
  }

  // ---------------------------------------------------------------------
  // Finding 3: the key loop of index.js:89-90

  /** As written: removing a node that has at least one record throws and
      leaves the state as it was. */
  lemma RemovalOfNodeWithRecordsFails(st: State, id: int)
    requires Valid(st) && id in st.nodes && st.nodes[id].values != map[]
    ensures OnNodeRemoved(st, id) == Err(ValueKeyHasNoGauge)
  {
  }

  /** Some record among `ids` lives in gauge `g` under label set `l`. */
  ghost predicate Retracted(values: map<string, SeriesRecord>, ids: seq<string>, g: string, l: LabelSet)
    requires forall id :: id in ids ==> id in values
  {
    exists id :: id in ids && values[id].gauge == g && values[id].labels == l
  }

  /** `v.gauge.remove(v.labels)` for the records `ids`, in order. */
  function RetractAll(gauges: map<string, Gauge>, values: map<string, SeriesRecord>, ids: seq<string>): (r: map<string, Gauge>)
    requires forall id :: id in ids ==> id in values && values[id].gauge in gauges
    ensures r.Keys == gauges.Keys
    ensures forall g :: g in gauges ==> r[g].help == gauges[g].help
    ensures forall g, l :: Series(r, g, l).Some? ==> Series(r, g, l) == Series(gauges, g, l)
    ensures forall id :: id in ids ==> Series(r, values[id].gauge, values[id].labels) == None
    ensures forall g, l :: !Retracted(values, ids, g, l) ==> Series(r, g, l) == Series(gauges, g, l)
    decreases |ids|
  {
    if ids == [] then gauges
    else
      var rec := values[ids[0]];
      RetractAll(RemoveSeries(gauges, rec.gauge, rec.labels), values, ids[1..])
  }

  /** Corrected index.js `onNodeRemoved`: retract every record's series,
      then forget the node. Never throws. */
  function OnNodeRemovedIntended(st: State, id: int): (r: State)
    requires Valid(st)
    ensures Valid(r)
    ensures id !in st.nodes ==> r == st
    ensures id !in r.nodes
    ensures r.nodes.Keys == st.nodes.Keys - {id}
    ensures forall k :: k in r.nodes ==> r.nodes[k] == st.nodes[k]
    ensures id in st.nodes ==>
              forall v :: v in st.nodes[id].values ==>
                Series(r.gauges, st.nodes[id].values[v].gauge, st.nodes[id].values[v].labels) == None
    ensures id in st.nodes ==>
              forall g, l :: !Retracted(st.nodes[id].values, st.nodes[id].order, g, l) ==>
                Series(r.gauges, g, l) == Series(st.gauges, g, l)
    ensures NoStaleSeries(st) ==> NoStaleSeries(r)
  {
    if id !in st.nodes then st
    else
      var n := st.nodes[id];
      var r := st.(gauges := RetractAll(st.gauges, n.values, n.order), nodes := st.nodes - {id});
      assert forall v :: v in n.values ==> v in n.order;
      RemovalKeepsValid(st, id, r);
      RemovalLeavesNoStale(st, id, r);
      r
  }

  lemma RemovalKeepsValid(st: State, id: int, r: State)
    requires Valid(st) && id in st.nodes
    requires r.gauges.Keys == st.gauges.Keys && r.nodes == st.nodes - {id}
    ensures Valid(r)
  {
    forall k | k in r.nodes ensures NodeValid(r.nodes[k], r.gauges) {
      NodeValidMoreGauges(st.nodes[k], st.gauges, r.gauges);
    }
  }

  lemma RemovalLeavesNoStale(st: State, id: int, r: State)
    requires Valid(st) && id in st.nodes
    requires r.nodes == st.nodes - {id}
    requires forall g, l :: Series(r.gauges, g, l).Some? ==> Series(r.gauges, g, l) == Series(st.gauges, g, l)
    requires forall g, l :: Retracted(st.nodes[id].values, st.nodes[id].order, g, l) ==> Series(r.gauges, g, l) == None
    ensures NoStaleSeries(st) ==> NoStaleSeries(r)
  {
    if NoStaleSeries(st) {
      var n := st.nodes[id];
      forall g, l | Series(r.gauges, g, l).Some? ensures Owns(r, g, l) {
        var k, v :| k in st.nodes && v in st.nodes[k].values
                    && st.nodes[k].values[v].gauge == g && st.nodes[k].values[v].labels == l;
        assert k == id ==> v in n.order;
        assert k != id;
        assert r.nodes[k] == st.nodes[k];
      }
    }
  }
}
