/** The pure part of index.js `onValueChanged` (lines 116-184): decide
    whether a value event becomes a metric, and if so compute the gauge name,
    help text, label set and metric value. Nothing here changes state.
 */
module Projection {
  import opened Results
  import opened JsValues
  import opened Sanitizer
  import opened LabelSets

  /** One entry of `value.states`: a possible value and its text. */
  datatype StateEntry = StateEntry(value: JsValue, text: JsValue)

  /** The fields of a `valueChanged` event that the plugin reads. The value
      id is a string; `states` is `None` when the event has no states array. */
  datatype ValueEvent = ValueEvent(
    nodeId: JsValue,
    commandClass: JsValue,
    commandClassName: JsValue,
    property: JsValue,
    propertyName: JsValue,
    propertyKey: JsValue,
    propertyKeyName: JsValue,
    labelText: JsValue,   // `value.label`
    endpoint: JsValue,
    id: string,
    readable: JsValue,
    value: JsValue,
    list: JsValue,
    states: Option<seq<StateEntry>>)

  /** What `zwave.nodes.get(...)` answers about a node: its numeric id, its
      display name and its location (`loc`). */
  datatype NodeInfo = NodeInfo(id: int, name: JsValue, loc: JsValue)

  /** The `typeof` classification of the (resolved) value. */
  datatype Reading = Number(n: int) | Flag(b: bool) | Unsupported

  /** Everything the state-changing part of the handler needs. */
  datatype Emission = Emission(
    node: NodeInfo,
    valueId: string,
    gaugeName: string,
    help: string,
    labels: LabelSet,
    metric: int)

  datatype Projected = Skip | Fail(error: TypeError) | Emit(p: Emission)

  /** Configuration, Manufacturer Specific, Version and Multi Channel. */
  const ExcludedCommandClasses: set<int> := {0x70, 0x72, 0x86, 0x60}

  /** The `switch` of index.js:120-126 compares with `===`, so only the
      numbers themselves are excluded. */
  predicate IsExcluded(commandClass: JsValue)
  {
    commandClass.Num? && commandClass.n in ExcludedCommandClasses
  }

  /** `states[key]` on the state table: a missing key reads as undefined. */
  function Lookup(table: map<string, JsValue>, key: string): JsValue
  {
    if key in table then table[key] else Undefined
  }

  /** index.js:135-137: `states[s.value] = s.text` for each entry in order.
      The key is the entry's value converted to a property key. */
  function BuildStates(entries: seq<StateEntry>): (table: map<string, JsValue>)
    ensures forall i :: 0 <= i < |entries| ==> JsString(entries[i].value) in table
    ensures forall k :: k in table ==> exists i :: 0 <= i < |entries| && JsString(entries[i].value) == k
    decreases |entries|
  {
    if entries == [] then map[]
    else
      var last := entries[|entries| - 1];
      BuildStates(entries[..|entries| - 1])[JsString(last.value) := last.text]
  }

  /** The state table a later entry wins: the text stored under a key is
      that of the last entry whose value converts to the key. */
  lemma {:induction false} StatesLastWins(entries: seq<StateEntry>, i: int)
    requires 0 <= i < |entries|
    requires forall j :: i < j < |entries| ==> JsString(entries[j].value) != JsString(entries[i].value)
    ensures Lookup(BuildStates(entries), JsString(entries[i].value)) == entries[i].text
    decreases |entries|
  {
    if i < |entries| - 1 {
      var prefix := entries[..|entries| - 1];
      assert prefix[i] == entries[i];
      forall j | i < j < |prefix| ensures JsString(prefix[j].value) != JsString(prefix[i].value) {
        assert prefix[j] == entries[j];
      }
      StatesLastWins(prefix, i);
    }
  }

  /** index.js:133-138: the state table, empty unless `value.list` is
      truthy; iterating a missing states array throws. */
  function StateTable(ev: ValueEvent): (r: Result<map<string, JsValue>>)
    ensures r.Err? <==> Truthy(ev.list) && ev.states.None?
    ensures r.Err? ==> r.error == StatesNotIterable
    ensures !Truthy(ev.list) ==> r == Ok(map[])
    ensures Truthy(ev.list) && ev.states.Some? ==> r == Ok(BuildStates(ev.states.value))
  {
    if Truthy(ev.list) then
      match ev.states
      case None => Err(StatesNotIterable)
      case Some(entries) => Ok(BuildStates(entries))
    else Ok(map[])
  }

  /** index.js:140-143: an undefined value reads as 0 when state 0 is
      "idle". `states[0]` looks up the property key "0". */
  function ResolveValue(v: JsValue, table: map<string, JsValue>): (r: JsValue)
    ensures v != Undefined ==> r == v
    ensures v == Undefined ==> (r == Num(0) <==> Lookup(table, JsString(Num(0))) == Str("idle"))
    ensures v == Undefined && r != Num(0) ==> r == Undefined
  {
    if v == Undefined && Lookup(table, "0") == Str("idle") then Num(0) else v
  }

  /** index.js:146-157: the `typeof` switch. */
  function Classify(v: JsValue): (r: Reading)
    ensures r.Number? <==> v.Num?
    ensures r.Flag? <==> v.Bool?
    ensures r.Number? ==> r.n == v.n
    ensures r.Flag? ==> r.b == v.b
  {
    match v
    case Num(n) => Number(n)
    case Bool(b) => Flag(b)
    case _ => Unsupported
  }

  /** The number written to the gauge: the number itself, or 1/0 for a
      boolean. */
  function MetricValue(r: Reading): (m: int)
    requires !r.Unsupported?
    ensures r.Number? ==> m == r.n
    ensures r.Flag? ==> (m == 1 <==> r.b) && (m == 0 <==> !r.b)
  {
    match r
    case Number(n) => n
    case Flag(b) => if b then 1 else 0
  }

  /** The `_<propertyKey>` part of the gauge name, empty without a
      property key. */
  function KeySuffix(ev: ValueEvent): string
  {
    if IsDefined(ev.propertyKey) then "_" + Sanitize(JsString(ev.propertyKey)) else ""
  }

  /** index.js:161 and 177: `zwave_<class>_<property>`, then
      `_<propertyKey>` when the event has a property key. Throws when the
      command class name or the property is nullish. */
  function GaugeName(ev: ValueEvent): (r: Result<string>)
    ensures r.Ok? <==> IsDefined(ev.commandClassName) && IsDefined(ev.property)
    ensures r.Err? ==> r.error == NullishToString
    ensures r.Ok? ==> r.value == "zwave_" + Sanitize(JsString(ev.commandClassName))
                                 + "_" + Sanitize(JsString(ev.property)) + KeySuffix(ev)
  {
    match ZwaveLabel(ev.commandClassName)
    case Err(e) => Err(e)
    case Ok(cc) =>
      match ZwaveLabel(ev.property)
      case Err(e) => Err(e)
      case Ok(prop) =>
        var base := "zwave_" + cc + "_" + prop;
        if IsDefined(ev.propertyKey) then Ok(base + "_" + ZwaveLabel(ev.propertyKey).value) else Ok(base)
  }

  lemma MetricNameShape(cc: string, prop: string, suffix: string)
    requires IsLabel(cc) && IsLabel(prop) && IsLabel(suffix)
    ensures var name := "zwave_" + cc + "_" + prop + suffix;
            |name| >= 7 && name[..6] == "zwave_" && IsLabel(name)
  {
    assert IsLabel("zwave_");
    assert IsLabel("_");
    LabelConcat("zwave_", cc);
    LabelConcat("zwave_" + cc, "_");
    LabelConcat("zwave_" + cc + "_", prop);
    LabelConcat("zwave_" + cc + "_" + prop, suffix);
  }

  /** Every derived gauge name starts with `zwave_` and consists of
      `[a-z0-9_]` only, so it is a valid Prometheus metric name. */
  lemma GaugeNameIsMetricName(ev: ValueEvent)
    requires GaugeName(ev).Ok?
    ensures |GaugeName(ev).value| >= 7 && GaugeName(ev).value[..6] == "zwave_"
    ensures IsLabel(GaugeName(ev).value)
  {
    var suffix := KeySuffix(ev);
    assert IsLabel(suffix) by {
      if IsDefined(ev.propertyKey) {
        assert IsLabel("_");
        LabelConcat("_", Sanitize(JsString(ev.propertyKey)));
      }
    }
    MetricNameShape(Sanitize(JsString(ev.commandClassName)), Sanitize(JsString(ev.property)), suffix);
  }

  /** index.js:162 and 178. The help text is only handed to the gauge
      constructor. */
  function HelpText(ev: ValueEvent): string
  {
    var base := "Zwave, " + JsString(ev.commandClassName) + ", " + JsString(ev.propertyName);
    if IsDefined(ev.propertyKey) then base + ", " + JsString(ev.propertyKeyName) else base
  }

  /** The label names every event sets, defined or not. */
  const FixedLabelKeys: set<LabelName> :=
    {NodeIdLabel, NameLabel, LocationLabel, CommandClassLabel, PropertyLabel, LabelLabel, EndpointLabel, IdLabel}

  /** index.js:164-184: the label set of an event, with `propertyKey` when
      the event has one and `state` when the state table names the value. */
  function BuildLabels(ev: ValueEvent, node: NodeInfo, table: map<string, JsValue>, v: JsValue): (r: LabelSet)
    ensures forall k :: k in FixedLabelKeys ==> k in r
    ensures forall k :: k in r ==> k in FixedLabelKeys || k == PropertyKeyLabel || k == StateLabel
    ensures PropertyKeyLabel in r <==> IsDefined(ev.propertyKey)
    ensures StateLabel in r <==> IsDefined(Lookup(table, JsString(v)))
    ensures IdLabel in r && NameLabel in r && LocationLabel in r && NodeIdLabel in r && PropertyLabel in r
    ensures r[IdLabel] == Str(ev.id)
    ensures r[NameLabel] == node.name && r[LocationLabel] == node.loc
    ensures r[NodeIdLabel] == ev.nodeId && r[PropertyLabel] == ev.property
    ensures r[CommandClassLabel] == ev.commandClassName && r[LabelLabel] == ev.labelText
    ensures r[EndpointLabel] == ev.endpoint
    ensures PropertyKeyLabel in r ==> r[PropertyKeyLabel] == ev.propertyKey
    ensures StateLabel in r ==> r[StateLabel] == Lookup(table, JsString(v))
  {
    var base := map[
      NodeIdLabel := ev.nodeId,
      NameLabel := node.name,
      LocationLabel := node.loc,
      CommandClassLabel := ev.commandClassName,
      PropertyLabel := ev.property,
      LabelLabel := ev.labelText,
      EndpointLabel := ev.endpoint,
      IdLabel := Str(ev.id)];
    var withKey := if IsDefined(ev.propertyKey) then base[PropertyKeyLabel := ev.propertyKey] else base;
    var state := Lookup(table, JsString(v));
    if IsDefined(state) then withKey[StateLabel := state] else withKey
  }

  /** index.js:159-184 for an event that passed the skip rules: derive the
      gauge name (which throws when the command class or property is
      nullish), look the node up, and build the projection. */
  function Derive(ev: ValueEvent, directory: map<JsValue, NodeInfo>, table: map<string, JsValue>, v: JsValue): (r: Projected)
    requires !Classify(v).Unsupported?
    ensures !r.Skip?
    ensures r.Emit? <==> IsDefined(ev.commandClassName) && IsDefined(ev.property) && ev.nodeId in directory
    ensures r.Emit? ==>
              && r.p.node == directory[ev.nodeId]
              && r.p.valueId == ev.id
              && r.p.gaugeName == GaugeName(ev).value
              && r.p.metric == MetricValue(Classify(v))
              && r.p.labels == BuildLabels(ev, directory[ev.nodeId], table, v)
              && r.p.help == HelpText(ev)
              && IdLabel in r.p.labels && r.p.labels[IdLabel] == Str(ev.id)
              && (StateLabel in r.p.labels <==> IsDefined(Lookup(table, JsString(v))))
  {
    match GaugeName(ev)
    case Err(e) => Fail(e)
    case Ok(name) =>
      if ev.nodeId !in directory then Fail(UnknownNode)
      else
        var node := directory[ev.nodeId];
        Emit(Emission(node, ev.id, name, HelpText(ev), BuildLabels(ev, node, table, v), MetricValue(Classify(v))))
  }

  /** index.js:116-184 up to the state changes. `directory` stands for
      `zwave.nodes`, looked up by the event's node id. */
  function Project(ev: ValueEvent, directory: map<JsValue, NodeInfo>): (r: Projected)
    ensures IsExcluded(ev.commandClass) ==> r == Skip
    ensures !Truthy(ev.readable) ==> r == Skip
    ensures !IsExcluded(ev.commandClass) && Truthy(ev.readable) && StateTable(ev).Err? ==> r == Fail(StatesNotIterable)
    ensures StateTable(ev).Ok? && Classify(ResolveValue(ev.value, StateTable(ev).value)).Unsupported? ==> r == Skip
    ensures r.Emit? <==>
              && !IsExcluded(ev.commandClass)
              && Truthy(ev.readable)
              && StateTable(ev).Ok?
              && !Classify(ResolveValue(ev.value, StateTable(ev).value)).Unsupported?
              && IsDefined(ev.commandClassName) && IsDefined(ev.property)
              && ev.nodeId in directory
    ensures !IsExcluded(ev.commandClass) && Truthy(ev.readable) && StateTable(ev).Ok?
            && !Classify(ResolveValue(ev.value, StateTable(ev).value)).Unsupported? ==>
              && (!(IsDefined(ev.commandClassName) && IsDefined(ev.property)) ==> r == Fail(NullishToString))
              && (IsDefined(ev.commandClassName) && IsDefined(ev.property) && ev.nodeId !in directory ==> r == Fail(UnknownNode))
    ensures r.Emit? ==>
              && r.p.node == directory[ev.nodeId]
              && r.p.valueId == ev.id
              && r.p.gaugeName == GaugeName(ev).value
              && IdLabel in r.p.labels && r.p.labels[IdLabel] == Str(ev.id)
    ensures r.Emit? && ev.value.Num? ==> r.p.metric == ev.value.n
    ensures r.Emit? && ev.value == Bool(true) ==> r.p.metric == 1
    ensures r.Emit? && ev.value == Bool(false) ==> r.p.metric == 0
    ensures r.Emit? && ev.value == Undefined ==>
              r.p.metric == 0 && Lookup(StateTable(ev).value, "0") == Str("idle")
    ensures r.Emit? ==>
              var v := ResolveValue(ev.value, StateTable(ev).value);
              && r.p.labels == BuildLabels(ev, directory[ev.nodeId], StateTable(ev).value, v)
              && r.p.help == HelpText(ev)
              && (StateLabel in r.p.labels <==> IsDefined(Lookup(StateTable(ev).value, JsString(v))))
  {
    if IsExcluded(ev.commandClass) then Skip
    else if !Truthy(ev.readable) then Skip
    else
      match StateTable(ev)
      case Err(e) => Fail(e)
      case Ok(table) =>
        var v := ResolveValue(ev.value, table);
        if Classify(v).Unsupported? then Skip else Derive(ev, directory, table, v)
  }
}
