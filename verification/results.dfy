/** Outcome types shared by the model.

    The plugin never returns an error value: the few failures it has are
    JavaScript TypeErrors thrown out of an event handler before the handler
    has changed anything. The model returns them as `Err` and leaves the
    state as it was.
 */
module Results {

  datatype Option<+T> = None | Some(value: T)

  /** The TypeErrors the handlers can throw. */
  datatype TypeError =
    | NullishToString      // `toString()` called on undefined or null inside zwaveLabel
    | StatesNotIterable    // `for (const s of value.states)` with no states array
    | UnknownNode          // `z2mNode.name` when the controller does not know the node
    | ValueKeyHasNoGauge   // `v.gauge.remove` where `v` is a key string (onNodeRemoved)

  datatype Result<+T> = Ok(value: T) | Err(error: TypeError)
}
