/** The gateway's shared state: the function, node and warm-state
    registries, the metrics log, and the constants the scheduler uses. */
module GatewayState {
  import opened Basics
  import opened PyDict
  import opened Records

  /** A node whose RAM usage is at or above this percentage is not chosen. */
  const RAM_THRESHOLD: real := 90.0

  /** Prefix of the name of every standing (warmed) container. */
  const CONTAINER_PREFIX: string := "faas-scheduler--"

  /** A value in a node's connection dict (`host`, `port`, `username`, `password`). */
  datatype FieldValue = Str(text: string) | Int(number: int)

  /** A node descriptor: a dict of connection parameters. */
  type Fields = Dict<string, FieldValue>

  /** A function descriptor: the image to run and its command. */
  datatype FunctionInfo = FunctionInfo(image: string, command: string)

  /** `function_state_registry`: function name -> node name -> tag. */
  type WarmTable = Dict<string, Dict<string, string>>

  ghost predicate WarmTableValid(t: WarmTable) {
    t.Valid() && forall f :: f in t.entries ==> t.entries[f].Valid()
  }

  /** The tag recorded for the pair `(f, n)`; `None` is cold. */
  function Tag(t: WarmTable, f: string, n: string): Option<string> {
    if f in t.entries && n in t.entries[f].entries then Some(t.entries[f].entries[n]) else None
  }

  class State {
    var functionRegistry: Dict<string, FunctionInfo>
    var nodeRegistry: Dict<string, Fields>
    var functionStateRegistry: WarmTable
    var metricsLog: seq<Record>

    /** Every dict is well formed, and the warm-state store names only
        registered functions and registered nodes. */
    ghost predicate Valid()
      reads this
    {
      && functionRegistry.Valid()
      && nodeRegistry.Valid()
      && WarmTableValid(functionStateRegistry)
      && (forall f :: f in functionStateRegistry.entries ==> f in functionRegistry.entries)
      && (forall f, n :: f in functionStateRegistry.entries && n in functionStateRegistry.entries[f].entries ==>
            n in nodeRegistry.entries)
    }

    /** The state after the given registrations: nothing is warm yet and
        nothing has been logged. */
    constructor (functions: Dict<string, FunctionInfo>, nodes: Dict<string, Fields>)
      requires functions.Valid() && nodes.Valid()
      ensures Valid()
      ensures functionRegistry == functions && nodeRegistry == nodes
      ensures functionStateRegistry == Empty() && metricsLog == []
    {
      functionRegistry := functions;
      nodeRegistry := nodes;
      functionStateRegistry := Empty();
      metricsLog := [];
    }
  }
}
