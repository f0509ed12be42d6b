/** The load values reported by a node and the per-invocation metrics
    record (`metric_entry` / `metric_to_write` dicts) that the gateway
    assembles and appends to its metrics log. */
module Records {
  import opened Basics

  /** A CPU or RAM usage percentage. `Infinite` stands for the
      `float('inf')` that marks a missing reading as maximally loaded. */
  datatype Load = Finite(percent: real) | Infinite

  /** Python's `<` on the floats that `Load` stands for. */
  predicate LoadLess(a: Load, b: Load) {
    match (a, b)
    case (Finite(x), Finite(y)) => x < y
    case (Finite(_), Infinite) => true
    case (Infinite, _) => false
  }

  /** `LoadLess` is a strict total order. */
  lemma LoadLessOrder()
    ensures forall a: Load :: !LoadLess(a, a)
    ensures forall a: Load, b: Load, c: Load :: LoadLess(a, b) && LoadLess(b, c) ==> LoadLess(a, c)
    ensures forall a: Load, b: Load :: !LoadLess(a, b) && !LoadLess(b, a) ==> a == b
  {
  }

  /** Nothing is more loaded than the missing-reading sentinel. */
  lemma InfiniteIsWorst(a: Load)
    ensures !LoadLess(Infinite, a)
    ensures a != Infinite ==> LoadLess(a, Infinite)
  {
  }

  /** The parsed result of one metrics probe: `{"cpu_usage": …, "ram_usage": …}`. */
  datatype Metrics = Metrics(cpu: Load, ram: Load)

  /** A usage cell of a record: a reading, or a placeholder text such as `"---"`. */
  datatype Usage = Reading(load: Load) | Placeholder(text: string)

  /** One metrics record. The keys "Function", "Node", "CPU Usage %",
      "RAM Usage %" are always present; "Execution Mode" and
      "Execution Time (s)" may not be filled in yet. */
  datatype Record = Record(
    functionName: string,
    nodeName: string,
    cpu: Usage,
    ram: Usage,
    mode: Option<string>,
    time: Option<real>)
}
