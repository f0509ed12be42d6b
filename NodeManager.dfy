/** Per-node operations: probing a node's load, and the two warming
    transitions of the warm-state store. The remote shell is not modelled:
    a probe is given as the reply the node sends, and a warming command as
    whether it succeeded. */
module NodeManager {
  import opened Basics
  import opened PyDict
  import opened Records
  import opened Models
  import opened GatewayState

  /** One field of the JSON object printed by the metrics script. */
  datatype Field = Missing | Number(x: real) | NotNumber

  /** What a metrics probe of a node yields: the SSH command failed, its
      output is not a JSON object, or a JSON object with the two fields. */
  datatype Reply = Unreachable | Malformed | Object(cpu: Field, ram: Field)

  /** The reply each node would give to the metrics script right now. */
  type Probe = string -> Reply

  /** `float(metrics.get(key, float('inf')))`; `None` when `float()` raises. */
  function FieldLoad(f: Field): (r: Option<Load>)
    ensures r.None? <==> f.NotNumber?
    ensures f.Number? ==> r == Some(Finite(f.x))
    ensures f.Missing? ==> r == Some(Infinite) && forall x: real :: LoadLess(Finite(x), r.value)
  {
    match f
    case Missing => Some(Infinite)
    case Number(x) => Some(Finite(x))
    case NotNumber => None
  }

  /** `get_metrics_for_node`: a reading for both loads, a missing field read
      as the worst case, and `None` for any fetch or parse failure. */
  function GetMetricsForNode(reply: Reply): (m: Option<Metrics>)
    ensures m.Some? <==> reply.Object? && !reply.cpu.NotNumber? && !reply.ram.NotNumber?
    ensures m.Some? && reply.cpu.Missing? ==> m.value.cpu == Infinite
    ensures m.Some? && reply.ram.Missing? ==> m.value.ram == Infinite
    ensures m.Some? && reply.cpu.Number? ==> m.value.cpu == Finite(reply.cpu.x)
    ensures m.Some? && reply.ram.Number? ==> m.value.ram == Finite(reply.ram.x)
  {
    match reply
    case Unreachable => None
    case Malformed => None
    case Object(c, r) =>
      match (FieldLoad(c), FieldLoad(r))
      case (Some(cpu), Some(ram)) => Some(Metrics(cpu, ram))
      case _ => None
  }

  /** The reply of a node whose script reports the given finite readings. */
  function ReplyOf(cpu: real, ram: real): Reply {
    Object(Number(cpu), Number(ram))
  }

  /** Parsing the reply of a reporting node gives back its readings. */
  lemma ParseReply(cpu: real, ram: real)
    ensures GetMetricsForNode(ReplyOf(cpu, ram)) == Some(Metrics(Finite(cpu), Finite(ram)))
  {
  }

  /** `metrics.get('ram_usage', 100.0) < state.RAM_THRESHOLD`. The default
      never applies: a parsed result always has both keys. */
  predicate RamBelowThreshold(m: Metrics): (below: bool)
    ensures below <==> LoadLess(m.ram, Finite(RAM_THRESHOLD))
    ensures m.ram == Finite(RAM_THRESHOLD) ==> !below
  {
    match m.ram
    case Finite(x) => x < RAM_THRESHOLD
    case Infinite => false
  }

  /** A node whose reply lacks a RAM reading is never below the threshold. */
  lemma MissingRamNeverEligible(reply: Reply)
    requires reply.Object? && reply.ram.Missing?
    ensures GetMetricsForNode(reply).Some? ==> !RamBelowThreshold(GetMetricsForNode(reply).value)
  {
  }

  /** `f"{state.CONTAINER_PREFIX}{function_name}--{node_name}"`. */
  function ContainerName(f: string, n: string): (name: string)
    ensures |name| == |CONTAINER_PREFIX| + |f| + 2 + |n|
    ensures name[..|CONTAINER_PREFIX|] == CONTAINER_PREFIX
    ensures name[|CONTAINER_PREFIX|..|CONTAINER_PREFIX| + |f|] == f
    ensures name[|CONTAINER_PREFIX| + |f|..|CONTAINER_PREFIX| + |f| + 2] == "--"
    ensures name[|name| - |n|..] == n
  {
    CONTAINER_PREFIX + f + "--" + n
  }

  /** On one node, distinct functions get distinct standing containers. */
  lemma {:induction false} ContainerNameInjective(f1: string, f2: string, n: string)
    requires ContainerName(f1, n) == ContainerName(f2, n)
    ensures f1 == f2
  {
    var a := ContainerName(f1, n);
    var b := ContainerName(f2, n);
    var p := |CONTAINER_PREFIX|;
    assert |f1| == |f2|;
    assert a[p..p + |f1|] == f1;
    assert b[p..p + |f2|] == f2;
  }

  const PULL_PREFIX: string := "sudo docker pull "

  /** The pre-warm command: fetch the image. */
  function PrewarmCommand(image: string): (cmd: string)
    ensures |cmd| == |PULL_PREFIX| + |image|
    ensures cmd[..|PULL_PREFIX|] == PULL_PREFIX && cmd[|PULL_PREFIX|..] == image
  {
    PULL_PREFIX + image
  }

  const RUN_PREFIX: string := "sudo docker run -d --name "
  const SLEEP_SUFFIX: string := " sleep infinity"

  /** The warm-up command: start a detached standing container with the
      given name running the image's placeholder `sleep infinity`. */
  function WarmupCommand(container: string, image: string): (cmd: string)
    ensures |cmd| == |RUN_PREFIX| + |container| + 1 + |image| + |SLEEP_SUFFIX|
    ensures cmd[..|RUN_PREFIX|] == RUN_PREFIX
    ensures cmd[|RUN_PREFIX|..|RUN_PREFIX| + |container|] == container
    ensures cmd[|RUN_PREFIX| + |container| + 1..|cmd| - |SLEEP_SUFFIX|] == image
    ensures cmd[|cmd| - |SLEEP_SUFFIX|..] == SLEEP_SUFFIX
  {
    RUN_PREFIX + container + " " + image + SLEEP_SUFFIX
  }

  /** `state.function_state_registry[f][n] = tag`, creating the inner dict
      for `f` when it is absent. */
  function SetTag(t: WarmTable, f: string, n: string, tag: string): (r: WarmTable)
    requires WarmTableValid(t)
    ensures WarmTableValid(r)
    ensures r.entries.Keys == t.entries.Keys + {f}
    ensures forall g :: g in t.entries && g != f ==> r.entries[g] == t.entries[g]
  {
    var inner: Dict<string, string> := if f in t.entries then t.entries[f] else Empty();
    t.Put(f, inner.Put(n, tag))
  }

  /** After `SetTag`, the pair `(f, n)` carries exactly `tag` (any earlier
      tag is overwritten) and every other pair keeps its tag. */
  lemma TagAfterSetTag(t: WarmTable, f: string, n: string, tag: string, f': string, n': string)
    requires WarmTableValid(t)
    ensures Tag(SetTag(t, f, n, tag), f', n') == if f' == f && n' == n then Some(tag) else Tag(t, f', n')
  {
  }

  /** After `SetTag`, the nodes recorded for `f` keep their order; a node seen
      for the first time is appended. */
  lemma SetTagKeepsOrder(t: WarmTable, f: string, n: string, tag: string)
    requires WarmTableValid(t)
    ensures f in t.entries && n in t.entries[f].entries ==>
      SetTag(t, f, n, tag).entries[f].order == t.entries[f].order
    ensures f in t.entries && n !in t.entries[f].entries ==>
      SetTag(t, f, n, tag).entries[f].order == t.entries[f].order + [n]
    ensures f !in t.entries ==> SetTag(t, f, n, tag).entries[f].order == [n]
  {
  }

  /** Both warming operations act only on a registered function and node. */
  predicate Registered(st: State, f: string, n: string): (reg: bool)
    reads st
    ensures st.functionRegistry.Valid() && st.nodeRegistry.Valid() ==>
      (reg <==> f in st.functionRegistry.order && n in st.nodeRegistry.order)
  {
    f in st.functionRegistry.entries && n in st.nodeRegistry.entries
  }

  /** `prewarm_function_on_node`: when `f` and `n` are registered, send the
      pull command; if it succeeds, tag `(f, n)` pre-warmed. A failure is
      swallowed and leaves the store unchanged. */
  method PrewarmFunctionOnNode(st: State, f: string, n: string, pullSucceeds: bool)
    returns (command: Option<string>)
    requires st.Valid()
    modifies st`functionStateRegistry
    ensures st.Valid()
    ensures command == if Registered(st, f, n)
      then Some(PrewarmCommand(st.functionRegistry.entries[f].image)) else None
    ensures st.functionStateRegistry ==
      if command.Some? && pullSucceeds
      then SetTag(old(st.functionStateRegistry), f, n, PRE_WARMED.value)
      else old(st.functionStateRegistry)
  {
    if !Registered(st, f, n) {
      return None;
    }
    var image := st.functionRegistry.entries[f].image;
    command := Some(PrewarmCommand(image));
    if pullSucceeds {
      st.functionStateRegistry := SetTag(st.functionStateRegistry, f, n, PRE_WARMED.value);
    }
  }

  /** `warmup_function_on_node`: when `f` and `n` are registered, start the
      standing container `ContainerName(f, n)`; if that succeeds, tag
      `(f, n)` warmed. A failure is swallowed and leaves the store unchanged. */
  method WarmupFunctionOnNode(st: State, f: string, n: string, runSucceeds: bool)
    returns (command: Option<string>)
    requires st.Valid()
    modifies st`functionStateRegistry
    ensures st.Valid()
    ensures command == if Registered(st, f, n)
      then Some(WarmupCommand(ContainerName(f, n), st.functionRegistry.entries[f].image)) else None
    ensures st.functionStateRegistry ==
      if command.Some? && runSucceeds
      then SetTag(old(st.functionStateRegistry), f, n, WARMED.value)
      else old(st.functionStateRegistry)
  {
    if !Registered(st, f, n) {
      return None;
    }
    var image := st.functionRegistry.entries[f].image;
    var container := ContainerName(f, n);
    command := Some(WarmupCommand(container, image));
    if runSucceeds {
      st.functionStateRegistry := SetTag(st.functionStateRegistry, f, n, WARMED.value);
    }
  }
}
