/** The scheduler handed to the warm-state policies of `policies.py`, the
    priority chain WarmedFirst -> PreWarmedFirst -> DefaultCold, and
    StaticWarmingPolicy. The chain only reads the warm-state store; the
    scheduler is consulted (and its cursor moves) only when no tagged node
    is found. */
module Chain {
  import opened Basics
  import opened PyDict
  import opened Records
  import opened Models
  import opened GatewayState
  import opened NodeManager
  import opened Policies

  /** The `scheduler` object: a round-robin policy with its cursor, or the
      stateless least-used policy. */
  datatype Scheduler = RoundRobinScheduler(policy: RoundRobinPolicy) | LeastUsedScheduler

  /** The objects a call to the scheduler may change. */
  function SchedulerFrame(s: Scheduler): set<object> {
    if s.RoundRobinScheduler? then {s.policy} else {}
  }

  ghost predicate SchedulerValid(s: Scheduler)
    reads SchedulerFrame(s)
  {
    s.RoundRobinScheduler? ==> s.policy.Valid()
  }

  /** The scheduler's state; least-used has none, shown as a fixed cursor. */
  function SchedulerState(s: Scheduler): Cursor
    reads SchedulerFrame(s)
  {
    if s.RoundRobinScheduler? then s.policy.State() else Cursor([], 0)
  }

  /** `scheduler.select_node(nodes, f)` from state `c`: the new state and
      the chosen node with its record. */
  function SchedulerStep(s: Scheduler, c: Cursor, nodes: Dict<string, Fields>, f: string, probe: Probe)
    : (r: (Cursor, Option<(string, Record)>))
    requires CursorValid(c) && nodes.Valid()
    ensures CursorValid(r.0)
    ensures nodes.IsEmpty() ==> r == (c, None)
    ensures r.1.Some? ==> r.1.value.0 in nodes.entries && Accepts(probe, r.1.value.0)
  {
    if s.RoundRobinScheduler? then RoundRobinSelect(c, nodes, f, probe)
    else (c, LeastUsedSelect(nodes, f, probe))
  }

  /** Calls the scheduler: its state moves exactly as `SchedulerStep` says. */
  method ScheduleNode(s: Scheduler, nodes: Dict<string, Fields>, f: string, probe: Probe)
    returns (pick: Option<(string, Record)>)
    requires SchedulerValid(s) && nodes.Valid()
    modifies SchedulerFrame(s)
    ensures SchedulerValid(s)
    ensures (SchedulerState(s), pick) == SchedulerStep(s, old(SchedulerState(s)), nodes, f, probe)
  {
    match s
    case RoundRobinScheduler(p) =>
      ghost var probes: nat;
      pick, probes := p.SelectNode(nodes, f, probe);
    case LeastUsedScheduler =>
      pick := LeastUsedSelect(nodes, f, probe);
  }

  /** The schedulers record the mode that DefaultCold then reports. */
  lemma SchedulerMode(s: Scheduler, c: Cursor, nodes: Dict<string, Fields>, f: string, probe: Probe)
    requires CursorValid(c) && nodes.Valid()
    ensures var pick := SchedulerStep(s, c, nodes, f, probe).1;
      pick.Some? ==>
        pick.value.1.mode == Some(if s.RoundRobinScheduler? then "Round Robin - Cold" else "Least Used - Cold")
  {
  }

  // ---------------------------------------------------------------------------
  // The priority chain

  /** What a chain policy returns: the node, the metrics record (absent for a
      warm hit) and the execution mode. */
  datatype Choice = Choice(node: string, entry: Option<Record>, mode: string)

  /** The position of the first key, in iteration order, whose value is
      `tag`: the `for n, s in ….items(): if s == tag: return n` scan. */
  function FirstWithValue(order: seq<string>, entries: map<string, string>, tag: string): (r: Option<nat>)
    requires forall i :: 0 <= i < |order| ==> order[i] in entries
    ensures r.Some? ==> r.value < |order| && entries[order[r.value]] == tag
    ensures r.Some? ==> forall i :: 0 <= i < r.value ==> entries[order[i]] != tag
    ensures r.None? <==> forall i :: 0 <= i < |order| ==> entries[order[i]] != tag
    decreases |order|
  {
    if order == [] then None
    else if entries[order[0]] == tag then Some(0)
    else
      assert forall i :: 0 <= i < |order| - 1 ==> order[1..][i] == order[i + 1];
      match FirstWithValue(order[1..], entries, tag)
      case None => None
      case Some(k) => Some(k + 1)
  }

  /** The warm hit for tag `tag`: the first node recorded for `f` that
      carries it, with no record and `tag` as the mode. */
  function TaggedChoice(t: WarmTable, f: string, tag: string): (r: Option<Choice>)
    requires WarmTableValid(t)
    ensures r.None? <==> forall n :: Tag(t, f, n) != Some(tag)
    ensures r.Some? ==> r.value.entry.None? && r.value.mode == tag && Tag(t, f, r.value.node) == Some(tag)
    ensures r.Some? ==> forall i, j :: 0 <= j < i < |t.entries[f].order| && t.entries[f].order[i] == r.value.node ==>
      Tag(t, f, t.entries[f].order[j]) != Some(tag)
  {
    if f !in t.entries then None
    else
      var inner := t.entries[f];
      assert forall i :: 0 <= i < |inner.order| ==> inner.order[i] in inner.entries;
      match FirstWithValue(inner.order, inner.entries, tag)
      case None =>
        assert forall n :: n in inner.entries ==> exists i :: 0 <= i < |inner.order| && inner.order[i] == n;
        None
      case Some(k) =>
        assert forall i, j :: 0 <= j < i < |inner.order| && inner.order[i] == inner.order[k] ==>
          Tag(t, f, inner.order[j]) != Some(tag) by {
          forall i, j | 0 <= j < i < |inner.order| && inner.order[i] == inner.order[k]
            ensures Tag(t, f, inner.order[j]) != Some(tag)
          {
            assert i == k;
            assert inner.order[j] in inner.entries;
          }
        }
        Some(Choice(inner.order[k], None, tag))
  }

  /** `DefaultColdPolicy.select_node` after the scheduler has answered:
      503 when it chose no node (or the falsy name `""`), otherwise the node,
      its record and the record's "Execution Mode". */
  function DefaultCold(pick: Option<(string, Record)>): (r: Result<Choice, HttpError>)
    ensures r.Err? <==> pick.None? || pick.value.0 == ""
    ensures r.Err? ==> r.error == HttpError(503)
    ensures r.Ok? ==> r.value.node == pick.value.0 && r.value.entry == Some(pick.value.1)
    ensures r.Ok? ==> r.value.mode == pick.value.1.mode.GetOr("Unknown")
  {
    match pick
    case None => Err(HttpError(503))
    case Some((node, entry)) =>
      if node == "" then Err(HttpError(503))
      else Ok(Choice(node, Some(entry), entry.mode.GetOr("Unknown")))
  }

  /** DefaultCold: ask the scheduler. */
  function ColdStep(s: Scheduler, c: Cursor, nodes: Dict<string, Fields>, f: string, probe: Probe)
    : (r: (Cursor, Result<Choice, HttpError>))
    requires CursorValid(c) && nodes.Valid()
    ensures CursorValid(r.0)
    ensures r.1.Err? ==> r.1.error == HttpError(503)
    ensures r.1.Ok? ==> r.1.value.node in nodes.entries && Accepts(probe, r.1.value.node) && r.1.value.node != ""
    ensures nodes.IsEmpty() ==> r == (c, Err(HttpError(503)))
  {
    var step := SchedulerStep(s, c, nodes, f, probe);
    (step.0, DefaultCold(step.1))
  }

  /** PreWarmedFirst: a pre-warmed node if there is one, else DefaultCold. */
  function PreWarmedStep(s: Scheduler, c: Cursor, t: WarmTable, nodes: Dict<string, Fields>, f: string, probe: Probe)
    : (r: (Cursor, Result<Choice, HttpError>))
    requires CursorValid(c) && nodes.Valid() && WarmTableValid(t)
    ensures CursorValid(r.0)
    ensures (exists n :: Tag(t, f, n) == Some("pre-warmed")) ==> r.0 == c && r.1.Ok?
    ensures r.1.Ok? ==>
      Tag(t, f, r.1.value.node) == Some("pre-warmed") || (r.1.value.node in nodes.entries && Accepts(probe, r.1.value.node))
  {
    match TaggedChoice(t, f, PRE_WARMED.value)
    case Some(choice) => (c, Ok(choice))
    case None => ColdStep(s, c, nodes, f, probe)
  }

  /** WarmedFirst: a warmed node if there is one, else PreWarmedFirst. */
  function WarmedStep(s: Scheduler, c: Cursor, t: WarmTable, nodes: Dict<string, Fields>, f: string, probe: Probe)
    : (r: (Cursor, Result<Choice, HttpError>))
    requires CursorValid(c) && nodes.Valid() && WarmTableValid(t)
    ensures CursorValid(r.0)
    ensures (exists n :: Tag(t, f, n) == Some("warmed") || Tag(t, f, n) == Some("pre-warmed")) ==> r.0 == c && r.1.Ok?
    ensures r.1.Ok? ==>
      || Tag(t, f, r.1.value.node) == Some("warmed")
      || Tag(t, f, r.1.value.node) == Some("pre-warmed")
      || (r.1.value.node in nodes.entries && Accepts(probe, r.1.value.node))
  {
    match TaggedChoice(t, f, WARMED.value)
    case Some(choice) => (c, Ok(choice))
    case None => PreWarmedStep(s, c, t, nodes, f, probe)
  }

  /** Warmed ranks above pre-warmed, which ranks above cold: a warm hit
      leaves the scheduler untouched and reports the hit's tag as the mode;
      the scheduler is consulted only when `f` has neither tag. */
  lemma ChainPriority(s: Scheduler, c: Cursor, t: WarmTable, nodes: Dict<string, Fields>, f: string, probe: Probe)
    requires CursorValid(c) && nodes.Valid() && WarmTableValid(t)
    ensures (exists n :: Tag(t, f, n) == Some("warmed")) ==>
      var r := WarmedStep(s, c, t, nodes, f, probe);
      r.0 == c && r.1.Ok? && r.1.value.mode == "warmed" && r.1.value.entry.None? &&
      Tag(t, f, r.1.value.node) == Some("warmed") &&
      forall i, j :: 0 <= j < i < |t.entries[f].order| && t.entries[f].order[i] == r.1.value.node ==>
        Tag(t, f, t.entries[f].order[j]) != Some("warmed")
    ensures (forall n :: Tag(t, f, n) != Some("warmed")) && (exists n :: Tag(t, f, n) == Some("pre-warmed")) ==>
      var r := WarmedStep(s, c, t, nodes, f, probe);
      r.0 == c && r.1.Ok? && r.1.value.mode == "pre-warmed" && r.1.value.entry.None? &&
      Tag(t, f, r.1.value.node) == Some("pre-warmed") &&
      forall i, j :: 0 <= j < i < |t.entries[f].order| && t.entries[f].order[i] == r.1.value.node ==>
        Tag(t, f, t.entries[f].order[j]) != Some("pre-warmed")
    ensures (forall n :: Tag(t, f, n) != Some("warmed") && Tag(t, f, n) != Some("pre-warmed")) ==>
      WarmedStep(s, c, t, nodes, f, probe) == ColdStep(s, c, nodes, f, probe)
  {
    var w := TaggedChoice(t, f, WARMED.value);
    var p := TaggedChoice(t, f, PRE_WARMED.value);
    if w.Some? {
      assert WarmedStep(s, c, t, nodes, f, probe) == (c, Ok(w.value));
    } else if p.Some? {
      assert WarmedStep(s, c, t, nodes, f, probe) == (c, Ok(p.value));
    } else {
      assert WarmedStep(s, c, t, nodes, f, probe) == ColdStep(s, c, nodes, f, probe);
    }
  }

  /** PreWarmedFirst does not look for warmed nodes: with no pre-warmed
      node it goes to the scheduler even when a warmed one exists. */
  lemma PreWarmedIgnoresWarmed(s: Scheduler, c: Cursor, t: WarmTable, nodes: Dict<string, Fields>, f: string, probe: Probe)
    requires CursorValid(c) && nodes.Valid() && WarmTableValid(t)
    ensures (forall n :: Tag(t, f, n) != Some("pre-warmed")) ==>
      PreWarmedStep(s, c, t, nodes, f, probe) == ColdStep(s, c, nodes, f, probe)
  {
  }

  /** A cold choice fails with 503 exactly when the scheduler finds no
      node (or one named `""`); otherwise its mode names the policy. */
  lemma ColdStepResult(s: Scheduler, c: Cursor, nodes: Dict<string, Fields>, f: string, probe: Probe)
    requires CursorValid(c) && nodes.Valid()
    ensures var r := ColdStep(s, c, nodes, f, probe).1;
      var pick := SchedulerStep(s, c, nodes, f, probe).1;
      (r == Err(HttpError(503)) <==> pick.None? || pick.value.0 == "") &&
      (r.Ok? ==>
        r.value.node in nodes.entries && Accepts(probe, r.value.node) &&
        r.value.mode == if s.RoundRobinScheduler? then "Round Robin - Cold" else "Least Used - Cold")
  {
    SchedulerMode(s, c, nodes, f, probe);
  }

  /** An empty node registry with no warm hit ends in 503. */
  lemma EmptyRegistryUnavailable(s: Scheduler, c: Cursor, t: WarmTable, nodes: Dict<string, Fields>, f: string, probe: Probe)
    requires CursorValid(c) && nodes.Valid() && WarmTableValid(t) && nodes.IsEmpty()
    requires forall n :: Tag(t, f, n) != Some("warmed") && Tag(t, f, n) != Some("pre-warmed")
    ensures WarmedStep(s, c, t, nodes, f, probe) == (c, Err(HttpError(503)))
  {
    ChainPriority(s, c, t, nodes, f, probe);
  }

  /** `DefaultColdPolicy.select_node`. */
  method DefaultColdSelect(st: State, f: string, sched: Scheduler, probe: Probe)
    returns (r: Result<Choice, HttpError>)
    requires st.Valid() && SchedulerValid(sched)
    modifies SchedulerFrame(sched)
    ensures SchedulerValid(sched) && unchanged(st)
    ensures (SchedulerState(sched), r) == ColdStep(sched, old(SchedulerState(sched)), st.nodeRegistry, f, probe)
  {
    var pick := ScheduleNode(sched, st.nodeRegistry, f, probe);
    r := DefaultCold(pick);
  }

  /** `PreWarmedFirstPolicy.select_node`. */
  method PreWarmedFirstSelect(st: State, f: string, sched: Scheduler, probe: Probe)
    returns (r: Result<Choice, HttpError>)
    requires st.Valid() && SchedulerValid(sched)
    modifies SchedulerFrame(sched)
    ensures SchedulerValid(sched) && unchanged(st)
    ensures (SchedulerState(sched), r) ==
      PreWarmedStep(sched, old(SchedulerState(sched)), st.functionStateRegistry, st.nodeRegistry, f, probe)
  {
    var hit := TaggedChoice(st.functionStateRegistry, f, PRE_WARMED.value);
    if hit.Some? {
      return Ok(hit.value);
    }
    r := DefaultColdSelect(st, f, sched, probe);
  }

  /** `WarmedFirstPolicy.select_node`. */
  method WarmedFirstSelect(st: State, f: string, sched: Scheduler, probe: Probe)
    returns (r: Result<Choice, HttpError>)
    requires st.Valid() && SchedulerValid(sched)
    modifies SchedulerFrame(sched)
    ensures SchedulerValid(sched) && unchanged(st)
    ensures (SchedulerState(sched), r) ==
      WarmedStep(sched, old(SchedulerState(sched)), st.functionStateRegistry, st.nodeRegistry, f, probe)
  {
    var hit := TaggedChoice(st.functionStateRegistry, f, WARMED.value);
    if hit.Some? {
      return Ok(hit.value);
    }
    r := PreWarmedFirstSelect(st, f, sched, probe);
  }

  // ---------------------------------------------------------------------------
  // StaticWarmingPolicy

  /** The node StaticWarmingPolicy prepares: the scheduler's pick, unless
      it is missing or the falsy name `""`. */
  function NodeToPrepare(pick: Option<(string, Record)>): (r: Option<string>)
    ensures r.Some? <==> pick.Some? && pick.value.0 != ""
    ensures r.Some? ==> r.value == pick.value.0
  {
    if pick.Some? && pick.value.0 != "" then Some(pick.value.0) else None
  }

  /** `StaticWarmingPolicy.apply`: for the types "pre-warmed" and "warmed"
      only, ask the scheduler for a node and pre-warm or warm up `f` there.
      `target` is that node; `command` is the remote command sent, and
      `remoteSucceeds` says whether it succeeded. Any other type changes
      nothing. */
  method StaticWarmingApply(st: State, warmingType: string, f: string, sched: Scheduler, probe: Probe,
                            remoteSucceeds: bool)
    returns (command: Option<string>, ghost target: Option<string>)
    requires st.Valid() && SchedulerValid(sched)
    modifies st`functionStateRegistry, SchedulerFrame(sched)
    ensures st.Valid() && SchedulerValid(sched)
    ensures warmingType != PRE_WARMED.value && warmingType != WARMED.value ==>
      target.None? && SchedulerState(sched) == old(SchedulerState(sched))
    ensures warmingType == PRE_WARMED.value || warmingType == WARMED.value ==>
      var step := SchedulerStep(sched, old(SchedulerState(sched)), st.nodeRegistry, f, probe);
      SchedulerState(sched) == step.0 && target == NodeToPrepare(step.1)
    ensures command.Some? <==> target.Some? && Registered(st, f, target.value)
    ensures command.Some? ==>
      command.value == var image := st.functionRegistry.entries[f].image;
        if warmingType == PRE_WARMED.value then PrewarmCommand(image)
        else WarmupCommand(ContainerName(f, target.value), image)
    ensures st.functionStateRegistry ==
      if command.Some? && remoteSucceeds
      then SetTag(old(st.functionStateRegistry), f, target.value, warmingType)
      else old(st.functionStateRegistry)
  {
    command, target := None, None;
    if warmingType == PRE_WARMED.value {
      var pick := ScheduleNode(sched, st.nodeRegistry, f, probe);
      target := NodeToPrepare(pick);
      if pick.Some? && pick.value.0 != "" {
        command := PrewarmFunctionOnNode(st, f, pick.value.0, remoteSucceeds);
      }
    } else if warmingType == WARMED.value {
      var pick := ScheduleNode(sched, st.nodeRegistry, f, probe);
      target := NodeToPrepare(pick);
      if pick.Some? && pick.value.0 != "" {
        command := WarmupFunctionOnNode(st, f, pick.value.0, remoteSucceeds);
      }
    }
  }
}
