/** Invocation records (`log_invocation_metrics`) and the categories the
    reports group them into (the `Category` column and the fixed order of
    the present categories). */
module Metrics {
  import opened Basics
  import opened PyDict
  import opened Strings
  import opened Records
  import opened Models
  import opened GatewayState
  import opened NodeManager
  import opened Policies
  import opened Chain

  /** The text shown for a load that could not be read. */
  const NO_READING: string := "---"

  /** `if node_info`: the node is registered with a non-empty descriptor. */
  predicate HasNodeInfo(nodes: Dict<string, Fields>, node: string): (has: bool)
    ensures has <==> nodes.Get(node).Some? && !nodes.Get(node).value.IsEmpty()
    ensures has && nodes.Valid() ==> node in nodes.order
  {
    node in nodes.entries && !nodes.entries[node].IsEmpty()
  }

  /** The readings of the fresh record built for an invocation without a
      supplied entry: the node's current metrics, or nothing. */
  function FreshReading(nodes: Dict<string, Fields>, node: string, probe: Probe): (m: Option<Metrics>)
    ensures !HasNodeInfo(nodes, node) ==> m.None?
    ensures HasNodeInfo(nodes, node) ==> m == ProbeNode(probe, node)
    ensures m.Some? <==>
      (HasNodeInfo(nodes, node) && probe(node).Object? && !probe(node).cpu.NotNumber? && !probe(node).ram.NotNumber?)
  {
    if HasNodeInfo(nodes, node) then ProbeNode(probe, node) else None
  }

  /** The record `log_invocation_metrics` appends. With no supplied entry it
      builds one for `f` and `node` whose loads are the node's readings, or
      `"---"` when the node has no descriptor or its probe fails. A supplied
      entry keeps its function, node and loads. Either way the mode is set to
      its label (`EXECUTION_MODE_MAP.get(mode, mode)`) and the time to
      `duration`. */
  function AssembleRecord(entry: Option<Record>, f: string, node: string, nodes: Dict<string, Fields>,
                          probe: Probe, mode: string, duration: real): (r: Record)
    ensures entry.Some? ==>
      && r.functionName == entry.value.functionName && r.nodeName == entry.value.nodeName
      && r.cpu == entry.value.cpu && r.ram == entry.value.ram
    ensures entry.None? ==> r.functionName == f && r.nodeName == node
    ensures entry.None? && FreshReading(nodes, node, probe).None? ==>
      r.cpu == Placeholder(NO_READING) && r.ram == Placeholder(NO_READING)
    ensures entry.None? && FreshReading(nodes, node, probe).Some? ==>
      var m := FreshReading(nodes, node, probe).value;
      r.cpu == Reading(m.cpu) && r.ram == Reading(m.ram)
    ensures r.mode == Some(ModeLabel(mode)) && r.time == Some(duration)
  {
    var base := match entry
      case Some(e) => e
      case None =>
        match FreshReading(nodes, node, probe)
        case Some(m) => Record(f, node, Reading(m.cpu), Reading(m.ram), None, None)
        case None => Record(f, node, Placeholder(NO_READING), Placeholder(NO_READING), None, None);
    base.(mode := Some(ModeLabel(mode)), time := Some(duration))
  }

  /** `log_invocation_metrics`: append exactly one record to the end of the
      log; every earlier record stays in place. */
  method LogInvocationMetrics(st: State, entry: Option<Record>, f: string, node: string, mode: string,
                              duration: real, probe: Probe)
    requires st.Valid()
    modifies st`metricsLog
    ensures st.Valid()
    ensures st.metricsLog == old(st.metricsLog) + [AssembleRecord(entry, f, node, st.nodeRegistry, probe, mode, duration)]
    ensures old(st.metricsLog) <= st.metricsLog && |st.metricsLog| == |old(st.metricsLog)| + 1
  {
    var record := AssembleRecord(entry, f, node, st.nodeRegistry, probe, mode, duration);
    st.metricsLog := st.metricsLog + [record];
  }

  // ---------------------------------------------------------------------------
  // Categories

  /** `'Cold' if 'Cold' in mode else mode`. */
  function Category(mode: string): (c: string)
    ensures Contains(mode, "Cold") ==> c == "Cold"
    ensures !Contains(mode, "Cold") ==> c == mode
  {
    if Contains(mode, COLD.displayLabel) then COLD.displayLabel else mode
  }

  /** Grouping twice changes nothing. */
  lemma CategoryIdempotent(mode: string)
    ensures Category(Category(mode)) == Category(mode)
  {
    assert StartsWith("Cold", "Cold");
  }

  /** A mode ending in "Cold" is in the "Cold" category. */
  lemma ColdSuffixCategory(pre: string)
    ensures Category(pre + "Cold") == "Cold"
  {
    SuffixContained(pre, "Cold");
  }

  /** A mode without a capital C is its own category. */
  lemma NoCapitalCCategory(mode: string)
    requires 'C' !in mode
    ensures Category(mode) == mode
  {
    MissingFirstChar(mode, "Cold");
  }

  /** The labels of the three modes are their own categories. */
  lemma CategoryOfLabels()
    ensures Category(ModeLabel(COLD.value)) == "Cold"
    ensures Category(ModeLabel(PRE_WARMED.value)) == "Pre-warmed"
    ensures Category(ModeLabel(WARMED.value)) == "Warmed"
  {
    assert StartsWith("Cold", "Cold");
    var p, w := "Pre-warmed", "Warmed";
    assert forall i :: 0 <= i < |p| ==> p[i] != 'C';
    NoCapitalCCategory(p);
    assert forall i :: 0 <= i < |w| ==> w[i] != 'C';
    NoCapitalCCategory(w);
  }

  /** Both schedulers' modes pass the label table unchanged and fall in
      "Cold". */
  lemma CategoryOfSchedulerModes()
    ensures Category(ModeLabel("Round Robin - Cold")) == "Cold"
    ensures Category(ModeLabel("Least Used - Cold")) == "Cold"
  {
    ColdSuffixCategory("Round Robin - ");
    assert "Round Robin - " + "Cold" == "Round Robin - Cold";
    ColdSuffixCategory("Least Used - ");
    assert "Least Used - " + "Cold" == "Least Used - Cold";
  }

  /** The category an invocation is reported under follows the chain's
      decision: a warmed hit is "Warmed", a pre-warmed hit "Pre-warmed",
      and a node chosen by either scheduler "Cold". */
  lemma ChoiceCategory(s: Scheduler, c: Cursor, t: WarmTable, nodes: Dict<string, Fields>, f: string, probe: Probe)
    requires CursorValid(c) && nodes.Valid() && WarmTableValid(t)
    ensures var r := WarmedStep(s, c, t, nodes, f, probe).1;
      r.Ok? ==>
        Category(ModeLabel(r.value.mode)) ==
          if exists n :: Tag(t, f, n) == Some("warmed") then "Warmed"
          else if exists n :: Tag(t, f, n) == Some("pre-warmed") then "Pre-warmed"
          else "Cold"
  {
    ChainPriority(s, c, t, nodes, f, probe);
    ColdStepResult(s, c, nodes, f, probe);
    CategoryOfLabels();
    CategoryOfSchedulerModes();
  }

  /** `master_order`. */
  const MASTER_ORDER: seq<string> := [COLD.displayLabel, PRE_WARMED.displayLabel, WARMED.displayLabel]

  /** `Category` is idempotent on every mode. */
  lemma CategoryIdempotentAll()
    ensures forall mode :: Category(Category(mode)) == Category(mode)
  {
    forall mode ensures Category(Category(mode)) == Category(mode) {
      CategoryIdempotent(mode);
    }
  }

  /** `df['Category'].unique()` for the logged records that have a mode:
      the category of every such record, and only categories, each of
      which is its own category. */
  ghost function LogCategories(log: seq<Record>): (cats: set<string>)
    ensures forall i :: 0 <= i < |log| && log[i].mode.Some? ==> Category(log[i].mode.value) in cats
    ensures forall x :: x in cats ==> Category(x) == x
    ensures log == [] ==> cats == {}
  {
    CategoryIdempotentAll();
    set i | 0 <= i < |log| && log[i].mode.Some? :: Category(log[i].mode.value)
  }

  /** `[cat for cat in master_order if cat in categories]`. */
  function PresentCategories(categories: set<string>): (r: seq<string>)
    ensures forall x :: x in r <==> x in MASTER_ORDER && x in categories
  {
    Restrict(MASTER_ORDER, categories)
  }

  /** The present categories are those of the fixed order that occur, in
      that order, each once. */
  lemma PresentCategoriesInOrder(categories: set<string>)
    ensures PresentCategories(categories) ==
      (if "Cold" in categories then ["Cold"] else []) +
      (if "Pre-warmed" in categories then ["Pre-warmed"] else []) +
      (if "Warmed" in categories then ["Warmed"] else [])
  {
    var m := MASTER_ORDER;
    assert m == ["Cold", "Pre-warmed", "Warmed"];
    assert m[1..] == ["Pre-warmed", "Warmed"];
    assert m[1..][1..] == ["Warmed"];
    assert m[1..][1..][1..] == [];
    assert Restrict(m, categories) ==
      (if "Cold" in categories then ["Cold"] else []) + Restrict(m[1..], categories);
    assert Restrict(m[1..], categories) ==
      (if "Pre-warmed" in categories then ["Pre-warmed"] else []) + Restrict(m[1..][1..], categories);
    assert Restrict(m[1..][1..], categories) ==
      (if "Warmed" in categories then ["Warmed"] else []) + Restrict(m[1..][1..][1..], categories);
  }

  /** Appending a record adds its category. */
  lemma LogCategoriesAppend(log: seq<Record>, r: Record)
    requires r.mode.Some?
    ensures LogCategories(log + [r]) == LogCategories(log) + {Category(r.mode.value)}
  {
    var l := log + [r];
    assert l[|log|] == r;
    forall x | x in LogCategories(log) ensures x in LogCategories(l) {
      var i :| 0 <= i < |log| && log[i].mode.Some? && Category(log[i].mode.value) == x;
      assert l[i] == log[i];
    }
  }
}
