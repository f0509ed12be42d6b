/** Node-selection policies and the warm-state priority chain.

    RoundRobinPolicy walks a cyclic cursor over the sorted node names;
    LeastUsedPolicy probes every node and takes the one with the least CPU
    usage; WarmedFirst -> PreWarmedFirst -> DefaultCold decides, per
    invocation, which node runs it and in which execution mode; and
    StaticWarmingPolicy prepares a node chosen by the scheduler. Every probe
    is read from a `Probe`, the reply each node gives at that moment. */
module Policies {
  import opened Basics
  import opened PyDict
  import opened Strings
  import opened Records
  import opened Models
  import opened GatewayState
  import opened NodeManager

  // ---------------------------------------------------------------------------
  // RoundRobinPolicy

  /** The state of a round-robin policy: the cached sorted names
      (`_nodes_cache`) and the position of `node_iterator` in their cycle. */
  datatype Cursor = Cursor(cache: seq<string>, next: nat)

  ghost predicate CursorValid(c: Cursor) {
    if |c.cache| == 0 then c.next == 0 else c.next < |c.cache|
  }

  /** `next()` on `itertools.cycle` over `n` names, as a position. */
  function Next(i: nat, n: nat): nat {
    if i + 1 >= n then 0 else i + 1
  }

  /** The position of the cycle after `t` calls of `next()` from `start`. */
  function Pos(start: nat, t: nat, n: nat): (p: nat)
    requires start < n
    ensures p < n
  {
    if t == 0 then start else Next(Pos(start, t - 1, n), n)
  }

  /** Within one turn of the cycle, positions are the start shifted by `t`,
      wrapping once. */
  lemma {:induction false} PosValue(start: nat, t: nat, n: nat)
    requires start < n && t <= n
    ensures Pos(start, t, n) == if start + t < n then start + t else start + t - n
  {
    if t > 0 {
      PosValue(start, t - 1, n);
    }
  }

  /** `get_metrics_for_node(n, …)` against the reply node `n` gives. */
  function ProbeNode(probe: Probe, n: string): Option<Metrics> {
    GetMetricsForNode(probe(n))
  }

  /** The round-robin test of one candidate: its probe parsed, and its RAM
      is below the threshold. Only a node that answered with a JSON object
      holding a numeric RAM reading below the threshold passes. */
  predicate Accepts(probe: Probe, n: string): (ok: bool)
    ensures ok <==> ProbeNode(probe, n).Some? && LoadLess(ProbeNode(probe, n).value.ram, Finite(RAM_THRESHOLD))
    ensures ok ==> probe(n).Object? && !probe(n).cpu.NotNumber? && probe(n).ram.Number? && probe(n).ram.x < RAM_THRESHOLD
  {
    var m := ProbeNode(probe, n);
    m.Some? && RamBelowThreshold(m.value)
  }

  /** The number of candidates rejected, from the `j`-th one on, before one
      is accepted; `|names|` when every remaining candidate is rejected. */
  function FirstAccepted(names: seq<string>, start: nat, probe: Probe, j: nat): (r: nat)
    requires start < |names| && j <= |names|
    decreases |names| - j
    ensures j <= r <= |names|
    ensures r < |names| ==> Accepts(probe, names[Pos(start, r, |names|)])
    ensures forall t :: j <= t < r ==> !Accepts(probe, names[Pos(start, t, |names|)])
  {
    if j == |names| then j
    else if Accepts(probe, names[Pos(start, j, |names|)]) then j
    else FirstAccepted(names, start, probe, j + 1)
  }

  /** The record round robin hands back for a chosen node. */
  function RoundRobinEntry(f: string, node: string, m: Metrics): (e: Record)
    ensures e.functionName == f && e.nodeName == node
    ensures e.cpu == Reading(m.cpu) && e.ram == Reading(m.ram)
    ensures e.mode == Some("Round Robin - Cold") && e.time.None?
  {
    assert "Round Robin - " + COLD.displayLabel == "Round Robin - Cold";
    Record(f, node, Reading(m.cpu), Reading(m.ram), Some("Round Robin - " + COLD.displayLabel), None)
  }

  /** Where the cycle starts for this call: the first sorted name when the
      set of names differs from the cache, the cursor otherwise. */
  function StartOf(c: Cursor, names: seq<string>): (i: nat)
    ensures names != c.cache ==> i == 0
    ensures names == c.cache ==> i == c.next
    ensures CursorValid(c) && |names| > 0 ==> i < |names|
  {
    if names != c.cache then 0 else c.next
  }

  /** One call of `select_node` on a non-empty registry whose sorted names
      are `names`: the new cursor and the accepted name, if any. At most
      `|names|` candidates are probed, one `next()` each. */
  function RoundRobinTurn(c: Cursor, names: seq<string>, probe: Probe): (r: (Cursor, Option<string>))
    requires CursorValid(c) && |names| > 0
    ensures CursorValid(r.0) && r.0.cache == names
    ensures r.1.Some? ==> r.1.value in names && Accepts(probe, r.1.value)
  {
    var n := |names|;
    var start := StartOf(c, names);
    var j := FirstAccepted(names, start, probe, 0);
    var probedCount := if j < n then j + 1 else n;
    (Cursor(names, Pos(start, probedCount, n)), if j < n then Some(names[Pos(start, j, n)]) else None)
  }

  /** A turn with an accepted first candidate takes it and moves the cursor
      one step along the cycle. */
  lemma RoundRobinTurnAccepted(c: Cursor, names: seq<string>, probe: Probe)
    requires CursorValid(c) && |names| > 0
    requires Accepts(probe, names[StartOf(c, names)])
    ensures RoundRobinTurn(c, names, probe)
      == (Cursor(names, Next(StartOf(c, names), |names|)), Some(names[StartOf(c, names)]))
  {
    assert FirstAccepted(names, StartOf(c, names), probe, 0) == 0;
  }

  /** A turn finds nothing exactly when every name is rejected; the cursor
      then comes back to where the turn started. */
  lemma RoundRobinTurnNoPick(c: Cursor, names: seq<string>, probe: Probe)
    requires CursorValid(c) && |names| > 0
    ensures RoundRobinTurn(c, names, probe).1.None?
      <==> forall i :: 0 <= i < |names| ==> !Accepts(probe, names[i])
    ensures RoundRobinTurn(c, names, probe).1.None? ==>
      RoundRobinTurn(c, names, probe).0 == Cursor(names, StartOf(c, names))
  {
    var n := |names|;
    var start := StartOf(c, names);
    var j := FirstAccepted(names, start, probe, 0);
    PosValue(start, n, n);
    if j == n {
      forall i | 0 <= i < n ensures !Accepts(probe, names[i]) {
        var t := if i >= start then i - start else i + n - start;
        PosValue(start, t, n);
      }
    }
  }

  /** After a change in the set of names the turn starts over: it takes the
      first accepted name in sorted order, and every name before it was
      rejected. */
  lemma RoundRobinTurnAfterReset(c: Cursor, names: seq<string>, probe: Probe)
    requires CursorValid(c) && |names| > 0 && names != c.cache
    ensures var pick := RoundRobinTurn(c, names, probe).1;
      pick.Some? ==> exists k :: 0 <= k < |names| && names[k] == pick.value &&
                                 forall i :: 0 <= i < k ==> !Accepts(probe, names[i])
    ensures Accepts(probe, names[0]) ==> RoundRobinTurn(c, names, probe).1 == Some(names[0])
  {
    var n := |names|;
    var j := FirstAccepted(names, 0, probe, 0);
    if j < n {
      PosValue(0, j, n);
      forall i | 0 <= i < j ensures !Accepts(probe, names[i]) {
        PosValue(0, i, n);
      }
    }
  }

  /** `RoundRobinPolicy.select_node` as a function of the policy's state:
      the new state and the chosen node with its record, if any. */
  function RoundRobinSelect(c: Cursor, nodes: Dict<string, Fields>, f: string, probe: Probe)
    : (r: (Cursor, Option<(string, Record)>))
    requires CursorValid(c) && nodes.Valid()
    ensures CursorValid(r.0)
    ensures nodes.IsEmpty() ==> r == (c, None)
    ensures !nodes.IsEmpty() ==> var turn := RoundRobinTurn(c, Sort(nodes.order), probe);
      r.0 == turn.0 && (r.1.Some? <==> turn.1.Some?) && (r.1.Some? ==> r.1.value.0 == turn.1.value)
    ensures r.1.Some? ==> r.1.value.0 in nodes.entries && Accepts(probe, r.1.value.0)
    ensures r.1.Some? ==> var m := ProbeNode(probe, r.1.value.0);
      m.Some? && r.1.value.1 == RoundRobinEntry(f, r.1.value.0, m.value)
  {
    if nodes.IsEmpty() then (c, None)
    else
      SortMembers(nodes.order);
      var turn := RoundRobinTurn(c, Sort(nodes.order), probe);
      match turn.1
      case None => (turn.0, None)
      case Some(node) => (turn.0, Some((node, RoundRobinEntry(f, node, ProbeNode(probe, node).value))))
  }

  /** The picks of `k` consecutive calls on the same registry with the same
      node replies, and the cursor after them. */
  function RoundRobinRun(c: Cursor, names: seq<string>, probe: Probe, k: nat)
    : (r: (seq<Option<string>>, Cursor))
    requires CursorValid(c) && |names| > 0
    ensures |r.0| == k && CursorValid(r.1)
    decreases k
  {
    if k == 0 then ([], c)
    else
      var turn := RoundRobinTurn(c, names, probe);
      var rest := RoundRobinRun(turn.0, names, probe, k - 1);
      ([turn.1] + rest.0, rest.1)
  }

  /** `Some(x)` for every name, in order. */
  function Picks(names: seq<string>): (r: seq<Option<string>>)
    ensures |r| == |names| && forall i :: 0 <= i < |names| ==> r[i] == Some(names[i])
  {
    if names == [] then [] else [Some(names[0])] + Picks(names[1..])
  }

  /** Every name is reachable and below the RAM threshold. */
  ghost predicate AllAccepted(names: seq<string>, probe: Probe) {
    forall i {:trigger Accepts(probe, names[i])} :: 0 <= i < |names| ==> Accepts(probe, names[i])
  }

  /** One step of the cycle, then `i` more, is `i + 1` steps. */
  lemma {:induction false} PosShift(s: nat, i: nat, n: nat)
    requires s < n
    ensures Pos(Next(s, n), i, n) == Pos(s, i + 1, n)
  {
    if i > 0 {
      PosShift(s, i - 1, n);
    }
  }

  /** Picks that walk the cycle from `Next(s)`, after a first pick at `s`,
      walk the cycle from `s`. */
  lemma WalkShift(names: seq<string>, s: nat, rest: seq<Option<string>>, picks: seq<Option<string>>)
    requires s < |names| && picks == [Some(names[s])] + rest
    requires forall i :: 0 <= i < |rest| ==> rest[i] == Some(names[Pos(Next(s, |names|), i, |names|)])
    ensures forall i :: 0 <= i < |picks| ==> picks[i] == Some(names[Pos(s, i, |names|)])
  {
    var n := |names|;
    forall i | 0 <= i < |picks|
      ensures picks[i] == Some(names[Pos(s, i, n)])
    {
      if i > 0 {
        assert picks[i] == rest[i - 1];
        PosShift(s, i - 1, n);
      }
    }
  }

  /** With every name accepted, the `i`-th of `k` consecutive calls takes
      the name `i` steps along the cycle from the start position, and the
      cursor ends `k` steps along. */
  lemma {:induction false} RoundRobinWalk(c: Cursor, names: seq<string>, probe: Probe, k: nat)
    requires CursorValid(c) && |names| > 0 && AllAccepted(names, probe)
    ensures var s := StartOf(c, names);
      forall i :: 0 <= i < k ==> RoundRobinRun(c, names, probe, k).0[i] == Some(names[Pos(s, i, |names|)])
    ensures k > 0 ==> RoundRobinRun(c, names, probe, k).1 == Cursor(names, Pos(StartOf(c, names), k, |names|))
    decreases k
  {
    var n := |names|;
    var s := StartOf(c, names);
    if k > 0 {
      RoundRobinTurnAccepted(c, names, probe);
      var turn := RoundRobinTurn(c, names, probe);
      var rest := RoundRobinRun(turn.0, names, probe, k - 1);
      var r := RoundRobinRun(c, names, probe, k);
      assert r.0 == [Some(names[s])] + rest.0 && r.1 == rest.1;
      assert turn.0 == Cursor(names, Next(s, n));
      assert StartOf(turn.0, names) == Next(s, n);
      RoundRobinWalk(turn.0, names, probe, k - 1);
      WalkShift(names, s, rest.0, r.0);
      if k > 1 {
        PosShift(s, k - 1, n);
        assert r.1 == Cursor(names, Pos(s, k, n));
      } else {
        assert r.1 == turn.0;
      }
    }
  }

  /** The `i`-th name of the cycle started at `s` is the `i`-th element of
      the names rotated to `s`. */
  lemma RotatedIndex(names: seq<string>, s: nat, i: nat)
    requires s < |names| && i < |names|
    ensures (names[s..] + names[..s])[i] == names[Pos(s, i, |names|)]
  {
    PosValue(s, i, |names|);
    if i < |names| - s {
      assert (names[s..] + names[..s])[i] == names[s..][i];
    } else {
      assert (names[s..] + names[..s])[i] == names[..s][i - (|names| - s)];
    }
  }

  /** Fairness on a stable set of names: with every node accepted, `N`
      consecutive calls take the names rotated to the cursor, each exactly
      once, and bring the cursor back to where it started. */
  lemma RoundRobinFairStable(c: Cursor, names: seq<string>, probe: Probe)
    requires CursorValid(c) && |names| > 0 && AllAccepted(names, probe)
    requires names == c.cache
    ensures RoundRobinRun(c, names, probe, |names|) == (Picks(names[c.next..] + names[..c.next]), c)
  {
    var n := |names|;
    var s := StartOf(c, names);
    assert s == c.next;
    var run := RoundRobinRun(c, names, probe, n);
    RoundRobinWalk(c, names, probe, n);
    PosValue(s, n, n);
    assert run.1 == Cursor(names, s);
    var rotated := names[s..] + names[..s];
    var picks := Picks(rotated);
    assert |rotated| == n && |picks| == n;
    forall i | 0 <= i < n ensures run.0[i] == picks[i] {
      RotatedIndex(names, s, i);
    }
    assert run.0 == picks;
  }

  /** Fairness after a reset: with every node accepted, the first `N` calls
      after a change in the set of names (or on a fresh policy) take each of
      the `N` sorted names once, in order, and leave the cursor on the first
      name, so that the next `N` calls take them again in the same order. */
  lemma RoundRobinFairAfterReset(c: Cursor, names: seq<string>, probe: Probe)
    requires CursorValid(c) && |names| > 0 && AllAccepted(names, probe)
    requires names != c.cache
    ensures RoundRobinRun(c, names, probe, |names|) == (Picks(names), Cursor(names, 0))
    ensures RoundRobinRun(Cursor(names, 0), names, probe, |names|) == (Picks(names), Cursor(names, 0))
  {
    var n := |names|;
    var run := RoundRobinRun(c, names, probe, n);
    RoundRobinWalk(c, names, probe, n);
    PosValue(0, n, n);
    forall i | 0 <= i < n ensures run.0[i] == Picks(names)[i] {
      PosValue(0, i, n);
    }
    assert run.0 == Picks(names);
    RoundRobinFairStable(Cursor(names, 0), names, probe);
    assert names[0..] + names[..0] == names;
  }

  /** The sorted names of a registry list each registered node exactly once,
      so a fair turn over them is a fair turn over the registry. */
  lemma SortedNamesOfRegistry(nodes: Dict<string, Fields>)
    requires nodes.Valid()
    ensures Distinct(Sort(nodes.order)) && |Sort(nodes.order)| == |nodes.order|
    ensures forall x :: x in Sort(nodes.order) <==> x in nodes.entries
  {
    SortMembers(nodes.order);
    SortDistinct(nodes.order);
  }

  /** `FirstAccepted` from `j` is the one offset `t` before which every
      candidate is rejected and at which one is accepted (or the end). */
  lemma {:induction false} FirstAcceptedIs(names: seq<string>, start: nat, probe: Probe, j: nat, t: nat)
    requires start < |names| && j <= t <= |names|
    requires forall i :: j <= i < t ==> !Accepts(probe, names[Pos(start, i, |names|)])
    requires t < |names| ==> Accepts(probe, names[Pos(start, t, |names|)])
    ensures FirstAccepted(names, start, probe, j) == t
    decreases t - j
  {
    if j < t {
      FirstAcceptedIs(names, start, probe, j + 1, t);
    }
  }

  /** The pick `select_node` returns for the candidate its loop found. */
  function PickOf(f: string, found: Option<(string, Metrics)>): Option<(string, Record)> {
    match found
    case None => None
    case Some((node, m)) => Some((node, RoundRobinEntry(f, node, m)))
  }

  /** `select_node` once its loop has found `found` after `t` rejections and
      left the cycle at `pos`. */
  lemma RoundRobinSelectAfterScan(c: Cursor, nodes: Dict<string, Fields>, f: string, probe: Probe,
                                  found: Option<(string, Metrics)>, pos: nat, t: nat)
    requires CursorValid(c) && nodes.Valid() && !nodes.IsEmpty()
    requires t == FirstAccepted(Sort(nodes.order), StartOf(c, Sort(nodes.order)), probe, 0)
    requires found.Some? <==> t < |nodes.order|
    requires found.Some? ==> var node := Sort(nodes.order)[Pos(StartOf(c, Sort(nodes.order)), t, |nodes.order|)];
      ProbeNode(probe, node).Some? && found.value == (node, ProbeNode(probe, node).value)
    requires pos == Pos(StartOf(c, Sort(nodes.order)), if t < |nodes.order| then t + 1 else |nodes.order|, |nodes.order|)
    ensures RoundRobinSelect(c, nodes, f, probe) == (Cursor(Sort(nodes.order), pos), PickOf(f, found))
  {
  }

  /** The `for` loop of `select_node`: advance the cycle from `start` one
      candidate at a time, at most `|names|` times, until a candidate is
      accepted. Returns that candidate with its reading, the position the
      cycle is left at, and the number `t` of candidates rejected before it. */
  method ScanCycle(names: seq<string>, start: nat, probe: Probe)
    returns (found: Option<(string, Metrics)>, pos: nat, t: nat)
    requires start < |names|
    ensures t == FirstAccepted(names, start, probe, 0)
    ensures found.Some? <==> t < |names|
    ensures found.Some? ==> var node := names[Pos(start, t, |names|)];
      ProbeNode(probe, node).Some? && found.value == (node, ProbeNode(probe, node).value)
    ensures pos == Pos(start, if t < |names| then t + 1 else |names|, |names|)
  {
    var n := |names|;
    pos := start;
    found := None;
    var k := 0;
    while k < n
      invariant k <= n && pos < n
      invariant pos == Pos(start, k, n)
      invariant forall i :: 0 <= i < k ==> !Accepts(probe, names[Pos(start, i, n)])
    {
      var candidate := names[pos];
      pos := Next(pos, n);
      var metrics := ProbeNode(probe, candidate);
      if metrics.Some? && RamBelowThreshold(metrics.value) {
        FirstAcceptedIs(names, start, probe, 0, k);
        found := Some((candidate, metrics.value));
        t := k;
        return;
      }
      k := k + 1;
    }
    FirstAcceptedIs(names, start, probe, 0, n);
    t := n;
  }

  /** The body of `select_node` on the cursor `c`: re-sort the registry,
      restart the cycle if the sorted names changed, and scan at most one
      full cycle. `probes` counts the candidates probed. */
  method RoundRobinStep(c: Cursor, nodes: Dict<string, Fields>, f: string, probe: Probe)
    returns (c1: Cursor, pick: Option<(string, Record)>, ghost probes: nat)
    requires CursorValid(c) && nodes.Valid()
    ensures CursorValid(c1)
    ensures (c1, pick) == RoundRobinSelect(c, nodes, f, probe)
    ensures probes <= |nodes.order| && (pick.None? ==> probes == |nodes.order|)
    ensures !nodes.IsEmpty() ==>
      c1.next == Pos(StartOf(c, c1.cache), probes, |c1.cache|)
    ensures pick.Some? ==>
      probes > 0 && pick.value.0 == c1.cache[Pos(StartOf(c, c1.cache), probes - 1, |c1.cache|)]
  {
    probes := 0;
    if nodes.IsEmpty() {
      return c, None, probes;
    }
    var names := Sort(nodes.order);
    var start := StartOf(c, names);
    var found, pos, t := ScanCycle(names, start, probe);
    RoundRobinSelectAfterScan(c, nodes, f, probe, found, pos, t);
    c1 := Cursor(names, pos);
    pick := PickOf(f, found);
    probes := if found.Some? then t + 1 else |names|;
    if found.Some? {
      var node := found.value.0;
      assert node == names[Pos(start, t, |names|)];
      assert pick.value.0 == node && probes - 1 == t;
    }
  }

  /** `RoundRobinPolicy`: the cursor object shared by all invocations. */
  class RoundRobinPolicy {
    var nodesCache: seq<string>
    var cursor: nat

    ghost predicate Valid()
      reads this
    {
      CursorValid(Cursor(nodesCache, cursor))
    }

    function State(): Cursor
      reads this
    {
      Cursor(nodesCache, cursor)
    }

    /** A new policy: `itertools.cycle([])` and an empty cache. */
    constructor ()
      ensures Valid() && State() == Cursor([], 0)
    {
      nodesCache := [];
      cursor := 0;
    }

    /** `select_node`: probes at most `len(nodes)` candidates from the cursor
        on, and returns the first one reachable with RAM below the threshold.
        `probes` counts the candidates probed; the cursor ends that many
        steps along the cycle. */
    method SelectNode(nodes: Dict<string, Fields>, f: string, probe: Probe)
      returns (pick: Option<(string, Record)>, ghost probes: nat)
      requires Valid() && nodes.Valid()
      modifies this
      ensures Valid()
      ensures (State(), pick) == RoundRobinSelect(old(State()), nodes, f, probe)
      ensures probes <= |nodes.order| && (pick.None? ==> probes == |nodes.order|)
      ensures !nodes.IsEmpty() ==>
        cursor == Pos(StartOf(old(State()), nodesCache), probes, |nodesCache|)
      ensures pick.Some? ==>
        probes > 0 && pick.value.0 == nodesCache[Pos(StartOf(old(State()), nodesCache), probes - 1, |nodesCache|)]
    {
      var c1;
      c1, pick, probes := RoundRobinStep(State(), nodes, f, probe);
      nodesCache, cursor := c1.cache, c1.next;
    }
  }

  // ---------------------------------------------------------------------------
  // LeastUsedPolicy

  /** The nodes of the registry whose probe succeeds. */
  ghost function Reachable(nodes: Dict<string, Fields>, probe: Probe): set<string> {
    set n | n in nodes.entries && ProbeNode(probe, n).Some?
  }

  /** The nodes of the registry that are reachable and below the threshold. */
  ghost function AcceptedNodes(nodes: Dict<string, Fields>, probe: Probe): set<string> {
    set n | n in nodes.entries && Accepts(probe, n)
  }

  /** `_get_all_node_metrics`: the reading of every node whose probe
      succeeds, in registry order; unreachable nodes are dropped. */
  function AllNodeMetrics(nodes: Dict<string, Fields>, probe: Probe): (r: Dict<string, Metrics>)
    requires nodes.Valid()
    ensures r.Valid()
    ensures r.order == Restrict(nodes.order, Reachable(nodes, probe))
    ensures forall n :: n in r.entries <==> n in nodes.entries && ProbeNode(probe, n).Some?
    ensures forall n :: n in r.entries ==> ProbeNode(probe, n) == Some(r.entries[n])
  {
    var reachable := set n | n in nodes.entries && ProbeNode(probe, n).Some?;
    RestrictDistinct(nodes.order, reachable);
    Dict(Restrict(nodes.order, reachable), map n | n in reachable :: ProbeNode(probe, n).value)
  }

  /** `eligible_nodes`: the readings whose RAM is below the threshold, in
      the same order. */
  function EligibleNodes(all: Dict<string, Metrics>): (r: Dict<string, Metrics>)
    requires all.Valid()
    ensures r.Valid()
    ensures r.order == Restrict(all.order, set n | n in all.entries && RamBelowThreshold(all.entries[n]))
    ensures forall n :: n in r.entries <==> n in all.entries && RamBelowThreshold(all.entries[n])
    ensures forall n :: n in r.entries ==> r.entries[n] == all.entries[n]
  {
    var eligible := set n | n in all.entries && RamBelowThreshold(all.entries[n]);
    RestrictDistinct(all.order, eligible);
    Dict(Restrict(all.order, eligible), map n | n in eligible :: all.entries[n])
  }

  /** `min(names, key=cpu_usage)`: the position of the first name with the
      least CPU usage. Python's `min` replaces its candidate only by a
      strictly smaller one. */
  function MinCpuIndex(names: seq<string>, m: map<string, Metrics>): (k: nat)
    requires |names| > 0 && forall i :: 0 <= i < |names| ==> names[i] in m
    ensures k < |names|
    ensures forall i :: 0 <= i < |names| ==> !LoadLess(m[names[i]].cpu, m[names[k]].cpu)
    ensures forall i :: 0 <= i < k ==> LoadLess(m[names[k]].cpu, m[names[i]].cpu)
  {
    if |names| == 1 then 0
    else
      var k := MinCpuIndex(names[..|names| - 1], m);
      var last := |names| - 1;
      LoadLessOrder();
      assert forall i :: 0 <= i < last ==> names[..last][i] == names[i];
      if LoadLess(m[names[last]].cpu, m[names[k]].cpu) then last else k
  }

  /** The record least-used hands back for a chosen node. */
  function LeastUsedEntry(f: string, node: string, m: Metrics): (e: Record)
    ensures e.functionName == f && e.nodeName == node
    ensures e.cpu == Reading(m.cpu) && e.ram == Reading(m.ram)
    ensures e.mode == Some("Least Used - Cold") && e.time.None?
  {
    assert "Least Used - " + COLD.displayLabel == "Least Used - Cold";
    Record(f, node, Reading(m.cpu), Reading(m.ram), Some("Least Used - " + COLD.displayLabel), None)
  }

  /** The CPU usage a node reports. */
  function Cpu(probe: Probe, n: string): Load
    requires ProbeNode(probe, n).Some?
  {
    ProbeNode(probe, n).value.cpu
  }

  /** The node `min` picks among the eligible readings, if there are any. */
  function MinCpuNode(eligible: Dict<string, Metrics>): (r: Option<string>)
    requires eligible.Valid()
    ensures r.None? <==> eligible.entries == map[]
    ensures r.Some? ==> r.value in eligible.entries
    ensures r.Some? ==> forall n :: n in eligible.entries ==>
      !LoadLess(eligible.entries[n].cpu, eligible.entries[r.value].cpu)
    ensures r.Some? ==> forall i, j :: 0 <= j < i < |eligible.order| && eligible.order[i] == r.value ==>
      LoadLess(eligible.entries[r.value].cpu, eligible.entries[eligible.order[j]].cpu)
  {
    EmptyIffNoKeys(eligible);
    if eligible.IsEmpty() then None
    else
      assert forall i :: 0 <= i < |eligible.order| ==> eligible.order[i] in eligible.entries;
      var k := MinCpuIndex(eligible.order, eligible.entries);
      assert forall n :: n in eligible.entries ==> exists i :: 0 <= i < |eligible.order| && eligible.order[i] == n;
      Some(eligible.order[k])
  }

  /** The node least-used settles on before its final `if selected_node`:
      among the reachable nodes below the RAM threshold, the first (in
      registry order) with the least CPU usage. */
  function LeastUsedCandidate(nodes: Dict<string, Fields>, probe: Probe): (r: Option<string>)
    requires nodes.Valid()
    ensures r.None? <==> forall n :: n in nodes.entries ==> !Accepts(probe, n)
    ensures r.Some? ==> r.value in nodes.entries && Accepts(probe, r.value)
    ensures r.Some? ==> forall n :: n in nodes.entries && Accepts(probe, n) ==>
      !LoadLess(Cpu(probe, n), Cpu(probe, r.value))
  {
    EmptyIffNoKeys(nodes);
    if nodes.IsEmpty() then None
    else
      var all := AllNodeMetrics(nodes, probe);
      EmptyIffNoKeys(all);
      if all.IsEmpty() then None
      else
        var eligible := EligibleNodes(all);
        assert forall n :: n in eligible.entries <==> n in nodes.entries && Accepts(probe, n);
        MinCpuNode(eligible)
  }

  /** `LeastUsedPolicy.select_node`: the candidate with its record; nothing
      when the registry is empty, no node is reachable, none is eligible, or
      the chosen name is `""` (falsy in Python). */
  function LeastUsedSelect(nodes: Dict<string, Fields>, f: string, probe: Probe): (r: Option<(string, Record)>)
    requires nodes.Valid()
    ensures nodes.IsEmpty() ==> r.None?
    ensures r.Some? ==> r.value.0 in nodes.entries && Accepts(probe, r.value.0) && r.value.0 != ""
    ensures r.Some? ==> forall n :: n in nodes.entries && Accepts(probe, n) ==>
      !LoadLess(Cpu(probe, n), Cpu(probe, r.value.0))
    ensures r.Some? ==> r.value.1 == LeastUsedEntry(f, r.value.0, ProbeNode(probe, r.value.0).value)
  {
    match LeastUsedCandidate(nodes, probe)
    case None => None
    case Some(selected) =>
      if selected != "" then Some((selected, LeastUsedEntry(f, selected, ProbeNode(probe, selected).value)))
      else None
  }

  /** The eligible nodes, in the order least-used scans them, are the
      accepted nodes in registry order. */
  lemma EligibleOrder(nodes: Dict<string, Fields>, probe: Probe)
    requires nodes.Valid()
    ensures EligibleNodes(AllNodeMetrics(nodes, probe)).order == Restrict(nodes.order, AcceptedNodes(nodes, probe))
  {
    var all := AllNodeMetrics(nodes, probe);
    var e := set n | n in all.entries && RamBelowThreshold(all.entries[n]);
    RestrictTwice(nodes.order, Reachable(nodes, probe), e);
    forall n
      ensures n in Reachable(nodes, probe) * e <==> n in AcceptedNodes(nodes, probe)
    {
      if n in nodes.entries && ProbeNode(probe, n).Some? {
        assert all.entries[n] == ProbeNode(probe, n).value;
      }
    }
    assert Reachable(nodes, probe) * e == AcceptedNodes(nodes, probe);
  }

  /** The candidate is the node `min` picks among the eligible readings. */
  lemma CandidateIsMin(nodes: Dict<string, Fields>, probe: Probe)
    requires nodes.Valid()
    ensures LeastUsedCandidate(nodes, probe) == MinCpuNode(EligibleNodes(AllNodeMetrics(nodes, probe)))
  {
    EmptyIffNoKeys(nodes);
    var all := AllNodeMetrics(nodes, probe);
    EmptyIffNoKeys(all);
    EmptyIffNoKeys(EligibleNodes(all));
  }

  /** When the readings are those of `order` kept by `keep`, the node `min`
      picks reads strictly less CPU than every kept node before it. */
  lemma MinCpuNodeFirst(eligible: Dict<string, Metrics>, order: seq<string>, keep: set<string>, p: nat)
    requires eligible.Valid() && eligible.order == Restrict(order, keep)
    requires p < |order| && order[p] in keep && MinCpuNode(eligible) == Some(order[p])
    ensures forall n :: n in order[..p] && n in keep ==>
      LoadLess(eligible.entries[order[p]].cpu, eligible.entries[n].cpu)
  {
    RestrictAt(order, keep, p);
    var k := |Restrict(order[..p], keep)|;
    assert eligible.order[k] == order[p];
    forall n | n in order[..p] && n in keep
      ensures LoadLess(eligible.entries[order[p]].cpu, eligible.entries[n].cpu)
    {
      assert n in eligible.order[..k];
      var j :| 0 <= j < k && eligible.order[..k][j] == n;
      assert eligible.order[j] == n;
    }
  }

  /** Ties go to the first node in registry order: every accepted node
      registered before the chosen one reports strictly more CPU usage. */
  lemma LeastUsedFirstMinimum(nodes: Dict<string, Fields>, probe: Probe, p: nat)
    requires nodes.Valid() && p < |nodes.order|
    requires LeastUsedCandidate(nodes, probe) == Some(nodes.order[p])
    ensures forall n :: n in nodes.order[..p] && Accepts(probe, n) ==>
      LoadLess(Cpu(probe, nodes.order[p]), Cpu(probe, n))
  {
    var eligible := EligibleNodes(AllNodeMetrics(nodes, probe));
    var acc := AcceptedNodes(nodes, probe);
    CandidateIsMin(nodes, probe);
    EligibleOrder(nodes, probe);
    MinCpuNodeFirst(eligible, nodes.order, acc, p);
    var w := nodes.order[p];
    assert Cpu(probe, w) == eligible.entries[w].cpu;
    forall n | n in nodes.order[..p] && Accepts(probe, n)
      ensures LoadLess(Cpu(probe, w), Cpu(probe, n))
    {
      assert n in acc;
      assert Cpu(probe, n) == eligible.entries[n].cpu;
    }
  }

  /** Least-used finds no node exactly when no registered node is accepted,
      or when the node it settles on is named `""`. */
  lemma LeastUsedNone(nodes: Dict<string, Fields>, f: string, probe: Probe)
    requires nodes.Valid()
    ensures LeastUsedSelect(nodes, f, probe).None? <==>
      (forall n :: n in nodes.entries ==> !Accepts(probe, n)) || LeastUsedCandidate(nodes, probe) == Some("")
  {
  }

  /** A node reporting strictly less CPU usage than every other accepted
      node is the one least-used chooses, unless it is named `""`. */
  lemma LeastUsedUniqueMinimum(nodes: Dict<string, Fields>, f: string, probe: Probe, w: string)
    requires nodes.Valid() && w in nodes.entries && Accepts(probe, w) && w != ""
    requires forall n :: n in nodes.entries && Accepts(probe, n) && n != w ==> LoadLess(Cpu(probe, w), Cpu(probe, n))
    ensures LeastUsedSelect(nodes, f, probe) == Some((w, LeastUsedEntry(f, w, ProbeNode(probe, w).value)))
  {
    var c := LeastUsedCandidate(nodes, probe);
    LoadLessOrder();
    assert c == Some(w);
  }
}
