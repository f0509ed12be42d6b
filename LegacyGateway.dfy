/** The older gateway of `main.py`: its own registries, an index-based
    round-robin over the node names in insertion order, and the guards of
    `invoke_function`. The SSH session that runs the image is not
    modelled: its outcome is given. */
module LegacyGateway {
  import opened Basics
  import opened PyDict
  import opened GatewayState
  import opened Policies

  /** The state of `RoundRobinNodeSelectionPolicy`: the cached names and
      `last_selected_node_index`. */
  datatype LegacyCursor = LegacyCursor(cache: seq<string>, last: int)

  ghost predicate LegacyCursorValid(c: LegacyCursor) {
    c.last == -1 || 0 <= c.last < |c.cache|
  }

  /** `i % n` for `0 <= i <= n`, the only operands `select_node` gives `%`. */
  function WrapIndex(i: int, n: nat): (r: nat)
    requires 0 <= i <= n && n > 0
    ensures r < n
  {
    if i == n then 0 else i
  }

  /** `WrapIndex` is Python's (and Dafny's) `%` on those operands. */
  lemma WrapIndexIsMod(i: int, n: nat)
    requires 0 <= i <= n && n > 0
    ensures WrapIndex(i, n) == i % n
  {
  }

  /** The index the next pick starts from: the one after the last pick,
      or the first name after a reset. */
  function LegacyStart(c: LegacyCursor, names: seq<string>): (i: nat)
    requires LegacyCursorValid(c) && |names| > 0
    ensures i < |names|
    ensures names != c.cache ==> i == 0
  {
    WrapIndex((if names == c.cache then c.last else -1) + 1, |names|)
  }

  /** One pick over the non-empty name list `names`. */
  function LegacyTurn(c: LegacyCursor, names: seq<string>): (r: (LegacyCursor, string))
    requires LegacyCursorValid(c) && |names| > 0
    ensures LegacyCursorValid(r.0) && r.0.cache == names
    ensures r.0.last == LegacyStart(c, names) && r.1 == names[r.0.last]
  {
    var next := LegacyStart(c, names);
    (LegacyCursor(names, next), names[next])
  }

  /** One call of `select_node` from state `c`: the new state and the name. */
  function LegacyStep(c: LegacyCursor, nodes: Dict<string, Fields>): (r: (LegacyCursor, Option<string>))
    requires LegacyCursorValid(c) && nodes.Valid()
    ensures LegacyCursorValid(r.0)
    ensures nodes.IsEmpty() <==> r.1.None?
    ensures nodes.IsEmpty() ==> r.0 == c
    ensures r.1.Some? ==> r.1.value in nodes.entries
  {
    if nodes.IsEmpty() then (c, None)
    else
      var turn := LegacyTurn(c, nodes.order);
      (turn.0, Some(turn.1))
  }

  /** When the names differ from the cache, the next pick is the first
      registered node. */
  lemma LegacyResetPicksFirst(c: LegacyCursor, nodes: Dict<string, Fields>)
    requires LegacyCursorValid(c) && nodes.Valid() && !nodes.IsEmpty() && nodes.order != c.cache
    ensures LegacyStep(c, nodes) == (LegacyCursor(nodes.order, 0), Some(nodes.order[0]))
  {
  }

  /** On an unchanged name list the index moves one place along the cycle. */
  lemma LegacyAdvance(c: LegacyCursor, names: seq<string>)
    requires LegacyCursorValid(c) && |names| > 0 && names == c.cache
    ensures 0 <= c.last ==> LegacyTurn(c, names).0.last == Next(c.last, |names|)
    ensures c.last == -1 ==> LegacyTurn(c, names).0.last == 0
  {
  }

  /** The names picked by `k` consecutive calls on the same registry, and
      the state after them. */
  function LegacyRun(c: LegacyCursor, names: seq<string>, k: nat): (r: (LegacyCursor, seq<Option<string>>))
    requires LegacyCursorValid(c) && |names| > 0
    ensures LegacyCursorValid(r.0) && |r.1| == k
    decreases k
  {
    if k == 0 then (c, [])
    else
      var turn := LegacyTurn(c, names);
      var rest := LegacyRun(turn.0, names, k - 1);
      (rest.0, [Some(turn.1)] + rest.1)
  }

  /** The `j`-th of `k` calls picks the name `j` steps along the cycle from
      where the first call starts, and after `k > 0` calls the index is
      `k - 1` steps along. */
  lemma {:induction false} LegacyWalk(c: LegacyCursor, names: seq<string>, k: nat)
    requires LegacyCursorValid(c) && |names| > 0
    ensures var n := |names|;
      var s := LegacyStart(c, names);
      var r := LegacyRun(c, names, k);
      && (forall j :: 0 <= j < k ==> r.1[j] == Some(names[Pos(s, j, n)]))
      && (k > 0 ==> r.0 == LegacyCursor(names, Pos(s, k - 1, n)))
    decreases k
  {
    if k > 0 {
      var n := |names|;
      var s := LegacyStart(c, names);
      var turn := LegacyTurn(c, names);
      LegacyAdvance(turn.0, names);
      assert LegacyStart(turn.0, names) == Next(s, n);
      LegacyWalk(turn.0, names, k - 1);
      var rest := LegacyRun(turn.0, names, k - 1);
      var r := LegacyRun(c, names, k);
      assert r.1 == [Some(names[s])] + rest.1 && r.0 == rest.0;
      forall j | 1 <= j < k
        ensures r.1[j] == Some(names[Pos(s, j, n)])
      {
        assert r.1[j] == rest.1[j - 1];
        PosShift(s, j - 1, n);
      }
      assert r.1[0] == Some(names[Pos(s, 0, n)]);
      if k > 1 {
        PosShift(s, k - 2, n);
        assert r.0 == LegacyCursor(names, Pos(s, k - 1, n));
      } else {
        assert r.0 == turn.0;
      }
    }
  }

  /** With an unchanged registry, successive picks cycle through the names
      in insertion order: after a reset, `n` calls pick every node exactly
      once, first registered first, and leave the index on the last one. */
  lemma LegacyCycleAfterReset(c: LegacyCursor, names: seq<string>)
    requires LegacyCursorValid(c) && |names| > 0 && names != c.cache
    ensures LegacyRun(c, names, |names|) == (LegacyCursor(names, |names| - 1), Picks(names))
  {
    var n := |names|;
    LegacyWalk(c, names, n);
    var r := LegacyRun(c, names, n);
    var p := Picks(names);
    assert LegacyStart(c, names) == 0;
    forall j | 0 <= j < n
      ensures r.1[j] == p[j]
    {
      PosValue(0, j, n);
    }
    assert r.1 == p;
    PosValue(0, n - 1, n);
    assert r.0 == LegacyCursor(names, n - 1);
  }

  /** The state after, and the answers of, `k` consecutive calls of
      `select_node` on the same registry. An empty registry answers `None`
      every time and leaves the state alone. */
  function LegacySteps(c: LegacyCursor, nodes: Dict<string, Fields>, k: nat): (r: (LegacyCursor, seq<Option<string>>))
    requires LegacyCursorValid(c) && nodes.Valid()
    ensures LegacyCursorValid(r.0) && |r.1| == k
    ensures nodes.IsEmpty() ==> r.0 == c && forall j :: 0 <= j < k ==> r.1[j].None?
    decreases k
  {
    if k == 0 then (c, [])
    else
      var step := LegacyStep(c, nodes);
      var rest := LegacySteps(step.0, nodes, k - 1);
      (rest.0, [step.1] + rest.1)
  }

  /** On a non-empty registry, `k` calls of `select_node` are the `k`
      turns `LegacyRun` counts over the registry's names. */
  lemma {:induction false} LegacyStepsAreRun(c: LegacyCursor, nodes: Dict<string, Fields>, k: nat)
    requires LegacyCursorValid(c) && nodes.Valid() && !nodes.IsEmpty()
    ensures LegacySteps(c, nodes, k) == LegacyRun(c, nodes.order, k)
    decreases k
  {
    if k > 0 {
      LegacyStepsAreRun(LegacyStep(c, nodes).0, nodes, k - 1);
    }
  }

  /** A new policy, or one whose cached names differ from the registry's,
      answers `N` calls on a registry of `N` nodes with every node once, in
      registration order. */
  lemma LegacyStepsCycle(c: LegacyCursor, nodes: Dict<string, Fields>)
    requires LegacyCursorValid(c) && nodes.Valid() && !nodes.IsEmpty() && nodes.order != c.cache
    ensures LegacySteps(c, nodes, |nodes.order|) == (LegacyCursor(nodes.order, |nodes.order| - 1), Picks(nodes.order))
  {
    LegacyStepsAreRun(c, nodes, |nodes.order|);
    LegacyCycleAfterReset(c, nodes.order);
  }

  /** `RoundRobinNodeSelectionPolicy`. */
  class LegacyRoundRobin {
    var nodeNamesCache: seq<string>
    var lastSelectedIndex: int

    ghost predicate Valid()
      reads this
    {
      LegacyCursorValid(State())
    }

    function State(): LegacyCursor
      reads this
    {
      LegacyCursor(nodeNamesCache, lastSelectedIndex)
    }

    constructor ()
      ensures Valid() && State() == LegacyCursor([], -1)
    {
      nodeNamesCache := [];
      lastSelectedIndex := -1;
    }

    /** `select_node`. The `if not self.node_names_cache` guard after the
        cache refresh can never fire, since the cache then holds the names of
        a non-empty registry; it is not repeated here. */
    method SelectNode(nodes: Dict<string, Fields>) returns (name: Option<string>)
      requires Valid() && nodes.Valid()
      modifies this
      ensures Valid()
      ensures (State(), name) == LegacyStep(old(State()), nodes)
    {
      if nodes.IsEmpty() {
        return None;
      }
      var current := nodes.order;
      if current != nodeNamesCache {
        nodeNamesCache := current;
        lastSelectedIndex := -1;
      }
      WrapIndexIsMod(lastSelectedIndex + 1, |nodeNamesCache|);
      lastSelectedIndex := (lastSelectedIndex + 1) % |nodeNamesCache|;
      name := Some(nodeNamesCache[lastSelectedIndex]);
    }
  }

  // ---------------------------------------------------------------------------
  // Registries and endpoints

  /** The port a node uses when its registration gives none. */
  const DEFAULT_SSH_PORT: int := 22

  const PASSWORD_KEY: string := "password"

  /** The descriptor `register_node` stores. */
  function NodeDescriptor(host: string, port: int, username: string, password: string): (d: Fields)
    ensures d.Valid()
    ensures d.order == ["host", "port", "username", PASSWORD_KEY]
    ensures d.entries == map["host" := Str(host), "port" := Int(port), "username" := Str(username),
      PASSWORD_KEY := Str(password)]
  {
    var keys := ["host", "port", "username", PASSWORD_KEY];
    assert forall i :: 0 <= i < |keys| ==> keys[i][0] == "hpup"[i];
    assert forall i, j :: 0 <= i < j < |keys| ==> keys[i] != keys[j] by {
      assert keys[1][1] != keys[3][1];
    }
    Dict(keys, map["host" := Str(host), "port" := Int(port), "username" := Str(username), PASSWORD_KEY := Str(password)])
  }

  /** `{k: v for k, v in info.items() if k != "password"}`. */
  function StripPassword(info: Fields): (r: Fields)
    requires info.Valid()
    ensures r.Valid()
    ensures r.order == Restrict(info.order, info.entries.Keys - {PASSWORD_KEY})
    ensures PASSWORD_KEY !in r.entries
    ensures forall k :: k != PASSWORD_KEY ==> (k in r.entries <==> k in info.entries)
    ensures forall k :: k in r.entries ==> r.entries[k] == info.entries[k]
    ensures r.entries == info.entries - {PASSWORD_KEY}
  {
    var keep := info.entries.Keys - {PASSWORD_KEY};
    RestrictDistinct(info.order, keep);
    Dict(Restrict(info.order, keep), info.entries - {PASSWORD_KEY})
  }

  /** `list_nodes`: every node, in registry order, with its descriptor
      stripped of the password. */
  function ListNodes(reg: Dict<string, Fields>): (r: Dict<string, Fields>)
    requires reg.Valid() && forall n :: n in reg.entries ==> reg.entries[n].Valid()
    ensures r.Valid() && r.order == reg.order && r.entries.Keys == reg.entries.Keys
    ensures forall n :: n in r.entries ==> r.entries[n] == StripPassword(reg.entries[n])
  {
    Dict(reg.order, map n | n in reg.entries :: StripPassword(reg.entries[n]))
  }

  /** Restricting four keys to the first three of them. */
  lemma RestrictDropLast(a: string, b: string, c: string, p: string, keep: set<string>)
    requires a in keep && b in keep && c in keep && p !in keep
    ensures Restrict([a, b, c, p], keep) == [a, b, c]
  {
    assert [p][1..] == [];
    assert Restrict([p], keep) == [];
    assert [c, p][1..] == [p];
    assert Restrict([c, p], keep) == [c] + Restrict([p], keep);
    assert [b, c, p][1..] == [c, p];
    assert Restrict([b, c, p], keep) == [b] + Restrict([c, p], keep);
    assert [a, b, c, p][1..] == [b, c, p];
    assert Restrict([a, b, c, p], keep) == [a] + Restrict([b, c, p], keep);
  }

  /** A registered node is listed with its host, port and user, in that
      order, and nothing else. */
  lemma ListedDescriptor(host: string, port: int, username: string, password: string)
    ensures var r := StripPassword(NodeDescriptor(host, port, username, password));
      r.order == ["host", "port", "username"] &&
      r.entries == NodeDescriptor(host, port, username, password).entries - {PASSWORD_KEY}
  {
    var d := NodeDescriptor(host, port, username, password);
    var keep := d.entries.Keys - {PASSWORD_KEY};
    assert keep == {"host", "port", "username"};
    RestrictDropLast("host", "port", "username", PASSWORD_KEY, keep);
  }

  const DOCKER_RUN_PREFIX: string := "docker run --rm "

  /** The command a legacy invocation sends: run the image in a container
      that is removed when it exits. */
  function DockerRunCommand(image: string): (cmd: string)
    ensures |cmd| == |DOCKER_RUN_PREFIX| + |image|
    ensures cmd[..|DOCKER_RUN_PREFIX|] == DOCKER_RUN_PREFIX && cmd[|DOCKER_RUN_PREFIX|..] == image
  {
    DOCKER_RUN_PREFIX + image
  }

  class Gateway {
    var functionRegistry: Dict<string, string>
    var nodeRegistry: Dict<string, Fields>
    var policy: LegacyRoundRobin

    ghost predicate Valid()
      reads this, policy
    {
      && functionRegistry.Valid()
      && nodeRegistry.Valid()
      && (forall n :: n in nodeRegistry.entries ==> nodeRegistry.entries[n].Valid())
      && policy.Valid()
    }

    /** An empty gateway with a fresh selection policy. */
    constructor ()
      ensures Valid() && fresh(policy)
      ensures functionRegistry == Empty() && nodeRegistry == Empty()
      ensures policy.State() == LegacyCursor([], -1)
    {
      functionRegistry := Empty();
      nodeRegistry := Empty();
      policy := new LegacyRoundRobin();
    }

    /** `register_function`: 400 for a name already registered, which then
        keeps its image; otherwise the name is added with its image. */
    method RegisterFunction(name: string, image: string) returns (err: Option<HttpError>)
      requires Valid()
      modifies this`functionRegistry
      ensures Valid()
      ensures name in old(functionRegistry.entries) ==>
        err == Some(HttpError(400)) && functionRegistry == old(functionRegistry)
      ensures name !in old(functionRegistry.entries) ==>
        err.None? && functionRegistry == old(functionRegistry).Put(name, image)
    {
      if name in functionRegistry.entries {
        return Some(HttpError(400));
      }
      functionRegistry := functionRegistry.Put(name, image);
      err := None;
    }

    /** `register_node`: 400 for a name already registered; otherwise the
        name is added with its connection descriptor. A request without a
        port uses the default SSH port. */
    method RegisterNode(name: string, host: string, username: string, password: string, port: int := DEFAULT_SSH_PORT)
      returns (err: Option<HttpError>)
      requires Valid()
      modifies this`nodeRegistry
      ensures Valid()
      ensures name in old(nodeRegistry.entries) ==>
        err == Some(HttpError(400)) && nodeRegistry == old(nodeRegistry)
      ensures name !in old(nodeRegistry.entries) ==>
        err.None? && nodeRegistry == old(nodeRegistry).Put(name, NodeDescriptor(host, port, username, password))
    {
      if name in nodeRegistry.entries {
        return Some(HttpError(400));
      }
      nodeRegistry := nodeRegistry.Put(name, NodeDescriptor(host, port, username, password));
      err := None;
    }

    /** `invoke_function`: 404 for an unknown function and 503 for an empty
        node registry, both before any selection; then the policy picks a
        node, and 503 follows if the pick is missing, `""` or not
        registered. Otherwise `sent` is the node and the command it is
        given, and the result is the run's output, or 500 if the run fails. */
    method InvokeFunction(name: string, runSucceeds: bool, output: string)
      returns (r: Result<string, HttpError>, sent: Option<(string, string)>)
      requires Valid()
      modifies policy
      ensures Valid()
      ensures name !in functionRegistry.entries ==>
        r == Err(HttpError(404)) && sent.None? && policy.State() == old(policy.State())
      ensures name in functionRegistry.entries && nodeRegistry.IsEmpty() ==>
        r == Err(HttpError(503)) && sent.None? && policy.State() == old(policy.State())
      ensures name in functionRegistry.entries && !nodeRegistry.IsEmpty() ==>
        var step := LegacyStep(old(policy.State()), nodeRegistry);
        && policy.State() == step.0
        && (sent.Some? <==> step.1.Some? && step.1.value != "" && step.1.value in nodeRegistry.entries)
        && (sent.None? ==> r == Err(HttpError(503)))
        && (sent.Some? ==>
              && sent.value == (step.1.value, DockerRunCommand(functionRegistry.entries[name]))
              && r == if runSucceeds then Ok(output) else Err(HttpError(500)))
    {
      sent := None;
      if name !in functionRegistry.entries {
        return Err(HttpError(404)), sent;
      }
      if nodeRegistry.IsEmpty() {
        return Err(HttpError(503)), sent;
      }
      var node := policy.SelectNode(nodeRegistry);
      if node.None? || node.value == "" || node.value !in nodeRegistry.entries {
        return Err(HttpError(503)), sent;
      }
      var image := functionRegistry.entries[name];
      sent := Some((node.value, DockerRunCommand(image)));
      r := if runSucceeds then Ok(output) else Err(HttpError(500));
    }
  }
}
