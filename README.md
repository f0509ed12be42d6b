# FaaS gateway scheduling core, modelled in Dafny

This project models the decision logic of a Function-as-a-Service gateway.
The gateway keeps registries of functions and nodes. For each
invocation it picks a node to run the function on, and it records how the
invocation went.

The modelled parts:

* **Node-selection policies.**
  * A round-robin policy keeps a cyclic cursor over the sorted node
    names. It restarts when the set of names changes. It skips nodes that
    cannot be probed or whose RAM usage is at or above 90%, and it probes
    at most one candidate per node.
  * A least-used policy probes every node and keeps the reachable nodes
    whose RAM usage is below the threshold. It then takes the first node
    with the least CPU usage.
* **The warm-state chain.** WarmedFirst, then PreWarmedFirst, then
  DefaultCold give a fixed priority lookup over the warm-state store
  (function, then node, then tag).
* **StaticWarming.** This policy asks the scheduler for a node, then
  pre-warms the function there (pulls the image) or warms it up (starts
  a standing container).
* **The warm-state transitions** and the parsing of a node's load reading.
* **The older gateway.** It has an index-based round robin over the node
  names in insertion order, duplicate-rejecting registries, a node
  listing that hides passwords, and the guards of its invoke endpoint.
* **Invocation records.** A record is assembled from a scheduler
  snapshot or a fresh probe, and then appended to the metrics log. The
  mode-label table, the "Cold" category and the fixed order of the present
  categories are also modelled.
* **The Fibonacci workload.** Both function images ship the same
  `loop_function.py`. The model covers its loop and its handler.

Modules follow the source files:

| Module | Models |
|---|---|
| `Basics` | shared values |
| `PyDict` | an insertion-ordered Python dict |
| `Strings` | `sorted()`, `in`, `str()` and `int()` on strings |
| `Records` | loads and records |
| `Models` | models.py |
| `GatewayState` | state.py |
| `NodeManager` | node_manager.py |
| `Policies` | the round-robin and least-used policies of policies.py |
| `Chain` | the warm-state chain and StaticWarming of policies.py |
| `LegacyGateway` | main.py |
| `Metrics` | metrics.py |
| `LoopFunction` | loop_function.py |

Remote effects are inputs to the model:

* **A metrics probe** is a `Probe`, the reply each node gives. The reply
  is unreachable, malformed, or a JSON object whose two fields may each
  be missing, a number, or not a number.
* **A remote command** is a boolean that says whether the command
  succeeded. The methods return the command text that would be sent.
* **The SSH run of the older gateway** is given as a success flag and
  its output.
* **An invocation's duration** is a parameter.

Loads are `real` numbers. `Infinite` stands for the `float('inf')` that
marks a missing field as the worst case.

Where the code differs from the documented design of the system, the model
follows the code:

* The least-used policy ranks by CPU usage alone (api_gateway/policies.py:69).
  It does not use a mean of CPU and RAM usage.
* There is no most-used policy.
* A "pre-warmed" tag is never reverted after an invocation uses it.
* A node with RAM usage exactly at the threshold is excluded, because the
  test is a strict `<`.

## Model

| member | source | states |
|---|---|---|
| Models.ModeTable | api_gateway/models.py:26-29 | the comprehension's keys are exactly the values of the listed modes, and the result is a well-formed dict |
| Models.ExecutionModeMapContents | api_gateway/models.py:21-29 | `EXECUTION_MODE_MAP` has exactly the keys cold, pre-warmed and warmed, in that order, mapped to Cold, Pre-warmed and Warmed |
| Models.ModesDistinct | api_gateway/models.py:21-24 | the three modes have pairwise distinct values and pairwise distinct labels |
| Models.ModeTableLookup | api_gateway/models.py:26-29 | each mode's value looks up that mode's label |
| Models.ModeTableInjective | api_gateway/models.py:26-29 | distinct keys of the table map to distinct labels |
| Models.ModeLabel | api_gateway/metrics.py:77 | `EXECUTION_MODE_MAP.get(mode, mode)` gives the label of the three mode values, and any other string passes through unchanged |
| PyDict.Dict.Put | api_gateway/main.py:88 | `d[k] = v` stores exactly `v` under `k`; an existing key keeps its place, and a new key goes at the end of the iteration order |
| PyDict.EmptyIffNoKeys | api_gateway/policies.py:17 | `not d` holds exactly when the dict has no keys |
| Strings.LexLeIsPythonOrder | api_gateway/policies.py:20 | the order `sorted()` uses on names: `a <= b` exactly when `a` is a prefix of `b` or the first differing character is smaller in `a` |
| Strings.Sort | api_gateway/policies.py:20 | `sorted()` returns an ordered permutation of its input |
| Strings.SortMembers | api_gateway/policies.py:20 | `sorted()` keeps exactly the names it is given |
| Strings.SortDistinct | api_gateway/policies.py:20 | sorting names without repeats gives names without repeats |
| Strings.Contains | api_gateway/metrics.py:30 | `sub in s` holds exactly when `sub` occurs in `s` at some index |
| Strings.Decimal | custom_python_heavy/loop_function.py:19 | `str(n)` is a non-empty run of decimal digits without a leading zero |
| Strings.ParseDecimal | custom_python_heavy/loop_function.py:7 | `int(str(n)) == n` for every non-negative `n` |
| Strings.ParseInt | custom_python_heavy/loop_function.py:7 | `int(s)` succeeds exactly on an optional sign followed by one or more decimal digits, and then gives the sign times the value of the digits; anything else is rejected (ValueError) |
| Strings.ParsePlusDecimal | custom_python_heavy/loop_function.py:7 | `int("+" + str(n)) == n` |
| Strings.ParseLeadingZero | custom_python_heavy/loop_function.py:7 | a leading zero is accepted and ignored, so `int("007") == 7` |
| Strings.ParseRejects | custom_python_heavy/loop_function.py:7 | `""`, `"-"`, `"+"` and a decimal followed by a non-digit, such as `"5a"`, are rejected |
| Strings.ParseNegativeDecimal | custom_python_heavy/loop_function.py:7 | `int("-" + str(n)) == -n` for every non-negative `n` |
| Records.LoadLessOrder | api_gateway/policies.py:69 | the `<` used to compare loads is a strict total order |
| Records.InfiniteIsWorst | api_gateway/node_manager.py:39-40 | the missing-field sentinel is above every other load |
| GatewayState.State.constructor | api_gateway/state.py:3-6 | a new state holds the given registries, an empty warm-state store and an empty log |
| NodeManager.FieldLoad | api_gateway/node_manager.py:39-40 | a missing field reads as `inf`, above every finite load; a number reads as itself; anything else makes `float()` fail |
| NodeManager.GetMetricsForNode | api_gateway/node_manager.py:33-44 | a reading exists exactly when the reply is an object whose fields parse; a missing field reads as the worst case; a numeric field reads as its value |
| NodeManager.ParseReply | api_gateway/node_manager.py:36-41 | the reply of a node that reports both loads parses back to those loads |
| NodeManager.RamBelowThreshold | api_gateway/policies.py:31 | a reading passes the RAM test exactly when its RAM load is below 90 under Python's `<` on floats, so RAM exactly 90 (and a missing field) fails |
| NodeManager.MissingRamNeverEligible | api_gateway/policies.py:31 | a reply without a RAM field never passes the RAM test |
| NodeManager.ContainerNameInjective | api_gateway/node_manager.py:71 | on one node, distinct functions get distinct standing-container names |
| NodeManager.ContainerName | api_gateway/node_manager.py:71 | the container name is `CONTAINER_PREFIX`, then the function name, then "--", then the node name |
| NodeManager.WarmupCommand | api_gateway/node_manager.py:74 | the warm-up command is "sudo docker run -d --name ", the container name, a space, the image, and " sleep infinity" |
| NodeManager.PrewarmCommand | api_gateway/node_manager.py:52-55 | the pre-warm command is "sudo docker pull " followed by the image |
| NodeManager.Registered | api_gateway/node_manager.py:48 | the function and the node are both keys of their registries |
| NodeManager.SetTag | api_gateway/node_manager.py:57-59 | writing a tag creates the function's inner dict when absent and leaves every other function's dict unchanged |
| NodeManager.TagAfterSetTag | api_gateway/node_manager.py:77-79 | after a write the pair carries exactly the new tag, any earlier tag overwritten, and every other pair keeps its tag |
| NodeManager.SetTagKeepsOrder | api_gateway/node_manager.py:57-59 | a write keeps the order of the function's nodes; a new node goes at the end |
| NodeManager.PrewarmFunctionOnNode | api_gateway/node_manager.py:46-61 | nothing happens unless the function and node are registered; otherwise the pull command is sent, and on success the pair is tagged pre-warmed; a failure leaves the store unchanged |
| NodeManager.WarmupFunctionOnNode | api_gateway/node_manager.py:64-81 | nothing happens unless the function and node are registered; otherwise the run command for the container `CONTAINER_PREFIX + f + "--" + n` is sent, and on success the pair is tagged warmed; a failure leaves the store unchanged |
| Policies.Accepts | api_gateway/policies.py:29-31 | a candidate passes exactly when its probe parses and its RAM load is below the threshold, so only a node that answered with a numeric RAM reading below 90 passes |
| Policies.StartOf | api_gateway/policies.py:21-23 | the scan starts at the first sorted name when the names changed, otherwise at the cursor, and always inside the list |
| Policies.FirstAccepted | api_gateway/policies.py:26-37 | the number of candidates rejected along the cycle before the first accepted one; every candidate before it is rejected |
| Policies.RoundRobinEntry | api_gateway/policies.py:32-34 | the round-robin record carries the function, the node, both loads and the mode "Round Robin - Cold" |
| Policies.RoundRobinTurn | api_gateway/policies.py:20-43 | one call caches the sorted names, and a pick is one of them that is reachable with RAM below the threshold |
| Policies.RoundRobinTurnAccepted | api_gateway/policies.py:26-35 | an accepted first candidate is taken, and the cursor moves one step |
| Policies.RoundRobinTurnNoPick | api_gateway/policies.py:25-43 | a call finds nothing exactly when every node is rejected, and the cursor is then back where the call started |
| Policies.RoundRobinTurnAfterReset | api_gateway/policies.py:20-23 | after the set of names changes, the first accepted name in sorted order is taken, and every name before it was rejected |
| Policies.RoundRobinSelect | api_gateway/policies.py:16-43 | an empty registry gives no node and leaves the cursor alone; a pick is registered, reachable and below the RAM threshold, and it comes with its round-robin record |
| Policies.RoundRobinRun | api_gateway/policies.py:16-43 | `k` consecutive calls give `k` answers and a valid cursor |
| Policies.RoundRobinWalk | api_gateway/policies.py:20-35 | with every node accepted, the `i`-th of `k` calls takes the name `i` steps along the cycle, and the cursor ends `k` steps along |
| Policies.RoundRobinFairStable | api_gateway/policies.py:20-35 | on a stable set of names with every node accepted, `N` calls take each name once, in rotated sorted order, and the cursor returns to its start |
| Policies.RoundRobinFairAfterReset | api_gateway/policies.py:20-35 | after a change of names, with every node accepted, `N` calls take each sorted name once in order and leave the cursor on the first; the next `N` calls repeat that order |
| Policies.SortedNamesOfRegistry | api_gateway/policies.py:20 | the sorted names list every registered node exactly once |
| Policies.RoundRobinSelectAfterScan | api_gateway/policies.py:25-43 | what the loop found and where it left the cycle determine the whole result of `select_node` |
| Policies.ScanCycle | api_gateway/policies.py:25-43 | the loop probes candidates along the cycle until the first accepted one, stops at most after every node, and leaves the cycle one step past the last candidate probed |
| Policies.RoundRobinPolicy.constructor | api_gateway/policies.py:12-14 | a new policy has an empty cache and cycle |
| Policies.RoundRobinStep | api_gateway/policies.py:16-43 | on the policy's cursor as a value: the new cursor and the pick are those of `RoundRobinSelect`; an empty registry leaves the cursor alone; at most one probe per node, every node is probed when nothing is picked, and the pick is the last candidate probed |
| Policies.RoundRobinPolicy.SelectNode | api_gateway/policies.py:16-43 | the new cursor and the pick are those of `RoundRobinSelect`; at most one probe per node, and every node is probed when nothing is picked |
| Policies.AllNodeMetrics | api_gateway/policies.py:46-49 | exactly the reachable nodes with their readings, in registry order |
| Policies.EligibleNodes | api_gateway/policies.py:60-63 | exactly the readings with RAM below the threshold, with their values and order |
| Policies.MinCpuIndex | api_gateway/policies.py:69 | `min` with the CPU key: no name has strictly less CPU usage than the chosen one, and every earlier name has strictly more |
| Policies.LeastUsedEntry | api_gateway/policies.py:72 | the least-used record carries the function, the node, both loads and the mode "Least Used - Cold" |
| Policies.MinCpuNode | api_gateway/policies.py:65-69 | no node exactly when nothing is eligible; otherwise an eligible node of least CPU usage, and every eligible node before it has strictly more |
| Policies.LeastUsedCandidate | api_gateway/policies.py:51-69 | no node exactly when no registered node is reachable below the threshold; otherwise such a node of least CPU usage among them |
| Policies.LeastUsedSelect | api_gateway/policies.py:51-74 | an empty registry gives nothing; a pick is registered, reachable, below the threshold, of least CPU usage and not `""`, and it comes with its least-used record |
| Policies.EligibleOrder | api_gateway/policies.py:46-63 | the eligible nodes are scanned in registry order |
| Policies.CandidateIsMin | api_gateway/policies.py:55-69 | the candidate is the node `min` picks among the eligible readings |
| Policies.LeastUsedFirstMinimum | api_gateway/policies.py:69 | ties go to the first node in registry order: every accepted node registered earlier reports strictly more CPU usage |
| Policies.LeastUsedNone | api_gateway/policies.py:52-74 | no node exactly when no registered node is accepted, or the chosen node is named `""` |
| Policies.LeastUsedUniqueMinimum | api_gateway/policies.py:60-73 | an accepted node whose CPU usage is strictly below every other accepted node's is the one chosen |
| Chain.SchedulerStep | api_gateway/policies.py:79 | a call to either scheduler keeps a valid cursor; an empty registry gives no node; a pick is registered and accepted |
| Chain.ScheduleNode | api_gateway/policies.py:103 | calling the scheduler moves its state exactly as `SchedulerStep` says |
| Chain.SchedulerMode | api_gateway/policies.py:34 | a pick's record carries "Round Robin - Cold" or "Least Used - Cold", according to the scheduler |
| Chain.FirstWithValue | api_gateway/policies.py:88-90 | the scan finds the first key in iteration order with the tag, or reports that none has it |
| Chain.TaggedChoice | api_gateway/policies.py:87-90 | a hit exists exactly when some node of `f` has the tag; the hit carries the tag as its mode and no record, and no earlier node of `f` has the tag |
| Chain.DefaultCold | api_gateway/policies.py:101-107 | 503 exactly when the scheduler gives no node or `""`; otherwise the node, its record and the record's execution mode (default "Unknown") |
| Chain.ColdStep | api_gateway/policies.py:101-107 | DefaultCold keeps a valid cursor; it fails only with 503; a choice is a registered, accepted node not named `""`; an empty registry gives 503 and leaves the cursor alone |
| Chain.PreWarmedStep | api_gateway/policies.py:93-99 | when `f` has a pre-warmed node, the choice succeeds and the scheduler is not consulted; any choice is a pre-warmed node of `f` or a registered, accepted node |
| Chain.WarmedStep | api_gateway/policies.py:85-91 | when `f` has a warmed or pre-warmed node, the choice succeeds and the scheduler is not consulted; any choice is a warmed or pre-warmed node of `f` or a registered, accepted node |
| Chain.ChainPriority | api_gateway/policies.py:85-99 | a warmed node wins over pre-warmed and cold, and a pre-warmed node over cold; the hit is the first node with that tag in iteration order; a hit leaves the scheduler untouched and reports no record; only with neither tag is the scheduler asked |
| Chain.PreWarmedIgnoresWarmed | api_gateway/policies.py:93-99 | without a pre-warmed node, PreWarmedFirst asks the scheduler even when a warmed node exists |
| Chain.ColdStepResult | api_gateway/policies.py:101-107 | a cold choice fails with 503 exactly when the scheduler finds nothing usable; otherwise the node is registered and accepted, and the mode names the policy |
| Chain.EmptyRegistryUnavailable | api_gateway/policies.py:101-105 | an empty registry with no warm hit ends in 503 |
| Chain.DefaultColdSelect | api_gateway/policies.py:101-107 | the method's result and the scheduler's new state are those of the chain's cold step; the gateway state is unchanged |
| Chain.PreWarmedFirstSelect | api_gateway/policies.py:93-99 | the method's result and the scheduler's new state are those of the pre-warmed step; the gateway state is unchanged |
| Chain.WarmedFirstSelect | api_gateway/policies.py:85-91 | the method's result and the scheduler's new state are those of the warmed step; the warm-state store is never modified |
| Chain.NodeToPrepare | api_gateway/policies.py:80 | a node is prepared exactly when the scheduler gave one not named `""` |
| Chain.StaticWarmingApply | api_gateway/policies.py:76-83 | only "pre-warmed" and "warmed" consult the scheduler; a registered pick gets the pull or the run command; on success the pair gets that tag, and otherwise nothing changes |
| LegacyGateway.WrapIndex | api_gateway/main.py:46 | the wrapped index is below the list length |
| LegacyGateway.WrapIndexIsMod | api_gateway/main.py:46 | the wrap equals `% len` on the operands that occur |
| LegacyGateway.LegacyStart | api_gateway/main.py:37-46 | the next index is in range, and it is 0 after the names change |
| LegacyGateway.LegacyTurn | api_gateway/main.py:37-47 | a pick caches the names, stores an in-range index and returns the name there |
| LegacyGateway.LegacyStep | api_gateway/main.py:33-47 | no name exactly when the registry is empty, which leaves the state alone; a name is a registered node |
| LegacyGateway.LegacyResetPicksFirst | api_gateway/main.py:39-41 | a change of names resets the index, so the first registered node is picked |
| LegacyGateway.LegacyAdvance | api_gateway/main.py:46 | on unchanged names the index becomes `(prev + 1) % len` |
| LegacyGateway.LegacyRun | api_gateway/main.py:33-47 | `k` consecutive picks give `k` answers and a valid state |
| LegacyGateway.LegacyWalk | api_gateway/main.py:46-47 | the `j`-th of `k` picks is `j` steps along the cycle from the first pick |
| LegacyGateway.LegacyCycleAfterReset | api_gateway/main.py:37-47 | after a reset, `N` picks take every node once in insertion order and leave the index on the last |
| LegacyGateway.LegacySteps | api_gateway/main.py:33-47 | `k` consecutive calls give `k` answers and a valid state; on an empty registry every answer is `None` and the state stays put |
| LegacyGateway.LegacyStepsAreRun | api_gateway/main.py:33-47 | on a non-empty registry, `k` calls are the `k` turns of `LegacyRun` over the registry's names |
| LegacyGateway.LegacyStepsCycle | api_gateway/main.py:37-47 | from a new policy or after a change of names, `N` calls answer every node once in registration order and leave the index on the last |
| LegacyGateway.LegacyRoundRobin.constructor | api_gateway/main.py:29-31 | a new policy has index -1 and an empty cache |
| LegacyGateway.LegacyRoundRobin.SelectNode | api_gateway/main.py:33-47 | the new state and the name are those of `LegacyStep` |
| LegacyGateway.NodeDescriptor | api_gateway/main.py:103-108 | the descriptor has exactly host, port, username and password, in that order, with the given values |
| LegacyGateway.StripPassword | api_gateway/main.py:113 | the password key is removed; every other field keeps its value and its order |
| LegacyGateway.ListNodes | api_gateway/main.py:111-113 | the same node names in the same order, each with its descriptor stripped of the password |
| LegacyGateway.ListedDescriptor | api_gateway/main.py:103-113 | a registered node is listed with exactly host, port and username, in that order |
| LegacyGateway.DockerRunCommand | api_gateway/main.py:66 | the invocation command is "docker run --rm " followed by the image |
| LegacyGateway.Gateway.constructor | api_gateway/main.py:11-12 | the gateway starts with empty registries and a fresh policy |
| LegacyGateway.Gateway.RegisterFunction | api_gateway/main.py:84-89 | a duplicate name gives 400 and leaves the registry unchanged; otherwise exactly `name -> image` is added |
| LegacyGateway.Gateway.RegisterNode | api_gateway/main.py:99-109 | a duplicate name gives 400 and leaves the registry unchanged; otherwise exactly the descriptor is added under the name; the port defaults to 22 as in main.py:21 |
| LegacyGateway.Gateway.InvokeFunction | api_gateway/main.py:119-138 | 404 for an unknown function and 503 for an empty registry, both before any selection; 503 for an unusable pick; otherwise the run command goes to the picked node, and the result is the output or 500 |
| Metrics.HasNodeInfo | api_gateway/metrics.py:69-70 | `node_info` is truthy exactly when `get` finds a descriptor and it is not empty |
| Metrics.FreshReading | api_gateway/metrics.py:69-70 | a fresh record has readings exactly when the node has a descriptor and answered with an object whose fields parse |
| Metrics.AssembleRecord | api_gateway/metrics.py:67-78 | a supplied record keeps its function, node and loads; a fresh one has the function and node, plus the node's readings or "---"; both get the mode's label and the duration |
| Metrics.LogInvocationMetrics | api_gateway/metrics.py:67-79 | exactly one record, the assembled one, is appended at the end of the log; the old log is a prefix of the new one, so earlier records stay in place |
| Metrics.Category | api_gateway/metrics.py:30 | a mode containing "Cold" is in category "Cold"; any other mode is its own category |
| Metrics.CategoryIdempotent | api_gateway/metrics.py:52 | grouping a category again changes nothing |
| Metrics.ColdSuffixCategory | api_gateway/metrics.py:52 | a mode ending in "Cold" is in category "Cold" |
| Metrics.NoCapitalCCategory | api_gateway/metrics.py:52 | a mode without a capital C is its own category |
| Metrics.CategoryOfLabels | api_gateway/metrics.py:30 | the labels Cold, Pre-warmed and Warmed are their own categories |
| Metrics.CategoryOfSchedulerModes | api_gateway/metrics.py:30 | both schedulers' modes fall in "Cold" |
| Metrics.ChoiceCategory | api_gateway/metrics.py:30 | the reported category follows the chain: Warmed for a warmed hit, Pre-warmed for a pre-warmed hit, and Cold otherwise |
| Metrics.PresentCategories | api_gateway/metrics.py:32-33 | a category is present exactly when it is in the fixed order and in the data |
| Metrics.PresentCategoriesInOrder | api_gateway/metrics.py:53 | the present categories are the subsequence of Cold, Pre-warmed, Warmed that occur, in that order |
| Metrics.LogCategories | api_gateway/metrics.py:30-33 | every logged record with a mode contributes its category; each category is its own category; an empty log has none |
| Metrics.LogCategoriesAppend | api_gateway/metrics.py:79 | logging a record adds its category to those in the data |
| LoopFunction.FibSequence | custom_python_heavy/loop_function.py:9-23 | the text starts with "0", holds only digits, commas and spaces, and is exactly "0" when `n <= 0` |
| LoopFunction.FibonacciNums | custom_python_heavy/loop_function.py:9-23 | the loop builds "0" for `n <= 0` and otherwise "0, 1" followed by ",F(k)" for k = 2..n, with `n1 = F(count-2)` and `n2 = F(count-1)` as invariants |
| LoopFunction.FibSequenceNonPositive | custom_python_light/loop_function.py:10-12 | `n <= 0` gives exactly "0" |
| LoopFunction.FibSequenceStart | custom_python_light/loop_function.py:13-23 | for `n >= 1` the text begins with "0, 1", and for `n = 1` it is exactly that |
| LoopFunction.FibSequenceGrows | custom_python_light/loop_function.py:17-22 | each further `n` appends "," and the decimal digits of F(n) |
| LoopFunction.FibSequencePrefix | custom_python_heavy/loop_function.py:17-22 | the text for `n` is a prefix of the text for every larger `m` |
| LoopFunction.JoinChars | custom_python_heavy/loop_function.py:7 | `''.join` of a string gives the string back |
| LoopFunction.ToInt | custom_python_heavy/loop_function.py:7 | `int(n)` keeps an int; a string succeeds exactly when it is a signed digit run, giving its value; failures are ValueError |
| LoopFunction.Handler | custom_python_light/loop_function.py:5-7 | KeyError without "n", ValueError when `int(n)` fails; otherwise the text of `fibonacci_nums(int(n))`, unchanged |
| LoopFunction.HandlerNegative | custom_python_heavy/loop_function.py:5-12 | a negative decimal `n` gives exactly "0" |
| LoopFunction.HandlerDecimal | custom_python_heavy/loop_function.py:25-27 | the command-line call with a decimal `n` gives the text for `n` |

## Left out

- SSH and the remote shell (`run_ssh_command`, `_run_docker_on_node`): their outcomes are inputs to the model. A probe is the reply a node gives, and a warming command or a run is a success flag with its output. The exception texts are not modelled.
- `asyncio.gather` and `await`: the model probes the nodes one after another, in registry order. With a fixed reply per node, the result is the same.
- `CONCURRENCY_LIMIT` (api_gateway/state.py:13): no code shown uses it, and its purpose is concurrency.
- Floating point: loads are `real` numbers, and `Infinite` stands for `float('inf')`. NaN readings are not modelled.
- The `f"{duration:.4f}"` text of the execution time is not modelled. A record keeps the duration itself.
- The tables and plots of metrics.py (`write_metrics_table`, `generate_boxplot`, `generate_barchart`) are not modelled beyond the category and present-category rules they compute.
- FastAPI routing is not modelled. An `HTTPException` is an error result that carries only its status code.
- The console `print` messages are not modelled.
- `list_functions`, `functions_count` and `nodes_count` of main.py are not modelled. They return a registry or its size.
- `.get('ram_usage', 100.0)` (api_gateway/policies.py:31): the default is not modelled. It cannot apply, because a parsed reading always has both keys; a missing field is already the worst case.
- The `StopIteration` branch of api_gateway/policies.py:39-40 is not modelled. It cannot fire, because the cycle is always over the non-empty list of current names.
- The `if not self.node_names_cache` guard of api_gateway/main.py:43-44 is not modelled. It cannot fire, because the cache has just been set to the names of a non-empty registry.
- Aliasing is not modelled. `log_invocation_metrics` overwrites two keys of the dict it is given, which may be the scheduler's snapshot. The model builds a new record value instead.
- A function descriptor in the newer gateway's registry always carries an image. The `KeyError` of a descriptor without "image" is not modelled.
- `int(n)` on values other than an integer or a string (a float, say) is not modelled.
- Strings.ParseInt: accepts only an optional sign followed by ASCII decimal digits. Python's `int()` also accepts surrounding whitespace, `_` between digits and non-ASCII Unicode decimal digits (`int("١٢") == 12`); the model rejects all of those.
- The `__main__` block of loop_function.py prints "Ok" and reads `sys.argv`. Only the call it makes is modelled (`HandlerDecimal`). `sys.set_int_max_str_digits(0)` needs no model, because Dafny integers are unbounded.
- The two `loop_function.py` files are identical, so one module models both. The table cites either file.
