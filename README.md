# Make_API build engine in Dafny

This project models the core of `makeapi.py`, a small make-like build library. Callers
describe files as nodes and give a rule for each generated file: the target, the nodes it
depends on, and a shell command. A `BuildSystem` indexes the rules, checks them, and then
builds, cleans or prints the dependency graph. All three operations share one depth-first
traversal, which skips nodes it has already visited and reports circular dependencies.

## What is modelled

- **Nodes and rules** (`nodes.dfy`, module `Nodes`).
  - A node is `Static(id)` (a file that must already exist) or `Dynamic(id)` (a file the build creates).
  - The file system is a map `Times` from path to modification time. A node's time is absent exactly when its file does not exist.
  - A `Rule` holds a target id, an ordered list of dependency nodes and a command.
  - `IsUpToDate` is `Rule.is_up_to_date`.
  - `VerifyExists` is `StaticNode.verify_exists` of a `StaticFileNode`.
  - `CompileRule` builds the dependency list and the command line of a `CompileRule`.
- **Traversal** (`traversal.dfy`, `traversal_facts.dfy`).
  - `_traverse_dag_aux` and its dependencies loop are two mutually recursive functions, `VisitNode` and `VisitDeps`. `traverse_dag` is `TraverseFrom`/`Traverse`.
  - They return a `Walk`: the traversed set, the sequence of `preorder_action`/`postorder_action` calls as `Pre`/`Post` events, and the error that stopped the walk, if any.
  - Exceptions become this error value. The walk ends at the first one, like a raise.
  - `traversal_facts.dfy` proves the traversal's properties: each node visited once, reachability, post-order, cycle detection, bracketing of the callbacks.
- **Construction tables** (`tables.dfy`, module `Tables`).
  - `rules`, `nodes` (with the insertion order of its keys, because `nodes.values()` is iterated in that order) and `node_requesters` are functions of the rule list.
  - Each table comes with lemmas stating what it holds.
- **Operations** (`operations.dfy`, module `Operations`).
  - `build`, `clean` and `dag` are defined as replays of the traversal's event sequence through their callbacks.
  - `_run_static_checks` is the per-node check over the node values followed by the error of the walk from all of them. `_all_or_one` is a selection of the starting nodes.
  - Running a command changes a `World`: the file times, a clock, the set of commands that fail, and the log of targets built.
- **The engine** (`buildsystem.dfy`, module `Engine`).
  - A `BuildSystem` class has the fields `rules`, `nodes`, `nodeOrder` and `requesters`.
  - `Create` is `__init__`. Its loops are imperative methods (`AddRules`, `AddNodes`, `FillRequesters`) proved to build exactly the tables of `Tables`.
  - The recursive traversal is the methods `TraverseDagAux` and `TraverseDeps`. They take the traversed set as an argument and return the grown set, and are proved equal to `VisitNode`/`VisitDeps`.
  - `Build`, `Clean` and `Dag` are proved equal to the outcome functions of `Operations`. `Dag` keeps its mutable depth counter.
- **The older builder** (`legacy.dfy`, module `Legacy`).
  - `_build_aux` is `BuildAux`/`BuildDeps`, with the target stack as a list.
- **Findings** (`findings.dfy`, module `Findings`).
  - Concrete rule lists on which the constructor's checks pass but the rules misbehave.
  - `StrictChecks`, the same checks plus the two that rule these cases out, with what they guarantee proved.
- `wrappers.dfy` holds `Option`, `Result` and the `Error` type. `Error` has one constructor per exception the code raises, plus `StaticHasRule`, the error of the stricter check.

### Behaviour that follows the code closely

- A dependency with no modification time makes a rule **not** up to date. The comprehension in `is_up_to_date` requires every dependency time to be a float, so a missing time fails it (`Nodes.MissingDependencyIsStale`).
- The chain reported by `_traverse_dag_aux` is `node_stack ∪ {dep}`. The stack holds the ancestors of the current node but not the current node itself. For `a → b → a` the chain is `{a}` (`TraversalFacts.TwoCycleChain`).
- A rule listing its own target as a dependency is not reported by `traverse_dag`. The target is already traversed when its dependency is reached (`TraversalFacts.SelfLoopNotReported` for the graph `a → a`, `TraversalFacts.SelfLoopsAloneNotReported` for any graph whose only cycles are self-loops). `_build_aux` does report it (`Legacy.SelfLoopReported`).
- `nodes` keeps the first node seen with each id. A `Dynamic` dependency sharing its id with an earlier `Static` node is not checked for a rule in step 2 of `_run_static_checks`. The step-3 walk raises the missing-rule error if it reaches the `Dynamic` occurrence before the `Static` one (`Operations.StaticChecksDynamicAlias`).
- `traverse_dag` adds a node to the traversed set before it raises. The error `Walk` therefore still carries the traversed set as it was when the error was raised.

## Model

| member | source | states |
|---|---|---|
| Nodes.GetTime | makeapi.py:57-61 | a node has a time exactly when its path is in the file-time map, and the time is the stored one |
| Nodes.UpToDateIff | makeapi.py:88-93 | a rule is up to date iff its target has a time and every dependency has a time strictly less than the target's |
| Nodes.AllOlderIff | makeapi.py:92-93 | the recursive check over the dependency list holds iff every dependency has a time and is older than the target |
| Nodes.MissingTargetIsStale | makeapi.py:89-91 | a target without a time is never up to date |
| Nodes.MissingDependencyIsStale | makeapi.py:92-93 | one dependency without a time makes the rule stale |
| Nodes.TouchDependencyFlips | makeapi.py:88-93 | giving one dependency (other than the target) a time at or after the target's makes an up-to-date rule stale |
| Nodes.CheckExists | makeapi.py:71-74 | no reason iff the path exists; otherwise the reason is "File not found" |
| Nodes.VerifyExists | makeapi.py:22-36 | no error iff the path exists; otherwise the error names the node and the reason "File not found" |
| Nodes.CompileRule | makeapi.py:111-124 | the rule's target is the given one and its dependencies are the sources followed by the headers |
| Nodes.CompileCommandShape | makeapi.py:123 | the command starts with the compiler and a space, ends with " -o " and the target, and does not depend on the headers |
| Traversal.VisitNode | makeapi.py:242-266 | visiting a new node adds it and keeps every id already traversed |
| Traversal.VisitDeps | makeapi.py:260-265 | the dependency loop never removes an id from the traversed set |
| Traversal.TraverseFrom | makeapi.py:215-219 | the loop over the starting nodes never removes an id from the traversed set |
| TraversalFacts.VisitOnce | makeapi.py:206-219 | each traversed id gets exactly one preorder call, and at most one postorder call (exactly one without an error) |
| TraversalFacts.TraversedAreReachable | makeapi.py:215-219 | every traversed id is reachable from a starting node through rule dependencies |
| TraversalFacts.TraversedIsReachable | makeapi.py:213-219 | when static nodes have no rule and no error occurs, the returned set is exactly the set of ids reachable from the starts |
| TraversalFacts.PostOrderRespectsDependencies | makeapi.py:257-266 | without an error, a node's postorder call comes after the postorder calls of all its dependencies |
| TraversalFacts.TraverseLeftKnown | makeapi.py:257-266 | every node given to postorder_action is a start or a dependency of some rule, and a dynamic one has a rule |
| TraversalFacts.TraverseBracketed | makeapi.py:257-266 | preorder calls never fall behind postorder calls, and without an error they balance |
| TraversalFacts.VisitNodeShape | makeapi.py:254-266 | a visit opens with preorder of the node, makes one nested preorder call per id it newly traverses, and without an error closes with postorder of the node |
| TraversalFacts.NoCycleThroughTraversed | makeapi.py:262-263 | when no static node shares an id with a rule target (`StaticLeaves`), after an error-free walk no dependency cycle passes through a traversed id |
| TraversalFacts.ReachableCycleRaises | makeapi.py:262-263 | when no static node shares an id with a rule target (`StaticLeaves`), a dependency cycle reachable from the starts makes the walk fail |
| TraversalFacts.ReachableCycleReported | makeapi.py:262-263 | when no static node shares an id with a rule target (`StaticLeaves`) and every dynamic node has a rule, a reachable cycle is reported as a circular dependency |
| TraversalFacts.TraverseErrorSound | makeapi.py:242-266 | a missing-rule error names a reachable id without a rule; a circular-dependency chain is reachable and is entered by an edge from outside that the chain reaches back to; there are no other errors |
| TraversalFacts.SelfLoopNotReported | makeapi.py:254-265 | the graph `a → a` is walked from `a` without error, entering and leaving `a` once |
| TraversalFacts.SelfLoopsAloneNotReported | makeapi.py:254-265 | in any graph where no edge between two distinct ids lies on a cycle (only self-loops are left), the walk raises no circular-dependency error, only possibly a missing-rule error |
| TraversalFacts.TwoCycleChain | makeapi.py:263 | the cycle a → b → a is reported with the chain {a} |
| Tables.RuleTableSpec | makeapi.py:146-151 | the rules table exists iff targets are distinct, and then it maps each target to its rule; otherwise the error names the first repeated target |
| Tables.NodeTableSpec | makeapi.py:153-157 | the node table's keys are the ids of all target and dependency nodes, and each maps to the first node seen with that id |
| Tables.NodeOrderElems | makeapi.py:156-157 | the insertion order lists each key of the node table exactly once |
| Tables.NodeOrderSorted | makeapi.py:154-157 | ids are inserted in the order of their first occurrence |
| Tables.NodeKeys | makeapi.py:154-157 | an id is a node key iff some rule has it as target or dependency |
| Tables.DependencyIsNode | makeapi.py:154-163 | every dependency id has an entry, so the append of the second loop never misses a key |
| Tables.TargetIsNode | makeapi.py:154-157 | every target id has an entry in the node table |
| Tables.HitsCount | makeapi.py:162-163 | one rule appends its target under a dependency id as many times as that id occurs in its dependency list |
| Tables.RequestersMember | makeapi.py:160-163 | a target is listed under id d iff one of its rules depends on d |
| Tables.RequestersSound | makeapi.py:160-163 | a listed target has a rule that depends on the id |
| Tables.RequestersComplete | makeapi.py:160-163 | every rule depending on an id is listed under it |
| Tables.RequestersCount | makeapi.py:160-163 | each target is listed once per occurrence of the id among its rule's dependencies |
| Tables.RequestersFollowRuleOrder | makeapi.py:161-163 | the list under an id follows the order of the rules |
| Tables.RequestersAreReverseEdges | makeapi.py:160-163 | with distinct targets, the requesters of d are exactly the targets with a dependency edge to d |
| Tables.RequesterTableSpec | makeapi.py:158-163 | the requester table has the same keys as the node table, lists the reverse edges, and keeps their multiplicity |
| Operations.Execute | makeapi.py:106-109 | a command in the failing set raises CommandFailed naming command and target; otherwise the target is logged and exists, other files keep their times, and when every time was older than the clock the target becomes newer than every file |
| Operations.ExecuteRuleSpec | makeapi.py:172-176 | the callback changes the world iff the node is dynamic with a stale rule whose command succeeds; it fails iff the rule is missing or its command fails; afterwards the rule is up to date |
| Operations.RunRules | makeapi.py:172-178 | replaying the callbacks only extends the log, only adds files, and keeps every time older than the clock |
| Operations.BuildMakesUpToDate | makeapi.py:169-178 | under the hypotheses listed under Left out, after an error-free build every traversed node exists and every traversed rule is up to date |
| Operations.RunRulesNoop | makeapi.py:175 | when every rule is already up to date nothing runs and the world is unchanged |
| Operations.BuildIdempotent | makeapi.py:169-178 | under the hypotheses listed under Left out, a second build after an error-free one runs nothing |
| Operations.RunRulesLogOrder | makeapi.py:172-178 | while replaying, each logged target comes after the targets of its dependencies |
| Operations.BuildLogOrder | makeapi.py:169-178 | when the walk raises nothing (a command may still fail), a build extends the log, and every rule it runs runs after the rules of its dependencies that run; no hypothesis on static nodes is needed |
| Operations.CleanRunSpec | makeapi.py:183-185 | replaying the clean callback removes exactly the files of the dynamic nodes left and keeps the other times |
| Operations.CleanRemovesReachableTargets | makeapi.py:180-186 | when no static node shares an id with a rule target (`StaticLeaves`), an error-free clean removes exactly the reachable targets that have a rule and leaves every other file as it was |
| Operations.DagLinesIds | makeapi.py:191-194 | one line is printed per preorder call, naming that node |
| Operations.DagLineDepth | makeapi.py:190-197 | each line's depth is the number of preorder calls before it without a matching postorder call |
| Operations.DagDepths | makeapi.py:188-198 | no printed depth is negative, the counter returns to 0 after an error-free walk, and one line is printed per traversed node |
| Operations.NodeCheck | makeapi.py:225-232 | a node passes iff it is static and exists, or dynamic and has a rule |
| Operations.CheckNodesSpec | makeapi.py:225-232 | the checks pass iff every node passes; otherwise the error is that of the first failing node |
| Operations.StaticChecksDynamicAlias | makeapi.py:223-234 | for A → [B, static X], B → [X] with X existing, the per-node checks pass and the walk raises the missing-rule error for X |
| Operations.StaticChecksSpec | makeapi.py:223-234 | the checks pass iff every node passes and the walk from all nodes reports nothing; then, when no static node shares an id with a rule target (`StaticLeaves`), no cycle is reachable |
| Engine.NodeValues | makeapi.py:287-289 | the values list has one node per inserted id, in insertion order |
| Engine.InitValuesIds | makeapi.py:154-157 | after construction the values list every id once, in first-seen order, each being the first node seen with that id |
| Engine.BuildSystem.constructor | makeapi.py:139-144 | the tables start empty |
| Engine.BuildSystem.AddRules | makeapi.py:146-158 | the first loop stops with the repeated-target error exactly when the targets repeat; otherwise it leaves the rule table, the node table, its order and empty requester lists |
| Engine.BuildSystem.AddNodes | makeapi.py:154-158 | the inner loop extends the node table and its order by the nodes of one rule and gives each new id an empty list |
| Engine.BuildSystem.StoreNodes | makeapi.py:154-158 | the same loop on values: first occurrence stored, order extended, one empty list per new id |
| Engine.BuildSystem.FillRequesters | makeapi.py:160-163 | the second loop leaves exactly the requester table and changes no other field |
| Engine.BuildSystem.AppendRequesters | makeapi.py:161-163 | after the outer loop every id holds the targets of all rules depending on it |
| Engine.BuildSystem.AppendRule | makeapi.py:162-163 | one pass of the inner loop appends the rule's target under each of its dependencies |
| Engine.BuildSystem.Create | makeapi.py:128-167 | construction succeeds iff targets are distinct and, unless verification is skipped, the static checks pass; the error is the repeated target or the first failed check; on success the tables are those built from the rules |
| Engine.BuildSystem.FindRule | makeapi.py:236-240 | the rule for an id with a rule; otherwise the missing-rule error naming the id |
| Engine.BuildSystem.Values | makeapi.py:289 | the stored nodes in insertion order |
| Engine.BuildSystem.AllOrOne | makeapi.py:287-289 | all stored nodes without a target, or only the target |
| Engine.BuildSystem.RunStaticChecks | makeapi.py:223-234 | the result is the static-check outcome on the stored nodes |
| Engine.BuildSystem.TraverseDagAux | makeapi.py:242-266 | the returned traversed set, the callback calls and the error equal those of the modelled visit |
| Engine.BuildSystem.TraverseDeps | makeapi.py:260-265 | the dependency loop equals the modelled loop: raise on an id on the stack, skip a traversed id, else visit it |
| Engine.BuildSystem.TraverseDag | makeapi.py:200-219 | the returned set, callbacks and error equal those of the modelled traversal |
| Engine.BuildSystem.Build | makeapi.py:169-178 | the outcome is that of the build model from `_all_or_one(target)` |
| Engine.BuildSystem.Clean | makeapi.py:180-186 | the outcome is that of the clean model from `_all_or_one(target)` |
| Engine.BuildSystem.DagReplay | makeapi.py:190-197 | the counter the callbacks move produces exactly the modelled lines |
| Engine.BuildSystem.Dag | makeapi.py:188-198 | the printed lines and the error are those of the dag model |
| Legacy.BuildAux | makeapi.py:268-285 | on success files are only added, failing commands stay the same, and times stay older than the clock |
| Legacy.BuildDeps | makeapi.py:281-282 | the same for the loop over the dependencies |
| Legacy.BuildAuxPath | makeapi.py:275-276 | a reported chain extends the given target stack by dependency edges and ends on an id already in it |
| Legacy.BuildDepsPath | makeapi.py:281-282 | the same for a chain reported from inside the dependency loop |
| Legacy.SelfLoopReported | makeapi.py:275-282 | a rule whose first dependency is its own target is reported with the target twice at the end of the chain |
| Legacy.BuildAuxExists | makeapi.py:268-285 | after success the node exists |
| Legacy.BuildDepsExist | makeapi.py:281-282 | after the loop succeeds every dependency exists |
| Legacy.BuildAuxUpToDate | makeapi.py:268-285 | after success on a dynamic node without a self-dependency, its rule is up to date |
| Findings.StaticAliasHidesCycle | makeapi.py:223-234 | for A → [static B, C], B → [C], C → [B] with B existing, the constructor's checks pass although the cycle B → C → B is reachable from the node values |
| Findings.StaticAliasCycleCaught | makeapi.py:257-265 | for A → [C, static B], B → [C], C → [B], the walk from A reaches the dynamic B through C and reports the chain {A, C}, so the alias hides a cycle only when the static occurrence is reached first |
| Findings.StaticAliasNeverRebuilt | makeapi.py:169-178 | for A → [static B], B → [static X] with B older than X, the checks pass and build runs nothing, leaving the rule for B stale |
| Findings.SelfLoopRebuiltEveryTime | makeapi.py:88-93 | for a → [a], the checks pass, the first build runs the rule and so does the second: the log becomes ["a", "a"] |
| Findings.DepsAlias | makeapi.py:258-262 | no error iff no dependency of the rule is static with a rule of its own or is the rule's own target |
| Findings.AliasCheck | makeapi.py:146-163 | no error iff no rule has such a dependency |
| Findings.StrictChecksSpec | makeapi.py:223-234 | the stricter check passes iff the constructor's checks pass, no static node shares an id with a rule target, and no rule lists its own target |
| Findings.StrictChecksSound | makeapi.py:132-135 | after the stricter check the rules are stored under their targets, static nodes exist and have no rule, no rule lists its own target, and there is no dependency cycle at all |
| Findings.StrictBuildSettles | makeapi.py:169-178 | after the stricter check, an error-free build leaves every rule up to date, and a second build changes nothing |

## Left out

- Printing is not modelled. `dag` returns its lines as (depth, id) pairs, and the text `"+--" * depth + id` is not built. Exception messages become `Error` values carrying the same data.
- `os.system` is modelled by `World.failing`, the set of commands that fail. Running a command records its target in a log and gives the target a fresh time from the clock.
- File times are integers, not floats. The file system is a map from path to time: `os.path.exists` is membership and `os.remove` is removal.
- `build`, `clean` and `dag` replay the event sequence the walk records, instead of calling the callback inside the walk.
  - The walk never reads the file times, and they are all that running a command changes.
  - The results are therefore the same, but the walk and an action of `build` that raises are not interleaved.
  - The same holds for `Engine.BuildSystem.TraverseDag`, which returns the events instead of calling callbacks.
- `_traverse_dag_aux` adds to one shared `traversed_nodes` set. The model passes the set in and returns the grown set, so sharing it by reference is not modelled.
- `Node`, `FileNode`, `ShellRule` and the abstract classes are not modelled as classes. Nodes are the two-case datatype, the command is a field of every rule, and only file-backed nodes exist.
- The modification and state-database machinery, and any other node kind, are not part of this model. `poc-example.py` is a usage example and is not modelled.
- `Nodes.CompileRule`: the command text is stated by its prefix, suffix and independence from the headers, not character by character. The default arguments (no headers, compiler `cc`, no flags) are not modelled; every argument is explicit.
- `Operations.BuildMakesUpToDate` and `Operations.BuildIdempotent` are proved under these hypotheses:
  - each rule is stored under its own target and does not list it as a dependency (`TargetsMatch`, `NoSelfLoops`);
  - static nodes have no rule and exist (`StaticLeaves`, `StaticsExist`);
  - all times start older than the clock (`Fresh`).
  - The constructor ensures `TargetsMatch`. Its checks do not ensure `NoSelfLoops` or `StaticLeaves`, and without them both properties fail (see Findings).
- `TraversalFacts.ReachableCycleRaises`: only cycles reachable from the starts are covered, and only when no static node shares an id with a rule target (`StaticLeaves`); the chain is not described further than in `TraverseErrorSound`.
- `Legacy.BuildAuxPath`: the converse, that every reachable cycle is reported by `_build_aux`, is not proved.
- `Engine.BuildSystem.AppendRequesters`, `Engine.BuildSystem.AppendRule`, `Engine.BuildSystem.StoreNodes` and `Engine.BuildSystem.DagReplay` are static methods that work on local copies of the tables. The fields are assigned once at the end, so updating a `dict` in place through aliases is not modelled.

## Findings

`Engine.BuildSystem.Create` keeps the checks as the code writes them. `Findings.StrictChecks` adds the two missing ones.

| source | as written | input that shows it | evidently intended | confidence | as-written member | corrected member |
|---|---|---|---|---|---|---|
| makeapi.py:154-157 | `nodes` keeps the first node seen with an id, and the walk treats a static node as a leaf, so a cycle through an id first seen as static can pass the checks when the walk reaches the static occurrence first | rules A → [static B, C], B → [C], C → [B], with file B existing | the docstring's check 3: no dependency loops | not executed | Findings.StaticAliasHidesCycle | Findings.StrictChecksSound |
| makeapi.py:154-157 | a target first seen as a static dependency is not rebuilt by `build()` when the walk reaches the static occurrence first, since a static node is a leaf | rules A → [static B], B → [static X], times A = 3, B = 1, X = 2 | build leaves every rule up to date | not executed | Findings.StaticAliasNeverRebuilt | Findings.StrictBuildSettles |
| makeapi.py:88-93 | a rule listing its own target compares the target's time with itself, so it is never up to date after it runs | rule a → [a], no files | a second build runs nothing | not executed | Findings.SelfLoopRebuiltEveryTime | Findings.StrictBuildSettles |
