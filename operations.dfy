/**
 * The operations built on traverse_dag (makeapi.py:169-198, 223-240, 287-289), as
 * functions of the walk's record of callbacks.
 *
 * `build` and `clean` only pass a postorder_action, so they act on the nodes left, in
 * order; `dag` uses both callbacks and acts on the whole trace. A callback that raises
 * stops the walk at that point, and a replay stops at the first error the same way.
 */
module Operations {
  import opened Wrappers
  import opened Nodes
  import opened Traversal
  import opened TraversalFacts

  /** What build touches: file times, an abstract clock, the commands that fail, and the commands run. */
  datatype World = World(times: Times, clock: int, failing: set<string>, log: seq<string>)

  /** Where an operation stopped: the world, and the exception if one was raised. */
  datatype Outcome = Outcome(world: World, err: Option<Error>)

  /** Every existing file is older than the clock, so a command run now writes the newest file. */
  ghost predicate Fresh(w: World) {
    forall k :: k in w.times ==> w.times[k] < w.clock
  }

  /**
   * ShellRule.execute: a command that fails raises; one that succeeds writes the target,
   * which becomes the newest file, leaves every other file as it was and is logged.
   */
  function Execute(r: Rule, w: World): (res: Result<World, Error>)
    ensures res.Err? <==> r.cmd in w.failing
    ensures res.Err? ==> res.error == CommandFailed(r.cmd, r.target)
    ensures res.Ok? ==>
      && res.value.log == w.log + [r.target]
      && res.value.failing == w.failing
      && res.value.times.Keys == w.times.Keys + {r.target}
      && (forall k :: k in w.times && k != r.target ==> res.value.times[k] == w.times[k])
      && (Fresh(w) ==> Fresh(res.value) && forall k :: k in w.times ==> w.times[k] < res.value.times[r.target])
  {
    if r.cmd in w.failing then Err(CommandFailed(r.cmd, r.target))
    else Ok(World(w.times[r.target := w.clock], w.clock + 1, w.failing, w.log + [r.target]))
  }

  /** The `execute_rule` postorder_action of build. */
  function ExecuteRule(g: Rules, n: Node, w: World): Result<World, Error> {
    if n.Static? then Ok(w)
    else if n.id !in g then Err(NoRuleFor(n.id))
    else if IsUpToDate(g[n.id], w.times) then Ok(w)
    else Execute(g[n.id], w)
  }

  /** Each rule is stored under its own target id, as the constructor's `rules` table is. */
  ghost predicate TargetsMatch(g: Rules) {
    forall k :: k in g ==> g[k].target == k
  }

  /** No rule lists its own target as a dependency. */
  ghost predicate NoSelfLoops(g: Rules) {
    forall k, d :: k in g && d in g[k].dependsOn ==> d.id != k
  }

  /**
   * Build runs a rule's command exactly when the rule is not up to date, and a command
   * that succeeds leaves the rule up to date when its other dependencies exist.
   */
  lemma ExecuteRuleSpec(g: Rules, n: Node, w: World)
    ensures var res := ExecuteRule(g, n, w);
      (res.Ok? && res.value != w) <==>
        n.Dynamic? && n.id in g && !IsUpToDate(g[n.id], w.times) && g[n.id].cmd !in w.failing
    ensures var res := ExecuteRule(g, n, w);
      res.Err? <==> n.Dynamic? && (n.id !in g || (!IsUpToDate(g[n.id], w.times) && g[n.id].cmd in w.failing))
    ensures var res := ExecuteRule(g, n, w);
      res.Ok? && n.Dynamic? && n.id in g && g[n.id].target == n.id && Fresh(w) &&
      (forall d :: d in g[n.id].dependsOn ==> d.id != n.id && d.id in w.times) ==>
        IsUpToDate(g[n.id], res.value.times)
  {
    var res := ExecuteRule(g, n, w);
    if n.Dynamic? && n.id in g {
      var r := g[n.id];
      if res.Ok? && r.target == n.id && Fresh(w) &&
         (forall d :: d in r.dependsOn ==> d.id != n.id && d.id in w.times) {
        if !IsUpToDate(r, w.times) {
          UpToDateIff(r, res.value.times);
          assert forall i :: 0 <= i < |r.dependsOn| ==> r.dependsOn[i] in r.dependsOn;
        }
      }
      if !IsUpToDate(r, w.times) && r.cmd !in w.failing {
        assert |res.value.log| == |w.log| + 1;
      }
    }
  }

  /** The walk over the nodes left, in order, stopping at the first callback that raises. */
  function RunRules(g: Rules, order: seq<Node>, w: World): (o: Outcome)
    ensures |w.log| <= |o.world.log| && o.world.log[..|w.log|] == w.log
    ensures w.times.Keys <= o.world.times.Keys && o.world.failing == w.failing
    ensures Fresh(w) ==> Fresh(o.world)
  {
    if order == [] then Outcome(w, None)
    else
      match ExecuteRule(g, order[0], w)
      case Err(e) => Outcome(w, Some(e))
      case Ok(w') =>
        var o := RunRules(g, order[1..], w');
        assert o.world.log[..|w.log|] == o.world.log[..|w'.log|][..|w.log|];
        o
  }

  /** `build(...)` from the given starting nodes. */
  function BuildOutcome(g: Rules, starts: seq<Node>, w: World): Outcome {
    var walk := Traverse(g, starts);
    var o := RunRules(g, PostNodes(walk.trace), w);
    if o.err.Some? then o else Outcome(o.world, walk.err)
  }

  // ----- build leaves every traversed rule up to date -----

  /** Every static starting node and static dependency exists. */
  ghost predicate StaticsExist(g: Rules, starts: seq<Node>, times: Times) {
    && (forall n :: n in starts && n.Static? ==> n.id in times)
    && (forall k, d :: k in g && d in g[k].dependsOn && d.Static? ==> d.id in times)
  }

  /** Every node in `before` exists, and the rule of every dynamic one is up to date. */
  ghost predicate Settled(g: Rules, before: seq<Node>, times: Times) {
    forall m :: m in before ==> m.id in times && (m.Dynamic? && m.id in g ==> IsUpToDate(g[m.id], times))
  }

  lemma UpToDateFrame(r: Rule, times: Times, x: string, v: int)
    requires IsUpToDate(r, times) && r.target != x
    requires forall d :: d in r.dependsOn ==> d.id != x
    ensures IsUpToDate(r, times[x := v])
  {
    UpToDateIff(r, times);
    UpToDateIff(r, times[x := v]);
    assert forall i :: 0 <= i < |r.dependsOn| ==> r.dependsOn[i] in r.dependsOn;
  }

  /** No two positions of `order` hold nodes with the same id. */
  ghost predicate UniqueIds(order: seq<Node>) {
    forall p, q :: 0 <= p < q < |order| ==> order[p].id != order[q].id
  }

  lemma UniqueIdsOf(order: seq<Node>)
    requires NoDup(Ids(order))
    ensures UniqueIds(order)
  {
    forall p, q | 0 <= p < q < |order| ensures order[p].id != order[q].id {
      DistinctIds(order, p, q);
    }
  }

  /** An id among the first `q` ids left is the id of a node left at some position below `q`. */
  lemma LeftBelow(order: seq<Node>, q: nat, x: string) returns (p: nat)
    requires q <= |order| && x in Elems(Ids(order[..q]))
    ensures p < q && order[p].id == x
  {
    var ids := Ids(order[..q]);
    p :| 0 <= p < |ids| && ids[p] == x;
    assert ids[p] == order[..q][p].id == order[p].id;
  }

  /** An id left at position `i` is not a dependency of a rule left before it. */
  lemma NotDependencyOfEarlier(g: Rules, order: seq<Node>, q: nat, i: nat, d: Node)
    requires q < i < |order| && UniqueIds(order) && DepsBefore(g, {}, order[..q], order[q])
    requires order[q].Dynamic? && order[q].id in g && d in g[order[q].id].dependsOn
    requires d.id != order[q].id
    ensures d.id != order[i].id
  {
    assert d.id in Elems(Ids(order[..q]));
    var p := LeftBelow(order, q, d.id);
  }

  /** Running the command for the node left at `i` keeps every node left before it settled. */
  lemma SettledFrame(g: Rules, order: seq<Node>, i: nat, times: Times, v: int)
    requires i < |order| && UniqueIds(order) && DepsLeftBefore(g, {}, order)
    requires TargetsMatch(g) && NoSelfLoops(g)
    requires Settled(g, order[..i], times)
    ensures Settled(g, order[..i], times[order[i].id := v])
  {
    var x := order[i].id;
    forall m | m in order[..i]
      ensures m.id in times[x := v] && (m.Dynamic? && m.id in g ==> IsUpToDate(g[m.id], times[x := v]))
    {
      var q :| 0 <= q < i && order[..i][q] == m;
      assert order[q] == m;
      if m.Dynamic? && m.id in g {
        assert DepsBefore(g, {}, order[..q], order[q]);
        forall d | d in g[m.id].dependsOn ensures d.id != x {
          NotDependencyOfEarlier(g, order, q, i, d);
        }
        UpToDateFrame(g[m.id], times, x, v);
      }
    }
  }

  lemma SettledSnoc(g: Rules, before: seq<Node>, m: Node, times: Times)
    requires Settled(g, before, times)
    requires m.id in times && (m.Dynamic? && m.id in g ==> IsUpToDate(g[m.id], times))
    ensures Settled(g, before + [m], times)
  {
    forall n | n in before + [m] ensures n.id in times && (n.Dynamic? && n.id in g ==> IsUpToDate(g[n.id], times)) {
      if n != m {
        assert n in before;
      }
    }
  }

  /** The node left at `i` is settled once its command has run, given that every node left before it is. */
  lemma SettleRun(g: Rules, order: seq<Node>, i: nat, w: World, w': World)
    requires i < |order| && UniqueIds(order) && DepsLeftBefore(g, {}, order)
    requires TargetsMatch(g) && NoSelfLoops(g) && Fresh(w)
    requires Settled(g, order[..i], w.times)
    requires order[i].Dynamic? && order[i].id in g && !IsUpToDate(g[order[i].id], w.times)
    requires ExecuteRule(g, order[i], w) == Ok(w')
    ensures w'.times == w.times[order[i].id := w.clock]
    ensures Settled(g, order[..i], w'.times) && IsUpToDate(g[order[i].id], w'.times)
  {
    var m := order[i];
    var r := g[m.id];
    assert ExecuteRule(g, m, w) == Execute(r, w) && r.target == m.id;
    SettledFrame(g, order, i, w.times, w.clock);
    assert DepsBefore(g, {}, order[..i], order[i]);
    forall d | d in r.dependsOn ensures d.id != m.id && d.id in w.times {
      var p := LeftBelow(order, i, d.id);
      assert order[..i][p] in order[..i];
    }
    ExecuteRuleSpec(g, m, w);
  }

  /** One step of build keeps everything left so far settled and settles the node just left. */
  lemma SettleStep(g: Rules, starts: seq<Node>, order: seq<Node>, i: nat, w: World, w': World)
    requires i < |order| && UniqueIds(order) && DepsLeftBefore(g, {}, order) && LeftKnown(g, starts, order)
    requires TargetsMatch(g) && NoSelfLoops(g) && StaticsExist(g, starts, w.times) && Fresh(w)
    requires Settled(g, order[..i], w.times)
    requires ExecuteRule(g, order[i], w) == Ok(w')
    ensures StaticsExist(g, starts, w'.times) && Fresh(w') && Settled(g, order[..i + 1], w'.times)
  {
    var m := order[i];
    assert m in order;
    assert order[..i + 1] == order[..i] + [m];
    if m.Static? {
      assert w' == w;
      if m !in starts {
        var k :| k in g && m in g[k].dependsOn;
      }
      SettledSnoc(g, order[..i], m, w.times);
    } else if IsUpToDate(g[m.id], w.times) {
      assert w' == w && g[m.id].target == m.id;
      SettledSnoc(g, order[..i], m, w.times);
    } else {
      SettleRun(g, order, i, w, w');
      SettledSnoc(g, order[..i], m, w'.times);
    }
  }

  lemma {:induction false} RunRulesSettles(g: Rules, starts: seq<Node>, order: seq<Node>, i: nat, w: World)
    requires i <= |order| && UniqueIds(order) && DepsLeftBefore(g, {}, order) && LeftKnown(g, starts, order)
    requires TargetsMatch(g) && NoSelfLoops(g) && StaticsExist(g, starts, w.times) && Fresh(w)
    requires Settled(g, order[..i], w.times)
    ensures var o := RunRules(g, order[i..], w);
      o.err.None? ==> Settled(g, order, o.world.times)
    decreases |order| - i
  {
    if i == |order| {
      assert order[..i] == order;
    } else {
      assert order[i..][0] == order[i] && order[i..][1..] == order[i + 1..];
      match ExecuteRule(g, order[i], w)
      case Err(_) =>
      case Ok(w') =>
        SettleStep(g, starts, order, i, w, w');
        RunRulesSettles(g, starts, order, i + 1, w');
    }
  }

  /** The facts about the post-order that build relies on. */
  lemma PostOrderFacts(g: Rules, starts: seq<Node>)
    requires StaticLeaves(g, starts) && Traverse(g, starts).err.None?
    ensures var order := PostNodes(Traverse(g, starts).trace);
      && UniqueIds(order) && Elems(Ids(order)) == Traverse(g, starts).done
      && DepsLeftBefore(g, {}, order) && LeftKnown(g, starts, order) && TargetsLeftDynamic(g, order)
  {
    VisitOnce(g, starts);
    UniqueIdsOf(PostNodes(Traverse(g, starts).trace));
    PostOrderRespectsDependencies(g, starts);
    TraverseLeftKnown(g, starts);
    TraverseFromTargetsDynamic(g, starts, 0, {});
  }

  /**
   * What build achieves: when it raises nothing, every traversed file exists and the rule
   * of every traversed dynamic node is up to date afterwards. This needs the rules to be
   * stored under their targets, no rule to list its own target, no static node to share
   * an id with a rule target, every static node to exist, and every file to be older than
   * the clock.
   */
  lemma BuildMakesUpToDate(g: Rules, starts: seq<Node>, w: World)
    requires TargetsMatch(g) && NoSelfLoops(g) && StaticLeaves(g, starts)
    requires StaticsExist(g, starts, w.times) && Fresh(w)
    requires BuildOutcome(g, starts, w).err.None?
    ensures var after := BuildOutcome(g, starts, w).world.times;
      forall x :: x in Traverse(g, starts).done ==> x in after && (x in g ==> IsUpToDate(g[x], after))
  {
    var walk := Traverse(g, starts);
    var order := PostNodes(walk.trace);
    PostOrderFacts(g, starts);
    RunRulesSettles(g, starts, order, 0, w);
    var after := RunRules(g, order, w).world.times;
    forall x | x in walk.done ensures x in after && (x in g ==> IsUpToDate(g[x], after)) {
      var k :| 0 <= k < |Ids(order)| && Ids(order)[k] == x;
      assert order[k] in order;
    }
  }

  lemma {:induction false} RunRulesNoop(g: Rules, order: seq<Node>, w: World)
    requires forall m :: m in order && m.Dynamic? ==> m.id in g && IsUpToDate(g[m.id], w.times)
    ensures RunRules(g, order, w) == Outcome(w, None)
  {
    if order != [] {
      assert order[0] in order;
      assert forall m :: m in order[1..] ==> m in order;
      RunRulesNoop(g, order[1..], w);
    }
  }

  /**
   * Build is idempotent: right after a build that raised nothing, a second build from the
   * same starting nodes runs no command and changes nothing.
   */
  lemma BuildIdempotent(g: Rules, starts: seq<Node>, w: World)
    requires TargetsMatch(g) && NoSelfLoops(g) && StaticLeaves(g, starts)
    requires StaticsExist(g, starts, w.times) && Fresh(w)
    requires BuildOutcome(g, starts, w).err.None?
    ensures var w' := BuildOutcome(g, starts, w).world;
      BuildOutcome(g, starts, w') == Outcome(w', None)
  {
    var walk := Traverse(g, starts);
    var order := PostNodes(walk.trace);
    PostOrderFacts(g, starts);
    RunRulesSettles(g, starts, order, 0, w);
    var w' := RunRules(g, order, w).world;
    RunRulesNoop(g, order, w');
  }

  // ----- build runs commands in dependency order -----

  /** Every command target in `log` comes after the targets of its rule's dependencies that are also in `log`. */
  ghost predicate AfterDeps(g: Rules, log: seq<string>) {
    forall j, x :: 0 <= j < |log| && x in log && x != log[j] && IdEdge(g, log[j], x) ==> x in log[..j]
  }

  /** The ids of the dynamic nodes in `order`: the only ones build can log. */
  ghost function DynamicLeft(order: seq<Node>): set<string> {
    set m | m in order && m.Dynamic? :: m.id
  }

  lemma DynamicLeftSnoc(order: seq<Node>, i: nat)
    requires i < |order|
    ensures DynamicLeft(order[..i + 1]) == DynamicLeft(order[..i]) + (if order[i].Dynamic? then {order[i].id} else {})
  {
    assert order[..i + 1] == order[..i] + [order[i]];
  }

  /** A dependency of a dynamic rule left at `p` that is not its own target was left before `p`. */
  lemma EdgeLeftBefore(g: Rules, order: seq<Node>, p: nat, b: string) returns (r: nat)
    requires p < |order| && order[p].Dynamic? && DepsLeftBefore(g, {}, order)
    requires order[p].id != b && IdEdge(g, order[p].id, b)
    ensures r < p && order[r].id == b
  {
    var m := order[p];
    var d :| d in g[m.id].dependsOn && d.id == b;
    assert DepsBefore(g, {}, order[..p], order[p]);
    r := LeftBelow(order, p, b);
  }

  lemma AfterDepsAppend(g: Rules, order: seq<Node>, i: nat, log: seq<string>)
    requires i < |order| && order[i].Dynamic? && UniqueIds(order) && DepsLeftBefore(g, {}, order)
    requires AfterDeps(g, log) && Elems(log) <= DynamicLeft(order[..i])
    ensures AfterDeps(g, log + [order[i].id]) && Elems(log + [order[i].id]) <= DynamicLeft(order[..i + 1])
  {
    var y := order[i].id;
    var log' := log + [y];
    DynamicLeftSnoc(order, i);
    ElemsConcat(log, [y]);
    forall j, x | 0 <= j < |log'| && x in log' && x != log'[j] && IdEdge(g, log'[j], x)
      ensures x in log'[..j]
    {
      if j < |log| {
        assert log'[..j] == log[..j];
        if x == y {
          var a := log[j];
          assert a in DynamicLeft(order[..i]);
          var m :| m in order[..i] && m.Dynamic? && m.id == a;
          var q :| 0 <= q < i && order[..i][q] == m;
          var r := EdgeLeftBefore(g, order, q, y);
          assert false;
        }
      } else {
        assert log'[..j] == log;
      }
    }
  }

  /** A step of build logs nothing, or the id of the node just left. */
  lemma ExecuteRuleLog(g: Rules, m: Node, w: World)
    requires TargetsMatch(g) && ExecuteRule(g, m, w).Ok?
    ensures var w' := ExecuteRule(g, m, w).value; w'.log == w.log || (m.Dynamic? && w'.log == w.log + [m.id])
  {
    if m.Dynamic? && m.id in g && !IsUpToDate(g[m.id], w.times) {
      assert ExecuteRule(g, m, w) == Execute(g[m.id], w) && g[m.id].target == m.id;
    }
  }

  lemma {:induction false} RunRulesLogOrder(g: Rules, order: seq<Node>, i: nat, w: World, n0: nat)
    requires TargetsMatch(g)
    requires i <= |order| && UniqueIds(order) && DepsLeftBefore(g, {}, order)
    requires n0 <= |w.log| && AfterDeps(g, w.log[n0..]) && Elems(w.log[n0..]) <= DynamicLeft(order[..i])
    ensures var o := RunRules(g, order[i..], w);
      AfterDeps(g, o.world.log[n0..])
    decreases |order| - i
  {
    if i < |order| {
      var m := order[i];
      assert order[i..][0] == m && order[i..][1..] == order[i + 1..];
      match ExecuteRule(g, m, w)
      case Err(_) =>
        assert RunRules(g, order[i..], w).world == w;
      case Ok(w') =>
        assert RunRules(g, order[i..], w) == RunRules(g, order[i + 1..], w');
        ExecuteRuleLog(g, m, w);
        if w'.log == w.log {
          DynamicLeftSnoc(order, i);
        } else {
          assert w'.log[n0..] == w.log[n0..] + [m.id];
          AfterDepsAppend(g, order, i, w.log[n0..]);
        }
        RunRulesLogOrder(g, order, i + 1, w', n0);
    }
  }

  /**
   * Build order: among the commands one build runs, the command for a target runs after
   * the commands for the dependencies of its rule (a dependency rebuilt at all is rebuilt
   * first), whether or not the build ends in an exception. A static node sharing its id
   * with a rule target is left as a leaf and never logged, so no hypothesis on static
   * nodes is needed.
   */
  lemma BuildLogOrder(g: Rules, starts: seq<Node>, w: World)
    requires TargetsMatch(g) && Traverse(g, starts).err.None?
    ensures var log := BuildOutcome(g, starts, w).world.log;
      |w.log| <= |log| && log[..|w.log|] == w.log && AfterDeps(g, log[|w.log|..])
  {
    var order := PostNodes(Traverse(g, starts).trace);
    VisitOnce(g, starts);
    UniqueIdsOf(order);
    PostOrderRespectsDependencies(g, starts);
    assert w.log[|w.log|..] == [];
    RunRulesLogOrder(g, order, 0, w, |w.log|);
  }

  // ----- clean -----

  /** The `clean_node` postorder_action: a dynamic file is removed if it exists. */
  function CleanNode(n: Node, times: Times): Times {
    if n.Dynamic? then times - {n.id} else times
  }

  function CleanRun(order: seq<Node>, times: Times): Times {
    if order == [] then times else CleanRun(order[1..], CleanNode(order[0], times))
  }

  /** `clean(...)` from the given starting nodes: the files left and the exception if one was raised. */
  function CleanOutcome(g: Rules, starts: seq<Node>, times: Times): (Times, Option<Error>) {
    var walk := Traverse(g, starts);
    (CleanRun(PostNodes(walk.trace), times), walk.err)
  }

  /** The ids of the dynamic nodes in `order`. */
  ghost function DynamicIds(order: seq<Node>): set<string> {
    set m | m in order && m.Dynamic? :: m.id
  }

  /** Cleaning removes exactly the files of the dynamic nodes left and leaves every other file as it was. */
  lemma {:induction false} CleanRunSpec(order: seq<Node>, times: Times)
    ensures forall k :: k in CleanRun(order, times) <==> k in times && k !in DynamicIds(order)
    ensures forall k :: k in CleanRun(order, times) ==> CleanRun(order, times)[k] == times[k]
  {
    if order != [] {
      CleanRunSpec(order[1..], CleanNode(order[0], times));
      assert DynamicIds(order) == DynamicIds(order[1..]) + (if order[0].Dynamic? then {order[0].id} else {}) by {
        assert order == [order[0]] + order[1..];
      }
    }
  }

  /**
   * What clean removes: when no exception is raised, a file is removed exactly when its id
   * is reachable from the starting nodes and is the target of a rule; static files and
   * files out of reach keep their times.
   */
  lemma CleanRemovesReachableTargets(g: Rules, starts: seq<Node>, times: Times)
    requires StaticLeaves(g, starts) && Traverse(g, starts).err.None?
    ensures var after := CleanOutcome(g, starts, times).0;
      && (forall k :: k in after <==> k in times && !(ReachableFrom(g, starts, k) && k in g))
      && (forall k :: k in after ==> after[k] == times[k])
  {
    var walk := Traverse(g, starts);
    var order := PostNodes(walk.trace);
    PostOrderFacts(g, starts);
    TraversedIsReachable(g, starts);
    CleanRunSpec(order, times);
    forall k ensures k in DynamicIds(order) <==> k in walk.done && k in g {
      if k in walk.done && k in g {
        var q :| 0 <= q < |Ids(order)| && Ids(order)[q] == k;
        assert order[q] in order;
      }
    }
  }

  // ----- dag -----

  /** The lines `dag` prints, as (depth, id) pairs, when the counter stands at `depth`. */
  function DagLines(t: seq<Event>, depth: int): seq<(int, string)> {
    if t == [] then []
    else if t[0].Pre? then [(depth, t[0].node.id)] + DagLines(t[1..], depth + 1)
    else DagLines(t[1..], depth - 1)
  }

  /** `dag(...)` from the given starting nodes: the lines printed and the exception if one was raised. */
  function DagOutcome(g: Rules, starts: seq<Node>): (seq<(int, string)>, Option<Error>) {
    var walk := Traverse(g, starts);
    (DagLines(walk.trace, 0), walk.err)
  }

  lemma {:induction false} DagLinesConcat(a: seq<Event>, b: seq<Event>, depth: int)
    ensures DagLines(a + b, depth) == DagLines(a, depth) + DagLines(b, depth + Open(a))
  {
    if a == [] {
      assert a + b == b;
    } else {
      assert (a + b)[1..] == a[1..] + b;
      DagLinesConcat(a[1..], b, depth + (if a[0].Pre? then 1 else -1));
    }
  }

  /** One line per preorder_action call, naming the node entered. */
  lemma {:induction false} DagLinesIds(t: seq<Event>, depth: int)
    ensures |DagLines(t, depth)| == |PreIds(t)|
    ensures forall i :: 0 <= i < |PreIds(t)| ==> DagLines(t, depth)[i].1 == PreIds(t)[i]
  {
    if t != [] {
      DagLinesIds(t[1..], depth + (if t[0].Pre? then 1 else -1));
    }
  }

  /**
   * The depth printed with a node is the counter's start plus the number of nodes entered
   * and not yet left when preorder_action is called on it.
   */
  lemma DagLineDepth(t: seq<Event>, depth: int, p: nat)
    requires p < |t| && t[p].Pre?
    ensures |PreIds(t[..p])| < |DagLines(t, depth)|
    ensures DagLines(t, depth)[|PreIds(t[..p])|] == (depth + Open(t[..p]), t[p].node.id)
  {
    assert t == t[..p] + t[p..];
    DagLinesConcat(t[..p], t[p..], depth);
    DagLinesIds(t[..p], depth);
  }

  lemma {:induction false} DagLinesAbove(t: seq<Event>, depth: int)
    requires Above(t, depth)
    ensures forall i :: 0 <= i < |DagLines(t, depth)| ==> DagLines(t, depth)[i].0 >= 0
  {
    if t != [] {
      var step := if t[0].Pre? then 1 else -1;
      assert t[..0] == [];
      forall p | 0 <= p <= |t[1..]| ensures depth + step + Open(t[1..][..p]) >= 0 {
        assert t[..p + 1] == [t[0]] + t[1..][..p];
        OpenConcat([t[0]], t[1..][..p]);
        assert [t[0]][1..] == [];
      }
      DagLinesAbove(t[1..], depth + step);
    }
  }

  /**
   * The depth counter of `dag` never goes negative, so every line is indented by a
   * non-negative depth (the starting nodes at depth 0), and it is back to 0 when no
   * exception is raised; each node is printed once.
   */
  lemma DagDepths(g: Rules, starts: seq<Node>)
    ensures var walk := Traverse(g, starts);
      && (forall i :: 0 <= i < |DagOutcome(g, starts).0| ==> DagOutcome(g, starts).0[i].0 >= 0)
      && (walk.err.None? ==> 0 + Open(walk.trace) == 0)
      && |DagOutcome(g, starts).0| == |walk.done|
  {
    var walk := Traverse(g, starts);
    TraverseBracketed(g, starts);
    DagLinesAbove(walk.trace, 0);
    DagLinesIds(walk.trace, 0);
    VisitOnce(g, starts);
    NoDupCard(PreIds(walk.trace));
  }

  lemma {:induction false} NoDupCard(s: seq<string>)
    requires NoDup(s)
    ensures |Elems(s)| == |s|
  {
    if s != [] {
      NoDupCard(s[1..]);
      assert Elems(s) == Elems(s[1..]) + {s[0]};
      assert s[0] !in Elems(s[1..]);
    }
  }

  // ----- static verification -----

  /** The per-node check of _run_static_checks: verify_exists for a static node, _find_rule for a dynamic one. */
  function NodeCheck(g: Rules, n: Node, times: Times): (e: Option<Error>)
    ensures e.None? <==> (n.Static? ==> n.id in times) && (n.Dynamic? ==> n.id in g)
  {
    if n.Static? then VerifyExists(n, times)
    else if n.id in g then None else Some(NoRuleFor(n.id))
  }

  /** The loop of _run_static_checks over the node values, stopping at the first failure. */
  function CheckNodes(g: Rules, vs: seq<Node>, times: Times): Option<Error> {
    if vs == [] then None
    else
      var e := NodeCheck(g, vs[0], times);
      if e.Some? then e else CheckNodes(g, vs[1..], times)
  }

  /** _run_static_checks: the per-node checks, then a traversal from every node. */
  function StaticChecks(g: Rules, vs: seq<Node>, times: Times): Option<Error> {
    var e := CheckNodes(g, vs, times);
    if e.Some? then e else Traverse(g, vs).err
  }

  /**
   * The per-node checks pass exactly when every static node exists and every dynamic node
   * has a rule; otherwise the error is that of the first node that fails.
   */
  lemma {:induction false} CheckNodesSpec(g: Rules, vs: seq<Node>, times: Times)
    ensures CheckNodes(g, vs, times).None? <==>
      forall n :: n in vs ==> (n.Static? ==> n.id in times) && (n.Dynamic? ==> n.id in g)
    ensures CheckNodes(g, vs, times).Some? ==>
      exists i :: 0 <= i < |vs| && CheckNodes(g, vs, times) == NodeCheck(g, vs[i], times) &&
        forall j :: 0 <= j < i ==> NodeCheck(g, vs[j], times).None?
  {
    if vs != [] {
      CheckNodesSpec(g, vs[1..], times);
      assert forall n :: n in vs <==> n == vs[0] || n in vs[1..] by {
        assert vs == [vs[0]] + vs[1..];
      }
      if NodeCheck(g, vs[0], times).None? && CheckNodes(g, vs[1..], times).Some? {
        var i :| 0 <= i < |vs[1..]| && CheckNodes(g, vs[1..], times) == NodeCheck(g, vs[1..][i], times) &&
          forall j :: 0 <= j < i ==> NodeCheck(g, vs[1..][j], times).None?;
        assert CheckNodes(g, vs, times) == NodeCheck(g, vs[i + 1], times);
        forall j | 0 <= j < i + 1 ensures NodeCheck(g, vs[j], times).None? {
          if j > 0 {
            assert vs[j] == vs[1..][j - 1];
          }
        }
      }
    }
  }

  /**
   * Static verification passes exactly when every static node exists, every dynamic node
   * has a rule and the traversal from all nodes raises nothing; in particular no reachable
   * cycle of two or more ids is left when no static node shares an id with a rule target.
   */
  lemma StaticChecksSpec(g: Rules, vs: seq<Node>, times: Times)
    ensures StaticChecks(g, vs, times).None? <==>
      && (forall n :: n in vs ==> (n.Static? ==> n.id in times) && (n.Dynamic? ==> n.id in g))
      && Traverse(g, vs).err.None?
    ensures StaticChecks(g, vs, times).None? && StaticLeaves(g, vs) ==>
      forall c :: IsCycle(g, c) ==> !ReachableFrom(g, vs, c[0])
  {
    CheckNodesSpec(g, vs, times);
    if StaticChecks(g, vs, times).None? && StaticLeaves(g, vs) {
      forall c | IsCycle(g, c) ensures !ReachableFrom(g, vs, c[0]) {
        if ReachableFrom(g, vs, c[0]) {
          ReachableCycleRaises(g, vs, c);
        }
      }
    }
  }

  /**
   * A dynamic dependency whose id was first seen as a static node passes the per-node
   * checks, but the walk raises the missing-rule error when it reaches the dynamic
   * occurrence first: A -> [B, static X], B -> [X], with X existing.
   */
  lemma StaticChecksDynamicAlias()
    ensures var g := map["A" := Rule("A", [Dynamic("B"), Static("X")], "make A"),
                         "B" := Rule("B", [Dynamic("X")], "make B")];
      var vs := [Dynamic("A"), Dynamic("B"), Static("X")];
      && CheckNodes(g, vs, map["X" := 1]) == None
      && StaticChecks(g, vs, map["X" := 1]) == Some(NoRuleFor("X"))
  {
    var g := map["A" := Rule("A", [Dynamic("B"), Static("X")], "make A"),
                 "B" := Rule("B", [Dynamic("X")], "make B")];
    var vs := [Dynamic("A"), Dynamic("B"), Static("X")];
    var none: set<string> := {};
    assert none + {"A"} == {"A"};
    assert vs[1..][1..][1..] == [];
    assert VisitNode(g, Dynamic("X"), {"A", "B"}, {"A", "B"}).err == Some(NoRuleFor("X"));
    assert VisitDeps(g, "B", 0, {"A"}, {"A", "B"}).err == Some(NoRuleFor("X"));
    assert VisitNode(g, Dynamic("B"), {"A"}, {"A"}).err == Some(NoRuleFor("X"));
    assert VisitDeps(g, "A", 0, {}, {"A"}).err == Some(NoRuleFor("X"));
    assert VisitNode(g, Dynamic("A"), {}, {}).err == Some(NoRuleFor("X"));
  }

  /** `_all_or_one`: every node value when no target is given, else just that target. */
  function AllOrOne(vs: seq<Node>, target: Option<Node>): (r: seq<Node>)
    ensures target.None? ==> r == vs
    ensures target.Some? ==> r == [target.value]
  {
    if target.None? then vs else [target.value]
  }
}
