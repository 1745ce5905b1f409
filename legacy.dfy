/**
 * BuildSystem._build_aux (makeapi.py:268-285): the older recursive builder, which nothing
 * in the engine calls any more. It keeps no traversed set, so a node shared by several
 * rules is built once per path reaching it, and it detects cycles with the list of
 * targets on the current path instead of a set.
 */
module Legacy {
  import opened Wrappers
  import opened Nodes
  import opened Traversal
  import opened TraversalFacts
  import opened Operations

  /** How many targets with a rule are not yet on the path: what the recursion spends. */
  ghost function Pending(g: Rules, stack: seq<string>): nat {
    |g.Keys - Elems(stack)|
  }

  lemma PendingShrinks(g: Rules, stack: seq<string>, t: string)
    requires t in g && t !in stack
    ensures Pending(g, stack + [t]) < Pending(g, stack)
  {
    ElemsConcat(stack, [t]);
    assert Elems([t]) == {t};
    CardStrict(g.Keys - Elems(stack + [t]), g.Keys - Elems(stack), t);
  }

  /**
   * `_build_aux(target, target_stack)`: a static node must exist; a dynamic node already on
   * the path is a cycle, reported with the path and the node appended; otherwise every
   * dependency is built in order on the longer path, then the rule runs unless it is up
   * to date.
   */
  function BuildAux(g: Rules, n: Node, stack: seq<string>, w: World): (r: Result<World, Error>)
    ensures r.Ok? ==> w.times.Keys <= r.value.times.Keys && r.value.failing == w.failing
    ensures r.Ok? && Fresh(w) ==> Fresh(r.value)
    decreases Pending(g, stack), 0
  {
    if n.Static? then
      match VerifyExists(n, w.times)
      case Some(e) => Err(e)
      case None => Ok(w)
    else if n.id in stack then Err(CircularPath(stack + [n.id]))
    else if n.id !in g then Err(NoRuleFor(n.id))
    else
      PendingShrinks(g, stack, n.id);
      match BuildDeps(g, n.id, 0, stack + [n.id], w)
      case Err(e) => Err(e)
      case Ok(w') => if IsUpToDate(g[n.id], w'.times) then Ok(w') else Execute(g[n.id], w')
  }

  /** The loop `for dep in rule.depends_on[i..]` of `_build_aux` for the target `t`, on the path `stack`. */
  function BuildDeps(g: Rules, t: string, i: nat, stack: seq<string>, w: World): (r: Result<World, Error>)
    requires t in g && i <= |g[t].dependsOn|
    ensures r.Ok? ==> w.times.Keys <= r.value.times.Keys && r.value.failing == w.failing
    ensures r.Ok? && Fresh(w) ==> Fresh(r.value)
    decreases Pending(g, stack), 1, |g[t].dependsOn| - i
  {
    if i == |g[t].dependsOn| then Ok(w)
    else
      match BuildAux(g, g[t].dependsOn[i], stack, w)
      case Err(e) => Err(e)
      case Ok(w') => BuildDeps(g, t, i + 1, stack, w')
  }

  // ----- A reported path is a real cycle -----

  /** Each id of `p` is a target whose rule depends on the next id. */
  ghost predicate Chain(g: Rules, p: seq<string>) {
    forall k :: 0 <= k < |p| - 1 ==> IdEdge(g, p[k], p[k + 1])
  }

  /** The path `stack` followed by a step to `x`. */
  ghost predicate ChainTo(g: Rules, stack: seq<string>, x: string) {
    Chain(g, stack) && (stack != [] ==> IdEdge(g, stack[|stack| - 1], x))
  }

  lemma ChainSnoc(g: Rules, stack: seq<string>, x: string)
    requires ChainTo(g, stack, x)
    ensures Chain(g, stack + [x])
  {
    var p := stack + [x];
    forall k | 0 <= k < |p| - 1 ensures IdEdge(g, p[k], p[k + 1]) {
      if k < |stack| - 1 {
        assert p[k] == stack[k] && p[k + 1] == stack[k + 1];
      }
    }
  }

  /** What a reported path is: a dependency path that extends `stack` and ends on an id already on it. */
  ghost predicate RealCycle(g: Rules, stack: seq<string>, p: seq<string>) {
    && |stack| < |p| && p[..|stack|] == stack
    && Chain(g, p) && p[|p| - 1] in p[..|p| - 1]
  }

  /**
   * When `_build_aux` reports a circular dependency, the list it prints is the path it
   * was given followed by dependency steps that come back to an id already on it.
   */
  lemma {:induction false} BuildAuxPath(g: Rules, n: Node, stack: seq<string>, w: World)
    requires ChainTo(g, stack, n.id)
    ensures BuildAux(g, n, stack, w).Err? && BuildAux(g, n, stack, w).error.CircularPath? ==>
      RealCycle(g, stack, BuildAux(g, n, stack, w).error.path)
    decreases Pending(g, stack), 0
  {
    if n.Dynamic? {
      if n.id in stack {
        CycleAtStack(g, stack, n.id);
      } else if n.id in g {
        PendingShrinks(g, stack, n.id);
        ChainSnoc(g, stack, n.id);
        BuildDepsPath(g, n.id, 0, stack + [n.id], w);
        CycleFromDeps(g, n, stack, w);
        var r := BuildDeps(g, n.id, 0, stack + [n.id], w);
        if r.Err? && r.error.CircularPath? {
          RealCycleShorter(g, stack, n.id, r.error.path);
        }
      }
    }
  }

  /** A cycle reported below a dynamic node comes from its dependency loop: running its command cannot report one. */
  lemma CycleFromDeps(g: Rules, n: Node, stack: seq<string>, w: World)
    requires n.Dynamic? && n.id !in stack && n.id in g
    ensures var r := BuildAux(g, n, stack, w);
      r.Err? && r.error.CircularPath? ==> r == BuildDeps(g, n.id, 0, stack + [n.id], w)
  {
  }

  lemma CycleAtStack(g: Rules, stack: seq<string>, x: string)
    requires ChainTo(g, stack, x) && x in stack
    ensures RealCycle(g, stack, stack + [x])
  {
    var p := stack + [x];
    ChainSnoc(g, stack, x);
    assert p[..|stack|] == stack && p[..|p| - 1] == stack;
  }

  lemma RealCycleShorter(g: Rules, stack: seq<string>, x: string, p: seq<string>)
    requires RealCycle(g, stack + [x], p)
    ensures RealCycle(g, stack, p)
  {
    assert p[..|stack|] == p[..|stack| + 1][..|stack|];
  }

  lemma {:induction false} BuildDepsPath(g: Rules, t: string, i: nat, stack: seq<string>, w: World)
    requires t in g && i <= |g[t].dependsOn|
    requires Chain(g, stack) && stack != [] && stack[|stack| - 1] == t
    ensures BuildDeps(g, t, i, stack, w).Err? && BuildDeps(g, t, i, stack, w).error.CircularPath? ==>
      RealCycle(g, stack, BuildDeps(g, t, i, stack, w).error.path)
    decreases Pending(g, stack), 1, |g[t].dependsOn| - i
  {
    if i < |g[t].dependsOn| {
      var d := g[t].dependsOn[i];
      assert d in g[t].dependsOn;
      assert IdEdge(g, t, d.id);
      BuildAuxPath(g, d, stack, w);
      var r := BuildAux(g, d, stack, w);
      if r.Ok? {
        BuildDepsPath(g, t, i + 1, stack, r.value);
      }
    }
  }

  /**
   * Unlike `traverse_dag`, `_build_aux` does report a rule that depends on its own
   * target: the path ends with the target twice.
   */
  lemma SelfLoopReported(g: Rules, t: string, stack: seq<string>, w: World)
    requires t in g && t !in stack && |g[t].dependsOn| > 0 && g[t].dependsOn[0] == Dynamic(t)
    ensures BuildAux(g, Dynamic(t), stack, w) == Err(CircularPath(stack + [t, t]))
  {
    PendingShrinks(g, stack, t);
    assert t in stack + [t];
    assert (stack + [t]) + [t] == stack + [t, t];
    assert BuildAux(g, Dynamic(t), stack + [t], w) == Err(CircularPath(stack + [t, t]));
    assert BuildDeps(g, t, 0, stack + [t], w) == Err(CircularPath(stack + [t, t]));
  }

  // ----- A successful build leaves the node up to date -----

  /** On success every dependency from `i` on exists. */
  lemma {:induction false} BuildDepsExist(g: Rules, t: string, i: nat, stack: seq<string>, w: World)
    requires t in g && i <= |g[t].dependsOn| && TargetsMatch(g)
    requires BuildDeps(g, t, i, stack, w).Ok?
    ensures forall j :: i <= j < |g[t].dependsOn| ==> g[t].dependsOn[j].id in BuildDeps(g, t, i, stack, w).value.times
    decreases |g[t].dependsOn| - i
  {
    if i < |g[t].dependsOn| {
      var d := g[t].dependsOn[i];
      var r := BuildAux(g, d, stack, w);
      BuildAuxExists(g, d, stack, w);
      BuildDepsExist(g, t, i + 1, stack, r.value);
    }
  }

  /** A node `_build_aux` returns from exists. */
  lemma BuildAuxExists(g: Rules, n: Node, stack: seq<string>, w: World)
    requires TargetsMatch(g) && BuildAux(g, n, stack, w).Ok?
    ensures n.id in BuildAux(g, n, stack, w).value.times
  {
    if n.Dynamic? {
      var w' := BuildDeps(g, n.id, 0, stack + [n.id], w).value;
      if IsUpToDate(g[n.id], w'.times) {
        UpToDateIff(g[n.id], w'.times);
      }
    }
  }

  /**
   * When `_build_aux` returns normally on a dynamic node whose rule does not list its own
   * target, starting from a world in which every file is older than the clock, the node's
   * rule is up to date afterwards.
   */
  lemma BuildAuxUpToDate(g: Rules, n: Node, stack: seq<string>, w: World)
    requires TargetsMatch(g) && NoSelfLoops(g) && Fresh(w)
    requires n.Dynamic? && BuildAux(g, n, stack, w).Ok?
    ensures n.id in g && IsUpToDate(g[n.id], BuildAux(g, n, stack, w).value.times)
  {
    var r := g[n.id];
    var w' := BuildDeps(g, n.id, 0, stack + [n.id], w).value;
    if !IsUpToDate(r, w'.times) {
      BuildDepsExist(g, n.id, 0, stack + [n.id], w);
      var w'' := Execute(r, w').value;
      forall k | 0 <= k < |r.dependsOn| ensures r.dependsOn[k].id in w''.times && w''.times[r.dependsOn[k].id] < w''.times[r.target] {
        assert r.dependsOn[k] in r.dependsOn;
      }
      UpToDateIff(r, w''.times);
    }
  }
}
