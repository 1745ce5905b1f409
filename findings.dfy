/**
 * Two ways in which the verification of BuildSystem.__init__ (makeapi.py:132-136,
 * 223-234) accepts rules that then misbehave, and a stricter check that rules them out.
 *
 * 1. A static node whose id is also a rule target. `nodes` keeps the first node seen
 *    with each id (makeapi.py:154-157), and the walk treats a static node as a leaf
 *    (makeapi.py:258) but follows each rule's own dependency objects (makeapi.py:260-265).
 *    When the walk reaches the static occurrence of the id first, a cycle through it can
 *    go unnoticed, and build can leave the rule for that id unrun.
 * 2. A rule that lists its own target. traverse_dag skips the dependency (the id is
 *    already traversed), but `is_up_to_date` compares the target's time with itself
 *    (makeapi.py:93), so build runs the rule every time.
 *
 * Engine.BuildSystem.Create keeps the checks as the code writes them. `StrictChecks`
 * adds the two missing checks, and the lemmas after it prove what the rules then
 * satisfy: no dependency cycle at all, and a build that leaves every rule up to date
 * and is idempotent.
 */
module Findings {
  import opened Wrappers
  import opened Nodes
  import opened Traversal
  import opened TraversalFacts
  import opened Tables
  import opened Operations
  import opened Engine

  // ----- The code as written -----

  /** A -> [static B, C], B -> [C], C -> [B]: the first node seen with id B is static. */
  function AliasCycleRules(): seq<Rule> {
    [Rule("A", [Static("B"), Dynamic("C")], "make A"),
     Rule("B", [Dynamic("C")], "make B"),
     Rule("C", [Dynamic("B")], "make C")]
  }

  function AliasCycleGraph(): Rules {
    var rs := AliasCycleRules();
    map["A" := rs[0], "B" := rs[1], "C" := rs[2]]
  }

  function AliasCycleValues(): seq<Node> {
    [Dynamic("A"), Static("B"), Dynamic("C")]
  }

  lemma AliasCycleRuleTable()
    ensures RuleTable(AliasCycleRules()) == Ok(AliasCycleGraph())
  {
    var rs := AliasCycleRules();
    assert rs[..2][..1] == rs[..1] && rs[..1][..0] == [];
    assert RuleTable(rs[..1]) == Ok(map["A" := rs[0]]);
    assert RuleTable(rs[..2]) == Ok(map["A" := rs[0], "B" := rs[1]]);
  }

  lemma AliasCycleAllNodes()
    ensures AllNodes(AliasCycleRules()) ==
      [Dynamic("A"), Static("B"), Dynamic("C"), Dynamic("B"), Dynamic("C"), Dynamic("C"), Dynamic("B")]
  {
    var rs := AliasCycleRules();
    assert rs[..2][..1] == rs[..1] && rs[..1][..0] == [];
    assert AllNodes(rs[..1]) == [Dynamic("A"), Static("B"), Dynamic("C")];
  }

  /** The first three nodes are new. */
  lemma AliasCycleFirstNodes(ns: seq<Node>)
    requires |ns| >= 3 && ns[..3] == [Dynamic("A"), Static("B"), Dynamic("C")]
    ensures NodeTable(ns[..3]) == map["A" := Dynamic("A"), "B" := Static("B"), "C" := Dynamic("C")]
    ensures NodeOrder(ns[..3]) == ["A", "B", "C"]
  {
    assert ns[..1][..0] == [] && ns[..2][..1] == ns[..1] && ns[..3][..2] == ns[..2];
    assert NodeTable(ns[..1]) == map["A" := Dynamic("A")] && NodeOrder(ns[..1]) == ["A"];
    assert NodeTable(ns[..2]) == map["A" := Dynamic("A"), "B" := Static("B")] && NodeOrder(ns[..2]) == ["A", "B"];
  }

  /** Only the first three nodes are new. */
  lemma AliasCycleNodeTable(ns: seq<Node>)
    requires ns == [Dynamic("A"), Static("B"), Dynamic("C"), Dynamic("B"), Dynamic("C"), Dynamic("C"), Dynamic("B")]
    ensures NodeTable(ns) == map["A" := Dynamic("A"), "B" := Static("B"), "C" := Dynamic("C")]
    ensures NodeOrder(ns) == ["A", "B", "C"]
  {
    AliasCycleFirstNodes(ns);
    KnownIdsKeepTables(ns, 3, map["A" := Dynamic("A"), "B" := Static("B"), "C" := Dynamic("C")], ["A", "B", "C"]);
  }

  /** Nodes whose ids are already stored change neither the node table nor its order. */
  lemma {:induction false} KnownIdsKeepTables(ns: seq<Node>, k: nat, t: map<string, Node>, o: seq<string>)
    requires k <= |ns| && NodeTable(ns[..k]) == t && NodeOrder(ns[..k]) == o
    requires forall j :: k <= j < |ns| ==> ns[j].id in t
    ensures NodeTable(ns) == t && NodeOrder(ns) == o
    decreases |ns| - k
  {
    if k < |ns| {
      assert ns[..k + 1][..k] == ns[..k];
      KnownIdsKeepTables(ns, k + 1, t, o);
    } else {
      assert ns[..k] == ns;
    }
  }

  lemma AliasCycleInitValues()
    ensures InitValues(AliasCycleRules()) == AliasCycleValues()
  {
    var ns := AllNodes(AliasCycleRules());
    AliasCycleAllNodes();
    AliasCycleNodeTable(ns);
    var o := ["A", "B", "C"];
    assert o[..2] == ["A", "B"] && o[..2][..1] == ["A"] && o[..2][..1][..0] == [];
  }

  /** The walk from [A, static B, C]: B is a leaf, and C's dependency B is already traversed. */
  lemma AliasCycleWalk()
    ensures Traverse(AliasCycleGraph(), AliasCycleValues()).err == None
  {
    var g := AliasCycleGraph();
    var a, c, sb := Dynamic("A"), Dynamic("C"), Static("B");
    var vs := AliasCycleValues();
    assert VisitNode(g, sb, {"A"}, {"A"}) == Walk({"A", "B"}, [Pre(sb), Post(sb)], None);
    assert VisitDeps(g, "C", 1, {"A"}, {"A", "B", "C"}) == Walk({"A", "B", "C"}, [], None);
    assert VisitDeps(g, "C", 0, {"A"}, {"A", "B", "C"}) == Walk({"A", "B", "C"}, [], None);
    assert VisitNode(g, c, {"A"}, {"A", "B"}).err == None;
    assert VisitNode(g, c, {"A"}, {"A", "B"}).done == {"A", "B", "C"};
    assert VisitDeps(g, "A", 2, {}, {"A", "B", "C"}) == Walk({"A", "B", "C"}, [], None);
    assert VisitDeps(g, "A", 1, {}, {"A", "B"}).err == None;
    assert VisitDeps(g, "A", 1, {}, {"A", "B"}).done == {"A", "B", "C"};
    assert VisitDeps(g, "A", 0, {}, {"A"}).err == None;
    assert VisitDeps(g, "A", 0, {}, {"A"}).done == {"A", "B", "C"};
    var none: set<string> := {};
    assert none + {"A"} == {"A"};
    var wa := VisitNode(g, a, {}, {});
    assert wa.err == None && wa.done == {"A", "B", "C"};
    assert TraverseFrom(g, vs, 3, wa.done).err == None;
    assert TraverseFrom(g, vs, 1, wa.done).err == None;
  }

  lemma AliasCycleChecks()
    ensures CheckNodes(AliasCycleGraph(), AliasCycleValues(), map["B" := 1]) == None
  {
    var vs := AliasCycleValues();
    assert vs[1..] == [Static("B"), Dynamic("C")] && vs[1..][1..] == [Dynamic("C")] && vs[1..][1..][1..] == [];
  }

  lemma AliasCycleIsCycle()
    ensures IsCycle(AliasCycleGraph(), ["B", "C", "B"])
  {
    var g := AliasCycleGraph();
    assert IdEdge(g, "B", "C") by { assert Dynamic("C") in g["B"].dependsOn; }
    assert IdEdge(g, "C", "B") by { assert Dynamic("B") in g["C"].dependsOn; }
    var cyc := ["B", "C", "B"];
    assert CycleStep(g, cyc, 0) && CycleStep(g, cyc, 1);
  }

  /**
   * The constructor accepts the rules of `AliasCycleRules` when file B exists, although
   * B -> C -> B is a dependency cycle reachable from the nodes it checks.
   */
  lemma StaticAliasHidesCycle()
    ensures var rs := AliasCycleRules(); var times := map["B" := 1];
      && RuleTable(rs).Ok?
      && StaticChecks(RuleTable(rs).value, InitValues(rs), times) == None
      && IsCycle(RuleTable(rs).value, ["B", "C", "B"])
      && ReachableFrom(RuleTable(rs).value, InitValues(rs), "B")
  {
    AliasCycleRuleTable();
    AliasCycleInitValues();
    AliasCycleWalk();
    AliasCycleChecks();
    AliasCycleIsCycle();
    var vs := AliasCycleValues();
    assert Ids(vs)[1] == "B";
  }

  /**
   * The alias hides the cycle only when the walk meets the static occurrence first: with
   * A -> [C, static B], B -> [C], C -> [B], the walk reaches the dynamic B through C and
   * reports the cycle.
   */
  lemma StaticAliasCycleCaught()
    ensures var g := map["A" := Rule("A", [Dynamic("C"), Static("B")], "make A"),
                         "B" := Rule("B", [Dynamic("C")], "make B"),
                         "C" := Rule("C", [Dynamic("B")], "make C")];
      Traverse(g, [Dynamic("A")]).err == Some(CircularDependency({"A", "C"}))
  {
    var g := map["A" := Rule("A", [Dynamic("C"), Static("B")], "make A"),
                 "B" := Rule("B", [Dynamic("C")], "make B"),
                 "C" := Rule("C", [Dynamic("B")], "make C")];
    var none: set<string> := {};
    assert none + {"A"} == {"A"};
    var ac: set<string> := {"A", "C"};
    assert ac + {"C"} == ac && ac + {"B"} == {"A", "B", "C"} && {"A"} + {"C"} == ac;
    assert g["B"].dependsOn[0] == Dynamic("C") && g["C"].dependsOn[0] == Dynamic("B");
    assert VisitDeps(g, "B", 0, {"A", "C"}, {"A", "B", "C"}).err == Some(CircularDependency({"A", "C"}));
    assert VisitNode(g, Dynamic("B"), {"A", "C"}, {"A", "C"}).err == Some(CircularDependency({"A", "C"}));
    assert VisitDeps(g, "C", 0, {"A"}, {"A", "C"}).err == Some(CircularDependency({"A", "C"}));
    assert VisitNode(g, Dynamic("C"), {"A"}, {"A"}).err == Some(CircularDependency({"A", "C"}));
    assert VisitDeps(g, "A", 0, {}, {"A"}).err == Some(CircularDependency({"A", "C"}));
  }

  /** A -> [static B], B -> [static X]: B is first seen as a static dependency of A. */
  function AliasStaleRules(): seq<Rule> {
    [Rule("A", [Static("B")], "make A"), Rule("B", [Static("X")], "make B")]
  }

  function AliasStaleGraph(): Rules {
    map["A" := AliasStaleRules()[0], "B" := AliasStaleRules()[1]]
  }

  function AliasStaleValues(): seq<Node> {
    [Dynamic("A"), Static("B"), Static("X")]
  }

  lemma AliasStaleRuleTable()
    ensures RuleTable(AliasStaleRules()) == Ok(AliasStaleGraph())
    ensures AllNodes(AliasStaleRules()) == [Dynamic("A"), Static("B"), Dynamic("B"), Static("X")]
  {
    var rs := AliasStaleRules();
    assert rs[..1][..0] == [];
    assert RuleTable(rs[..1]) == Ok(map["A" := rs[0]]);
    assert AllNodes(rs[..1]) == [Dynamic("A"), Static("B")];
  }

  /** A and B are new, the dynamic B is known, and X is new. */
  lemma AliasStaleNodeTable(ns: seq<Node>)
    requires ns == [Dynamic("A"), Static("B"), Dynamic("B"), Static("X")]
    ensures NodeTable(ns) == map["A" := Dynamic("A"), "B" := Static("B"), "X" := Static("X")]
    ensures NodeOrder(ns) == ["A", "B", "X"]
  {
    assert ns[..1][..0] == [] && ns[..2][..1] == ns[..1] && ns[..3][..2] == ns[..2] && ns[..4] == ns;
    assert NodeTable(ns[..1]) == map["A" := Dynamic("A")] && NodeOrder(ns[..1]) == ["A"];
    var t := map["A" := Dynamic("A"), "B" := Static("B")];
    assert NodeTable(ns[..2]) == t && NodeOrder(ns[..2]) == ["A", "B"];
    assert NodeTable(ns[..3]) == t && NodeOrder(ns[..3]) == ["A", "B"];
  }

  lemma AliasStaleTables()
    ensures RuleTable(AliasStaleRules()) == Ok(AliasStaleGraph())
    ensures InitValues(AliasStaleRules()) == AliasStaleValues()
  {
    AliasStaleRuleTable();
    AliasStaleNodeTable(AllNodes(AliasStaleRules()));
    var o := ["A", "B", "X"];
    assert o[..2] == ["A", "B"] && o[..2][..1] == ["A"] && o[..2][..1][..0] == [];
  }

  /** The walk from [A, static B, static X] leaves static B, then A, then static X. */
  lemma AliasStaleWalk()
    ensures Traverse(AliasStaleGraph(), AliasStaleValues()) ==
      Walk({"A", "B", "X"}, [Pre(Dynamic("A")), Pre(Static("B")), Post(Static("B")), Post(Dynamic("A")),
                            Pre(Static("X")), Post(Static("X"))], None)
  {
    var g := AliasStaleGraph();
    var vs := AliasStaleValues();
    var a, sb, sx := Dynamic("A"), Static("B"), Static("X");
    var none: set<string> := {};
    assert none + {"A"} == {"A"};
    assert VisitNode(g, sb, {"A"}, {"A"}) == Walk({"A", "B"}, [Pre(sb), Post(sb)], None);
    assert VisitDeps(g, "A", 1, {}, {"A", "B"}) == Walk({"A", "B"}, [], None);
    assert VisitDeps(g, "A", 0, {}, {"A"}) == Walk({"A", "B"}, [Pre(sb), Post(sb)], None);
    assert VisitNode(g, a, {}, {}) == Walk({"A", "B"}, [Pre(a), Pre(sb), Post(sb), Post(a)], None);
    assert VisitNode(g, sx, {}, {"A", "B"}) == Walk({"A", "B", "X"}, [Pre(sx), Post(sx)], None);
    assert TraverseFrom(g, vs, 3, {"A", "B", "X"}) == Walk({"A", "B", "X"}, [], None);
    assert TraverseFrom(g, vs, 2, {"A", "B"}) == Walk({"A", "B", "X"}, [Pre(sx), Post(sx)], None);
    assert TraverseFrom(g, vs, 1, {"A", "B"}) == TraverseFrom(g, vs, 2, {"A", "B"});
  }

  function AliasStaleWorld(): World {
    World(map["A" := 3, "B" := 1, "X" := 2], 4, {}, [])
  }

  lemma AliasStaleChecks()
    ensures CheckNodes(AliasStaleGraph(), AliasStaleValues(), AliasStaleWorld().times) == None
  {
    var vs := AliasStaleValues();
    assert vs[1..] == [Static("B"), Static("X")] && vs[1..][1..] == [Static("X")] && vs[1..][1..][1..] == [];
  }

  lemma AliasStaleOrder()
    ensures PostNodes(Traverse(AliasStaleGraph(), AliasStaleValues()).trace) == [Static("B"), Dynamic("A"), Static("X")]
  {
    AliasStaleWalk();
    var t := Traverse(AliasStaleGraph(), AliasStaleValues()).trace;
    assert t[1..][1..][1..][1..][1..][1..] == [];
  }

  /** A is newer than B, so build skips it; B is older than X. */
  lemma AliasStaleRun()
    ensures RunRules(AliasStaleGraph(), [Static("B"), Dynamic("A"), Static("X")], AliasStaleWorld()) ==
      Outcome(AliasStaleWorld(), None)
    ensures !IsUpToDate(AliasStaleGraph()["B"], AliasStaleWorld().times)
  {
    var g := AliasStaleGraph();
    var w := AliasStaleWorld();
    UpToDateIff(g["A"], w.times);
    UpToDateIff(g["B"], w.times);
    var order := [Static("B"), Dynamic("A"), Static("X")];
    assert order[1..] == [Dynamic("A"), Static("X")] && order[1..][1..] == [Static("X")] && order[1..][1..][1..] == [];
  }

  /**
   * With B older than its dependency X, the constructor accepts the rules of
   * `AliasStaleRules`, and `build()` raises nothing and runs no command, leaving the
   * rule for B stale: static B is walked as a leaf, so its rule is never looked at.
   */
  lemma StaticAliasNeverRebuilt()
    ensures var rs := AliasStaleRules(); var w := AliasStaleWorld();
      && RuleTable(rs).Ok?
      && StaticChecks(RuleTable(rs).value, InitValues(rs), w.times) == None
      && BuildOutcome(RuleTable(rs).value, InitValues(rs), w) == Outcome(w, None)
      && !IsUpToDate(RuleTable(rs).value["B"], w.times)
  {
    AliasStaleTables();
    AliasStaleWalk();
    AliasStaleChecks();
    AliasStaleOrder();
    AliasStaleRun();
  }

  /** One rule that lists its own target: a -> [a]. */
  function SelfLoopRules(): seq<Rule> {
    [Rule("a", [Dynamic("a")], "touch a")]
  }

  lemma SelfLoopTables()
    ensures RuleTable(SelfLoopRules()) == Ok(map["a" := SelfLoopRules()[0]])
    ensures InitValues(SelfLoopRules()) == [Dynamic("a")]
  {
    var rs := SelfLoopRules();
    assert rs[..0] == [];
    var ns := AllNodes(rs);
    assert ns == [Dynamic("a"), Dynamic("a")];
    assert ns[..1][..0] == [];
    assert NodeTable(ns[..1]) == map["a" := Dynamic("a")] && NodeOrder(ns[..1]) == ["a"];
    assert NodeOrder(ns) == ["a"];
    assert ["a"][..0] == [];
  }

  /** One build of [a]: the walk enters and leaves a once, and its rule runs when it is stale. */
  lemma SelfLoopBuildStep(w: World)
    requires w.failing == {} && !IsUpToDate(SelfLoopRules()[0], w.times)
    ensures BuildOutcome(map["a" := SelfLoopRules()[0]], [Dynamic("a")], w) ==
      Outcome(World(w.times["a" := w.clock], w.clock + 1, {}, w.log + ["a"]), None)
  {
    var g := map["a" := SelfLoopRules()[0]];
    var w' := World(w.times["a" := w.clock], w.clock + 1, {}, w.log + ["a"]);
    SelfLoopNotReported();
    assert PostNodes([Pre(Dynamic("a")), Post(Dynamic("a"))]) == [Dynamic("a")];
    assert ExecuteRule(g, Dynamic("a"), w) == Ok(w');
    assert [Dynamic("a")][1..] == [];
    assert RunRules(g, [Dynamic("a")], w) == RunRules(g, [], w');
  }

  lemma SelfLoopFirstBuild()
    ensures var g := map["a" := SelfLoopRules()[0]];
      && StaticChecks(g, [Dynamic("a")], map[]) == None
      && BuildOutcome(g, [Dynamic("a")], World(map[], 0, {}, [])) == Outcome(World(map["a" := 0], 1, {}, ["a"]), None)
  {
    var g := map["a" := SelfLoopRules()[0]];
    SelfLoopNotReported();
    assert [Dynamic("a")][1..] == [];
    UpToDateIff(g["a"], map[]);
    SelfLoopBuildStep(World(map[], 0, {}, []));
    assert map[]["a" := 0] == map["a" := 0];
  }

  lemma SelfLoopSecondBuild()
    ensures BuildOutcome(map["a" := SelfLoopRules()[0]], [Dynamic("a")], World(map["a" := 0], 1, {}, ["a"])) ==
      Outcome(World(map["a" := 1], 2, {}, ["a", "a"]), None)
  {
    var g := map["a" := SelfLoopRules()[0]];
    UpToDateIff(g["a"], map["a" := 0]);
    assert g["a"].dependsOn[0].id == "a";
    SelfLoopBuildStep(World(map["a" := 0], 1, {}, ["a"]));
    assert map["a" := 0]["a" := 1] == map["a" := 1];
  }

  /**
   * The constructor accepts a rule that depends on its own target, and build runs it on
   * every call: after the first build the target's time equals its dependency's time, so
   * `t < res` fails and the second build runs the command again.
   */
  lemma SelfLoopRebuiltEveryTime()
    ensures var rs := SelfLoopRules(); var w0 := World(map[], 0, {}, []);
      var g := RuleTable(rs).value; var w1 := BuildOutcome(g, InitValues(rs), w0).world;
      && RuleTable(rs).Ok?
      && StaticChecks(g, InitValues(rs), w0.times) == None
      && w1 == World(map["a" := 0], 1, {}, ["a"])
      && BuildOutcome(g, InitValues(rs), w1) == Outcome(World(map["a" := 1], 2, {}, ["a", "a"]), None)
  {
    SelfLoopTables();
    SelfLoopFirstBuild();
    SelfLoopSecondBuild();
  }

  // ----- The stricter check -----

  /** The first dependency in `deps` that is static with a rule of its own, or that is the target `t` itself. */
  function DepsAlias(g: Rules, t: string, deps: seq<Node>): (e: Option<Error>)
    ensures e.None? <==> forall d :: d in deps ==> !(d.Static? && d.id in g) && d.id != t
    ensures e.Some? ==> e.value == CircularDependency({t}) || e.value.StaticHasRule?
  {
    if deps == [] then None
    else if deps[0].Static? && deps[0].id in g then Some(StaticHasRule(deps[0].id))
    else if deps[0].id == t then Some(CircularDependency({t}))
    else DepsAlias(g, t, deps[1..])
  }

  /**
   * The missing checks, rule by rule: no static dependency may share its id with a rule
   * target, and no rule may list its own target.
   */
  function AliasCheck(g: Rules, rs: seq<Rule>): (e: Option<Error>)
    ensures e.None? <==>
      forall i, d :: 0 <= i < |rs| && d in rs[i].dependsOn ==> !(d.Static? && d.id in g) && d.id != rs[i].target
  {
    if rs == [] then None
    else
      var e := DepsAlias(g, rs[0].target, rs[0].dependsOn);
      if e.Some? then e
      else
        var rest := AliasCheck(g, rs[1..]);
        assert forall i :: 1 <= i < |rs| ==> rs[i] == rs[1..][i - 1];
        rest
  }

  /** The verification of the constructor followed by the two missing checks. */
  function StrictChecks(g: Rules, rs: seq<Rule>, vs: seq<Node>, times: Times): Option<Error> {
    var e := StaticChecks(g, vs, times);
    if e.Some? then e else AliasCheck(g, rs)
  }

  /** The nodes the constructor walks that are static are dependencies of some rule. */
  lemma {:induction false} StaticNodeIsDependency(rs: seq<Rule>, n: Node)
    requires n in AllNodes(rs) && n.Static?
    ensures exists i :: 0 <= i < |rs| && n in rs[i].dependsOn
  {
    var p := rs[..|rs| - 1];
    var r := rs[|rs| - 1];
    if n in AllNodes(p) {
      StaticNodeIsDependency(p, n);
      var i :| 0 <= i < |p| && n in p[i].dependsOn;
      assert rs[i] == p[i];
    } else {
      assert n in RuleNodes(r);
      assert n in r.dependsOn;
    }
  }

  /** Every node value of a valid rules table is a node the constructor walks. */
  lemma ValuesAreNodes(rs: seq<Rule>)
    ensures forall n :: n in InitValues(rs) ==> n in AllNodes(rs)
  {
    InitValuesIds(rs);
    var vs := InitValues(rs);
    forall n | n in vs ensures n in AllNodes(rs) {
      var k :| 0 <= k < |vs| && vs[k] == n;
    }
  }

  /** Every rule target is the id of a node value, so the walk from all node values starts at it. */
  lemma TargetsAreValues(rs: seq<Rule>)
    requires RuleTable(rs).Ok?
    ensures forall x :: x in RuleTable(rs).value ==> x in Elems(Ids(InitValues(rs)))
  {
    RuleTableSpec(rs);
    InitValuesIds(rs);
    forall x | x in RuleTable(rs).value ensures x in Elems(Ids(InitValues(rs))) {
      var r :| r in rs && r.target == x;
      var i :| 0 <= i < |rs| && rs[i] == r;
      TargetIsNode(rs, i);
    }
  }

  /** A rule table that passes the check reaches every rule target from the node values. */
  lemma TargetsReachable(rs: seq<Rule>)
    requires RuleTable(rs).Ok?
    ensures forall x :: x in RuleTable(rs).value ==> ReachableFrom(RuleTable(rs).value, InitValues(rs), x)
  {
    TargetsAreValues(rs);
  }

  /** The static dependencies of a rule are the ids of node values. */
  lemma DependencyIsValue(rs: seq<Rule>, i: nat, j: nat)
    requires i < |rs| && j < |rs[i].dependsOn|
    ensures exists n :: n in InitValues(rs) && n.id == rs[i].dependsOn[j].id
  {
    DependencyIsNode(rs, i, j);
    InitValuesIds(rs);
    InIds(InitValues(rs), rs[i].dependsOn[j].id);
  }

  /** With the stricter check passed, every static dependency exists. */
  lemma StaticDependenciesExist(rs: seq<Rule>, times: Times)
    requires RuleTable(rs).Ok?
    requires StrictChecks(RuleTable(rs).value, rs, InitValues(rs), times).None?
    ensures var g := RuleTable(rs).value;
      forall k, d :: k in g && d in g[k].dependsOn && d.Static? ==> d.id in times
  {
    var g := RuleTable(rs).value;
    RuleTableSpec(rs);
    StrictChecksSpec(rs, times);
    StaticChecksSpec(g, InitValues(rs), times);
    forall k, d | k in g && d in g[k].dependsOn && d.Static? ensures d.id in times {
      var r :| r in rs && r.target == k;
      var i :| 0 <= i < |rs| && rs[i] == r;
      var j :| 0 <= j < |r.dependsOn| && r.dependsOn[j] == d;
      DependencyIsValue(rs, i, j);
    }
  }

  /**
   * The stricter check passes exactly when the constructor's checks pass, no static node
   * shares an id with a rule target and no rule lists its own target.
   */
  lemma StrictChecksSpec(rs: seq<Rule>, times: Times)
    requires RuleTable(rs).Ok?
    ensures var g := RuleTable(rs).value; var vs := InitValues(rs);
      StrictChecks(g, rs, vs, times).None? <==>
        StaticChecks(g, vs, times).None? && StaticLeaves(g, vs) && NoSelfLoops(g)
  {
    var g := RuleTable(rs).value;
    var vs := InitValues(rs);
    RuleTableSpec(rs);
    if StrictChecks(g, rs, vs, times).None? {
      ValuesAreNodes(rs);
      forall n | n in vs && n.Static? ensures n.id !in g {
        StaticNodeIsDependency(rs, n);
      }
      forall k, d | k in g && d in g[k].dependsOn ensures !(d.Static? && d.id in g) && d.id != k {
        var r :| r in rs && r.target == k;
        var i :| 0 <= i < |rs| && rs[i] == r;
      }
    }
    if StaticLeaves(g, vs) && NoSelfLoops(g) {
      forall i, d | 0 <= i < |rs| && d in rs[i].dependsOn ensures !(d.Static? && d.id in g) && d.id != rs[i].target {
        assert g[rs[i].target] == rs[i];
      }
    }
  }

  /**
   * What the stricter check guarantees of a rules table: rules are stored under their
   * targets, no static node shares an id with a rule target, no rule lists its own target,
   * every static node exists, and there is no dependency cycle at all.
   */
  lemma StrictChecksSound(rs: seq<Rule>, times: Times)
    requires RuleTable(rs).Ok?
    requires StrictChecks(RuleTable(rs).value, rs, InitValues(rs), times).None?
    ensures var g := RuleTable(rs).value; var vs := InitValues(rs);
      && TargetsMatch(g) && StaticLeaves(g, vs) && NoSelfLoops(g) && StaticsExist(g, vs, times)
      && forall c :: !IsCycle(g, c)
  {
    var g := RuleTable(rs).value;
    var vs := InitValues(rs);
    assert forall c :: IsCycle(g, c) ==> c[0] in g by {
      forall c | IsCycle(g, c) ensures c[0] in g {
        assert CycleStep(g, c, 0);
      }
    }
    RuleTableTargets(rs);
    RuleTableSpec(rs);
    StrictChecksSpec(rs, times);
    StaticChecksSpec(g, vs, times);
    StaticDependenciesExist(rs, times);
    TargetsReachable(rs);
  }

  /**
   * With the stricter check, build does what it promises: when it raises nothing, every
   * rule is up to date afterwards, and a second build runs no command.
   */
  lemma StrictBuildSettles(rs: seq<Rule>, w: World)
    requires RuleTable(rs).Ok? && Fresh(w)
    requires StrictChecks(RuleTable(rs).value, rs, InitValues(rs), w.times).None?
    requires BuildOutcome(RuleTable(rs).value, InitValues(rs), w).err.None?
    ensures var g := RuleTable(rs).value; var w' := BuildOutcome(g, InitValues(rs), w).world;
      && (forall k :: k in g ==> IsUpToDate(g[k], w'.times))
      && BuildOutcome(g, InitValues(rs), w') == Outcome(w', None)
  {
    var g := RuleTable(rs).value;
    var vs := InitValues(rs);
    StrictChecksSound(rs, w.times);
    StaticChecksSpec(g, vs, w.times);
    TraversedIsReachable(g, vs);
    TargetsReachable(rs);
    BuildMakesUpToDate(g, vs, w);
    BuildIdempotent(g, vs, w);
  }
}
