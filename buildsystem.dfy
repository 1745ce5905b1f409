/**
 * The BuildSystem object (makeapi.py:126-289): the three tables the constructor fills
 * in place, and the methods that walk and use them.
 *
 * Each method is proved against the function that specifies it in Tables, Traversal or
 * Operations, so the properties proved there hold of what the methods compute. The
 * traversal methods return the record of callback calls instead of calling callbacks;
 * build, clean and dag then act on that record in order.
 */
module Engine {
  import opened Wrappers
  import opened Nodes
  import opened Traversal
  import opened TraversalFacts
  import opened Tables
  import opened Operations

  /** `nodes.values()`: the stored nodes, in the order their ids were inserted. */
  function NodeValues(nodes: map<string, Node>, order: seq<string>): (vs: seq<Node>)
    requires forall x :: x in order ==> x in nodes
    ensures |vs| == |order| && forall k :: 0 <= k < |order| ==> vs[k] == nodes[order[k]]
  {
    if order == [] then []
    else NodeValues(nodes, order[..|order| - 1]) + [nodes[order[|order| - 1]]]
  }

  /** The node values of the tables the constructor builds from `rs`. */
  function InitValues(rs: seq<Rule>): seq<Node> {
    NodeOrderElems(AllNodes(rs));
    NodeValues(NodeTable(AllNodes(rs)), NodeOrder(AllNodes(rs)))
  }

  /**
   * `nodes.values()` after construction lists every id of the rules exactly once, in the
   * order the ids were first seen, and each value is the first node seen with its id.
   */
  lemma InitValuesIds(rs: seq<Rule>)
    ensures Ids(InitValues(rs)) == NodeOrder(AllNodes(rs))
    ensures NoDup(Ids(InitValues(rs))) && Elems(Ids(InitValues(rs))) == NodeTable(AllNodes(rs)).Keys
    ensures forall k :: 0 <= k < |InitValues(rs)| ==>
      InitValues(rs)[k].id in Ids(AllNodes(rs)) &&
      InitValues(rs)[k] == AllNodes(rs)[FirstIndex(AllNodes(rs), InitValues(rs)[k].id)]
  {
    var ns := AllNodes(rs);
    var o := NodeOrder(ns);
    var vs := InitValues(rs);
    NodeOrderElems(ns);
    NodeTableSpec(ns);
    forall k | 0 <= k < |vs| ensures vs[k].id == o[k] && o[k] in Ids(ns) && vs[k] == ns[FirstIndex(ns, o[k])] {
      assert o[k] in Elems(o);
      var i := FirstIndex(ns, o[k]);
      assert vs[k] == NodeTable(ns)[o[k]] == ns[i];
    }
    assert Ids(vs) == o;
  }

  /** An error raised by the first rule that repeats a target, or by the first rule past `k` if none before. */
  lemma {:induction false} RuleTableStops(rs: seq<Rule>, k: nat)
    requires k <= |rs| && RuleTable(rs[..k]).Err?
    ensures RuleTable(rs) == RuleTable(rs[..k])
    decreases |rs|
  {
    if k < |rs| {
      var p := rs[..|rs| - 1];
      assert p[..k] == rs[..k];
      RuleTableStops(p, k);
    } else {
      assert rs[..k] == rs;
    }
  }

  lemma RuleTableSnoc(rs: seq<Rule>, i: nat)
    requires i < |rs|
    ensures RuleTable(rs[..i + 1]) ==
      match RuleTable(rs[..i])
      case Err(e) => Err(e)
      case Ok(m) => if rs[i].target in m then Err(MultipleRules(rs[i].target)) else Ok(m[rs[i].target := rs[i]])
  {
    assert rs[..i + 1][..i] == rs[..i];
  }

  lemma AllNodesSnoc(rs: seq<Rule>, i: nat)
    requires i < |rs|
    ensures AllNodes(rs[..i + 1]) == AllNodes(rs[..i]) + RuleNodes(rs[i])
  {
    assert rs[..i + 1][..i] == rs[..i];
  }

  lemma NodeTableSnoc(ns: seq<Node>, n: Node)
    ensures NodeTable(ns + [n]) == if n.id in NodeTable(ns) then NodeTable(ns) else NodeTable(ns)[n.id := n]
    ensures NodeOrder(ns + [n]) == if n.id in NodeTable(ns) then NodeOrder(ns) else NodeOrder(ns) + [n.id]
  {
    assert (ns + [n])[..|ns|] == ns;
  }

  lemma HitsSnoc(deps: seq<Node>, j: nat, d: string, t: string)
    requires j < |deps|
    ensures Hits(deps[..j + 1], d, t) == Hits(deps[..j], d, t) + (if deps[j].id == d then [t] else [])
  {
    assert deps[..j + 1][..j] == deps[..j];
  }

  lemma RequestersSnoc(rs: seq<Rule>, i: nat, d: string)
    requires i < |rs|
    ensures RequestersOf(rs[..i + 1], d) == RequestersOf(rs[..i], d) + Hits(rs[i].dependsOn, d, rs[i].target)
  {
    assert rs[..i + 1][..i] == rs[..i];
  }

  lemma SnocSlice<T>(a: seq<T>, b: seq<T>, j: nat)
    requires j < |b|
    ensures a + b[..j + 1] == (a + b[..j]) + [b[j]]
  {
    assert b[..j + 1] == b[..j] + [b[j]];
  }

  /** The three tables the first loop fills, after it has walked the nodes `ns`. */
  ghost predicate Stored(ns: seq<Node>, table: map<string, Node>, order: seq<string>, lists: map<string, seq<string>>) {
    table == NodeTable(ns) && order == NodeOrder(ns) && lists == EmptyLists(table.Keys)
  }

  /** One node of the first loop: a new id is stored, appended to the order and given an empty list. */
  lemma StoreStep(ns: seq<Node>, n: Node, table: map<string, Node>, order: seq<string>, lists: map<string, seq<string>>)
    requires Stored(ns, table, order, lists)
    ensures n.id in table ==> Stored(ns + [n], table, order, lists)
    ensures n.id !in table ==> Stored(ns + [n], table[n.id := n], order + [n.id], lists[n.id := []])
  {
    NodeTableSnoc(ns, n);
    EmptyListsAdd(table.Keys, n.id);
  }

  /** The `node_requesters` entries the first loop creates: an empty list for every id. */
  function EmptyLists(keys: set<string>): (m: map<string, seq<string>>)
    ensures m.Keys == keys && forall x :: x in m ==> m[x] == []
  {
    map x | x in keys :: []
  }

  lemma EmptyListsAdd(keys: set<string>, x: string)
    ensures EmptyLists(keys)[x := []] == EmptyLists(keys + {x})
  {
  }

  /** A valid rules table stores every rule under its own target, as build assumes. */
  lemma RuleTableTargets(rs: seq<Rule>)
    requires RuleTable(rs).Ok?
    ensures TargetsMatch(RuleTable(rs).value)
  {
    RuleTableSpec(rs);
    forall k | k in RuleTable(rs).value ensures RuleTable(rs).value[k].target == k {
      var x :| x in rs && x.target == k;
      var i :| 0 <= i < |rs| && rs[i] == x;
    }
  }

  /** `node_requesters` part way through the second loop: rules before `i`, and dependencies before `j` of rule `i`. */
  ghost function Partial(rs: seq<Rule>, i: nat, j: nat, keys: set<string>): (m: map<string, seq<string>>)
    requires i < |rs| && j <= |rs[i].dependsOn|
    ensures m.Keys == keys
  {
    map x | x in keys :: RequestersOf(rs[..i], x) + Hits(rs[i].dependsOn[..j], x, rs[i].target)
  }

  /** `node_requesters` after the second loop has handled the rules before `i`. */
  ghost function Completed(rs: seq<Rule>, i: nat, keys: set<string>): map<string, seq<string>>
    requires i <= |rs|
  {
    map x | x in keys :: RequestersOf(rs[..i], x)
  }

  lemma CompletedStart(rs: seq<Rule>, keys: set<string>)
    ensures Completed(rs, 0, keys) == EmptyLists(keys)
  {
    assert rs[..0] == [];
  }

  lemma CompletedEnd(rs: seq<Rule>)
    ensures Completed(rs, |rs|, NodeTable(AllNodes(rs)).Keys) == RequesterTable(rs)
  {
    assert rs[..|rs|] == rs;
  }

  lemma PartialStart(rs: seq<Rule>, i: nat, keys: set<string>)
    requires i < |rs|
    ensures Partial(rs, i, 0, keys) == Completed(rs, i, keys)
  {
    assert rs[i].dependsOn[..0] == [];
    forall x | x in keys ensures Partial(rs, i, 0, keys)[x] == RequestersOf(rs[..i], x) {
      assert RequestersOf(rs[..i], x) + [] == RequestersOf(rs[..i], x);
    }
  }

  lemma PartialEnd(rs: seq<Rule>, i: nat, keys: set<string>)
    requires i < |rs|
    ensures Partial(rs, i, |rs[i].dependsOn|, keys) == Completed(rs, i + 1, keys)
  {
    assert rs[i].dependsOn[..|rs[i].dependsOn|] == rs[i].dependsOn;
    forall x | x in keys ensures Partial(rs, i, |rs[i].dependsOn|, keys)[x] == RequestersOf(rs[..i + 1], x) {
      RequestersSnoc(rs, i, x);
    }
  }

  lemma PartialStep(rs: seq<Rule>, i: nat, j: nat, keys: set<string>)
    requires i < |rs| && j < |rs[i].dependsOn| && rs[i].dependsOn[j].id in keys
    ensures var m := Partial(rs, i, j, keys); var d := rs[i].dependsOn[j].id;
      m[d := m[d] + [rs[i].target]] == Partial(rs, i, j + 1, keys)
  {
    var m := Partial(rs, i, j, keys);
    var d := rs[i].dependsOn[j].id;
    var m' := Partial(rs, i, j + 1, keys);
    forall x | x in keys ensures m[d := m[d] + [rs[i].target]][x] == m'[x] {
      HitsSnoc(rs[i].dependsOn, j, x, rs[i].target);
    }
  }

  /** Every dependency of rule `i` is a key of `nodes`, so of `node_requesters`. */
  lemma DependenciesAreKeys(rs: seq<Rule>, keys: set<string>)
    requires keys == NodeTable(AllNodes(rs)).Keys
    ensures forall i, k :: 0 <= i < |rs| && 0 <= k < |rs[i].dependsOn| ==> rs[i].dependsOn[k].id in keys
  {
    forall i, k | 0 <= i < |rs| && 0 <= k < |rs[i].dependsOn| ensures rs[i].dependsOn[k].id in keys {
      DependencyIsNode(rs, i, k);
    }
  }

  lemma AppendAssoc3<T>(a: seq<T>, b: seq<T>, c: seq<T>)
    ensures (a + b) + c == a + (b + c)
  {
  }

  lemma ThenThen(a: seq<Event>, b: seq<Event>, w: Walk)
    ensures Then(a, Then(b, w)) == Then(a + b, w)
  {
    AppendAssoc3(a, b, w.trace);
  }

  /**
   * The dependency loop of `_traverse_dag_aux` for `t`, one iteration at a time: `whole` is
   * the walk of the loop from its start, and the callbacks `acc` have been made by the
   * iterations before `i`, which left the traversed set `cur`.
   */
  ghost predicate DepsLoop(g: Rules, t: string, stack: set<string>, whole: Walk, i: nat, cur: set<string>, acc: seq<Event>)
    requires t in g && i <= |g[t].dependsOn|
  {
    whole == Then(acc, VisitDeps(g, t, i, stack, cur))
  }

  lemma DepsLoopEnd(g: Rules, t: string, stack: set<string>, whole: Walk, cur: set<string>, acc: seq<Event>)
    requires t in g && DepsLoop(g, t, stack, whole, |g[t].dependsOn|, cur, acc)
    ensures whole == Walk(cur, acc, None)
  {
    assert acc + [] == acc;
  }

  lemma DepsLoopCycle(g: Rules, t: string, stack: set<string>, whole: Walk, i: nat, cur: set<string>, acc: seq<Event>)
    requires t in g && i < |g[t].dependsOn| && DepsLoop(g, t, stack, whole, i, cur, acc)
    requires g[t].dependsOn[i].id in stack
    ensures whole == Walk(cur, acc, Some(CircularDependency(stack + {g[t].dependsOn[i].id})))
  {
    assert acc + [] == acc;
  }

  lemma DepsLoopSkip(g: Rules, t: string, stack: set<string>, whole: Walk, i: nat, cur: set<string>, acc: seq<Event>)
    requires t in g && i < |g[t].dependsOn| && DepsLoop(g, t, stack, whole, i, cur, acc)
    requires g[t].dependsOn[i].id !in stack && g[t].dependsOn[i].id in cur
    ensures DepsLoop(g, t, stack, whole, i + 1, cur, acc)
  {
  }

  lemma DepsLoopEnter(g: Rules, t: string, stack: set<string>, whole: Walk, i: nat, cur: set<string>, acc: seq<Event>, w: Walk)
    requires t in g && i < |g[t].dependsOn| && DepsLoop(g, t, stack, whole, i, cur, acc)
    requires g[t].dependsOn[i].id !in stack && g[t].dependsOn[i].id !in cur
    requires w == VisitNode(g, g[t].dependsOn[i], stack + {t}, cur)
    ensures w.err.Some? ==> whole == Walk(w.done, acc + w.trace, w.err)
    ensures w.err.None? ==> cur <= w.done && DepsLoop(g, t, stack, whole, i + 1, w.done, acc + w.trace)
  {
    if w.err.None? {
      ThenThen(acc, w.trace, VisitDeps(g, t, i + 1, stack, w.done));
    }
  }

  /** Entering a node shrinks the set of ids left to traverse. */
  lemma EnterMeasure(g: Rules, id: string, done: set<string>)
    requires id !in done
    ensures |Universe(g) - (done + {id})| < |(Universe(g) + {id}) - done|
  {
    CardStrict(Universe(g) - (done + {id}), (Universe(g) + {id}) - done, id);
  }

  /** A dependency entered from the loop has no more ids left to traverse than the loop had at its start. */
  lemma DepMeasure(g: Rules, t: string, i: nat, entered: set<string>, cur: set<string>)
    requires t in g && i < |g[t].dependsOn| && entered <= cur
    ensures |(Universe(g) + {g[t].dependsOn[i].id}) - cur| <= |Universe(g) - entered|
  {
    assert g[t].dependsOn[i] in g[t].dependsOn;
    assert (Universe(g) + {g[t].dependsOn[i].id}) - cur == Universe(g) - cur;
    CardSubset(Universe(g) - cur, Universe(g) - entered);
  }

  lemma VisitNodeDynamic(g: Rules, n: Node, stack: set<string>, done: set<string>)
    requires n.id !in done && n.Dynamic? && n.id in g
    ensures var w := VisitDeps(g, n.id, 0, stack, done + {n.id});
      VisitNode(g, n, stack, done) ==
        if w.err.Some? then Then([Pre(n)], w) else Walk(w.done, [Pre(n)] + w.trace + [Post(n)], None)
  {
  }

  lemma TraverseFromSkip(g: Rules, starts: seq<Node>, i: nat, done: set<string>)
    requires i < |starts| && starts[i].id in done
    ensures TraverseFrom(g, starts, i, done) == TraverseFrom(g, starts, i + 1, done)
  {
  }

  lemma TraverseFromEnter(g: Rules, starts: seq<Node>, i: nat, done: set<string>)
    requires i < |starts| && starts[i].id !in done
    ensures var w := VisitNode(g, starts[i], {}, done);
      TraverseFrom(g, starts, i, done) ==
        if w.err.Some? then w else Then(w.trace, TraverseFrom(g, starts, i + 1, w.done))
  {
  }

  /** One callback of `dag`'s replay. */
  lemma DagStep(t: seq<Event>, i: nat, depth: int, lines: seq<(int, string)>)
    requires i < |t|
    ensures lines + DagLines(t[i..], depth) ==
      if t[i].Pre? then (lines + [(depth, t[i].node.id)]) + DagLines(t[i + 1..], depth + 1)
      else lines + DagLines(t[i + 1..], depth - 1)
  {
    assert t[i..][0] == t[i] && t[i..][1..] == t[i + 1..];
  }

  /** The counter after one more callback. */
  lemma OpenStep(t: seq<Event>, i: nat)
    requires i < |t|
    ensures Open(t[..i + 1]) == Open(t[..i]) + (if t[i].Pre? then 1 else -1)
  {
    assert t[..i + 1] == t[..i] + [t[i]];
    OpenConcat(t[..i], [t[i]]);
    OneEvent(t[i]);
  }

  class BuildSystem {
    /** Target id to the rule that produces it. */
    var rules: Rules
    /** Node id to the first node seen with that id. */
    var nodes: map<string, Node>
    /** The order in which ids were inserted into `nodes`. */
    var nodeOrder: seq<string>
    /** Node id to the target ids of the rules that depend on it. */
    var requesters: map<string, seq<string>>

    /** The tables hold exactly what the constructor builds from `rs`. */
    ghost predicate Built(rs: seq<Rule>)
      reads this
    {
      && RuleTable(rs).Ok? && rules == RuleTable(rs).value
      && nodes == NodeTable(AllNodes(rs)) && nodeOrder == NodeOrder(AllNodes(rs))
      && requesters == RequesterTable(rs)
    }

    /** Every inserted id has a stored node. */
    ghost predicate Consistent()
      reads this
    {
      forall x :: x in nodeOrder ==> x in nodes
    }

    /** The empty tables the constructor starts from. */
    constructor ()
      ensures rules == map[] && nodes == map[] && nodeOrder == [] && requesters == map[]
    {
      rules := map[];
      nodes := map[];
      nodeOrder := [];
      requesters := map[];
    }

    /**
     * The first loop of the constructor: each rule goes into `rules` unless its target is
     * already there, and each node of the rule goes into `nodes` with an empty requester
     * list unless its id is already there.
     */
    method AddRules(rs: seq<Rule>) returns (err: Option<Error>)
      requires rules == map[] && nodes == map[] && nodeOrder == [] && requesters == map[]
      modifies this
      ensures err.None? <==> RuleTable(rs).Ok?
      ensures err.Some? ==> err.value == RuleTable(rs).error
      ensures err.None? ==>
        && rules == RuleTable(rs).value
        && nodes == NodeTable(AllNodes(rs)) && nodeOrder == NodeOrder(AllNodes(rs))
        && requesters == EmptyLists(nodes.Keys)
    {
      var i := 0;
      while i < |rs|
        invariant i <= |rs|
        invariant RuleTable(rs[..i]).Ok? && rules == RuleTable(rs[..i]).value
        invariant nodes == NodeTable(AllNodes(rs[..i])) && nodeOrder == NodeOrder(AllNodes(rs[..i]))
        invariant requesters == EmptyLists(nodes.Keys)
      {
        var r := rs[i];
        RuleTableSnoc(rs, i);
        if r.target in rules {
          RuleTableStops(rs, i + 1);
          return Some(MultipleRules(r.target));
        }
        rules := rules[r.target := r];
        AddNodes(AllNodes(rs[..i]), RuleNodes(r));
        AllNodesSnoc(rs, i);
        i := i + 1;
      }
      assert rs[..i] == rs;
      return None;
    }

    /**
     * The inner loop of the first loop, over `[r.target] + r.depends_on`: a node whose id is
     * new is stored, its id appended to the insertion order and given an empty requester list.
     */
    method AddNodes(ghost seen: seq<Node>, ns: seq<Node>)
      requires nodes == NodeTable(seen) && nodeOrder == NodeOrder(seen)
      requires requesters == EmptyLists(nodes.Keys)
      modifies this
      ensures nodes == NodeTable(seen + ns) && nodeOrder == NodeOrder(seen + ns)
      ensures requesters == EmptyLists(nodes.Keys)
      ensures rules == old(rules)
    {
      nodes, nodeOrder, requesters := StoreNodes(seen, ns, nodes, nodeOrder, requesters);
    }

    /** The loop of `AddNodes`, on the tables it starts from. */
    static method StoreNodes(ghost seen: seq<Node>, ns: seq<Node>, table0: map<string, Node>, order0: seq<string>,
                             lists0: map<string, seq<string>>)
      returns (table: map<string, Node>, order: seq<string>, lists: map<string, seq<string>>)
      requires Stored(seen, table0, order0, lists0)
      ensures Stored(seen + ns, table, order, lists)
    {
      table, order, lists := table0, order0, lists0;
      ghost var prefix := seen;
      var j := 0;
      while j < |ns|
        invariant j <= |ns| && prefix == seen + ns[..j]
        invariant Stored(prefix, table, order, lists)
      {
        var n := ns[j];
        StoreStep(prefix, n, table, order, lists);
        SnocSlice(seen, ns, j);
        if n.id !in table {
          table := table[n.id := n];
          order := order + [n.id];
          lists := lists[n.id := []];
        }
        prefix := prefix + [n];
        j := j + 1;
      }
      assert ns[..j] == ns;
    }

    /** The second loop of the constructor: every rule is appended under each of its dependencies, in order. */
    method FillRequesters(rs: seq<Rule>)
      requires nodes == NodeTable(AllNodes(rs))
      requires requesters == EmptyLists(nodes.Keys)
      modifies this
      ensures requesters == RequesterTable(rs)
      ensures rules == old(rules) && nodes == old(nodes) && nodeOrder == old(nodeOrder)
    {
      DependenciesAreKeys(rs, requesters.Keys);
      requesters := AppendRequesters(rs, requesters);
      CompletedEnd(rs);
    }

    /** The loops of `FillRequesters`, on the table they start from. */
    static method AppendRequesters(rs: seq<Rule>, start: map<string, seq<string>>) returns (table: map<string, seq<string>>)
      requires start == EmptyLists(start.Keys)
      requires forall i, k :: 0 <= i < |rs| && 0 <= k < |rs[i].dependsOn| ==> rs[i].dependsOn[k].id in start.Keys
      ensures table == Completed(rs, |rs|, start.Keys)
    {
      ghost var keys := start.Keys;
      table := start;
      CompletedStart(rs, keys);
      var i := 0;
      while i < |rs|
        invariant i <= |rs|
        invariant table == Completed(rs, i, keys)
      {
        table := AppendRule(rs, i, keys, table);
        i := i + 1;
      }
    }

    /** One pass of the inner loop: rule `i` is appended under each of its dependencies. */
    static method AppendRule(rs: seq<Rule>, i: nat, ghost keys: set<string>, start: map<string, seq<string>>)
      returns (table: map<string, seq<string>>)
      requires i < |rs| && (forall k :: 0 <= k < |rs[i].dependsOn| ==> rs[i].dependsOn[k].id in keys)
      requires start == Completed(rs, i, keys)
      ensures table == Completed(rs, i + 1, keys)
    {
      var r := rs[i];
      var deps := r.dependsOn;
      PartialStart(rs, i, keys);
      table := start;
      var j := 0;
      while j < |deps|
        invariant j <= |deps|
        invariant table == Partial(rs, i, j, keys)
      {
        var d := deps[j].id;
        PartialStep(rs, i, j, keys);
        table := table[d := table[d] + [r.target]];
        j := j + 1;
      }
      PartialEnd(rs, i, keys);
    }

    /**
     * `BuildSystem(rules, skip_verification)`: the tables, or the exception the constructor
     * raises, a repeated target before any failed static check.
     */
    static method Create(rs: seq<Rule>, skipVerification: bool, times: Times) returns (res: Result<BuildSystem, Error>)
      ensures res.Ok? <==>
        RuleTable(rs).Ok? && (!skipVerification ==> StaticChecks(RuleTable(rs).value, InitValues(rs), times).None?)
      ensures res.Ok? ==> fresh(res.value) && res.value.Built(rs)
      ensures res.Err? && RuleTable(rs).Err? ==> res.error == RuleTable(rs).error
      ensures res.Err? && RuleTable(rs).Ok? ==> Some(res.error) == StaticChecks(RuleTable(rs).value, InitValues(rs), times)
    {
      var b := new BuildSystem();
      var e := b.AddRules(rs);
      if e.Some? {
        return Err(e.value);
      }
      b.FillRequesters(rs);
      NodeOrderElems(AllNodes(rs));
      if !skipVerification {
        var c := b.RunStaticChecks(times);
        if c.Some? {
          return Err(c.value);
        }
      }
      return Ok(b);
    }

    /** `_find_rule`: the rule for the node's id, or the error that there is none. */
    method FindRule(n: Node) returns (res: Result<Rule, Error>)
      ensures res.Ok? <==> n.id in rules
      ensures res.Ok? ==> res.value == rules[n.id]
      ensures res.Err? ==> res.error == NoRuleFor(n.id)
    {
      if n.id !in rules {
        return Err(NoRuleFor(n.id));
      }
      return Ok(rules[n.id]);
    }

    /** `list(self.nodes.values())`. */
    method Values() returns (vs: seq<Node>)
      requires Consistent()
      ensures vs == NodeValues(nodes, nodeOrder)
    {
      vs := [];
      var k := 0;
      while k < |nodeOrder|
        invariant k <= |nodeOrder|
        invariant vs == NodeValues(nodes, nodeOrder[..k])
      {
        assert nodeOrder[..k + 1][..k] == nodeOrder[..k];
        vs := vs + [nodes[nodeOrder[k]]];
        k := k + 1;
      }
      assert nodeOrder[..k] == nodeOrder;
    }

    /** `_all_or_one`: every node value when no target is given, else only the target. */
    method AllOrOne(target: Option<Node>) returns (starts: seq<Node>)
      requires Consistent()
      ensures starts == Operations.AllOrOne(NodeValues(nodes, nodeOrder), target)
    {
      if target.None? {
        starts := Values();
      } else {
        starts := [target.value];
      }
    }

    /** `_run_static_checks`: each stored node is checked in order, then the graph is walked from all of them. */
    method RunStaticChecks(times: Times) returns (err: Option<Error>)
      requires Consistent()
      ensures err == StaticChecks(rules, NodeValues(nodes, nodeOrder), times)
    {
      var vs := Values();
      var i := 0;
      while i < |vs|
        invariant i <= |vs|
        invariant CheckNodes(rules, vs, times) == CheckNodes(rules, vs[i..], times)
      {
        assert vs[i..][0] == vs[i] && vs[i..][1..] == vs[i + 1..];
        var n := vs[i];
        if n.Static? {
          var e := VerifyExists(n, times);
          if e.Some? {
            return e;
          }
        } else {
          var r := FindRule(n);
          if r.Err? {
            return Some(r.error);
          }
        }
        i := i + 1;
      }
      var done, trace, e := TraverseDag(vs);
      return e;
    }

    /**
     * `_traverse_dag_aux(n, stack, traversed, ...)`: adds `n` to the traversed set, records
     * preorder_action, walks the dependencies of a dynamic node and records postorder_action.
     */
    method TraverseDagAux(n: Node, stack: set<string>, done: set<string>)
      returns (done': set<string>, trace: seq<Event>, err: Option<Error>)
      requires n.id !in done
      ensures Walk(done', trace, err) == VisitNode(rules, n, stack, done)
      decreases |(Universe(rules) + {n.id}) - done|, 0
    {
      var entered := done + {n.id};
      if n.Static? {
        return entered, [Pre(n), Post(n)], None;
      }
      var found := FindRule(n);
      if found.Err? {
        return entered, [Pre(n)], Some(found.error);
      }
      VisitNodeDynamic(rules, n, stack, done);
      EnterMeasure(rules, n.id, done);
      var done2, trace2, err2 := TraverseDeps(n.id, stack, entered);
      if err2.Some? {
        return done2, [Pre(n)] + trace2, err2;
      }
      return done2, [Pre(n)] + trace2 + [Post(n)], None;
    }

    /** The loop `for dep in rule.depends_on` of `_traverse_dag_aux` for the dynamic node `t`. */
    method TraverseDeps(t: string, stack: set<string>, entered: set<string>)
      returns (done': set<string>, trace: seq<Event>, err: Option<Error>)
      requires t in rules
      ensures Walk(done', trace, err) == VisitDeps(rules, t, 0, stack, entered)
      decreases |Universe(rules) - entered|, 1
    {
      var g := rules;
      var deps := g[t].dependsOn;
      ghost var whole := VisitDeps(g, t, 0, stack, entered);
      var cur := entered;
      var acc: seq<Event> := [];
      var i := 0;
      while i < |deps|
        invariant i <= |deps| && entered <= cur
        invariant DepsLoop(g, t, stack, whole, i, cur, acc)
      {
        var d := deps[i];
        if d.id in stack {
          DepsLoopCycle(g, t, stack, whole, i, cur, acc);
          return cur, acc, Some(CircularDependency(stack + {d.id}));
        }
        if d.id in cur {
          DepsLoopSkip(g, t, stack, whole, i, cur, acc);
        } else {
          DepMeasure(g, t, i, entered, cur);
          var done2, trace2, err2 := TraverseDagAux(d, stack + {t}, cur);
          DepsLoopEnter(g, t, stack, whole, i, cur, acc, Walk(done2, trace2, err2));
          if err2.Some? {
            return done2, acc + trace2, err2;
          }
          acc := acc + trace2;
          cur := done2;
        }
        i := i + 1;
      }
      DepsLoopEnd(g, t, stack, whole, cur, acc);
      return cur, acc, None;
    }

    /** `traverse_dag(starts, ...)`: one traversed set shared by the walks from every start. */
    method TraverseDag(starts: seq<Node>) returns (done: set<string>, trace: seq<Event>, err: Option<Error>)
      ensures Walk(done, trace, err) == Traverse(rules, starts)
    {
      done := {};
      trace := [];
      var i := 0;
      while i < |starts|
        invariant i <= |starts|
        invariant Traverse(rules, starts) == Then(trace, TraverseFrom(rules, starts, i, done))
      {
        if starts[i].id in done {
          TraverseFromSkip(rules, starts, i, done);
        } else {
          TraverseFromEnter(rules, starts, i, done);
          var done2, trace2, err2 := TraverseDagAux(starts[i], {}, done);
          if err2.Some? {
            return done2, trace + trace2, err2;
          }
          ThenThen(trace, trace2, TraverseFrom(rules, starts, i + 1, done2));
          trace := trace + trace2;
          done := done2;
        }
        i := i + 1;
      }
      assert trace + [] == trace;
      return done, trace, None;
    }

    /** `build(target)`: the walk, running each rule that is not up to date when its node is left. */
    method Build(target: Option<Node>, w: World) returns (o: Outcome)
      requires Consistent()
      ensures o == BuildOutcome(rules, Operations.AllOrOne(NodeValues(nodes, nodeOrder), target), w)
    {
      var starts := AllOrOne(target);
      var done, trace, err := TraverseDag(starts);
      var order := PostNodes(trace);
      var cur := w;
      var i := 0;
      while i < |order|
        invariant i <= |order|
        invariant RunRules(rules, order[i..], cur) == RunRules(rules, order, w)
      {
        assert order[i..][0] == order[i] && order[i..][1..] == order[i + 1..];
        var m := order[i];
        var step := ExecuteRule(rules, m, cur);
        if step.Err? {
          return Outcome(cur, Some(step.error));
        }
        cur := step.value;
        i := i + 1;
      }
      return Outcome(cur, err);
    }

    /** `clean(target)`: the walk, removing the file of each dynamic node when it is left. */
    method Clean(target: Option<Node>, times: Times) returns (after: Times, err: Option<Error>)
      requires Consistent()
      ensures (after, err) == CleanOutcome(rules, Operations.AllOrOne(NodeValues(nodes, nodeOrder), target), times)
    {
      var starts := AllOrOne(target);
      var done, trace, e := TraverseDag(starts);
      var order := PostNodes(trace);
      after := times;
      var i := 0;
      while i < |order|
        invariant i <= |order|
        invariant CleanRun(order[i..], after) == CleanRun(order, times)
      {
        assert order[i..][0] == order[i] && order[i..][1..] == order[i + 1..];
        if order[i].Dynamic? {
          after := after - {order[i].id};
        }
        i := i + 1;
      }
      assert order[i..] == [];
      err := e;
    }

    /** The callbacks of `dag`: preorder_action prints the node at the current depth and goes one deeper, postorder_action goes back up. */
    static method DagReplay(trace: seq<Event>) returns (lines: seq<(int, string)>)
      ensures lines == DagLines(trace, 0)
    {
      var depth := 0;
      lines := [];
      var i := 0;
      assert trace[0..] == trace && trace[..0] == [];
      while i < |trace|
        invariant i <= |trace|
        invariant depth == Open(trace[..i])
        invariant lines + DagLines(trace[i..], depth) == DagLines(trace, 0)
      {
        DagStep(trace, i, depth, lines);
        OpenStep(trace, i);
        if trace[i].Pre? {
          lines := lines + [(depth, trace[i].node.id)];
          depth := depth + 1;
        } else {
          depth := depth - 1;
        }
        i := i + 1;
      }
      assert lines + DagLines(trace[i..], depth) == lines;
    }

    /** `dag(target)`: one (depth, id) line per preorder_action, with the counter that the two callbacks move. */
    method Dag(target: Option<Node>) returns (lines: seq<(int, string)>, err: Option<Error>)
      requires Consistent()
      ensures (lines, err) == DagOutcome(rules, Operations.AllOrOne(NodeValues(nodes, nodeOrder), target))
    {
      var starts := AllOrOne(target);
      var done, trace, e := TraverseDag(starts);
      lines := DagReplay(trace);
      err := e;
    }
  }
}
